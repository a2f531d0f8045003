/** fish's add_frames: two text files merged into one stream of blink requests. */
module Fish {
  import opened Bytes
  import Blink

  const OFFSET := 40
  const ROW := 80
  const LENGTH := 15

  // ---------------------------------------------------------------- specification

  datatype Request = Request(location: Blink.word, onChar: byte, offChar: byte)

  /** The character of `line` at column `col`; a line is followed by blanks for ever. */
  function CharAt(line: seq<byte>, col: nat): byte {
    if col < |line| then line[col] else SPACE
  }

  function CellRequest(l0: seq<byte>, l1: seq<byte>, row: nat, col: nat): seq<Request> {
    if CharAt(l0, col) == SPACE && CharAt(l1, col) == SPACE then []
    else [Request((row * ROW + col + OFFSET) % Blink.WORD, CharAt(l0, col), CharAt(l1, col))]
  }

  function RowRequests(l0: seq<byte>, l1: seq<byte>, row: nat, col: nat): seq<Request>
    decreases Max(|l0|, |l1|) - col
  {
    if col >= |l0| && col >= |l1| then []
    else CellRequest(l0, l1, row, col) + RowRequests(l0, l1, row, col + 1)
  }

  function FirstLine(lines: seq<seq<byte>>): seq<byte> { if lines == [] then [] else lines[0] }

  function LaterLines(lines: seq<seq<byte>>): seq<seq<byte>> { if lines == [] then [] else lines[1..] }

  /** The overlay of two grids of lines, row by row from `row` on. */
  function Overlay(g0: seq<seq<byte>>, g1: seq<seq<byte>>, row: nat): seq<Request>
    decreases |g0| + |g1|
  {
    if g0 == [] && g1 == [] then []
    else RowRequests(FirstLine(g0), FirstLine(g1), row, 0) + Overlay(LaterLines(g0), LaterLines(g1), row + 1)
  }

  function LineAt(lines: seq<seq<byte>>, row: nat): seq<byte> { if row < |lines| then lines[row] else [] }

  lemma RowStep(l0: seq<byte>, l1: seq<byte>, row: nat, col: nat)
    ensures RowRequests(l0, l1, row, col)
            == if col >= |l0| && col >= |l1| then []
               else CellRequest(l0, l1, row, col) + RowRequests(l0, l1, row, col + 1)
  {
  }

  lemma OverlayStep(g0: seq<seq<byte>>, g1: seq<seq<byte>>, row: nat)
    requires g0 != [] || g1 != []
    ensures Overlay(g0, g1, row)
            == RowRequests(FirstLine(g0), FirstLine(g1), row, 0) + Overlay(LaterLines(g0), LaterLines(g1), row + 1)
  {
  }

  // ---------------------------------------------------------------- the overlay, told by cells

  /** The character of a grid of lines at row r, column c: blank outside the lines. */
  ghost function GridAt(g: seq<seq<byte>>, r: nat, c: nat): byte {
    if r < |g| && c < |g[r]| then g[r][c] else 32
  }

  /** A cell: row and column. */
  datatype Cell = Cell(row: nat, col: nat)

  ghost predicate Before(a: Cell, b: Cell) { a.row < b.row || (a.row == b.row && a.col < b.col) }

  ghost predicate InOrder(cells: seq<Cell>) {
    forall i, j :: 0 <= i < j < |cells| ==> Before(cells[i], cells[j])
  }

  /** The request of one cell. */
  ghost predicate Asks(q: Request, g0: seq<seq<byte>>, g1: seq<seq<byte>>, cell: Cell) {
    q == Request((80 * cell.row + cell.col + 40) % 65536,
                 GridAt(g0, cell.row, cell.col), GridAt(g1, cell.row, cell.col))
  }

  /** The cell is not blank in both grids. */
  ghost predicate Used(g0: seq<seq<byte>>, g1: seq<seq<byte>>, cell: Cell) {
    !(GridAt(g0, cell.row, cell.col) == 32 && GridAt(g1, cell.row, cell.col) == 32)
  }

  /** `reqs` are the requests of `cells`, one each, in row-major order. */
  ghost predicate Listing(reqs: seq<Request>, cells: seq<Cell>, g0: seq<seq<byte>>, g1: seq<seq<byte>>) {
    && |cells| == |reqs| && InOrder(cells)
    && forall i :: 0 <= i < |cells| ==> Asks(reqs[i], g0, g1, cells[i])
  }

  /** ... and those are exactly the cells that are not blank in both grids. */
  ghost predicate CellByCell(reqs: seq<Request>, cells: seq<Cell>, g0: seq<seq<byte>>, g1: seq<seq<byte>>) {
    Listing(reqs, cells, g0, g1) && forall cell: Cell :: cell in cells <==> Used(g0, g1, cell)
  }

  lemma ListingConcat(a: seq<Request>, b: seq<Request>, c: seq<Cell>, d: seq<Cell>,
                      g0: seq<seq<byte>>, g1: seq<seq<byte>>)
    requires Listing(a, c, g0, g1) && Listing(b, d, g0, g1)
    requires forall i, j :: 0 <= i < |c| && 0 <= j < |d| ==> Before(c[i], d[j])
    ensures Listing(a + b, c + d, g0, g1)
    ensures forall cell: Cell :: cell in c + d <==> cell in c || cell in d
  {
    hide Asks, Before;
  }

  lemma CellAsks(g0: seq<seq<byte>>, g1: seq<seq<byte>>, row: nat, col: nat) returns (cells: seq<Cell>)
    ensures Listing(CellRequest(LineAt(g0, row), LineAt(g1, row), row, col), cells, g0, g1)
    ensures cells == if Used(g0, g1, Cell(row, col)) then [Cell(row, col)] else []
  {
    cells := if Used(g0, g1, Cell(row, col)) then [Cell(row, col)] else [];
  }

  lemma {:induction false} RowInOrder(g0: seq<seq<byte>>, g1: seq<seq<byte>>, row: nat, from: nat)
    returns (cells: seq<Cell>)
    ensures Listing(RowRequests(LineAt(g0, row), LineAt(g1, row), row, from), cells, g0, g1)
    ensures forall cell: Cell :: cell in cells <==> cell.row == row && cell.col >= from && Used(g0, g1, cell)
    decreases Max(|LineAt(g0, row)|, |LineAt(g1, row)|) - from
  {
    var l0, l1 := LineAt(g0, row), LineAt(g1, row);
    RowStep(l0, l1, row, from);
    cells := [];
    if from < |l0| || from < |l1| {
      hide RowRequests, Listing, Used, CellRequest;
      var first := CellAsks(g0, g1, row, from);
      var rest := RowInOrder(g0, g1, row, from + 1);
      assert forall i :: 0 <= i < |rest| ==> rest[i] in rest;
      ListingConcat(CellRequest(l0, l1, row, from), RowRequests(l0, l1, row, from + 1), first, rest, g0, g1);
      cells := first + rest;
    }
  }

  lemma {:induction false} RowsInOrder(g0: seq<seq<byte>>, g1: seq<seq<byte>>, row: nat) returns (cells: seq<Cell>)
    ensures Listing(Overlay(Below(g0, row), Below(g1, row), row), cells, g0, g1)
    ensures forall cell: Cell :: cell in cells <==> cell.row >= row && Used(g0, g1, cell)
    decreases |Below(g0, row)| + |Below(g1, row)|
  {
    cells := [];
    if Below(g0, row) == [] && Below(g1, row) == [] {
      NoOverlay(row);
    } else {
      hide RowRequests, Overlay, Listing, Used;
      var first := RowInOrder(g0, g1, row, 0);
      var rest := RowsInOrder(g0, g1, row + 1);
      assert forall i :: 0 <= i < |first| ==> first[i] in first;
      assert forall i :: 0 <= i < |rest| ==> rest[i] in rest;
      BelowStep(g0, row);
      BelowStep(g1, row);
      OverlayStep(Below(g0, row), Below(g1, row), row);
      ListingConcat(RowRequests(LineAt(g0, row), LineAt(g1, row), row, 0),
                    Overlay(Below(g0, row + 1), Below(g1, row + 1), row + 1), first, rest, g0, g1);
      cells := first + rest;
    }
  }

  ghost function Below(g: seq<seq<byte>>, row: nat): seq<seq<byte>> { if row < |g| then g[row..] else [] }

  lemma BelowStep(g: seq<seq<byte>>, row: nat)
    ensures FirstLine(Below(g, row)) == LineAt(g, row) && LaterLines(Below(g, row)) == Below(g, row + 1)
  {
  }

  /** The overlay of two grids: one request for each cell that is not blank in both, in row-major order, at
      80 * row + column + 40 as a 16-bit number, with the characters of the two grids. */
  lemma OverlayIsCells(g0: seq<seq<byte>>, g1: seq<seq<byte>>) returns (cells: seq<Cell>)
    ensures CellByCell(Overlay(g0, g1, 0), cells, g0, g1)
  {
    assert Below(g0, 0) == g0 && Below(g1, 0) == g1;
    cells := RowsInOrder(g0, g1, 0);
  }

  /** Every request comes from a cell that is not blank in both grids, and every such cell has one. */
  lemma OverlayCells(g0: seq<seq<byte>>, g1: seq<seq<byte>>, q: Request)
    ensures q in Overlay(g0, g1, 0) <==> exists cell: Cell :: Used(g0, g1, cell) && Asks(q, g0, g1, cell)
  {
    hide Overlay, Used, Asks;
    var reqs := Overlay(g0, g1, 0);
    var cells := OverlayIsCells(g0, g1);
    if q in reqs {
      var i :| 0 <= i < |reqs| && reqs[i] == q;
      assert cells[i] in cells && Used(g0, g1, cells[i]) && Asks(q, g0, g1, cells[i]);
    }
    if cell: Cell :| Used(g0, g1, cell) && Asks(q, g0, g1, cell) {
      var i :| 0 <= i < |cells| && cells[i] == cell;
      assert Asks(reqs[i], g0, g1, cell);
      assert reqs[i] == q by { SameAnswer(q, reqs[i], g0, g1, cell); }
    }
  }

  lemma SameAnswer(p: Request, q: Request, g0: seq<seq<byte>>, g1: seq<seq<byte>>, cell: Cell)
    requires Asks(p, g0, g1, cell) && Asks(q, g0, g1, cell)
    ensures p == q
  {
  }

  /** That describes one list of requests only. */
  lemma CellsDetermine(a: seq<Request>, b: seq<Request>, c: seq<Cell>, d: seq<Cell>, g0: seq<seq<byte>>,
                       g1: seq<seq<byte>>)
    requires CellByCell(a, c, g0, g1) && CellByCell(b, d, g0, g1)
    ensures a == b
  {
    SameCells(c, d);
  }

  /** Two ordered lists with the same cells are the same. */
  lemma {:induction false} SameCells(c: seq<Cell>, d: seq<Cell>)
    requires InOrder(c) && InOrder(d) && forall cell: Cell :: cell in c <==> cell in d
    ensures c == d
    decreases |c|
  {
    assert d != [] ==> d[0] in d;
    if c != [] {
      assert c[0] in d;
      assert d[0] in c;
      assert c[0] == d[0];
      var c', d' := c[1..], d[1..];
      assert forall i :: 0 <= i < |c'| ==> c'[i] == c[i + 1] && c'[i] != c[0];
      assert forall i :: 0 <= i < |d'| ==> d'[i] == d[i + 1] && d'[i] != d[0];
      forall cell: Cell ensures cell in c' <==> cell in d' {
        assert cell in c <==> cell == c[0] || cell in c';
        assert cell in d <==> cell == d[0] || cell in d';
      }
      SameCells(c', d');
    }
  }

  // ---------------------------------------------------------------- the program

  /** One of the two files: `c` is the last byte read and turns to newline at the end of a row. */
  class Reader {
    const text: seq<byte>
    var pos: nat
    var c: byte
    var eof: bool

    ghost predicate Valid()
      reads this
    {
      pos <= |text| && (eof ==> c == NEWLINE)
    }

    /** What is still to be read of the current row. */
    ghost function Line(): seq<byte>
      requires Valid()
      reads this
    {
      if c == NEWLINE then [] else Lines(text[pos..])[0]
    }

    /** The rows below the current one. */
    ghost function Below(): seq<seq<byte>>
      requires Valid()
      reads this
    {
      if eof then [] else if c == NEWLINE then Lines(text[pos..]) else Lines(text[pos..])[1..]
    }

    constructor (text: seq<byte>)
      ensures Valid() && this.text == text && !eof && c != NEWLINE
      ensures [Line()] + Below() == Lines(text)
    {
      this.text := text;
      pos := 0;
      c := ZERO;
      eof := false;
      new;
      assert text[0..] == text;
    }

    /** The read at the top of the inner loop: nothing happens once the row has ended. */
    method Advance()
      requires Valid()
      modifies this
      ensures Valid() && Below() == old(Below())
      ensures old(Line()) != [] ==> c == old(Line())[0] && c != NEWLINE && Line() == old(Line())[1..]
      ensures old(Line()) == [] ==> c == NEWLINE && Line() == []
      ensures old(eof) ==> eof
    {
      if c != NEWLINE {
        ghost var rest := text[pos..];
        LineStep(rest);
        if pos == |text| {
          c := NEWLINE;
          eof := true;
        } else {
          c := text[pos];
          pos := pos + 1;
          assert text[pos..] == rest[1..];
        }
      }
    }

    /** The end of a row: a finished file stays at newline, the other starts its next line. */
    method NewRow()
      requires Valid() && c == NEWLINE
      modifies this
      ensures Valid() && eof == old(eof)
      ensures eof ==> Line() == [] && Below() == old(Below()) == []
      ensures !eof ==> [Line()] + Below() == old(Below())
    {
      c := if eof then NEWLINE else ZERO;
    }
  }

  /** How reading one byte shortens the first line. */
  lemma LineStep(s: seq<byte>)
    ensures s == [] ==> Lines(s) == [[]]
    ensures s != [] && s[0] == NEWLINE ==> Lines(s)[0] == [] && Lines(s)[1..] == Lines(s[1..])
    ensures s != [] && s[0] != NEWLINE ==>
              && Lines(s)[0] == [s[0]] + Lines(s[1..])[0]
              && Lines(s)[1..] == Lines(s[1..])[1..]
  {
    if s != [] {
      var k := IndexOf(s, NEWLINE);
      if s[0] == NEWLINE {
        assert s[..0] == [];
      } else {
        assert IndexOf(s[1..], NEWLINE) == k - 1;
        assert s[..k] == [s[0]] + s[1..][..k - 1];
        assert k < |s| ==> s[1..][k..] == s[k + 1..];
      }
    }
  }

  ghost function Grid(r: Reader): seq<seq<byte>>
    requires r.Valid()
    reads r
  {
    if r.eof then [] else [r.Line()] + r.Below()
  }

  ghost function From(line: seq<byte>, col: nat): (rest: seq<byte>)
    ensures col < |line| ==> rest != [] && rest[0] == line[col]
    ensures col >= |line| ==> rest == []
  {
    if col < |line| then line[col..] else []
  }

  lemma FromStep(line: seq<byte>, col: nat)
    ensures From(line, 0) == line
    ensures From(line, col) != [] ==> From(line, col)[1..] == From(line, col + 1)
    ensures From(line, col) == [] ==> From(line, col + 1) == []
  {
  }

  /** One row: the inner loop. */
  method MergeRow(r0: Reader, r1: Reader, row: nat) returns (reqs: seq<Request>)
    requires r0 != r1 && r0.Valid() && r1.Valid()
    modifies r0, r1
    ensures r0.Valid() && r0.c == NEWLINE && r0.Below() == old(r0.Below())
    ensures r1.Valid() && r1.c == NEWLINE && r1.Below() == old(r1.Below())
    ensures old(r0.eof) ==> r0.eof
    ensures old(r1.eof) ==> r1.eof
    ensures reqs == RowRequests(old(r0.Line()), old(r1.Line()), row, 0)
  {
    hide Lines, RowRequests, From, Reader.Line, Reader.Below;
    ghost var l0, l1 := r0.Line(), r1.Line();
    ghost var b0, b1 := r0.Below(), r1.Below();
    var col := 0;
    reqs := [];
    FromStep(l0, 0);
    FromStep(l1, 0);
    while true
      invariant col >= 0
      invariant r0.Valid() && r0.Below() == b0 && r0.Line() == From(l0, col) && (old(r0.eof) ==> r0.eof)
      invariant r1.Valid() && r1.Below() == b1 && r1.Line() == From(l1, col) && (old(r1.eof) ==> r1.eof)
      invariant reqs + RowRequests(l0, l1, row, col) == RowRequests(l0, l1, row, 0)
      decreases Max(|l0|, |l1|) - col
    {
      FromStep(l0, col);
      FromStep(l1, col);
      RowStep(l0, l1, row, col);
      r0.Advance();
      r1.Advance();
      if r0.c == NEWLINE && r1.c == NEWLINE { break; }
      ghost var before := reqs;
      if (r0.c != SPACE && r0.c != NEWLINE) || (r1.c != SPACE && r1.c != NEWLINE) {
        reqs := reqs + [Request((row * ROW + col + OFFSET) % Blink.WORD,
                                if r0.c == NEWLINE then SPACE else r0.c,
                                if r1.c == NEWLINE then SPACE else r1.c)];
      }
      assert reqs == before + CellRequest(l0, l1, row, col);
      Associative(before, CellRequest(l0, l1, row, col), RowRequests(l0, l1, row, col + 1));
      col := col + 1;
    }
  }

  /** The merge of two files: the requests are the overlay of their lines, in row-major order. */
  method AddFrames(f0: seq<byte>, f1: seq<byte>) returns (reqs: seq<Request>)
    ensures reqs == Overlay(Lines(f0), Lines(f1), 0)
    ensures exists cells :: CellByCell(reqs, cells, Lines(f0), Lines(f1))
  {
    hide RowRequests, Lines, Overlay, Reader.Line, Reader.Below, CellByCell;
    var r0 := new Reader(f0);
    var r1 := new Reader(f1);
    var row := 0;
    reqs := [];
    while !r0.eof || !r1.eof
      invariant r0 != r1 && r0.Valid() && r1.Valid()
      invariant r0.eof ==> r0.Line() == [] && r0.Below() == []
      invariant r1.eof ==> r1.Line() == [] && r1.Below() == []
      invariant row >= 0 && reqs + Overlay(Grid(r0), Grid(r1), row) == Overlay(Lines(f0), Lines(f1), 0)
      decreases |Grid(r0)| + |Grid(r1)|
    {
      ghost var g0, g1 := Grid(r0), Grid(r1);
      OverlayStep(g0, g1, row);
      var more := MergeRow(r0, r1, row);
      r0.NewRow();
      r1.NewRow();
      assert Grid(r0) == LaterLines(g0);
      assert Grid(r1) == LaterLines(g1);
      Associative(reqs, more, Overlay(Grid(r0), Grid(r1), row + 1));
      reqs := reqs + more;
      row := row + 1;
    }
    assert Overlay([], [], row) == [] by { NoOverlay(row); }
    ghost var cells := OverlayIsCells(Lines(f0), Lines(f1));
  }

  lemma NoOverlay(row: nat)
    ensures Overlay([], [], row) == []
  {
  }
}
