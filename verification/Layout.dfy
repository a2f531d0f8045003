/** How text lies on the 80x25 screen: the independent description that the console is proved against. */
module Layout {
  import opened Bytes

  const COLS := 80
  const ROWS := 25

  predicate IsBreak(c: byte) { c == NEWLINE || c == RETURN }

  function FirstBreak(s: seq<byte>): (k: nat)
    ensures k <= |s|
    ensures forall i :: 0 <= i < k ==> !IsBreak(s[i])
    ensures k < |s| ==> IsBreak(s[k])
  {
    if s == [] || IsBreak(s[0]) then 0 else 1 + FirstBreak(s[1..])
  }

  /** One unbroken line cut into full rows and a shorter last one. */
  function Wrap(line: seq<byte>): (rows: seq<seq<byte>>)
    ensures rows != []
    decreases |line|
  {
    if |line| < COLS then [line] else [line[..COLS]] + Wrap(line[COLS..])
  }

  /** All rows of a text; the cursor stands after the last one. */
  function Rows(s: seq<byte>): (rows: seq<seq<byte>>)
    ensures rows != []
    decreases |s|
  {
    var k := FirstBreak(s);
    if k == |s| then Wrap(s) else Wrap(s[..k]) + Rows(s[k + 1..])
  }

  /** The rows after one more character. */
  function Append(rows: seq<seq<byte>>, c: byte): (r: seq<seq<byte>>)
    requires rows != []
    ensures r != []
  {
    var last := |rows| - 1;
    if IsBreak(c) then rows + [[]]
    else if |rows[last]| + 1 == COLS then rows[..last] + [rows[last] + [c], []]
    else rows[..last] + [rows[last] + [c]]
  }

  lemma AppendAfter(a: seq<seq<byte>>, b: seq<seq<byte>>, c: byte)
    requires b != []
    ensures Append(a + b, c) == a + Append(b, c)
  {
    var last := |b| - 1;
    assert (a + b)[..|a| + last] == a + b[..last];
    assert (a + b)[|a| + last] == b[last];
  }

  lemma {:induction false} WrapAppend(line: seq<byte>, c: byte)
    requires !IsBreak(c)
    ensures Wrap(line + [c]) == Append(Wrap(line), c)
    decreases |line|
  {
    if |line| < COLS {
      assert [line][..0] == [];
      if |line| + 1 == COLS {
        assert (line + [c])[..COLS] == line + [c] && (line + [c])[COLS..] == [];
        assert Wrap([]) == [[]];
        assert Wrap(line + [c]) == [line + [c]] + [[]];
      }
    } else {
      var rest := line[COLS..];
      WrapAppend(rest, c);
      assert (line + [c])[..COLS] == line[..COLS] && (line + [c])[COLS..] == rest + [c];
      AppendAfter([line[..COLS]], Wrap(rest), c);
    }
  }

  lemma FirstBreakUnique(s: seq<byte>, k: nat)
    requires k <= |s| && (forall i :: 0 <= i < k ==> !IsBreak(s[i])) && (k < |s| ==> IsBreak(s[k]))
    ensures FirstBreak(s) == k
  {
  }

  /** Laying out one more character only touches the last row. */
  lemma {:induction false} RowsAppend(s: seq<byte>, c: byte)
    ensures Rows(s + [c]) == Append(Rows(s), c)
    decreases |s|
  {
    hide FirstBreak, Wrap, Append;
    var k, t := FirstBreak(s), s + [c];
    if k < |s| {
      FirstBreakUnique(t, k);
      var rest := s[k + 1..];
      assert t[..k] == s[..k] && t[k + 1..] == rest + [c];
      RowsAppend(rest, c);
      AppendAfter(Wrap(s[..k]), Rows(rest), c);
    } else if IsBreak(c) {
      FirstBreakUnique(t, k);
      assert t[..k] == s && t[k + 1..] == [];
      AppendBreak(Wrap(s), c);
    } else {
      FirstBreakUnique(t, |t|);
      WrapAppend(s, c);
    }
  }

  lemma AppendBreak(rows: seq<seq<byte>>, c: byte)
    requires rows != [] && IsBreak(c)
    ensures Append(rows, c) == rows + Rows([])
  {
    assert Rows([]) == [[]];
  }

  /** Text without line breaks: row r holds characters 80 r to 80 r + 79. */
  lemma {:induction false} PlainRows(s: seq<byte>)
    requires forall i :: 0 <= i < |s| ==> s[i] != 10 && s[i] != 13
    ensures |Rows(s)| == |s| / 80 + 1
    ensures forall r :: 0 <= r <= |s| / 80 ==> Rows(s)[r] == s[80 * r..Min(80 * r + 80, |s|)]
    decreases |s|
  {
    FirstBreakUnique(s, |s|);
    WrappedRows(s);
  }

  lemma {:induction false} WrappedRows(line: seq<byte>)
    ensures |Wrap(line)| == |line| / 80 + 1
    ensures forall r :: 0 <= r <= |line| / 80 ==> Wrap(line)[r] == line[80 * r..Min(80 * r + 80, |line|)]
    decreases |line|
  {
    if |line| >= 80 {
      var rest := line[80..];
      WrappedRows(rest);
      forall r | 0 < r <= |line| / 80 ensures Wrap(line)[r] == line[80 * r..Min(80 * r + 80, |line|)] {
        assert Wrap(line)[r] == Wrap(rest)[r - 1];
        assert rest[80 * (r - 1)..Min(80 * (r - 1) + 80, |rest|)] == line[80 * r..Min(80 * r + 80, |line|)];
      }
    }
  }

  /** A newline or a carriage return starts a new row, whatever stands around it. */
  lemma {:induction false} RowsAtBreak(a: seq<byte>, c: byte, b: seq<byte>)
    requires c == 10 || c == 13
    ensures Rows(a + [c] + b) == Rows(a) + Rows(b)
    decreases |a|
  {
    hide FirstBreak, Wrap;
    var k, all := FirstBreak(a), a + [c] + b;
    FirstBreakUnique(all, k);
    assert all[..k] == a[..k];
    if k < |a| {
      var rest := a[k + 1..];
      assert all[k + 1..] == rest + [c] + b;
      RowsAtBreak(rest, c, b);
    } else {
      assert all[k + 1..] == b && a[..k] == a;
    }
  }

  /** Rows as the layout produces them: none wider than the screen, and room after the last. */
  ghost predicate Laid(rows: seq<seq<byte>>) {
    && rows != []
    && (forall i :: 0 <= i < |rows| ==> |rows[i]| <= COLS)
    && |rows[|rows| - 1]| < COLS
  }

  lemma AppendLaid(rows: seq<seq<byte>>, c: byte)
    requires Laid(rows)
    ensures Laid(Append(rows, c))
  {
  }

  // ---------------------------------------------------------------- screens

  datatype Screen = Screen(cells: seq<byte>, x: nat, y: nat)

  ghost predicate WellFormed(s: Screen) { |s.cells| == COLS * ROWS && s.x < COLS && s.y < ROWS }

  const BLANK: Screen := Screen(seq(COLS * ROWS, i => SPACE), 0, 0)

  /** The first row still on the screen. */
  function Top(rows: seq<seq<byte>>): nat { Max(0, |rows| - ROWS) }

  /** Row r of the screen, column c: the text padded with blanks. */
  function CellAt(rows: seq<seq<byte>>, r: nat, c: nat): byte {
    var row := Top(rows) + r;
    if row < |rows| && c < |rows[row]| then rows[row][c] else SPACE
  }

  /** The last 25 rows, padded with blanks, with the cursor at the end of the text. */
  function Show(rows: seq<seq<byte>>): (s: Screen)
    requires rows != []
    ensures |s.cells| == COLS * ROWS
    ensures forall i :: 0 <= i < COLS * ROWS ==> s.cells[i] == CellAt(rows, i / COLS, i % COLS)
    ensures s.x == |rows[|rows| - 1]| && s.y == |rows| - 1 - Top(rows)
  {
    Screen(seq(COLS * ROWS, i requires 0 <= i < COLS * ROWS => CellAt(rows, i / COLS, i % COLS)),
           |rows[|rows| - 1]|, |rows| - 1 - Top(rows))
  }

  /** shift_down: every row moves up, the last one is blank, and the cursor is at its start. */
  function Scrolled(cells: seq<byte>): (s: Screen)
    requires |cells| == COLS * ROWS
    ensures |s.cells| == COLS * ROWS && s.x == 0 && s.y == ROWS - 1
    ensures forall i :: 0 <= i < COLS * ROWS ==>
              s.cells[i] == if i < COLS * (ROWS - 1) then cells[i + COLS] else SPACE
  {
    var moved := i requires 0 <= i < COLS * ROWS => if i < COLS * (ROWS - 1) then cells[i + COLS] else SPACE;
    Screen(seq(COLS * ROWS, moved), 0, ROWS - 1)
  }

  function Put(s: Screen, c: byte): (r: Screen)
    requires WellFormed(s)
    ensures WellFormed(r)
  {
    if IsBreak(c) then
      if s.y == ROWS - 1 then Scrolled(s.cells) else s.(x := 0, y := s.y + 1)
    else
      var cells := s.cells[COLS * s.y + s.x := c];
      if s.x + 1 < COLS then Screen(cells, s.x + 1, s.y)
      else if s.y == ROWS - 1 then Scrolled(cells)
      else Screen(cells, 0, s.y + 1)
  }

  function PutAll(s: Screen, text: seq<byte>): (r: Screen)
    requires WellFormed(s)
    ensures WellFormed(r)
  {
    if text == [] then s else Put(PutAll(s, text[..|text| - 1]), text[|text| - 1])
  }

  function Erase(s: Screen): (r: Screen)
    requires WellFormed(s)
    ensures WellFormed(r)
  {
    if s.x != 0 then Screen(s.cells[COLS * s.y + s.x - 1 := SPACE], s.x - 1, s.y)
    else if s.y != 0 then Screen(s.cells[COLS * s.y - 1 := SPACE], COLS - 1, s.y - 1)
    else s
  }

  /** One character on any screen, cell by cell: it is written at the cursor unless it breaks the line; the
      cursor moves on, to the next row after the last column or a break; and on the last row that scrolls. */
  lemma PutMeans(s: Screen, c: byte)
    requires WellFormed(s)
    ensures var r, breaks := Put(s, c), c == 10 || c == 13;
            var next := breaks || s.x == 79;
            var scrolls := next && s.y == 24;
            && (r.x, r.y) == (if next then 0 else s.x + 1, if next && s.y < 24 then s.y + 1 else s.y)
            && |r.cells| == 2000
            && forall i, from :: 0 <= i < 2000 && from == (if scrolls then i + 80 else i) ==>
                 r.cells[i] == if !breaks && from == 80 * s.y + s.x then c
                               else if from < 2000 then s.cells[from] else 32
  {
    hide Scrolled;
  }

  /** A backspace on any screen: nothing at the origin; otherwise the cell before the cursor is blanked, across
      rows too, and the cursor stands on it. */
  lemma EraseMeans(s: Screen)
    requires WellFormed(s)
    ensures var r, p := Erase(s), 80 * s.y + s.x - 1;
            && (p < 0 ==> r == s)
            && (p >= 0 ==>
                  && 80 * r.y + r.x == p && r.x < 80 && |r.cells| == 2000
                  && forall i :: 0 <= i < 2000 ==> r.cells[i] == if i == p then 32 else s.cells[i])
  {
  }

  /** Writing at the cursor lengthens the last row by one character. */
  lemma WriteCell(rows: seq<seq<byte>>, c: byte, longer: seq<seq<byte>>)
    requires Laid(rows)
    requires longer == rows[..|rows| - 1] + [rows[|rows| - 1] + [c]]
    ensures WellFormed(Show(rows))
    ensures Show(longer).cells == Show(rows).cells[COLS * Show(rows).y + Show(rows).x := c]
  {
    hide Show;
    var s := Show(rows);
    var at := COLS * s.y + s.x;
    assert at / COLS == s.y && at % COLS == s.x;
    var a, b := Show(longer).cells, s.cells[at := c];
    forall i | 0 <= i < COLS * ROWS ensures a[i] == b[i] {
      assert i == COLS * (i / COLS) + i % COLS;
    }
  }

  lemma NextRowCell(i: nat)
    ensures (i + COLS) / COLS == i / COLS + 1 && (i + COLS) % COLS == i % COLS
  {
  }

  lemma CellAfterNewRow(rows: seq<seq<byte>>, r: nat, c: nat)
    requires rows != [] && r < ROWS
    ensures CellAt(rows + [[]], r, c)
            == if |rows| < ROWS then CellAt(rows, r, c)
               else if r == ROWS - 1 then SPACE else CellAt(rows, r + 1, c)
  {
  }

  /** A new empty row moves the screen exactly as a scroll does, once the screen is full. */
  lemma NewRow(rows: seq<seq<byte>>)
    requires rows != []
    ensures |rows| >= ROWS ==> Show(rows + [[]]) == Scrolled(Show(rows).cells)
    ensures |rows| < ROWS ==> Show(rows + [[]]) == Screen(Show(rows).cells, 0, Show(rows).y + 1)
  {
    hide Show, Scrolled, CellAt;
    var a, was := Show(rows + [[]]), Show(rows);
    var b := if |rows| >= ROWS then Scrolled(was.cells).cells else was.cells;
    forall i | 0 <= i < COLS * ROWS ensures a.cells[i] == b[i] {
      var r, c := i / COLS, i % COLS;
      NextRowCell(i);
      CellAfterNewRow(rows, r, c);
      assert a.cells[i] == CellAt(rows + [[]], r, c);
      if |rows| >= ROWS && i < COLS * (ROWS - 1) {
        assert was.cells[i + COLS] == CellAt(rows, r + 1, c);
      }
    }
    assert a.cells == b;
  }

  /** One character on the screen is one character in the layout. */
  lemma PutShows(rows: seq<seq<byte>>, c: byte)
    requires Laid(rows)
    ensures WellFormed(Show(rows)) && Put(Show(rows), c) == Show(Append(rows, c))
  {
    hide Show, Scrolled;
    var last := |rows| - 1;
    if IsBreak(c) {
      NewRow(rows);
    } else {
      var longer := rows[..last] + [rows[last] + [c]];
      WriteCell(rows, c, longer);
      if |rows[last]| + 1 == COLS {
        NewRow(longer);
        assert Append(rows, c) == longer + [[]];
      }
    }
  }

  /** From a cleared screen, any text leaves exactly the last 25 rows of its layout. */
  lemma {:induction false} TextShows(text: seq<byte>)
    ensures Laid(Rows(text))
    ensures PutAll(BLANK, text) == Show(Rows(text))
  {
    if text == [] {
      var a, b := BLANK.cells, Show(Rows([])).cells;
      assert Rows([]) == [[]];
      assert a == b;
    } else {
      hide Show, Put, Rows, Append, Laid;
      var init, c := text[..|text| - 1], text[|text| - 1];
      TextShows(init);
      assert text == init + [c];
      RowsAppend(init, c);
      AppendLaid(Rows(init), c);
      PutShows(Rows(init), c);
    }
  }

  /** Erasing right after a printable character leaves the screen as if a blank had been printed there:
      in place, with the cursor back where it was, or, exactly when the character scrolled the screen, one
      row up. */
  lemma EraseUndoesPut(s: Screen, c: byte)
    requires WellFormed(s) && !IsBreak(c)
    ensures var r, blanked := Erase(Put(s, c)), s.cells[COLS * s.y + s.x := SPACE];
            && ((r.x, r.y) == (s.x, s.y) <==> !(s.x == COLS - 1 && s.y == ROWS - 1))
            && r == if s.x == COLS - 1 && s.y == ROWS - 1
                    then Screen(Scrolled(blanked).cells, COLS - 1, ROWS - 2)
                    else s.(cells := blanked)
  {
    hide Scrolled;
    var r, blanked := Erase(Put(s, c)), s.cells[COLS * s.y + s.x := SPACE];
    if s.x == COLS - 1 && s.y == ROWS - 1 {
      assert r.cells == Scrolled(blanked).cells;
    } else {
      assert r.cells == blanked;
    }
  }
}
