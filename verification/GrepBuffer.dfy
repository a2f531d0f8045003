/** The buffer of grep as a value: what each filled buffer gives up for searching and what it keeps, for
    files with any bytes in them, and when no byte is lost. */
module GrepBuffer {
  import opened Bytes
  import opened GrepLines

  // ---------------------------------------------------------------- one pass over a filled buffer

  /** What follows the last newline. */
  function Tail(text: seq<byte>): (tail: seq<byte>) {
    var p := Lines(text);
    p[|p| - 1]
  }

  lemma {:induction false} TailIsSuffix(text: seq<byte>)
    ensures |Tail(text)| <= |text| && Tail(text) == text[|text| - |Tail(text)|..]
    ensures NEWLINE !in Tail(text)
    ensures |Tail(text)| == |text| <==> NEWLINE !in text
    ensures |Tail(text)| < |text| ==> text[|text| - |Tail(text)| - 1] == NEWLINE
    decreases |text|
  {
    hide IndexOf, Split;
    var k := IndexOf(text, NEWLINE);
    SplitStep(text, NEWLINE, k);
    if k < |text| {
      TailIsSuffix(text[k + 1..]);
    } else {
      assert text[..k] == text;
    }
  }

  /** `text` as the search leaves it: a NUL in place of each newline. */
  function Ended(text: seq<byte>): (r: seq<byte>)
    ensures |r| == |text|
    ensures forall i :: 0 <= i < |text| ==> r[i] == if text[i] == NEWLINE then NUL else text[i]
  {
    seq(|text|, i requires 0 <= i < |text| => if text[i] == NEWLINE then NUL else text[i])
  }

  /** The pass keeps an unfinished line for later: one that is not the whole buffer, unless the file has
      ended or the byte after it happens to be a newline. */
  predicate Keeps(data: seq<byte>, filled: nat, cnt: nat)
    requires filled < |data|
  {
    0 < |Tail(data[..filled])| < filled && cnt != 0 && data[filled] != NEWLINE
  }

  function Searched(data: seq<byte>, filled: nat, cnt: nat): (segs: seq<seq<byte>>)
    requires filled < |data|
  {
    var p := Lines(data[..filled]);
    if Keeps(data, filled, cnt) then p[..|p| - 1] else p
  }

  function Kept(data: seq<byte>, filled: nat, cnt: nat): (last: nat)
    requires filled < |data|
    ensures last == 0 || last < filled
  {
    if Keeps(data, filled, cnt) then |Tail(data[..filled])| else 0
  }

  /** The buffer after the pass. The kept line moves to the front with strcpy, so only up to its first
      NUL: behind that the buffer stays as it was. */
  function Passed(data: seq<byte>, filled: nat, cnt: nat): (r: seq<byte>)
    requires filled < |data|
    ensures |r| == |data|
  {
    TailIsSuffix(data[..filled]);
    var tail, ended := Tail(data[..filled]), Ended(data[..filled]);
    var searched := ended + [NUL] + data[filled + 1..];
    if Keeps(data, filled, cnt) then CString(tail) + [NUL] + searched[|CString(tail)| + 1..]
    else if tail == [] && filled > 0 then ended + data[filled..]
    else searched
  }

  // ---------------------------------------------------------------- the whole file

  /** The buffer after a read of `cnt` bytes behind the `last` kept ones. */
  function Refilled(data: seq<byte>, last: nat, rest: seq<byte>, cnt: nat): (r: seq<byte>)
    requires last + cnt <= |data| && cnt <= |rest|
    ensures |r| == |data|
  {
    data[..last] + rest[..cnt] + data[last + cnt..]
  }

  function ReadSize(last: nat, rest: seq<byte>): (cnt: nat)
    requires last < BUFSIZE
    ensures cnt <= |rest| && last + cnt <= BUFSIZE
    ensures cnt == 0 <==> rest == []
    ensures last + cnt < BUFSIZE ==> cnt == |rest|
  {
    Min(BUFSIZE - last, |rest|)
  }

  /** Everything searched from here on: `last` bytes are kept in the buffer and `rest` is not yet read. */
  function Scan(data: seq<byte>, last: nat, rest: seq<byte>): (segs: seq<seq<byte>>)
    requires |data| == BUFSIZE + 1 && last < BUFSIZE
    decreases |rest|
  {
    var cnt := ReadSize(last, rest);
    var full, filled := Refilled(data, last, rest, cnt), last + cnt;
    if cnt == 0 then Searched(full, filled, cnt)
    else Searched(full, filled, cnt) + Scan(Passed(full, filled, cnt), Kept(full, filled, cnt), rest[cnt..])
  }

  /** Every line kept on the way is moved whole. */
  predicate Intact(data: seq<byte>, last: nat, rest: seq<byte>)
    requires |data| == BUFSIZE + 1 && last < BUFSIZE
    decreases |rest|
  {
    var cnt := ReadSize(last, rest);
    var full, filled := Refilled(data, last, rest, cnt), last + cnt;
    cnt == 0 || (
      && MovesWhole(full, filled, cnt)
      && Intact(Passed(full, filled, cnt), Kept(full, filled, cnt), rest[cnt..])
    )
  }

  predicate MovesWhole(data: seq<byte>, filled: nat, cnt: nat)
    requires filled < |data|
  {
    Keeps(data, filled, cnt) ==> Tail(data[..filled]) <= Passed(data, filled, cnt)
  }

  // ---------------------------------------------------------------- facts about a pass

  /** The kept bytes hold no newline, and are the line itself when it holds no NUL. */
  lemma KeptBytes(data: seq<byte>, filled: nat, cnt: nat)
    requires filled < |data|
    ensures var last, r := Kept(data, filled, cnt), Passed(data, filled, cnt);
            && NEWLINE !in r[..last]
            && (Keeps(data, filled, cnt) && NUL !in Tail(data[..filled]) ==> r[..last] == Tail(data[..filled]))
  {
    hide Lines, Split, IndexOf, Tail;
    var text := data[..filled];
    TailIsSuffix(text);
    if Keeps(data, filled, cnt) {
      var tail, r := Tail(text), Passed(data, filled, cnt);
      var m := |CString(tail)|;
      forall i | 0 <= i < |tail| ensures r[i] != NEWLINE {
        if i < m { assert r[i] == tail[i]; }
      }
      if NUL !in tail {
        IndexOfUnique(tail, NUL, |tail|);
        assert r[..|tail|] == tail;
      }
    }
  }

  /** The byte after the buffer changes only when the buffer is full and does not end with a newline. */
  lemma StaleAfter(data: seq<byte>, filled: nat, cnt: nat)
    requires |data| == BUFSIZE + 1 && filled <= BUFSIZE
    ensures var r := Passed(data, filled, cnt);
            r[BUFSIZE] == if filled == BUFSIZE && data[BUFSIZE - 1] != NEWLINE then NUL else data[BUFSIZE]
  {
    hide Lines, Split, IndexOf, Tail;
    var text := data[..filled];
    TailIsSuffix(text);
    if filled == BUFSIZE {
      assert text[BUFSIZE - 1] == data[BUFSIZE - 1];
      if Tail(text) != [] { assert Tail(text)[|Tail(text)| - 1] == text[BUFSIZE - 1]; }
    }
  }

  // ---------------------------------------------------------------- the cut of one pass

  /** All lines but the last of a buffer are cut off, whatever follows the buffer. */
  lemma {:induction false} CutLines(text: seq<byte>, rest: seq<byte>)
    requires |text| <= BUFSIZE
    ensures var p := Lines(text); Cut(text + rest) == p[..|p| - 1] + Cut(Tail(text) + rest)
    decreases |text|
  {
    hide IndexOf, Split, Cut;
    var k := IndexOf(text, NEWLINE);
    SplitStep(text, NEWLINE, k);
    if k < |text| {
      var later := text[k + 1..];
      CutLines(later, rest);
      assert (text + rest)[..k] == text[..k] && (text + rest)[k + 1..] == later + rest;
      IndexOfUnique(text + rest, NEWLINE, k);
      CutAtNewline(text + rest, k);
      var p, q := Lines(text), Lines(later);
      assert p == [text[..k]] + q;
      assert p[..|p| - 1] == [text[..k]] + q[..|q| - 1];
    }
  }

  /** A text without newline that is searched as it stands. */
  lemma CutSearched(text: seq<byte>, rest: seq<byte>)
    requires NEWLINE !in text && |text| <= BUFSIZE && (|text| == BUFSIZE || rest == [] || text == [])
    ensures NonEmpty(Cut(text + rest)) == NonEmpty([text]) + NonEmpty(Cut(rest))
  {
    hide NonEmpty, IndexOf, Cut;
    if text == [] {
      assert text + rest == rest;
      NonEmptyCons([], []);
      NothingIsEmpty();
      assert [text] + [] == [text];
    } else if rest == [] {
      assert text + rest == text && text[..|text|] == text;
      IndexOfUnique(text, NEWLINE, |text|);
      CutWithoutNewline(text);
      IndexOfUnique([], NEWLINE, 0);
      CutWithoutNewline(rest);
      NonEmptyCons(rest, []);
      NothingIsEmpty();
      assert [rest] + [] == [rest];
    } else {
      var all := text + rest;
      assert all[..BUFSIZE] == text && all[BUFSIZE..] == rest;
      assert forall i :: 0 <= i < BUFSIZE ==> all[i] == text[i] != NEWLINE;
      CutAtFullBuffer(all);
      NonEmptyCons(text, Cut(rest));
      NonEmptyCons(text, []);
      NothingIsEmpty();
      assert [text] + [] == [text];
    }
  }

  /** A pass that keeps nothing has searched the whole buffer, and the cut goes on with the rest. */
  lemma CutWhole(text: seq<byte>, rest: seq<byte>)
    requires |text| <= BUFSIZE
    requires rest == [] || Tail(text) == [] || (|text| == BUFSIZE && NEWLINE !in text)
    ensures NonEmpty(Cut(text + rest)) == NonEmpty(Lines(text)) + NonEmpty(Cut(rest))
  {
    hide Split, NonEmpty, Cut;
    var p := Lines(text);
    TailIsSuffix(text);
    CutLines(text, rest);
    CutSearched(Tail(text), rest);
    NonEmptyConcat(p[..|p| - 1], Cut(Tail(text) + rest));
    NonEmptyConcat(p[..|p| - 1], [Tail(text)]);
    assert p == p[..|p| - 1] + [Tail(text)];
  }

  // ---------------------------------------------------------------- when no byte is lost

  /** The bytes of all segments, one after the other. */
  function Flat(segs: seq<seq<byte>>): seq<byte> {
    if segs == [] then [] else segs[0] + Flat(segs[1..])
  }

  lemma {:induction false} FlatConcat(a: seq<seq<byte>>, b: seq<seq<byte>>)
    ensures Flat(a + b) == Flat(a) + Flat(b)
  {
    if a == [] {
      assert a + b == b;
    } else {
      assert (a + b)[0] == a[0] && (a + b)[1..] == a[1..] + b;
      FlatConcat(a[1..], b);
    }
  }

  lemma {:induction false} FlatNonEmpty(segs: seq<seq<byte>>)
    ensures Flat(NonEmpty(segs)) == Flat(segs)
  {
    if segs != [] {
      var head := if segs[0] == [] then [] else [segs[0]];
      FlatNonEmpty(segs[1..]);
      FlatConcat(head, NonEmpty(segs[1..]));
      assert Flat(head) == segs[0];
    }
  }

  lemma FlatOne(seg: seq<byte>)
    ensures Flat([seg]) == seg
  {
  }

  lemma FlatLines(a: seq<byte>, b: seq<byte>)
    ensures Flat(Lines(a + b)) == Flat(Lines(a)) + Flat(Lines(b))
  {
    hide Flat, Split;
    var p, q := Lines(a), Lines(b);
    var init, last := p[..|p| - 1], p[|p| - 1];
    SplitConcat(a, b, NEWLINE);
    FlatConcat(init + [last + q[0]], q[1..]);
    FlatConcat(init, [last + q[0]]);
    FlatOne(last + q[0]);
    assert p == init + [last] && q == [q[0]] + q[1..];
    FlatConcat(init, [last]);
    FlatOne(last);
    FlatConcat([q[0]], q[1..]);
    FlatOne(q[0]);
  }

  /** Cutting drops newlines and nothing else. */
  lemma {:induction false} FlatCut(text: seq<byte>)
    ensures Flat(Cut(text)) == Flat(Lines(text))
    decreases |text|
  {
    hide Flat, Split, IndexOf, Cut;
    var k := IndexOf(text, NEWLINE);
    SplitStep(text, NEWLINE, k);
    if k < |text| && k < BUFSIZE {
      CutAtNewline(text, k);
      FlatCut(text[k + 1..]);
      FlatConcat([text[..k]], Cut(text[k + 1..]));
      FlatConcat([text[..k]], Lines(text[k + 1..]));
    } else if |text| >= BUFSIZE {
      var a, b := text[..BUFSIZE], text[BUFSIZE..];
      CutAtFullBuffer(text);
      FlatCut(b);
      FlatConcat([a], Cut(b));
      assert text == a + b && a[..BUFSIZE] == a;
      FlatLines(a, b);
      assert forall i :: 0 <= i < BUFSIZE ==> a[i] == text[..k][i] != NEWLINE;
      IndexOfUnique(a, NEWLINE, BUFSIZE);
      SplitStep(a, NEWLINE, BUFSIZE);
    } else {
      CutShort(text);
    }
  }

  lemma CutShort(text: seq<byte>)
    requires IndexOf(text, NEWLINE) == |text| < BUFSIZE
    ensures Cut(text) == [text]
  {
  }

  lemma {:induction false} FlatSegments(text: seq<byte>, stale: bool)
    ensures Flat(Segments(text, stale)) == Flat(Lines(text))
    decreases |text|
  {
    hide Flat, Cut, Lines;
    if !stale || |text| < BUFSIZE {
      FlatCut(text);
    } else {
      var a, b := text[..BUFSIZE], text[BUFSIZE..];
      assert text == a + b;
      FlatCut(a);
      FlatSegments(b, text[BUFSIZE - 1] == NEWLINE);
      FlatConcat(Cut(a), Segments(b, text[BUFSIZE - 1] == NEWLINE));
      FlatLines(a, b);
    }
  }

  /** What holds between two reads: the kept bytes are part of one line, and nothing is kept before the
      end of the file while a newline stands after the buffer. */
  ghost predicate Resting(data: seq<byte>, last: nat, rest: seq<byte>) {
    && |data| == BUFSIZE + 1 && last < BUFSIZE && NEWLINE !in data[..last]
    && (data[BUFSIZE] == NEWLINE && rest != [] ==> last == 0)
  }

  /** What the file's text still has to give. */
  ghost function Due(data: seq<byte>, last: nat, rest: seq<byte>): seq<seq<byte>>
    requires |data| == BUFSIZE + 1 && last <= BUFSIZE
  {
    Segments(data[..last] + rest, data[BUFSIZE] == NEWLINE)
  }

  /** A buffer that a stale newline ends. */
  lemma StalePass(data: seq<byte>, rest: seq<byte>, cnt: nat)
    requires |data| == BUFSIZE + 1 && data[BUFSIZE] == NEWLINE && cnt > 0
    ensures !Keeps(data, BUFSIZE, cnt) && Resting(Passed(data, BUFSIZE, cnt), 0, rest)
    ensures NonEmpty(Due(data, BUFSIZE, rest))
            == NonEmpty(Searched(data, BUFSIZE, cnt)) + NonEmpty(Due(Passed(data, BUFSIZE, cnt), 0, rest))
  {
    hide Cut, NonEmpty, Split, Passed, Tail;
    var text, next := data[..BUFSIZE], Passed(data, BUFSIZE, cnt);
    var all := text + rest;
    assert all[..BUFSIZE] == text && all[BUFSIZE..] == rest && next[..0] + rest == rest;
    StaleAfter(data, BUFSIZE, cnt);
    SmallTextHasShortLines(text);
    CutIsLinesIffShort(text);
    NonEmptyConcat(Cut(text), Segments(rest, text[BUFSIZE - 1] == NEWLINE));
  }

  /** A pass that keeps nothing. */
  lemma PassEnds(data: seq<byte>, filled: nat, rest: seq<byte>, cnt: nat)
    requires |data| == BUFSIZE + 1 && filled <= BUFSIZE && cnt > 0 && (filled < BUFSIZE ==> rest == [])
    requires !Keeps(data, filled, cnt)
    ensures Resting(Passed(data, filled, cnt), 0, rest)
    ensures NonEmpty(Due(data, filled, rest))
            == NonEmpty(Searched(data, filled, cnt)) + NonEmpty(Due(Passed(data, filled, cnt), 0, rest))
  {
    hide Cut, NonEmpty, Split, Passed, Tail;
    if data[BUFSIZE] == NEWLINE && filled == BUFSIZE {
      StalePass(data, rest, cnt);
    } else {
      var text, next := data[..filled], Passed(data, filled, cnt);
      assert next[..0] + rest == rest && text + [] == text;
      StaleAfter(data, filled, cnt);
      TailIsSuffix(text);
      CutWhole(text, rest);
    }
  }

  /** A pass that keeps an unfinished line. */
  lemma PassKeeps(data: seq<byte>, filled: nat, rest: seq<byte>, cnt: nat)
    requires |data| == BUFSIZE + 1 && filled <= BUFSIZE && cnt > 0 && (filled < BUFSIZE ==> rest == [])
    requires Keeps(data, filled, cnt)
    ensures var tail, next := Tail(data[..filled]), Passed(data, filled, cnt);
            && Resting(next, |tail|, rest)
            && Due(data, filled, rest) == Searched(data, filled, cnt) + Cut(tail + rest)
            && (MovesWhole(data, filled, cnt) <==> next[..|tail|] == tail)
            && (MovesWhole(data, filled, cnt) ==> Due(next, |tail|, rest) == Cut(tail + rest))
  {
    hide Cut, Split, Passed, Tail;
    var text, next := data[..filled], Passed(data, filled, cnt);
    var tail := Tail(text);
    TailIsSuffix(text);
    StaleAfter(data, filled, cnt);
    KeptBytes(data, filled, cnt);
    CutLines(text, rest);
    assert filled == BUFSIZE ==> tail[|tail| - 1] == data[BUFSIZE - 1];
  }

  /** A text that starts inside a line is cut behind that start at the earliest. */
  lemma CutBehind(start: seq<byte>, rest: seq<byte>)
    requires NEWLINE !in start && |start| <= BUFSIZE
    ensures start <= Flat(Cut(start + rest))
  {
    hide Flat, Split, Cut;
    FlatCut(start + rest);
    LinesBehind(start, rest);
  }

  lemma LinesBehind(start: seq<byte>, rest: seq<byte>)
    requires NEWLINE !in start
    ensures start <= Lines(start + rest)[0] && start <= Flat(Lines(start + rest))
  {
    hide Split;
    var all := start + rest;
    SplitConcat(start, rest, NEWLINE);
    assert start[..|start|] == start;
    IndexOfUnique(start, NEWLINE, |start|);
    SplitStep(start, NEWLINE, |start|);
  }

  /** The scan starts with the kept bytes, right or wrong. */
  lemma ScanBehind(data: seq<byte>, last: nat, rest: seq<byte>)
    requires Resting(data, last, rest)
    ensures data[..last] <= Flat(Scan(data, last, rest))
  {
    hide Split, Flat, Passed;
    var cnt := ReadSize(last, rest);
    var full, filled := Refilled(data, last, rest, cnt), last + cnt;
    assert full[..filled] == data[..last] + rest[..cnt];
    LinesBehind(data[..last], rest[..cnt]);
    var p, segs := Lines(full[..filled]), Searched(full, filled, cnt);
    if Keeps(full, filled, cnt) && |p| == 1 {
      assert Tail(full[..filled]) == p[0];
      FlatOne(p[0]);
      assert p == [p[0]];
      TailIsSuffix(full[..filled]);
      OnePiece(full[..filled]);
    }
    assert segs == [segs[0]] + segs[1..];
    FlatConcat([segs[0]], segs[1..]);
    FlatOne(segs[0]);
    if cnt > 0 {
      FlatConcat(segs, Scan(Passed(full, filled, cnt), Kept(full, filled, cnt), rest[cnt..]));
    }
  }

  lemma OnePiece(text: seq<byte>)
    requires |Lines(text)| == 1
    ensures Tail(text) == text
  {
  }

  /** Segments searched, what is searched later and what is due later, against what is due now. */
  lemma Compare(segs: seq<seq<byte>>, later: seq<seq<byte>>, due: seq<seq<byte>>, all: seq<seq<byte>>)
    requires NonEmpty(all) == NonEmpty(segs) + NonEmpty(due)
    ensures NonEmpty(later) == NonEmpty(due) ==> NonEmpty(segs + later) == NonEmpty(all)
    ensures Flat(later) != Flat(due) ==> Flat(segs + later) != Flat(all)
  {
    hide Flat, NonEmpty;
    NonEmptyConcat(segs, later);
    FlatConcat(segs, later);
    FlatNonEmpty(all);
    FlatConcat(NonEmpty(segs), NonEmpty(due));
    FlatNonEmpty(segs);
    FlatNonEmpty(due);
    SamePrefix(Flat(segs), Flat(later), Flat(due));
  }

  /** The end of the file: what is kept is searched. */
  lemma ScanLast(data: seq<byte>, last: nat)
    requires Resting(data, last, [])
    ensures Intact(data, last, [])
    ensures Scan(data, last, []) == Due(data, last, [])
  {
    hide Split, IndexOf;
    var text := data[..last];
    assert text + [] == text && Refilled(data, last, [], 0) == data && text[..last] == text;
    IndexOfUnique(text, NEWLINE, last);
    SplitStep(text, NEWLINE, last);
    CutShort(text);
  }

  /** Bytes that differ at the start differ. */
  lemma StartsDiffer(a: seq<byte>, b: seq<byte>, x: seq<byte>, y: seq<byte>)
    requires a <= x && b <= y && |a| == |b| && a != b
    ensures x != y
  {
    assert x[..|a|] == a && y[..|b|] == b;
  }

  /** One pass, given how the scan goes on from the buffer it leaves. */
  lemma PassIsDue(data: seq<byte>, filled: nat, rest: seq<byte>, cnt: nat)
    requires |data| == BUFSIZE + 1 && filled <= BUFSIZE && cnt > 0 && (filled < BUFSIZE ==> rest == [])
    ensures var next, last := Passed(data, filled, cnt), Kept(data, filled, cnt);
            && Resting(next, last, rest)
            && var later, due, all := Scan(next, last, rest), Due(next, last, rest), Due(data, filled, rest);
            && var segs := Searched(data, filled, cnt);
            && (MovesWhole(data, filled, cnt) && NonEmpty(later) == NonEmpty(due) ==>
                  NonEmpty(segs + later) == NonEmpty(all))
            && (!MovesWhole(data, filled, cnt) || Flat(later) != Flat(due) ==> Flat(segs + later) != Flat(all))
  {
    hide Lines, Split, Flat, Cut, NonEmpty, Passed, Searched, Tail, Segments, Scan, Due;
    var next, last := Passed(data, filled, cnt), Kept(data, filled, cnt);
    var segs, all := Searched(data, filled, cnt), Due(data, filled, rest);
    if !Keeps(data, filled, cnt) {
      PassEnds(data, filled, rest, cnt);
      Compare(segs, Scan(next, last, rest), Due(next, last, rest), all);
    } else {
      var tail := Tail(data[..filled]);
      hide Keeps, MovesWhole;
      PassKeeps(data, filled, rest, cnt);
      NonEmptyConcat(segs, Cut(tail + rest));
      Compare(segs, Scan(next, last, rest), Cut(tail + rest), all);
      if !MovesWhole(data, filled, cnt) {
        TailIsSuffix(data[..filled]);
        ScanBehind(next, last, rest);
        CutBehind(tail, rest);
        StartsDiffer(next[..last], tail, Flat(Scan(next, last, rest)), Flat(Cut(tail + rest)));
      }
    }
  }

  /** What is searched from here on is what is due, when every kept line is moved whole; otherwise it is
      not even the same bytes. */
  lemma {:induction false} ScanIsDue(data: seq<byte>, last: nat, rest: seq<byte>)
    requires Resting(data, last, rest)
    ensures Intact(data, last, rest) ==> NonEmpty(Scan(data, last, rest)) == NonEmpty(Due(data, last, rest))
    ensures !Intact(data, last, rest) ==> Flat(Scan(data, last, rest)) != Flat(Due(data, last, rest))
    decreases |rest|
  {
    hide Lines, Split, Flat, Cut, NonEmpty, Passed, Keeps, Searched, Tail, MovesWhole, Segments;
    if rest == [] {
      ScanLast(data, last);
      return;
    }
    var cnt := ReadSize(last, rest);
    var full, filled, later := Refilled(data, last, rest, cnt), last + cnt, rest[cnt..];
    assert full[..filled] + later == data[..last] + rest && full[BUFSIZE] == data[BUFSIZE];
    PassIsDue(full, filled, later, cnt);
    ScanIsDue(Passed(full, filled, cnt), Kept(full, filled, cnt), later);
  }

  // ---------------------------------------------------------------- the condition on the file

  /** The last line of a window survives the move to the front: what follows its first NUL is what stood at
      that place of the window, newlines ended. */
  predicate TailMoves(window: seq<byte>) {
    TailIsSuffix(window);
    var tail := Tail(window);
    var m := |CString(tail)|;
    m == |tail| || tail[m + 1..] == Ended(window)[m + 1..|tail|]
  }

  /** No byte of `text` is lost: cut into windows of 1024 bytes, each from where the last one left its
      unfinished line, every such line survives its move. A window is not kept from when a newline follows
      it in memory: after a full one that is the `stale` byte, after a short text `ended` says so. */
  predicate NulSafe(text: seq<byte>, stale: bool, ended: bool)
    decreases |text|
  {
    TailIsSuffix(text[..Min(BUFSIZE, |text|)]);
    var window := text[..Min(BUFSIZE, |text|)];
    var tail := Tail(window);
    var kept := 0 < |tail| < |window| && !(if |text| < BUFSIZE then ended else stale);
    && (kept ==> TailMoves(window))
    && (|text| >= BUFSIZE ==>
          if kept then NulSafe(tail + text[BUFSIZE..], false, false)
          else NulSafe(text[BUFSIZE..], stale && text[BUFSIZE - 1] == NEWLINE, false))
  }

  /** What the buffer holds before the scan matters in one byte or two. */
  predicate Lossless(data: seq<byte>, text: seq<byte>)
    requires |data| == BUFSIZE + 1
  {
    NulSafe(text, data[BUFSIZE] == NEWLINE, |text| < BUFSIZE && data[|text|] == NEWLINE)
  }

  lemma MovesIff(data: seq<byte>, filled: nat, cnt: nat)
    requires filled < |data|
    ensures MovesWhole(data, filled, cnt) <==> (Keeps(data, filled, cnt) ==> TailMoves(data[..filled]))
  {
    hide Split, Tail, IndexOf, Ended;
    var window := data[..filled];
    TailIsSuffix(window);
    MovedTail(Tail(window), Ended(window), data[filled + 1..]);
  }

  lemma MovedTail(tail: seq<byte>, ended: seq<byte>, behind: seq<byte>)
    requires |tail| <= |ended|
    ensures var str := CString(tail);
            tail <= str + [NUL] + (ended + [NUL] + behind)[|str| + 1..]
            <==> |str| == |tail| || tail[|str| + 1..] == ended[|str| + 1..|tail|]
  {
    var m := IndexOf(tail, NUL);
    var r := tail[..m] + [NUL] + (ended + [NUL] + behind)[m + 1..];
    assert tail <= r <==> r[..|tail|] == tail;
    if m < |tail| {
      assert r[..|tail|] == tail[..m] + [NUL] + ended[m + 1..|tail|];
      assert tail == tail[..m] + [NUL] + tail[m + 1..];
      SamePrefix(tail[..m] + [NUL], ended[m + 1..|tail|], tail[m + 1..]);
    } else {
      assert r[..|tail|] == tail;
    }
  }

  /** A pass leaves no newline in the part of the buffer it went over. */
  lemma NoNewlineLeft(data: seq<byte>, filled: nat, cnt: nat, i: nat)
    requires i < filled < |data|
    ensures Passed(data, filled, cnt)[i] != NEWLINE
  {
    hide Split, Tail, CString;
    var text := data[..filled];
    TailIsSuffix(text);
    var tail, r := Tail(text), Passed(data, filled, cnt);
    if Keeps(data, filled, cnt) {
      var m := |CString(tail)|;
      if i < m {
        assert r[i] == CString(tail)[i] == tail[i];
      } else if i > m {
        assert r[i] == Ended(text)[i];
      }
    } else {
      assert r[i] == Ended(text)[i];
    }
  }

  /** A kept line that is moved, and what comes behind it. */
  lemma KeptText(data: seq<byte>, cnt: nat, rest: seq<byte>)
    requires |data| == BUFSIZE + 1 && Keeps(data, BUFSIZE, cnt)
    ensures var tail, next := Tail(data[..BUFSIZE]), Passed(data, BUFSIZE, cnt);
            MovesWhole(data, BUFSIZE, cnt) ==>
              next[..|tail|] == tail && (Lossless(next, tail + rest) <==> NulSafe(tail + rest, false, false))
  {
    hide Split, Tail, Passed, NulSafe, MovesWhole;
    var window, next := data[..BUFSIZE], Passed(data, BUFSIZE, cnt);
    TailIsSuffix(window);
    StaleAfter(data, BUFSIZE, cnt);
    PassKeeps(data, BUFSIZE, rest, cnt);
    var tail := Tail(window);
    assert tail[|tail| - 1] == data[BUFSIZE - 1];
    if |tail + rest| < BUFSIZE { NoNewlineLeft(data, BUFSIZE, cnt, |tail + rest|); }
  }

  /** A full buffer that is searched to its end. */
  lemma SearchedText(data: seq<byte>, cnt: nat, rest: seq<byte>)
    requires |data| == BUFSIZE + 1
    ensures Lossless(Passed(data, BUFSIZE, cnt), rest)
            <==> NulSafe(rest, data[BUFSIZE] == NEWLINE && data[BUFSIZE - 1] == NEWLINE, false)
  {
    hide Split, Tail, Passed, NulSafe;
    StaleAfter(data, BUFSIZE, cnt);
    if |rest| < BUFSIZE { NoNewlineLeft(data, BUFSIZE, cnt, |rest|); }
  }

  lemma NothingLost(data: seq<byte>, last: nat)
    requires |data| == BUFSIZE + 1 && last < BUFSIZE
    ensures Intact(data, last, [])
  {
  }

  lemma {:induction false} NulSafeStep(text: seq<byte>, stale: bool, ended: bool)
    ensures var window := text[..Min(BUFSIZE, |text|)];
            var tail := Tail(window);
            var kept := 0 < |tail| < |window| && !(if |text| < BUFSIZE then ended else stale);
            NulSafe(text, stale, ended) <==>
              && (kept ==> TailMoves(window))
              && (|text| >= BUFSIZE ==>
                    if kept then NulSafe(tail + text[BUFSIZE..], false, false)
                    else NulSafe(text[BUFSIZE..], stale && text[BUFSIZE - 1] == NEWLINE, false))
  {
    TailIsSuffix(text[..Min(BUFSIZE, |text|)]);
  }

  /** The scan moves every kept line whole exactly when the file says so. */
  lemma {:induction false} IntactIff(data: seq<byte>, last: nat, rest: seq<byte>)
    requires Resting(data, last, rest)
    ensures Intact(data, last, rest) <==> Lossless(data, data[..last] + rest)
    decreases |rest|
  {
    hide Lines, Split, Passed, Tail, MovesWhole, TailMoves, Intact, Scan, NulSafe, Refilled, Searched, Lossless;
    ScanStep(data, last, rest);
    var text, cnt := data[..last] + rest, ReadSize(last, rest);
    var full, filled, later := Refilled(data, last, rest, cnt), last + cnt, rest[cnt..];
    RefilledBytes(data, last, rest, cnt);
    var window := text[..filled];
    assert full[..filled] == window && full[filled..] == data[filled..];
    assert full[filled] == data[filled] && full[BUFSIZE] == data[BUFSIZE];
    assert text == window + later && text[filled..] == later;
    TailIsSuffix(window);
    LosslessStep(data, text);
    if cnt == 0 {
      assert window == data[..last];
      return;
    }
    MovesIff(full, filled, cnt);
    PassIsDue(full, filled, later, cnt);
    var next, kept := Passed(full, filled, cnt), Kept(full, filled, cnt);
    if filled < BUFSIZE {
      assert later == [];
      NothingLost(next, kept);
    } else {
      IntactIff(next, kept, later);
      assert window[BUFSIZE - 1] == full[BUFSIZE - 1];
      if Keeps(full, filled, cnt) {
        KeptText(full, cnt, later);
      } else {
        SearchedText(full, cnt, later);
        assert next[..kept] + later == later;
      }
    }
  }

  lemma LosslessStep(data: seq<byte>, text: seq<byte>)
    requires |data| == BUFSIZE + 1
    ensures var window := text[..Min(BUFSIZE, |text|)];
            var tail := Tail(window);
            var kept := 0 < |tail| < |window| && data[|window|] != NEWLINE;
            Lossless(data, text) <==>
              && (kept ==> TailMoves(window))
              && (|text| >= BUFSIZE ==>
                    if kept then NulSafe(tail + text[BUFSIZE..], false, false)
                    else NulSafe(text[BUFSIZE..], data[BUFSIZE] == NEWLINE && text[BUFSIZE - 1] == NEWLINE, false))
  {
    hide Tail, TailMoves, NulSafe;
    NulSafeStep(text, data[BUFSIZE] == NEWLINE, |text| < BUFSIZE && data[|text|] == NEWLINE);
  }

  /** Conservation: the searched segments hold all bytes of the file but its newlines, in order, if and
      only if the file is lossless. */
  lemma ScanKeepsBytes(data: seq<byte>, text: seq<byte>)
    requires |data| == BUFSIZE + 1
    ensures Flat(Scan(data, 0, text)) == Flat(Lines(text)) <==> Lossless(data, text)
  {
    hide Scan, Intact, Segments, Lines, Flat, NonEmpty, Lossless;
    var stale := data[BUFSIZE] == NEWLINE;
    assert data[..0] + text == text;
    ScanIsDue(data, 0, text);
    IntactIff(data, 0, text);
    FlatSegments(text, stale);
    FlatNonEmpty(Scan(data, 0, text));
    FlatNonEmpty(Segments(text, stale));
  }

  /** The file is searched line by line: it is lossless, and no line is longer than the buffer or, with a
      newline after the buffer, cut at its end. */
  predicate ByLines(data: seq<byte>, text: seq<byte>)
    requires |data| == BUFSIZE + 1
  {
    Lossless(data, text) && if data[BUFSIZE] == NEWLINE then Clean(text) else ShortLines(text)
  }

  /** The scanner searches exactly the non-empty lines, once each and in order, if and only if that holds. */
  lemma ScanIsLines(data: seq<byte>, text: seq<byte>)
    requires |data| == BUFSIZE + 1
    ensures NonEmpty(Scan(data, 0, text)) == NonEmpty(Lines(text)) <==> ByLines(data, text)
  {
    hide Scan, Intact, Segments, Lines, Flat, NonEmpty, Clean, ShortLines, Lossless;
    assert data[..0] + text == text;
    ScanIsDue(data, 0, text);
    IntactIff(data, 0, text);
    ScanKeepsBytes(data, text);
    SegmentsAreLines(text, data[BUFSIZE] == NEWLINE);
    FlatNonEmpty(Scan(data, 0, text));
    FlatNonEmpty(Lines(text));
  }

  /** Then grep prints exactly the lines that contain the search string, whole, if and only if each of them
      holds no NUL and the string is not empty and does not start with a byte of 0x80 or more. */
  lemma GrepPrintsMatchingLines(s: seq<byte>, name: seq<byte>, data: seq<byte>, text: seq<byte>)
    requires |data| == BUFSIZE + 1 && ByLines(data, text)
    ensures Report(s, name, Scan(data, 0, text)) == Matches(s, name, Lines(text))
            <==> forall i :: 0 <= i < |Lines(text)| ==> PrintedRight(Lines(text)[i], s)
  {
    hide Scan, ByLines, Lines, Report, Matches, PrintedRight, NonEmpty;
    ScanIsLines(data, text);
    ReportSkipsEmpty(s, name, Scan(data, 0, text));
    ReportSkipsEmpty(s, name, Lines(text));
    ReportIsMatchesIff(s, name, Lines(text));
  }

  // ---------------------------------------------------------------- NUL bytes

  /** A file without NUL loses nothing. */
  lemma {:induction false} NulFreeLossless(text: seq<byte>, stale: bool, ended: bool)
    requires NUL !in text
    ensures NulSafe(text, stale, ended)
    decreases |text|
  {
    hide Split, Tail, NulSafe;
    NulSafeStep(text, stale, ended);
    var window := text[..Min(BUFSIZE, |text|)];
    TailIsSuffix(window);
    var tail := Tail(window);
    assert NUL !in tail;
    IndexOfUnique(tail, NUL, |tail|);
    if |text| >= BUFSIZE {
      if |tail| < |window| { NulFreeLossless(tail + text[BUFSIZE..], false, false); }
      NulFreeLossless(text[BUFSIZE..], stale && text[BUFSIZE - 1] == NEWLINE, false);
    }
  }

  lemma LinesOfTwo(a: seq<byte>, b: seq<byte>)
    requires NEWLINE !in a && NEWLINE !in b
    ensures Lines(a + [NEWLINE] + b) == [a, b]
  {
    hide IndexOf, Split;
    var text := a + [NEWLINE] + b;
    assert text[..|a|] == a && text[|a| + 1..] == b && b[..|b|] == b;
    IndexOfUnique(text, NEWLINE, |a|);
    SplitStep(text, NEWLINE, |a|);
    IndexOfUnique(b, NEWLINE, |b|);
    SplitStep(b, NEWLINE, |b|);
  }

  lemma NulPass(data: seq<byte>, x: byte, y: byte, z: byte)
    requires |data| == BUFSIZE + 1 && data[..5] == [x, NEWLINE, y, NUL, z] && data[5] != NEWLINE
    requires x != NEWLINE && y != NEWLINE && z != NEWLINE && y != NUL
    ensures Lines(data[..5]) == [[x], [y, NUL, z]]
    ensures Keeps(data, 5, 5) && Kept(data, 5, 5) == 3 && Searched(data, 5, 5) == [[x]]
    ensures Passed(data, 5, 5)[..3] == [y, NUL, y]
  {
    hide IndexOf, Split;
    var text, tail := [x, NEWLINE, y, NUL, z], [y, NUL, z];
    assert text == [x] + [NEWLINE] + tail;
    LinesOfTwo([x], tail);
    IndexOfUnique(tail, NUL, 1);
    assert CString(tail) == [y];
    assert Ended(text)[2] == y;
  }

  /** A file that does: x, newline, y, NUL, z. The move of the last line stops at the NUL, so its z is never
      searched and its y is searched twice. */
  lemma NulLosesBytes(data: seq<byte>, x: byte, y: byte, z: byte)
    requires |data| == BUFSIZE + 1 && data[5] != NEWLINE
    requires x != NEWLINE && y != NEWLINE && z != NEWLINE && y != NUL && y != z
    ensures var text := [x, NEWLINE, y, NUL, z];
            && Lines(text) == [[x], [y, NUL, z]]
            && Scan(data, 0, text) == [[x], [y, NUL, y]]
            && !Lossless(data, text)
  {
    hide Split, Lines, Passed, Searched, Keeps, Kept, Tail, Scan, Intact, Refilled, Due, Lossless;
    var text := [x, NEWLINE, y, NUL, z];
    var full := Refilled(data, 0, text, 5);
    assert text[..5] == text && text[5..] == [];
    RefilledBytes(data, 0, text, 5);
    NulPass(full, x, y, z);
    ScanStep(data, 0, text);
    var next := Passed(full, 5, 5);
    ScanKept(next, [y, NUL, y]);
    LastOf(text);
    assert next[..3][2] == next[2];
    assert data[..0] + text == text;
    IntactIff(data, 0, text);
  }

  /** The end of the file, with `kept` in the buffer. */
  lemma ScanKept(data: seq<byte>, kept: seq<byte>)
    requires |data| == BUFSIZE + 1 && |kept| < BUFSIZE && data[..|kept|] == kept && NEWLINE !in kept
    ensures Scan(data, |kept|, []) == [kept]
  {
    hide Scan, Cut;
    ScanLast(data, |kept|);
    assert kept + [] == kept;
    OneLine(kept);
  }

  lemma RefilledBytes(data: seq<byte>, last: nat, rest: seq<byte>, cnt: nat)
    requires last + cnt < |data| && cnt <= |rest|
    ensures var r := Refilled(data, last, rest, cnt);
            r[..last + cnt] == data[..last] + rest[..cnt] && r[last + cnt..] == data[last + cnt..]
  {
  }

  /** One read and one pass. */
  lemma {:induction false} ScanStep(data: seq<byte>, last: nat, rest: seq<byte>)
    requires |data| == BUFSIZE + 1 && last < BUFSIZE
    ensures var cnt := ReadSize(last, rest);
            var full, filled := Refilled(data, last, rest, cnt), last + cnt;
            var segs, next, kept := Searched(full, filled, cnt), Passed(full, filled, cnt), Kept(full, filled, cnt);
            && Scan(data, last, rest) == (if cnt == 0 then segs else segs + Scan(next, kept, rest[cnt..]))
            && (Intact(data, last, rest) <==>
                  cnt == 0 || (MovesWhole(full, filled, cnt) && Intact(next, kept, rest[cnt..])))
  {
  }

  lemma LastOf(text: seq<byte>)
    ensures Tail(text) == Lines(text)[|Lines(text)| - 1]
  {
  }
}
