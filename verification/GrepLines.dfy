/** What grep searches and prints: the file cut where the scanner cuts it, against the file's lines. */
module GrepLines {
  import opened Bytes

  const BUFSIZE := 1024
  const COLON: byte := 58

  // ---------------------------------------------------------------- specification

  /** `s` occurs in `line` at some position. */
  ghost predicate Contains(line: seq<byte>, s: seq<byte>) {
    exists k :: 0 <= k <= |line| - |s| && OccursAt(line, s, k)
  }

  ghost predicate OccursAt(line: seq<byte>, s: seq<byte>, k: int) {
    0 <= k <= |line| - |s| && forall i :: 0 <= i < |s| ==> s[i] == line[k + i]
  }

  /** A byte read through a `char`, which is signed. */
  function Signed(b: byte): int { if b < 0x80 then b else b - 0x100 }

  /** The test on a line. The first character of the search string is read as a signed number and compared
      with an unsigned byte, so from 0x80 on it is never found; that of an empty string is its NUL. */
  ghost predicate Hit(line: seq<byte>, s: seq<byte>) {
    if s == [] then NUL in line else s[0] < 0x80 && Contains(line, s)
  }

  /** What grep prints for the segments `segs`, in order; a segment is printed up to its first NUL. */
  ghost function Report(s: seq<byte>, name: seq<byte>, segs: seq<seq<byte>>): seq<byte> {
    if segs == [] then []
    else
      (if Hit(segs[0], s) then name + [COLON] + CString(segs[0]) + [NEWLINE] else [])
      + Report(s, name, segs[1..])
  }

  /** The file cut at newlines, and at every full buffer that has no newline in it. */
  ghost function Cut(text: seq<byte>): (segs: seq<seq<byte>>)
    decreases |text|
  {
    var k := IndexOf(text, NEWLINE);
    if k < |text| && k < BUFSIZE then [text[..k]] + Cut(text[k + 1..])
    else if |text| >= BUFSIZE then [text[..BUFSIZE]] + Cut(text[BUFSIZE..])
    else [text]
  }

  /** What the scanner searches. `stale` says that the uninitialised byte after the buffer happens to be
      a newline: then a buffer is cut at its end, until one that does not end with a newline clears
      that byte. */
  ghost function Segments(text: seq<byte>, stale: bool): (segs: seq<seq<byte>>)
    decreases |text|
  {
    if !stale || |text| < BUFSIZE then Cut(text)
    else Cut(text[..BUFSIZE]) + Segments(text[BUFSIZE..], text[BUFSIZE - 1] == NEWLINE)
  }

  // ---------------------------------------------------------------- cutting against lines

  predicate ShortLines(text: seq<byte>) {
    forall i :: 0 <= i < |Lines(text)| ==> |Lines(text)[i]| <= BUFSIZE
  }

  lemma {:induction false} CutSegmentsFit(text: seq<byte>, seg: seq<byte>)
    requires seg in Cut(text)
    ensures |seg| <= BUFSIZE
    decreases |text|
  {
    var k := IndexOf(text, NEWLINE);
    if k < |text| && k < BUFSIZE {
      if seg != text[..k] { CutSegmentsFit(text[k + 1..], seg); }
    } else if |text| >= BUFSIZE {
      if seg != text[..BUFSIZE] { CutSegmentsFit(text[BUFSIZE..], seg); }
    }
  }

  lemma {:induction false} NonEmptyMembers(segs: seq<seq<byte>>, seg: seq<byte>)
    ensures seg in NonEmpty(segs) <==> seg in segs && seg != []
  {
    if segs != [] {
      NonEmptyMembers(segs[1..], seg);
      assert segs == [segs[0]] + segs[1..];
    }
  }

  lemma CutAtNewline(text: seq<byte>, k: nat)
    requires k == IndexOf(text, NEWLINE) < |text| && k < BUFSIZE
    ensures Cut(text) == [text[..k]] + Cut(text[k + 1..])
  {
  }

  lemma CutAtFullBuffer(text: seq<byte>)
    requires IndexOf(text, NEWLINE) >= BUFSIZE
    ensures Cut(text) == [text[..BUFSIZE]] + Cut(text[BUFSIZE..])
  {
  }

  /** A line that fills the buffer exactly: its newline starts the next buffer. */
  lemma CutAfterFullLine(text: seq<byte>)
    requires IndexOf(text, NEWLINE) == BUFSIZE < |text|
    ensures NonEmpty(Cut(text)) == NonEmpty([text[..BUFSIZE]] + Cut(text[BUFSIZE + 1..]))
  {
    hide Cut, NonEmpty, IndexOf;
    var next, rest := text[BUFSIZE..], text[BUFSIZE + 1..];
    IndexOfUnique(next, NEWLINE, 0);
    assert next[1..] == rest && next[..0] == [];
    CutAtNewline(next, 0);
    CutAtFullBuffer(text);
    NonEmptyCons(text[..BUFSIZE], Cut(next));
    NonEmptyCons(text[..BUFSIZE], Cut(rest));
    NonEmptyCons([], Cut(rest));
  }

  lemma CutWithoutNewline(text: seq<byte>)
    requires IndexOf(text, NEWLINE) == |text| <= BUFSIZE
    ensures NonEmpty(Cut(text)) == NonEmpty([text])
  {
    if |text| == BUFSIZE {
      assert text[..BUFSIZE] == text && text[BUFSIZE..] == [];
      assert Cut([]) == [[]];
      assert Cut(text) == [text] + [[]];
      NonEmptyCons(text, [[]]);
      NonEmptyCons(text, []);
      assert NonEmpty([[]]) == [];
    }
  }

  lemma {:induction false} ShortLinesCutAsLines(text: seq<byte>)
    requires ShortLines(text)
    ensures NonEmpty(Cut(text)) == NonEmpty(Lines(text))
    decreases |text|
  {
    hide Cut, NonEmpty, IndexOf;
    var k := IndexOf(text, NEWLINE);
    assert Lines(text)[0] == text[..k];
    if k == |text| {
      CutWithoutNewline(text);
      return;
    }
    var rest := text[k + 1..];
    assert forall i :: 0 <= i < |Lines(rest)| ==> Lines(rest)[i] == Lines(text)[i + 1];
    ShortLinesCutAsLines(rest);
    NonEmptyCons(text[..k], Lines(rest));
    NonEmptyCons(text[..k], Cut(rest));
    if k == BUFSIZE {
      CutAfterFullLine(text);
    } else {
      CutAtNewline(text, k);
    }
  }

  lemma CutIsLinesIffShort(text: seq<byte>)
    ensures NonEmpty(Cut(text)) == NonEmpty(Lines(text)) <==> ShortLines(text)
  {
    if ShortLines(text) {
      ShortLinesCutAsLines(text);
    } else {
      var i :| 0 <= i < |Lines(text)| && |Lines(text)[i]| > BUFSIZE;
      var long := Lines(text)[i];
      NonEmptyMembers(Lines(text), long);
      NonEmptyMembers(Cut(text), long);
      if long in Cut(text) {
        CutSegmentsFit(text, long);
      }
    }
  }

  // ---------------------------------------------------------------- long lines

  /** A line in pieces of 1024 bytes. */
  ghost function Chunks(line: seq<byte>): (pieces: seq<seq<byte>>)
    ensures |pieces| == |line| / 1024 + 1
    ensures forall i :: 0 <= i < |pieces| ==> pieces[i] == line[1024 * i..Min(1024 * i + 1024, |line|)]
  {
    seq(|line| / 1024 + 1, i requires 0 <= i <= |line| / 1024 => line[1024 * i..Min(1024 * i + 1024, |line|)])
  }

  lemma ChunksStep(line: seq<byte>)
    ensures |line| < 1024 ==> Chunks(line) == [line]
    ensures |line| >= 1024 ==> Chunks(line) == [line[..1024]] + Chunks(line[1024..])
  {
    if |line| < 1024 {
      assert Chunks(line)[0] == line[0..|line|] == line;
    } else {
      var rest := line[1024..];
      var a, b := Chunks(line), [line[..1024]] + Chunks(rest);
      assert |rest| / 1024 == |line| / 1024 - 1;
      assert a[0] == line[0..1024] == b[0];
      forall i | 0 < i < |a| ensures a[i] == b[i] {
        var lo, hi := 1024 * (i - 1), Min(1024 * (i - 1) + 1024, |rest|);
        assert b[i] == Chunks(rest)[i - 1] == rest[lo..hi];
        assert rest[lo..hi] == line[lo + 1024..hi + 1024];
      }
    }
  }

  /** A line of any length is searched in pieces of 1024 bytes, and then what follows it. */
  lemma {:induction false} CutOfLine(line: seq<byte>, rest: seq<byte>)
    requires NEWLINE !in line
    ensures NonEmpty(Cut(line + [NEWLINE] + rest)) == NonEmpty(Chunks(line)) + NonEmpty(Cut(rest))
    ensures NonEmpty(Cut(line)) == NonEmpty(Chunks(line))
    decreases |line|
  {
    hide Cut, NonEmpty, IndexOf, Chunks;
    var text := line + [NEWLINE] + rest;
    assert text[..|line|] == line && text[|line| + 1..] == rest && line[..|line|] == line;
    IndexOfUnique(text, NEWLINE, |line|);
    IndexOfUnique(line, NEWLINE, |line|);
    ChunksStep(line);
    if |line| < 1024 {
      CutAtNewline(text, |line|);
      CutWithoutNewline(line);
      NonEmptyConcat([line], Cut(rest));
    } else {
      var head, tail := line[..1024], line[1024..];
      CutOfLine(tail, rest);
      assert text[..BUFSIZE] == head && text[BUFSIZE..] == tail + [NEWLINE] + rest;
      CutAtFullBuffer(text);
      CutAtFullBuffer(line);
      NonEmptyConcat([head], Cut(tail + [NEWLINE] + rest));
      NonEmptyConcat([head], Cut(tail));
      NonEmptyConcat([head], Chunks(tail));
    }
  }

  /** Cutting this text at the ends of the first buffers, until one does not end with a newline, splits
      no line: the condition under which a stale newline after the buffer does no harm. */
  predicate Clean(text: seq<byte>)
    decreases |text|
  {
    if |text| < BUFSIZE then true
    else if text[BUFSIZE - 1] == NEWLINE then Clean(text[BUFSIZE..])
    else (|text| == BUFSIZE || text[BUFSIZE] == NEWLINE) && ShortLines(text[BUFSIZE..])
  }

  /** No line of a text that fits the buffer is too long. */
  lemma {:induction false} SmallTextHasShortLines(text: seq<byte>)
    requires |text| <= BUFSIZE
    ensures ShortLines(text)
    decreases |text|
  {
    hide IndexOf;
    var k := IndexOf(text, NEWLINE);
    if k < |text| {
      SmallTextHasShortLines(text[k + 1..]);
      assert Lines(text) == [text[..k]] + Lines(text[k + 1..]);
    }
  }

  /** The lines of a text whose first buffer ends between two lines. */
  lemma LinesAcross(a: seq<byte>, b: seq<byte>)
    requires a != [] && (a[|a| - 1] == NEWLINE || b == [] || b[0] == NEWLINE)
    ensures NonEmpty(Lines(a + b)) == NonEmpty(Lines(a)) + NonEmpty(Lines(b))
  {
    hide Split, NonEmpty;
    var p, q := Lines(a), Lines(b);
    var last := p[|p| - 1];
    SplitConcat(a, b, NEWLINE);
    EndPieces(a, NEWLINE);
    EndPieces(b, NEWLINE);
    assert p == p[..|p| - 1] + [last] && q == [q[0]] + q[1..];
    NonEmptyConcat(p[..|p| - 1], [last]);
    NonEmptyConcat(p[..|p| - 1] + [last + q[0]], q[1..]);
    NonEmptyConcat(p[..|p| - 1], [last + q[0]]);
    NonEmptyCons(last, []);
    NonEmptyCons(q[0], []);
    NonEmptyCons(q[0], q[1..]);
    assert [last] + [] == [last] && [q[0]] + [] == [q[0]];
    assert last + q[0] == if last == [] then q[0] else last;
    assert NonEmpty([]) == [] by { NothingIsEmpty(); }
  }

  lemma NothingIsEmpty()
    ensures NonEmpty([]) == []
  {
  }

  /** A line that runs across the end of the first buffer is missing from any cut made there. */
  lemma LineAcross(a: seq<byte>, b: seq<byte>, rest: seq<seq<byte>>)
    requires a != [] && b != [] && a[|a| - 1] != NEWLINE && b[0] != NEWLINE
    ensures NonEmpty(Lines(a + b)) != NonEmpty(Lines(a)) + rest
  {
    hide Split, NonEmpty;
    var p, q := Lines(a), Lines(b);
    var last := p[|p| - 1];
    SplitConcat(a, b, NEWLINE);
    EndPieces(a, NEWLINE);
    EndPieces(b, NEWLINE);
    var early := NonEmpty(p[..|p| - 1]);
    assert p == p[..|p| - 1] + [last];
    NonEmptyConcat(p[..|p| - 1], [last]);
    NonEmptyConcat(p[..|p| - 1] + [last + q[0]], q[1..]);
    NonEmptyConcat(p[..|p| - 1], [last + q[0]]);
    NonEmptyCons(last, []);
    NonEmptyCons(last + q[0], []);
    NothingIsEmpty();
    assert [last] + [] == [last] && [last + q[0]] + [] == [last + q[0]];
    assert (NonEmpty(Lines(a)) + rest)[|early|] == last;
    assert NonEmpty(Lines(a + b))[|early|] == last + q[0];
    assert |last + q[0]| > |last|;
  }

  lemma {:induction false} StaleSegmentsAreLines(text: seq<byte>)
    ensures NonEmpty(Segments(text, true)) == NonEmpty(Lines(text)) <==> Clean(text)
    decreases |text|
  {
    hide Cut, NonEmpty, Split, Lines;
    if |text| < BUFSIZE {
      SmallTextHasShortLines(text);
      CutIsLinesIffShort(text);
      return;
    }
    var a, b := text[..BUFSIZE], text[BUFSIZE..];
    assert text == a + b;
    SmallTextHasShortLines(a);
    CutIsLinesIffShort(a);
    var head, more := NonEmpty(Lines(a)), Segments(b, text[BUFSIZE - 1] == NEWLINE);
    NonEmptyConcat(Cut(a), more);
    if text[BUFSIZE - 1] == NEWLINE || |text| == BUFSIZE || text[BUFSIZE] == NEWLINE {
      LinesAcross(a, b);
      SamePrefix(head, NonEmpty(more), NonEmpty(Lines(b)));
      if text[BUFSIZE - 1] == NEWLINE {
        StaleSegmentsAreLines(b);
      } else {
        CutIsLinesIffShort(b);
      }
    } else {
      LineAcross(a, b, NonEmpty(more));
    }
  }

  lemma SamePrefix<T>(a: seq<T>, x: seq<T>, y: seq<T>)
    ensures a + x == a + y <==> x == y
  {
    assert (a + x)[|a|..] == x && (a + y)[|a|..] == y;
  }

  /** The scanner sees exactly the non-empty lines of the file, once each and in order, when and only
      when no line is longer than the buffer or, if the byte after the buffer starts as a newline, no
      line is cut at the end of a buffer. */
  lemma SegmentsAreLines(text: seq<byte>, stale: bool)
    ensures NonEmpty(Segments(text, stale)) == NonEmpty(Lines(text))
            <==> if stale then Clean(text) else ShortLines(text)
  {
    if stale {
      StaleSegmentsAreLines(text);
    } else {
      CutIsLinesIffShort(text);
    }
  }

  lemma {:induction false} ReportSkipsEmpty(s: seq<byte>, name: seq<byte>, segs: seq<seq<byte>>)
    ensures Report(s, name, segs) == Report(s, name, NonEmpty(segs))
  {
    if segs != [] {
      ReportSkipsEmpty(s, name, segs[1..]);
      if segs[0] == [] {
        assert NonEmpty(segs) == NonEmpty(segs[1..]);
      } else {
        assert NonEmpty(segs)[1..] == NonEmpty(segs[1..]);
      }
    }
  }

  // ---------------------------------------------------------------- the report against the matching lines

  /** What one expects of grep: every line that contains the string, whole, behind the file name. */
  ghost function Matches(s: seq<byte>, name: seq<byte>, lines: seq<seq<byte>>): seq<byte> {
    if lines == [] then []
    else
      (if Contains(lines[0], s) then name + [COLON] + lines[0] + [NEWLINE] else [])
      + Matches(s, name, lines[1..])
  }

  /** The lines that are printed as expected: those without the string, and those that are hit and hold no
      NUL to end them early. */
  ghost predicate PrintedRight(line: seq<byte>, s: seq<byte>) {
    Contains(line, s) ==> s != [] && s[0] < 0x80 && NUL !in line
  }

  /** One line of the report: right exactly for such lines, and for the others shorter than it should be. */
  lemma LineReport(s: seq<byte>, name: seq<byte>, line: seq<byte>)
    ensures var got := if Hit(line, s) then name + [COLON] + CString(line) + [NEWLINE] else [];
            var want := if Contains(line, s) then name + [COLON] + line + [NEWLINE] else [];
            && (PrintedRight(line, s) ==> got == want)
            && (!PrintedRight(line, s) ==> |got| < |want|)
  {
    if s == [] {
      assert OccursAt(line, s, 0);
    }
    if NUL in line {
      assert line[..|line|] == line;
    } else {
      IndexOfUnique(line, NUL, |line|);
    }
  }

  lemma {:induction false} ReportIsMatchesIff(s: seq<byte>, name: seq<byte>, lines: seq<seq<byte>>)
    ensures |Report(s, name, lines)| <= |Matches(s, name, lines)|
    ensures Report(s, name, lines) == Matches(s, name, lines)
            <==> forall i :: 0 <= i < |lines| ==> PrintedRight(lines[i], s)
  {
    if lines != [] {
      hide Hit, Contains, PrintedRight, CString;
      var rest := lines[1..];
      var got := if Hit(lines[0], s) then name + [COLON] + CString(lines[0]) + [NEWLINE] else [];
      var want := if Contains(lines[0], s) then name + [COLON] + lines[0] + [NEWLINE] else [];
      ReportIsMatchesIff(s, name, rest);
      LineReport(s, name, lines[0]);
      EqualParts(got, want, Report(s, name, rest), Matches(s, name, rest));
      assert (forall i :: 0 <= i < |lines| ==> PrintedRight(lines[i], s))
        <==> PrintedRight(lines[0], s) && forall i :: 0 <= i < |rest| ==> PrintedRight(rest[i], s) by {
        assert forall i :: 1 <= i < |lines| ==> lines[i] == rest[i - 1];
      }
    }
  }

  lemma EqualParts(a: seq<byte>, b: seq<byte>, x: seq<byte>, y: seq<byte>)
    requires |a| <= |b| && |x| <= |y|
    ensures a + x == b + y <==> a == b && x == y
  {
    assert |a| == |b| ==> (a + x)[..|a|] == a && (b + y)[..|a|] == b;
    assert |a| == |b| ==> (a + x)[|a|..] == x && (b + y)[|a|..] == y;
  }

  /** `s` is a slice of the line. */
  ghost predicate Slices(line: seq<byte>, s: seq<byte>) {
    exists k, e :: 0 <= k <= e <= |line| && line[k..e] == s
  }

  lemma ContainsIsSlices(line: seq<byte>, s: seq<byte>)
    ensures Contains(line, s) <==> Slices(line, s)
  {
    if Contains(line, s) {
      var k :| 0 <= k <= |line| - |s| && OccursAt(line, s, k);
      assert line[k..k + |s|] == s;
    }
    if Slices(line, s) {
      var k, e :| 0 <= k <= e <= |line| && line[k..e] == s;
      assert forall i :: 0 <= i < |s| ==> s[i] == line[k..e][i] == line[k + i];
      assert OccursAt(line, s, k);
    }
  }

  /** What is printed of one line, of which m bytes stand before its first NUL: with the name and a colon,
      those bytes, if the string is a slice of the line that starts below 0x80, or is empty and the line
      holds a NUL. Several lines are printed one after the other. */
  lemma LinePrinted(s: seq<byte>, name: seq<byte>, line: seq<byte>, m: nat, more: seq<seq<byte>>)
    requires m <= |line| && 0 !in line[..m] && (m < |line| ==> line[m] == 0)
    ensures var found := if s == [] then 0 in line else s[0] < 128 && Slices(line, s);
            Report(s, name, [line] + more)
            == (if found then name + [58] + line[..m] + [10] else []) + Report(s, name, more)
  {
    ContainsIsSlices(line, s);
    IndexOfUnique(line, NUL, m);
    assert ([line] + more)[1..] == more;
  }

  /** A search string that is missed: its first byte is 0x80 or more. */
  lemma HighByteMissed(name: seq<byte>)
    ensures Contains([0xC3], [0xC3])
    ensures Report([0xC3], name, [[0xC3]]) == [] && Matches([0xC3], name, [[0xC3]]) != []
  {
    var line: seq<byte> := [0xC3];
    assert OccursAt(line, line, 0);
  }

  lemma {:induction false} ReportConcat(s: seq<byte>, name: seq<byte>, a: seq<seq<byte>>, b: seq<seq<byte>>)
    ensures Report(s, name, a + b) == Report(s, name, a) + Report(s, name, b)
  {
    hide Hit, CString;
    if a == [] {
      assert a + b == b;
    } else {
      assert (a + b)[0] == a[0] && (a + b)[1..] == a[1..] + b;
      ReportConcat(s, name, a[1..], b);
    }
  }

  /** What a stale newline does: the second of two short lines is searched in two halves when the end
      of the buffer falls inside it. */
  lemma StaleNewlineSplitsLine(a: seq<byte>, b: seq<byte>)
    requires NEWLINE !in a && NEWLINE !in b && |a| < BUFSIZE - 1 && |b| < BUFSIZE < |a| + 1 + |b|
    ensures var k := BUFSIZE - 1 - |a|;
            && Segments(a + [NEWLINE] + b, false) == [a, b]
            && Segments(a + [NEWLINE] + b, true) == [a, b[..k], b[k..]]
  {
    var text, k := a + [NEWLINE] + b, BUFSIZE - 1 - |a|;
    TwoLines(a, b);
    TwoLines(a, b[..k]);
    assert text[..BUFSIZE] == a + [NEWLINE] + b[..k] && text[BUFSIZE..] == b[k..];
    OneLine(b[k..]);
    assert Segments(text, true) == Cut(text[..BUFSIZE]) + Cut(b[k..]);
  }

  lemma OneLine(b: seq<byte>)
    requires NEWLINE !in b && |b| < BUFSIZE
    ensures Cut(b) == [b]
  {
    IndexOfUnique(b, NEWLINE, |b|);
  }

  lemma TwoLines(a: seq<byte>, b: seq<byte>)
    requires NEWLINE !in a && NEWLINE !in b && |a| < BUFSIZE && |b| < BUFSIZE
    ensures Cut(a + [NEWLINE] + b) == [a, b]
  {
    hide Cut, IndexOf;
    var text := a + [NEWLINE] + b;
    assert text[..|a|] == a && text[|a| + 1..] == b;
    IndexOfUnique(text, NEWLINE, |a|);
    CutAtNewline(text, |a|);
    OneLine(b);
  }
}
