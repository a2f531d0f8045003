/** The buffered line scanner of the grep program: one file, one search string. */
module Grep {
  import opened Bytes
  import opened GrepLines
  import opened GrepBuffer

  // ---------------------------------------------------------------- the program

  /** An open file as the system call presents it: reads are short only at the end of the file,
      and `untilFault` counts the reads that succeed before one fails (negative: none fails). */
  class OpenFile {
    const content: seq<byte>
    var pos: nat
    var untilFault: int

    ghost predicate Valid() reads this { pos <= |content| }

    constructor (content: seq<byte>, untilFault: int)
      ensures Valid() && this.content == content && pos == 0 && this.untilFault == untilFault
    {
      this.content := content;
      this.pos := 0;
      this.untilFault := untilFault;
    }

    method Read(data: array<byte>, at: nat, want: nat) returns (cnt: int)
      requires Valid() && at + want <= data.Length
      modifies this, data
      ensures Valid()
      ensures untilFault == old(untilFault) - 1
      ensures cnt == -1 <==> old(untilFault) == 0
      ensures cnt == -1 ==> pos == old(pos) && data[..] == old(data[..])
      ensures cnt != -1 ==> cnt == Min(want, |content| - old(pos)) && pos == old(pos) + cnt
      ensures cnt != -1 ==> forall i :: at <= i < at + cnt ==> data[i] == content[old(pos) + i - at]
      ensures cnt != -1 ==> forall i :: 0 <= i < data.Length && !(at <= i < at + cnt) ==> data[i] == old(data[i])
    {
      untilFault := untilFault - 1;
      if untilFault == -1 { return -1; }
      cnt := Min(want, |content| - pos);
      forall i | 0 <= i < cnt { data[at + i] := content[pos + i]; }
      pos := pos + cnt;
    }
  }

  /** strcpy inside one buffer: the string at `src` moves down to the front. */
  method CopyDown(data: array<byte>, src: nat, ghost end: nat)
    requires 0 < src <= end < data.Length && data[end] == NUL
    modifies data
    ensures var str := CString(old(data[src..end]));
            data[..] == str + [NUL] + old(data[..])[|str| + 1..]
  {
    hide CString, IndexOf;
    ghost var m := StringLength(data[..], src, end);
    var i := 0;
    while data[src + i] != NUL
      invariant 0 <= i <= m
      invariant forall k :: 0 <= k < i ==> data[k] == old(data[src + k])
      invariant forall k :: i <= k < data.Length ==> data[k] == old(data[k])
      decreases m - i
    {
      data[i] := data[src + i];
      i := i + 1;
    }
    data[i] := NUL;
  }

  /** Where the C string at `src` ends. */
  ghost function StringLength(data: seq<byte>, src: nat, end: nat): (m: nat)
    requires src <= end < |data| && data[end] == NUL
    ensures src + m <= end && data[src + m] == NUL && CString(data[src..end]) == data[src..src + m]
    ensures forall k :: src <= k < src + m ==> data[k] != NUL
  {
    var from := data[src..end];
    var m := IndexOf(from, NUL);
    assert forall k :: src <= k < src + m ==> data[k] == from[..m][k - src];
    assert m < |from| ==> from[m] == data[src + m];
    m
  }

  /** strncmp of the string at `data[at..]` against `s`, for the full length of `s`. */
  method SameStart(data: array<byte>, at: nat, ghost end: nat, s: seq<byte>) returns (same: bool)
    requires at <= end < data.Length && data[end] == NUL && NUL !in s
    ensures same <==> at + |s| <= end && forall i :: 0 <= i < |s| ==> s[i] == data[at + i]
  {
    if s == [] { return true; }
    var n := 0;
    while data[at + n] == s[n]
      invariant n < |s| && at + n <= end
      invariant forall i :: 0 <= i < n ==> s[i] == data[at + i]
      decreases |s| - n
    {
      assert s[n] != NUL;
      n := n + 1;
      if n == |s| { return true; }
    }
    same := false;
  }

  /** The `check` loop: does the line hold the search string? Its first character is compared before the
      whole string; that of an empty string is its NUL. */
  method SearchLine(data: array<byte>, start: nat, end: nat, s: seq<byte>) returns (hit: bool)
    requires start <= end < data.Length && data[end] == NUL && NUL !in s
    ensures hit <==> Hit(data[start..end], s)
  {
    ghost var line := data[start..end];
    assert forall i :: 0 <= i < |line| ==> line[i] == data[start + i];
    var first := Signed(if s == [] then NUL else s[0]);
    for check := start to end
      invariant s == [] ==> forall k :: 0 <= k < check - start ==> line[k] != NUL
      invariant s != [] && s[0] < 0x80 ==> forall k :: 0 <= k < check - start ==> !OccursAt(line, s, k)
    {
      if first == data[check] as int {
        assert line[check - start] == data[check];
        var same := SameStart(data, check, end, s);
        if same {
          assert OccursAt(line, s, check - start);
          return true;
        }
      }
    }
    hit := false;
  }

  /** The length of the C string at `start`. */
  method Strlen(data: array<byte>, start: nat, ghost end: nat) returns (n: nat)
    requires start <= end < data.Length && data[end] == NUL
    ensures start + n <= end && data[start..start + n] == CString(data[start..end])
  {
    ghost var m := StringLength(data[..], start, end);
    assert data[..][start..end] == data[start..end];
    n := 0;
    while data[start + n] != NUL
      invariant n <= m
      decreases m - n
    {
      n := n + 1;
    }
  }

  /** The line, behind the file name, when it holds the search string. */
  method PrintLine(data: array<byte>, start: nat, end: nat, s: seq<byte>, name: seq<byte>) returns (out: seq<byte>)
    requires start <= end < data.Length && data[end] == NUL && NUL !in s
    ensures out == Report(s, name, [data[start..end]])
  {
    hide Report, Hit, CString;
    var hit := SearchLine(data, start, end, s);
    out := [];
    if hit {
      var n := Strlen(data, start, end);
      out := name + [COLON] + data[start..start + n] + [NEWLINE];
    }
    ReportOne(s, name, data[start..end]);
  }

  lemma ReportOne(s: seq<byte>, name: seq<byte>, seg: seq<byte>)
    ensures Report(s, name, [seg]) == if Hit(seg, s) then name + [COLON] + CString(seg) + [NEWLINE] else []
  {
  }

  method FindLineEnd(data: array<byte>, start: nat, last: nat) returns (end: nat)
    requires start <= last < data.Length
    ensures start <= end <= last && end - start == IndexOf(data[start..last], NEWLINE)
  {
    ghost var text := data[start..last];
    assert forall k :: 0 <= k < |text| ==> text[k] == data[start + k];
    end := start;
    while end < last && data[end] != NEWLINE
      invariant start <= end <= last
      invariant forall k :: start <= k < end ==> data[k] != NEWLINE
    {
      end := end + 1;
    }
    IndexOfUnique(text, NEWLINE, end - start);
  }

  /** A buffer whose first `n` bytes are searched. */
  ghost function Part(data: seq<byte>, n: nat): (r: seq<byte>)
    requires n <= |data|
    ensures |r| == |data|
  {
    Ended(data[..n]) + data[n..]
  }

  /** A NUL after the line that starts at `start`. */
  lemma EndLine(data: seq<byte>, start: nat, end: nat)
    requires start <= end < |data| && NEWLINE !in data[start..end]
    ensures Part(data, start)[end := NUL] == Ended(data[..end]) + [NUL] + data[end + 1..]
    ensures data[end] == NEWLINE ==> Part(data, start)[end := NUL] == Part(data, end + 1)
  {
    assert forall i :: start <= i < end ==> data[i] == data[start..end][i - start] != NEWLINE;
  }

  /** The last line of the buffer, found. */
  lemma LastLine(text: seq<byte>, start: nat, done: seq<seq<byte>>)
    requires start <= |text| && NEWLINE !in text[start..] && Lines(text) == done + Lines(text[start..])
    ensures Tail(text) == text[start..] && Lines(text) == done + [text[start..]]
  {
    hide Split, IndexOf;
    var line := text[start..];
    assert line[..|line|] == line;
    IndexOfUnique(line, NEWLINE, |line|);
    SplitStep(line, NEWLINE, |line|);
  }

  /** The pass ends with an unfinished line that is kept. */
  lemma KeepsLine(data: seq<byte>, filled: nat, cnt: nat, start: nat, done: seq<seq<byte>>)
    requires 0 < start < filled < |data| && NEWLINE !in data[start..filled] && data[filled] != NEWLINE && cnt != 0
    requires Lines(data[..filled]) == done + Lines(data[start..filled])
    ensures var ended := Part(data, start)[filled := NUL];
            && ended[start..filled] == data[start..filled]
            && Kept(data, filled, cnt) == filled - start && Searched(data, filled, cnt) == done
            && var str := CString(data[start..filled]);
            Passed(data, filled, cnt) == str + [NUL] + ended[|str| + 1..]
  {
    hide Split, CString, Tail, Lines, Ended;
    assert data[..filled][start..] == data[start..filled];
    LastLine(data[..filled], start, done);
    EndLine(data, start, filled);
  }

  /** The pass ends with an unfinished line that is searched. */
  lemma SearchesLast(data: seq<byte>, filled: nat, cnt: nat, start: nat, done: seq<seq<byte>>)
    requires start <= filled < |data| && NEWLINE !in data[start..filled] && (start == filled ==> start == 0)
    requires data[filled] == NEWLINE || cnt == 0 || start == 0
    requires Lines(data[..filled]) == done + Lines(data[start..filled])
    ensures Kept(data, filled, cnt) == 0 && Searched(data, filled, cnt) == done + [data[start..filled]]
    ensures Passed(data, filled, cnt) == Part(data, start)[filled := NUL]
  {
    hide Split, CString, Tail, Lines, Ended;
    assert data[..filled][start..] == data[start..filled];
    LastLine(data[..filled], start, done);
    EndLine(data, start, filled);
  }

  /** The pass ends with a complete line. */
  lemma EndsWithNewline(data: seq<byte>, filled: nat, cnt: nat, done: seq<seq<byte>>)
    requires 0 < filled < |data| && Lines(data[..filled]) == done + Lines([])
    ensures Kept(data, filled, cnt) == 0 && Searched(data, filled, cnt) == done + [[]]
    ensures Passed(data, filled, cnt) == Part(data, filled)
  {
    hide Split, CString, Tail, Lines, Ended;
    assert data[..filled][filled..] == [];
    LastLine(data[..filled], filled, done);
  }

  /** One pass of the inner loop over a filled buffer: reports every complete line, keeps a trailing
      partial line for the next read. */
  method ScanBuffer(data: array<byte>, filled: nat, cnt: nat, s: seq<byte>, name: seq<byte>)
    returns (last: nat, out: seq<byte>)
    requires data.Length == BUFSIZE + 1 && filled <= BUFSIZE && NUL !in s
    modifies data
    ensures last == Kept(old(data[..]), filled, cnt) && data[..] == Passed(old(data[..]), filled, cnt)
    ensures out == Report(s, name, Searched(old(data[..]), filled, cnt))
  {
    hide Report, Split, Lines, CString, Tail, Part, Ended, Kept, Searched, Passed, IndexOf;
    ghost var before, done := data[..], [];
    PartNone(before);
    ReportNothing(s, name);
    assert before[..filled] == before[0..filled];
    last, out := filled, [];
    var lineStart := 0;
    while true
      invariant 0 <= lineStart && (lineStart < filled || lineStart == 0) && last == filled
      invariant data[..] == Part(before, lineStart)
      invariant Lines(before[..filled]) == done + Lines(before[lineStart..filled]) && out == Report(s, name, done)
      decreases filled - lineStart
    {
      PartLater(before, lineStart);
      var lineEnd := FindLineEnd(data, lineStart, last);
      assert data[lineStart..last] == before[lineStart..filled];
      LineEnds(before, filled, lineStart, lineEnd, done);
      if data[lineEnd] != NEWLINE && cnt != 0 && lineStart != 0 {
        KeepsLine(before, filled, cnt, lineStart, done);
        data[lineEnd] := NUL;
        CopyDown(data, lineStart, lineEnd);
        last := last - lineStart;
        return;
      }
      if lineEnd == filled { SearchesLast(before, filled, cnt, lineStart, done); }
      ghost var seg := before[lineStart..lineEnd];
      data[lineEnd] := NUL;
      assert data[lineStart..lineEnd] == seg;
      var line := PrintLine(data, lineStart, lineEnd, s, name);
      out := out + line;
      ReportConcat(s, name, done, [seg]);
      done := done + [seg];
      lineStart := lineEnd + 1;
      if lineStart >= last {
        if lineEnd < filled {
          EndsWithNewline(before, filled, cnt, done);
          ReportNoLine(s, name, done);
        }
        last := 0;
        return;
      }
    }
  }

  lemma ReportNoLine(s: seq<byte>, name: seq<byte>, done: seq<seq<byte>>)
    ensures Report(s, name, done + [[]]) == Report(s, name, done)
  {
    ReportConcat(s, name, done, [[]]);
    ReportOne(s, name, []);
  }

  /** What the search for a line end has found. */
  lemma LineEnds(data: seq<byte>, filled: nat, start: nat, end: nat, done: seq<seq<byte>>)
    requires start <= end <= filled < |data| && end - start == IndexOf(data[start..filled], NEWLINE)
    requires Lines(data[..filled]) == done + Lines(data[start..filled])
    ensures NEWLINE !in data[start..end]
    ensures end < filled ==>
              && data[end] == NEWLINE && Part(data, start)[end := NUL] == Part(data, end + 1)
              && Lines(data[..filled]) == done + [data[start..end]] + Lines(data[end + 1..filled])
              && (end + 1 == filled ==> data[end + 1..filled] == [])
  {
    hide Split, IndexOf, Part, Lines;
    var rest := data[start..filled];
    assert rest[..end - start] == data[start..end];
    EndLine(data, start, end);
    if end < filled {
      LinesStep(rest, end - start);
      assert rest[end - start + 1..] == data[end + 1..filled];
    }
  }

  lemma LinesStep(text: seq<byte>, k: nat)
    requires k == IndexOf(text, NEWLINE) < |text|
    ensures Lines(text) == [text[..k]] + Lines(text[k + 1..])
  {
    hide Split, IndexOf;
    SplitStep(text, NEWLINE, k);
  }

  lemma PartNone(data: seq<byte>)
    ensures Part(data, 0) == data
  {
  }

  lemma PartLater(data: seq<byte>, n: nat)
    requires n <= |data|
    ensures forall k :: n <= k < |data| ==> Part(data, n)[k] == data[k]
  {
  }

  lemma ReportNothing(s: seq<byte>, name: seq<byte>)
    ensures Report(s, name, []) == []
  {
  }

  /** The read at the top of the outer loop: always asks for at least one byte. */
  method Refill(f: OpenFile, data: array<byte>, last: nat) returns (cnt: int)
    requires f.Valid() && last < BUFSIZE < data.Length
    modifies f, data
    ensures f.Valid() && f.untilFault == old(f.untilFault) - 1
    ensures cnt == -1 <==> old(f.untilFault) == 0
    ensures var rest := f.content[old(f.pos)..];
            cnt != -1 ==>
              && cnt == ReadSize(last, rest) && f.content[f.pos..] == rest[cnt..]
              && data[..] == Refilled(old(data[..]), last, rest, cnt)
  {
    cnt := f.Read(data, last, BUFSIZE - last);
  }

  /** do_one_file after a successful open, whatever the uninitialised stack buffer `data` holds. */
  method ScanFile(f: OpenFile, s: seq<byte>, name: seq<byte>, data: array<byte>) returns (status: int, out: seq<byte>)
    requires f.Valid() && f.pos == 0 && NUL !in s && data.Length == BUFSIZE + 1
    modifies f, data
    ensures status == 0 || status == -1
    ensures var full := Report(s, name, Scan(old(data[..]), 0, f.content));
            && (status == 0 ==> out == full)
            && (status == -1 ==> out <= full)
    ensures status == -1 <==> old(f.untilFault) >= 0 && f.untilFault < 0
    ensures status == 0 ==> f.pos == |f.content|
  {
    hide Report, Scan, Searched, Passed, Kept, Refilled;
    ghost var goal, rest := Report(s, name, Scan(data[..], 0, f.content)), f.content;
    assert rest == f.content[f.pos..];
    out := [];
    var last := 0;
    while true
      invariant f.Valid() && 0 <= last < BUFSIZE
      invariant f.untilFault <= old(f.untilFault) && (old(f.untilFault) >= 0 ==> f.untilFault >= 0)
      invariant rest == f.content[f.pos..]
      invariant goal == out + Report(s, name, Scan(data[..], last, rest))
      decreases |rest|
    {
      ScanStep(data[..], last, rest);
      var cnt := Refill(f, data, last);
      if cnt == -1 {
        return -1, out;
      }
      last := last + cnt;
      ghost var full, filled := data[..], last;
      var more;
      last, more := ScanBuffer(data, last, cnt, s, name);
      rest := rest[cnt..];
      out := out + more;
      if cnt == 0 {
        return 0, out;
      }
      ReportConcat(s, name, Searched(full, filled, cnt), Scan(data[..], last, rest));
    }
  }
}
