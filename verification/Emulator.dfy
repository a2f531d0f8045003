/** The emulator's execute and getargs: a command line is cut in place into argument pointers, and the
    arguments are joined into a bounded buffer. */
module Emulator {
  import opened Bytes
  import opened Words

  const BUF := 1026
  const ARGS := 1024
  const NULL := -1
  const DOT: byte := 46
  const SLASH: byte := 47

  /** The C string `w` starts at `p`. */
  ghost predicate StringAt(buf: seq<byte>, p: int, w: seq<byte>) {
    && 0 <= p && p + |w| < |buf| && buf[p + |w|] == NUL
    && forall k :: p <= k < p + |w| ==> buf[k] == w[k - p]
  }

  /** `buf` still holds the command text from index q on. */
  ghost predicate Unread(buf: seq<byte>, text: seq<byte>, q: int) {
    && |text| + 2 < |buf| && 2 <= q <= |text| + 2 && buf[|text| + 2] == NUL
    && (forall k :: q <= k < |text| + 2 ==> buf[k] == text[k - 2])
    && forall k :: 0 <= k < |text| ==> text[k] != NUL
  }

  /** The pointers found so far lead to `argv`, all of it before q. */
  ghost predicate Found(buf: seq<byte>, args: seq<int>, n: int, argv: seq<seq<byte>>, q: int) {
    && 1 <= n == |argv| <= |args|
    && forall i :: 0 <= i < n ==> StringAt(buf, args[i], argv[i]) && args[i] + |argv[i]| <= q
  }

  /** Writing a NUL at or after q disturbs no string that ends there or before. */
  lemma FoundAfterNul(buf: seq<byte>, args: seq<int>, n: int, argv: seq<seq<byte>>, q: int, at: int)
    requires Found(buf, args, n, argv, q) && q <= at && 0 <= at < |buf|
    ensures Found(buf[at := NUL], args, n, argv, q)
  {
    forall i | 0 <= i < n ensures StringAt(buf[at := NUL], args[i], argv[i]) {
      assert StringAt(buf, args[i], argv[i]);
    }
  }

  method SkipSpaces(buf: array<byte>, q: int, ghost text: seq<byte>) returns (p: int)
    requires Unread(buf[..], text, q)
    ensures q <= p && Unread(buf[..], text, p) && 2 <= p <= |text| + 2 < buf.Length && buf[p] != SPACE
    ensures if p < |text| + 2 then buf[p] == text[p - 2] != NUL else buf[p] == NUL
    ensures Arguments(text[q - 2..]) == Arguments(text[p - 2..])
  {
    hide Arguments;
    p := q;
    while buf[p] == SPACE
      invariant q <= p && Unread(buf[..], text, p)
      invariant Arguments(text[q - 2..]) == Arguments(text[p - 2..])
      decreases |text| + 2 - p
    {
      ArgumentsStep(text[p - 2..]);
      assert text[p - 2..][1..] == text[p + 1 - 2..];
      p := p + 1;
    }
  }

  method SkipWord(buf: array<byte>, q: int, ghost text: seq<byte>) returns (p: int)
    requires Unread(buf[..], text, q)
    ensures q <= p && Unread(buf[..], text, p)
    ensures p == q + WordEnd(text[q - 2..])
    ensures buf[p] == NUL <==> p == |text| + 2
    ensures p < |text| + 2 ==> IsSeparator(buf[p])
  {
    hide WordEnd;
    p := q;
    while buf[p] != NUL && buf[p] != SPACE && buf[p] != NEWLINE
      invariant q <= p && Unread(buf[..], text, p)
      invariant forall k :: q - 2 <= k < p - 2 ==> !IsSeparator(text[k])
      decreases |text| + 2 - p
    {
      p := p + 1;
    }
    ghost var rest := text[q - 2..];
    assert forall i :: 0 <= i < p - q ==> rest[i] == text[q - 2 + i];
    WordEndUnique(rest, p - q);
  }

  /** A word that ends at p becomes a string once its separator is overwritten. */
  lemma WordTerminated(buf: seq<byte>, text: seq<byte>, q: int, p: int)
    requires Unread(buf, text, q) && q <= p <= |text| + 2
    ensures StringAt(buf[p := NUL], q, text[q - 2..p - 2])
    ensures p < |text| + 2 ==> Unread(buf[p := NUL], text, p + 1)
    ensures Unread(buf[|text| + 2 := NUL], text, |text| + 2)
  {
  }

  /** One more pointer. */
  lemma FoundMore(buf: seq<byte>, args: seq<int>, n: int, argv: seq<seq<byte>>, q: int, p: int, w: seq<byte>)
    requires Found(buf, args, n, argv, q) && n < |args| && StringAt(buf, q, w) && q + |w| <= p
    ensures Found(buf, args[n := q], n + 1, argv + [w], p)
  {
    var more, longer := args[n := q], argv + [w];
    forall i | 0 <= i < n + 1 ensures StringAt(buf, more[i], longer[i]) && more[i] + |longer[i]| <= p {
      if i < n {
        assert more[i] == args[i] && longer[i] == argv[i];
      }
    }
  }

  lemma FoundLater(buf: seq<byte>, args: seq<int>, n: int, argv: seq<seq<byte>>, q: int, p: int)
    requires Found(buf, args, n, argv, q) && q <= p
    ensures Found(buf, args, n, argv, p)
  {
  }

  /** What is left to cut after the word [p, e): everything past its separator, if it has one. */
  lemma RestAfterWord(text: seq<byte>, p: int, e: int, q: int)
    requires 2 <= p < |text| + 2 && !IsSeparator(text[p - 2]) && e == p + WordEnd(text[p - 2..])
    requires q == if e < |text| + 2 then e + 1 else e
    ensures Arguments(text[p - 2..]) == [text[p - 2..e - 2]] + Arguments(text[q - 2..])
  {
    hide Arguments, WordEnd;
    var rest := text[p - 2..];
    ArgumentsStep(rest);
    assert rest[..e - p] == text[p - 2..e - 2];
    if e < |text| + 2 {
      assert rest[e - p + 1..] == text[q - 2..];
    } else {
      assert text[q - 2..] == [];
      ArgumentsStep([]);
    }
  }

  /** One word: its pointer is stored and its separator overwritten. */
  method TakeWord(buf: array<byte>, p: int, args: array<int>, n: int, ghost text: seq<byte>, ghost argv: seq<seq<byte>>)
    returns (q: int, ghost w: seq<byte>)
    requires buf.Length == BUF && args.Length == ARGS && n < ARGS
    requires Unread(buf[..], text, p) && p < |text| + 2 && !IsSeparator(text[p - 2])
    requires Found(buf[..], args[..], n, argv, p)
    modifies buf, args
    ensures p < q <= |text| + 2 && Unread(buf[..], text, q) && Found(buf[..], args[..], n + 1, argv + [w], q)
    ensures Arguments(text[p - 2..]) == [w] + Arguments(text[q - 2..])
  {
    hide Arguments, WordEnd, Found, StringAt;
    ghost var before, ptrs := buf[..], args[..];
    assert n >= 1 by { FoundCount(before, ptrs, n, argv, p); }
    args[n] := p;
    var e := SkipWord(buf, p, text);
    w := text[p - 2..e - 2];
    assert e > p by { WordStarts(text[p - 2..]); }
    WordTerminated(before, text, p, e);
    FoundAfterNul(before, ptrs, n, argv, p, e);
    q := e;
    if buf[e] != NUL {
      buf[e] := NUL;
      q := e + 1;
    }
    assert buf[..] == before[e := NUL];
    assert args[..] == ptrs[n := p];
    FoundMore(before[e := NUL], ptrs, n, argv, p, q, w);
    RestAfterWord(text, p, e, q);
  }

  lemma FoundCount(buf: seq<byte>, args: seq<int>, n: int, argv: seq<seq<byte>>, q: int)
    requires Found(buf, args, n, argv, q)
    ensures 1 <= n == |argv|
  {
  }

  lemma WordStarts(s: seq<byte>)
    requires s != [] && !IsSeparator(s[0])
    ensures WordEnd(s) > 0
  {
  }

  /** The argument loop: from index `start` to the end of the line. */
  method ParseArguments(buf: array<byte>, start: int, args: array<int>, first: int,
                        ghost text: seq<byte>, ghost argv: seq<seq<byte>>)
    returns (n: int, ghost q: int)
    requires buf.Length == BUF && args.Length == ARGS
    requires Unread(buf[..], text, start) && Found(buf[..], args[..], first, argv, start)
    requires |argv| + |Arguments(text[start - 2..])| < ARGS
    modifies buf, args
    ensures Found(buf[..], args[..], n, argv + Arguments(text[start - 2..]), q)
  {
    assert 2 <= start <= |text| + 2;
    hide Arguments, WordEnd, Found, StringAt, Unread;
    n := first;
    var scan := start;
    ghost var found := argv;
    ghost var all := argv + Arguments(text[start - 2..]);
    while true
      invariant 2 <= scan <= |text| + 2 && Unread(buf[..], text, scan) && Found(buf[..], args[..], n, found, scan)
      invariant found + Arguments(text[scan - 2..]) == all
      decreases |text| + 2 - scan
    {
      ghost var before := buf[..];
      var p := SkipSpaces(buf, scan, text);
      ArgumentsStep(text[p - 2..]);
      FoundLater(before, args[..], n, found, scan, p);
      FoundCount(before, args[..], n, found, p);
      if buf[p] == NUL || buf[p] == NEWLINE {
        assert all == found;
        FoundAfterNul(before, args[..], n, found, p, p);
        buf[p] := NUL;
        assert buf[..] == before[p := NUL];
        q := p;
        return;
      }
      ghost var w;
      scan, w := TakeWord(buf, p, args, n, text, found);
      Associative(found, [w], Arguments(text[scan - 2..]));
      found := found + [w];
      n := n + 1;
    }
  }

  /** ece391_execute up to the fork: -1 for commands over 1023 characters, otherwise the name, prefixed
      with "./", and the arguments as pointers into the buffer, with a null pointer after them. */
  method SplitCommand(command: seq<byte>, buf: array<byte>, args: array<int>) returns (status: int, n: int)
    requires NUL !in command && buf.Length == BUF && args.Length == ARGS
    modifies buf, args
    ensures status == -1 <==> |command| > 1023
    ensures status == -1 ==> buf[..] == old(buf[..]) && args[..] == old(args[..])
    ensures status != -1 ==>
              && status == 0 && n == 1 + |CommandArguments(command)| < ARGS && args[n] == NULL
              && StringAt(buf[..], args[0], [DOT, SLASH] + CommandName(command))
              && forall i :: 1 <= i < n ==> StringAt(buf[..], args[i], CommandArguments(command)[i - 1])
  {
    if 1023 < |command| { return -1, 0; }
    hide Arguments, WordEnd, StringAt, Unread;
    buf[0], buf[1] := DOT, SLASH;
    CopyCommand(buf, command);
    var scan, more := TakeName(buf, args, command);
    n := 1;
    ghost var q := scan;
    ghost var argv := [[DOT, SLASH] + CommandName(command)];
    if more {
      ArgumentsAreWords(command[scan - 2..]);
      n, q := ParseArguments(buf, scan, args, 1, command, argv);
    }
    argv := argv + CommandArguments(command);
    assert Found(buf[..], args[..], n, argv, q);
    args[n] := NULL;
    status := 0;
  }

  /** The command name: terminated like every word, and the first pointer is the whole buffer. */
  method TakeName(buf: array<byte>, args: array<int>, command: seq<byte>) returns (scan: int, more: bool)
    requires buf.Length == BUF && args.Length == ARGS && |command| <= 1023
    requires Unread(buf[..], command, 2) && buf[0] == DOT && buf[1] == SLASH
    modifies buf, args
    ensures more <==> WordEnd(command) < |command|
    ensures scan == 2 + WordEnd(command) + if more then 1 else 0
    ensures more ==> Unread(buf[..], command, scan)
    ensures Found(buf[..], args[..], 1, [[DOT, SLASH] + CommandName(command)], scan)
  {
    hide WordEnd, StringAt;
    scan := SkipWord(buf, 2, command);
    assert command[0..] == command;
    args[0] := 0;
    ghost var before := buf[..];
    NameTerminated(before, command, scan);
    WordTerminated(before, command, 2, scan);
    more := buf[scan] != NUL;
    assert !more ==> before[scan := NUL] == before;
    if more {
      buf[scan] := NUL;
      assert buf[..] == before[scan := NUL];
      scan := scan + 1;
    }
  }

  method CopyCommand(buf: array<byte>, command: seq<byte>)
    requires buf.Length == BUF && |command| <= 1023 && NUL !in command
    modifies buf
    ensures Unread(buf[..], command, 2)
    ensures buf[0] == old(buf[0]) && buf[1] == old(buf[1])
  {
    var i := 0;
    while i < |command|
      invariant 0 <= i <= |command|
      invariant forall k :: 2 <= k < 2 + i ==> buf[k] == command[k - 2]
      invariant buf[0] == old(buf[0]) && buf[1] == old(buf[1])
    {
      buf[2 + i] := command[i];
      i := i + 1;
    }
    buf[2 + i] := NUL;
  }

  lemma NameTerminated(buf: seq<byte>, command: seq<byte>, scan: int)
    requires Unread(buf, command, 2) && buf[0] == DOT && buf[1] == SLASH && scan == 2 + WordEnd(command)
    ensures StringAt(buf[scan := NUL], 0, [DOT, SLASH] + CommandName(command))
  {
    hide WordEnd;
    var name, after := [DOT, SLASH] + CommandName(command), buf[scan := NUL];
    forall k | 0 <= k < |name| ensures after[k] == name[k] {
      assert k >= 2 ==> name[k] == command[k - 2];
    }
  }

  /** ece391_getargs: the arguments with single spaces between them, in a buffer of nbytes bytes. The
      byte after those is written exactly when some word ends where they do: the array must have it then,
      and otherwise may be exactly nbytes long. */
  method GetArgs(argv: seq<seq<byte>>, buf: array<byte>, nbytes: int) returns (r: int)
    requires argv != [] && nbytes <= buf.Length
    requires Overfills(argv[1..], nbytes) ==> nbytes < buf.Length
    modifies buf
    ensures var text := Join(argv[1..], SPACE);
            && (r == 0 <==> |text| < nbytes) && (r != 0 ==> r == -1)
            && (r == 0 ==> StringAt(buf[..], 0, text))
    ensures r == 0 ==> Same(old(buf[..]), buf[..], nbytes)
    ensures 0 <= nbytes < buf.Length ==> buf[nbytes] == if Overfills(argv[1..], nbytes) then NUL else old(buf[nbytes])
    ensures Same(old(buf[..]), buf[..], nbytes + 1)
  {
    hide Join, Spaced, Overfills;
    ghost var before, words := buf[..], argv[1..];
    ghost var text := Join(words, SPACE);
    var argc := |argv|;
    var idx, pos, left := 1, 0, nbytes;
    JoinedNone(words);
    while idx < argc
      invariant 1 <= idx <= argc && 0 <= pos && pos + left == nbytes
      invariant idx < argc ==> Starts(buf[..], Spaced(words, idx - 1)) && pos == |Spaced(words, idx - 1)|
      invariant idx < argc ==> Same(before, buf[..], nbytes) && NoneEndsAt(words, idx - 1, nbytes)
      invariant idx == argc ==> Starts(buf[..], text) && pos == |text|
      invariant idx == argc && (left >= 1 || argc == 1) ==> Same(before, buf[..], nbytes)
      invariant idx == argc > 1 ==> left >= 0
      invariant idx == argc && left == 0 && argc > 1 ==>
                  Overfills(words, nbytes) && nbytes < buf.Length && buf[nbytes] == NUL
      invariant idx == argc && (left >= 1 || argc == 1) ==> !Overfills(words, nbytes)
      invariant Same(before, buf[..], nbytes + 1)
    {
      ghost var i := idx - 1;
      var len := |argv[idx]|;
      assert argv[idx] == words[i];
      SpacedGrows(words, i);
      OverfillsAt(words, i, nbytes);
      if len > left { return -1; }
      ghost var sofar := Spaced(words, i);
      CopyWord(buf, pos, argv[idx]);
      assert Starts(buf[..], sofar + words[i]);
      pos, left := pos + len, left - len;
      idx := idx + 1;
      if idx < argc {
        if left < 1 { return -1; }
        buf[pos] := SPACE;
        SpacedNext(words, i);
        pos, left := pos + 1, left - 1;
      } else {
        JoinIsSpaced(words);
      }
    }
    if left < 1 { return -1; }
    buf[pos] := NUL;
    r := 0;
  }

  /** None of the first n words ends at the end of the buffer. */
  ghost predicate NoneEndsAt(words: seq<seq<byte>>, n: nat, nbytes: int) {
    forall j :: 0 <= j < n && j < |words| ==> !EndsAt(words, j, nbytes)
  }

  /** When no earlier word ends at the end of the buffer, what word i does decides. */
  lemma OverfillsAt(words: seq<seq<byte>>, i: nat, nbytes: int)
    requires i < |words| && NoneEndsAt(words, i, nbytes)
    ensures var end := |Spaced(words, i)| + |words[i]|;
            && (end == nbytes ==> Overfills(words, nbytes))
            && (end > nbytes ==> !Overfills(words, nbytes))
            && (end < nbytes ==> NoneEndsAt(words, i + 1, nbytes))
            && (end < nbytes && i + 1 == |words| ==> !Overfills(words, nbytes))
  {
    hide Spaced;
    var end := |Spaced(words, i)| + |words[i]|;
    assert EndsAt(words, i, end);
    forall j | i < j < |words| ensures end >= nbytes ==> !EndsAt(words, j, nbytes) {
      SpacedOrder(words, i, j);
    }
    if end == nbytes { assert EndsAt(words, i, nbytes); }
  }

  ghost predicate Starts(buf: seq<byte>, s: seq<byte>) {
    |s| <= |buf| && forall k :: 0 <= k < |s| ==> buf[k] == s[k]
  }

  /** Nothing from index `from` on has changed. */
  ghost predicate Same(before: seq<byte>, now: seq<byte>, from: int) {
    |now| == |before| && forall k :: 0 <= k < |now| && from <= k ==> now[k] == before[k]
  }

  lemma JoinedNone(words: seq<seq<byte>>)
    ensures Spaced(words, 0) == []
    ensures Join([], SPACE) == []
    ensures words == [] ==> forall n :: !Overfills(words, n)
  {
  }

  lemma SpacedNext(words: seq<seq<byte>>, i: nat)
    requires i < |words|
    ensures Spaced(words, i + 1) == Spaced(words, i) + words[i] + [SPACE]
  {
  }

  /** strcpy: the word and its NUL. */
  method CopyWord(buf: array<byte>, at: nat, w: seq<byte>)
    requires at + |w| < buf.Length
    modifies buf
    ensures StringAt(buf[..], at, w)
    ensures forall k :: 0 <= k < buf.Length && !(at <= k <= at + |w|) ==> buf[k] == old(buf[k])
  {
    var i := 0;
    while i < |w|
      invariant 0 <= i <= |w|
      invariant forall k :: at <= k < at + i ==> buf[k] == w[k - at]
      invariant forall k :: 0 <= k < buf.Length && !(at <= k < at + i) ==> buf[k] == old(buf[k])
    {
      buf[at + i] := w[i];
      i := i + 1;
    }
    buf[at + i] := NUL;
  }
}
