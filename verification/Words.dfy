/** Command words: how the emulator cuts a command line, and how getargs joins the arguments again. */
module Words {
  import opened Bytes

  predicate IsSeparator(c: byte) { c == SPACE || c == NEWLINE }

  function WordEnd(s: seq<byte>): (k: nat)
    ensures k <= |s|
    ensures forall i :: 0 <= i < k ==> !IsSeparator(s[i])
    ensures k < |s| ==> IsSeparator(s[k])
  {
    if s == [] || IsSeparator(s[0]) then 0 else 1 + WordEnd(s[1..])
  }

  /** The argument words of the text after the command name. A newline ends a word like a space does;
      a newline where a word should start ends the line. */
  function Arguments(s: seq<byte>): (words: seq<seq<byte>>)
    decreases |s|
  {
    if s == [] || s[0] == NEWLINE then []
    else if s[0] == SPACE then Arguments(s[1..])
    else
      var k := WordEnd(s);
      [s[..k]] + if k < |s| then Arguments(s[k + 1..]) else []
  }

  function CommandName(command: seq<byte>): (name: seq<byte>)
    ensures name <= command && SPACE !in name && NEWLINE !in name
    ensures |name| < |command| ==> command[|name|] == SPACE || command[|name|] == NEWLINE
  {
    command[..WordEnd(command)]
  }

  function CommandArguments(command: seq<byte>): seq<seq<byte>> {
    var k := WordEnd(command);
    if k < |command| then Arguments(command[k + 1..]) else []
  }

  ghost predicate IsWord(w: seq<byte>) {
    w != [] && forall i :: 0 <= i < |w| ==> !IsSeparator(w[i])
  }

  ghost predicate AllWords(words: seq<seq<byte>>) {
    forall i :: 0 <= i < |words| ==> IsWord(words[i])
  }

  lemma {:induction false} ArgumentsAreWords(s: seq<byte>)
    ensures AllWords(Arguments(s))
    ensures 2 * |Arguments(s)| <= |s| + 1
    decreases |s|
  {
    hide WordEnd, Arguments;
    ArgumentsStep(s);
    if s == [] || s[0] == NEWLINE {
    } else if s[0] == SPACE {
      ArgumentsAreWords(s[1..]);
    } else {
      var k := WordEnd(s);
      assert k > 0 && IsWord(s[..k]);
      if k < |s| { ArgumentsAreWords(s[k + 1..]); }
    }
  }

  lemma WordEndUnique(s: seq<byte>, k: nat)
    requires k <= |s| && (forall i :: 0 <= i < k ==> !IsSeparator(s[i])) && (k < |s| ==> IsSeparator(s[k]))
    ensures WordEnd(s) == k
  {
  }

  /** One step of the cut. */
  lemma {:induction false} ArgumentsStep(s: seq<byte>)
    ensures s == [] || s[0] == NEWLINE ==> Arguments(s) == []
    ensures s != [] && s[0] == SPACE ==> Arguments(s) == Arguments(s[1..])
    ensures s != [] && !IsSeparator(s[0]) ==>
              Arguments(s) == [s[..WordEnd(s)]] + if WordEnd(s) < |s| then Arguments(s[WordEnd(s) + 1..]) else []
  {
  }

  lemma {:induction false} JoinStarts(words: seq<seq<byte>>)
    requires words != [] && AllWords(words)
    ensures var s, n := Join(words, SPACE), |words[0]|;
            && n <= |s| && s != [] && !IsSeparator(s[0]) && WordEnd(s) == n && s[..n] == words[0]
            && (|words| == 1 ==> n == |s|)
            && (|words| > 1 ==> n < |s| && s[n + 1..] == Join(words[1..], SPACE))
  {
    hide WordEnd;
    var s, w := Join(words, SPACE), words[0];
    assert IsWord(w);
    if |words| > 1 {
      assert s == w + [SPACE] + Join(words[1..], SPACE);
    }
    assert forall i :: 0 <= i < |w| ==> s[i] == w[i];
    WordEndUnique(s, |w|);
  }

  /** Cutting the joined text gives the same words back. */
  lemma {:induction false} ArgumentsOfJoin(words: seq<seq<byte>>)
    requires AllWords(words)
    ensures Arguments(Join(words, SPACE)) == words
  {
    if words == [] {
      return;
    }
    hide WordEnd, Arguments, Join, IsSeparator;
    JoinStarts(words);
    ArgumentsStep(Join(words, SPACE));
    if |words| > 1 {
      ArgumentsOfJoin(words[1..]);
    }
    assert words == [words[0]] + words[1..];
  }

  /** Splitting a command, joining its arguments and splitting again changes nothing; and there are
      always fewer than 513 of them in a command of at most 1023 characters. */
  lemma SplitJoinSplit(command: seq<byte>)
    ensures Arguments(Join(CommandArguments(command), SPACE)) == CommandArguments(command)
    ensures |command| <= 1023 ==> |CommandArguments(command)| <= 512
  {
    hide WordEnd, Arguments, Join;
    var k := WordEnd(command);
    if k < |command| {
      ArgumentsAreWords(command[k + 1..]);
    }
    ArgumentsOfJoin(CommandArguments(command));
  }

  lemma PiecesAtSpace(s: seq<byte>)
    requires s != [] && s[0] == SPACE
    ensures NonEmpty(Split(s, SPACE)) == NonEmpty(Split(s[1..], SPACE))
  {
    hide NonEmpty, Split, IndexOf;
    assert s[..0] == [];
    IndexOfUnique(s, SPACE, 0);
    SplitStep(s, SPACE, 0);
    NonEmptyCons([], Split(s[1..], SPACE));
  }

  lemma PiecesAtWord(s: seq<byte>, k: nat)
    requires 0 < k <= |s| && SPACE !in s[..k] && (k < |s| ==> s[k] == SPACE)
    ensures k < |s| ==> NonEmpty(Split(s, SPACE)) == [s[..k]] + NonEmpty(Split(s[k + 1..], SPACE))
    ensures k == |s| ==> NonEmpty(Split(s, SPACE)) == [s[..k]]
  {
    hide Split, IndexOf;
    IndexOfUnique(s, SPACE, k);
    SplitStep(s, SPACE, k);
    if k < |s| {
      NonEmptyCons(s[..k], Split(s[k + 1..], SPACE));
    } else {
      assert s[..k] == s;
    }
  }

  lemma WordEndAtSpace(s: seq<byte>)
    requires NEWLINE !in s
    ensures var k := WordEnd(s); SPACE !in s[..k] && (k < |s| ==> s[k] == SPACE)
  {
  }

  /** Without newlines, the arguments are simply the non-empty pieces between spaces. */
  lemma {:induction false} ArgumentsBetweenSpaces(s: seq<byte>)
    requires NEWLINE !in s
    ensures Arguments(s) == NonEmpty(Split(s, SPACE))
    decreases |s|
  {
    if s == [] {
      assert Split(s, SPACE) == [[]];
      return;
    }
    hide WordEnd, Arguments, Split, NonEmpty;
    ArgumentsStep(s);
    if s[0] == SPACE {
      PiecesAtSpace(s);
      ArgumentsBetweenSpaces(s[1..]);
    } else {
      var k := WordEnd(s);
      WordEndAtSpace(s);
      PiecesAtWord(s, k);
      if k < |s| { ArgumentsBetweenSpaces(s[k + 1..]); }
    }
  }

  // ---------------------------------------------------------------- cutting, told by the text alone

  /** Where the line ends: at the first newline that follows a space or another newline, or, with `start`,
      that stands first. */
  function LineStop(s: seq<byte>, start: bool): (p: nat)
    ensures p <= |s|
  {
    if s == [] || (start && s[0] == NEWLINE) then 0
    else 1 + LineStop(s[1..], IsSeparator(s[0]))
  }

  /** The newline at which a line stops, told by its neighbours. */
  lemma {:induction false} LineStopMeans(s: seq<byte>, start: bool)
    ensures var p := LineStop(s, start);
            && (p < |s| ==> s[p] == 10 && if p == 0 then start else s[p - 1] == 32 || s[p - 1] == 10)
            && (forall i, j :: 0 <= i && j == i + 1 < p && s[j] == 10 ==> s[i] != 32 && s[i] != 10)
            && (p > 0 && start ==> s[0] != 10)
  {
    if s != [] && !(start && s[0] == NEWLINE) {
      LineStopMeans(s[1..], IsSeparator(s[0]));
    }
  }

  /** `s` with a space for every newline. */
  function Blanked(s: seq<byte>): (r: seq<byte>)
    ensures |r| == |s|
    ensures forall i :: 0 <= i < |s| ==> r[i] == if s[i] == 10 then 32 else s[i]
  {
    seq(|s|, i requires 0 <= i < |s| => if s[i] == 10 then 32 else s[i])
  }

  /** The words of a line: what lies between its spaces and newlines. */
  function WordsOf(s: seq<byte>, start: bool): seq<seq<byte>> {
    NonEmpty(Split(Blanked(s[..LineStop(s, start)]), SPACE))
  }

  lemma {:induction false} LineStopStep(s: seq<byte>, start: bool)
    ensures LineStop(s, start)
            == if s == [] || (start && s[0] == NEWLINE) then 0 else 1 + LineStop(s[1..], IsSeparator(s[0]))
  {
  }

  /** A word, its separator and the rest of the line. */
  lemma {:induction false} LineStopAfterWord(s: seq<byte>, k: nat, start: bool)
    requires k == WordEnd(s) < |s| && (k == 0 && s[0] == NEWLINE ==> !start)
    ensures LineStop(s, start) == k + 1 + LineStop(s[k + 1..], true)
    decreases k
  {
    hide LineStop;
    LineStopStep(s, start);
    if k > 0 {
      assert s[1..][k..] == s[k + 1..];
      WordEndUnique(s[1..], k - 1);
      LineStopAfterWord(s[1..], k - 1, false);
    }
  }

  lemma {:induction false} LineStopInWord(s: seq<byte>, start: bool)
    requires WordEnd(s) == |s|
    ensures LineStop(s, start) == |s|
  {
    if s != [] {
      WordEndUnique(s[1..], |s| - 1);
      LineStopInWord(s[1..], false);
    }
  }

  /** A line of one word. */
  lemma WordsOne(s: seq<byte>, start: bool)
    requires s != [] && WordEnd(s) == |s|
    ensures WordsOf(s, start) == [s]
  {
    hide WordEnd, LineStop, NonEmpty, Split, Blanked, WordsOf;
    LineStopInWord(s, start);
    WordsAre(s, start, |s|);
    assert s[..|s|] == s;
    BlankedWord(s);
    PiecesAtWord(s, |s|);
  }

  /** Otherwise: its first word, if any, and the words behind the separator. */
  lemma WordsMore(s: seq<byte>, start: bool, k: nat)
    requires k == WordEnd(s) < |s| && (s[0] == NEWLINE ==> !start)
    ensures WordsOf(s, start) == NonEmpty([s[..k]]) + WordsOf(s[k + 1..], true)
  {
    hide WordEnd, LineStop, NonEmpty, Split, Blanked, WordsOf;
    LineStopAfterWord(s, k, start);
    var rest := s[k + 1..];
    var n := LineStop(rest, true);
    var line := Blanked(s[..k + 1 + n]);
    WordsAre(s, start, k + 1 + n);
    WordsAre(rest, true, n);
    BlankedLine(s, k, n);
    PiecesOfLine(line, k, s[..k], Blanked(rest[..n]));
  }

  lemma WordsAre(s: seq<byte>, start: bool, n: nat)
    requires n == LineStop(s, start)
    ensures WordsOf(s, start) == NonEmpty(Split(Blanked(s[..n]), SPACE))
  {
  }

  lemma PiecesOfLine(line: seq<byte>, k: nat, word: seq<byte>, later: seq<byte>)
    requires k < |line| && line[..k] == word && line[k + 1..] == later && line[k] == SPACE && SPACE !in word
    ensures NonEmpty(Split(line, SPACE)) == NonEmpty([word]) + NonEmpty(Split(later, SPACE))
  {
    hide NonEmpty, Split;
    NonEmptyOne(word);
    if k == 0 {
      PiecesAtSpace(line);
    } else {
      PiecesAtWord(line, k);
    }
  }

  lemma BlankedWord(s: seq<byte>)
    requires WordEnd(s) == |s|
    ensures Blanked(s) == s && SPACE !in s
  {
  }

  lemma BlankedLine(s: seq<byte>, k: nat, n: nat)
    requires k == WordEnd(s) < |s| && k + 1 + n <= |s|
    ensures var line := Blanked(s[..k + 1 + n]);
            && |line| == k + 1 + n && line[..k] == s[..k] && SPACE !in line[..k] && line[k] == SPACE
            && line[k + 1..] == Blanked(s[k + 1..][..n])
  {
    hide WordEnd;
    assert s[..k + 1 + n][..k] == s[..k] && s[..k + 1 + n][k + 1..] == s[k + 1..][..n];
  }

  lemma NonEmptyOne(w: seq<byte>)
    ensures NonEmpty([w]) == if w == [] then [] else [w]
  {
  }

  /** The arguments are the words between spaces and newlines, up to the first newline where a word would
      start. */
  lemma {:induction false} ArgumentsOfLine(s: seq<byte>)
    ensures Arguments(s) == WordsOf(s, true)
    decreases |s|
  {
    if s == [] || s[0] == NEWLINE {
      NoWords(s);
      return;
    }
    hide WordEnd, Arguments, LineStop, NonEmpty, Split, WordsOf, Blanked;
    ArgumentsStep(s);
    var k := WordEnd(s);
    if k == |s| {
      assert s[..k] == s;
      WordsOne(s, true);
    } else {
      WordsMore(s, true, k);
      NonEmptyOne(s[..k]);
      ArgumentsOfLine(s[k + 1..]);
      if s[0] == SPACE { WordEndUnique(s, 0); }
    }
  }

  lemma NoWords(s: seq<byte>)
    requires s == [] || s[0] == NEWLINE
    ensures Arguments(s) == [] && WordsOf(s, true) == []
  {
    var nothing := s[..0];
    assert LineStop(s, true) == 0 && Blanked(nothing) == nothing && Split(nothing, SPACE) == [nothing];
    NonEmptyOne(nothing);
  }

  /** Name and arguments together are the words of the command, up to the first newline that follows a
      space or another newline. */
  lemma CommandIsWords(command: seq<byte>)
    ensures NonEmpty([CommandName(command)]) + CommandArguments(command) == WordsOf(command, false)
  {
    hide WordEnd, Arguments, LineStop, NonEmpty, Split, WordsOf;
    var k := WordEnd(command);
    if command == [] {
      EmptyCommand();
    } else if k == |command| {
      assert command[..k] == command;
      WordsOne(command, false);
      NonEmptyOne(command);
    } else {
      WordsMore(command, false, k);
      ArgumentsOfLine(command[k + 1..]);
    }
  }

  lemma EmptyCommand()
    ensures CommandName([]) == [] && CommandArguments([]) == [] && NonEmpty([[]]) == [] && WordsOf([], false) == []
  {
    assert Blanked([]) == [] && Split([], SPACE) == [[]];
  }

  /** Without newlines they are simply the non-empty pieces between spaces. */
  lemma PlainCommandIsWords(command: seq<byte>)
    requires NEWLINE !in command
    ensures NonEmpty([CommandName(command)]) + CommandArguments(command) == NonEmpty(Split(command, SPACE))
  {
    hide LineStop, NonEmpty, Split;
    CommandIsWords(command);
    LineStopMeans(command, false);
    assert LineStop(command, false) == |command|;
    assert command[..|command|] == command && Blanked(command) == command;
  }

  // ---------------------------------------------------------------- joining, word by word

  /** The first i words, each followed by a space. */
  function Spaced(words: seq<seq<byte>>, i: nat): seq<byte>
    requires i <= |words|
  {
    if i == 0 then [] else Spaced(words, i - 1) + words[i - 1] + [SPACE]
  }

  lemma {:induction false} SpacedShift(words: seq<seq<byte>>, i: nat)
    requires 0 < i <= |words|
    ensures Spaced(words, i) == words[0] + [SPACE] + Spaced(words[1..], i - 1)
  {
    if i > 1 {
      SpacedShift(words, i - 1);
      assert words[1..][i - 2] == words[i - 1];
    }
  }

  /** The joined text is all but the last word spaced, then the last word. */
  lemma {:induction false} JoinIsSpaced(words: seq<seq<byte>>)
    requires words != []
    ensures Join(words, SPACE) == Spaced(words, |words| - 1) + words[|words| - 1]
  {
    if |words| > 1 {
      JoinIsSpaced(words[1..]);
      SpacedShift(words, |words| - 1);
    }
  }

  lemma {:induction false} SpacedGrows(words: seq<seq<byte>>, i: nat)
    requires i < |words|
    ensures |Spaced(words, i)| + |words[i]| <= |Join(words, SPACE)|
    ensures i + 1 < |words| ==> |Spaced(words, i)| + |words[i]| < |Join(words, SPACE)|
    decreases |words| - i
  {
    if i + 1 < |words| {
      SpacedGrows(words, i + 1);
    } else {
      JoinIsSpaced(words);
    }
  }

  /** A later word starts after the space that follows an earlier one. */
  lemma {:induction false} SpacedOrder(words: seq<seq<byte>>, i: nat, j: nat)
    requires i < j < |words|
    ensures |Spaced(words, i)| + |words[i]| < |Spaced(words, j)|
    decreases j - i
  {
    if i + 1 < j {
      SpacedOrder(words, i, j - 1);
    }
  }

  /** Some word ends exactly where a buffer of `nbytes` bytes does, so its NUL falls one byte outside. */
  ghost predicate Overfills(words: seq<seq<byte>>, nbytes: int) {
    exists i :: 0 <= i < |words| && EndsAt(words, i, nbytes)
  }

  ghost predicate EndsAt(words: seq<seq<byte>>, i: nat, n: int) {
    i < |words| && |Spaced(words, i)| + |words[i]| == n
  }

  lemma {:induction false} SpacedPrefix(words: seq<seq<byte>>, n: nat, i: nat)
    requires i <= n <= |words|
    ensures Spaced(words[..n], i) == Spaced(words, i)
  {
    if i > 0 {
      SpacedPrefix(words, n, i - 1);
    }
  }

  /** That is when the text of the first words, however many, fills the buffer exactly. */
  lemma OverfillsMeans(words: seq<seq<byte>>, nbytes: int)
    ensures Overfills(words, nbytes) <==> exists n :: 0 < n <= |words| && |Join(words[..n], SPACE)| == nbytes
  {
    hide Spaced, Join;
    forall n | 0 < n <= |words| ensures |Join(words[..n], SPACE)| == |Spaced(words, n - 1)| + |words[n - 1]| {
      JoinIsSpaced(words[..n]);
      SpacedPrefix(words, n, n - 1);
    }
    if n :| 0 < n <= |words| && |Join(words[..n], SPACE)| == nbytes {
      assert EndsAt(words, n - 1, nbytes);
    }
    if Overfills(words, nbytes) {
      var i :| 0 <= i < |words| && EndsAt(words, i, nbytes);
      assert |Join(words[..i + 1], SPACE)| == nbytes;
    }
  }

  /** Such a text is never accepted: it needs at least one byte more than there is. */
  lemma OverfillsMeansTooLong(words: seq<seq<byte>>, nbytes: int)
    requires Overfills(words, nbytes)
    ensures |Join(words, SPACE)| >= nbytes
  {
    var i :| 0 <= i < |words| && EndsAt(words, i, nbytes);
    SpacedGrows(words, i);
  }

  /** One word as long as the buffer is enough: "abcd" for four bytes. */
  lemma FourLettersOverfillFour()
    ensures Overfills([[97, 98, 99, 100]], 4)
  {
    var words: seq<seq<byte>> := [[97, 98, 99, 100]];
    assert EndsAt(words, 0, 4);
  }
}
