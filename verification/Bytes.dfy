/** Bytes, C strings and line cutting, shared by the models of the user programs and the kernel. */
module Bytes {

  type byte = b: int | 0 <= b < 256

  const NUL: byte := 0
  const NEWLINE: byte := 10
  const RETURN: byte := 13
  const SPACE: byte := 32
  const ZERO: byte := 48     // the character '0'

  lemma Associative<T>(a: seq<T>, b: seq<T>, c: seq<T>)
    ensures (a + b) + c == a + (b + c)
  {
  }

  function Min(a: int, b: int): int { if a < b then a else b }

  function Max(a: int, b: int): int { if a < b then b else a }

  /** The position of the first `c` in `s`, or `|s|` when there is none. */
  function IndexOf(s: seq<byte>, c: byte): (k: nat)
    ensures k <= |s|
    ensures c !in s[..k]
    ensures k < |s| ==> s[k] == c
  {
    if s == [] then 0
    else if s[0] == c then 0
    else
      var k := 1 + IndexOf(s[1..], c);
      assert s[..k] == [s[0]] + s[1..][..k - 1];
      k
  }

  lemma IndexOfUnique(s: seq<byte>, c: byte, k: nat)
    requires k <= |s|
    requires c !in s[..k]
    requires k < |s| ==> s[k] == c
    ensures IndexOf(s, c) == k
  {
    var j := IndexOf(s, c);
    assert forall i :: 0 <= i < k ==> s[..k][i] != c;
    assert forall i :: 0 <= i < j ==> s[..j][i] != c;
  }

  /** The C string that starts at the beginning of `s`: everything before the first NUL. */
  function CString(s: seq<byte>): (r: seq<byte>)
    ensures r <= s
    ensures NUL !in r
    ensures |r| < |s| ==> s[|r|] == 0
  {
    s[..IndexOf(s, NUL)]
  }

  /** `s` cut at every `c`; the pieces between two separators, before the first and after the last. */
  function Split(s: seq<byte>, c: byte): (pieces: seq<seq<byte>>)
    ensures |pieces| >= 1
    decreases |s|
  {
    var k := IndexOf(s, c);
    if k == |s| then [s] else [s[..k]] + Split(s[k + 1..], c)
  }

  lemma {:induction false} SplitStep(s: seq<byte>, c: byte, k: nat)
    requires k == IndexOf(s, c)
    ensures Split(s, c) == if k == |s| then [s] else [s[..k]] + Split(s[k + 1..], c)
  {
  }

  function Lines(s: seq<byte>): (lines: seq<seq<byte>>)
    ensures |lines| >= 1
  {
    Split(s, NEWLINE)
  }

  /** `pieces` with one `c` between neighbours. */
  function Join(pieces: seq<seq<byte>>, c: byte): seq<byte> {
    if pieces == [] then []
    else if |pieces| == 1 then pieces[0]
    else pieces[0] + [c] + Join(pieces[1..], c)
  }

  ghost predicate AllWithout(pieces: seq<seq<byte>>, c: byte) {
    forall i :: 0 <= i < |pieces| ==> c !in pieces[i]
  }

  lemma {:induction false} JoinOfSplit(s: seq<byte>, c: byte)
    ensures Join(Split(s, c), c) == s
    ensures AllWithout(Split(s, c), c)
    decreases |s|
  {
    hide IndexOf, Split;
    var k := IndexOf(s, c);
    SplitStep(s, c, k);
    if k < |s| {
      JoinOfSplit(s[k + 1..], c);
      JoinCons(s[..k], Split(s[k + 1..], c), c);
      assert s == s[..k] + [c] + s[k + 1..];
    } else {
      assert s[..k] == s;
    }
  }

  lemma {:induction false} JoinCons(piece: seq<byte>, pieces: seq<seq<byte>>, c: byte)
    requires pieces != []
    ensures Join([piece] + pieces, c) == piece + [c] + Join(pieces, c)
  {
    assert ([piece] + pieces)[1..] == pieces;
  }

  lemma {:induction false} SplitOfJoin(pieces: seq<seq<byte>>, c: byte)
    requires pieces != []
    requires AllWithout(pieces, c)
    ensures Split(Join(pieces, c), c) == pieces
  {
    var s := Join(pieces, c);
    var k := |pieces[0]|;
    assert s[..k] == pieces[0];
    IndexOfUnique(s, c, k);
    if |pieces| > 1 {
      assert s[k + 1..] == Join(pieces[1..], c);
      SplitOfJoin(pieces[1..], c);
    }
  }

  /** The pieces that are not empty, in order. */
  function NonEmpty(pieces: seq<seq<byte>>): seq<seq<byte>> {
    if pieces == [] then []
    else (if pieces[0] == [] then [] else [pieces[0]]) + NonEmpty(pieces[1..])
  }

  lemma {:induction false} NonEmptyCons(piece: seq<byte>, pieces: seq<seq<byte>>)
    ensures NonEmpty([piece] + pieces) == (if piece == [] then [] else [piece]) + NonEmpty(pieces)
  {
    assert ([piece] + pieces)[1..] == pieces;
  }

  lemma {:induction false} NonEmptyConcat(a: seq<seq<byte>>, b: seq<seq<byte>>)
    ensures NonEmpty(a + b) == NonEmpty(a) + NonEmpty(b)
  {
    if a == [] {
      assert a + b == b;
    } else {
      assert (a + b)[0] == a[0] && (a + b)[1..] == a[1..] + b;
      NonEmptyConcat(a[1..], b);
    }
  }

  /** Cutting a concatenation: the last piece of one text runs into the first piece of the other. */
  lemma {:induction false} SplitConcat(a: seq<byte>, b: seq<byte>, c: byte)
    ensures var p, q := Split(a, c), Split(b, c);
            Split(a + b, c) == p[..|p| - 1] + [p[|p| - 1] + q[0]] + q[1..]
    decreases |a|
  {
    hide IndexOf, Split;
    var p, q, k := Split(a, c), Split(b, c), IndexOf(a, c);
    SplitStep(a, c, k);
    if k < |a| {
      var rest := a[k + 1..];
      SplitConcat(rest, b, c);
      assert (a + b)[..k] == a[..k] && (a + b)[k + 1..] == rest + b;
      IndexOfUnique(a + b, c, k);
      SplitStep(a + b, c, k);
      assert p == [a[..k]] + Split(rest, c);
      assert p[..|p| - 1] == [a[..k]] + Split(rest, c)[..|p| - 2];
    } else {
      var j := IndexOf(b, c);
      SplitStep(b, c, j);
      assert (a + b)[..|a| + j] == a + b[..j];
      IndexOfUnique(a + b, c, |a| + j);
      SplitStep(a + b, c, |a| + j);
      assert j < |b| ==> (a + b)[|a| + j + 1..] == b[j + 1..];
      assert j == |b| ==> b[..j] == b;
      assert q[0] == b[..j];
    }
  }

  /** The first piece is empty exactly when the text starts with a separator, the last exactly when it
      ends with one. */
  lemma {:induction false} EndPieces(s: seq<byte>, c: byte)
    ensures var p := Split(s, c);
            && (p[0] == [] <==> s == [] || s[0] == c)
            && (p[|p| - 1] == [] <==> s == [] || s[|s| - 1] == c)
    decreases |s|
  {
    hide IndexOf, Split;
    var k := IndexOf(s, c);
    SplitStep(s, c, k);
    if k < |s| {
      EndPieces(s[k + 1..], c);
    } else {
      assert s != [] ==> s[..k][0] == s[0] && s[..k][|s| - 1] == s[|s| - 1];
    }
  }
}
