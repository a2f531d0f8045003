/** The assembly memory routines: a byte head up to alignment, whole words, a byte tail. Memory is
    one array indexed by address. */
module Memory {
  import opened Bytes

  /** `now` is `before` with [at, at+n) replaced by the bytes [from, from+n) of `before`. */
  ghost predicate Copied(before: seq<byte>, now: seq<byte>, at: nat, from: nat, n: nat)
    requires |now| == |before| && at + n <= |before| && from + n <= |before|
  {
    && (forall k :: 0 <= k < |now| && !(at <= k < at + n) ==> now[k] == before[k])
    && (forall k {:trigger now[k]} :: at <= k < at + n ==> now[k] == before[from + (k - at)])
  }

  ghost predicate Filled(before: seq<byte>, now: seq<byte>, at: nat, n: nat, c: byte)
    requires |now| == |before|
  {
    forall k :: 0 <= k < |now| ==> now[k] == if at <= k < at + n then c else before[k]
  }

  lemma OneMoreFilled(before: seq<byte>, now: seq<byte>, at: nat, k: nat, c: byte)
    requires |now| == |before| && at + k < |before|
    requires Filled(before, now, at, k, c)
    ensures Filled(before, now[at + k := c], at, k + 1, c)
  {
  }

  method StoreByte(mem: array<byte>, at: nat, k: nat, c: byte, ghost before: seq<byte>)
    requires |before| == mem.Length && at + k < mem.Length
    requires Filled(before, mem[..], at, k, c)
    modifies mem
    ensures Filled(before, mem[..], at, k + 1, c)
  {
    hide Filled;
    ghost var now := mem[..];
    OneMoreFilled(before, now, at, k, c);
    mem[at + k] := c;
    assert mem[..] == now[at + k := c];
  }

  /** stosl of the value whose four bytes are all `c`. */
  method StoreWord(mem: array<byte>, at: nat, k: nat, c: byte, ghost before: seq<byte>)
    requires |before| == mem.Length && at + k + 4 <= mem.Length
    requires Filled(before, mem[..], at, k, c)
    modifies mem
    ensures Filled(before, mem[..], at, k + 4, c)
  {
    StoreByte(mem, at, k, c, before);
    StoreByte(mem, at, k + 1, c, before);
    StoreByte(mem, at, k + 2, c, before);
    StoreByte(mem, at, k + 3, c, before);
  }

  /** memset: equal to the byte form for every alignment and length. */
  method Memset(mem: array<byte>, s: nat, value: int, n: nat)
    requires s + n <= mem.Length
    modifies mem
    ensures Filled(old(mem[..]), mem[..], s, n, value % 256)
  {
    ghost var before := mem[..];
    var c: byte := value % 256;
    var k, ecx := 0, n;       // EDI is s + k
    // .memset_top: bytes up to a word boundary
    while ecx != 0 && (s + k) % 4 != 0
      invariant 0 <= k && k + ecx == n && 0 <= ecx
      invariant Filled(before, mem[..], s, k, c)
    {
      StoreByte(mem, s, k, c, before);
      k, ecx := k + 1, ecx - 1;
    }
    if ecx == 0 { return; }
    // .memset_aligned: rep stosl
    var edx := ecx % 4;
    ecx := ecx / 4;
    while ecx != 0
      invariant 0 <= k && k + 4 * ecx + edx == n && 0 <= ecx
      invariant Filled(before, mem[..], s, k, c)
    {
      StoreWord(mem, s, k, c, before);
      k, ecx := k + 4, ecx - 1;
    }
    // .memset_bottom: the bytes that are left
    while edx != 0
      invariant 0 <= k && k + edx == n && 0 <= edx
      invariant Filled(before, mem[..], s, k, c)
    {
      StoreByte(mem, s, k, c, before);
      k, edx := k + 1, edx - 1;
    }
  }

  ghost predicate Forward(size: nat, dest: nat, src: nat, n: nat) {
    dest + n <= size && src + n <= size && (dest <= src || src + n <= dest)
  }

  /** While a forward copy is under way the rest of the source is still as it was. */
  lemma SourceIntact(before: seq<byte>, now: seq<byte>, dest: nat, src: nat, k: nat, n: nat, i: nat)
    requires |now| == |before| && Forward(|before|, dest, src, n) && k <= n
    requires Copied(before, now, dest, src, k) && k <= i < n
    ensures now[src + i] == before[src + i]
  {
  }

  lemma OneMore(before: seq<byte>, now: seq<byte>, dest: nat, src: nat, k: nat)
    requires |now| == |before| && dest + k < |before| && src + k < |before|
    requires Copied(before, now, dest, src, k)
    ensures Copied(before, now[dest + k := before[src + k]], dest, src, k + 1)
  {
  }

  /** movsb in a forward copy of which k bytes are done. */
  method CopyByte(mem: array<byte>, dest: nat, src: nat, k: nat, ghost n: nat, ghost before: seq<byte>)
    requires |before| == mem.Length && Forward(mem.Length, dest, src, n) && k < n
    requires Copied(before, mem[..], dest, src, k)
    modifies mem
    ensures Copied(before, mem[..], dest, src, k + 1)
  {
    hide Copied;
    ghost var now := mem[..];
    SourceIntact(before, now, dest, src, k, n, k);
    OneMore(before, now, dest, src, k);
    mem[dest + k] := mem[src + k];
    assert mem[..] == now[dest + k := before[src + k]];
  }

  /** movsl: a whole word is read before it is written. */
  method CopyWord(mem: array<byte>, dest: nat, src: nat, k: nat, ghost n: nat, ghost before: seq<byte>)
    requires |before| == mem.Length && Forward(mem.Length, dest, src, n) && k + 4 <= n
    requires Copied(before, mem[..], dest, src, k)
    modifies mem
    ensures Copied(before, mem[..], dest, src, k + 4)
  {
    hide Copied;
    ghost var now := mem[..];
    var at, b0, b1, b2, b3 := dest + k, mem[src + k], mem[src + k + 1], mem[src + k + 2], mem[src + k + 3];
    SourceIntact(before, now, dest, src, k, n, k);
    SourceIntact(before, now, dest, src, k, n, k + 1);
    SourceIntact(before, now, dest, src, k, n, k + 2);
    SourceIntact(before, now, dest, src, k, n, k + 3);
    mem[at], mem[at + 1], mem[at + 2], mem[at + 3] := b0, b1, b2, b3;
    ghost var s1 := now[at := b0];
    ghost var s2 := s1[at + 1 := b1];
    ghost var s3 := s2[at + 2 := b2];
    OneMore(before, now, dest, src, k);
    OneMore(before, s1, dest, src, k + 1);
    OneMore(before, s2, dest, src, k + 2);
    OneMore(before, s3, dest, src, k + 3);
    assert mem[..] == s3[at + 3 := b3];
  }

  /** memcpy: a copy of the source as it was, whenever the destination does not begin inside it. */
  method Memcpy(mem: array<byte>, dest: nat, src: nat, n: nat)
    requires Forward(mem.Length, dest, src, n)
    modifies mem
    ensures Copied(old(mem[..]), mem[..], dest, src, n)
  {
    ghost var before := mem[..];
    var k, ecx := 0, n;       // EDI is dest + k, ESI is src + k
    while ecx != 0 && (dest + k) % 4 != 0
      invariant 0 <= k && k + ecx == n && 0 <= ecx
      invariant Copied(before, mem[..], dest, src, k)
    {
      CopyByte(mem, dest, src, k, n, before);
      k, ecx := k + 1, ecx - 1;
    }
    if ecx == 0 { return; }
    var edx := ecx % 4;
    ecx := ecx / 4;
    while ecx != 0
      invariant 0 <= k && k + 4 * ecx + edx == n && 0 <= ecx
      invariant Copied(before, mem[..], dest, src, k)
    {
      CopyWord(mem, dest, src, k, n, before);
      k, ecx := k + 4, ecx - 1;
    }
    while edx != 0
      invariant 0 <= k && k + edx == n && 0 <= edx
      invariant Copied(before, mem[..], dest, src, k)
    {
      CopyByte(mem, dest, src, k, n, before);
      k, edx := k + 1, edx - 1;
    }
  }

  /** memmove: a copy of the source as it was, for every overlap. */
  method Memmove(mem: array<byte>, dest: nat, src: nat, n: nat)
    requires dest + n <= mem.Length && src + n <= mem.Length
    modifies mem
    ensures Copied(old(mem[..]), mem[..], dest, src, n)
  {
    ghost var before := mem[..];
    if src >= dest {
      // rep movsb upwards
      var k := 0;
      while k != n
        invariant 0 <= k <= n && Copied(before, mem[..], dest, src, k)
      {
        CopyByte(mem, dest, src, k, n, before);
        k := k + 1;
      }
    } else {
      // rep movsb downwards from the last byte, with the direction flag set
      var ecx := n;
      while ecx != 0
        invariant 0 <= ecx <= n && Copied(before, mem[..], dest + ecx, src + ecx, n - ecx)
      {
        ghost var now := mem[..];
        assert now[src + ecx - 1] == before[src + ecx - 1];
        mem[dest + ecx - 1] := mem[src + ecx - 1];
        ecx := ecx - 1;
        assert mem[..] == now[dest + ecx := before[src + ecx]];
      }
    }
  }
}
