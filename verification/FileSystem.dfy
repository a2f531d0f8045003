/** The read-only file system: lookups, block-indexed reads and the directory cursor. */
module FileSystem {
  import opened Bytes
  import opened Arith
  import opened Image

  /** strncmp of a C string against a 32-byte name field. */
  method Strncmp(s: seq<byte>, field: seq<byte>) returns (diff: int)
    requires NUL !in s && |s| < NAME && |field| == NAME
    ensures diff == 0 <==> CString(field) == s
  {
    var text := s + [NUL];
    var i := 0;
    while i < NAME
      invariant 0 <= i <= |s| && s[..i] == field[..i]
    {
      if text[i] != field[i] || text[i] == NUL {
        diff := text[i] as int - field[i] as int;
        if diff == 0 {
          assert field[..i] == s;
          IndexOfUnique(field, NUL, i);
        } else {
          NotEqualAt(s, field, i);
        }
        return;
      }
      i := i + 1;
    }
    assert false;
    diff := 0;
  }

  /** A difference before either string ends tells them apart. */
  lemma NotEqualAt(s: seq<byte>, field: seq<byte>, i: nat)
    requires NUL !in s && i <= |s| < |field| && s[..i] == field[..i]
    requires (s + [NUL])[i] != field[i]
    ensures CString(field) != s
  {
    var k := IndexOf(field, NUL);
    assert i < k && k == |s| ==> field[..k][i] != s[i];
  }

  /** strncpy of a name field into a buffer: the string, then zeros. */
  method Strncpy(dst: array<byte>, field: seq<byte>)
    requires |field| == NAME && dst.Length >= NAME
    modifies dst
    ensures dst[..NAME] == Padded(CString(field), NAME)
    ensures dst[NAME..] == old(dst[NAME..])
  {
    ghost var k := IndexOf(field, NUL);
    assert forall j :: 0 <= j < k ==> field[..k][j] != NUL;
    var i := 0;
    while i < NAME && field[i] != NUL
      invariant 0 <= i <= k
      invariant dst[..i] == field[..i]
      invariant dst[NAME..] == old(dst[NAME..])
    {
      dst[i] := field[i];
      i := i + 1;
    }
    assert i == k;
    while i < NAME
      invariant k <= i <= NAME
      invariant dst[..k] == field[..k]
      invariant forall j :: k <= j < i ==> dst[j] == NUL
      invariant dst[NAME..] == old(dst[NAME..])
    {
      dst[i] := NUL;
      i := i + 1;
    }
  }

  class FileSys {
    const image: seq<byte>
    const entries: nat
    const inodes: nat
    const blocks: nat
    var dirIndex: nat

    ghost predicate Valid()
      reads this
    {
      && WellFormed(image)
      && entries == EntryCount(image) && inodes == InodeCount(image) && blocks == BlockCount(image)
      && dirIndex <= entries
    }

    /** set_filesys_meta */
    constructor (image: seq<byte>)
      requires WellFormed(image)
      ensures Valid() && this.image == image && dirIndex == 0
      ensures entries == Word(image, 0) && inodes == Word(image, 4) && blocks == Word(image, 8)
    {
      this.image := image;
      entries := Word(image, 0);
      inodes := Word(image, 4);
      blocks := Word(image, 8);
      dirIndex := 0;
    }

    /** read_dentry_by_name: the size of the first file of that name, or -1. */
    method ReadDentryByName(name: seq<byte>) returns (r: int, entry: Entry)
      requires Valid() && NUL !in name
      ensures Sized(image) && (r == -1 <==> Lookup(image, name) == EntryCount(image))
      ensures r != -1 ==> entry == EntryOf(image, Lookup(image, name))
                          && InodeAt(entry.inode) + BLOCK <= |image| && r == Size(image, entry.inode)
    {
      hide Word, CString, Padded;
      r, entry := -1, Entry([], 0, 0);
      if |name| > NAME - 1 { return; }
      var k := 0;
      while k < entries
        invariant 0 <= k <= entries
        invariant Lookup(image, name) == Lookup(image, name, k)
      {
        var check := Strncmp(name, NameField(image, k));
        if check == 0 {
          var field := new byte[NAME];
          Strncpy(field, NameField(image, k));
          entry := Entry(field[..], Word(image, EntryAt(k) + NAME), Word(image, EntryAt(k) + NAME + 4));
          assert field[..NAME] == field[..];
          assert GoodEntry(image, k);
          InodeInImage(image, entry.inode);
          r := Word(image, InodeAt(entry.inode));
          return;
        }
        k := k + 1;
      }
    }

    /** read_data, for any 32-bit offset and length. */
    method ReadData(inode: nat, offset: nat, buf: array<byte>, length: nat) returns (r: int)
      requires Valid()
      requires inode < inodes ==> Min(length, Max(0, |File(image, inode)| - offset)) <= buf.Length
      modifies buf
      ensures r == -1 <==> inode >= inodes
      ensures r == -1 ==> buf[..] == old(buf[..])
      ensures r != -1 ==> r == Min(length, Max(0, |File(image, inode)| - offset))
      ensures r != -1 ==> buf[..r] == (if r > 0 then File(image, inode)[offset..offset + r] else [])
      ensures r != -1 ==> buf[r..] == old(buf[r..])
    {
      hide Word, File, BlockNumber;
      if inode >= inodes { return -1; }
      assert GoodInode(image, inode);
      ghost var file := File(image, inode);
      var size := Size(image, inode);
      var i := 0;
      while i < length
        invariant 0 <= i <= length && (i > 0 ==> offset + i <= size)
        invariant forall k :: 0 <= k < i ==> buf[k] == file[offset + k]
        invariant buf[i..] == old(buf[i..])
      {
        var blockOffset := (offset + i) / BLOCK;
        var offsetInBlock := (offset + i) % BLOCK;
        if i + offset >= size { break; }
        FileAt(image, inode, offset + i);
        buf[i] := image[DataAt(image) + BLOCK * BlockNumber(image, inode, blockOffset) + offsetInBlock];
        i := i + 1;
      }
      r := i;
    }

    /** dir_read: the next name, padded to 32 bytes, or 0 and back to the start. */
    method DirRead(buf: array<byte>) returns (r: int)
      requires Valid() && (dirIndex < entries ==> buf.Length >= NAME)
      modifies this`dirIndex, buf
      ensures Valid()
      ensures old(dirIndex) < entries ==>
                && r == NAME && dirIndex == old(dirIndex) + 1
                && EntryAt(old(dirIndex)) + ENTRY <= |image|
                && buf[..NAME] == Padded(NameOf(image, old(dirIndex)), NAME) && buf[NAME..] == old(buf[NAME..])
      ensures old(dirIndex) == entries ==> r == 0 && dirIndex == 0 && buf[..] == old(buf[..])
    {
      var index := dirIndex;
      dirIndex := dirIndex + 1;
      if index >= entries {
        dirIndex := 0;
        return 0;
      }
      EntryInImage(image, index);
      Strncpy(buf, NameField(image, index));
      r := NAME;
    }
  }

  /** What the k-th directory read delivers, counting from a fresh cursor. */
  datatype Listing = Name(field: seq<byte>) | End

  ghost function ListingAt(image: seq<byte>, k: nat): Listing
    requires Sized(image)
  {
    var i := k % (EntryCount(image) + 1);
    if i < EntryCount(image) then EntryInImage(image, i); Name(Padded(NameOf(image, i), NAME)) else End
  }

  /** Successive directory reads: every name in order, then the end, with period entries + 1. */
  method ListDirectory(fs: FileSys, calls: nat) returns (seen: seq<Listing>)
    requires fs.Valid() && fs.dirIndex == 0
    modifies fs
    ensures fs.Valid() && |seen| == calls
    ensures forall k :: 0 <= k < calls ==> seen[k] == ListingAt(fs.image, k)
  {
    assert Sized(fs.image);
    hide Word, NameOf, Padded, WellFormed;
    var buf := new byte[NAME];
    seen := [];
    for k := 0 to calls
      invariant fs.Valid() && Sized(fs.image) && fs.dirIndex == k % (fs.entries + 1)
      invariant |seen| == k && forall j :: 0 <= j < k ==> seen[j] == ListingAt(fs.image, j)
    {
      NextModulo(k, fs.entries + 1);
      var r := fs.DirRead(buf);
      assert buf[..NAME] == buf[..];
      seen := seen + [if r == 0 then End else Name(buf[..])];
    }
  }

  /** A name of at most 31 characters that is listed is also found, at its first entry. */
  lemma ListedNameIsFound(image: seq<byte>, i: nat)
    requires Sized(image) && i < EntryCount(image)
    requires |NameOf(image, i)| < NAME
    ensures var found := Lookup(image, NameOf(image, i));
            found <= i && NameOf(image, found) == NameOf(image, i)
  {
    var found := Lookup(image, NameOf(image, i));
    assert forall j :: 0 <= j < found ==> NameOf(image, j) != NameOf(image, i);
  }

  /** Reading a file in chunks of any positive sizes rebuilds it, and 0 comes exactly at the end. */
  method ReadAll(fs: FileSys, inode: nat, chunk: nat -> nat) returns (all: seq<byte>)
    requires fs.Valid() && inode < fs.inodes
    requires forall i :: chunk(i) > 0
    ensures GoodInode(fs.image, inode) && all == File(fs.image, inode)
  {
    hide File, Word;
    assert GoodInode(fs.image, inode);
    ghost var file := File(fs.image, inode);
    var pos, n, calls := 0, 1, 0;
    all := [];
    while n != 0
      invariant 0 <= pos <= |file| && all == file[..pos] && 0 <= n && 0 <= calls
      invariant n == 0 ==> pos == |file|
      decreases |file| - pos, n
    {
      var buf := new byte[chunk(calls)];
      n := fs.ReadData(inode, pos, buf, chunk(calls));
      assert n > 0 ==> file[..pos] + file[pos..pos + n] == file[..pos + n];
      all := all + buf[..n];
      pos, calls := pos + n, calls + 1;
    }
    assert file[..pos] == file;
  }
}
