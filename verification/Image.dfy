/** The file system image as raw bytes, and the files it describes. */
module Image {
  import opened Bytes

  const BLOCK := 4096
  const ENTRY := 64          // bytes of a directory entry
  const NAME := 32           // bytes of its name field
  const MAX_ENTRIES := 63    // entries after the header of the boot block
  const MAX_BLOCKS := 1023   // block numbers after the length word of an inode

  /** A little-endian 32-bit word. */
  function Word(image: seq<byte>, at: nat): (w: nat)
    requires at + 4 <= |image|
    ensures w < 0x1_0000_0000
  {
    var b0: int, b1: int, b2: int, b3: int := image[at], image[at + 1], image[at + 2], image[at + 3];
    b0 + 0x100 * b1 + 0x1_0000 * b2 + 0x100_0000 * b3
  }

  /** Its k-th byte is k places after the first, counting from the lowest. */
  lemma WordBytes(image: seq<byte>, at: nat)
    requires at + 4 <= |image|
    ensures var w := Word(image, at);
            && w % 256 == image[at] && w / 0x100 % 256 == image[at + 1]
            && w / 0x1_0000 % 256 == image[at + 2] && w / 0x100_0000 == image[at + 3]
  {
    FourBytes(image[at], image[at + 1], image[at + 2], image[at + 3]);
  }

  lemma FourBytes(b0: byte, b1: byte, b2: byte, b3: byte)
    ensures var w := b0 + 0x100 * b1 + 0x1_0000 * b2 + 0x100_0000 * b3;
            w % 256 == b0 && w / 0x100 % 256 == b1 && w / 0x1_0000 % 256 == b2 && w / 0x100_0000 == b3
  {
    var w := b0 + 0x100 * b1 + 0x1_0000 * b2 + 0x100_0000 * b3;
    assert w == 0x100 * (b1 + 0x100 * b2 + 0x1_0000 * b3) + b0;
    assert w / 0x100 == 0x100 * (b2 + 0x100 * b3) + b1;
    assert w == 0x1_0000 * (b2 + 0x100 * b3) + (b0 + 0x100 * b1);
    assert w / 0x1_0000 == 0x100 * b3 + b2;
  }

  // ---------------------------------------------------------------- the layout

  function EntryCount(image: seq<byte>): nat requires |image| >= BLOCK { Word(image, 0) }

  function InodeCount(image: seq<byte>): nat requires |image| >= BLOCK { Word(image, 4) }

  function BlockCount(image: seq<byte>): nat requires |image| >= BLOCK { Word(image, 8) }

  function EntryAt(i: nat): nat { ENTRY + ENTRY * i }

  function InodeAt(k: nat): nat { BLOCK + BLOCK * k }

  function DataAt(image: seq<byte>): nat requires |image| >= BLOCK { BLOCK + BLOCK * InodeCount(image) }

  /** The boot block, the inodes and the data blocks are all there, and entries fit the boot block. */
  ghost predicate Sized(image: seq<byte>) {
    && |image| >= BLOCK
    && 1 <= EntryCount(image) <= MAX_ENTRIES
    && |image| == BLOCK * (1 + InodeCount(image) + BlockCount(image))
  }

  ghost predicate GoodInode(image: seq<byte>, k: nat) {
    && Sized(image) && k < InodeCount(image)
    && InodeAt(k) + BLOCK <= |image|
    && Size(image, k) <= MAX_BLOCKS * BLOCK
    && forall j :: 0 <= j && j * BLOCK < Size(image, k) ==> BlockNumber(image, k, j) < BlockCount(image)
  }

  ghost predicate GoodEntry(image: seq<byte>, i: nat) {
    && Sized(image) && i < EntryCount(image)
    && Word(image, EntryAt(i) + NAME) <= 2
    && Word(image, EntryAt(i) + NAME + 4) < InodeCount(image)
  }

  ghost predicate WellFormed(image: seq<byte>) {
    && Sized(image)
    && (forall k :: 0 <= k < InodeCount(image) ==> GoodInode(image, k))
    && (forall i :: 0 <= i < EntryCount(image) ==> GoodEntry(image, i))
  }

  function Size(image: seq<byte>, k: nat): nat
    requires InodeAt(k) + BLOCK <= |image|
  {
    Word(image, InodeAt(k))
  }

  function BlockNumber(image: seq<byte>, k: nat, j: nat): nat
    requires InodeAt(k) + BLOCK <= |image|
  {
    if j < MAX_BLOCKS then Word(image, InodeAt(k) + 4 * (j + 1)) else 0
  }

  lemma InodeInImage(image: seq<byte>, k: nat)
    requires Sized(image) && k < InodeCount(image)
    ensures InodeAt(k) + BLOCK <= |image|
  {
  }

  // ---------------------------------------------------------------- files as flat byte sequences

  function BlockBytes(image: seq<byte>, b: nat): (s: seq<byte>)
    requires Sized(image) && b < BlockCount(image)
    ensures |s| == BLOCK
  {
    var at := DataAt(image) + BLOCK * b;
    image[at..at + BLOCK]
  }

  /** The first n blocks of the file, one after the other. */
  ghost function Blocks(image: seq<byte>, k: nat, n: nat): (s: seq<byte>)
    requires GoodInode(image, k) && (n > 0 ==> (n - 1) * BLOCK < Size(image, k))
    ensures |s| == n * BLOCK
  {
    if n == 0 then [] else Blocks(image, k, n - 1) + BlockBytes(image, BlockNumber(image, k, n - 1))
  }

  ghost function BlocksUsed(size: nat): nat { (size + BLOCK - 1) / BLOCK }

  /** The contents of a file: its blocks in order, cut to its length. */
  ghost function File(image: seq<byte>, k: nat): (s: seq<byte>)
    requires GoodInode(image, k)
    ensures |s| == Size(image, k)
  {
    Blocks(image, k, BlocksUsed(Size(image, k)))[..Size(image, k)]
  }

  lemma {:induction false} BlocksAt(image: seq<byte>, k: nat, n: nat, i: nat)
    requires GoodInode(image, k) && (n > 0 ==> (n - 1) * BLOCK < Size(image, k))
    requires i < n * BLOCK
    ensures BlockNumber(image, k, i / BLOCK) < BlockCount(image)
    ensures Blocks(image, k, n)[i] == BlockBytes(image, BlockNumber(image, k, i / BLOCK))[i % BLOCK]
  {
    hide Word, BlockBytes, GoodInode, BlockNumber, Size;
    if i < (n - 1) * BLOCK {
      BlocksAt(image, k, n - 1, i);
    } else {
      assert i / BLOCK == n - 1 && i % BLOCK == i - (n - 1) * BLOCK;
      GoodBlock(image, k, n - 1);
    }
  }

  lemma GoodBlock(image: seq<byte>, k: nat, j: nat)
    requires GoodInode(image, k) && j * BLOCK < Size(image, k)
    ensures BlockNumber(image, k, j) < BlockCount(image)
  {
  }

  /** Where byte i of file k lies in the image: the address read_data computes. */
  lemma FileAt(image: seq<byte>, k: nat, i: nat)
    requires GoodInode(image, k) && i < Size(image, k)
    ensures i / BLOCK < MAX_BLOCKS && BlockNumber(image, k, i / BLOCK) < BlockCount(image)
    ensures var at := DataAt(image) + BLOCK * BlockNumber(image, k, i / BLOCK) + i % BLOCK;
            at < |image| && File(image, k)[i] == image[at]
  {
    BlocksAt(image, k, BlocksUsed(Size(image, k)), i);
  }

  /** The same in bytes of the image: inode k starts at 4096 * (k + 1) with the length, followed by the block
      numbers, and the blocks follow the inodes. */
  lemma FileByteAddress(image: seq<byte>, k: nat, i: nat)
    requires GoodInode(image, k) && i < Size(image, k)
    ensures |File(image, k)| == Word(image, 4096 * (k + 1))
    ensures 4096 * (k + 1) + 4 * (i / 4096) + 8 <= |image|
    ensures var block := Word(image, 4096 * (k + 1) + 4 + 4 * (i / 4096));
            var at := 4096 * (1 + Word(image, 4)) + 4096 * block + i % 4096;
            at < |image| && File(image, k)[i] == image[at]
  {
    hide Word, File;
    FileAt(image, k, i);
  }

  // ---------------------------------------------------------------- directory entries

  function NameField(image: seq<byte>, i: nat): (s: seq<byte>)
    requires EntryAt(i) + ENTRY <= |image|
    ensures |s| == NAME
  {
    image[EntryAt(i)..EntryAt(i) + NAME]
  }

  /** The name of entry i as a C string: at most 32 characters. */
  function NameOf(image: seq<byte>, i: nat): (s: seq<byte>)
    requires EntryAt(i) + ENTRY <= |image|
    ensures |s| <= NAME && NUL !in s
  {
    CString(NameField(image, i))
  }

  datatype Entry = Entry(name: seq<byte>, fileType: nat, inode: nat)

  function Padded(s: seq<byte>, n: nat): (r: seq<byte>)
    requires |s| <= n
    ensures |r| == n && s <= r
    ensures forall i :: |s| <= i < n ==> r[i] == 0
  {
    s + seq(n - |s|, i => NUL)
  }

  function EntryOf(image: seq<byte>, i: nat): Entry
    requires EntryAt(i) + ENTRY <= |image|
  {
    Entry(Padded(NameOf(image, i), NAME), Word(image, EntryAt(i) + NAME), Word(image, EntryAt(i) + NAME + 4))
  }

  /** Entry i is the 64 bytes at 64 * (i + 1): 32 bytes of name, the type and the inode. */
  lemma EntryBytes(image: seq<byte>, i: nat)
    requires 64 * i + 128 <= |image|
    ensures EntryAt(i) + ENTRY <= |image|
    ensures NameField(image, i) == image[64 * i + 64..64 * i + 96]
    ensures NameOf(image, i) <= EntryOf(image, i).name && |EntryOf(image, i).name| == 32
    ensures EntryOf(image, i).fileType == Word(image, 64 * i + 96)
    ensures EntryOf(image, i).inode == Word(image, 64 * i + 100)
  {
  }

  lemma EntryInImage(image: seq<byte>, i: nat)
    requires Sized(image) && i < EntryCount(image)
    ensures EntryAt(i) + ENTRY <= BLOCK <= |image|
  {
  }

  /** The first entry with that name from `from` on, or the number of entries. Names over 31 characters
      match none. */
  ghost function Lookup(image: seq<byte>, name: seq<byte>, from: nat := 0): (i: nat)
    requires Sized(image) && from <= EntryCount(image)
    ensures from <= i <= EntryCount(image)
    ensures i < EntryCount(image) ==> |name| < NAME && NameOf(image, i) == name
    ensures |name| < NAME ==> forall j :: from <= j < i ==> NameOf(image, j) != name
    decreases EntryCount(image) - from
  {
    if from == EntryCount(image) || (|name| < NAME && NameOf(image, from) == name) then from
    else Lookup(image, name, from + 1)
  }
}
