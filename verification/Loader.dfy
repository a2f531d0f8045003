/** The file checks of execute: which file it would run, and where the program would start. */
module Loader {
  import opened Bytes
  import opened Image
  import opened FileSystem

  const MAGIC: seq<byte> := [0x7F, 0x45, 0x4C, 0x46]
  const ENTRY_POINT := 24      // where the entry point stands in the file

  /** What uninitialised stack memory holds: the 4 bytes behind the buffer for the file, and the 4 bytes the
      entry point is read into. Files shorter than the header leave some of it in place. */
  datatype Stack = Stack(behind: seq<byte>, entry: seq<byte>) {
    predicate Valid() { |behind| == 4 && |entry| == 4 }
  }

  datatype Verdict = Refused | Runs(entry: nat)

  /** Bytes `at..at+4` of a file, completed from `rest` where the file is too short. */
  function Four(file: seq<byte>, at: nat, rest: seq<byte>): (r: seq<byte>)
    requires |rest| == 4
    ensures |r| == 4
  {
    seq(4, k requires 0 <= k < 4 => if at + k < |file| then file[at + k] else rest[k])
  }

  /** What execute makes of a file's contents. */
  function VerdictOn(file: seq<byte>, stack: Stack): (v: Verdict)
    requires stack.Valid()
    ensures v.Runs? ==> v.entry < 0x1_0000_0000
  {
    if (file + stack.behind)[..4] != MAGIC then Refused
    else Runs(Word(Four(file, ENTRY_POINT, stack.entry), 0))
  }

  datatype Found = Missing | Contents(file: seq<byte>)

  /** The file a name stands for. */
  ghost function Find(image: seq<byte>, name: seq<byte>): Found
    requires WellFormed(image)
  {
    var i := Lookup(image, name);
    if i == EntryCount(image) then Missing
    else
      assert GoodEntry(image, i);
      Contents(File(image, EntryOf(image, i).inode))
  }

  /** Entry i is the first with the name. */
  ghost predicate FirstNamed(image: seq<byte>, name: seq<byte>, i: nat)
    requires Sized(image)
  {
    i < EntryCount(image) && NameOf(image, i) == name && forall j :: 0 <= j < i ==> NameOf(image, j) != name
  }

  /** No file is found exactly when the name has over 31 characters or no entry has it. */
  lemma MissingMeans(image: seq<byte>, name: seq<byte>)
    requires WellFormed(image)
    ensures Find(image, name).Missing? <==>
              |name| >= 32 || forall i :: 0 <= i < EntryCount(image) ==> NameOf(image, i) != name
  {
    hide Word, File, NameOf;
  }

  /** Otherwise it is the file of the inode that the first such entry names. */
  lemma FindMeans(image: seq<byte>, name: seq<byte>, i: nat)
    requires WellFormed(image) && |name| < 32 && FirstNamed(image, name, i)
    ensures GoodInode(image, Word(image, 64 * i + 100))
    ensures Find(image, name) == Contents(File(image, Word(image, 64 * i + 100)))
  {
    hide Word, File, NameOf;
    assert GoodEntry(image, i);
    assert Lookup(image, name) == i;
  }

  /** The file says by itself whether it runs and where. */
  ghost predicate Decided(file: seq<byte>) {
    forall s: Stack, t: Stack :: s.Valid() && t.Valid() ==> VerdictOn(file, s) == VerdictOn(file, t)
  }

  /** The verdict byte by byte: it runs exactly when its first four bytes, continued with those behind the
      buffer, are the magic number, and its entry point is little-endian at byte 24, continued with those
      on the stack. */
  lemma VerdictMeans(file: seq<byte>, s: Stack)
    requires s.Valid()
    ensures var at := (k: nat) requires k < 4 => if k < |file| then file[k] else s.behind[k - |file|];
            VerdictOn(file, s).Runs? <==> at(0) == 0x7F && at(1) == 0x45 && at(2) == 0x4C && at(3) == 0x46
    ensures VerdictOn(file, s).Runs? ==>
              var e := VerdictOn(file, s).entry;
              && e % 256 == (if 24 < |file| then file[24] else s.entry[0])
              && e / 0x100 % 256 == (if 25 < |file| then file[25] else s.entry[1])
              && e / 0x1_0000 % 256 == (if 26 < |file| then file[26] else s.entry[2])
              && e / 0x100_0000 == (if 27 < |file| then file[27] else s.entry[3])
  {
    hide Word;
    var start := (file + s.behind)[..4];
    assert start == MAGIC <==> start[0] == 0x7F && start[1] == 0x45 && start[2] == 0x4C && start[3] == 0x46;
    WordBytes(Four(file, ENTRY_POINT, s.entry), 0);
  }

  /** It does if and only if it is long enough to hold the entry point or differs from the magic number
      as far as it goes. */
  lemma DecidedIff(file: seq<byte>)
    ensures Decided(file) <==> |file| >= 28 || !(file[..Min(4, |file|)] <= [0x7F, 0x45, 0x4C, 0x46])
  {
    hide Word, Decided, VerdictOn;
    if |file| >= ENTRY_POINT + 4 {
      WholeHeader(file);
    } else if !(file[..Min(4, |file|)] <= MAGIC) {
      NoExecutable(file);
    } else {
      ShortHeader(file);
    }
  }

  /** A whole header: it runs exactly when it starts with the magic number, at the word at byte 24. */
  lemma WholeHeader(file: seq<byte>)
    requires |file| >= 28
    ensures Decided(file)
    ensures forall s: Stack :: s.Valid() ==>
              && (VerdictOn(file, s).Runs? <==> [0x7F, 0x45, 0x4C, 0x46] <= file)
              && (VerdictOn(file, s).Runs? ==> VerdictOn(file, s).entry == Word(file, 24))
  {
    forall s: Stack, t: Stack | s.Valid() && t.Valid() ensures VerdictOn(file, s) == VerdictOn(file, t) {
      assert (file + s.behind)[..4] == file[..4] == (file + t.behind)[..4];
      assert Four(file, ENTRY_POINT, s.entry) == Four(file, ENTRY_POINT, t.entry);
    }
    forall s: Stack | s.Valid() ensures (file + s.behind)[..4] == file[..4] {
    }
  }

  lemma NoExecutable(file: seq<byte>)
    requires !(file[..Min(4, |file|)] <= MAGIC)
    ensures Decided(file)
  {
    forall s: Stack | s.Valid() ensures VerdictOn(file, s) == Refused {
      var n := Min(4, |file|);
      assert (file + s.behind)[..4][..n] == file[..n];
    }
  }

  /** Two stacks on which a short file gets two verdicts: both complete the magic number, and the missing end
      of the entry point differs. */
  lemma ShortHeader(file: seq<byte>)
    requires |file| < ENTRY_POINT + 4 && file[..Min(4, |file|)] <= MAGIC
    ensures !Decided(file)
  {
    var behind := if |file| <= 4 then MAGIC[|file|..] + MAGIC[..|file|] else MAGIC;
    var s, t := Stack(behind, [0, 0, 0, 0]), Stack(behind, [0, 0, 0, 1]);
    assert (file + behind)[..4] == MAGIC;
    assert Four(file, ENTRY_POINT, s.entry)[3] == 0 && Four(file, ENTRY_POINT, t.entry)[3] == 1;
    assert forall k :: 0 <= k < 3 ==> Four(file, ENTRY_POINT, s.entry)[k] == Four(file, ENTRY_POINT, t.entry)[k];
    assert VerdictOn(file, s) != VerdictOn(file, t);
  }

  /** The bare magic number runs at whatever address the stack holds. */
  lemma BareMagicRunsAnywhere(s: Stack)
    requires s.Valid()
    ensures VerdictOn(MAGIC, s) == Runs(Word(s.entry, 0))
  {
    assert (MAGIC + s.behind)[..4] == MAGIC;
    assert Four(MAGIC, ENTRY_POINT, s.entry) == s.entry;
  }

  /** The whole file in a buffer on the stack. */
  method ReadWhole(fs: FileSys, inode: nat, size: nat, behind: seq<byte>) returns (buf: array<byte>)
    requires fs.Valid() && inode < fs.inodes && GoodInode(fs.image, inode) && |behind| == 4
    requires size == |File(fs.image, inode)|
    ensures buf[..] == File(fs.image, inode) + behind
  {
    hide Word, File, GoodInode, WellFormed, BlockNumber;
    ghost var file := File(fs.image, inode);
    buf := new byte[size + 4](i => if size <= i < size + 4 then behind[i - size] else NUL);
    assert buf[size..] == behind;
    var read := fs.ReadData(inode, 0, buf, size);
    assert read == size && file[0..size] == file;
    Pieces(buf[..], size, file, behind);
  }

  lemma Pieces(all: seq<byte>, k: nat, a: seq<byte>, b: seq<byte>)
    requires k <= |all| && all[..k] == a && all[k..] == b
    ensures all == a + b
  {
    assert all == all[..k] + all[k..];
  }

  /** The four bytes of the entry point. */
  method ReadEntry(fs: FileSys, inode: nat, before: seq<byte>) returns (addr: array<byte>)
    requires fs.Valid() && inode < fs.inodes && GoodInode(fs.image, inode) && |before| == 4
    ensures addr[..] == Four(File(fs.image, inode), ENTRY_POINT, before)
  {
    hide Word, File, GoodInode, WellFormed, BlockNumber;
    addr := new byte[4](i requires 0 <= i < 4 => before[i]);
    var got := fs.ReadData(inode, ENTRY_POINT, addr, 4);
    assert addr[..] == addr[..got] + addr[got..];
  }

  /** The checks on a file, by reading it. */
  method CheckContents(fs: FileSys, inode: nat, size: nat, stack: Stack) returns (v: Verdict)
    requires fs.Valid() && inode < fs.inodes && GoodInode(fs.image, inode) && stack.Valid()
    requires size == Size(fs.image, inode)
    ensures v == VerdictOn(File(fs.image, inode), stack)
  {
    hide Word, File, GoodInode, WellFormed, BlockNumber, Four;
    var buf := ReadWhole(fs, inode, size, stack.behind);
    assert buf[..4] == buf[..][..4];
    if buf[..4] != MAGIC { return Refused; }
    var addr := ReadEntry(fs, inode, stack.entry);
    v := Runs(Word(addr[..], 0));
  }

  /** The lookup: the size of the file, or -1. */
  method FindFile(fs: FileSys, name: seq<byte>) returns (size: int, inode: nat)
    requires fs.Valid() && NUL !in name
    ensures size == -1 <==> Find(fs.image, name).Missing?
    ensures size != -1 ==>
              && inode < fs.inodes && GoodInode(fs.image, inode) && size == Size(fs.image, inode)
              && Find(fs.image, name) == Contents(File(fs.image, inode))
  {
    hide Word, File, Lookup, NameOf, Padded;
    var entry;
    size, entry := fs.ReadDentryByName(name);
    inode := entry.inode;
    if size != -1 {
      assert GoodEntry(fs.image, Lookup(fs.image, name));
    }
  }

  // ---------------------------------------------------------------- the buffer on the stack

  const PCB_SIZE := 148        // a PCB lies at the bottom of the 8 KB block of a kernel stack
  const PROC_ID := 140         // and its proc_id there

  /** The caller's PCB once the file is read into a buffer on its kernel stack that ends `room` bytes above
      the PCB. */
  function PcbAfter(pcb: seq<byte>, file: seq<byte>, room: nat): (r: seq<byte>)
    requires |pcb| == PCB_SIZE
    ensures |r| == PCB_SIZE
  {
    var start := PCB_SIZE + room - |file|;
    seq(PCB_SIZE, k requires 0 <= k < PCB_SIZE => if k >= start then file[k - start] else pcb[k])
  }

  /** The PCB survives, whatever it holds and whatever the file, if and only if the file is not larger than
      the room above it. */
  lemma PcbSurvivesIff(size: nat, room: nat)
    ensures (forall pcb, file :: |pcb| == PCB_SIZE && |file| == size ==> PcbAfter(pcb, file, room) == pcb)
            <==> size <= room
  {
    if size > room {
      var pcb: seq<byte> := seq(PCB_SIZE, _ => 0);
      var file: seq<byte> := seq(size, _ => 1);
      assert PcbAfter(pcb, file, room)[PCB_SIZE - 1] == 1;
    } else {
      forall pcb: seq<byte>, file: seq<byte> | |pcb| == PCB_SIZE && |file| == size
        ensures PcbAfter(pcb, file, room) == pcb
      {
      }
    }
  }

  /** A file that reaches the field gives the caller a new process number. */
  lemma OverrunSetsProcId(pcb: seq<byte>, file: seq<byte>, room: nat)
    requires |pcb| == PCB_SIZE && |file| >= room + PCB_SIZE - PROC_ID
    ensures var start := PCB_SIZE + room - |file|;
            Word(PcbAfter(pcb, file, room), PROC_ID) == Word(file, PROC_ID - start)
  {
  }
}
