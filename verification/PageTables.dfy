/** The paging code in place: PDE, PTE and the slot table, over every run of its operations. */
module PageTables {
  import opened Paging

  class Tables {
    const pde: array2<bv32>
    const pte: array<bv32>
    const proc: array<int>
    const pteAddr: bv32

    ghost predicate Shape()
    {
      && pde.Length0 == SLOTS && pde.Length1 == ENTRIES && pte.Length == ENTRIES && proc.Length == SLOTS
      && pte as object != proc && pde as object != pte && pde as object != proc
      && Aligned(pteAddr)
    }

    /** Directory entries 0, 1, 12 and 32 are the only ones that ever change in a process row. */
    ghost predicate GoodRow(j: int)
      requires Shape() && 1 <= j < SLOTS
      reads pde
    {
      && (forall i :: 2 <= i < ENTRIES && i != VIDMAP && i != PROGRAM ==> pde[j, i] == CTRL_EMPTY_USR)
      && (pde[j, 0] == CTRL_EMPTY_USR || pde[j, 0] == TableEntry(pteAddr, CTRL_VIDEO))
      && (pde[j, 1] == CTRL_EMPTY_USR || pde[j, 1] == KERNEL_ENTRY)
      && (pde[j, VIDMAP] == CTRL_EMPTY_USR || pde[j, VIDMAP] == TableEntry(pteAddr, CTRL_VIDEO_USR))
      && (pde[j, PROGRAM] == CTRL_EMPTY_USR || pde[j, PROGRAM] == ProgramEntry(j - 1))
    }

    ghost predicate LiveRow(j: int)
      requires Shape() && 1 <= j < SLOTS
      reads pde
    {
      && pde[j, 0] == TableEntry(pteAddr, CTRL_VIDEO)
      && pde[j, 1] == KERNEL_ENTRY
      && pde[j, PROGRAM] == ProgramEntry(j - 1)
    }

    ghost predicate BootRow()
      requires Shape()
      reads pde
    {
      && pde[0, 0] == TableEntry(pteAddr, CTRL_VIDEO)
      && pde[0, 1] == KERNEL_ENTRY
      && forall i :: 2 <= i < ENTRIES ==> pde[0, i] == IdentityEntry(i)
    }

    /** What the kernel needs of a process row: the entries of the two stack windows are unchanged and, when
        the row is live, the page table with the video page, and the kernel, are in place. */
    ghost predicate SoundRow(j: int)
      requires Shape() && 1 <= j < SLOTS
      reads pde, proc
    {
      && pde[j, 3] == pde[j, 31] == CTRL_EMPTY_USR
      && (proc[j - 1] == 1 ==> pde[j, 0] == TableEntry(pteAddr, CTRL_VIDEO) && pde[j, 1] == KERNEL_ENTRY)
    }

    ghost predicate Sound()
      reads pde, proc
    {
      && Shape()
      && (forall i :: 0 <= i < SLOTS ==> proc[i] == 0 || proc[i] == 1)
      && proc[SLOTS - 1] == 0
      && (forall j :: 1 <= j < SLOTS ==> SoundRow(j))
    }

    /** Every row is as described: what programs linked in the 128-132 MB window keep. */
    ghost predicate Valid()
      reads pde, pte, proc
    {
      && Sound() && BootRow()
      && (forall j :: 1 <= j < SLOTS ==> GoodRow(j))
      && (forall j :: 1 <= j < SLOTS && proc[j - 1] == 1 ==> LiveRow(j))
    }

    /** The address space when CR3 points at row j. */
    ghost function SpaceOf(j: int): (s: Space)
      requires Shape() && 0 <= j < SLOTS
      reads pde, pte
      ensures |s.dir| == ENTRIES && |s.table| == ENTRIES && s.tableAddr == pteAddr
      ensures forall i :: 0 <= i < ENTRIES ==> s.dir[i] == pde[j, i] && s.table[i] == pte[i]
    {
      Space(seq(ENTRIES, i requires 0 <= i < ENTRIES reads pde => pde[j, i]), pte[..], pteAddr)
    }

    constructor (pteAddr: bv32)
      requires Aligned(pteAddr)
      ensures Shape() && this.pteAddr == pteAddr
      ensures forall i :: 0 <= i < SLOTS ==> proc[i] == 0
      ensures fresh(pde) && fresh(pte) && fresh(proc)
    {
      this.pteAddr := pteAddr;
      pde := new bv32[SLOTS, ENTRIES];
      pte := new bv32[ENTRIES];
      proc := new int[SLOTS](_ => 0);
    }

    /** init_paging */
    method Init()
      requires Shape() && forall i :: 0 <= i < SLOTS ==> proc[i] == 0
      modifies pde, pte
      ensures Valid()
      ensures forall r, k :: 1 <= r < SLOTS && 0 <= k < ENTRIES ==> pde[r, k] == CTRL_EMPTY_USR
      ensures pte[0] == PageEntry(0) & 0x0FFF_FFFE
      ensures forall k :: 1 <= k < ENTRIES ==> pte[k] == PageEntry(k)
    {
      hide TableEntry, ProgramEntry, IdentityEntry, PageEntry;
      InitRows();
      InitBootRow();
      InitTable();
    }

    /** The boot directory: the page table, the kernel, and the identity everywhere else. */
    method InitBootRow()
      requires Shape()
      modifies pde
      ensures BootRow()
      ensures forall r, k :: 1 <= r < SLOTS && 0 <= k < ENTRIES ==> pde[r, k] == old(pde[r, k])
    {
      hide TableEntry, IdentityEntry;
      pde[0, 0] := TableEntry(pteAddr, CTRL_VIDEO);
      pde[0, 1] := KERNEL_ENTRY;
      for i := 2 to ENTRIES
        invariant pde[0, 0] == TableEntry(pteAddr, CTRL_VIDEO) && pde[0, 1] == KERNEL_ENTRY
        invariant forall k :: 2 <= k < i ==> pde[0, k] == IdentityEntry(k)
        invariant forall r, k :: 1 <= r < SLOTS && 0 <= k < ENTRIES ==> pde[r, k] == old(pde[r, k])
      {
        pde[0, i] := IdentityEntry(i);
      }
    }

    /** The page table: the identity, with page 0 not present. */
    method InitTable()
      requires Shape()
      modifies pte
      ensures pte[0] == PageEntry(0) & 0x0FFF_FFFE
      ensures forall k :: 1 <= k < ENTRIES ==> pte[k] == PageEntry(k)
    {
      hide PageEntry;
      for i := 0 to ENTRIES
        invariant forall k :: 0 <= k < i ==> pte[k] == PageEntry(k)
      {
        pte[i] := PageEntry(i);
      }
      pte[0] := pte[0] & 0x0FFF_FFFE;
    }

    method InitRows()
      requires Shape()
      modifies pde
      ensures forall r, k :: 1 <= r < SLOTS && 0 <= k < ENTRIES ==> pde[r, k] == CTRL_EMPTY_USR
    {
      for j := 1 to SLOTS
        invariant forall r, k :: 1 <= r < j && 0 <= k < ENTRIES ==> pde[r, k] == CTRL_EMPTY_USR
      {
        for i := 0 to ENTRIES
          invariant forall r, k :: 1 <= r < j && 0 <= k < ENTRIES ==> pde[r, k] == CTRL_EMPTY_USR
          invariant forall k :: 0 <= k < i ==> pde[j, k] == CTRL_EMPTY_USR
        {
          pde[j, i] := CTRL_EMPTY_USR;
        }
      }
    }

    /** What new_pde makes of entry k of the row of slot i: entries 0 and 1 are written, then the entry the
        program's entry point selects takes the frame's bits. */
    ghost function NewEntry(was: bv32, i: int, k: int, vEntry: bv32): bv32
      requires 0 <= i < SLOTS - 1
    {
      var base := if k == 0 then TableEntry(pteAddr, CTRL_VIDEO) else if k == 1 then KERNEL_ENTRY else was;
      if k == DirIndex(vEntry) then OrInto(base, ProgramEntry(i)) else base
    }

    /** The two masks of any stack pointer in any block lead to one place under directory j. */
    ghost predicate MasksMeet(j: int)
      requires Shape() && 0 <= j < SLOTS
      reads pde, pte
    {
      forall i, esp :: InBlock(i, esp) ==>
        Translate(SpaceOf(j), CurrentMask(esp)) == Translate(SpaceOf(j), ParentMask(esp))
    }

    /** The video page, and the kernel's 4 MB, translate to themselves under directory j. */
    ghost predicate VideoMaps(j: int)
      requires Shape() && 0 <= j < SLOTS
      reads pde, pte
    {
      Translate(SpaceOf(j), VIDEO_ADDR) == Mapped(VIDEO_ADDR)
    }

    ghost predicate KernelMaps(j: int)
      requires Shape() && 0 <= j < SLOTS
      reads pde, pte
    {
      forall va :: 0x0040_0000 <= va < 0x0080_0000 ==> Translate(SpaceOf(j), va) == Mapped(va)
    }

    /** new_pde, for any entry point. The row comes out as described exactly. Which 4 MB the entry point lies
        in decides, exactly, what the new directory still does: in 0-4 MB the video page is lost, in 4-8 MB
        the kernel, in 12-16 MB or 124-128 MB the agreement of the two masks; every directory stays as
        described if and only if it lies in the 128-132 MB window, where programs are linked. */
    method NewPde(vEntry: bv32) returns (slot: int)
      requires Sound()
      modifies pde, proc
      ensures Sound() <==> slot == -1 || !KernelEntry(DirIndex(vEntry))
      ensures old(Valid()) ==> (Valid() <==> slot == -1 || InWindow(vEntry))
      ensures slot == -1 <==> forall i :: 0 <= i < SLOTS - 1 ==> old(proc[i]) == 1
      ensures slot == -1 ==> forall i :: 0 <= i < SLOTS ==> proc[i] == old(proc[i])
      ensures slot != -1 ==> 0 <= slot < SLOTS - 1 && old(proc[slot]) == 0 && proc[slot] == 1
      ensures slot != -1 ==> forall i :: 0 <= i < slot ==> old(proc[i]) == 1
      ensures slot != -1 ==> forall i :: 0 <= i < SLOTS && i != slot ==> proc[i] == old(proc[i])
      ensures slot != -1 ==> forall j, k :: j == slot + 1 && 0 <= k < ENTRIES ==>
                pde[j, k] == NewEntry(old(pde[j, k]), slot, k, vEntry)
      ensures forall j, k :: 0 <= j < SLOTS && (slot == -1 || j != slot + 1) && 0 <= k < ENTRIES ==>
                pde[j, k] == old(pde[j, k])
      ensures slot != -1 ==> (MasksMeet(slot + 1) <==> DirIndex(vEntry) !in {3, 31})
      ensures slot != -1 ==> (KernelMaps(slot + 1) <==> DirIndex(vEntry) != 1)
      ensures slot != -1 && pte[0xB8] == PageEntry(0xB8) ==> (VideoMaps(slot + 1) <==> DirIndex(vEntry) != 0)
    {
      hide ProgramEntry, TableEntry, IdentityEntry, InWindow, DirIndex, NewEntry, GoodRow, LiveRow, BootRow, PageEntry,
        MasksMeet, KernelMaps, VideoMaps, FilledRow;
      var i := 0;
      while i < SLOTS && proc[i] != 0
        invariant 0 <= i <= SLOTS - 1
        invariant forall k :: 0 <= k < i ==> proc[k] == 1
      {
        i := i + 1;
      }
      if i == 7 { return -1; }
      assert SoundRow(i + 1);
      FillRow(i, vEntry);
      MasksMeetIff(i + 1, DirIndex(vEntry));
      KernelMapsIff(i + 1, DirIndex(vEntry));
      VideoMapsIff(i + 1, DirIndex(vEntry));
      proc[i] := 1;
      SoundRowIff(i, DirIndex(vEntry));
      forall j | 1 <= j < SLOTS && j != i + 1 ensures SoundRow(j) {
        assert old(SoundRow(j));
      }
      if old(Valid()) {
        assert old(GoodRow(i + 1));
        OtherRowsKept(i);
        WindowIndex(vEntry);
      }
      return i;
    }

    lemma SoundRowIff(i: int, e: int)
      requires Shape() && 0 <= i < SLOTS - 1 && proc[i] == 1 && FilledRow(i, e)
      ensures SoundRow(i + 1) <==> !KernelEntry(e)
    {
      hide ProgramEntry, TableEntry, OrInto;
      ProgramEntryDiffers(i);
      TableEntryDiffers(pteAddr, i);
    }

    /** One new row, all others kept. */
    twostate lemma OtherRowsKept(i: int)
      requires old(Valid()) && Shape() && 0 <= i < SLOTS - 1 && proc[i] == 1
      requires forall k :: 0 <= k < SLOTS && k != i ==> proc[k] == old(proc[k])
      requires forall j, k :: 0 <= j < SLOTS && j != i + 1 && 0 <= k < ENTRIES ==> pde[j, k] == old(pde[j, k])
      ensures Valid() <==> Sound() && GoodRow(i + 1) && LiveRow(i + 1)
    {
      hide ProgramEntry, TableEntry, IdentityEntry;
      forall j | 1 <= j < SLOTS && j != i + 1 ensures GoodRow(j) && (proc[j - 1] == 1 ==> LiveRow(j)) {
        assert old(GoodRow(j)) && (old(proc[j - 1]) == 1 ==> old(LiveRow(j)));
      }
    }

    /** A row whose entry e took the frame is not as described unless e is the program's. */
    lemma StrayRow(i: int, e: int, was: bv32)
      requires Shape() && 0 <= i < SLOTS - 1 && FilledRow(i, e) && 0 <= e < ENTRIES && e != PROGRAM
      requires e > 1 ==> pde[i + 1, e] == OrInto(was, ProgramEntry(i))
      requires was == CTRL_EMPTY_USR || (e == VIDMAP && was == TableEntry(pteAddr, CTRL_VIDEO_USR)) || e <= 1
      ensures !(GoodRow(i + 1) && LiveRow(i + 1))
    {
      hide ProgramEntry, TableEntry, OrInto;
      ProgramEntryMaps(i);
      ProgramEntryDiffers(i);
      TableEntryDiffers(pteAddr, i);
    }

    /** The entries the kernel needs, in a row whose entry e took the frame. */
    ghost predicate FilledRow(i: int, e: int)
      requires Shape() && 0 <= i < SLOTS - 1
      reads pde
    {
      && pde[i + 1, 0] == (if e == 0 then OrInto(TableEntry(pteAddr, CTRL_VIDEO), ProgramEntry(i))
                           else TableEntry(pteAddr, CTRL_VIDEO))
      && pde[i + 1, 1] == (if e == 1 then OrInto(KERNEL_ENTRY, ProgramEntry(i)) else KERNEL_ENTRY)
      && pde[i + 1, 3] == (if e == 3 then ProgramEntry(i) else CTRL_EMPTY_USR)
      && pde[i + 1, 31] == (if e == 31 then ProgramEntry(i) else CTRL_EMPTY_USR)
    }

    /** The three writes to the directory of a slot that is about to become live. */
    method WriteRow(i: int, vEntry: bv32)
      requires Shape() && 0 <= i < SLOTS - 1
      modifies pde
      ensures forall j, k :: j == i + 1 && 0 <= k < ENTRIES ==> pde[j, k] == NewEntry(old(pde[j, k]), i, k, vEntry)
      ensures forall j, k :: 0 <= j < SLOTS && j != i + 1 && 0 <= k < ENTRIES ==> pde[j, k] == old(pde[j, k])
    {
      hide ProgramEntry, TableEntry, OrInto, DirIndex;
      pde[i + 1, 0] := TableEntry(pteAddr, CTRL_VIDEO);
      pde[i + 1, 1] := KERNEL_ENTRY;
      pde[i + 1, DirIndex(vEntry)] := OrInto(pde[i + 1, DirIndex(vEntry)], ProgramEntry(i));
    }

    /** What they make of the row: as described exactly when the entry that takes the frame is the
        program's. */
    method FillRow(i: int, vEntry: bv32)
      requires Shape() && 0 <= i < SLOTS - 1 && pde[i + 1, 3] == pde[i + 1, 31] == CTRL_EMPTY_USR
      modifies pde
      ensures old(GoodRow(i + 1)) ==> (GoodRow(i + 1) && LiveRow(i + 1) <==> DirIndex(vEntry) == PROGRAM)
      ensures forall j, k :: j == i + 1 && 0 <= k < ENTRIES ==> pde[j, k] == NewEntry(old(pde[j, k]), i, k, vEntry)
      ensures FilledRow(i, DirIndex(vEntry))
      ensures forall j, k :: 0 <= j < SLOTS && j != i + 1 && 0 <= k < ENTRIES ==> pde[j, k] == old(pde[j, k])
    {
      hide ProgramEntry, TableEntry, OrInto, DirIndex;
      ProgramEntryMaps(i);
      ghost var e := DirIndex(vEntry);
      ghost var was := pde[i + 1, e];
      WriteRow(i, vEntry);
      assert FilledRow(i, e);
      if old(GoodRow(i + 1)) && e != PROGRAM {
        assert e > 1 ==> pde[i + 1, e] == OrInto(was, ProgramEntry(i));
        StrayRow(i, e, was);
      }
    }

    lemma KernelMapsIff(j: int, e: int)
      requires Shape() && 1 <= j < SLOTS && FilledRow(j - 1, e)
      ensures KernelMaps(j) <==> e != 1
    {
      hide DirIndex, Present, Large, FrameOf, InFrame, Offset, ProgramEntry, OrInto, TableEntry;
      KernelEntryMaps();
      forall va | 0x0040_0000 <= va < 0x0080_0000 ensures Translate(SpaceOf(j), va) == Mapped(va) <==> e != 1 {
        WindowIndex(va);
        KernelEntryMoved(j - 1, va);
      }
      assert Translate(SpaceOf(j), 0x0040_0000) == Mapped(0x0040_0000) <==> e != 1;
    }

    lemma VideoMapsIff(j: int, e: int)
      requires Shape() && 1 <= j < SLOTS && FilledRow(j - 1, e)
      ensures pte[0xB8] == PageEntry(0xB8) ==> (VideoMaps(j) <==> e != 0)
    {
      hide DirIndex, TableIndex, Present, Large, FrameOf, InFrame, PageOf, InPage, ProgramEntry, OrInto, TableEntry,
        PageEntry, Aligned;
      TableEntryPage(pteAddr, CTRL_VIDEO);
      TableEntryBits(pteAddr);
      TableEntryMoved(pteAddr, j - 1);
      VideoIndex();
      VideoPagePresent();
      VideoPage();
    }

    /** Where a directory sends the two windows in which the masks land. */
    lemma WindowEntries(j: int, e: int, va: bv32)
      requires Shape() && 1 <= j < SLOTS && (DirIndex(va) == 3 || DirIndex(va) == 31)
      requires pde[j, DirIndex(va)] == if DirIndex(va) == e then ProgramEntry(j - 1) else CTRL_EMPTY_USR
      ensures Translate(SpaceOf(j), va)
              == Mapped(if DirIndex(va) == e then InFrame(Frame(j - 1), va) else Offset(va))
    {
      hide DirIndex, Present, Large, FrameOf, InFrame, Offset, Frame, ProgramEntry;
      EmptyEntryMaps();
      LowFrame(va);
      ProgramEntryMaps(j - 1);
    }

    lemma MasksMeetIff(j: int, e: int)
      requires Shape() && 1 <= j < SLOTS && FilledRow(j - 1, e)
      ensures MasksMeet(j) <==> e !in {3, 31}
    {
      hide Translate, DirIndex, InFrame, Offset, Frame, ProgramEntry, CurrentMask, ParentMask, PhysicalBlock,
        InBlock, Block, OrInto, TableEntry;
      forall i, esp | InBlock(i, esp)
        ensures Translate(SpaceOf(j), CurrentMask(esp)) == Translate(SpaceOf(j), ParentMask(esp))
                <==> e != 3 && e != 31
      {
        MasksFindBlock(i, esp);
        WindowEntries(j, e, CurrentMask(esp));
        WindowEntries(j, e, ParentMask(esp));
        FrameAboveLow(j - 1, CurrentMask(esp), ParentMask(esp));
        FrameAboveLow(j - 1, ParentMask(esp), CurrentMask(esp));
      }
      assert InBlock(0, Block(0)) by { FirstBlock(); }
    }

    static lemma FirstBlock()
      ensures InBlock(0, Block(0))
    {
    }

    /** remove_page */
    method RemovePage(slot: int)
      requires Sound() && 0 <= slot < SLOTS - 1
      modifies proc
      ensures Sound() && proc[slot] == 0 && (old(Valid()) ==> Valid())
      ensures forall i :: 0 <= i < SLOTS && i != slot ==> proc[i] == old(proc[i])
    {
      hide TableEntry, ProgramEntry, IdentityEntry;
      proc[slot] := 0;
      forall j | 1 <= j < SLOTS ensures SoundRow(j) {
        assert old(SoundRow(j));
      }
    }

    /** sys_vidmap for the process in `slot`: 0 and 0x400000 are refused as places to store the answer,
        which is always 0x03001000. */
    method Vidmap(slot: int, addr: bv32) returns (r: int, va: bv32)
      requires Valid() && 0 <= slot < SLOTS - 1
      modifies pde, pte
      ensures Valid()
      ensures r == if addr == 0 || addr == 0x0040_0000 then -1 else 0
      ensures r == 0 ==> va == 0x0300_1000
      ensures r == 0 ==> pte[1] == VIDEO_ADDR | CTRL_PTE_USR
      ensures r == 0 ==> pde[slot + 1, VIDMAP] == TableEntry(pteAddr, CTRL_VIDEO_USR)
      ensures r == -1 ==> pte[1] == old(pte[1]) && pde[slot + 1, VIDMAP] == old(pde[slot + 1, VIDMAP])
      ensures forall i :: 0 <= i < ENTRIES && i != 1 ==> pte[i] == old(pte[i])
      ensures forall j, k :: 0 <= j < SLOTS && 0 <= k < ENTRIES && !(j == slot + 1 && k == VIDMAP) ==>
                pde[j, k] == old(pde[j, k])
    {
      hide ProgramEntry, TableEntry, IdentityEntry;
      if addr == 0x0040_0000 || addr == 0 { return -1, 0; }
      pte[1] := VIDEO_ADDR | CTRL_PTE_USR;
      pde[slot + 1, VIDMAP] := TableEntry(pteAddr, CTRL_VIDEO_USR);
      va := (12 << 22) | (1 << 12);
      forall j | 1 <= j < SLOTS ensures SoundRow(j) && GoodRow(j) && (proc[j - 1] == 1 ==> LiveRow(j)) {
        assert old(SoundRow(j)) && old(GoodRow(j)) && (proc[j - 1] == 1 ==> old(LiveRow(j)));
      }
      r := 0;
    }

    /** change_pte: page i of the low 4 MB shows page `value`. */
    method ChangePte(i: int, value: int)
      requires Valid() && 0 <= i < ENTRIES && 0 <= value < ENTRIES
      modifies pte
      ensures Valid() && pte[i] == PageEntry(value)
      ensures forall k :: 0 <= k < ENTRIES && k != i ==> pte[k] == old(pte[k])
    {
      hide PageEntry, ProgramEntry, TableEntry, IdentityEntry;
      pte[i] := PageEntry(value);
    }

    // -------------------------------------------------------------- what every reachable state gives

    /** In every process directory, live or not, the stack window and the low window where the other
        mask lands both translate to the first 4 MB. */
    lemma LowWindows(j: int, va: bv32)
      requires Sound() && 1 <= j < SLOTS
      requires DirIndex(va) == 31 || DirIndex(va) == 3
      ensures Translate(SpaceOf(j), va) == Mapped(Offset(va))
    {
      hide DirIndex, Present, Large, FrameOf, InFrame, Offset;
      assert SoundRow(j);
      EmptyEntryMaps();
      LowFrame(va);
    }

    /** For any stack pointer in any block the two masks name the same physical PCB, in every process
        directory. */
    lemma MasksAgree(j: int, i: int, esp: bv32)
      requires Sound() && 1 <= j < SLOTS && InBlock(i, esp)
      ensures Translate(SpaceOf(j), CurrentMask(esp)) == Mapped(PhysicalBlock(i))
      ensures Translate(SpaceOf(j), ParentMask(esp)) == Mapped(PhysicalBlock(i))
    {
      hide Translate, DirIndex, Offset, CurrentMask, ParentMask, PhysicalBlock, InBlock;
      MasksFindBlock(i, esp);
      LowWindows(j, CurrentMask(esp));
      LowWindows(j, ParentMask(esp));
    }

    /** In the boot directory they do not: each address is its own translation. */
    lemma MasksDifferAtBoot(i: int, esp: bv32)
      requires Valid() && InBlock(i, esp)
      ensures Translate(SpaceOf(0), CurrentMask(esp)) == Mapped(CurrentMask(esp))
      ensures Translate(SpaceOf(0), ParentMask(esp)) == Mapped(ParentMask(esp))
      ensures CurrentMask(esp) != ParentMask(esp)
    {
      hide Translate, Offset, CurrentMask, ParentMask, InBlock, Block, DirIndex, PhysicalBlock;
      MasksFindBlock(i, esp);
      BootIdentity(CurrentMask(esp));
      BootIdentity(ParentMask(esp));
    }

    /** A live program sees its own 4 MB frame in the 128-132 MB window, and the kernel at 4 MB. */
    lemma LiveWindows(slot: int, va: bv32)
      requires Valid() && 0 <= slot < SLOTS - 1 && proc[slot] == 1
      ensures InWindow(va) ==>
                Translate(SpaceOf(slot + 1), va) == Mapped(InFrame(Frame(slot), va))
      ensures 0x0040_0000 <= va < 0x0080_0000 ==> Translate(SpaceOf(slot + 1), va) == Mapped(va)
    {
      hide DirIndex, Present, Large, FrameOf, InFrame, Offset, Frame, ProgramEntry, InWindow;
      assert LiveRow(slot + 1);
      ProgramEntryMaps(slot);
      KernelEntryMaps();
      WindowIndex(va);
    }

    /** No address of one live program's window reaches another's frame, the kernel, or a stack block. */
    lemma ProgramsIsolated(slot: int, other: int, va: bv32, wa: bv32)
      requires Valid() && 0 <= slot < other < SLOTS - 1 && proc[slot] == 1 && proc[other] == 1
      requires InWindow(va) && InWindow(wa)
      ensures Translate(SpaceOf(slot + 1), va).Mapped? && Translate(SpaceOf(other + 1), wa).Mapped?
      ensures Translate(SpaceOf(slot + 1), va) != Translate(SpaceOf(other + 1), wa)
      ensures Translate(SpaceOf(slot + 1), va).physical >= 0x0080_0000
      ensures Translate(SpaceOf(other + 1), wa).physical >= 0x0080_0000
    {
      hide Translate, DirIndex, Frame, InFrame, InWindow;
      LiveWindows(slot, va);
      LiveWindows(other, wa);
      FramesApart(slot, other, va, wa);
    }

    /** Once video memory is mapped for a program, its address reaches the screen from user mode; and in
        supervisor mode, though not in user mode, so does virtual address 0x1000 of every live process,
        because both use entry 1 of the one page table. */
    lemma VidmapReachesScreen(slot: int, other: int)
      requires Valid() && 0 <= slot < SLOTS - 1 && 0 <= other < SLOTS - 1 && proc[other] == 1
      requires pte[1] == VIDEO_ADDR | CTRL_PTE_USR && pde[slot + 1, VIDMAP] == TableEntry(pteAddr, CTRL_VIDEO_USR)
      ensures Translate(SpaceOf(slot + 1), 0x0300_1000) == Mapped(VIDEO_ADDR)
      ensures UserReaches(SpaceOf(slot + 1), 0x0300_1000)
      ensures Translate(SpaceOf(other + 1), 0x0000_1000) == Mapped(VIDEO_ADDR)
      ensures !UserReaches(SpaceOf(other + 1), 0x0000_1000)
    {
      hide DirIndex, TableIndex, Present, Large, User, PageOf, InPage, TableEntry, Aligned, ProgramEntry;
      TableEntryUser(pteAddr);
      TableEntrySupervisor(pteAddr);
      VideoEntryUser();
      assert LiveRow(other + 1);
      TableEntryPage(pteAddr, CTRL_VIDEO);
      TableEntryPage(pteAddr, CTRL_VIDEO_USR);
      TableEntryBits(pteAddr);
      VidmapAddress();
    }

    /** In the boot directory every address from 4 MB on is its own translation. */
    lemma BootIdentity(va: bv32)
      requires Valid() && va >= 0x0040_0000
      ensures Translate(SpaceOf(0), va) == Mapped(va)
    {
      hide DirIndex, Present, Large, FrameOf, InFrame, Offset, IdentityEntry;
      KernelEntryMaps();
      WindowIndex(va);
      NotLow(va);
      if DirIndex(va) >= 2 { IdentityMaps(va); }
    }

    /** Where the page table sends the low 4 MB of the boot directory: page `page` shows `value`, once that
        is what its entry says. */
    lemma PageShows(va: bv32, value: int)
      requires Valid() && va < 0x0040_0000 && 0 <= value < ENTRIES && pte[TableIndex(va)] == PageEntry(value)
      ensures Translate(SpaceOf(0), va) == Mapped((value as bv32 << 12) | (va & 0xFFF))
    {
      hide DirIndex, TableIndex, Present, Large, PageOf, InPage, TableEntry, Aligned, PageEntry;
      TableEntryPage(pteAddr, CTRL_VIDEO);
      TableEntryBits(pteAddr);
      LowIndex(va);
      PageEntryMaps(value, va);
    }

    /** A live program may use its own window, and not the kernel's 4 MB. */
    lemma KernelIsSupervisors(slot: int, va: bv32)
      requires Valid() && 0 <= slot < SLOTS - 1 && proc[slot] == 1
      ensures InWindow(va) ==> UserReaches(SpaceOf(slot + 1), va)
      ensures 0x0040_0000 <= va < 0x0080_0000 ==> !UserReaches(SpaceOf(slot + 1), va)
    {
      hide DirIndex, TableIndex, Present, Large, User, FrameOf, InFrame, Offset, Frame, ProgramEntry, InWindow;
      assert LiveRow(slot + 1);
      ProgramEntryMaps(slot);
      ProgramEntryUser(slot);
      KernelEntryMaps();
      WindowIndex(va);
    }

    /** Right after init_paging, in the boot directory: the null page faults and the video page maps to
        itself. */
    lemma BootLowMemory()
      requires Valid() && pte[0] == PageEntry(0) & 0x0FFF_FFFE && pte[0xB8] == PageEntry(0xB8)
      ensures Translate(SpaceOf(0), 0) == Fault
      ensures Translate(SpaceOf(0), VIDEO_ADDR) == Mapped(VIDEO_ADDR)
    {
      hide DirIndex, TableIndex, Present, Large, PageOf, InPage, TableEntry, Aligned, PageEntry;
      TableEntryPage(pteAddr, CTRL_VIDEO);
      TableEntryBits(pteAddr);
      VideoIndex();
      VideoPagePresent();
      VideoPage();
      NullPage();
    }
  }

  datatype PageOp =
    | Take(vEntry: bv32)
    | Release(slot: int)
    | MapVideo(slot: int, addr: bv32)
    | Remap(page: int, value: int)
  {
    ghost predicate Allowed() {
      match this
      case Take(_) => true
      case Release(slot) => 0 <= slot < SLOTS - 1
      case MapVideo(slot, _) => 0 <= slot < SLOTS - 1
      case Remap(page, value) => 0 <= page < ENTRIES && 0 <= value < ENTRIES
    }
  }

  /** The lowest free slot from `from` on, or 7. */
  function LowestSlot(slots: seq<int>, from: nat): (i: nat)
    requires |slots| == SLOTS && from <= SLOTS - 1
    ensures from <= i <= SLOTS - 1
    ensures i < SLOTS - 1 ==> slots[i] == 0
    ensures forall k :: from <= k < i ==> slots[k] != 0
    decreases SLOTS - from
  {
    if from == SLOTS - 1 || slots[from] == 0 then from else LowestSlot(slots, from + 1)
  }

  /** Which slots are taken after an operation. */
  function SlotsAfter(slots: seq<int>, op: PageOp): (r: seq<int>)
    requires |slots| == SLOTS
    ensures |r| == SLOTS
  {
    match op
    case Take(_) => if LowestSlot(slots, 0) == SLOTS - 1 then slots else slots[LowestSlot(slots, 0) := 1]
    case Release(slot) => if 0 <= slot < SLOTS - 1 then slots[slot := 0] else slots
    case _ => slots
  }

  function SlotsAfterAll(slots: seq<int>, ops: seq<PageOp>): (r: seq<int>)
    requires |slots| == SLOTS
    ensures |r| == SLOTS
  {
    if ops == [] then slots else SlotsAfter(SlotsAfterAll(slots, ops[..|ops| - 1]), ops[|ops| - 1])
  }

  /** The operation takes a slot for a program that is not linked in the window. */
  predicate Misplaced(slots: seq<int>, op: PageOp)
    requires |slots| == SLOTS
  {
    op.Take? && LowestSlot(slots, 0) < SLOTS - 1 && !InWindow(op.vEntry)
  }

  /** One operation moves the slots as specified, and keeps every directory as described unless it is
      misplaced. */
  method Perform(t: Tables, op: PageOp)
    requires t.Valid() && op.Allowed()
    modifies t.pde, t.pte, t.proc
    ensures t.proc[..] == SlotsAfter(old(t.proc[..]), op)
    ensures t.Valid() <==> !Misplaced(old(t.proc[..]), op)
  {
    hide InWindow, TableEntry, ProgramEntry, IdentityEntry, PageEntry;
    ghost var slots := t.proc[..];
    match op {
      case Take(v) => {
        var slot := t.NewPde(v);
        assert slot == -1 ==> LowestSlot(slots, 0) == SLOTS - 1;
        assert slot != -1 ==> slot == LowestSlot(slots, 0);
      }
      case Release(slot) => t.RemovePage(slot);
      case MapVideo(slot, addr) => var _, _ := t.Vidmap(slot, addr);
      case Remap(page, value) => t.ChangePte(page, value);
    }
    assert t.proc[..] == SlotsAfter(slots, op);
  }

  ghost predicate MisplacedAt(slots: seq<int>, ops: seq<PageOp>, i: nat)
    requires |slots| == SLOTS && i < |ops|
  {
    Misplaced(SlotsAfterAll(slots, ops[..i]), ops[i])
  }

  /** Any run of the paging operations from initialisation hands out slots lowest first and never takes slot
      7. It keeps every directory as described if and only if no program outside the window takes a slot;
      at the first that does, the run stops with directories that are not. */
  method Run(t: Tables, ops: seq<PageOp>) returns (n: nat)
    requires t.Shape() && forall i :: 0 <= i < SLOTS ==> t.proc[i] == 0
    requires forall i :: 0 <= i < |ops| ==> ops[i].Allowed()
    modifies t.pde, t.pte, t.proc
    ensures n <= |ops| && t.proc[..] == SlotsAfterAll(old(t.proc[..]), ops[..n]) && t.proc[SLOTS - 1] == 0
    ensures t.Valid() <==> forall i :: 0 <= i < |ops| ==> !MisplacedAt(old(t.proc[..]), ops, i)
    ensures t.Valid() ==> n == |ops|
    ensures !t.Valid() ==> n > 0 && MisplacedAt(old(t.proc[..]), ops, n - 1)
  {
    ghost var start := t.proc[..];
    t.Init();
    hide Tables.Valid, SlotsAfter, Misplaced;
    n := 0;
    var placed := true;
    while n < |ops| && placed
      invariant 0 <= n <= |ops| && t.proc[..] == SlotsAfterAll(start, ops[..n])
      invariant placed <==> t.Valid()
      invariant forall i :: 0 <= i < n - 1 ==> !MisplacedAt(start, ops, i)
      invariant n > 0 ==> (placed <==> !MisplacedAt(start, ops, n - 1))
      invariant n == 0 ==> placed
    {
      assert ops[..n + 1][..n] == ops[..n];
      placed := !Misplaced(t.proc[..], ops[n]);
      Perform(t, ops[n]);
      n := n + 1;
    }
    assert ops[..|ops|] == ops;
    SlotSevenFree(start, ops[..n]);
  }

  lemma {:induction false} SlotSevenFree(slots: seq<int>, ops: seq<PageOp>)
    requires |slots| == SLOTS && slots[SLOTS - 1] == 0
    ensures SlotsAfterAll(slots, ops)[SLOTS - 1] == 0
    decreases |ops|
  {
    if ops != [] {
      SlotSevenFree(slots, ops[..|ops| - 1]);
    }
  }
}
