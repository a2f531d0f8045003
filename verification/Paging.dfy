/** Page directories: the boot directory, one directory per process slot, and address translation. */
module Paging {

  const SLOTS := 8            // MAX_NUM_PROC rows of PDE; slot 7 is never taken
  const ENTRIES := 1024
  const PROGRAM := 32         // directory index of the 128-132 MB window
  const VIDMAP := 12          // directory index sys_vidmap uses

  const CTRL_PTE: bv32 := 0x01
  const CTRL_PTE_USR: bv32 := 0x07
  const CTRL_VIDEO: bv32 := 0x01
  const CTRL_VIDEO_USR: bv32 := 0x07
  const CTRL_KERNEL: bv32 := 0x183
  const CTRL_EMPTY: bv32 := 0x83
  const CTRL_EMPTY_USR: bv32 := 0x87
  const VIDEO_ADDR: bv32 := 0xB8000

  // ---------------------------------------------------------------- translation

  datatype Address = Mapped(physical: bv32) | Fault

  /** What the processor sees: the directory CR3 points at, and the one page table. */
  datatype Space = Space(dir: seq<bv32>, table: seq<bv32>, tableAddr: bv32)

  function DirIndex(va: bv32): (i: int)
    ensures 0 <= i < ENTRIES
  {
    assert va >> 22 < 1024;
    (va >> 22) as int
  }

  function TableIndex(va: bv32): (i: int)
    ensures 0 <= i < ENTRIES
  {
    assert (va >> 12) & 0x3ff < 1024;
    ((va >> 12) & 0x3ff) as int
  }

  /** The top ten bits of the address are 0, 1, 3 or 31. */
  ghost predicate TopTen(va: bv32) { va >> 22 == 0 || va >> 22 == 1 || va >> 22 == 3 || va >> 22 == 31 }

  /** The directory index is the top ten bits. */
  lemma TopBits(va: bv32)
    ensures KernelEntry(DirIndex(va)) <==> TopTen(va)
  {
    var top := va >> 22;
    assert top as int == 0 <==> top == 0;
    assert top as int == 1 <==> top == 1;
    assert top as int == 3 <==> top == 3;
    assert top as int == 31 <==> top == 31;
  }

  predicate Present(entry: bv32) { entry & 1 == 1 }

  predicate Large(entry: bv32) { entry & 0x80 == 0x80 }

  /** The U/S bit: user-mode code may use the mapping. Translate itself is the supervisor's view. */
  predicate User(entry: bv32) { entry & 4 == 4 }

  function FrameOf(entry: bv32): bv32 { entry & 0xFFC0_0000 }

  function PageOf(entry: bv32): bv32 { entry & 0xFFFF_F000 }

  /** The last 22 bits of an address: its place in a 4 MB page. */
  function Offset(va: bv32): bv32 { va & 0x003F_FFFF }

  function InFrame(frame: bv32, va: bv32): bv32 { frame | Offset(va) }

  function InPage(page: bv32, va: bv32): bv32 { page | (va & 0xFFF) }

  /** 32-bit paging with 4 MB pages, section 4.3 of the Intel SDM Volume 3A. */
  function Translate(s: Space, va: bv32): Address
    requires |s.dir| == ENTRIES && |s.table| == ENTRIES
  {
    var entry := s.dir[DirIndex(va)];
    if !Present(entry) then Fault
    else if Large(entry) then Mapped(InFrame(FrameOf(entry), va))
    else if PageOf(entry) != s.tableAddr then Fault
    else
      var page := s.table[TableIndex(va)];
      if !Present(page) then Fault else Mapped(InPage(PageOf(page), va))
  }

  /** The address translates, and the U/S bit is set at every level: section 4.6 of the same manual. */
  predicate UserReaches(s: Space, va: bv32)
    requires |s.dir| == ENTRIES && |s.table| == ENTRIES
  {
    var entry := s.dir[DirIndex(va)];
    && Translate(s, va).Mapped? && User(entry)
    && (Large(entry) || User(s.table[TableIndex(va)]))
  }

  // ---------------------------------------------------------------- frames and blocks

  /** The 4 MB physical frame of program slot i: 8 MB, 12 MB, ... */
  function Frame(i: int): bv32
    requires 0 <= i < SLOTS - 1
  {
    (0x40_0000 * (i as bv32) + 0x80_0000) & 0xFFC0_0000
  }

  /** The 8 KB kernel stack and PCB of slot i, just below 128 MB. */
  function Block(i: int): bv32
    requires 0 <= i < SLOTS - 1
  {
    0x0800_0000 - ((i as bv32 + 1) << 13)
  }

  /** The directory entries that the kernel itself needs: the one with the video page, its own 4 MB, and the
      two windows in which the masks of a stack pointer land. */
  predicate KernelEntry(e: int) { e == 0 || e == 1 || e == 3 || e == 31 }

  /** The 128-132 MB window in which programs are linked. */
  predicate InWindow(va: bv32) { 0x0800_0000 <= va < 0x0840_0000 }

  function StackAddress(i: int, offset: bv32): bv32
    requires 0 <= i < SLOTS - 1
  {
    Block(i) + offset
  }

  ghost predicate InBlock(i: int, esp: bv32) {
    0 <= i < SLOTS - 1 && Block(i) <= esp && esp - Block(i) < 0x2000
  }

  /** Where that block lies in physical memory: the top of the first 4 MB. */
  function PhysicalBlock(i: int): bv32
    requires 0 <= i < SLOTS - 1
  {
    Offset(Block(i))
  }

  /** get_curr_pcb's mask, and the one execute uses for the parent. */
  function CurrentMask(esp: bv32): bv32 { esp & 0x0fff_e000 }

  function ParentMask(esp: bv32): bv32 { esp & 0x00ff_e000 }

  lemma MasksFindBlock(i: int, esp: bv32)
    requires InBlock(i, esp)
    ensures CurrentMask(esp) == Block(i)
    ensures ParentMask(esp) == Block(i) - 0x0700_0000
    ensures DirIndex(CurrentMask(esp)) == 31 && DirIndex(ParentMask(esp)) == 3
    ensures Offset(CurrentMask(esp)) == Offset(ParentMask(esp)) == PhysicalBlock(i)
    ensures 0x07C0_0000 <= CurrentMask(esp) < 0x0800_0000 && 0x00C0_0000 <= ParentMask(esp) < 0x0100_0000
  {
    assert CurrentMask(esp) >> 22 == 31 && ParentMask(esp) >> 22 == 3;
  }

  /** Program frames are pairwise disjoint, and disjoint from the low 4 MB and the kernel's 4 MB. */
  lemma FramesApart(i: int, j: int, va: bv32, wa: bv32)
    requires 0 <= i < j < SLOTS - 1
    ensures InFrame(Frame(i), va) != InFrame(Frame(j), wa)
    ensures InFrame(Frame(i), va) >= 0x0080_0000 && InFrame(Frame(j), wa) >= 0x0080_0000
  {
  }

  /** A program frame never meets the first 4 MB. */
  lemma FrameAboveLow(i: int, va: bv32, wa: bv32)
    requires 0 <= i < SLOTS - 1
    ensures InFrame(Frame(i), va) != Offset(wa)
  {
  }

  /** The seven blocks are disjoint, and lie above the video page and below the kernel. */
  lemma BlocksApart(i: int, j: int, a: bv32, b: bv32)
    requires 0 <= i < j < SLOTS - 1 && a < 0x2000 && b < 0x2000
    ensures PhysicalBlock(i) + a != PhysicalBlock(j) + b
    ensures 0x000C_0000 <= PhysicalBlock(i) + a < 0x0040_0000
    ensures 0x000C_0000 <= PhysicalBlock(j) + b < 0x0040_0000
  {
  }

  // ---------------------------------------------------------------- directory entries

  ghost predicate Aligned(addr: bv32) { addr & 0xFFF == 0 }

  /** The entry for the page table: its address cut to 20 bits, then the control bits. */
  function TableEntry(addr: bv32, ctrl: bv32): bv32 { (addr & 0xFFFF_F000) | ctrl }

  const KERNEL_ENTRY: bv32 := (1 << 22) | CTRL_KERNEL

  function IdentityEntry(i: int): bv32
    requires 0 <= i < ENTRIES
  {
    (i as bv32 << 22) | CTRL_EMPTY
  }

  /** The page table entry that maps page i to itself. */
  function PageEntry(i: int): bv32
    requires 0 <= i < ENTRIES
  {
    (i as bv32 << 12) | CTRL_PTE
  }

  function ProgramEntry(i: int): bv32
    requires 0 <= i < SLOTS - 1
  {
    Frame(i) | 0x87
  }

  function OrInto(entry: bv32, bits: bv32): bv32 { entry | bits }

  lemma TableEntryPage(addr: bv32, ctrl: bv32)
    requires Aligned(addr) && ctrl < 0x1000
    ensures PageOf(TableEntry(addr, ctrl)) == addr
  {
  }

  lemma TableEntryBits(addr: bv32)
    ensures Present(TableEntry(addr, CTRL_VIDEO)) && !Large(TableEntry(addr, CTRL_VIDEO))
    ensures Present(TableEntry(addr, CTRL_VIDEO_USR)) && !Large(TableEntry(addr, CTRL_VIDEO_USR))
  {
  }

  lemma TableEntryUser(addr: bv32)
    ensures User(TableEntry(addr, CTRL_VIDEO_USR))
  {
  }

  lemma TableEntrySupervisor(addr: bv32)
    ensures !User(TableEntry(addr, CTRL_VIDEO))
  {
  }

  lemma VideoEntryUser()
    ensures User(VIDEO_ADDR | CTRL_PTE_USR)
  {
  }

  lemma KernelEntryMaps()
    ensures Present(KERNEL_ENTRY) && Large(KERNEL_ENTRY) && FrameOf(KERNEL_ENTRY) == 0x0040_0000
  {
  }

  lemma EmptyEntryMaps()
    ensures Present(CTRL_EMPTY_USR) && Large(CTRL_EMPTY_USR) && FrameOf(CTRL_EMPTY_USR) == 0
  {
  }

  /** The OR-assignment of new_pde gives the same entry on a fresh row and on a reused one. */
  lemma ProgramEntryMaps(i: int)
    requires 0 <= i < SLOTS - 1
    ensures OrInto(CTRL_EMPTY_USR, ProgramEntry(i)) == ProgramEntry(i)
    ensures OrInto(ProgramEntry(i), ProgramEntry(i)) == ProgramEntry(i)
    ensures Present(ProgramEntry(i)) && Large(ProgramEntry(i)) && FrameOf(ProgramEntry(i)) == Frame(i)
  {
  }

  /** Neither the kernel's entry nor an empty one is that of a program. */
  lemma ProgramEntryDiffers(i: int)
    requires 0 <= i < SLOTS - 1
    ensures OrInto(KERNEL_ENTRY, ProgramEntry(i)) != KERNEL_ENTRY && ProgramEntry(i) != CTRL_EMPTY_USR
  {
  }

  /** The page table's entry with a frame in it is neither itself nor an empty one. */
  lemma TableEntryDiffers(addr: bv32, i: int)
    requires 0 <= i < SLOTS - 1
    ensures OrInto(TableEntry(addr, CTRL_VIDEO), ProgramEntry(i)) != TableEntry(addr, CTRL_VIDEO)
    ensures OrInto(TableEntry(addr, CTRL_VIDEO_USR), ProgramEntry(i)) != TableEntry(addr, CTRL_VIDEO_USR)
    ensures OrInto(TableEntry(addr, CTRL_VIDEO_USR), ProgramEntry(i)) != CTRL_EMPTY_USR
    ensures ProgramEntry(i) != TableEntry(addr, CTRL_VIDEO_USR)
  {
  }

  /** The kernel's entry with a frame in it maps elsewhere. */
  lemma KernelEntryMoved(i: int, va: bv32)
    requires 0 <= i < SLOTS - 1 && 0x0040_0000 <= va < 0x0080_0000
    ensures var entry := OrInto(KERNEL_ENTRY, ProgramEntry(i));
            Present(entry) && Large(entry) && InFrame(FrameOf(entry), va) != va
  {
  }

  /** The page table's entry with a frame in it maps 4 MB elsewhere. */
  lemma TableEntryMoved(addr: bv32, i: int)
    requires 0 <= i < SLOTS - 1
    ensures var entry := OrInto(TableEntry(addr, CTRL_VIDEO), ProgramEntry(i));
            Present(entry) && Large(entry) && InFrame(FrameOf(entry), VIDEO_ADDR) != VIDEO_ADDR
  {
  }

  lemma VideoIndex()
    ensures DirIndex(VIDEO_ADDR) == 0 && TableIndex(VIDEO_ADDR) == 0xB8
  {
    assert VIDEO_ADDR >> 22 == 0 && (VIDEO_ADDR >> 12) & 0x3ff == 0xB8;
  }

  lemma VideoPagePresent()
    ensures Present(PageEntry(0xB8))
  {
  }

  lemma VideoPage()
    ensures InPage(PageOf(PageEntry(0xB8)), VIDEO_ADDR) == VIDEO_ADDR
  {
  }

  lemma NullPage()
    ensures DirIndex(0) == 0 && TableIndex(0) == 0
    ensures !Present(PageEntry(0) & 0x0FFF_FFFE)
  {
    var va: bv32 := 0;
    assert va >> 22 == 0 && (va >> 12) & 0x3ff == 0;
  }

  lemma LowFrame(va: bv32)
    ensures InFrame(0, va) == Offset(va)
  {
  }

  lemma WindowIndex(va: bv32)
    ensures InWindow(va) <==> DirIndex(va) == PROGRAM
    ensures 0x0040_0000 <= va < 0x0080_0000 ==> DirIndex(va) == 1 && InFrame(0x0040_0000, va) == va
  {
    assert InWindow(va) <==> va >> 22 == 32;
    assert 0x0040_0000 <= va < 0x0080_0000 ==> va >> 22 == 1;
  }

  lemma WindowIsFree(va: bv32)
    ensures InWindow(va) ==> !KernelEntry(DirIndex(va))
  {
    hide DirIndex, InWindow;
    WindowIndex(va);
  }

  lemma NotLow(va: bv32)
    requires va >= 0x0040_0000
    ensures DirIndex(va) >= 1 && (DirIndex(va) == 1 ==> va < 0x0080_0000)
  {
    assert va >> 22 >= 1 && (va >> 22 == 1 ==> va < 0x0080_0000);
    assert (va >> 22) as int >= 1;
    assert (va >> 22) as int == 1 ==> va >> 22 == 1;
  }

  lemma LowIndex(va: bv32)
    requires va < 0x0040_0000
    ensures DirIndex(va) == 0
  {
    assert va >> 22 == 0;
  }

  lemma IdentityMaps(va: bv32)
    ensures var entry := IdentityEntry(DirIndex(va));
            Present(entry) && Large(entry) && InFrame(FrameOf(entry), va) == va
  {
    var top := va >> 22;
    assert DirIndex(va) as bv32 == top by { BackToBits(top); }
    hide DirIndex;
    IdentityBitsOf(top, va);
  }

  lemma BackToBits(top: bv32)
    requires top < 1024
    ensures (top as int) as bv32 == top
  {
  }

  lemma IdentityBitsOf(top: bv32, va: bv32)
    requires top == va >> 22
    ensures var entry := (top << 22) | CTRL_EMPTY;
            Present(entry) && Large(entry) && InFrame(FrameOf(entry), va) == va
  {
  }

  lemma PageEntryMaps(value: int, va: bv32)
    requires 0 <= value < ENTRIES
    ensures Present(PageEntry(value)) && InPage(PageOf(PageEntry(value)), va) == (value as bv32 << 12) | (va & 0xFFF)
  {
  }

  lemma ProgramEntryUser(i: int)
    requires 0 <= i < SLOTS - 1
    ensures User(ProgramEntry(i)) && !User(KERNEL_ENTRY)
  {
  }

  /** Program i lies at 8 MB and 4 MB more for each before it. */
  lemma FrameAddress(i: int)
    requires 0 <= i < SLOTS - 1
    ensures Frame(i) == 0x0080_0000 + 0x0040_0000 * (i as bv32)
    ensures Block(i) == 0x0800_0000 - 0x2000 * (i as bv32 + 1)
  {
  }

  lemma VidmapAddress()
    ensures DirIndex(0x0300_1000) == VIDMAP && TableIndex(0x0300_1000) == 1
    ensures DirIndex(0x0000_1000) == 0 && TableIndex(0x0000_1000) == 1
    ensures InPage(VIDEO_ADDR, 0x0300_1000) == VIDEO_ADDR == InPage(VIDEO_ADDR, 0x0000_1000)
    ensures Present(VIDEO_ADDR | CTRL_PTE_USR) && PageOf(VIDEO_ADDR | CTRL_PTE_USR) == VIDEO_ADDR
  {
    var va: bv32 := 0x0300_1000;
    assert va >> 22 == 12 && (va >> 12) & 0x3ff == 1;
  }

  /** The boot directory maps the stack window and the low window to themselves. */
}
