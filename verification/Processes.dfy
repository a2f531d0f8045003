/** Execute and halt on one terminal: slots, page directories, PCB pointers and the stack of callers. */
module Processes {
  import opened Bytes
  import opened FileSystem
  import opened Image
  import opened Loader
  import opened Paging
  import opened PageTables

  /** The fields of pcb_t that execute and halt use. `oldPcb` is a virtual address. */
  datatype Pcb = Pcb(oldPcb: bv32, kstack: bv32, oldEbp: bv32, procId: int)

  /** The registers a process had when it called execute. */
  datatype Context = Context(esp: bv32, ebp: bv32)

  /** The physical address of the PCB of slot i. */
  ghost function PcbAt(i: int): Address
    requires 0 <= i < SLOTS - 1
  {
    Mapped(PhysicalBlock(i))
  }

  /** The PCB of process i: the context of its caller and, above the root, a pointer that leads to the
      caller's PCB. */
  ghost predicate GoodPcb(pcbs: map<Address, Pcb>, callers: seq<Context>, i: int) {
    && 0 <= i < |callers| <= SLOTS - 1
    && PcbAt(i) in pcbs
    && pcbs[PcbAt(i)] == Pcb(ParentMask(callers[i].esp), callers[i].esp, callers[i].ebp, i)
    && (i > 0 ==> InBlock(i - 1, callers[i].esp))
  }

  ghost predicate GoodPcbs(pcbs: map<Address, Pcb>, callers: seq<Context>) {
    |callers| <= SLOTS - 1 && forall i :: 0 <= i < |callers| ==> GoodPcb(pcbs, callers, i)
  }

  lemma PcbsPushed(pcbs: map<Address, Pcb>, callers: seq<Context>, c: Context)
    requires GoodPcbs(pcbs, callers) && |callers| < SLOTS - 1
    requires |callers| > 0 ==> InBlock(|callers| - 1, c.esp)
    ensures var d := |callers|;
            GoodPcbs(pcbs[PcbAt(d) := Pcb(ParentMask(c.esp), c.esp, c.ebp, d)], callers + [c])
  {
    hide ParentMask, InBlock, PcbAt;
    var d, more := |callers|, callers + [c];
    var after := pcbs[PcbAt(d) := Pcb(ParentMask(c.esp), c.esp, c.ebp, d)];
    forall i | 0 <= i < |more| ensures GoodPcb(after, more, i) {
      assert more[i] == if i < d then callers[i] else c;
      if i < d {
        assert GoodPcb(pcbs, callers, i);
        BlocksDiffer(i, d);
      }
    }
  }

  lemma PcbsPopped(pcbs: map<Address, Pcb>, callers: seq<Context>)
    requires GoodPcbs(pcbs, callers) && |callers| > 0
    ensures GoodPcbs(pcbs, callers[..|callers| - 1])
  {
    hide ParentMask, InBlock, PcbAt;
    var fewer := callers[..|callers| - 1];
    forall i | 0 <= i < |fewer| ensures GoodPcb(pcbs, fewer, i) {
      assert GoodPcb(pcbs, callers, i);
    }
  }

  /** How an operation ends; an execute, up to the entry into the program. */
  datatype Outcome = Failed | Started | Halted | Strayed | Overrun | Shutdown {
    /** Nothing can be said of the kernel afterwards, or it has stopped. */
    predicate Final() { Strayed? || Overrun? || Shutdown? }
  }

  /** An entry point as an address. */
  function Address32(entry: nat): bv32 { if entry < 0x1_0000_0000 then entry as bv32 else 0 }

  /** The entry point selects a directory entry that the kernel itself needs: the one with the video page,
      its own 4 MB or one of the two windows in which the masks land. */
  predicate Strays(v: Verdict) { v.Runs? && KernelEntry(DirIndex(Address32(v.entry))) }

  /** The entry point lies in the 128-132 MB window, where programs are linked. */
  predicate Linked(v: Verdict) { v.Runs? ==> InWindow(Address32(v.entry)) }

  /** What execute does with `depth` processes live and `room` bytes of kernel stack, between the caller's
      PCB and the end of the buffer, for the whole file. */
  function OutcomeOf(found: Found, stack: Stack, room: nat, depth: nat): (r: Outcome)
    requires stack.Valid()
    ensures r.Failed? || r.Started? || r.Strayed? || r.Overrun?
  {
    if found.Missing? then Failed
    else if depth > 0 && |found.file| > room then Overrun
    else
      var v := VerdictOn(found.file, stack);
      if v.Refused? || depth >= SLOTS - 1 then Failed else if Strays(v) then Strayed else Started
  }

  /** The four ends of an execute, told without that function. */
  lemma OutcomeMeans(found: Found, stack: Stack, room: nat, depth: nat)
    requires stack.Valid()
    ensures var r := OutcomeOf(found, stack, room, depth);
            var overruns := found.Contents? && depth > 0 && |found.file| > room;
            var runs := found.Contents? && VerdictOn(found.file, stack).Runs?;
            var strays := runs && TopTen(Address32(VerdictOn(found.file, stack).entry));
            && (r.Overrun? <==> overruns)
            && (r.Started? <==> runs && !overruns && depth < 7 && !strays)
            && (r.Strayed? <==> !overruns && depth < 7 && strays)
            && (r.Failed? <==> !overruns && (!runs || depth >= 7))
  {
    hide Address32, DirIndex, KernelEntry, TopTen, VerdictOn;
    if found.Contents? && VerdictOn(found.file, stack).Runs? {
      TopBits(Address32(VerdictOn(found.file, stack).entry));
    }
  }

  lemma LinkedDoesNotStray(v: Verdict)
    requires Linked(v)
    ensures !Strays(v)
  {
    hide Address32, DirIndex, KernelEntry, InWindow;
    if v.Runs? { WindowIsFree(Address32(v.entry)); }
  }

  /** The verdict on the file keeps to the window. */
  ghost predicate LinkedFile(found: Found, stack: Stack)
    requires stack.Valid()
  {
    found.Contents? ==> Linked(VerdictOn(found.file, stack))
  }

  class Kernel {
    const tables: Tables
    var cr3: int                  // the row of PDE that CR3 points at
    var procActive: int           // proc_active of the terminal
    var pcbs: map<Address, Pcb>      // PCBs by physical address
    ghost var callers: seq<Context>

    /** How many processes are live. */
    ghost function Depth(): nat reads this { |callers| }

    /** The running process is the last one executed, and slots 0..d-1 are the live ones. */
    ghost predicate Valid()
      reads this, tables, tables.pde, tables.proc
    {
      && tables.Sound()
      && GoodPcbs(pcbs, callers)
      && (forall i :: 0 <= i < SLOTS ==> (tables.proc[i] == 1 <==> i < Depth()))
      && cr3 == Depth() && procActive == Depth() - 1
    }

    /** Boot: paging is on, nothing runs. */
    constructor (tables: Tables)
      requires tables.Sound() && forall i :: 0 <= i < SLOTS ==> tables.proc[i] == 0
      ensures Valid() && Depth() == 0 && this.tables == tables
    {
      this.tables := tables;
      cr3, procActive, pcbs := 0, -1, map[];
      callers := [];
    }

    /** execute, from the caller's registers on: any name, any file. The model stops before a file that
        overruns the kernel stack is read, and after a program that strays has taken its slot, which leaves
        directories that are no longer sound. */
    method Execute(fs: FileSys, name: seq<byte>, stack: Stack, room: nat, esp: bv32, ebp: bv32) returns (r: Outcome)
      requires Valid() && fs.Valid() && NUL !in name && stack.Valid()
      requires Depth() > 0 ==> InBlock(Depth() - 1, esp)
      modifies this, tables.pde, tables.proc
      ensures r == OutcomeOf(Find(fs.image, name), stack, room, old(Depth()))
      ensures r.Strayed? ==> !tables.Sound()
      ensures r.Failed? || r.Started? ==> Valid()
      ensures LinkedFile(Find(fs.image, name), stack) ==> !r.Strayed? && (old(tables.Valid()) ==> tables.Valid())
      ensures r.Failed? ==> callers == old(callers) && pcbs == old(pcbs)
      ensures r.Failed? ==>
                forall j, k :: 0 <= j < SLOTS && 0 <= k < ENTRIES ==> tables.pde[j, k] == old(tables.pde[j, k])
      ensures r.Started? ==> callers == old(callers) + [Context(esp, ebp)]
    {
      hide ParentMask, InBlock, Block, GoodPcbs, Tables.Sound, Tables.Valid, Find, VerdictOn, Strays, Linked;
      var size, inode := FindFile(fs, name);
      if size == -1 { return Failed; }
      if procActive >= 0 && size > room { return Overrun; }
      var v := CheckContents(fs, inode, size, stack);
      if v.Refused? { return Failed; }
      r := Launch(v, esp, ebp);
    }

    /** execute once the file is found good. */
    method Launch(v: Verdict, esp: bv32, ebp: bv32) returns (r: Outcome)
      requires Valid() && v.Runs? && (Depth() > 0 ==> InBlock(Depth() - 1, esp))
      modifies this, tables.pde, tables.proc
      ensures r == if old(Depth()) >= SLOTS - 1 then Failed else if Strays(v) then Strayed else Started
      ensures r.Strayed? ==> !tables.Sound()
      ensures !r.Strayed? ==> Valid()
      ensures Linked(v) ==> !r.Strayed? && (old(tables.Valid()) ==> tables.Valid())
      ensures r.Failed? ==> callers == old(callers) && pcbs == old(pcbs)
      ensures r.Failed? ==>
                forall j, k :: 0 <= j < SLOTS && 0 <= k < ENTRIES ==> tables.pde[j, k] == old(tables.pde[j, k])
      ensures r.Started? ==> callers == old(callers) + [Context(esp, ebp)]
    {
      assert Depth() <= SLOTS - 1;
      hide ParentMask, InBlock, Block, GoodPcbs, Tables.Sound, Tables.Valid, Strays, Linked;
      var currPcb := ParentMask(esp);
      var procId := TakeSlot(v);
      if procId == -1 { return Failed; }
      if Strays(v) { return Strayed; }
      Enter(procId, currPcb, esp, ebp);
      r := Started;
    }

    /** The new process: scheduled, its directory in CR3, and its PCB filled. */
    method Enter(procId: int, currPcb: bv32, esp: bv32, ebp: bv32)
      requires tables.Sound() && GoodPcbs(pcbs, callers) && procId == Depth() < SLOTS - 1
      requires forall i :: 0 <= i < SLOTS ==> (tables.proc[i] == 1 <==> i <= procId)
      requires currPcb == ParentMask(esp) && (Depth() > 0 ==> InBlock(Depth() - 1, esp))
      modifies this
      ensures Valid() && callers == old(callers) + [Context(esp, ebp)]
    {
      hide ParentMask, InBlock, Block, PhysicalBlock, GoodPcb, Tables.Sound;
      PcbsPushed(pcbs, callers, Context(esp, ebp));
      procActive := procId;
      cr3 := procId + 1;
      var where := PcbAddress(procId);
      pcbs := pcbs[where := Pcb(currPcb, esp, ebp, procId)];
      callers := callers + [Context(esp, ebp)];
    }

    /** new_pde with slots 0..d-1 live: slot d, or none when all seven are. */
    method TakeSlot(v: Verdict) returns (procId: int)
      requires Valid() && v.Runs?
      modifies tables.pde, tables.proc
      ensures tables.Sound() <==> procId == -1 || !Strays(v)
      ensures Linked(v) ==> !Strays(v) && (old(tables.Valid()) ==> tables.Valid())
      ensures procId == if Depth() == SLOTS - 1 then -1 else Depth()
      ensures forall i :: 0 <= i < SLOTS ==> (tables.proc[i] == 1 <==> i < Depth() || i == procId)
      ensures forall j, k :: 0 <= j < SLOTS && (procId == -1 || j != procId + 1) && 0 <= k < ENTRIES ==>
                tables.pde[j, k] == old(tables.pde[j, k])
    {
      assert tables.Shape();
      hide KernelEntry, DirIndex, GoodPcb, InWindow, PageEntry, Tables.Sound, Tables.Valid, Tables.MasksMeet,
        Tables.NewEntry, Tables.KernelMaps, Tables.VideoMaps, Address32;
      ghost var d := Depth();
      if Linked(v) { LinkedDoesNotStray(v); }
      assert tables.proc[d] != 1;
      procId := tables.NewPde(Address32(v.entry));
    }

    /** The physical address behind 128 MB - (procId+1) * 8 KB in the new directory. */
    method PcbAddress(procId: int) returns (where: Address)
      requires tables.Sound() && 0 <= procId < SLOTS - 1 && cr3 == procId + 1
      ensures where == PcbAt(procId)
    {
      hide Translate;
      BlockStart(procId);
      tables.MasksAgree(procId + 1, procId, Block(procId));
      where := Lookup(CurrentMask(Block(procId)));
    }

    /** Memory access by virtual address under the current directory. */
    method Lookup(va: bv32) returns (where: Address)
      requires tables.Sound() && 0 <= cr3 < SLOTS && Translate(tables.SpaceOf(cr3), va).Mapped?
      ensures where == Translate(tables.SpaceOf(cr3), va)
    {
      var entry := tables.pde[cr3, DirIndex(va)];
      if Large(entry) {
        where := Mapped(InFrame(FrameOf(entry), va));
      } else {
        where := Mapped(InPage(PageOf(tables.pte[TableIndex(va)]), va));
      }
    }

    /** get_curr_pcb from anywhere on the kernel stack of process i, under any process directory. */
    method PcbOf(ptr: bv32, ghost i: int, ghost esp: bv32) returns (pcb: Pcb)
      requires tables.Sound() && 1 <= cr3 < SLOTS && GoodPcb(pcbs, callers, i)
      requires InBlock(i, esp) && (ptr == CurrentMask(esp) || ptr == ParentMask(esp))
      ensures pcb == Pcb(ParentMask(callers[i].esp), callers[i].esp, callers[i].ebp, i)
    {
      hide ParentMask, CurrentMask, InBlock, Block, PhysicalBlock, Translate, Tables.Sound;
      tables.MasksAgree(cr3, i, esp);
      var where := Lookup(ptr);
      pcb := pcbs[where];
    }

    /** The end of halt: the parent is found through old_pcb, CR3 moves to its directory, and the halting
        process's PCB is read once more through that directory. */
    method SwitchToParent(pcb: Pcb, esp: bv32, ghost d: int) returns (resumed: Context)
      requires tables.Sound() && cr3 == d && 2 <= d == |callers|
      requires GoodPcb(pcbs, callers, d - 1) && GoodPcb(pcbs, callers, d - 2) && pcb == pcbs[PcbAt(d - 1)]
      requires InBlock(d - 1, esp)
      modifies this`cr3, this`procActive
      ensures cr3 == d - 1 && procActive == d - 2
      ensures resumed == callers[d - 1] && InBlock(d - 2, resumed.esp)
    {
      hide ParentMask, CurrentMask, InBlock, Block, PcbAt, Tables.Sound;
      var parent := PcbOf(pcb.oldPcb, d - 2, pcb.kstack);
      procActive := parent.procId;
      cr3 := parent.procId + 1;
      var again := PcbOf(CurrentMask(esp), d - 1, esp);
      resumed := Context(again.kstack, again.oldEbp);
    }

    /** halt, by the running process, from anywhere on its kernel stack. Halting the root shuts the
        machine down; otherwise the registers of the caller come back. */
    method Halt(esp: bv32) returns (shutdown: bool, resumed: Context)
      requires Valid() && Depth() > 0 && InBlock(Depth() - 1, esp)
      modifies this, tables.proc
      ensures Valid() && pcbs == old(pcbs) && (old(tables.Valid()) ==> tables.Valid())
      ensures shutdown <==> old(Depth()) == 1
      ensures shutdown ==> callers == old(callers)
      ensures !shutdown ==> resumed == old(callers)[old(Depth()) - 1] && callers == old(callers)[..old(Depth()) - 1]
      ensures !shutdown ==> InBlock(Depth() - 1, resumed.esp)
    {
      hide ParentMask, CurrentMask, InBlock, Block, PcbAt, Tables.Sound, Tables.Valid;
      ghost var d := Depth();
      assert GoodPcb(pcbs, callers, d - 1);
      PcbsPopped(pcbs, callers);
      var pcb := PcbOf(CurrentMask(esp), d - 1, esp);
      resumed := Context(pcb.kstack, pcb.oldEbp);
      if pcb.procId == 0 { return true, resumed; }
      assert GoodPcb(pcbs, callers, d - 2);
      tables.RemovePage(pcb.procId);
      if procActive == pcb.procId {
        resumed := SwitchToParent(pcb, esp, d);
      }
      callers := callers[..d - 1];
      return false, resumed;
    }

    /** Following old_pcb from the running process: d-1, d-2, ..., 0. */
    method Ancestors(esp: bv32) returns (ids: seq<int>)
      requires Valid() && Depth() > 0 && InBlock(Depth() - 1, esp)
      ensures |ids| == Depth()
      ensures forall k :: 0 <= k < |ids| ==> ids[k] == Depth() - 1 - k
    {
      hide ParentMask, CurrentMask, InBlock, Block, PhysicalBlock, Translate, Tables.Sound;
      ghost var d := Depth();
      assert GoodPcb(pcbs, callers, d - 1);
      var pcb := PcbOf(CurrentMask(esp), d - 1, esp);
      ids := [pcb.procId];
      while pcb.procId != 0
        invariant 1 <= |ids| <= d && pcb.procId == d - |ids|
        invariant var c := callers[pcb.procId]; pcb.oldPcb == ParentMask(c.esp)
        invariant forall k :: 0 <= k < |ids| ==> ids[k] == d - 1 - k
        decreases d - |ids|
      {
        ghost var i := pcb.procId;
        assert GoodPcb(pcbs, callers, i) && GoodPcb(pcbs, callers, i - 1);
        pcb := PcbOf(pcb.oldPcb, i - 1, callers[i].esp);
        ids := ids + [pcb.procId];
      }
    }
  }

  /** A run is a sequence of executes and halts; `offset` places the stack pointer in the running
      process's block. */
  datatype Op =
    | Start(name: seq<byte>, stack: Stack, room: nat, offset: bv32, ebp: bv32)
    | Stop(offset: bv32)
  {
    ghost predicate Allowed() { offset < 0x2000 && (Start? ==> NUL !in name && stack.Valid()) }
  }

  /** How an operation ends with `depth` processes live. Halting the root never returns. */
  ghost function OutcomeAt(image: seq<byte>, depth: nat, op: Op): Outcome
    requires WellFormed(image) && op.Allowed()
  {
    if op.Start? then OutcomeOf(Find(image, op.name), op.stack, op.room, depth)
    else if depth == 1 then Shutdown
    else Halted
  }

  ghost predicate LinkedOp(image: seq<byte>, op: Op)
    requires WellFormed(image) && op.Allowed()
  {
    op.Start? ==> LinkedFile(Find(image, op.name), op.stack)
  }

  /** The stack of callers after an operation: an execute that starts a program pushes, a halt above the
      root pops. */
  ghost function StackAfter(image: seq<byte>, callers: seq<Context>, op: Op): seq<Context>
    requires WellFormed(image) && op.Allowed()
  {
    var d := |callers|;
    match op
    case Start(_, _, _, offset, ebp) =>
      if !OutcomeAt(image, d, op).Started? then callers
      else callers + [Context(if d > 0 then StackAddress(d - 1, offset) else offset, ebp)]
    case Stop(_) => if d <= 1 then callers else callers[..d - 1]
  }

  ghost function StackAfterAll(image: seq<byte>, callers: seq<Context>, ops: seq<Op>): seq<Context>
    requires WellFormed(image) && forall i :: 0 <= i < |ops| ==> ops[i].Allowed()
  {
    if ops == [] then callers
    else StackAfter(image, StackAfterAll(image, callers, ops[..|ops| - 1]), ops[|ops| - 1])
  }

  method Perform(k: Kernel, fs: FileSys, op: Op) returns (r: Outcome)
    requires k.Valid() && fs.Valid() && op.Allowed()
    modifies k, k.tables.pde, k.tables.proc
    ensures r == OutcomeAt(fs.image, old(k.Depth()), op)
    ensures r.Strayed? ==> !k.tables.Sound()
    ensures !r.Final() ==> k.Valid() && k.callers == StackAfter(fs.image, old(k.callers), op)
    ensures LinkedOp(fs.image, op) ==> !r.Strayed? && (old(k.tables.Valid()) ==> k.tables.Valid())
  {
    hide InBlock, Block, StackAddress, Tables.Sound, Tables.Valid, GoodPcb, Find, WellFormed, OutcomeOf, LinkedFile;
    var esp := op.offset;
    if k.procActive >= 0 {
      InsideBlock(k.procActive, op.offset);
      esp := StackAddress(k.procActive, op.offset);
    }
    match op {
      case Start(name, stack, room, _, ebp) => r := k.Execute(fs, name, stack, room, esp, ebp);
      case Stop(_) =>
        r := Halted;
        if k.procActive >= 0 {
          var shutdown, _ := k.Halt(esp);
          if shutdown { r := Shutdown; }
        }
    }
  }

  /** How the i-th operation of the run ends. */
  ghost function OutcomeIn(image: seq<byte>, callers: seq<Context>, ops: seq<Op>, i: nat): Outcome
    requires WellFormed(image) && (forall i :: 0 <= i < |ops| ==> ops[i].Allowed()) && i < |ops|
  {
    OutcomeAt(image, |StackAfterAll(image, callers, ops[..i])|, ops[i])
  }

  /** Over every run, until an operation is final, the kernel is a stack of processes: slots 0..d-1 are live,
      d-1 is active, and the callers are exactly those the run pushed and did not pop. If every program is
      linked in the window, none strays and every directory stays as described. */
  method Run(k: Kernel, fs: FileSys, ops: seq<Op>) returns (n: nat, last: Outcome)
    requires k.Valid() && fs.Valid()
    requires forall i :: 0 <= i < |ops| ==> ops[i].Allowed()
    modifies k, k.tables.pde, k.tables.proc
    ensures n <= |ops| && (forall i :: 0 <= i < n ==> !OutcomeIn(fs.image, old(k.callers), ops, i).Final())
    ensures n < |ops| ==> last == OutcomeIn(fs.image, old(k.callers), ops, n) && last.Final()
    ensures n < |ops| && last.Strayed? ==> !k.tables.Sound()
    ensures n == |ops| ==>
              && k.Valid() && k.callers == StackAfterAll(fs.image, old(k.callers), ops)
              && k.procActive == k.Depth() - 1
              && forall i :: 0 <= i < SLOTS ==> (k.tables.proc[i] == 1 <==> i < k.Depth())
    ensures (forall i :: 0 <= i < |ops| ==> LinkedOp(fs.image, ops[i])) ==>
              !last.Strayed? && (old(k.tables.Valid()) ==> k.tables.Valid())
  {
    hide Tables.Sound, Tables.Valid, GoodPcbs, StackAfter, OutcomeAt, LinkedOp;
    n, last := 0, Halted;
    while n < |ops|
      invariant 0 <= n <= |ops| && k.Valid() && !last.Final()
      invariant k.callers == StackAfterAll(fs.image, old(k.callers), ops[..n])
      invariant forall i :: 0 <= i < n ==> !OutcomeIn(fs.image, old(k.callers), ops, i).Final()
      invariant (forall i :: 0 <= i < |ops| ==> LinkedOp(fs.image, ops[i])) ==>
                  old(k.tables.Valid()) ==> k.tables.Valid()
    {
      assert ops[..n + 1][..n] == ops[..n];
      last := Perform(k, fs, ops[n]);
      if last.Final() { return; }
      n := n + 1;
    }
    assert ops[..|ops|] == ops;
  }

  /** An execute of a whole executable, linked in the window, that fits the stack. */
  ghost predicate GoodStart(image: seq<byte>, op: Op)
    requires WellFormed(image) && op.Allowed()
  {
    && op.Start? && Find(image, op.name).Contents?
    && var file := Find(image, op.name).file;
    && 28 <= |file| <= op.room && [0x7F, 0x45, 0x4C, 0x46] <= file && InWindow(Address32(Word(file, 24)))
  }

  lemma GoodStartStarts(image: seq<byte>, depth: nat, op: Op)
    requires WellFormed(image) && op.Allowed() && GoodStart(image, op)
    ensures op.Start? && OutcomeAt(image, depth, op) == if depth < 7 then Started else Failed
  {
    hide Word, VerdictOn, OutcomeOf, Address32, InWindow, Find, TopTen, Linked, Strays, WellFormed, Decided,
      KernelEntry, DirIndex;
    var file := Find(image, op.name).file;
    WholeHeader(file);
    OutcomeMeans(Find(image, op.name), op.stack, op.room, depth);
    TopBits(Address32(Word(file, 24)));
    WindowIsFree(Address32(Word(file, 24)));
  }

  /** From boot, k such executes in a row leave min(k, 7) processes, and exactly those after the seventh
      fail. */
  lemma {:induction false} SevenFit(image: seq<byte>, ops: seq<Op>)
    requires WellFormed(image) && forall i :: 0 <= i < |ops| ==> ops[i].Allowed() && GoodStart(image, ops[i])
    ensures |StackAfterAll(image, [], ops)| == Min(|ops|, 7)
    ensures forall i :: 0 <= i < |ops| ==> OutcomeIn(image, [], ops, i) == if i < 7 then Started else Failed
    decreases |ops|
  {
    hide GoodStart, OutcomeAt, WellFormed;
    if ops != [] {
      var init, last := ops[..|ops| - 1], ops[|ops| - 1];
      SevenFit(image, init);
      GoodStartStarts(image, |StackAfterAll(image, [], init)|, last);
      forall i | 0 <= i < |ops| ensures OutcomeIn(image, [], ops, i) == if i < 7 then Started else Failed {
        if i < |init| {
          assert init[..i] == ops[..i];
          assert OutcomeIn(image, [], init, i) == OutcomeIn(image, [], ops, i);
        }
      }
    }
  }

  /** A halt takes back the execute before it, unless that started the root. */
  lemma HaltUndoesExecute(image: seq<byte>, callers: seq<Context>, start: Op, stop: Op)
    requires WellFormed(image) && start.Allowed() && stop.Allowed() && stop.Stop? && start.Start?
    requires callers != [] && OutcomeAt(image, |callers|, start).Started?
    ensures |StackAfter(image, callers, start)| == |callers| + 1
    ensures StackAfter(image, StackAfter(image, callers, start), stop) == callers
  {
    hide OutcomeOf, WellFormed, Find;
  }

  lemma InsideBlock(i: int, offset: bv32)
    requires 0 <= i < SLOTS - 1 && offset < 0x2000
    ensures InBlock(i, StackAddress(i, offset))
  {
  }

  lemma BlocksDiffer(i: int, j: int)
    requires 0 <= i < j < SLOTS - 1
    ensures PcbAt(i) != PcbAt(j)
  {
    BlocksApart(i, j, 0, 0);
  }

  lemma BlockStart(i: int)
    requires 0 <= i < SLOTS - 1
    ensures InBlock(i, Block(i)) && CurrentMask(Block(i)) == Block(i)
  {
    MasksFindBlock(i, Block(i));
  }
}
