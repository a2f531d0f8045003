/** The eight descriptors of a process: open, read and close. */
module Descriptors {
  import opened Bytes
  import opened Image
  import opened FileSystem

  const SLOTS := 8

  /** Which operations table a descriptor uses. */
  datatype Kind = Terminal | Directory | Clock | Regular

  datatype Fd = Fd(ops: Kind, inode: nat, pos: nat, flags: nat) {
    predicate Open() { flags % 2 == 1 }
  }

  datatype Event = Opened(fd: nat, name: seq<byte>) | Got(fd: nat, bytes: seq<byte>) | Closed(fd: nat)

  datatype Option<T> = None | Some(value: T)

  /** The name `fd` was last opened with. */
  ghost function OpenName(history: seq<Event>, fd: nat): Option<seq<byte>> {
    if history == [] then None
    else
      var e := history[|history| - 1];
      if e.Opened? && e.fd == fd then Some(e.name) else OpenName(history[..|history| - 1], fd)
  }

  /** Everything read through `fd` since it was last opened, in order. */
  ghost function Delivered(history: seq<Event>, fd: nat): seq<byte> {
    if history == [] then []
    else
      var e, earlier := history[|history| - 1], history[..|history| - 1];
      if e.fd != fd || e.Closed? then Delivered(earlier, fd)
      else if e.Opened? then []
      else Delivered(earlier, fd) + e.bytes
  }

  lemma HistoryStep(history: seq<Event>, e: Event, fd: nat)
    ensures OpenName(history + [e], fd)
            == if e.Opened? && e.fd == fd then Some(e.name) else OpenName(history, fd)
    ensures Delivered(history + [e], fd)
            == if e.fd != fd || e.Closed? then Delivered(history, fd)
               else if e.Opened? then [] else Delivered(history, fd) + e.bytes
  {
    assert (history + [e])[..|history|] == history;
  }

  /** The lowest closed descriptor from `from` on, or 8. */
  function LowestClosed(fds: seq<Fd>, from: nat): (i: nat)
    requires from <= |fds|
    ensures from <= i <= |fds|
    ensures i < |fds| ==> !fds[i].Open()
    ensures forall j :: from <= j < i ==> fds[j].Open()
    decreases |fds| - from
  {
    if from == |fds| || !fds[from].Open() then from else LowestClosed(fds, from + 1)
  }

  /** The kind and the flag bits sys_open gives each file type. */
  function KindOf(fileType: nat): Kind {
    if fileType == 0 then Clock else if fileType == 1 then Directory else Regular
  }

  /** The descriptor sys_open leaves in a slot that held `was`. */
  function Fresh(was: Fd, e: Entry): Fd {
    match KindOf(e.fileType)
    case Regular => Fd(Regular, e.inode, 0, 5)
    case Directory => Fd(Directory, 0, was.pos, 3)
    case k => Fd(k, 0, was.pos, 1)
  }

  /** The type word of entry i decides what the descriptor is: 2 a file, at its start; 1 the directory; 0 the
      clock. */
  ghost predicate OpenAs(image: seq<byte>, i: nat, fd: Fd)
    requires 64 * i + 128 <= |image|
  {
    && fd.Open()
    && (Word(image, 64 * i + 96) == 2 ==> fd.ops.Regular? && fd.inode == Word(image, 64 * i + 100) && fd.pos == 0)
    && (Word(image, 64 * i + 96) == 1 ==> fd.ops.Directory?)
    && (Word(image, 64 * i + 96) == 0 ==> fd.ops.Clock?)
  }

  lemma FreshOpensAs(image: seq<byte>, i: nat, was: Fd)
    requires 64 * i + 128 <= |image|
    ensures OpenAs(image, i, Fresh(was, EntryOf(image, i)))
  {
    hide Word;
  }

  /** An open regular file names an inode of the image and stands inside its file. */
  ghost predicate Sound(image: seq<byte>, fd: Fd) {
    fd.Open() && fd.ops.Regular? ==> GoodInode(image, fd.inode) && fd.pos <= |File(image, fd.inode)|
  }

  /** What was read since the open is exactly the beginning of the file that was opened. */
  ghost predicate Tracked(image: seq<byte>, fd: Fd, name: Option<seq<byte>>, delivered: seq<byte>) {
    fd.Open() && fd.ops.Regular? && name.Some? ==>
      && Sound(image, fd)
      && Lookup(image, name.value) < EntryCount(image)
      && fd.inode == EntryOf(image, Lookup(image, name.value)).inode
      && delivered == File(image, fd.inode)[..fd.pos]
  }

  lemma FreshTracked(image: seq<byte>, was: Fd, name: seq<byte>)
    requires WellFormed(image) && Lookup(image, name) < EntryCount(image)
    ensures var fd := Fresh(was, EntryOf(image, Lookup(image, name)));
            Sound(image, fd) && Tracked(image, fd, Some(name), [])
  {
    var i := Lookup(image, name);
    assert GoodEntry(image, i);
    assert GoodInode(image, EntryOf(image, i).inode);
  }

  lemma ReadTracked(image: seq<byte>, fd: Fd, name: Option<seq<byte>>, delivered: seq<byte>, r: nat)
    requires Sound(image, fd) && Tracked(image, fd, name, delivered) && fd.Open() && fd.ops.Regular?
    requires fd.pos + r <= |File(image, fd.inode)|
    ensures var more := File(image, fd.inode)[fd.pos..fd.pos + r];
            var moved := fd.(pos := fd.pos + r);
            Sound(image, moved) && Tracked(image, moved, name, delivered + more)
  {
    var file := File(image, fd.inode);
    assert file[..fd.pos] + file[fd.pos..fd.pos + r] == file[..fd.pos + r];
  }

  /** Standard input and output are open, open files are sound, and every one delivers its file. */
  ghost predicate GoodTable(image: seq<byte>, table: seq<Fd>, history: seq<Event>) {
    && |table| == SLOTS
    && table[0].ops.Terminal? && table[0].Open() && table[1].ops.Terminal? && table[1].Open()
    && (forall i :: 0 <= i < SLOTS ==> Sound(image, table[i]))
    && (forall i :: 0 <= i < SLOTS ==> Tracked(image, table[i], OpenName(history, i), Delivered(history, i)))
  }

  /** One event and one new descriptor value: the other descriptors are not disturbed. */
  lemma Recorded(image: seq<byte>, table: seq<Fd>, history: seq<Event>, e: Event, fd: Fd)
    requires GoodTable(image, table, history) && e.fd < SLOTS && (e.fd < 2 ==> fd == table[e.fd])
    requires Sound(image, fd)
    requires var name := if e.Opened? then Some(e.name) else OpenName(history, e.fd);
             var got := if e.Opened? then [] else if e.Got? then Delivered(history, e.fd) + e.bytes
                        else Delivered(history, e.fd);
             Tracked(image, fd, name, got)
    ensures GoodTable(image, table[e.fd := fd], history + [e])
  {
    hide Tracked, Sound, OpenName, Delivered;
    forall i | 0 <= i < SLOTS
      ensures Tracked(image, table[e.fd := fd][i], OpenName(history + [e], i), Delivered(history + [e], i))
    {
      HistoryStep(history, e, i);
    }
  }

  class Process {
    const fs: FileSys
    const fds: array<Fd>
    ghost var history: seq<Event>

    ghost predicate Valid()
      reads this, fs, fds
    {
      fds.Length == SLOTS && fs.Valid() && GoodTable(fs.image, fds[..], history)
    }

    /** A process may start with any table in which open files are sound. */
    constructor (fs: FileSys, fds: array<Fd>)
      requires fs.Valid() && fds.Length == SLOTS
      requires fds[0].ops.Terminal? && fds[0].Open() && fds[1].ops.Terminal? && fds[1].Open()
      requires forall i :: 0 <= i < SLOTS ==> Sound(fs.image, fds[i])
      ensures Valid() && this.fs == fs && this.fds == fds && history == []
    {
      this.fs := fs;
      this.fds := fds;
      history := [];
    }

    /** sys_open */
    method Open(name: seq<byte>) returns (r: int)
      requires Valid() && NUL !in name
      modifies this, fds
      ensures Valid()
      ensures r == -1 <==> LowestClosed(old(fds[..]), 2) == SLOTS || Lookup(fs.image, name) == EntryCount(fs.image)
      ensures r == -1 ==> fds[..] == old(fds[..]) && history == old(history)
      ensures r != -1 ==> r == LowestClosed(old(fds[..]), 2) && 2 <= r
      ensures r != -1 ==> fds[..] == old(fds[..])[r := Fresh(old(fds[r]), EntryOf(fs.image, Lookup(fs.image, name)))]
      ensures r != -1 ==> history == old(history) + [Opened(r, name)]
      ensures r != -1 ==>
                var i := Lookup(fs.image, name);
                && OpenAs(fs.image, i, fds[r]) && 2 <= r < 8 && !old(fds[r]).Open()
                && forall k :: 2 <= k < r ==> old(fds[k]).Open()
    {
      hide Word, File, NameOf, Padded, Lookup, Delivered, OpenName, Sound, Tracked;
      ghost var before := fds[..];
      var slot := 2;
      while slot < SLOTS && fds[slot].Open()
        invariant 2 <= slot <= SLOTS && LowestClosed(before, 2) == LowestClosed(before, slot)
      {
        slot := slot + 1;
      }
      if slot == SLOTS { return -1; }
      var size, entry := fs.ReadDentryByName(name);
      if size == -1 { return -1; }
      assert GoodEntry(fs.image, Lookup(fs.image, name));
      FreshTracked(fs.image, fds[slot], name);
      FreshOpensAs(fs.image, Lookup(fs.image, name), fds[slot]);
      if entry.fileType == 0 {
        fds[slot] := fds[slot].(flags := 1, inode := 0, ops := Clock);
      } else if entry.fileType == 1 {
        fds[slot] := fds[slot].(flags := 1 + 2, inode := 0, ops := Directory);
      } else {
        fds[slot] := fds[slot].(flags := 1 + 4, ops := Regular, pos := 0);
        // fnc_fopen looks the name up again and stores the inode
        var again, found := fs.ReadDentryByName(name);
        fds[slot] := fds[slot].(inode := found.inode);
      }
      assert fds[..] == before[slot := Fresh(before[slot], entry)];
      Recorded(fs.image, before, history, Opened(slot, name), Fresh(before[slot], entry));
      history := history + [Opened(slot, name)];
      r := slot;
    }

    /** The call delivers a directory entry. */
    predicate Lists(fd: nat)
      requires fds.Length == SLOTS
      reads this, fds, fs
    {
      fd < SLOTS && fd != 1 && fds[fd].Open() && fds[fd].ops.Directory? && fs.dirIndex < fs.entries
    }

    /** sys_read, into the memory that starts at `buf`. A directory entry takes 32 bytes of it, however few
        are asked for. A read of a device returns `device`, which is outside this model. */
    method Read(fd: nat, buf: array<byte>, nbytes: nat, device: int) returns (r: int)
      requires Valid() && buf.Length >= nbytes && (Lists(fd) ==> buf.Length >= NAME)
      requires buf as object != fds
      modifies this, fs, fds, buf
      ensures Valid()
      ensures fd >= SLOTS || fd == 1 || !old(fds[fd]).Open() ==>
                r == -1 && fds[..] == old(fds[..]) && history == old(history) && buf[..] == old(buf[..])
      ensures fd < SLOTS && fd != 1 && old(fds[fd]).Open() && old(fds[fd]).ops.Regular? ==>
                var was := old(fds[fd]);
                var file := File(fs.image, was.inode);
                && 0 <= r == Min(nbytes, |file| - was.pos)
                && buf[..r] == file[was.pos..was.pos + r] && buf[r..] == old(buf[r..])
                && fds[..] == old(fds[..])[fd := was.(pos := was.pos + r)]
                && history == old(history) + [Got(fd, buf[..r])]
      ensures fd < SLOTS && fd != 1 && old(fds[fd]).Open() && !old(fds[fd]).ops.Regular? ==>
                fds[..] == old(fds[..]) && history == old(history)
      ensures old(Lists(fd)) ==>
                && r == NAME && fs.dirIndex == old(fs.dirIndex) + 1
                && EntryAt(old(fs.dirIndex)) + ENTRY <= |fs.image|
                && buf[..NAME] == Padded(NameOf(fs.image, old(fs.dirIndex)), NAME) && buf[NAME..] == old(buf[NAME..])
      ensures fd < SLOTS && fd != 1 && old(fds[fd]).Open() && old(fds[fd]).ops.Directory? && !old(Lists(fd)) ==>
                r == 0 && fs.dirIndex == 0 && buf[..] == old(buf[..])
    {
      hide Word, File, Lookup, Delivered, OpenName, GoodInode, EntryOf;
      if fd > 7 || fd == 1 { return -1; }
      if !fds[fd].Open() { return -1; }
      match fds[fd].ops {
        case Regular => r := ReadRegular(fd, buf, nbytes);
        case Directory => r := fs.DirRead(buf);
        case Terminal => r := device;
        case Clock => r := device;
      }
    }

    /** fnc_fread */
    method ReadRegular(fd: nat, buf: array<byte>, nbytes: nat) returns (r: int)
      requires Valid() && buf.Length >= nbytes && fd < SLOTS && fds[fd].Open() && fds[fd].ops.Regular?
      requires buf as object != fds
      modifies this, fds, buf
      ensures Valid()
      ensures var was := old(fds[fd]);
              var file := File(fs.image, was.inode);
              && 0 <= r == Min(nbytes, |file| - was.pos)
              && buf[..r] == file[was.pos..was.pos + r] && buf[r..] == old(buf[r..])
              && fds[..] == old(fds[..])[fd := was.(pos := was.pos + r)]
              && history == old(history) + [Got(fd, buf[..r])]
    {
      hide Word, File, Lookup, Delivered, OpenName, EntryOf, Tracked;
      ghost var before := fds[..];
      ghost var was := fds[fd];
      assert Sound(fs.image, was) && Tracked(fs.image, was, OpenName(history, fd), Delivered(history, fd));
      r := fs.ReadData(fds[fd].inode, fds[fd].pos, buf, nbytes);
      ReadTracked(fs.image, was, OpenName(history, fd), Delivered(history, fd), r);
      assert buf[..r] == File(fs.image, was.inode)[was.pos..was.pos + r];
      fds[fd] := fds[fd].(pos := fds[fd].pos + r);
      assert fds[..] == before[fd := was.(pos := was.pos + r)];
      Recorded(fs.image, before, history, Got(fd, buf[..r]), was.(pos := was.pos + r));
      history := history + [Got(fd, buf[..r])];
    }

    /** sys_close: 0 and 1 cannot be closed. */
    method Close(fd: nat) returns (r: int)
      requires Valid()
      modifies this, fds
      ensures Valid()
      ensures r == 0 <==> 2 <= fd < SLOTS && old(fds[fd]).Open()
      ensures r != 0 ==> r == -1 && fds[..] == old(fds[..]) && history == old(history)
      ensures r == 0 ==> fds[..] == old(fds[..])[fd := old(fds[fd]).(flags := 0)]
      ensures r == 0 ==> history == old(history) + [Closed(fd)]
    {
      hide Word, File, Lookup, Delivered, OpenName, EntryOf, GoodInode;
      if fd < 2 || fd > 7 { return -1; }
      if !fds[fd].Open() { return -1; }
      ghost var before := fds[..];
      fds[fd] := fds[fd].(flags := 0);
      assert fds[..] == before[fd := before[fd].(flags := 0)];
      Recorded(fs.image, before, history, Closed(fd), before[fd].(flags := 0));
      history := history + [Closed(fd)];
      r := 0;
    }
  }

  datatype Call = OpenCall(name: seq<byte>) | ReadCall(fd: nat, nbytes: nat) | CloseCall(fd: nat)

  /** A read through `fd` reaches a regular file. */
  ghost predicate ReadsFile(image: seq<byte>, table: seq<Fd>, fd: nat) {
    && fd < |table| && fd != 1 && table[fd].Open() && table[fd].ops.Regular?
    && GoodInode(image, table[fd].inode) && table[fd].pos <= |File(image, table[fd].inode)|
  }

  /** The bytes such a read delivers: the next ones of the file, as many as asked for or left. */
  ghost function NextBytes(image: seq<byte>, table: seq<Fd>, fd: nat, nbytes: nat): seq<byte>
    requires ReadsFile(image, table, fd)
  {
    var file, pos := File(image, table[fd].inode), table[fd].pos;
    file[pos..pos + Min(nbytes, |file| - pos)]
  }

  /** What a call does, told from the table before it. */
  ghost function EventsOf(image: seq<byte>, table: seq<Fd>, call: Call): seq<Event>
    requires Sized(image) && |table| == SLOTS
  {
    match call
    case OpenCall(name) =>
      var slot := LowestClosed(table, 2);
      if slot == SLOTS || Lookup(image, name) == EntryCount(image) then [] else [Opened(slot, name)]
    case ReadCall(fd, nbytes) =>
      if ReadsFile(image, table, fd) then [Got(fd, NextBytes(image, table, fd, nbytes))] else []
    case CloseCall(fd) =>
      if 2 <= fd < SLOTS && table[fd].Open() then [Closed(fd)] else []
  }

  /** The descriptor table after a call. */
  ghost function TableAfter(image: seq<byte>, table: seq<Fd>, call: Call): (r: seq<Fd>)
    requires Sized(image) && |table| == SLOTS
    ensures |r| == SLOTS
  {
    match call
    case OpenCall(name) =>
      var slot, i := LowestClosed(table, 2), Lookup(image, name);
      if slot == SLOTS || i == EntryCount(image) then table else table[slot := Fresh(table[slot], EntryOf(image, i))]
    case ReadCall(fd, nbytes) =>
      if ReadsFile(image, table, fd)
      then table[fd := table[fd].(pos := table[fd].pos + |NextBytes(image, table, fd, nbytes)|)]
      else table
    case CloseCall(fd) =>
      if 2 <= fd < SLOTS && table[fd].Open() then table[fd := table[fd].(flags := 0)] else table
  }

  ghost function TableAfterAll(image: seq<byte>, table: seq<Fd>, calls: seq<Call>): (r: seq<Fd>)
    requires Sized(image) && |table| == SLOTS
    ensures |r| == SLOTS
  {
    if calls == [] then table
    else TableAfter(image, TableAfterAll(image, table, calls[..|calls| - 1]), calls[|calls| - 1])
  }

  /** Everything a run does, call after call. */
  ghost function EventsOfAll(image: seq<byte>, table: seq<Fd>, calls: seq<Call>): seq<Event>
    requires Sized(image) && |table| == SLOTS
  {
    if calls == [] then []
    else
      var earlier := calls[..|calls| - 1];
      EventsOfAll(image, table, earlier)
      + EventsOf(image, TableAfterAll(image, table, earlier), calls[|calls| - 1])
  }

  /** One call, with what its caller saw of it. */
  method Perform(p: Process, call: Call, device: int) returns (log: seq<Event>)
    requires p.Valid() && (call.OpenCall? ==> NUL !in call.name)
    modifies p, p.fs, p.fds
    ensures p.Valid() && Sized(p.fs.image)
    ensures p.fds[..] == TableAfter(p.fs.image, old(p.fds[..]), call)
    ensures log == EventsOf(p.fs.image, old(p.fds[..]), call)
    ensures p.history == old(p.history) + log
  {
    hide Word, File, Lookup, Delivered, OpenName, EntryOf, Tracked;
    log := [];
    match call {
      case OpenCall(name) =>
        var r := p.Open(name);
        if r != -1 { log := [Opened(r, name)]; }
      case ReadCall(fd, nbytes) =>
        assert fd < SLOTS ==> Sound(p.fs.image, p.fds[fd]);
        var regular := fd < SLOTS && fd != 1 && p.fds[fd].Open() && p.fds[fd].ops.Regular?;
        var buf := new byte[nbytes + NAME];
        var r := p.Read(fd, buf, nbytes, device);
        if regular { log := [Got(fd, buf[..r])]; }
      case CloseCall(fd) =>
        var r := p.Close(fd);
        if r == 0 { log := [Closed(fd)]; }
    }
  }

  /** Opening a name and reading from the new descriptor, told by the type word of its entry: a file gives its
      first bytes, the directory and the clock give none. */
  lemma OpenThenRead(image: seq<byte>, table: seq<Fd>, name: seq<byte>, n: nat)
    requires WellFormed(image) && |table| == 8
    requires Lookup(image, name) < EntryCount(image) && LowestClosed(table, 2) < 8
    ensures var i, slot := Lookup(image, name), LowestClosed(table, 2);
            var calls := [OpenCall(name), ReadCall(slot, n)];
            var after := TableAfterAll(image, table, calls);
            && 64 * i + 128 <= |image|
            && (forall k :: 0 <= k < 8 && k != slot ==> after[k] == table[k])
            && after[slot].Open()
            && (Word(image, 64 * i + 96) == 2 ==>
                  && GoodInode(image, Word(image, 64 * i + 100))
                  && var file := File(image, Word(image, 64 * i + 100));
                  && var got := file[..Min(n, |file|)];
                  && EventsOfAll(image, table, calls) == [Opened(slot, name), Got(slot, got)]
                  && after[slot].ops.Regular? && after[slot].pos == |got|)
            && (Word(image, 64 * i + 96) == 1 ==>
                  EventsOfAll(image, table, calls) == [Opened(slot, name)] && after[slot].ops.Directory?)
            && (Word(image, 64 * i + 96) == 0 ==>
                  EventsOfAll(image, table, calls) == [Opened(slot, name)] && after[slot].ops.Clock?)
  {
    hide Word, File, EntryOf;
    var i, slot := Lookup(image, name), LowestClosed(table, 2);
    var open, read := OpenCall(name), ReadCall(slot, n);
    assert GoodEntry(image, i);
    EntryBytes(image, i);
    FreshOpensAs(image, i, table[slot]);
    assert GoodInode(image, Word(image, 64 * i + 100));
    assert [open, read][..1] == [open] && [open][..0] == [];
    assert TableAfterAll(image, table, [open]) == TableAfter(image, table, open);
    assert EventsOfAll(image, table, [open]) == [Opened(slot, name)];
  }

  /** Any interleaving of calls: the table moves as specified, the callers see exactly the events the
      calls spell out, and over the history those events extend, 0 and 1 stay open and what was delivered
      through each open file is exactly the beginning of the file it was opened as. */
  method Interleave(p: Process, calls: seq<Call>, device: int) returns (log: seq<Event>)
    requires p.Valid()
    requires forall i :: 0 <= i < |calls| && calls[i].OpenCall? ==> NUL !in calls[i].name
    modifies p, p.fs, p.fds
    ensures p.Valid() && Sized(p.fs.image)
    ensures p.fds[..] == TableAfterAll(p.fs.image, old(p.fds[..]), calls)
    ensures log == EventsOfAll(p.fs.image, old(p.fds[..]), calls)
    ensures p.history == old(p.history) + log
    ensures GoodTable(p.fs.image, p.fds[..], p.history)
  {
    hide TableAfter, EventsOf, GoodTable, WellFormed;
    ghost var start := p.fds[..];
    assert Sized(p.fs.image) by { ValidSized(p); }
    log := [];
    for i := 0 to |calls|
      invariant p.Valid() && Sized(p.fs.image)
      invariant p.fds[..] == TableAfterAll(p.fs.image, start, calls[..i])
      invariant log == EventsOfAll(p.fs.image, start, calls[..i])
      invariant p.history == old(p.history) + log
    {
      assert calls[..i + 1][..i] == calls[..i];
      var more := Perform(p, calls[i], device);
      log := log + more;
    }
    assert calls[..|calls|] == calls;
  }

  lemma ValidSized(p: Process)
    requires p.Valid()
    ensures Sized(p.fs.image)
  {
  }

  // ---------------------------------------------------------------- the same as a fact about runs

  lemma ClosedTracked(image: seq<byte>, fd: Fd, name: Option<seq<byte>>, delivered: seq<byte>)
    ensures var closed := fd.(flags := 0); Sound(image, closed) && Tracked(image, closed, name, delivered)
  {
  }

  lemma CallDelivers(image: seq<byte>, table: seq<Fd>, history: seq<Event>, call: Call)
    requires WellFormed(image) && GoodTable(image, table, history)
    ensures GoodTable(image, TableAfter(image, table, call), history + EventsOf(image, table, call))
  {
    hide Word, File, Lookup, EntryOf, Delivered, OpenName, Tracked;
    assert history + [] == history;
    match call {
      case OpenCall(name) =>
        var slot, i := LowestClosed(table, 2), Lookup(image, name);
        if slot < SLOTS && i < EntryCount(image) {
          FreshTracked(image, table[slot], name);
          Recorded(image, table, history, Opened(slot, name), Fresh(table[slot], EntryOf(image, i)));
        }
      case ReadCall(fd, nbytes) =>
        if ReadsFile(image, table, fd) {
          var got, was := NextBytes(image, table, fd, nbytes), table[fd];
          ReadTracked(image, was, OpenName(history, fd), Delivered(history, fd), |got|);
          Recorded(image, table, history, Got(fd, got), was.(pos := was.pos + |got|));
        }
      case CloseCall(fd) =>
        if 2 <= fd < SLOTS && table[fd].Open() {
          ClosedTracked(image, table[fd], OpenName(history, fd), Delivered(history, fd));
          Recorded(image, table, history, Closed(fd), table[fd].(flags := 0));
        }
    }
  }

  /** Over any run of calls on any sound table, what each open file has delivered since its open is
      exactly a prefix of the file of that name, and 0 and 1 stay open. */
  lemma {:induction false} RunDelivers(image: seq<byte>, table: seq<Fd>, history: seq<Event>, calls: seq<Call>)
    requires WellFormed(image) && GoodTable(image, table, history)
    ensures GoodTable(image, TableAfterAll(image, table, calls), history + EventsOfAll(image, table, calls))
  {
    assert Sized(image) && |table| == SLOTS;
    hide TableAfter, EventsOf, GoodTable, WellFormed;
    if calls == [] {
      assert history + [] == history;
    } else {
      var earlier, last := calls[..|calls| - 1], calls[|calls| - 1];
      RunDelivers(image, table, history, earlier);
      var before, events := TableAfterAll(image, table, earlier), EventsOfAll(image, table, earlier);
      CallDelivers(image, before, history + events, last);
      Associative(history, events, EventsOf(image, before, last));
    }
  }

  lemma CallNames(image: seq<byte>, table: seq<Fd>, history: seq<Event>, call: Call, fd: nat)
    requires Sized(image) && |table| == SLOTS && fd < SLOTS
    ensures var after := TableAfter(image, table, call);
            after[fd].Open() ==>
              table[fd].Open() || OpenName(history + EventsOf(image, table, call), fd).Some?
    ensures OpenName(history, fd).Some? ==> OpenName(history + EventsOf(image, table, call), fd).Some?
  {
    hide Word, File, Lookup, EntryOf, Delivered, OpenName, NextBytes, ReadsFile;
    var events := EventsOf(image, table, call);
    if events == [] {
      assert history + events == history;
    } else {
      HistoryStep(history, events[0], fd);
      assert events == [events[0]];
    }
  }

  lemma {:induction false} RunNames(image: seq<byte>, table: seq<Fd>, calls: seq<Call>, fd: nat)
    requires Sized(image) && |table| == SLOTS && fd < SLOTS
    ensures TableAfterAll(image, table, calls)[fd].Open() ==>
              table[fd].Open() || OpenName(EventsOfAll(image, table, calls), fd).Some?
  {
    hide TableAfter, EventsOf, OpenName;
    if calls != [] {
      var earlier := calls[..|calls| - 1];
      RunNames(image, table, earlier, fd);
      var before, events := TableAfterAll(image, table, earlier), EventsOfAll(image, table, earlier);
      CallNames(image, before, events, calls[|calls| - 1], fd);
    }
  }

  /** A descriptor that was closed at the start and is a regular file at the end has delivered, since its
      last open, exactly the first `pos` bytes of the file it was opened as. */
  lemma OpenFileDelivers(image: seq<byte>, table: seq<Fd>, calls: seq<Call>, fd: nat)
    requires WellFormed(image) && GoodTable(image, table, [])
    requires fd < SLOTS && !table[fd].Open()
    requires var end := TableAfterAll(image, table, calls)[fd]; end.Open() && end.ops.Regular?
    ensures var end, events := TableAfterAll(image, table, calls)[fd], EventsOfAll(image, table, calls);
            var name := OpenName(events, fd);
            && name.Some? && Lookup(image, name.value) < EntryCount(image)
            && end.inode == EntryOf(image, Lookup(image, name.value)).inode
            && GoodInode(image, end.inode) && end.pos <= |File(image, end.inode)|
            && Delivered(events, fd) == File(image, end.inode)[..end.pos]
  {
    RunDelivers(image, table, [], calls);
    RunNames(image, table, calls, fd);
    assert [] + EventsOfAll(image, table, calls) == EventsOfAll(image, table, calls);
    hide TableAfterAll, EventsOfAll, OpenName, Delivered, File, Lookup, EntryOf, Word, GoodInode;
  }
}
