/** What holds of the blink list over whole runs of its operations. */
module BlinkRuns {
  import opened Bytes
  import opened Blink
  import opened BlinkList

  lemma StepsNone(d: Display, ops: seq<Op>)
    requires ops == []
    ensures Steps(d, ops) == d
  {
  }

  lemma {:induction false} StepsSnoc(d: Display, ops: seq<Op>, op: Op)
    ensures Steps(d, ops + [op]) == Step(Steps(d, ops), op)
    decreases |ops|
  {
    hide Step;
    if ops == [] {
      assert (ops + [op])[1..] == [];
    } else {
      assert (ops + [op])[0] == ops[0] && (ops + [op])[1..] == ops[1..] + [op];
      StepsSnoc(Step(d, ops[0]), ops[1..], op);
    }
  }

  /** An add at location 0 that goes through. */
  predicate Misplaced(d: Display, op: Op) {
    op.Add? && op.n.location == 0 && Succeeds(d, op)
  }

  /** No add of the run does that. */
  ghost predicate Located(d: Display, ops: seq<Op>) {
    forall i :: 0 <= i < |ops| ==> !Misplaced(Steps(d, ops[..i]), ops[i])
  }

  /** No chain describes the pool any more. */
  ghost predicate Broken(slots: seq<Slot>, head: int) {
    forall c :: !Linked(slots, head, c)
  }

  /** Any run on the real list. If no add at location 0 goes through, the links stay well formed
      throughout and the list behaves as a sequence; the first such add, at which this run stops, leaves
      a pool that no chain describes. */
  method Run(list: List, ops: seq<Op>) returns (n: nat, intact: bool)
    requires list.Valid()
    modifies list, list.pool, list.video
    ensures intact <==> Located(old(list.View()), ops)
    ensures intact ==> n == |ops| && list.Valid() && list.View() == Steps(old(list.View()), ops)
    ensures !intact ==> 0 < n <= |ops| && Misplaced(Steps(old(list.View()), ops[..n - 1]), ops[n - 1])
    ensures !intact ==> list.Shape() && Broken(list.pool[..], list.head)
  {
    hide Linked, Step, Nodes, Succeeds, Broken;
    ghost var start := list.View();
    n := 0;
    StepsNone(start, ops[..0]);
    while n < |ops|
      invariant 0 <= n <= |ops| && list.Valid()
      invariant list.View() == Steps(start, ops[..n])
      invariant forall i :: 0 <= i < n ==> !Misplaced(Steps(start, ops[..i]), ops[i])
    {
      assert ops[..n + 1] == ops[..n] + [ops[n]];
      StepsSnoc(start, ops[..n], ops[n]);
      match ops[n] {
        case Add(node) =>
          ghost var slots, head, chain := list.pool[..], list.head, list.chain;
          var r := list.Add(node);
          if r == 0 && node.location == 0 {
            assert Broken(list.pool[..], list.head) by { MisplacedBreaks(slots, head, chain, node); }
            assert Misplaced(Steps(start, ops[..n]), ops[n]) by {
              AddSucceeds(slots, head, chain, Steps(start, ops[..n]), node);
            }
            return n + 1, false;
          }
        case Remove(loc) => var _ := list.Remove(loc);
        case Find(loc) => var _, _ := list.Find(loc); FindKeeps(list.View(), loc);
        case Sync(src, dst) => var _ := list.Sync(src, dst);
        case Tick => list.Tick();
      }
      n := n + 1;
    }
    assert ops[..n] == ops;
    intact := true;
  }

  lemma MisplacedBreaks(slots: seq<Slot>, head: int, chain: seq<int>, n: Node)
    requires Linked(slots, head, chain) && n.location == 0 && RawAdd(slots, head, n).2 == 0
    ensures Broken(RawAdd(slots, head, n).0, RawAdd(slots, head, n).1)
  {
    AddKeepsListIffLocated(slots, head, chain, n);
  }

  lemma AddSucceeds(slots: seq<Slot>, head: int, chain: seq<int>, d: Display, n: Node)
    requires Linked(slots, head, chain) && |slots| == POOL && |d.nodes| == |chain|
    ensures RawAdd(slots, head, n).2 == 0 <==> Succeeds(d, Op.Add(n))
  {
    FreeSlotIffRoom(slots, head, chain);
  }

  lemma FindKeeps(d: Display, loc: word)
    ensures Step(d, Op.Find(loc)) == d
  {
  }

  /** No operation, and so no run, ever changes an attribute byte. */
  lemma {:induction false} AttributesStay(d: Display, ops: seq<Op>, b: nat)
    requires b < |d.video| && b % 2 == 1
    ensures |Steps(d, ops).video| == |d.video| && Steps(d, ops).video[b] == d.video[b]
    decreases |ops|
  {
    hide Expires, TickNode, PokeExpired, Succeeds;
    if ops != [] {
      if ops[0].Tick? { UnpokedByte(d.nodes, d.video, b); }
      AttributesStay(Step(d, ops[0]), ops[1..], b);
    }
  }

  // ---------------------------------------------------------------- following one node

  /** `op` removes the i-th node or overwrites its timing. */
  predicate Touches(d: Display, op: Op, i: nat) {
    match op
    case Remove(loc) => First(d.nodes, loc) == i
    case Sync(_, dst) => Succeeds(d, op) && First(d.nodes, dst) == i
    case _ => false
  }

  /** That is: it removes from its location, or syncs to it, and the node is the newest there. */
  lemma TouchesMeans(d: Display, op: Op, i: nat)
    requires i < |d.nodes|
    ensures Touches(d, op, i) <==>
              || (op.Remove? && Newest(d.nodes, op.loc, i))
              || (op.Sync? && Occupied(d.nodes, op.src) && Newest(d.nodes, op.dst, i))
  {
    if op.Remove? {
      if Newest(d.nodes, op.loc, i) { FirstUnique(d.nodes, op.loc, i); }
    } else if op.Sync? {
      FirstIffOccupied(d.nodes, op.src);
      if Newest(d.nodes, op.dst, i) { FirstUnique(d.nodes, op.dst, i); }
    }
  }

  /** Where the i-th node stands after `op`. */
  function Moved(d: Display, op: Op, i: nat): nat {
    if op.Add? && Succeeds(d, op) then i + 1
    else if op.Remove? && First(d.nodes, op.loc) < i then i - 1
    else i
  }

  predicate Untouched(d: Display, ops: seq<Op>, i: nat)
    decreases |ops|
  {
    ops == [] || (!Touches(d, ops[0], i) && Untouched(Step(d, ops[0]), ops[1..], Moved(d, ops[0], i)))
  }

  function MovedBy(d: Display, ops: seq<Op>, i: nat): nat
    decreases |ops|
  {
    if ops == [] then i else MovedBy(Step(d, ops[0]), ops[1..], Moved(d, ops[0], i))
  }

  function Ticks(ops: seq<Op>): nat {
    if ops == [] then 0 else (if ops[0].Tick? then 1 else 0) + Ticks(ops[1..])
  }

  lemma NodeAfterStep(d: Display, op: Op, i: nat)
    requires i < |d.nodes| && !Touches(d, op, i)
    ensures Moved(d, op, i) < |Step(d, op).nodes|
    ensures Step(d, op).nodes[Moved(d, op, i)] == if op.Tick? then TickNode(d.nodes[i]) else d.nodes[i]
  {
    hide First, TickNode, Expires, PokeExpired, Poke;
  }

  lemma {:induction false} TickFirst(n: Node, k: nat)
    ensures TickTimes(TickNode(n), k) == TickTimes(n, k + 1)
  {
    if k > 0 {
      TickFirst(n, k - 1);
    }
  }

  /** Whatever happens to other nodes, a node that no remove or sync touches is exactly its old self
      advanced by the ticks of the run. */
  lemma {:induction false} NodeAfterRun(d: Display, ops: seq<Op>, i: nat)
    requires i < |d.nodes| && Untouched(d, ops, i)
    ensures MovedBy(d, ops, i) < |Steps(d, ops).nodes|
    ensures Steps(d, ops).nodes[MovedBy(d, ops, i)] == TickTimes(d.nodes[i], Ticks(ops))
    decreases |ops|
  {
    hide Step, TickNode, Moved, Touches;
    if ops != [] {
      NodeAfterStep(d, ops[0], i);
      NodeAfterRun(Step(d, ops[0]), ops[1..], Moved(d, ops[0], i));
      TickFirst(d.nodes[i], Ticks(ops[1..]));
    }
  }

  /** From its add on, a node's blink phase is the number of ticks modulo its period. */
  lemma AddedNodeBlinks(d: Display, n: Node, ops: seq<Op>)
    requires Succeeds(d, Op.Add(n))
    requires Untouched(Step(d, Op.Add(n)), ops, 0)
    ensures var start := Step(d, Op.Add(n));
            var at := MovedBy(start, ops, 0);
            && at < |Steps(start, ops).nodes|
            && AtPhase(Steps(start, ops).nodes[at], n.onLength, n.offLength, Ticks(ops) % Period(n))
  {
    hide AtPhase, TickNode, Period;
    NodeAfterRun(Step(d, Op.Add(n)), ops, 0);
    BlinkClosedForm(n, Ticks(ops));
  }

  ghost predicate SameTiming(a: Node, b: Node) {
    a.onLength == b.onLength && a.offLength == b.offLength && a.countdown == b.countdown && a.status == b.status
  }

  lemma {:induction false} TicksKeepSameTiming(a: Node, b: Node, k: nat)
    requires SameTiming(a, b)
    ensures SameTiming(TickTimes(a, k), TickTimes(b, k))
  {
    if k > 0 {
      TicksKeepSameTiming(a, b, k - 1);
    }
  }

  /** A node synced to another stays in step with it until a sync or a remove touches either. */
  lemma SyncedNodesStayInStep(d: Display, src: word, dst: word, ops: seq<Op>)
    requires Succeeds(d, Op.Sync(src, dst))
    requires Untouched(Step(d, Op.Sync(src, dst)), ops, First(d.nodes, src))
    requires Untouched(Step(d, Op.Sync(src, dst)), ops, First(d.nodes, dst))
    ensures var start := Step(d, Op.Sync(src, dst));
            var i, j := MovedBy(start, ops, First(d.nodes, src)), MovedBy(start, ops, First(d.nodes, dst));
            && i < |Steps(start, ops).nodes| && j < |Steps(start, ops).nodes|
            && SameTiming(Steps(start, ops).nodes[i], Steps(start, ops).nodes[j])
  {
    var start, i, j := Step(d, Op.Sync(src, dst)), First(d.nodes, src), First(d.nodes, dst);
    assert SameTiming(start.nodes[i], start.nodes[j]);
    hide Step, TickNode, SameTiming, First;
    NodeAfterRun(start, ops, i);
    NodeAfterRun(start, ops, j);
    TicksKeepSameTiming(start.nodes[i], start.nodes[j], Ticks(ops));
  }

  // ---------------------------------------------------------------- what the screen shows

  ghost predicate OnScreen(nodes: seq<Node>) {
    forall i :: 0 <= i < |nodes| ==> 0 < nodes[i].location < POOL
  }

  ghost predicate Apart(nodes: seq<Node>) {
    forall i, j :: 0 <= i < j < |nodes| ==> nodes[i].location != nodes[j].location
  }

  /** Every live node's cell shows its on character when its status bit is set, its off character
      otherwise. */
  ghost predicate Faithful(d: Display) {
    && |d.video| == 2 * POOL && OnScreen(d.nodes) && Apart(d.nodes)
    && forall i :: 0 <= i < |d.nodes| ==> d.video[2 * d.nodes[i].location] == Shown(d.nodes[i])
  }

  /** Adds go to unoccupied non-zero locations, and nothing is synced. */
  ghost predicate Plain(d: Display, op: Op) {
    match op
    case Add(n) => n.location != 0 && (Succeeds(d, op) ==> First(d.nodes, n.location) == |d.nodes|)
    case Sync(_, _) => false
    case _ => true
  }

  ghost predicate PlainRun(d: Display, ops: seq<Op>)
    decreases |ops|
  {
    ops == [] || (Plain(d, ops[0]) && PlainRun(Step(d, ops[0]), ops[1..]))
  }

  /** A tick writes exactly the cells of the nodes that expire. */
  lemma {:induction false} PokedCells(nodes: seq<Node>, video: seq<byte>, loc: word)
    requires |video| == 2 * POOL && OnScreen(nodes) && Apart(nodes) && loc < POOL
    ensures var k := First(nodes, loc);
            PokeExpired(nodes, video)[2 * loc]
            == if k < |nodes| && Expires(nodes[k]) then Shown(TickNode(nodes[k])) else video[2 * loc]
  {
    hide Expires, TickNode;
    if nodes != [] {
      var n, rest := nodes[0], nodes[1..];
      var poked := if Expires(n) then Poke(video, n.location, Shown(TickNode(n))) else video;
      PokedCells(rest, poked, loc);
      if n.location == loc {
        assert forall i :: 0 <= i < |rest| ==> rest[i].location == nodes[i + 1].location != loc;
        FirstUnique(rest, loc, |rest|);
      }
    }
  }

  lemma ShownUntilExpiry(n: Node)
    requires !Expires(n)
    ensures Shown(TickNode(n)) == Shown(n)
  {
  }

  lemma TickFaithful(d: Display)
    requires Faithful(d)
    ensures Faithful(Step(d, Op.Tick))
  {
    hide Expires, PokeExpired, Shown, First;
    var e := Step(d, Op.Tick);
    TickKeepsLocations(d.nodes);
    assert forall i :: 0 <= i < |d.nodes| ==> e.nodes[i].location == d.nodes[i].location;
    forall i | 0 <= i < |d.nodes| ensures e.video[2 * e.nodes[i].location] == Shown(e.nodes[i]) {
      var n := d.nodes[i];
      FirstUnique(d.nodes, n.location, i);
      PokedCells(d.nodes, d.video, n.location);
      if !Expires(n) { ShownUntilExpiry(n); }
    }
  }

  lemma TickKeepsLocations(nodes: seq<Node>)
    ensures forall i :: 0 <= i < |nodes| ==> Ticked(nodes)[i].location == nodes[i].location
  {
  }

  lemma AddFaithful(d: Display, n: Node)
    requires Faithful(d) && Plain(d, Op.Add(n)) && Succeeds(d, Op.Add(n))
    ensures Faithful(Step(d, Op.Add(n)))
  {
    hide Ticked, PokeExpired;
    var e := Step(d, Op.Add(n));
    assert forall i :: 0 < i < |e.nodes| ==> e.nodes[i] == d.nodes[i - 1];
    forall i | 0 <= i < |e.nodes| ensures e.video[2 * e.nodes[i].location] == Shown(e.nodes[i]) {
      if i > 0 { assert e.nodes[i].location != n.location; }
    }
  }

  lemma RemoveFaithful(d: Display, loc: word)
    requires Faithful(d) && Succeeds(d, Op.Remove(loc))
    ensures Faithful(Step(d, Op.Remove(loc)))
  {
    hide Ticked, PokeExpired, Poke, Without, Shown;
    var e, k := Step(d, Op.Remove(loc)), First(d.nodes, loc);
    assert forall i :: 0 <= i < |e.nodes| ==> e.nodes[i] == d.nodes[if i < k then i else i + 1];
  }

  lemma PlainStepFaithful(d: Display, op: Op)
    requires Faithful(d) && Plain(d, op)
    ensures Faithful(Step(d, op))
  {
    hide Faithful, Ticked, PokeExpired, Poke, Without, First;
    if op.Tick? {
      TickFaithful(d);
    } else if op.Add? && Succeeds(d, op) {
      AddFaithful(d, op.n);
    } else if op.Remove? && Succeeds(d, op) {
      RemoveFaithful(d, op.loc);
    }
  }

  /** With live locations apart and no sync, the screen is faithful after any run. */
  lemma {:induction false} PlainRunFaithful(d: Display, ops: seq<Op>)
    requires Faithful(d) && PlainRun(d, ops)
    ensures Faithful(Steps(d, ops))
    decreases |ops|
  {
    if ops != [] {
      PlainStepFaithful(d, ops[0]);
      PlainRunFaithful(Step(d, ops[0]), ops[1..]);
    }
  }

  /** A sync leaves the screen faithful exactly when the copied status is off, or the node looks the
      same in both states. */
  lemma SyncFaithfulIff(d: Display, src: word, dst: word)
    requires Faithful(d) && Succeeds(d, Op.Sync(src, dst))
    ensures var from, to := d.nodes[First(d.nodes, src)], d.nodes[First(d.nodes, dst)];
            Faithful(Step(d, Op.Sync(src, dst))) <==> from.status % 2 == 0 || to.onChar == to.offChar
  {
    hide Ticked, PokeExpired;
    var e, j := Step(d, Op.Sync(src, dst)), First(d.nodes, dst);
    assert forall i :: 0 <= i < |e.nodes| ==> e.nodes[i].location == d.nodes[i].location;
    assert e.video[2 * e.nodes[j].location] == d.nodes[j].offChar;
    assert forall i :: 0 <= i < |e.nodes| && i != j ==>
        e.nodes[i] == d.nodes[i] && e.video[2 * e.nodes[i].location] == d.video[2 * d.nodes[i].location];
  }
}
