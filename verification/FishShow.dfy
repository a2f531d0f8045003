/** The animation end to end: the two frame files, loaded and ticked, alternate on the screen. */
module FishShow {
  import opened Bytes
  import opened Blink
  import opened BlinkList
  import opened BlinkRuns
  import opened Fish

  function NodeOf(q: Request): Node {
    Node(q.location, q.onChar, q.offChar, LENGTH, LENGTH, 0, 0)
  }

  function AddOps(reqs: seq<Request>): (ops: seq<Op>)
    ensures |ops| == |reqs|
    ensures forall i :: 0 <= i < |reqs| ==> ops[i] == Op.Add(NodeOf(reqs[i]))
  {
    seq(|reqs|, i requires 0 <= i < |reqs| => Op.Add(NodeOf(reqs[i])))
  }

  function TickOps(k: nat): (ops: seq<Op>)
    ensures |ops| == k
    ensures forall i :: 0 <= i < k ==> ops[i] == Op.Tick
  {
    seq(k, i => Op.Tick)
  }

  /** The requests the list accepts: those that name a cell of the screen, as long as there is room. */
  function Accepted(reqs: seq<Request>, room: nat := POOL): (r: seq<Request>)
    ensures |r| <= room
    ensures forall i :: 0 <= i < |r| ==> r[i].location < POOL
  {
    if reqs == [] || room == 0 then []
    else if reqs[0].location < POOL then [reqs[0]] + Accepted(reqs[1..], room - 1)
    else Accepted(reqs[1..], room)
  }

  lemma AcceptedStep(d: Display, reqs: seq<Request>)
    requires |d.nodes| <= POOL && reqs != []
    ensures var q, room, next := reqs[0], POOL - |d.nodes|, Step(d, Op.Add(NodeOf(reqs[0])));
            && |next.nodes| <= POOL
            && if q.location < POOL && room > 0
               then Accepted(reqs, room) == [q] + Accepted(reqs[1..], POOL - |next.nodes|)
               else next == d && Accepted(reqs, room) == Accepted(reqs[1..], room)
  {
    hide Poke;
  }

  lemma {:induction false} RefusedAddsChangeNothing(d: Display, reqs: seq<Request>)
    requires |d.nodes| <= POOL
    ensures Steps(d, AddOps(reqs)) == Steps(d, AddOps(Accepted(reqs, POOL - |d.nodes|)))
    decreases |reqs|
  {
    hide AddOps, Step, Accepted;
    var shown := Accepted(reqs, POOL - |d.nodes|);
    if reqs == [] {
      assert shown == [] by { NoneAccepted(POOL - |d.nodes|); }
    } else {
      var q, rest := reqs[0], reqs[1..];
      AcceptedStep(d, reqs);
      assert AddOps(reqs)[1..] == AddOps(rest);
      RefusedAddsChangeNothing(Step(d, Op.Add(NodeOf(q))), rest);
      if q.location < POOL && |d.nodes| < POOL {
        assert shown[1..] == Accepted(rest, POOL - |Step(d, Op.Add(NodeOf(q))).nodes|);
        assert AddOps(shown)[1..] == AddOps(shown[1..]);
      }
    }
  }

  lemma NoneAccepted(room: nat)
    ensures Accepted([], room) == []
  {
  }

  lemma {:induction false} LocatedStep(d: Display, ops: seq<Op>)
    requires ops != []
    ensures Located(d, ops) <==> !Misplaced(d, ops[0]) && Located(Step(d, ops[0]), ops[1..])
  {
    hide Step, Misplaced;
    var e, rest := Step(d, ops[0]), ops[1..];
    StepsNone(d, ops[..0]);
    forall i | 0 <= i < |rest| ensures Steps(d, ops[..i + 1]) == Steps(e, rest[..i]) {
      assert ops[..i + 1][1..] == rest[..i] && ops[..i + 1][0] == ops[0];
    }
    if Located(d, ops) {
      forall i | 0 <= i < |rest| ensures !Misplaced(Steps(e, rest[..i]), rest[i]) {
        assert !Misplaced(Steps(d, ops[..i + 1]), ops[i + 1]);
      }
    }
    if !Misplaced(d, ops[0]) && Located(e, rest) {
      forall i | 0 <= i < |ops| ensures !Misplaced(Steps(d, ops[..i]), ops[i]) {
        if i > 0 { assert !Misplaced(Steps(e, rest[..i - 1]), rest[i - 1]); }
      }
    }
  }

  /** Loading keeps the list well formed exactly when no accepted request names cell 0. */
  lemma {:induction false} LoadingKeepsListIff(d: Display, reqs: seq<Request>)
    requires |d.nodes| <= POOL
    ensures Located(d, AddOps(reqs))
            <==> forall q :: q in Accepted(reqs, POOL - |d.nodes|) ==> q.location != 0
    decreases |reqs|
  {
    hide AddOps, Step, Steps, Accepted;
    if reqs == [] {
      NoneAccepted(POOL - |d.nodes|);
    } else {
      var q, rest := reqs[0], reqs[1..];
      AcceptedStep(d, reqs);
      assert AddOps(reqs)[1..] == AddOps(rest);
      LocatedStep(d, AddOps(reqs));
      LoadingKeepsListIff(Step(d, Op.Add(NodeOf(q))), rest);
    }
  }

  // ---------------------------------------------------------------- loading

  /** Requests that are all accepted. */
  ghost predicate Loadable(reqs: seq<Request>) {
    |reqs| <= POOL && forall i :: 0 <= i < |reqs| ==> reqs[i].location < POOL
  }

  /** The first request for a cell, or the number of requests. */
  function FirstAt(reqs: seq<Request>, loc: word): (i: nat)
    ensures i <= |reqs| && (i < |reqs| ==> reqs[i].location == loc)
    ensures forall j :: 0 <= j < i ==> reqs[j].location != loc
  {
    if reqs == [] || reqs[0].location == loc then 0 else 1 + FirstAt(reqs[1..], loc)
  }

  /** The last request for a cell, or -1. */
  function LastAt(reqs: seq<Request>, loc: word): (i: int)
    ensures -1 <= i < |reqs| && (i >= 0 ==> reqs[i].location == loc)
    ensures forall j :: i < j < |reqs| ==> reqs[j].location != loc
  {
    if reqs == [] then -1
    else if reqs[|reqs| - 1].location == loc then |reqs| - 1
    else LastAt(reqs[..|reqs| - 1], loc)
  }

  /** The display once the requests are added. */
  function Loaded(video: seq<byte>, reqs: seq<Request>): Display {
    Steps(Display([], video), AddOps(reqs))
  }

  /** Loading puts every request on the list, last one first, and shows the last one of each cell. */
  lemma {:induction false} AddAll(video: seq<byte>, reqs: seq<Request>)
    requires |video| == 2 * POOL && Loadable(reqs)
    ensures var e := Loaded(video, reqs);
            && |e.nodes| == |reqs| && |e.video| == 2 * POOL
            && (forall i :: 0 <= i < |reqs| ==> e.nodes[i] == Fresh(NodeOf(reqs[|reqs| - 1 - i])))
            && (forall loc: word :: loc < POOL && LastAt(reqs, loc) >= 0 ==>
                  e.video[2 * loc] == reqs[LastAt(reqs, loc)].onChar)
    decreases |reqs|
  {
    hide AddOps, Steps;
    if reqs == [] {
      StepsNone(Display([], video), AddOps(reqs));
      return;
    }
    var init, q := reqs[..|reqs| - 1], reqs[|reqs| - 1];
    AddAll(video, init);
    var d, e := Loaded(video, init), Loaded(video, reqs);
    assert AddOps(reqs) == AddOps(init) + [Op.Add(NodeOf(q))];
    StepsSnoc(Display([], video), AddOps(init), Op.Add(NodeOf(q)));
    assert e.nodes == [Fresh(NodeOf(q))] + d.nodes;
    forall i | 0 <= i < |reqs| ensures e.nodes[i] == Fresh(NodeOf(reqs[|reqs| - 1 - i])) {
      assert i > 0 ==> e.nodes[i] == d.nodes[i - 1];
    }
  }

  // ---------------------------------------------------------------- ticking

  lemma {:induction false} TicksKeepLook(n: Node, k: nat)
    ensures var m := TickTimes(n, k);
            m.location == n.location && m.onChar == n.onChar && m.offChar == n.offChar
  {
    if k > 0 {
      TicksKeepLook(n, k - 1);
    }
  }

  /** A cell where no node expires keeps its character. */
  lemma {:induction false} NotPoked(nodes: seq<Node>, video: seq<byte>, loc: word)
    requires |video| == 2 * POOL && loc < POOL
    requires forall i :: 0 <= i < |nodes| ==> nodes[i].location < POOL
    requires forall i :: 0 <= i < |nodes| ==> nodes[i].location != loc || !Expires(nodes[i])
    ensures PokeExpired(nodes, video)[2 * loc] == video[2 * loc]
  {
    hide Expires, TickNode;
    if nodes != [] {
      var n := nodes[0];
      NotPoked(nodes[1..], if Expires(n) then Poke(video, n.location, Shown(TickNode(n))) else video, loc);
    }
  }

  /** A cell shows the last of its expiring nodes, in list order. */
  lemma {:induction false} LastPoke(nodes: seq<Node>, video: seq<byte>, j: nat)
    requires |video| == 2 * POOL && j < |nodes| && Expires(nodes[j])
    requires forall i :: 0 <= i < |nodes| ==> nodes[i].location < POOL
    requires forall i :: j < i < |nodes| ==> nodes[i].location != nodes[j].location
    ensures PokeExpired(nodes, video)[2 * nodes[j].location] == Shown(TickNode(nodes[j]))
    decreases j
  {
    hide Expires, TickNode, Shown;
    var n, rest := nodes[0], nodes[1..];
    var poked := if Expires(n) then Poke(video, n.location, Shown(TickNode(n))) else video;
    if j == 0 {
      NotPoked(rest, poked, n.location);
    } else {
      LastPoke(rest, poked, j - 1);
    }
  }

  /** The display k ticks after loading. */
  function Animated(video: seq<byte>, reqs: seq<Request>, k: nat): Display {
    Steps(Loaded(video, reqs), TickOps(k))
  }

  lemma AnimatedStep(video: seq<byte>, reqs: seq<Request>, k: nat)
    ensures Animated(video, reqs, k + 1) == Step(Animated(video, reqs, k), Op.Tick)
  {
    assert TickOps(k + 1) == TickOps(k) + [Op.Tick];
    StepsSnoc(Loaded(video, reqs), TickOps(k), Op.Tick);
  }

  lemma {:induction false} TickAll(video: seq<byte>, reqs: seq<Request>, k: nat)
    requires |video| == 2 * POOL && Loadable(reqs)
    ensures var e := Animated(video, reqs, k);
            && |e.nodes| == |reqs| && |e.video| == 2 * POOL
            && forall i :: 0 <= i < |reqs| ==> e.nodes[i] == TickTimes(Fresh(NodeOf(reqs[|reqs| - 1 - i])), k)
  {
    hide Loaded, Steps, TickNode, Expires, PokeExpired;
    if k == 0 {
      AddAll(video, reqs);
      StepsNone(Loaded(video, reqs), TickOps(0));
    } else {
      hide Animated;
      TickAll(video, reqs, k - 1);
      AnimatedStep(video, reqs, k - 1);
    }
  }

  /** A loaded node flips on every 15th tick and on no other. */
  lemma ExpiryAndLook(q: Request, k: nat)
    ensures k < LENGTH - 1 ==> !Expires(TickTimes(Fresh(NodeOf(q)), k))
    ensures k == LENGTH - 1 ==> Expires(TickTimes(Fresh(NodeOf(q)), k))
    ensures Shown(TickTimes(Fresh(NodeOf(q)), k)) == if k % 30 < LENGTH then q.onChar else q.offChar
  {
    hide TickTimes, TickNode;
    BlinkClosedForm(NodeOf(q), k);
    TicksKeepLook(Fresh(NodeOf(q)), k);
  }

  /** All loaded nodes are in step. */
  lemma {:induction false} SameExpiry(q: Request, p: Request, k: nat)
    ensures Expires(TickTimes(Fresh(NodeOf(q)), k)) <==> Expires(TickTimes(Fresh(NodeOf(p)), k))
  {
    hide TickNode, TickTimes;
    TicksKeepSameTiming(Fresh(NodeOf(q)), Fresh(NodeOf(p)), k);
  }

  /** What a cell shows k ticks after loading: until the first flip the on character of its last request,
      and from then on the character of its first request that the phase calls for. */
  lemma {:induction false} CellShows(video: seq<byte>, reqs: seq<Request>, k: nat, loc: word)
    requires |video| == 2 * POOL && Loadable(reqs) && loc < POOL && FirstAt(reqs, loc) < |reqs|
    ensures LastAt(reqs, loc) >= 0 && |Animated(video, reqs, k).video| == 2 * POOL
    ensures var first, last := reqs[FirstAt(reqs, loc)], reqs[LastAt(reqs, loc)];
            Animated(video, reqs, k).video[2 * loc]
            == if k < LENGTH then last.onChar else if k % 30 < LENGTH then first.onChar else first.offChar
    decreases k
  {
    hide Loaded, Steps, TickTimes, TickNode, Expires, PokeExpired, Shown;
    TickAll(video, reqs, k);
    if k == 0 {
      AddAll(video, reqs);
      StepsNone(Loaded(video, reqs), TickOps(0));
    } else {
      hide Animated;
      CellShows(video, reqs, k - 1, loc);
      AnimatedStep(video, reqs, k - 1);
      TickAll(video, reqs, k - 1);
      CellTick(video, reqs, k - 1, loc);
    }
  }

  /** One more tick, in one cell. */
  lemma CellTick(video: seq<byte>, reqs: seq<Request>, k: nat, loc: word)
    requires |video| == 2 * POOL && Loadable(reqs) && loc < POOL && FirstAt(reqs, loc) < |reqs|
    requires var d := Animated(video, reqs, k);
             && |d.nodes| == |reqs| && |d.video| == 2 * POOL
             && forall i :: 0 <= i < |reqs| ==> d.nodes[i] == TickTimes(Fresh(NodeOf(reqs[|reqs| - 1 - i])), k)
    requires LastAt(reqs, loc) >= 0
    requires var first, last := reqs[FirstAt(reqs, loc)], reqs[LastAt(reqs, loc)];
             Animated(video, reqs, k).video[2 * loc]
             == if k < LENGTH then last.onChar else if k % 30 < LENGTH then first.onChar else first.offChar
    ensures var first, last := reqs[FirstAt(reqs, loc)], reqs[LastAt(reqs, loc)];
            var d := Animated(video, reqs, k);
            PokeExpired(d.nodes, d.video)[2 * loc]
            == if k + 1 < LENGTH then last.onChar else if (k + 1) % 30 < LENGTH then first.onChar else first.offChar
  {
    hide Loaded, Steps, TickTimes, TickNode, Expires, PokeExpired, Shown, Animated;
    var d, f := Animated(video, reqs, k), FirstAt(reqs, loc);
    var j, q := |reqs| - 1 - f, reqs[f];
    var n := TickTimes(Fresh(NodeOf(q)), k);
    forall i | 0 <= i < |reqs|
      ensures d.nodes[i].location == reqs[|reqs| - 1 - i].location && (Expires(d.nodes[i]) <==> Expires(n))
    {
      TicksKeepLook(Fresh(NodeOf(reqs[|reqs| - 1 - i])), k);
      SameExpiry(reqs[|reqs| - 1 - i], q, k);
    }
    ExpiryAndLook(q, k);
    ExpiryAndLook(q, k + 1);
    assert TickTimes(Fresh(NodeOf(q)), k + 1) == TickNode(n) by { OneMoreTick(Fresh(NodeOf(q)), k); }
    if Expires(n) {
      LastPoke(d.nodes, d.video, j);
    } else {
      NotPoked(d.nodes, d.video, loc);
      ShownUntilExpiry(n);
    }
  }

  lemma OneMoreTick(n: Node, k: nat)
    ensures TickTimes(n, k + 1) == TickNode(TickTimes(n, k))
  {
  }

  /** A cell that no request names keeps its character. */
  lemma {:induction false} UnusedLoaded(video: seq<byte>, reqs: seq<Request>, loc: word)
    requires |video| == 2 * POOL && Loadable(reqs) && loc < POOL && FirstAt(reqs, loc) == |reqs|
    ensures |Loaded(video, reqs).video| == 2 * POOL
    ensures Loaded(video, reqs).video[2 * loc] == video[2 * loc]
    decreases |reqs|
  {
    hide AddOps, Steps;
    AddAll(video, reqs);
    if reqs == [] {
      StepsNone(Display([], video), AddOps(reqs));
    } else {
      var init, q := reqs[..|reqs| - 1], reqs[|reqs| - 1];
      UnusedLoaded(video, init, loc);
      AddAll(video, init);
      assert AddOps(reqs) == AddOps(init) + [Op.Add(NodeOf(q))];
      StepsSnoc(Display([], video), AddOps(init), Op.Add(NodeOf(q)));
    }
  }

  lemma {:induction false} UnusedCell(video: seq<byte>, reqs: seq<Request>, k: nat, loc: word)
    requires |video| == 2 * POOL && Loadable(reqs) && loc < POOL && FirstAt(reqs, loc) == |reqs|
    ensures |Animated(video, reqs, k).video| == 2 * POOL
    ensures Animated(video, reqs, k).video[2 * loc] == video[2 * loc]
  {
    hide Loaded, Steps, TickTimes, TickNode, Expires, PokeExpired, Shown;
    if k == 0 {
      UnusedLoaded(video, reqs, loc);
      StepsNone(Loaded(video, reqs), TickOps(0));
    } else {
      hide Animated;
      UnusedCell(video, reqs, k - 1, loc);
      AnimatedStep(video, reqs, k - 1);
      TickAll(video, reqs, k - 1);
      var d := Animated(video, reqs, k - 1);
      forall i | 0 <= i < |reqs| ensures d.nodes[i].location == reqs[|reqs| - 1 - i].location {
        TicksKeepLook(Fresh(NodeOf(reqs[|reqs| - 1 - i])), k - 1);
      }
      NotPoked(d.nodes, d.video, loc);
      TickAll(video, reqs, k);
    }
  }

  // ---------------------------------------------------------------- the two files

  /** The screen k ticks after loading two frame files. */
  function FrameAt(f0: seq<byte>, f1: seq<byte>, video: seq<byte>, k: nat): seq<byte> {
    Steps(Steps(Display([], video), AddOps(Overlay(Lines(f0), Lines(f1), 0))), TickOps(k)).video
  }

  /** The requests of two files that reach the list. */
  function ShownOf(f0: seq<byte>, f1: seq<byte>): (shown: seq<Request>)
    ensures Loadable(shown)
  {
    Accepted(Overlay(Lines(f0), Lines(f1), 0))
  }

  /** Any two frame files, at any time: every cell that their overlay uses shows what CellShows says,
      whatever the requests that leave the screen or find the pool full and however often a cell is used,
      and every other cell is untouched. */
  lemma FramesShow(f0: seq<byte>, f1: seq<byte>, video: seq<byte>, k: nat, loc: word)
    requires |video| == 2 * POOL && loc < POOL
    ensures var shown, end := ShownOf(f0, f1), FrameAt(f0, f1, video, k);
            var f, l := FirstAt(shown, loc), LastAt(shown, loc);
            && |end| == 2 * POOL && (f < |shown| <==> l >= 0)
            && end[2 * loc]
               == if f == |shown| then video[2 * loc]
                  else if k < LENGTH then shown[l].onChar
                  else if k % 30 < LENGTH then shown[f].onChar
                  else shown[f].offChar
  {
    var shown := ShownOf(f0, f1);
    FirstAndLast(shown, loc);
    hide Overlay, Lines, Steps, AddOps, TickOps, Accepted, FirstAt, LastAt;
    RefusedAddsChangeNothing(Display([], video), Overlay(Lines(f0), Lines(f1), 0));
    if FirstAt(shown, loc) < |shown| {
      CellShows(video, shown, k, loc);
    } else {
      UnusedCell(video, shown, k, loc);
    }
  }

  lemma FirstAndLast(reqs: seq<Request>, loc: word)
    ensures FirstAt(reqs, loc) < |reqs| <==> LastAt(reqs, loc) >= 0
  {
    var f, l := FirstAt(reqs, loc), LastAt(reqs, loc);
    assert f < |reqs| ==> reqs[f].location == loc;
    assert l >= 0 ==> reqs[l].location == loc;
  }

  /** Request i shows its first character in the first half of every 30-tick period and the other one in
      the second half. */
  ghost predicate Alternates(f0: seq<byte>, f1: seq<byte>, video: seq<byte>, i: nat)
    requires |video| == 2 * POOL && i < |ShownOf(f0, f1)|
  {
    var q := ShownOf(f0, f1)[i];
    forall k: nat :: 2 * q.location < |FrameAt(f0, f1, video, k)| && FrameAt(f0, f1, video, k)[2 * q.location]
                     == if k % 30 < LENGTH then q.onChar else q.offChar
  }

  /** It does if and only if the last request of its cell has its first character, and the first request
      both of its characters. */
  lemma AlternatesIff(f0: seq<byte>, f1: seq<byte>, video: seq<byte>, i: nat)
    requires |video| == 2 * POOL && i < |ShownOf(f0, f1)|
    ensures var shown := ShownOf(f0, f1);
            var q := shown[i];
            var f, l := FirstAt(shown, q.location), LastAt(shown, q.location);
            && 0 <= f <= i <= l < |shown|
            && (Alternates(f0, f1, video, i) <==>
                  shown[l].onChar == q.onChar && shown[f].onChar == q.onChar && shown[f].offChar == q.offChar)
  {
    hide FrameAt, ShownOf, FirstAt, LastAt;
    var shown := ShownOf(f0, f1);
    var q := shown[i];
    forall k: nat {
      FramesShow(f0, f1, video, k, q.location);
    }
    if Alternates(f0, f1, video, i) {
      AtTicks(f0, f1, video, i, 0);
      AtTicks(f0, f1, video, i, LENGTH);
      AtTicks(f0, f1, video, i, 30);
    }
  }

  lemma AtTicks(f0: seq<byte>, f1: seq<byte>, video: seq<byte>, i: nat, k: nat)
    requires |video| == 2 * POOL && i < |ShownOf(f0, f1)| && Alternates(f0, f1, video, i)
    ensures var q := ShownOf(f0, f1)[i];
            && 2 * q.location < |FrameAt(f0, f1, video, k)|
            && FrameAt(f0, f1, video, k)[2 * q.location] == if k % 30 < LENGTH then q.onChar else q.offChar
  {
    hide FrameAt, ShownOf;
  }

  ghost predicate AllAlternate(f0: seq<byte>, f1: seq<byte>, video: seq<byte>)
    requires |video| == 2 * POOL
  {
    forall i :: 0 <= i < |ShownOf(f0, f1)| ==> Alternates(f0, f1, video, i)
  }

  /** All requests alternate if and only if any two on one cell have the same characters. */
  lemma FramesAlternateIff(f0: seq<byte>, f1: seq<byte>, video: seq<byte>)
    requires |video| == 2 * POOL
    ensures AllAlternate(f0, f1, video) <==> Agree(ShownOf(f0, f1))
  {
    hide FrameAt, ShownOf, Alternates, FirstAt, LastAt;
    var shown := ShownOf(f0, f1);
    forall i | 0 <= i < |shown| {
      AlternatesIff(f0, f1, video, i);
    }
    if forall i :: 0 <= i < |shown| ==> Alternates(f0, f1, video, i) {
      forall i, j | 0 <= i < j < |shown| && shown[i].location == shown[j].location
        ensures shown[i] == shown[j]
      {
        AlternatesIff(f0, f1, video, i);
        AlternatesIff(f0, f1, video, j);
      }
    }
  }

  /** Requests on one cell are the same. */
  ghost predicate Agree(reqs: seq<Request>) {
    forall i, j :: 0 <= i < j < |reqs| && reqs[i].location == reqs[j].location ==> reqs[i] == reqs[j]
  }

  /** The two files on the list in memory, from the merge to the k-th tick. The screen is as FramesShow says
      if and only if no accepted request names cell 0; otherwise no chain describes the pool any more. */
  method Show(list: List, f0: seq<byte>, f1: seq<byte>, k: nat) returns (intact: bool)
    requires list.Valid() && list.View().nodes == []
    modifies list, list.pool, list.video
    ensures intact <==> forall q :: q in ShownOf(f0, f1) ==> q.location != 0
    ensures intact ==> list.Valid() && list.video[..] == FrameAt(f0, f1, old(list.video[..]), k)
    ensures !intact ==> Broken(list.pool[..], list.head)
  {
    hide Overlay, Lines, Steps, AddOps, TickOps, Accepted, Located, Linked, Broken;
    ghost var start := list.View();
    var reqs := AddFrames(f0, f1);
    var n;
    n, intact := BlinkRuns.Run(list, AddOps(reqs) + TickOps(k));
    StepsConcat(start, AddOps(reqs), TickOps(k));
    LocatedConcat(start, AddOps(reqs), TickOps(k));
    LoadingKeepsListIff(start, reqs);
  }

  lemma {:induction false} StepsConcat(d: Display, a: seq<Op>, b: seq<Op>)
    ensures Steps(d, a + b) == Steps(Steps(d, a), b)
    decreases |a|
  {
    hide Step;
    if a == [] {
      assert a + b == b;
    } else {
      assert (a + b)[0] == a[0] && (a + b)[1..] == a[1..] + b;
      StepsConcat(Step(d, a[0]), a[1..], b);
    }
  }

  /** Ticks add nothing. */
  lemma LocatedConcat(d: Display, a: seq<Op>, b: seq<Op>)
    requires forall i :: 0 <= i < |b| ==> b[i].Tick?
    ensures Located(d, a + b) <==> Located(d, a)
  {
    hide Steps;
    var all := a + b;
    assert forall i :: 0 <= i < |a| ==> all[..i] == a[..i] && all[i] == a[i];
    assert forall i :: |a| <= i < |all| ==> all[i].Tick?;
    if Located(d, all) {
      forall i | 0 <= i < |a| ensures !Misplaced(Steps(d, a[..i]), a[i]) {
        assert !Misplaced(Steps(d, all[..i]), all[i]);
      }
    }
  }

  // ---------------------------------------------------------------- frames that fit

  const MAX_ROWS := 818     // more rows would wrap the 16-bit location

  /** Lines of at most `width` characters, and few enough that no location wraps. */
  predicate FrameShape(lines: seq<seq<byte>>, width: nat) {
    |lines| <= MAX_ROWS && forall i :: 0 <= i < |lines| ==> |lines[i]| <= width
  }

  /** No two requests name one cell. */
  ghost predicate Apart(reqs: seq<Request>) {
    forall i, j :: 0 <= i < j < |reqs| ==> reqs[i].location != reqs[j].location
  }

  /** Locations grow from one request to the next, from `lo` on and below `hi`. */
  ghost predicate Rising(reqs: seq<Request>, lo: int, hi: int) {
    && (forall i :: 0 <= i < |reqs| ==> lo <= reqs[i].location < hi)
    && (forall i, j :: 0 <= i < j < |reqs| ==> reqs[i].location < reqs[j].location)
  }

  lemma RisingConcat(a: seq<Request>, b: seq<Request>, lo: int, mid: int, hi: int)
    requires Rising(a, lo, mid) && Rising(b, mid, hi) && lo <= mid <= hi
    ensures Rising(a + b, lo, hi)
  {
  }

  lemma {:induction false} RowRises(l0: seq<byte>, l1: seq<byte>, row: nat, col: nat)
    requires |l0| <= ROW && |l1| <= ROW && row < MAX_ROWS && col <= ROW
    ensures Rising(RowRequests(l0, l1, row, col), row * ROW + col + OFFSET, (row + 1) * ROW + OFFSET)
    decreases ROW - col
  {
    hide RowRequests, Rising;
    RowStep(l0, l1, row, col);
    var here := row * ROW + col + OFFSET;
    if col < |l0| || col < |l1| {
      RowRises(l0, l1, row, col + 1);
      CellRises(l0, l1, row, col);
      RisingConcat(CellRequest(l0, l1, row, col), RowRequests(l0, l1, row, col + 1),
                   here, here + 1, (row + 1) * ROW + OFFSET);
    } else {
      NothingRises(here, (row + 1) * ROW + OFFSET);
    }
  }

  lemma CellRises(l0: seq<byte>, l1: seq<byte>, row: nat, col: nat)
    requires row < MAX_ROWS && col < ROW
    ensures Rising(CellRequest(l0, l1, row, col), row * ROW + col + OFFSET, row * ROW + col + OFFSET + 1)
  {
    assert row * ROW + col + OFFSET < WORD;
  }

  lemma NothingRises(lo: int, hi: int)
    ensures Rising([], lo, hi)
  {
  }

  lemma {:induction false} OverlayRises(g0: seq<seq<byte>>, g1: seq<seq<byte>>, row: nat)
    requires forall i :: 0 <= i < |g0| ==> |g0[i]| <= ROW
    requires forall i :: 0 <= i < |g1| ==> |g1[i]| <= ROW
    requires row + |g0| <= MAX_ROWS && row + |g1| <= MAX_ROWS
    ensures Rising(Overlay(g0, g1, row), row * ROW + OFFSET, MAX_ROWS * ROW + OFFSET)
    decreases |g0| + |g1|
  {
    hide RowRequests, Rising, Overlay;
    var lo, hi := row * ROW + OFFSET, MAX_ROWS * ROW + OFFSET;
    if g0 == [] && g1 == [] {
      NoOverlay(row);
      NothingRises(lo, hi);
    } else {
      OverlayStep(g0, g1, row);
      RowRises(FirstLine(g0), FirstLine(g1), row, 0);
      OverlayRises(LaterLines(g0), LaterLines(g1), row + 1);
      RisingConcat(RowRequests(FirstLine(g0), FirstLine(g1), row, 0),
                   Overlay(LaterLines(g0), LaterLines(g1), row + 1), lo, lo + ROW, hi);
    }
  }

  lemma {:induction false} RisingRequestsApart(reqs: seq<Request>, lo: int, hi: int, room: nat)
    requires Rising(reqs, lo, hi) && lo > 0
    ensures Apart(Accepted(reqs, room))
    ensures forall q :: q in Accepted(reqs, room) ==> q in reqs
    decreases |reqs|
  {
    if reqs != [] && room > 0 {
      var q, rest := reqs[0], reqs[1..];
      assert forall i :: 0 <= i < |rest| ==> rest[i] == reqs[i + 1];
      var left := if q.location < POOL then room - 1 else room;
      RisingRequestsApart(rest, lo, hi, left);
      var shown := Accepted(rest, left);
      forall i | 0 <= i < |shown| ensures shown[i].location != q.location {
        assert shown[i] in rest;
      }
    }
  }

  lemma NarrowFramesApart(f0: seq<byte>, f1: seq<byte>)
    requires FrameShape(Lines(f0), ROW) && FrameShape(Lines(f1), ROW)
    ensures Apart(ShownOf(f0, f1))
  {
    hide Overlay, Lines, Accepted, Rising, Apart;
    OverlayRises(Lines(f0), Lines(f1), 0);
    RisingRequestsApart(Overlay(Lines(f0), Lines(f1), 0), OFFSET, MAX_ROWS * ROW + OFFSET, POOL);
  }

  /** A line one column wider than the screen: 80 blanks and an A, with a B below. */
  const WIDE: seq<byte> := seq(ROW, _ => SPACE) + [65]
  const WIDE_FRAME: seq<byte> := WIDE + [NEWLINE] + [66]

  lemma WideLines()
    ensures Lines(WIDE_FRAME) == [WIDE, [66]] && Lines([]) == [[]]
  {
    hide Split;
    SplitOfJoin([WIDE, [66]], NEWLINE);
    assert Join([[66]], NEWLINE) == [66];
    assert [WIDE, [66]][1..] == [[66]];
    SplitOfJoin([[]], NEWLINE);
  }

  lemma {:induction false} BlankCells(col: nat)
    requires col <= ROW
    ensures RowRequests(WIDE, [], 0, col) == [Request(ROW + OFFSET, 65, SPACE)]
    decreases ROW - col
  {
    hide RowRequests;
    RowStep(WIDE, [], 0, col);
    if col < ROW {
      BlankCells(col + 1);
    } else {
      RowStep(WIDE, [], 0, ROW + 1);
    }
  }

  /** Its A and the B below share a cell. */
  lemma WideFramesCollide()
    ensures ShownOf(WIDE_FRAME, []) == [Request(ROW + OFFSET, 65, SPACE), Request(ROW + OFFSET, 66, SPACE)]
  {
    hide RowRequests, Lines, Overlay;
    var a, b := Request(ROW + OFFSET, 65, SPACE), Request(ROW + OFFSET, 66, SPACE);
    WideLines();
    var g0, g1: seq<seq<byte>> := [WIDE, [66]], [[]];
    OverlayStep(g0, g1, 0);
    assert LaterLines(g0) == [[66]] && LaterLines(g1) == [];
    BlankCells(0);
    OverlayStep([[66]], [], 1);
    assert LaterLines([[66]]) == [];
    RowStep([66], [], 1, 0);
    RowStep([66], [], 1, 1);
    NoOverlay(2);
    assert Overlay([[66]], [], 1) == [b];
    assert Overlay(Lines(WIDE_FRAME), Lines([]), 0) == [a, b];
    assert [a, b][1..] == [b] && [b][1..] == [];
    NoneAccepted(POOL - 2);
    assert Accepted([b], POOL - 1) == [b];
    assert Accepted([a, b], POOL) == [a, b];
  }

  /** Every request of two files of at most `width` columns and 818 rows alternates. */
  ghost predicate WidthAlternates(width: nat, video: seq<byte>)
    requires |video| == 2 * POOL
  {
    forall f0, f1 :: FrameShape(Lines(f0), width) && FrameShape(Lines(f1), width) ==> AllAlternate(f0, f1, video)
  }

  /** What can be read off the files: it is so if and only if the width is at most the 80 columns of the
      screen, as in the frames of fish. */
  lemma AlternatesIffNarrow(width: nat, video: seq<byte>)
    requires |video| == 2 * POOL
    ensures WidthAlternates(width, video) <==> width <= ROW
  {
    hide Lines, ShownOf, AllAlternate;
    if width <= ROW {
      forall f0, f1 | FrameShape(Lines(f0), width) && FrameShape(Lines(f1), width)
        ensures AllAlternate(f0, f1, video)
      {
        NarrowFramesApart(f0, f1);
        FramesAlternateIff(f0, f1, video);
      }
    } else {
      WideLines();
      WideFramesCollide();
      assert FrameShape(Lines(WIDE_FRAME), width) && FrameShape(Lines([]), width);
      var shown := ShownOf(WIDE_FRAME, []);
      assert shown[0].location == shown[1].location && shown[0] != shown[1];
      FramesAlternateIff(WIDE_FRAME, [], video);
    }
  }
}
