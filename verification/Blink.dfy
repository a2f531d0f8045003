/** The blink list: a singly linked list whose nodes live in a fixed pool of 2000 slots. */
module Blink {
  import opened Bytes
  import opened Arith

  const POOL := 2000        // 80*25 slots, and as many screen cells
  const NIL := -1           // the null pointer; slot i is the pointer i
  const WORD := 0x1_0000

  type word = w: int | 0 <= w < WORD

  /** struct mp1_blink_struct without its link: location 0 marks a free slot. */
  datatype Node = Node(location: word, onChar: byte, offChar: byte, onLength: word, offLength: word,
                       countdown: word, status: word)

  datatype Slot = Slot(node: Node, next: int)

  const FREE := Slot(Node(0, 0, 0, 0, 0, 0, 0), NIL)

  // ---------------------------------------------------------------- one node

  /** `jg` after `cmpw $0`: the 16-bit value is positive as a signed number. */
  predicate SignedPositive(w: word) { 0 < w < 0x8000 }

  function Decremented(w: word): word { if w == 0 then WORD - 1 else w - 1 }

  function Toggled(w: word): word { if w % 2 == 0 then w + 1 else w - 1 }

  /** The node as mp1_ioctl_add stores it: on, with a full countdown. */
  function Fresh(n: Node): Node { n.(status := 1, countdown := n.onLength) }

  predicate Expires(n: Node) { !SignedPositive(Decremented(n.countdown)) }

  function TickNode(n: Node): Node {
    if !Expires(n) then n.(countdown := Decremented(n.countdown))
    else if n.status % 2 == 1 then n.(countdown := n.offLength, status := Toggled(n.status))
    else n.(countdown := n.onLength, status := Toggled(n.status))
  }

  function TickTimes(n: Node, k: nat): Node {
    if k == 0 then n else TickNode(TickTimes(n, k - 1))
  }

  /** The ticks a phase of stored length `w` lasts: a zero length, or one past the signed range,
      expires on the first tick. */
  function Lasts(w: word): (t: nat)
    ensures t >= 1
  {
    if 1 <= w <= 0x8000 then w else 1
  }

  function Period(n: Node): (p: nat)
    ensures p >= 2
  {
    Lasts(n.onLength) + Lasts(n.offLength)
  }

  /** Status and countdown at phase `p` of the blink cycle, in closed form. */
  ghost predicate AtPhase(n: Node, on: word, off: word, p: nat) {
    && n.onLength == on && n.offLength == off
    && if p < Lasts(on) then n.status == 1 && n.countdown == on - p
       else n.status == 0 && n.countdown == off - (p - Lasts(on))
  }

  lemma TickAdvancesPhase(n: Node, on: word, off: word, p: nat)
    requires p < Lasts(on) + Lasts(off) && AtPhase(n, on, off, p)
    ensures AtPhase(TickNode(n), on, off, if p + 1 == Lasts(on) + Lasts(off) then 0 else p + 1)
  {
  }

  /** After k ticks a freshly added node is at phase k modulo its period. */
  lemma {:induction false} BlinkClosedForm(n: Node, k: nat)
    ensures AtPhase(TickTimes(Fresh(n), k), n.onLength, n.offLength, k % Period(n))
  {
    var p := Period(n);
    if k == 0 {
      assert 0 % p == 0;
    } else {
      hide TickNode, AtPhase, Lasts;
      BlinkClosedForm(n, k - 1);
      NextModulo(k - 1, p);
      TickAdvancesPhase(TickTimes(Fresh(n), k - 1), n.onLength, n.offLength, (k - 1) % p);
    }
  }

  // ---------------------------------------------------------------- the list as a sequence

  datatype Op =
    | Add(n: Node)
    | Remove(loc: word)
    | Find(loc: word)
    | Sync(src: word, dst: word)
    | Tick

  /** What a user of the list sees: the nodes, most recently added first, and video memory. */
  datatype Display = Display(nodes: seq<Node>, video: seq<byte>)

  /** The most recently added node at `loc`, or `|nodes|`. */
  function First(nodes: seq<Node>, loc: word): (k: nat)
    ensures k <= |nodes|
    ensures k < |nodes| ==> nodes[k].location == loc
    ensures forall i :: 0 <= i < k ==> nodes[i].location != loc
  {
    if nodes == [] || nodes[0].location == loc then 0 else 1 + First(nodes[1..], loc)
  }

  lemma FirstUnique(nodes: seq<Node>, loc: word, k: nat)
    requires k <= |nodes| && (k < |nodes| ==> nodes[k].location == loc)
    requires forall i :: 0 <= i < k ==> nodes[i].location != loc
    ensures First(nodes, loc) == k
  {
  }

  /** mp1_poke: one character cell; the attribute byte beside it stays. */
  function Poke(video: seq<byte>, loc: word, c: byte): (v: seq<byte>)
    ensures |v| == |video|
    ensures forall i :: 0 <= i < |video| ==> v[i] == if i == 2 * loc then c else video[i]
  {
    if 2 * loc < |video| then video[2 * loc := c] else video
  }

  function Shown(n: Node): byte { if n.status % 2 == 1 then n.onChar else n.offChar }

  function PokeExpired(nodes: seq<Node>, video: seq<byte>): (v: seq<byte>)
    ensures |v| == |video|
  {
    if nodes == [] then video
    else PokeExpired(nodes[1..],
                     if Expires(nodes[0]) then Poke(video, nodes[0].location, Shown(TickNode(nodes[0]))) else video)
  }

  function Ticked(nodes: seq<Node>): (r: seq<Node>)
    ensures |r| == |nodes|
    ensures forall i :: 0 <= i < |nodes| ==> r[i] == TickNode(nodes[i])
  {
    seq(|nodes|, i requires 0 <= i < |nodes| => TickNode(nodes[i]))
  }

  function Synced(from: Node, to: Node): Node {
    to.(onLength := from.onLength, offLength := from.offLength, countdown := from.countdown, status := from.status)
  }

  function Without(nodes: seq<Node>, k: nat): (r: seq<Node>)
    requires k < |nodes|
    ensures |r| == |nodes| - 1
    ensures forall i :: 0 <= i < |r| ==> r[i] == nodes[if i < k then i else i + 1]
  {
    nodes[..k] + nodes[k + 1..]
  }

  predicate Succeeds(d: Display, op: Op) {
    match op
    case Add(n) => n.location < POOL && |d.nodes| < POOL
    case Remove(loc) => First(d.nodes, loc) < |d.nodes|
    case Find(loc) => First(d.nodes, loc) < |d.nodes|
    case Sync(src, dst) => First(d.nodes, src) < |d.nodes| && First(d.nodes, dst) < |d.nodes|
    case Tick => true
  }

  function Step(d: Display, op: Op): Display {
    if !Succeeds(d, op) then d
    else match op
    case Add(n) => Display([Fresh(n)] + d.nodes, Poke(d.video, n.location, n.onChar))
    case Remove(loc) => d.(nodes := Without(d.nodes, First(d.nodes, loc)))
    case Find(_) => d
    case Sync(src, dst) =>
      var from, j := d.nodes[First(d.nodes, src)], First(d.nodes, dst);
      // `testb` never sets the flags that `cmovl` looks at, so the off character is shown.
      Display(d.nodes[j := Synced(from, d.nodes[j])], Poke(d.video, d.nodes[j].location, d.nodes[j].offChar))
    case Tick => Display(Ticked(d.nodes), PokeExpired(d.nodes, d.video))
  }

  function Steps(d: Display, ops: seq<Op>): Display
    decreases |ops|
  {
    if ops == [] then d else Steps(Step(d, ops[0]), ops[1..])
  }

  // ---------------------------------------------------------------- the operations, told by nodes and bytes

  /** `k` is the place of the most recently added node at `loc`. */
  ghost predicate Newest(nodes: seq<Node>, loc: int, k: int) {
    0 <= k < |nodes| && nodes[k].location == loc && forall i :: 0 <= i < k ==> nodes[i].location != loc
  }

  /** Some listed node is at `loc`. */
  ghost predicate Occupied(nodes: seq<Node>, loc: int) {
    exists i :: 0 <= i < |nodes| && nodes[i].location == loc
  }

  lemma FirstIffOccupied(nodes: seq<Node>, loc: word)
    ensures First(nodes, loc) < |nodes| <==> Occupied(nodes, loc)
    ensures Occupied(nodes, loc) ==> Newest(nodes, loc, First(nodes, loc))
  {
  }

  /** One character changed, and no attribute byte. */
  ghost predicate OneCell(video: seq<byte>, after: seq<byte>, loc: int, c: byte) {
    && |after| == |video|
    && forall i :: 0 <= i < |video| ==> after[i] == if i == 2 * loc then c else video[i]
  }

  /** An add goes through exactly when the location is below 2000 and fewer than 2000 nodes are listed. */
  lemma AddMeans(d: Display, n: Node)
    ensures var e := Step(d, Op.Add(n));
            if n.location < 2000 && |d.nodes| < 2000
            then
              && |e.nodes| == |d.nodes| + 1 && e.nodes[1..] == d.nodes
              && e.nodes[0] == n.(status := 1, countdown := n.onLength)
              && OneCell(d.video, e.video, n.location, n.onChar)
            else e == d
  {
  }

  /** A remove goes through exactly when some node is at the location, and takes out the newest there,
      wherever it stands. */
  lemma RemoveMeans(d: Display, loc: word)
    ensures var e := Step(d, Op.Remove(loc));
            && e.video == d.video
            && (!Occupied(d.nodes, loc) ==> e == d)
            && (Occupied(d.nodes, loc) ==>
                  exists k :: Newest(d.nodes, loc, k) && e.nodes == d.nodes[..k] + d.nodes[k + 1..])
  {
    var k := First(d.nodes, loc);
    if k < |d.nodes| {
      assert Newest(d.nodes, loc, k);
      assert Without(d.nodes, k) == d.nodes[..k] + d.nodes[k + 1..];
    }
  }

  /** A sync goes through exactly when both locations are occupied. The newest node at `dst` takes over
      lengths, countdown and status of the newest at `src`, keeps its place and its characters, and its off
      character is shown. */
  lemma SyncMeans(d: Display, src: word, dst: word)
    ensures var e := Step(d, Op.Sync(src, dst));
            && (!Occupied(d.nodes, src) || !Occupied(d.nodes, dst) ==> e == d)
            && (Occupied(d.nodes, src) && Occupied(d.nodes, dst) ==>
                  exists i, j :: Newest(d.nodes, src, i) && Newest(d.nodes, dst, j) && SyncsTo(d, e, i, j))
  {
    var i, j := First(d.nodes, src), First(d.nodes, dst);
    if i < |d.nodes| && j < |d.nodes| {
      assert Newest(d.nodes, src, i) && Newest(d.nodes, dst, j);
      assert SyncsTo(d, Step(d, Op.Sync(src, dst)), i, j);
    }
  }

  ghost predicate SyncsTo(d: Display, e: Display, i: int, j: int)
    requires 0 <= i < |d.nodes| && 0 <= j < |d.nodes|
  {
    var from, to := d.nodes[i], d.nodes[j];
    && |e.nodes| == |d.nodes| && (forall k :: 0 <= k < |d.nodes| && k != j ==> e.nodes[k] == d.nodes[k])
    && e.nodes[j] == Node(to.location, to.onChar, to.offChar, from.onLength, from.offLength,
                          from.countdown, from.status)
    && OneCell(d.video, e.video, to.location, to.offChar)
  }

  /** A tick of one node: the 16-bit countdown falls by one, and unless it is then positive as a signed
      number the status bit flips and the other length is loaded. */
  lemma TickNodeMeans(n: Node)
    ensures var c := (n.countdown + 0xFFFF) % 0x1_0000;
            && (Expires(n) <==> c == 0 || c >= 0x8000)
            && (!Expires(n) ==> TickNode(n) == n.(countdown := c))
            && (Expires(n) && n.status % 2 == 1 ==>
                  TickNode(n) == n.(countdown := n.offLength, status := n.status - 1))
            && (Expires(n) && n.status % 2 == 0 ==>
                  TickNode(n) == n.(countdown := n.onLength, status := n.status + 1))
  {
  }

  /** Byte b of video memory is an attribute, or the character of a cell where no node expires. */
  ghost predicate Steady(nodes: seq<Node>, b: nat) {
    b % 2 == 1 || forall i :: 0 <= i < |nodes| && nodes[i].location == b / 2 ==> !Expires(nodes[i])
  }

  /** Node j is the last in the list to expire on its cell. */
  ghost predicate LastToExpire(nodes: seq<Node>, j: int) {
    && 0 <= j < |nodes| && Expires(nodes[j])
    && forall i :: j < i < |nodes| && nodes[i].location == nodes[j].location ==> !Expires(nodes[i])
  }

  /** A tick ticks every node once, keeps their order, writes in every cell the other character of the last
      node that expires there, and leaves all other bytes. */
  lemma TickMeans(d: Display)
    ensures var e := Step(d, Op.Tick);
            && |e.nodes| == |d.nodes| && (forall i :: 0 <= i < |d.nodes| ==> e.nodes[i] == TickNode(d.nodes[i]))
            && |e.video| == |d.video|
            && (forall b :: 0 <= b < |d.video| && Steady(d.nodes, b) ==> e.video[b] == d.video[b])
            && (forall j :: LastToExpire(d.nodes, j) && 2 * d.nodes[j].location < |d.video| ==>
                  e.video[2 * d.nodes[j].location]
                  == if d.nodes[j].status % 2 == 1 then d.nodes[j].offChar else d.nodes[j].onChar)
  {
    hide Expires, TickNode, PokeExpired;
    forall b | 0 <= b < |d.video| && Steady(d.nodes, b) ensures PokeExpired(d.nodes, d.video)[b] == d.video[b] {
      UnpokedByte(d.nodes, d.video, b);
    }
    forall j | LastToExpire(d.nodes, j) && 2 * d.nodes[j].location < |d.video|
      ensures PokeExpired(d.nodes, d.video)[2 * d.nodes[j].location]
              == if d.nodes[j].status % 2 == 1 then d.nodes[j].offChar else d.nodes[j].onChar
    {
      PokedByte(d.nodes, d.video, j);
    }
  }

  lemma {:induction false} UnpokedByte(nodes: seq<Node>, video: seq<byte>, b: nat)
    requires b < |video| && Steady(nodes, b)
    ensures PokeExpired(nodes, video)[b] == video[b]
  {
    hide Expires, TickNode;
    if nodes != [] {
      var n, rest := nodes[0], nodes[1..];
      assert forall i :: 0 <= i < |rest| ==> rest[i] == nodes[i + 1];
      UnpokedByte(rest, if Expires(n) then Poke(video, n.location, Shown(TickNode(n))) else video, b);
    }
  }

  lemma {:induction false} PokedByte(nodes: seq<Node>, video: seq<byte>, j: nat)
    requires LastToExpire(nodes, j) && 2 * nodes[j].location < |video|
    ensures PokeExpired(nodes, video)[2 * nodes[j].location]
            == if nodes[j].status % 2 == 1 then nodes[j].offChar else nodes[j].onChar
    decreases j
  {
    var n, rest := nodes[0], nodes[1..];
    assert forall i :: 0 <= i < |rest| ==> rest[i] == nodes[i + 1];
    assert j == 0 ==> Shown(TickNode(n)) == if n.status % 2 == 1 then n.offChar else n.onChar;
    hide Expires, TickNode;
    var poked := if Expires(n) then Poke(video, n.location, Shown(TickNode(n))) else video;
    if j == 0 {
      UnpokedByte(rest, poked, 2 * n.location);
    } else {
      PokedByte(rest, poked, j - 1);
    }
  }

  // ---------------------------------------------------------------- the list in memory

  /** `chain` is the path of NEXT pointers from `head`: it ends, repeats no slot, and visits exactly
      the slots that are in use. */
  ghost predicate Linked(slots: seq<Slot>, head: int, chain: seq<int>) {
    && InPool(slots, chain)
    && Distinct(chain)
    && CoversUsed(slots, chain)
    && head == LinkAt(chain, 0)
    && forall k :: 0 <= k < |chain| ==> LinksOn(slots, chain, k)
  }

  ghost predicate InPool(slots: seq<Slot>, chain: seq<int>) {
    forall k :: 0 <= k < |chain| ==> 0 <= chain[k] < |slots| && slots[chain[k]].node.location != 0
  }

  ghost predicate Distinct(chain: seq<int>) {
    forall j, k :: 0 <= j < k < |chain| ==> chain[j] != chain[k]
  }

  ghost predicate CoversUsed(slots: seq<Slot>, chain: seq<int>) {
    forall i :: 0 <= i < |slots| && slots[i].node.location != 0 ==> i in chain
  }

  ghost predicate LinksOn(slots: seq<Slot>, chain: seq<int>, k: nat) {
    k < |chain| && 0 <= chain[k] < |slots| && slots[chain[k]].next == LinkAt(chain, k + 1)
  }

  ghost function LinkAt(chain: seq<int>, k: nat): int {
    if k < |chain| then chain[k] else NIL
  }

  ghost function Nodes(slots: seq<Slot>, chain: seq<int>): (nodes: seq<Node>)
    requires InPool(slots, chain)
    ensures |nodes| == |chain|
    ensures forall k :: 0 <= k < |chain| ==> nodes[k] == slots[chain[k]].node
  {
    seq(|chain|, k requires 0 <= k < |chain| => slots[chain[k]].node)
  }

  /** There is only one such path: the pointers determine it. */
  lemma {:induction false} ChainUnique(slots: seq<Slot>, head: int, a: seq<int>, b: seq<int>, k: nat)
    requires Linked(slots, head, a) && Linked(slots, head, b)
    requires k < |a|
    ensures k < |b| && a[k] == b[k]
  {
    if k > 0 {
      ChainUnique(slots, head, a, b, k - 1);
      assert LinksOn(slots, a, k - 1) && LinksOn(slots, b, k - 1);
    }
  }

  lemma LinkOf(slots: seq<Slot>, head: int, chain: seq<int>, k: nat)
    requires Linked(slots, head, chain)
    ensures InPool(slots, chain) && head == LinkAt(chain, 0)
    ensures LinkAt(chain, k) == NIL <==> k >= |chain|
    ensures k < |chain| ==> slots[chain[k]].next == LinkAt(chain, k + 1)
    ensures k < |chain| ==> Nodes(slots, chain)[k] == slots[chain[k]].node
  {
    if k < |chain| { assert LinksOn(slots, chain, k); }
  }

  /** The slot mp1_malloc returns, or NIL. */
  function LowestFree(slots: seq<Slot>, from: nat := 0): (p: int)
    requires from <= |slots|
    ensures p == NIL || from <= p < |slots|
    ensures p == NIL <==> forall i :: from <= i < |slots| ==> slots[i].node.location != 0
    ensures p != NIL ==> slots[p].node.location == 0 && forall i :: from <= i < p ==> slots[i].node.location != 0
    decreases |slots| - from
  {
    if from == |slots| then NIL
    else if slots[from].node.location == 0 then from
    else LowestFree(slots, from + 1)
  }

  ghost function UpTo(n: nat): (s: set<int>)
    ensures |s| == n
    ensures forall i :: i in s <==> 0 <= i < n
  {
    if n == 0 then {} else UpTo(n - 1) + {n - 1}
  }

  lemma {:induction false} DistinctCount(chain: seq<int>)
    requires Distinct(chain)
    ensures |set p | p in chain| == |chain|
  {
    if chain != [] {
      var init, last := chain[..|chain| - 1], chain[|chain| - 1];
      DistinctCount(init);
      assert chain == init + [last];
      assert (set p | p in chain) == (set p | p in init) + {last};
    }
  }

  lemma SubsetCount(a: set<int>, b: set<int>)
    requires a <= b
    ensures |a| <= |b|
    ensures |a| == |b| <==> a == b
  {
    assert b == a + (b - a);
  }

  /** A slot is free exactly when the list is shorter than the pool. */
  lemma FreeSlotIffRoom(slots: seq<Slot>, head: int, chain: seq<int>)
    requires Linked(slots, head, chain)
    ensures |chain| <= |slots|
    ensures LowestFree(slots) != NIL <==> |chain| < |slots|
  {
    var all, used := UpTo(|slots|), set p | p in chain;
    DistinctCount(chain);
    SubsetCount(used, all);
    var p := LowestFree(slots);
    if p == NIL {
      assert forall i :: 0 <= i < |slots| ==> i in chain;
    } else {
      assert p in all && p !in used;
    }
  }

  /** mp1_ioctl_add on the raw pool: no assumption on the list or on the location. */
  function RawAdd(slots: seq<Slot>, head: int, n: Node): (seq<Slot>, int, int) {
    var p := LowestFree(slots);
    if n.location >= POOL || p == NIL then (slots, head, -1)
    else (slots[p := Slot(Fresh(n), head)], p, 0)
  }

  lemma AddCovers(slots: seq<Slot>, chain: seq<int>, p: nat, n: Node, head: int)
    requires InPool(slots, chain) && Distinct(chain) && CoversUsed(slots, chain) && n.location != 0
    requires p < |slots| && slots[p].node.location == 0
    ensures var slots', longer := slots[p := Slot(n, head)], [p] + chain;
            InPool(slots', longer) && Distinct(longer) && CoversUsed(slots', longer)
  {
    var slots', longer := slots[p := Slot(n, head)], [p] + chain;
    assert p !in chain;
    assert forall k :: 0 < k < |longer| ==> longer[k] == chain[k - 1];
    forall i | 0 <= i < |slots'| && slots'[i].node.location != 0 ensures i in longer {
      assert i == p || i in chain;
    }
  }

  lemma AddLinks(slots: seq<Slot>, head: int, chain: seq<int>, p: nat, n: Node)
    requires Linked(slots, head, chain) && n.location != 0
    requires p < |slots| && slots[p].node.location == 0
    ensures var slots' := slots[p := Slot(n, head)];
            Linked(slots', p, [p] + chain) && Nodes(slots', [p] + chain) == [n] + Nodes(slots, chain)
  {
    hide Nodes, Distinct, CoversUsed;
    var slots', longer := slots[p := Slot(n, head)], [p] + chain;
    AddCovers(slots, chain, p, n, head);
    forall k | 0 <= k < |longer| ensures LinksOn(slots', longer, k) {
      if k > 0 { assert LinksOn(slots, chain, k - 1); }
    }
    assert Nodes(slots', longer) == [n] + Nodes(slots, chain);
  }

  /** A successful add keeps the list well formed exactly when its location is not 0. */
  lemma AddKeepsListIffLocated(slots: seq<Slot>, head: int, chain: seq<int>, n: Node)
    requires Linked(slots, head, chain) && RawAdd(slots, head, n).2 == 0
    ensures (exists c :: Linked(RawAdd(slots, head, n).0, RawAdd(slots, head, n).1, c)) <==> n.location != 0
  {
    var (slots', p, _) := RawAdd(slots, head, n);
    if n.location != 0 {
      AddLinks(slots, head, chain, p, Fresh(n));
      assert Linked(slots', p, [p] + chain);
    } else {
      assert slots'[p].node.location == 0;
      forall c ensures !Linked(slots', p, c) {
        assert c != [] && c[0] == p ==> !InPool(slots', c);
      }
    }
  }

  /** What goes wrong with location 0: the next add takes the same slot and links it to itself. */
  lemma ZeroLocationMakesCycle(slots: seq<Slot>, head: int, n: Node, m: Node)
    requires n.location == 0 && m.location < POOL
    requires RawAdd(slots, head, n).2 == 0
    ensures var (slots1, head1, _) := RawAdd(slots, head, n);
            var (slots2, head2, r) := RawAdd(slots1, head1, m);
            r == 0 && 0 <= head2 < |slots2| && slots2[head2].next == head2
  {
    var p := LowestFree(slots);
    var slots1 := RawAdd(slots, head, n).0;
    assert slots1[p].node.location == 0;
    assert LowestFree(slots1) == p;
  }

  /** `chain` without its k-th slot. */
  ghost function Shorter(chain: seq<int>, k: nat): (r: seq<int>)
    requires k < |chain|
    ensures |r| == |chain| - 1
    ensures forall i :: 0 <= i < |r| ==> r[i] == chain[if i < k then i else i + 1]
    ensures forall p :: p in r ==> p in chain
    ensures forall p :: p in chain && p != chain[k] ==> p in r
  {
    assert chain == chain[..k] + [chain[k]] + chain[k + 1..];
    chain[..k] + chain[k + 1..]
  }

  /** The pool after unlinking the k-th slot of the chain and clearing it. */
  ghost function Unlinked(slots: seq<Slot>, chain: seq<int>, k: nat): (r: seq<Slot>)
    requires InPool(slots, chain) && k < |chain|
    ensures |r| == |slots|
  {
    var bypassed :=
      if k == 0 then slots else slots[chain[k - 1] := slots[chain[k - 1]].(next := LinkAt(chain, k + 1))];
    bypassed[chain[k] := FREE]
  }

  lemma RemoveCovers(slots: seq<Slot>, chain: seq<int>, k: nat)
    requires InPool(slots, chain) && Distinct(chain) && CoversUsed(slots, chain) && k < |chain|
    ensures var slots', rest := Unlinked(slots, chain, k), Shorter(chain, k);
            InPool(slots', rest) && Distinct(rest) && CoversUsed(slots', rest)
    ensures forall i :: 0 <= i < |slots| && i != chain[k] ==> Unlinked(slots, chain, k)[i].node == slots[i].node
  {
    var slots', rest := Unlinked(slots, chain, k), Shorter(chain, k);
    forall i | 0 <= i < |rest| ensures 0 <= rest[i] < |slots'| && slots'[rest[i]].node.location != 0 {
      assert rest[i] != chain[k];
    }
    forall i | 0 <= i < |slots'| && slots'[i].node.location != 0 ensures i in rest {
      assert i != chain[k];
    }
  }

  lemma RemoveLinksOn(slots: seq<Slot>, chain: seq<int>, k: nat, i: nat)
    requires InPool(slots, chain) && Distinct(chain) && k < |chain| && i < |chain| - 1
    requires LinksOn(slots, chain, if i < k then i else i + 1)
    ensures LinksOn(Unlinked(slots, chain, k), Shorter(chain, k), i)
  {
    hide Shorter;
    var rest := Shorter(chain, k);
    var j := if i < k then i else i + 1;
    assert rest[i] == chain[j] != chain[k];
    if i + 1 < |rest| {
      assert rest[i + 1] == chain[if i + 1 < k then i + 1 else i + 2];
    }
    if i + 1 == k {
      assert rest[i] == chain[k - 1];
    } else if k > 0 {
      assert chain[j] != chain[k - 1];
    }
  }

  lemma RemoveNodes(slots: seq<Slot>, chain: seq<int>, k: nat)
    requires InPool(slots, chain) && Distinct(chain) && CoversUsed(slots, chain) && k < |chain|
    ensures InPool(Unlinked(slots, chain, k), Shorter(chain, k))
    ensures Nodes(Unlinked(slots, chain, k), Shorter(chain, k)) == Without(Nodes(slots, chain), k)
  {
    hide Nodes, CoversUsed, Shorter, Without, Unlinked;
    RemoveCovers(slots, chain, k);
    var after, expected := Nodes(Unlinked(slots, chain, k), Shorter(chain, k)), Without(Nodes(slots, chain), k);
    forall i | 0 <= i < |after| ensures after[i] == expected[i] {
      assert Shorter(chain, k)[i] != chain[k];
    }
  }

  lemma RemoveUnlinks(slots: seq<Slot>, head: int, chain: seq<int>, k: nat)
    requires Linked(slots, head, chain) && k < |chain|
    ensures var slots', rest := Unlinked(slots, chain, k), Shorter(chain, k);
            && Linked(slots', if k == 0 then LinkAt(chain, 1) else head, rest)
            && Nodes(slots', rest) == Without(Nodes(slots, chain), k)
  {
    hide Nodes, CoversUsed, Shorter, Without, Unlinked, LinksOn, Distinct;
    RemoveCovers(slots, chain, k);
    RemoveNodes(slots, chain, k);
    forall i | 0 <= i < |chain| - 1 ensures LinksOn(Unlinked(slots, chain, k), Shorter(chain, k), i) {
      assert LinksOn(slots, chain, if i < k then i else i + 1);
      RemoveLinksOn(slots, chain, k, i);
    }
  }

  /** Rewriting a node in place, keeping its location, changes that node only. */
  lemma UpdateKeepsLinks(slots: seq<Slot>, head: int, chain: seq<int>, k: nat, n: Node)
    requires Linked(slots, head, chain) && k < |chain|
    requires n.location == slots[chain[k]].node.location
    ensures var slots' := slots[chain[k] := slots[chain[k]].(node := n)];
            Linked(slots', head, chain) && Nodes(slots', chain) == Nodes(slots, chain)[k := n]
  {
    var slots' := slots[chain[k] := slots[chain[k]].(node := n)];
    assert InPool(slots', chain);
    forall i | 0 <= i < |chain| ensures LinksOn(slots', chain, i) {
      assert LinksOn(slots, chain, i);
    }
  }
}
