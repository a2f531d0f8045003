/** The blink operations in place, on the pool array and the list head. */
module BlinkList {
  import opened Bytes
  import opened Blink

  class List {
    const pool: array<Slot>
    const video: array<byte>
    var head: int
    ghost var chain: seq<int>

    ghost predicate Shape()
      reads this, pool
    {
      && pool.Length == POOL
      && video.Length == 2 * POOL
      && pool as object != video
      && forall i :: 0 <= i < POOL ==> pool[i].node.location < POOL
    }

    ghost predicate Valid()
      reads this, pool
    {
      Shape() && Linked(pool[..], head, chain)
    }

    ghost function View(): (d: Display)
      requires Valid()
      reads this, pool, video
    {
      Display(Nodes(pool[..], chain), video[..])
    }

    constructor (video: array<byte>)
      requires video.Length == 2 * POOL
      ensures Valid() && this.video == video && fresh(pool)
      ensures View() == Display([], video[..])
    {
      this.video := video;
      pool := new Slot[POOL](_ => FREE);
      head := NIL;
      chain := [];
    }

    method Malloc() returns (p: int)
      requires pool.Length == POOL
      ensures p == LowestFree(pool[..])
    {
      var i := 0;
      while i < POOL
        invariant 0 <= i <= POOL
        invariant LowestFree(pool[..]) == LowestFree(pool[..], i)
      {
        if pool[i].node.location == 0 { return i; }
        i := i + 1;
      }
      p := NIL;
    }

    method PokeCell(loc: word, c: byte)
      requires video.Length == 2 * POOL && loc < POOL
      modifies video
      ensures video[..] == Poke(old(video[..]), loc, c)
    {
      video[2 * loc] := c;
    }

    /** mp1_ioctl_add. The first clauses hold of any pool, the last of a well-formed list. */
    method Add(n: Node) returns (r: int)
      requires Shape()
      modifies this, pool, video
      ensures Shape()
      ensures (pool[..], head, r) == RawAdd(old(pool[..]), old(head), n)
      ensures r == -1 ==> video[..] == old(video[..])
      ensures old(Valid()) && (n.location != 0 || r == -1) ==>
                && Valid() && View() == Step(old(View()), Op.Add(n))
                && r == if Succeeds(old(View()), Op.Add(n)) then 0 else -1
      ensures old(Valid()) ==> (r == 0 <==> n.location < 2000 && |old(View()).nodes| < 2000)
      ensures r == 0 ==> video[..] == Poke(old(video[..]), n.location, n.onChar)
    {
      ghost var wasValid := Valid();
      ghost var slots := pool[..];
      if wasValid { FreeSlotIffRoom(slots, head, chain); }
      if n.location >= POOL { return -1; }
      var p := Malloc();
      if p == NIL { return -1; }
      pool[p] := Slot(Fresh(n), head);
      head := p;
      PokeCell(n.location, n.onChar);
      assert pool[..] == slots[p := Slot(Fresh(n), old(head))];
      if wasValid && n.location != 0 {
        AddLinks(slots, old(head), chain, p, Fresh(n));
        chain := [p] + chain;
      }
      r := 0;
    }

    /** mp1_find_helper: the most recently added node at `loc`. */
    method FindHelper(loc: word) returns (p: int)
      requires Valid()
      ensures p == LinkAt(chain, First(View().nodes, loc))
      ensures p == NIL <==> First(View().nodes, loc) == |chain|
    {
      ghost var nodes := Nodes(pool[..], chain);
      ghost var k := 0;
      p := head;
      while p != NIL && pool[p].node.location != loc
        invariant k <= |chain| && p == LinkAt(chain, k)
        invariant p == NIL <==> k == |chain|
        invariant forall i :: 0 <= i < k ==> nodes[i].location != loc
        decreases |chain| - k
      {
        assert LinksOn(pool[..], chain, k);
        p := pool[p].next;
        k := k + 1;
      }
      FirstUnique(nodes, loc, k);
    }

    /** mp1_ioctl_find: a copy of the node found. */
    method Find(loc: word) returns (r: int, n: Node)
      requires Valid()
      ensures r == if Succeeds(View(), Op.Find(loc)) then 0 else -1
      ensures r == 0 ==> n == View().nodes[First(View().nodes, loc)]
      ensures r == 0 <==> Occupied(View().nodes, loc)
      ensures r == 0 ==> exists k :: Newest(View().nodes, loc, k) && n == View().nodes[k]
    {
      FirstIffOccupied(View().nodes, loc);
      var p := FindHelper(loc);
      if p == NIL { return -1, FREE.node; }
      return 0, pool[p].node;
    }

    /** remove_find_prev: the slot whose link points at `p`, or NIL when the head does. */
    method FindPrevious(p: int, ghost k: nat) returns (prev: int)
      requires Valid() && k < |chain| && p == chain[k]
      ensures prev == if k == 0 then NIL else chain[k - 1]
    {
      ghost var j := 0;
      prev := NIL;
      var link := head;
      while link != p
        invariant 0 <= j <= k && link == chain[j]
        invariant prev == if j == 0 then NIL else chain[j - 1]
        decreases k - j
      {
        assert LinksOn(pool[..], chain, j);
        prev := link;
        link := pool[prev].next;
        j := j + 1;
      }
    }

    /** mp1_ioctl_remove: find the link that points at the node, bypass it, clear the slot. */
    method Remove(loc: word) returns (r: int)
      requires Valid()
      modifies this, pool
      ensures Valid()
      ensures View() == Step(old(View()), Op.Remove(loc))
      ensures r == if Succeeds(old(View()), Op.Remove(loc)) then 0 else -1
      ensures r == 0 <==> Occupied(old(View()).nodes, loc)
      ensures video[..] == old(video[..])
      ensures r != 0 ==> View() == old(View())
    {
      FirstIffOccupied(View().nodes, loc);
      var p := FindHelper(loc);
      if p == NIL { return -1; }
      ghost var k := First(View().nodes, loc);
      Bypass(p, k);
      r := 0;
    }

    method Bypass(p: int, ghost k: nat)
      requires Valid() && k < |chain| && p == chain[k]
      modifies this, pool
      ensures Valid()
      ensures View() == old(View()).(nodes := Without(old(View()).nodes, k))
    {
      hide Linked, First, Nodes, Without;
      ghost var slots := pool[..];
      LinkOf(slots, head, chain, k);
      RemoveUnlinks(slots, head, chain, k);
      var prev := FindPrevious(p, k);
      if prev == NIL {
        head := pool[p].next;
      } else {
        pool[prev] := pool[prev].(next := pool[p].next);
      }
      pool[p] := FREE;
      assert pool[..] == Unlinked(slots, chain, k);
      chain := Shorter(chain, k);
    }

    /** mp1_ioctl_sync: the node at `dst` takes over the timing of the node at `src`. */
    method Sync(src: word, dst: word) returns (r: int)
      requires Valid()
      modifies this, pool, video
      ensures Valid()
      ensures View() == Step(old(View()), Op.Sync(src, dst))
      ensures r == if Succeeds(old(View()), Op.Sync(src, dst)) then 0 else -1
      ensures r == 0 <==> Occupied(old(View()).nodes, src) && Occupied(old(View()).nodes, dst)
      ensures r != 0 ==> View() == old(View())
    {
      FirstIffOccupied(View().nodes, src);
      FirstIffOccupied(View().nodes, dst);
      var from := FindHelper(src);
      if from == NIL { return -1; }
      var to := FindHelper(dst);
      if to == NIL { return -1; }
      ghost var slots, j := pool[..], First(View().nodes, dst);
      var n := Synced(pool[from].node, pool[to].node);
      UpdateKeepsLinks(slots, head, chain, j, n);
      pool[to] := pool[to].(node := n);
      assert pool[..] == slots[to := slots[to].(node := n)];
      PokeCell(n.location, n.offChar);
      r := 0;
    }

    /** One turn of the tasklet loop, on the k-th node of the list. */
    method TickOne(p: int, ghost k: nat) returns (next: int)
      requires Valid() && k < |chain| && p == chain[k]
      modifies pool, video
      ensures Valid()
      ensures next == LinkAt(chain, k + 1)
      ensures View().nodes == old(View().nodes)[k := TickNode(old(View().nodes)[k])]
      ensures var n := old(View().nodes)[k];
              video[..] == if Expires(n) then Poke(old(video[..]), n.location, Shown(TickNode(n))) else old(video[..])
    {
      hide Linked, Nodes;
      ghost var slots := pool[..];
      LinkOf(slots, head, chain, k);
      var n := pool[p].node;
      next := pool[p].next;
      UpdateKeepsLinks(slots, head, chain, k, TickNode(n));
      if Expires(n) {
        PokeCell(n.location, if n.status % 2 == 1 then n.offChar else n.onChar);
      }
      pool[p] := pool[p].(node := TickNode(n));
      assert pool[..] == slots[p := slots[p].(node := TickNode(n))];
    }

    /** mp1_rtc_tasklet: every node counts down, and the expired ones flip on the screen. */
    method Tick()
      requires Valid()
      modifies pool, video
      ensures Valid()
      ensures View() == Step(old(View()), Op.Tick)
    {
      hide Linked, Nodes, TickNode, Expires;
      ghost var nodes := View().nodes;
      ghost var final := PokeExpired(nodes, video[..]);
      ghost var k := 0;
      var p := head;
      assert nodes[0..] == nodes;
      LinkOf(pool[..], head, chain, 0);
      while p != NIL
        invariant Valid()
        invariant k <= |chain| && p == LinkAt(chain, k)
        invariant p == NIL <==> k == |chain|
        invariant forall i :: 0 <= i < |chain| ==>
                    View().nodes[i] == if i < k then TickNode(nodes[i]) else nodes[i]
        invariant PokeExpired(nodes[k..], video[..]) == final
        decreases |chain| - k
      {
        assert nodes[k..][0] == nodes[k] && nodes[k..][1..] == nodes[k + 1..];
        p := TickOne(p, k);
        k := k + 1;
        LinkOf(pool[..], head, chain, k);
      }
      assert View().nodes == Ticked(nodes);
    }
  }
}
