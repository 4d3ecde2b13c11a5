/**
 The recycling of record groups in place (fqlprocess_recycle, lib/fqlprocesses.c) and the filling
 of the root rings before a plan starts (plan_pipeline_root_preempt, lib/fqlplan.c).
 */
module RecordStore {
  import opened Assoc
  import opened Common
  import opened NodeLists
  import opened RecordPool
  import opened Ring

  ghost predicate AllLive(s: Pool, group: seq<nat>) {
    forall i {:trigger group[i]} :: 0 <= i < |group| ==>
      group[i] < |s.nodes| && s.nodes[group[i]].status == Live
  }

  ghost predicate EachOnce(group: seq<nat>) {
    forall i, j {:trigger NodeLists.Apart(group, i, j)} :: NodeLists.Apart(group, i, j)
  }

  /** One node after the other is recycled. */
  ghost function RecycleAll(s: Pool, group: seq<nat>): (r: Pool)
    requires s.Valid() && AllLive(s, group) && EachOnce(group)
    ensures r.Valid() && SameFrame(s, r)
    decreases |group|
  {
    if group == [] then s
    else
      s.RecycleKeepsValid(group[0]);
      RecycleKeepsFrame(s, group[0]);
      RecycleKeepsRestLive(s, group);
      RecycleAll(s.Recycle(group[0]), group[1..])
  }

  /** Recycling is a run of the pool, so all that holds over every run holds here. */
  lemma {:induction false} RecycleAllIsARun(s: Pool, group: seq<nat>)
    requires s.Valid() && AllLive(s, group) && EachOnce(group)
    ensures RecycleAll(s, group) == Run(s, seq(|group|, i requires 0 <= i < |group| => Recycle(group[i])))
    decreases |group|
  {
    var actions := seq(|group|, i requires 0 <= i < |group| => Action.Recycle(group[i]));
    if group != [] {
      RecycleKeepsRestLive(s, group);
      s.RecycleKeepsValid(group[0]);
      RecycleAllIsARun(s.Recycle(group[0]), group[1..]);
      var rest := group[1..];
      assert actions[1..] == seq(|rest|, i requires 0 <= i < |rest| => Action.Recycle(rest[i]));
    }
  }

  /** Recycling one node makes no other node live, and leaves every other live node live. */
  lemma RecycleKeepsOthersLive(s: Pool, m: nat)
    requires s.Valid() && m < |s.nodes| && s.nodes[m].status == Live
    ensures var r := s.Recycle(m);
            |r.nodes| == |s.nodes| && forall n :: 0 <= n < |s.nodes| ==>
              (r.nodes[n].status == Live <==> s.nodes[n].status == Live && n != m)
  {
    if s.nodes[m].copyOf.Some? {
      s.CopyIsCounted(m, s.nodes[m].copyOf.value);
    }
    s.DetachKeepsValid(m);
    assert s.Detach(m).Counted(m) && s.Detach(m).Sourced(m);
  }

  lemma RecycleKeepsRestLive(s: Pool, group: seq<nat>)
    requires s.Valid() && AllLive(s, group) && EachOnce(group) && group != []
    ensures AllLive(s.Recycle(group[0]), group[1..]) && EachOnce(group[1..])
  {
    var r := s.Recycle(group[0]);
    RecycleKeepsOthersLive(s, group[0]);
    forall i | 0 <= i < |group[1..]|
      ensures group[1..][i] < |r.nodes| && r.nodes[group[1..][i]].status == Live
    {
      assert NodeLists.Apart(group, 0, i + 1);
      assert group[1..][i] == group[i + 1];
    }
    forall i, j ensures NodeLists.Apart(group[1..], i, j) {
      assert NodeLists.Apart(group, i + 1, j + 1);
    }
  }

  /** The nodes dealt to ring j when the first n nodes are dealt round k rings. */
  ghost function Dealt(n: nat, k: nat, j: nat): (d: seq<nat>)
    requires k > 0
    ensures forall m {:trigger m in d} :: m in d <==> 0 <= m < n && m % k == j
    ensures forall i, l :: 0 <= i < l < |d| ==> d[i] < d[l]
  {
    if n == 0 then []
    else
      var d := Dealt(n - 1, k, j);
      assert forall i :: 0 <= i < |d| ==> d[i] in d;
      if (n - 1) % k == j then d + [n - 1] else d
  }

  /** The last node dealt to a ring stays outside it. */
  ghost predicate SetAside(n: nat, k: nat, m: nat)
    requires k > 0
  {
    var d := Dealt(n, k, m % k);
    d != [] && m == d[|d| - 1]
  }

  function DealtNode(k: nat, m: nat, aside: bool): Node
    requires k > 0
  {
    Node(1, None, m % k, if aside then Idle else InRing, m)
  }

  ghost function AllButLast(d: seq<nat>): seq<nat>
  {
    if d == [] then [] else d[..|d| - 1]
  }

  /** The pool when the nodes have been dealt out and fifo_set_full has run on every ring. */
  ghost function Fresh(n: nat, k: nat): (p: Pool)
    requires k > 0
    ensures |p.nodes| == n && |p.rings| == k
    ensures forall m {:trigger p.nodes[m]} :: 0 <= m < n ==> p.nodes[m] == DealtNode(k, m, SetAside(n, k, m))
    ensures forall j {:trigger p.rings[j]} :: 0 <= j < k ==> p.rings[j] == AllButLast(Dealt(n, k, j))
  {
    Pool(seq(n, m requires 0 <= m < n => DealtNode(k, m, SetAside(n, k, m))),
         seq(k, j requires 0 <= j < k => AllButLast(Dealt(n, k, j))))
  }

  /** Every ring gets enough nodes to be a ring. */
  ghost predicate EnoughDealt(n: nat, k: nat)
    requires k > 0
  {
    forall j: nat {:trigger Dealt(n, k, j)} :: j < k ==> 2 <= |Dealt(n, k, j)| <= WORD32 / 2
  }

  lemma FreshHomes(n: nat, k: nat, j: nat)
    requires k > 0 && j < k
    ensures |Fresh(n, k).AtHome(j)| == |Dealt(n, k, j)|
  {
    NoDuplicates(Dealt(n, k, j));
    assert Fresh(n, k).AtHome(j) == Elements(Dealt(n, k, j));
  }

  lemma FreshIsValid(n: nat, k: nat)
    requires k > 0 && EnoughDealt(n, k)
    ensures Fresh(n, k).Valid() && Fresh(n, k).OneIdle() && Fresh(n, k).Shallow()
  {
    var p := Fresh(n, k);
    forall m: nat | m < n ensures p.Counted(m) && p.Sourced(m) {
      assert p.Copies(m) == {};
    }
    forall j: nat | j < k ensures p.RingHolds(j) && p.HasIdle(j) {
      FreshRing(n, k, j);
    }
  }

  lemma FreshRing(n: nat, k: nat, j: nat)
    requires k > 0 && j < k && EnoughDealt(n, k)
    ensures Fresh(n, k).RingHolds(j) && Fresh(n, k).HasIdle(j)
  {
    var p, d := Fresh(n, k), Dealt(n, k, j);
    var last := d[|d| - 1];
    assert last in d;
    assert last in p.AtHome(j) && SetAside(n, k, last);
    assert p.rings[j] == AllButLast(d);
    forall m: nat ensures m in AllButLast(d) <==> m < n && p.nodes[m].status == InRing && p.nodes[m].root == j {
      assert d == AllButLast(d) + [last];
      assert m in d <==> m in AllButLast(d) || m == last;
      if m in AllButLast(d) {
        var i :| 0 <= i < |d| - 1 && d[i] == m;
      }
    }
  }

  /** The dealing loop: node m goes to the end of buffer m % k. */
  method Deal(n: nat, k: nat) returns (bufs: seq<seq<nat>>)
    requires k > 0
    ensures |bufs| == k
    ensures forall j {:trigger bufs[j]} :: 0 <= j < k ==> bufs[j] == Dealt(n, k, j)
  {
    bufs := seq(k, _ => []);
    for i := 0 to n
      invariant |bufs| == k
      invariant forall j {:trigger bufs[j]} :: 0 <= j < k ==> bufs[j] == Dealt(i, k, j)
    {
      bufs := bufs[i % k := bufs[i % k] + [i]];
    }
  }

  ghost predicate IsPreempted(f: Fifo<nat>, buf: seq<nat>)
    reads f, f.buf
  {
    f.Valid() && f.Contents() == AllButLast(buf) && f.buf.Length == |buf|
  }

  ghost predicate TwoRings(f: Fifo<nat>, g: Fifo<nat>) {
    f != g && f.buf != g.buf
  }

  method PreemptAll(bufs: seq<seq<nat>>) returns (fifos: seq<Fifo<nat>>)
    requires forall j {:trigger bufs[j]} :: 0 <= j < |bufs| ==> 2 <= |bufs[j]| <= WORD32 / 2
    ensures |fifos| == |bufs|
    ensures forall j {:trigger fifos[j]} :: 0 <= j < |fifos| ==> fresh(fifos[j]) && fresh(fifos[j].buf)
    ensures forall i, j {:trigger TwoRings(fifos[i], fifos[j])} :: 0 <= i < j < |fifos| ==>
              TwoRings(fifos[i], fifos[j])
    ensures forall j {:trigger IsPreempted(fifos[j], bufs[j])} :: 0 <= j < |fifos| ==>
              IsPreempted(fifos[j], bufs[j])
  {
    fifos := [];
    while |fifos| < |bufs|
      invariant |fifos| <= |bufs|
      invariant forall j {:trigger fifos[j]} :: 0 <= j < |fifos| ==> fresh(fifos[j]) && fresh(fifos[j].buf)
      invariant forall i, j {:trigger TwoRings(fifos[i], fifos[j])} :: 0 <= i < j < |fifos| ==>
                  TwoRings(fifos[i], fifos[j])
      invariant forall j {:trigger IsPreempted(fifos[j], bufs[j])} :: 0 <= j < |fifos| ==>
                  IsPreempted(fifos[j], bufs[j])
    {
      var fifo := new Fifo<nat>.Preempted(bufs[|fifos|]);
      fifos := fifos + [fifo];
    }
  }

  /** The root rings of a plan. */
  class RootRings {
    const rings: seq<Fifo<nat>>

    ghost predicate Separate()
    {
      forall j, k {:trigger TwoRings(rings[j], rings[k])} :: 0 <= j < k < |rings| ==>
        TwoRings(rings[j], rings[k])
    }

    ghost predicate Holds(lists: seq<seq<nat>>, k: nat)
      requires k < |rings| == |lists|
      reads rings, set f <- rings :: f.buf
    {
      rings[k].Valid() && rings[k].Contents() == lists[k]
    }

    ghost predicate HoldAll(lists: seq<seq<nat>>)
      reads rings, set f <- rings :: f.buf
    {
      && Separate() && |rings| == |lists|
      && forall k: nat {:trigger Holds(lists, k)} :: k < |rings| ==> Holds(lists, k)
    }

    /** The nodes dealt out, and each ring set full. */
    constructor (n: nat, k: nat)
      requires k > 0 && EnoughDealt(n, k)
      ensures |rings| == k && HoldAll(Fresh(n, k).rings)
      ensures forall j {:trigger rings[j]} :: 0 <= j < k ==> fresh(rings[j]) && fresh(rings[j].buf)
      ensures forall j {:trigger Dealt(n, k, j)} :: 0 <= j < k ==> IsPreempted(rings[j], Dealt(n, k, j))
    {
      var bufs := Deal(n, k);
      var fifos := PreemptAll(bufs);
      rings := fifos;
      new;
      ghost var lists := Fresh(n, k).rings;
      forall j: nat | j < k ensures Holds(lists, j) && IsPreempted(rings[j], Dealt(n, k, j)) {
        assert IsPreempted(rings[j], bufs[j]);
      }
    }

    /** A node comes home to a ring with room for it. */
    method Return(k: nat, node: nat, ghost lists: seq<seq<nat>>)
      requires HoldAll(lists) && k < |rings| && |lists[k]| + 1 < rings[k].buf.Length
      modifies rings, set f <- rings :: f.buf
      ensures HoldAll(lists[k := lists[k] + [node]])
    {
      assert Holds(lists, k);
      rings[k].Add(node);
      ghost var more := lists[k := lists[k] + [node]];
      forall j: nat | j < |rings| ensures Holds(more, j) {
        assert old(Holds(lists, j));
        assert j < k ==> TwoRings(rings[j], rings[k]);
        assert k < j ==> TwoRings(rings[k], rings[j]);
      }
    }
  }

  /** The plan's node array with its records, and the root rings. */
  class Store {
    const links: Links
    const refCount: array<nat>
    const copyOf: array<int>
    const root: array<nat>
    const roots: RootRings
    ghost var pool: Pool

    ghost predicate NodeMirrors(p: Pool, m: nat)
      requires m < |p.nodes| <= refCount.Length && |p.nodes| <= root.Length && |p.nodes| <= copyOf.Length
      reads refCount, copyOf, root
    {
      && refCount[m] == p.nodes[m].refCount
      && copyOf[m] == (match p.nodes[m].copyOf case None => NULL case Some(src) => src)
      && root[m] == p.nodes[m].root
    }

    ghost function Buffers(): set<object>
    {
      set f <- roots.rings :: f.buf
    }

    ghost predicate Separate()
    {
      && links.next != links.prev && links.next.Length == links.prev.Length
      && refCount !in Buffers() && root !in Buffers() && copyOf !in Buffers()
      && links.next !in Buffers() && links.prev !in Buffers()
      && refCount != root && copyOf != links.next && copyOf != links.prev
    }

    /** The arrays and the rings hold what the pool says. */
    ghost predicate Mirrors(p: Pool)
      reads refCount, copyOf, root, roots.rings, Buffers()
    {
      && Separate()
      && |p.nodes| == refCount.Length == copyOf.Length == root.Length == links.next.Length
      && (forall m: nat {:trigger NodeMirrors(p, m)} :: m < |p.nodes| ==> NodeMirrors(p, m))
      && roots.HoldAll(p.rings)
    }

    /** Each ring has as many slots as nodes are at home there. */
    ghost predicate Sized(p: Pool)
    {
      forall k: nat {:trigger p.AtHome(k)} :: k < |roots.rings| ==> roots.rings[k].buf.Length == |p.AtHome(k)|
    }

    lemma FrameKeepsSized(p: Pool, q: Pool)
      requires Sized(p) && SameFrame(p, q)
      ensures Sized(q)
    {
      forall k: nat | k < |roots.rings| ensures roots.rings[k].buf.Length == |q.AtHome(k)| {
        assert q.AtHome(k) == p.AtHome(k);
      }
    }

    ghost predicate Valid()
      reads this, refCount, copyOf, root, roots.rings, Buffers()
    {
      Mirrors(pool) && Sized(pool) && pool.Valid() && pool.OneIdle()
    }

    /** The node array with no links, dealt out to the root rings one node after the other. */
    constructor (n: nat, k: nat)
      requires k > 0 && EnoughDealt(n, k)
      ensures Valid() && Unlinked() && pool == Fresh(n, k)
    {
      links := new Links(n);
      refCount := new nat[n](_ => 1);
      copyOf := new int[n](_ => NULL);
      root := new nat[n](m => m % k);
      roots := new RootRings(n, k);
      pool := Fresh(n, k);
      new;
      DealtIsValid(n, k);
    }

    lemma DealtIsValid(n: nat, k: nat)
      requires k > 0 && EnoughDealt(n, k) && pool == Fresh(n, k)
      requires Separate() && n == refCount.Length == copyOf.Length == root.Length == links.next.Length
      requires forall m: nat {:trigger refCount[m]} {:trigger copyOf[m]} {:trigger root[m]} :: m < n ==>
                 refCount[m] == 1 && copyOf[m] == NULL && root[m] == m % k
      requires |roots.rings| == k && roots.HoldAll(pool.rings)
      requires forall j {:trigger Dealt(n, k, j)} :: 0 <= j < k ==> IsPreempted(roots.rings[j], Dealt(n, k, j))
      ensures Valid()
    {
      FreshIsValid(n, k);
      forall m: nat | m < n ensures NodeMirrors(pool, m) {
      }
      forall j: nat | j < k ensures roots.rings[j].buf.Length == |pool.AtHome(j)| {
        FreshHomes(n, k, j);
        assert IsPreempted(roots.rings[j], Dealt(n, k, j));
      }
    }

    /** The end of one round of the recycling loop: one reference less, and home if it was the last. */
    method DropNode(node: nat, ghost p: Pool)
      requires Mirrors(p) && node < |p.nodes|
      requires p.nodes[node].refCount > 0 && p.nodes[node].root < |roots.rings|
      requires |p.rings[p.nodes[node].root]| + 1 < roots.rings[p.nodes[node].root].buf.Length
      modifies refCount, roots.rings, Buffers()
      ensures Mirrors(p.Drop(node))
    {
      assert NodeMirrors(p, node);
      refCount[node] := refCount[node] - 1;
      if refCount[node] == 0 {
        refCount[node] := 1;
        roots.Return(root[node], node, p.rings);
      }
      forall m: nat | m < |p.nodes| ensures NodeMirrors(p.Drop(node), m) {
        assert old(NodeMirrors(p, m));
      }
    }

    /** Every node that no process holds is out of all lists. */
    ghost predicate Unlinked()
      reads this, links.next, links.prev
    {
      && links.Valid()
      && forall m {:trigger links.Loose(m)} ::
           0 <= m < |pool.nodes| && pool.nodes[m].status != Live ==> links.Loose(m)
    }

    /** One reference less on a node that keeps others. */
    method Release(src: nat, ghost p: Pool) returns (ghost q: Pool)
      requires Mirrors(p) && src < |p.nodes| && p.nodes[src].refCount > 0
      modifies refCount
      ensures q == Pool(p.nodes[src := p.nodes[src].(refCount := p.nodes[src].refCount - 1)], p.rings)
      ensures Mirrors(q)
    {
      q := Pool(p.nodes[src := p.nodes[src].(refCount := p.nodes[src].refCount - 1)], p.rings);
      assert NodeMirrors(p, src);
      refCount[src] := refCount[src] - 1;
      forall m: nat | m < |p.nodes| ensures NodeMirrors(q, m) {
        assert old(NodeMirrors(p, m));
      }
    }

    method ClearSource(node: nat, ghost p: Pool)
      requires Mirrors(p) && node < |p.nodes|
      modifies copyOf
      ensures Mirrors(Pool(p.nodes[node := p.nodes[node].(copyOf := None)], p.rings))
    {
      copyOf[node] := NULL;
      ghost var q := Pool(p.nodes[node := p.nodes[node].(copyOf := None)], p.rings);
      forall m: nat | m < |p.nodes| ensures NodeMirrors(q, m) {
        assert old(NodeMirrors(p, m));
      }
    }

    /**
     A copy gives up its source, and recycles it if this was all that kept it. The source is then
     a list of one node that is no copy, so the recursive call is one export and one drop.
     */
    method DetachNode(node: nat)
      requires Valid() && Unlinked() && node < |pool.nodes| && pool.nodes[node].status == Live
      modifies links.next, links.prev, refCount, copyOf, roots.rings, Buffers()
      ensures Mirrors(pool.Detach(node)) && Unlinked()
      ensures forall n :: 0 <= n < links.next.Length && pool.nodes[n].status == Live ==>
                links.next[n] == old(links.next[n]) && links.prev[n] == old(links.prev[n])
    {
      assert NodeMirrors(pool, node);
      var src := copyOf[node];
      if src != NULL {
        pool.CopyIsCounted(node, src);
        assert NodeMirrors(pool, src);
        ghost var p := pool;
        if refCount[src] - 1 == 0 {
          assert links.Loose(src) && links.Valid();
          var popped, rest := links.PopExport(src, [src]);
          assert rest == NULL;
          pool.RingHasRoom(root[src], src);
          assert pool.Counted(src) && pool.Sourced(src);
          DropNode(popped, pool);
          p := pool.Drop(src);
        } else {
          p := Release(src, pool);
        }
        ClearSource(node, p);
      }
      forall m: nat | m < |pool.nodes| && pool.nodes[m].status != Live ensures links.Loose(m) {
        assert old(links.Loose(m));
      }
    }

    /** One round of the recycling loop, on a node that was just exported. */
    method RecycleNode(node: nat)
      requires Valid() && node < |pool.nodes| && pool.nodes[node].status == Live && links.Loose(node)
      requires Unlinked()
      modifies this, links.next, links.prev, refCount, copyOf, roots.rings, Buffers()
      ensures Valid() && Unlinked() && pool == old(pool.Recycle(node))
      ensures forall n :: 0 <= n < links.next.Length && old(pool.nodes[n].status) == Live ==>
                links.next[n] == old(links.next[n]) && links.prev[n] == old(links.prev[n])
    {
      ghost var p := pool;
      p.DetachKeepsValid(node);
      p.RecycleKeepsValid(node);
      RecycleKeepsFrame(p, node);
      FrameKeepsIdle(p, p.Recycle(node));
      RecycleKeepsOthersLive(p, node);
      DetachNode(node);
      ghost var q := p.Detach(node);
      assert q.Counted(node) && q.Sourced(node);
      DetachKeepsRoom(p, node);
      DropNode(node, q);
      pool := p.Recycle(node);
      forall m: nat | m < |pool.nodes| && pool.nodes[m].status != Live ensures links.Loose(m) {
        assert m != node ==> old(links.Loose(m));
      }
      FrameKeepsSized(p, pool);
    }

    method Pop(first: int, ghost group: seq<nat>) returns (node: int, head: int)
      requires Valid() && Unlinked() && links.Linked(first, group) && AllLive(pool, group) && group != []
      modifies links.next, links.prev
      ensures Valid() && Unlinked()
      ensures node == group[0] && links.Loose(node) && links.Linked(head, group[1..])
    {
      node, head := links.PopExport(first, group);
      forall m: nat | m < |pool.nodes| && pool.nodes[m].status != Live ensures links.Loose(m) {
        assert old(links.Loose(m));
      }
    }

    /** fqlprocess_recycle. */
    method Recycle(first: int, ghost group: seq<nat>)
      requires Valid() && Unlinked() && links.Linked(first, group) && AllLive(pool, group)
      modifies this, links.next, links.prev, refCount, copyOf, roots.rings, Buffers()
      ensures Valid() && Unlinked()
      ensures pool == old(RecycleAll(pool, group))
    {
      var head := first;
      ghost var rest := group;
      while head != NULL
        invariant Valid() && Unlinked() && links.Linked(head, rest) && AllLive(pool, rest)
        invariant RecycleAll(pool, rest) == old(RecycleAll(pool, group))
        decreases |rest|
      {
        var node;
        RecycleKeepsRestLive(pool, rest);
        node, head := Pop(head, rest);
        ghost var next, prev := links.next[..], links.prev[..];
        RecycleNode(node);
        rest := rest[1..];
        ChainedAgrees(next, prev, links.next[..], links.prev[..], rest);
      }
    }

    /** record_copy. */
    method CopyRecord(dst: nat, src: nat)
      requires Valid() && dst < |pool.nodes| && src < |pool.nodes| && dst != src
      requires pool.nodes[dst].status == Live && pool.nodes[dst].copyOf == None
      requires pool.nodes[src].status == Live
      modifies this, refCount, copyOf
      ensures Valid() && pool == old(pool).Copy(dst, src)
    {
      ghost var p := pool;
      p.CopyKeepsValid(dst, src);
      StepKeepsFrame(p, Action.Copy(dst, src));
      FrameKeepsIdle(p, p.Copy(dst, src));
      assert NodeMirrors(p, dst) && NodeMirrors(p, src);
      copyOf[dst] := src;
      refCount[src] := refCount[src] + 1;
      pool := p.Copy(dst, src);
      forall m: nat | m < |pool.nodes| ensures NodeMirrors(pool, m) {
        assert old(NodeMirrors(p, m));
      }
      FrameKeepsSized(p, pool);
    }

    /** node_push_import of the copy, which touches neither the left group nor the rest of the block. */
    method PushCopy(head: int, block: seq<nat>, used: nat, ghost first: int, ghost left: seq<nat>)
      returns (newHead: int)
      requires links.Valid() && 0 < used < |block| && EachOnce(block)
      requires forall i {:trigger left[i]} :: 0 <= i < |left| ==> left[i] !in block
      requires links.Linked(head, RowGroup(block, used - 1)) && links.Linked(first, left)
      requires forall i {:trigger block[i]} :: used <= i < |block| ==> links.Loose(block[i])
      modifies links.next, links.prev
      ensures links.Linked(newHead, RowGroup(block, used)) && links.Linked(first, left)
      ensures forall i {:trigger block[i]} :: used < i < |block| ==> links.Loose(block[i])
    {
      ghost var next, prev := links.next[..], links.prev[..];
      ghost var group := RowGroup(block, used - 1);
      forall i, j | 0 <= i < used <= j < |block| ensures block[i] != block[j] {
        assert Apart(block, i, j);
      }
      assert block[used] !in group;
      newHead := links.PushImport(head, block[used], group);
      forall i | used < i < |block| ensures links.Loose(block[i]) {
        assert old(links.Loose(block[i]));
        assert Apart(block, used, i);
        assert block[i] !in group;
      }
      forall i | 0 <= i < |left| && left[i] < |next|
        ensures links.next[left[i]] == next[left[i]] && links.prev[left[i]] == prev[left[i]]
      {
        assert ChainedAt(next, prev, left, i);
        assert left[i] !in block;
      }
      ChainedAgrees(next, prev, links.next[..], links.prev[..], left);
    }

    /**
     The row fql_cartesian_join builds (lib/fqlprocesses.c:320-331): walking the left group from
     its back, each record is copied into the next node of the block, and the copy goes in front.
     */
    method BuildRow(first: int, ghost left: seq<nat>, block: seq<nat>) returns (head: int)
      requires Valid() && RowReady(pool, left, block) && links.Linked(first, left)
      requires links.Linked(block[0], [block[0]])
      requires forall i {:trigger block[i]} :: 0 <= i < |block| ==> links.Loose(block[i])
      modifies this, refCount, copyOf, links.next, links.prev
      ensures Valid() && pool == CopyRow(old(pool), left, block, |left|)
      ensures links.Linked(head, RowGroup(block, |left|)) && links.Linked(first, left)
    {
      var leftNode := links.Back(first, left);
      head := block[0];
      var used := 0;
      while leftNode != NULL
        invariant 0 <= used <= |left|
        invariant leftNode == if used < |left| then left[|left| - 1 - used] else NULL
        invariant Built(head, used, first, left, block, old(pool))
        decreases |left| - used
      {
        used := used + 1;
        head, leftNode := AddCopy(head, used, first, leftNode, left, block, old(pool));
      }
    }

    /** The row after this many copies. */
    ghost predicate Built(head: int, used: nat, first: int, left: seq<nat>, block: seq<nat>, p: Pool)
      requires RowReady(p, left, block) && used <= |left|
      reads this, refCount, copyOf, root, roots.rings, Buffers(), links, links.next, links.prev
    {
      && Valid() && pool == CopyRow(p, left, block, used)
      && links.Linked(first, left) && links.Linked(head, RowGroup(block, used))
      && forall i {:trigger block[i]} :: used < i < |block| ==> links.Loose(block[i])
    }

    /** One round: the next record of the left group is copied and the copy goes in front. */
    method AddCopy(head: int, used: nat, ghost first: int, leftNode: int, ghost left: seq<nat>,
                   block: seq<nat>, ghost p: Pool)
      returns (newHead: int, nextLeft: int)
      requires RowReady(p, left, block) && 0 < used <= |left| && leftNode == left[|left| - used]
      requires Built(head, used - 1, first, left, block, p)
      modifies this, refCount, copyOf, links.next, links.prev
      ensures Built(newHead, used, first, left, block, p)
      ensures nextLeft == if used < |left| then left[|left| - 1 - used] else NULL
    {
      CopyNext(block, used, leftNode, left, p);
      newHead := PushCopy(head, block, used, first, left);
      assert ChainedAt(links.next[..], links.prev[..], left, |left| - used);
      nextLeft := links.prev[leftNode];
    }

    method CopyNext(block: seq<nat>, used: nat, leftNode: int, ghost left: seq<nat>, ghost p: Pool)
      requires RowReady(p, left, block) && 0 < used <= |left| && leftNode == left[|left| - used]
      requires Valid() && pool == CopyRow(p, left, block, used - 1)
      modifies this, refCount, copyOf
      ensures Valid() && pool == CopyRow(p, left, block, used)
    {
      assert left[|left| - used] !in block;
      RowKeeps(p, left, block, used - 1, leftNode);
      forall i | 0 < i <= used - 1 ensures block[i] != block[used] {
        assert Apart(block, i, used);
      }
      RowKeeps(p, left, block, used - 1, block[used]);
      CopyRecord(block[used], leftNode);
    }
  }

  /** The row after k copies: the k nodes of the block after the first, last used first. */
  function RowGroup(block: seq<nat>, k: nat): (g: seq<nat>)
    requires k < |block|
    ensures |g| == k + 1
    ensures forall i {:trigger g[i]} :: 0 <= i <= k ==> g[i] == block[k - i]
  {
    if k == 0 then [block[0]] else [block[k]] + RowGroup(block, k - 1)
  }

  /** The pool after the last k left records were copied. */
  ghost function CopyRow(p: Pool, left: seq<nat>, block: seq<nat>, k: nat): (q: Pool)
    requires k <= |left| && k < |block|
    requires forall i {:trigger left[i]} :: 0 <= i < |left| ==> left[i] < |p.nodes|
    requires forall i {:trigger block[i]} :: 0 <= i < |block| ==> block[i] < |p.nodes|
    ensures |q.nodes| == |p.nodes|
  {
    if k == 0 then p else CopyRow(p, left, block, k - 1).Copy(block[k], left[|left| - k])
  }

  /** One fresh record for the right source and one for every left record. */
  ghost predicate RowReady(p: Pool, left: seq<nat>, block: seq<nat>) {
    && |block| == |left| + 1
    && (forall i {:trigger left[i]} :: 0 <= i < |left| ==>
          left[i] < |p.nodes| && p.nodes[left[i]].status == Live && left[i] !in block)
    && (forall i {:trigger block[i]} :: 0 <= i < |block| ==>
          block[i] < |p.nodes| && p.nodes[block[i]].status == Live && p.nodes[block[i]].copyOf == None)
    && EachOnce(block)
  }

  /** What a record shows, as opposed to who refers to it. */
  ghost predicate Alike(n: Node, m: Node) {
    n.status == m.status && n.copyOf == m.copyOf && n.owner == m.owner
  }

  lemma CopyChanges(p: Pool, dst: nat, src: nat, m: nat)
    requires dst < |p.nodes| && src < |p.nodes| && m < |p.nodes| && dst != src
    ensures m != dst ==> Alike(p.Copy(dst, src).nodes[m], p.nodes[m])
    ensures m == dst ==> p.Copy(dst, src).nodes[m].copyOf == Some(src)
                         && p.Copy(dst, src).nodes[m].owner == p.nodes[src].owner
                         && p.Copy(dst, src).nodes[m].status == p.nodes[m].status
  {
  }

  /** The first k copies leave alone what they are not made into. */
  lemma {:induction false} RowKeeps(p: Pool, left: seq<nat>, block: seq<nat>, k: nat, m: nat)
    requires RowReady(p, left, block) && k <= |left| && m < |p.nodes|
    requires forall b {:trigger block[b]} :: 0 < b <= k ==> block[b] != m
    ensures Alike(CopyRow(p, left, block, k).nodes[m], p.nodes[m])
  {
    if k > 0 {
      RowKeeps(p, left, block, k - 1, m);
      assert left[|left| - k] !in block;
      CopyChanges(CopyRow(p, left, block, k - 1), block[k], left[|left| - k], m);
    }
  }

  /** The b-th copy is of the b-th left record from the back. */
  lemma {:induction false} RowCopies(p: Pool, left: seq<nat>, block: seq<nat>, k: nat, b: nat)
    requires RowReady(p, left, block) && 0 < b <= k <= |left|
    ensures var n, src := CopyRow(p, left, block, k).nodes[block[b]], left[|left| - b];
            n.status == Live && n.copyOf == Some(src) && n.owner == p.nodes[src].owner
  {
    var before, src := CopyRow(p, left, block, k - 1), left[|left| - k];
    assert src !in block;
    CopyChanges(before, block[k], src, block[b]);
    if b < k {
      RowCopies(p, left, block, k - 1, b);
      assert Apart(block, b, k);
    } else {
      RowKeeps(p, left, block, k - 1, src);
      forall i | 0 < i <= k - 1 ensures block[i] != block[k] {
        assert Apart(block, i, k);
      }
      RowKeeps(p, left, block, k - 1, block[k]);
    }
  }

  /**
   The built row shows the left group's texts in the left group's order and then the right
   record, whatever the left records themselves are copies of.
   */
  lemma RowShowsLeftThenRight(p: Pool, left: seq<nat>, block: seq<nat>)
    requires RowReady(p, left, block)
    ensures var q, g := CopyRow(p, left, block, |left|), RowGroup(block, |left|);
            && (forall i {:trigger left[i]} :: 0 <= i < |left| ==>
                  q.nodes[g[i]].owner == p.nodes[left[i]].owner)
            && g[|left|] == block[0] && Alike(q.nodes[block[0]], p.nodes[block[0]])
  {
    var q, g := CopyRow(p, left, block, |left|), RowGroup(block, |left|);
    forall i | 0 <= i < |left| ensures q.nodes[g[i]].owner == p.nodes[left[i]].owner {
      assert g[i] == block[|left| - i];
      RowCopies(p, left, block, |left|, |left| - i);
    }
    forall b | 0 < b <= |left| ensures block[b] != block[0] {
      assert Apart(block, 0, b);
    }
    RowKeeps(p, left, block, |left|, block[0]);
  }

  /** After a node gave up its source its own ring still has room for it. */
  lemma DetachKeepsRoom(p: Pool, node: nat)
    requires p.Valid() && p.OneIdle() && node < |p.nodes| && p.nodes[node].status == Live
    ensures var q := p.Detach(node);
            && node < |q.nodes| && q.nodes[node].root == p.nodes[node].root
            && q.nodes[node].root < |q.rings| == |p.rings|
            && |q.rings[q.nodes[node].root]| + 2 <= |p.AtHome(p.nodes[node].root)|
  {
    p.DetachKeepsValid(node);
    var q, k := p.Detach(node), p.nodes[node].root;
    assert p.Sourced(node);
    if p.nodes[node].copyOf.Some? {
      p.CopyIsCounted(node, p.nodes[node].copyOf.value);
    }
    assert SameFrame(p, q);
    FrameKeepsIdle(p, q);
    assert p.AtHome(k) == q.AtHome(k);
    q.RingHasRoom(k, node);
  }
}
