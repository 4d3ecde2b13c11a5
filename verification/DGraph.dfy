/** The process graph as the planner walks it (util/dgraph.c). */
module DGraph {
  import opened Common
  import opened Ring
  import opened Traversal
  import opened WalkRing

  /** How many links of the first n nodes lead to w. */
  function InLinks(g: Links, n: nat, w: int): nat
    requires n <= |g.out0| && n <= |g.out1|
  {
    if n == 0 then 0
    else InLinks(g, n - 1, w) + (if g.out0[n - 1] == w then 1 else 0) + (if g.out1[n - 1] == w then 1 else 0)
  }

  /** The nodes below n that no link leads to. */
  function RootsOf(g: Links, n: nat): (roots: seq<nat>)
    requires n <= |g.out0| == |g.out1|
    ensures forall v {:trigger v in roots} :: v in roots <==> 0 <= v < n && InLinks(g, |g.out0|, v) == 0
  {
    if n == 0 then []
    else RootsOf(g, n - 1) + if InLinks(g, |g.out0|, n - 1) == 0 then [n - 1] else []
  }

  lemma {:induction false} NoInLinks(g: Links, n: nat, w: nat)
    requires n <= |g.out0| == |g.out1| && w < |g.out0|
    ensures InLinks(g, n, w) == 0 <==> forall v {:trigger g.HasLink(v, w)} :: 0 <= v < n ==> !g.HasLink(v, w)
  {
    if n > 0 {
      NoInLinks(g, n - 1, w);
      assert g.HasLink(n - 1, w) <==> g.out0[n - 1] == w || g.out1[n - 1] == w;
    }
  }

  /** Links lead to nodes of lower rank, so there is no cycle. */
  ghost predicate Ranked(g: Links, rank: seq<nat>, max: nat) {
    && |rank| == |g.out0|
    && (forall v {:trigger rank[v]} :: 0 <= v < |rank| ==> rank[v] <= max)
    && forall v, w {:trigger g.HasLink(v, w)} ::
         g.HasLink(v, w) && v < |rank| && w < |rank| ==> rank[w] < rank[v]
  }

  /** Without a cycle every node is reached from the nodes no link leads to. */
  lemma {:induction false} AllAreReached(g: Links, rank: seq<nat>, max: nat, w: nat)
    requires g.Valid() && Ranked(g, rank, max) && g.IsNode(w)
    ensures g.Reaches(RootsOf(g, |g.out0|), w)
    decreases max - rank[w]
  {
    var roots := RootsOf(g, |g.out0|);
    if w in roots {
      g.RootsAreReached(roots, w);
    } else {
      NoInLinks(g, |g.out0|, w);
      var v :| 0 <= v < |g.out0| && g.HasLink(v, w);
      AllAreReached(g, rank, max, v);
      g.LinksAreReached(roots, v, w);
    }
  }

  class DGraph {
    const out0: array<int>
    const out1: array<int>
    const visitCount: array<nat>
    var roots: seq<nat>
    var rootIdx: nat
    var trav: Fifo<nat>

    /** dgraph_construct; the ring has five slots until the first walk. */
    constructor (n: nat)
      requires n <= WORD32 / 2
      ensures Valid() && fresh(Repr()) && out0.Length == n && roots == []
      ensures trav.buf.Length == 5 && trav.Contents() == [] && visitCount[..] == Zeros(n)
    {
      out0 := new int[n](_ => NULL);
      out1 := new int[n](_ => NULL);
      visitCount := new nat[n](_ => 0);
      trav := new Fifo(5);
      roots, rootIdx := [], 0;
    }

    ghost function Repr(): set<object>
      reads this
    {
      {this, out0, out1, visitCount, trav, trav.buf}
    }

    ghost predicate Valid()
      reads this, out0, out1, trav, trav.buf
    {
      && out0 != out1 && (visitCount as object) !in {out0 as object, out1, trav.buf}
      && (trav.buf as object) !in {out0 as object, out1}
      && out0.Length == out1.Length == visitCount.Length <= WORD32 / 2 && Graph().Valid()
      && trav.Valid()
    }

    ghost function Graph(): Links
      reads out0, out1
    {
      Links(out0[..], out1[..])
    }

    ghost function View(): Walk
      requires trav.Valid()
      reads this, visitCount, trav, trav.buf
    {
      Walk(visitCount[..], trav.Contents(), rootIdx)
    }

    /** The walk may go on: the ring has as many slots as the graph has nodes. */
    ghost predicate Walking()
      reads this, out0, out1, visitCount, trav, trav.buf
    {
      Valid() && trav.buf.Length == SlotsFor(out0.Length) && View().Sound(Graph(), roots)
    }

    /** _assume_roots, on a cleared root vector. */
    method AssumeRoots()
      requires Valid() && roots == []
      modifies `roots, visitCount
      ensures Valid() && roots == RootsOf(Graph(), out0.Length)
      ensures forall v {:trigger visitCount[v]} :: 0 <= v < visitCount.Length ==> visitCount[v] == 0
    {
      CountInLinks();
      for i := 0 to out0.Length
        invariant roots == RootsOf(Graph(), i)
        invariant forall v {:trigger visitCount[v]} :: 0 <= v < i ==> visitCount[v] == 0
        invariant forall v {:trigger visitCount[v]} :: i <= v < visitCount.Length ==>
                    visitCount[v] == InLinks(Graph(), out0.Length, v)
      {
        if visitCount[i] == 0 {
          roots := roots + [i];
        }
        visitCount[i] := 0;
      }
    }

    method ResetCounts()
      modifies visitCount
      ensures forall v {:trigger visitCount[v]} :: 0 <= v < visitCount.Length ==> visitCount[v] == 0
    {
      for i := 0 to visitCount.Length
        invariant forall v {:trigger visitCount[v]} :: 0 <= v < i ==> visitCount[v] == 0
      {
        visitCount[i] := 0;
      }
    }

    /** The loops that reset the counters and count the links to each node. */
    method CountInLinks()
      requires Valid()
      modifies visitCount
      ensures forall v {:trigger visitCount[v]} :: 0 <= v < visitCount.Length ==>
                visitCount[v] == InLinks(Graph(), out0.Length, v)
    {
      ResetCounts();
      for i := 0 to out0.Length
        invariant forall v {:trigger visitCount[v]} :: 0 <= v < visitCount.Length ==>
                    visitCount[v] == InLinks(Graph(), i, v)
      {
        if out0[i] != NULL {
          visitCount[out0[i]] := visitCount[out0[i]] + 1;
        }
        if out1[i] != NULL {
          visitCount[out1[i]] := visitCount[out1[i]] + 1;
        }
      }
    }

    /** dgraph_traverse_reset, when there is a root: the first root is entered by hand. */
    method TraverseReset()
      requires Valid() && roots != []
      requires forall r {:trigger r in roots} :: r in roots ==> Graph().IsNode(r)
      modifies `rootIdx, `trav, visitCount
      ensures Walking() && fresh(trav) && fresh(trav.buf) && View() == Start(Graph(), roots)
    {
      trav := new Fifo(out0.Length);
      rootIdx := 1;
      ResetCounts();
      trav.Add(roots[0]);
      assert visitCount[..] == Zeros(out0.Length);
      StartIsValid(Graph(), roots);
    }

    /** The slot was vacated last, and the queue stays in the ring if no more than room are added. */
    ghost predicate Vacated(slot: nat, room: nat)
      reads this, out0, out1, trav, trav.buf
    {
      && Valid() && trav.buf.Length == SlotsFor(out0.Length)
      && slot < trav.buf.Length && trav.tail == Next(slot, trav.buf.Length)
      && |trav.Contents()| + room <= trav.buf.Length
    }

    /** fifo_add on the work queue, without a look at its room. */
    method Enter(w: int, ghost slot: nat, ghost room: nat)
      requires Vacated(slot, room) && room > 0 && NULL <= w < out0.Length
      modifies trav`head, trav.buf
      ensures Vacated(slot, room - 1) && View() == EnterRing(old(View()), w)
      ensures trav.buf[slot] ==
              if Enters(visitCount[..], w) && |old(trav.Contents())| + 1 == trav.buf.Length then w
              else old(trav.buf[slot])
    {
      if w != NULL && visitCount[w] == 0 {
        trav.View().AddAppends(w);
        trav.Add(w);
      }
    }

    /**
     The last part of dgraph_traverse: a node leaves the queue and its outs enter it. The node is
     read from its slot each time, at the end too.
     */
    method Leave() returns (node: int)
      requires Walking() && trav.Contents() != []
      modifies trav`head, trav`tail, trav.buf, visitCount
      ensures Valid() && trav.buf.Length == SlotsFor(out0.Length)
      ensures var t, g := old(View()), Graph();
              t.queue[0] < visitCount.Length && View() == LeaveRing(t, g) && node == Reread(t, g)
    {
      ghost var t, g := View(), Graph();
      var slot := trav.tail;
      Mark();
      OverflowsExactly(t, g, visitCount[..]);
      node := EnterOuts(slot);
    }

    method EnterOuts(slot: nat) returns (node: int)
      requires Vacated(slot, 2) && trav.buf[slot] < out0.Length
      modifies trav`head, trav.buf
      ensures Valid() && trav.buf.Length == SlotsFor(out0.Length)
      ensures var v := old(trav.buf[slot]);
              && View() == EnterRing(EnterRing(old(View()), out0[v]), out1[v])
              && node == if Enters(visitCount[..], out0[v]) && Enters(visitCount[..], out1[v])
                            && |old(trav.Contents())| + 2 == trav.buf.Length then out1[v] else v
    {
      Enter(out0[trav.buf[slot]], slot, 2);
      Enter(out1[trav.buf[slot]], slot, 1);
      node := trav.buf[slot];
    }

    method Mark()
      requires Walking() && trav.Contents() != []
      modifies trav`tail, visitCount
      ensures Vacated(old(trav.tail), 2) && trav.buf[old(trav.tail)] == old(View()).queue[0] < visitCount.Length
      ensures var t := old(View());
              var v := t.queue[0];
              View() == Walk(t.visits[v := t.visits[v] + 1], t.queue[1..], t.rootIdx)
    {
      assert View().queue[0] in View().queue;
      var node := trav.Get();
      visitCount[node] := visitCount[node] + 1;
    }

    /** The loop that looks for a root to enter while the queue is empty. */
    method EnterNextRoot()
      requires Walking()
      modifies `rootIdx, trav`head, trav.buf
      ensures Valid() && View() == old(View()).NextRoot(roots)
    {
      while trav.IsEmpty() && rootIdx < |roots|
        invariant Valid() && rootIdx <= |roots| && trav.buf.Length == SlotsFor(out0.Length)
        invariant View().NextRoot(roots) == old(View()).NextRoot(roots)
        decreases |roots| - rootIdx
      {
        var root := roots[rootIdx];
        assert root in roots;
        rootIdx := rootIdx + 1;
        if visitCount[root] > 0 {
          continue;
        }
        trav.Add(root);
      }
    }

    /**
     dgraph_traverse: the next node, or null when the queue and the roots are used up. Where the
     source calls itself the queue holds one root, and the call only takes it out again.
     */
    method Traverse() returns (node: int)
      requires Walking()
      modifies `rootIdx, trav`head, trav`tail, trav.buf, visitCount
      ensures Walking() && View() == CallRing(old(View()), Graph(), roots)
      ensures node == Returned(old(View()), Graph(), roots)
    {
      ghost var t, g := View(), Graph();
      t.NextRootKeepsSound(g, roots);
      CallRingIs(t, t.NextRoot(roots), g, roots);
      EnterNextRoot();
      if trav.IsEmpty() {
        return NULL;
      }
      node := Leave();
      assert View() == CallRing(t, g, roots);
    }

    ghost predicate Walked(g: Links, returned: seq<nat>, taken: seq<nat>)
      reads this, out0, out1, visitCount, trav, trav.buf
    {
      Walking() && Graph() == g && WalkedTo(View(), g, roots, returned, taken)
    }

    /** The last call took nothing. */
    ghost predicate Ended(g: Links, returned: seq<nat>, taken: seq<nat>)
      reads this, out0, out1, visitCount, trav, trav.buf
    {
      && Valid() && Graph() == g
      && exists t {:trigger WalkedTo(t, g, roots, returned, taken)} ::
           WalkedTo(t, g, roots, returned, taken) && Taken(t, roots) == NULL && visitCount[..] == t.visits
    }

    /** One round of the planner's loop. */
    method TraverseOn(ghost g: Links, ghost returned: seq<nat>, ghost taken: seq<nat>)
      returns (node: int, ghost took: int)
      requires Walked(g, returned, taken)
      modifies `rootIdx, trav`head, trav`tail, trav.buf, visitCount
      ensures node == NULL ==> Ended(g, returned, taken)
      ensures node != NULL ==> 0 <= node && 0 <= took && Walked(g, returned + [node], taken + [took])
      ensures node != NULL ==> IsNearer(View(), old(View()))
    {
      ghost var t := View();
      took := Taken(t, roots);
      node := Traverse();
      CallGoesOn(t, g, roots, returned, taken);
    }

    method CallUntilNull(ghost g: Links) returns (returned: seq<nat>, ghost taken: seq<nat>)
      requires Walked(g, [], [])
      modifies `rootIdx, trav`head, trav`tail, trav.buf, visitCount
      ensures Ended(g, returned, taken)
    {
      returned, taken := [], [];
      while true
        invariant Walked(g, returned, taken)
        decreases |View().Unseen()|, View().Ahead(View().queue)
      {
        var node;
        ghost var took;
        node, took := TraverseOn(g, returned, taken);
        if node == NULL {
          return;
        }
        returned, taken := returned + [node], taken + [took];
      }
    }

    /**
     The planner's loop: calls until null. It always ends, and every node it sees is reached from the
     roots. The counters count the nodes taken from the queue; these are the nodes returned, call by
     call, exactly when the ring suffices, and then they are all nodes that are reached.
     */
    method WalkAll() returns (returned: seq<nat>, ghost taken: seq<nat>)
      requires Valid() && roots != []
      requires forall r {:trigger r in roots} :: r in roots ==> Graph().IsNode(r)
      modifies `rootIdx, `trav, visitCount
      ensures Valid() && Start(Graph(), roots).Sound(Graph(), roots)
      ensures Logs(Start(Graph(), roots), Graph(), roots, returned, taken) && Counts(visitCount[..], taken)
      ensures returned == taken <==> RingSuffices(Start(Graph(), roots), Graph(), roots)
      ensures forall v: nat {:trigger v in returned} ::
                v in returned ==> Graph().IsNode(v) && Graph().Reaches(roots, v)
      ensures RingSuffices(Start(Graph(), roots), Graph(), roots) ==>
                forall v: nat {:trigger v in returned} ::
                  v in returned <==> Graph().IsNode(v) && Graph().Reaches(roots, v)
    {
      ghost var g := Graph();
      StartIsValid(g, roots);
      TraverseReset();
      returned, taken := CallUntilNull(g);
      WalkEnds(visitCount[..], g, roots, returned, taken);
    }
  }

  /** The walk so far: the calls made, and what they took, which the counters count, and returned. */
  ghost predicate WalkedTo(t: Walk, g: Links, roots: seq<nat>, returned: seq<nat>, taken: seq<nat>) {
    && roots != [] && Start(g, roots).Sound(g, roots) && Held(t)
    && t == RingCalls(Start(g, roots), g, roots, |taken|)
    && Counts(t.visits, taken) && Logs(Start(g, roots), g, roots, returned, taken)
  }

  /** The measure of the walk goes down. */
  ghost predicate IsNearer(r: Walk, t: Walk) {
    |r.Unseen()| < |t.Unseen()| || (|r.Unseen()| == |t.Unseen()| && r.Ahead(r.queue) < t.Ahead(t.queue))
  }

  lemma CallGoesOn(t: Walk, g: Links, roots: seq<nat>, returned: seq<nat>, taken: seq<nat>)
    requires t.Sound(g, roots) && WalkedTo(t, g, roots, returned, taken)
    ensures var r, v, w := CallRing(t, g, roots), Returned(t, g, roots), Taken(t, roots);
            if v == NULL then w == NULL && r.visits == t.visits
            else 0 <= v && 0 <= w && IsNearer(r, t) && WalkedTo(r, g, roots, returned + [v], taken + [w])
  {
    CallIsCounted(t, g, roots);
    if Taken(t, roots) != NULL {
      OneCallAgrees(t, g, roots);
      RingMakesProgress(t, g, roots);
      CountsMore(t.visits, taken, Taken(t, roots));
      LogsMore(Start(g, roots), g, roots, returned, taken, Returned(t, g, roots), Taken(t, roots));
    }
  }

  /** The counters say how often each node was taken. */
  ghost predicate Counts(visits: seq<nat>, taken: seq<nat>) {
    && (forall v: nat {:trigger v in taken} :: v in taken ==> v < |visits|)
    && (forall v: nat {:trigger visits[v]} :: v < |visits| ==> visits[v] == multiset(taken)[v])
  }

  lemma CountsMore(visits: seq<nat>, taken: seq<nat>, node: nat)
    requires Counts(visits, taken) && node < |visits|
    ensures Counts(visits[node := visits[node] + 1], taken + [node])
  {
  }

  /** What one call does to the counters, by the node it takes. */
  lemma CallIsCounted(t: Walk, g: Links, roots: seq<nat>)
    requires t.Sound(g, roots) && Held(t)
    ensures var v, r := Taken(t, roots), CallRing(t, g, roots);
            && (v == NULL <==> t.NextRoot(roots).queue == []) && (v == NULL <==> Returned(t, g, roots) == NULL)
            && if v == NULL then r.visits == t.visits
               else 0 <= v < |t.visits| && r.visits == t.visits[v := t.visits[v] + 1] && 0 <= Returned(t, g, roots)
  {
    var next := t.NextRoot(roots);
    t.NextRootFacts(roots);
    CallRingIs(t, next, g, roots);
    QueueHoldsNodes(t, g, roots);
    if next.queue != [] {
      LeaveRingMarks(next, g);
      ReturnedIsReached(t, g, roots);
    }
  }

  lemma WalkEnds(visits: seq<nat>, g: Links, roots: seq<nat>, returned: seq<nat>, taken: seq<nat>)
    requires roots != [] && Start(g, roots).Valid(g, roots)
    requires exists t {:trigger WalkedTo(t, g, roots, returned, taken)} ::
               WalkedTo(t, g, roots, returned, taken) && Taken(t, roots) == NULL && visits == t.visits
    ensures Logs(Start(g, roots), g, roots, returned, taken) && Counts(visits, taken)
    ensures returned == taken <==> RingSuffices(Start(g, roots), g, roots)
    ensures forall v: nat {:trigger v in returned} :: v in returned ==> g.IsNode(v) && g.Reaches(roots, v)
    ensures RingSuffices(Start(g, roots), g, roots) ==>
              forall v: nat {:trigger v in returned} :: v in returned <==> g.IsNode(v) && g.Reaches(roots, v)
  {
    var t := Start(g, roots);
    ReturnedAsTakenExactly(t, g, roots, returned, taken);
    forall v: nat | v in returned ensures g.IsNode(v) && g.Reaches(roots, v) {
      var i: nat :| i < |returned| && returned[i] == v;
      assert LogsCall(t, g, roots, returned, taken, i);
      RingIsHeld(t, g, roots, i);
      CallIsCounted(RingCalls(t, g, roots, i), g, roots);
      ReturnedIsReached(RingCalls(t, g, roots, i), g, roots);
    }
    if RingSuffices(t, g, roots) {
      HeldWalksAgree(t, g, roots, |taken|);
      CallsAreValid(t, g, roots, |taken|);
      AllReturned(Calls(t, g, roots, |taken|), g, roots, taken);
    }
  }

  lemma AllReturned(t: Walk, g: Links, roots: seq<nat>, taken: seq<nat>)
    requires t.Valid(g, roots) && Taken(t, roots) == NULL && Counts(t.visits, taken)
    ensures forall v: nat {:trigger v in taken} :: v in taken <==> g.IsNode(v) && g.Reaches(roots, v)
  {
    var next := t.NextRoot(roots);
    t.NextRootKeepsValid(g, roots);
    t.NextRootFacts(roots);
    QueueHoldsNodes(t, g, roots);
    forall v: nat ensures v in taken <==> g.IsNode(v) && g.Reaches(roots, v) {
      assert v in taken <==> multiset(taken)[v] > 0;
      if g.IsNode(v) {
        next.EndIsComplete(g, roots, v);
        assert t.visits[v] == multiset(taken)[v];
      }
    }
  }

  /**
   In particular on a graph without cycles in which no two links lead to the same node: the walk
   from the nodes no link leads to returns every node.
   */
  lemma ForestIsWalked(g: Links, rank: seq<nat>, max: nat, w: nat)
    requires g.Valid() && Ranked(g, rank, max) && g.IsNode(w)
    requires forall v {:trigger InLinks(g, |g.out0|, v)} :: 0 <= v < |g.out0| ==> InLinks(g, |g.out0|, v) <= 1
    ensures var roots := RootsOf(g, |g.out0|);
            && roots != [] && g.Reaches(roots, w)
            && Start(g, roots).Sound(g, roots) && RingSuffices(Start(g, roots), g, roots)
  {
    var roots := RootsOf(g, |g.out0|);
    AllAreReached(g, rank, max, w);
    forall u, v, x | g.HasLink(u, x) && g.HasLink(v, x) ensures u == v {
      assert InLinks(g, |g.out0|, x) <= 1;
      if u != v {
        TwoLinks(g, |g.out0|, u, v, x);
      }
    }
    forall v | 0 <= v < |g.out0| && v < |g.out1| && g.out0[v] != NULL ensures g.out0[v] != g.out1[v] {
      assert InLinks(g, |g.out0|, g.out0[v]) <= 1;
      if g.out0[v] == g.out1[v] {
        TwoLinks(g, |g.out0|, v, v, g.out0[v]);
      }
    }
    forall v, r | r in roots ensures !g.HasLink(v, r) {
      NoInLinks(g, |g.out0|, r);
    }
    OneWayInSuffices(g, roots);
  }

  /** Two links are counted as two. */
  lemma {:induction false} TwoLinks(g: Links, n: nat, u: nat, v: nat, w: int)
    requires n <= |g.out0| == |g.out1| && u < |g.out0| && v < |g.out0|
    requires if u == v then g.out0[u] == w && g.out1[u] == w else g.HasLink(u, w) && g.HasLink(v, w)
    ensures InLinks(g, n, w) >= if u == v then (if u < n then 2 else 0)
                                else (if u < n then 1 else 0) + (if v < n then 1 else 0)
  {
    if n > 0 {
      TwoLinks(g, n - 1, u, v, w);
    }
  }
}
