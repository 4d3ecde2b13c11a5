/**
 The work queue of dgraph_traverse is a ring of as many slots as the graph has nodes, and nothing
 checks for room (util/dgraph.c:158-202). This module says when the walk over the ring is the walk
 over an unbounded queue, and gives a property of the graph under which it is.

 A call keeps the address of the slot its node was taken from and reads the node there again after
 the outs were added, so where the ring overflows it returns another node than the one it took.
 */
module WalkRing {
  import opened Common
  import opened Traversal

  /** fifo_resize. */
  function SlotsFor(nodes: nat): nat
  {
    if nodes <= 1 then 2 else nodes
  }

  /** Adding to a ring with one slot left makes it read as empty, see Ring.Slots.AddAppends. */
  function Push(q: seq<nat>, w: nat, slots: nat): seq<nat>
  {
    if |q| + 1 == slots then [] else q + [w]
  }

  function EnterRing(t: Walk, w: int): Walk
  {
    if 0 <= w < |t.visits| && t.visits[w] == 0 then t.(queue := Push(t.queue, w, SlotsFor(|t.visits|)))
    else t
  }

  function LeaveRing(t: Walk, g: Links): Walk
    requires t.queue != [] && t.queue[0] < |t.visits| && |t.visits| == |g.out0| == |g.out1|
  {
    var v := t.queue[0];
    EnterRing(EnterRing(Walk(t.visits[v := t.visits[v] + 1], t.queue[1..], t.rootIdx), g.out0[v]), g.out1[v])
  }

  lemma LeaveRingMarks(t: Walk, g: Links)
    requires t.queue != [] && t.queue[0] < |t.visits| && |t.visits| == |g.out0| == |g.out1|
    ensures LeaveRing(t, g).visits == t.visits[t.queue[0] := t.visits[t.queue[0]] + 1]
    ensures LeaveRing(t, g).rootIdx == t.rootIdx
  {
  }

  /** The queue is one that the ring can hold. */
  ghost predicate Held(t: Walk) {
    |t.queue| < SlotsFor(|t.visits|)
  }

  /** Leaving is the same on both queues exactly when the unbounded one stays below the slots. */
  lemma OneLeaveAgrees(t: Walk, g: Links)
    requires t.queue != [] && t.queue[0] < |t.visits| && |t.visits| == |g.out0| == |g.out1| && Held(t)
    ensures LeaveRing(t, g) == t.Leave(g) <==> Held(t.Leave(g))
    ensures !Held(t.Leave(g)) ==> LeaveRing(t, g) == t.Leave(g).(queue := [])
    ensures Held(LeaveRing(t, g))
  {
  }

  /** The out will be added: it is a node that is not marked. */
  predicate Enters(visits: seq<nat>, w: int) {
    0 <= w < |visits| && visits[w] == 0
  }

  /** The ring overflows when it was full and both outs are added, and then the second ends in the slot. */
  lemma OverflowsExactly(t: Walk, g: Links, marked: seq<nat>)
    requires t.queue != [] && t.queue[0] < |t.visits| && |t.visits| == |g.out0| == |g.out1| && Held(t)
    requires marked == t.visits[t.queue[0] := t.visits[t.queue[0]] + 1]
    ensures var v := t.queue[0];
            !Held(t.Leave(g)) <==>
            |t.queue| + 1 == SlotsFor(|t.visits|) && Enters(marked, g.out0[v]) && Enters(marked, g.out1[v])
  {
  }

  /** What stands in the slot at the end of the call. */
  ghost function Reread(t: Walk, g: Links): int
    requires t.queue != [] && t.queue[0] < |t.visits| && |t.visits| == |g.out0| == |g.out1|
  {
    if Held(t.Leave(g)) then t.queue[0] else g.out1[t.queue[0]]
  }

  lemma RereadDiffers(t: Walk, g: Links)
    requires t.queue != [] && t.queue[0] < |t.visits| && |t.visits| == |g.out0| == |g.out1| && Held(t)
    requires !Held(t.Leave(g))
    ensures 0 <= Reread(t, g) < |t.visits| && Reread(t, g) != t.queue[0] && g.HasLink(t.queue[0], Reread(t, g))
  {
    OverflowsExactly(t, g, t.visits[t.queue[0] := t.visits[t.queue[0]] + 1]);
  }

  /** One call of dgraph_traverse over the ring. */
  ghost function CallRing(t: Walk, g: Links, roots: seq<nat>): (r: Walk)
    requires t.Sound(g, roots)
    ensures r.Sound(g, roots)
  {
    t.NextRootKeepsSound(g, roots);
    var next := t.NextRoot(roots);
    if next.queue == [] then next
    else
      next.LeaveKeepsSound(g, roots);
      LeaveRingIsSound(next, g, roots);
      LeaveRing(next, g)
  }

  /** A call moves on to a root with something to enter, and takes a node out of the queue. */
  lemma CallRingIs(t: Walk, next: Walk, g: Links, roots: seq<nat>)
    requires t.Sound(g, roots) && next == t.NextRoot(roots)
    ensures if next.queue == [] then CallRing(t, g, roots) == next
            else next.queue[0] < |next.visits| == |g.out0| == |g.out1|
                 && CallRing(t, g, roots) == LeaveRing(next, g)
  {
    t.NextRootKeepsSound(g, roots);
    if next.queue != [] {
      next.LeaveKeepsSound(g, roots);
    }
  }

  lemma LeaveRingIsSound(t: Walk, g: Links, roots: seq<nat>)
    requires t.Sound(g, roots) && t.queue != [] && t.queue[0] < |t.visits|
    ensures LeaveRing(t, g).Sound(g, roots)
  {
    t.LeaveKeepsSound(g, roots);
    var r, u := LeaveRing(t, g), t.Leave(g);
    LeaveRingKeepsLess(t, g);
    forall v | r.Seen(v) ensures g.Reaches(roots, v) {
      assert u.Seen(v);
    }
    forall q | q in r.queue ensures g.IsNode(q) && g.Reaches(roots, q) {
      assert q in u.queue;
    }
  }

  lemma LeaveRingKeepsLess(t: Walk, g: Links)
    requires t.queue != [] && t.queue[0] < |t.visits| && |t.visits| == |g.out0| == |g.out1|
    ensures LeaveRing(t, g).visits == t.Leave(g).visits && LeaveRing(t, g).rootIdx == t.Leave(g).rootIdx
    ensures forall q {:trigger q in LeaveRing(t, g).queue} :: q in LeaveRing(t, g).queue ==> q in t.Leave(g).queue
  {
  }

  lemma OneCallAgrees(t: Walk, g: Links, roots: seq<nat>)
    requires t.Sound(g, roots) && Held(t)
    ensures CallRing(t, g, roots) == t.Call(g, roots) <==> Held(t.Call(g, roots))
    ensures Held(CallRing(t, g, roots))
  {
    t.NextRootKeepsSound(g, roots);
    t.NextRootFacts(roots);
    var next := t.NextRoot(roots);
    NextRootIsHeld(t, roots);
    if next.queue != [] {
      next.LeaveKeepsSound(g, roots);
      OneLeaveAgrees(next, g);
    }
  }

  lemma {:induction false} NextRootIsHeld(t: Walk, roots: seq<nat>)
    requires Held(t)
    ensures Held(t.NextRoot(roots))
    decreases |roots| - t.rootIdx
  {
    if t.queue == [] && t.rootIdx < |roots| && t.Seen(roots[t.rootIdx]) {
      NextRootIsHeld(t.(rootIdx := t.rootIdx + 1), roots);
    }
  }

  /** The node a call takes out of the queue and counts, or null. */
  ghost function Taken(t: Walk, roots: seq<nat>): int
  {
    var next := t.NextRoot(roots);
    if next.queue == [] then NULL else next.queue[0]
  }

  /** The node it returns, or null. */
  ghost function Returned(t: Walk, g: Links, roots: seq<nat>): int
    requires t.Sound(g, roots)
  {
    var next := t.NextRoot(roots);
    CallRingIs(t, next, g, roots);
    if next.queue == [] then NULL else Reread(next, g)
  }

  /** A call returns the node it took exactly when it does what it does on an unbounded queue. */
  lemma ReturnedIsTaken(t: Walk, g: Links, roots: seq<nat>)
    requires t.Sound(g, roots) && Held(t)
    ensures Returned(t, g, roots) == Taken(t, roots) <==> CallRing(t, g, roots) == t.Call(g, roots)
  {
    var next := t.NextRoot(roots);
    CallRingIs(t, next, g, roots);
    NextRootIsHeld(t, roots);
    if next.queue != [] {
      OneLeaveAgrees(next, g);
      if !Held(next.Leave(g)) {
        RereadDiffers(next, g);
      }
    }
  }

  /** Either way the node is one that is reached. */
  lemma ReturnedIsReached(t: Walk, g: Links, roots: seq<nat>)
    requires t.Sound(g, roots) && Held(t) && Taken(t, roots) != NULL
    ensures var v := Returned(t, g, roots); g.IsNode(v) && g.Reaches(roots, v)
  {
    var next := t.NextRoot(roots);
    t.NextRootKeepsSound(g, roots);
    CallRingIs(t, next, g, roots);
    NextRootIsHeld(t, roots);
    assert next.queue[0] in next.queue;
    if !Held(next.Leave(g)) {
      RereadDiffers(next, g);
      g.LinksAreReached(roots, next.queue[0], Reread(next, g));
    }
  }

  /* ---- Any number of calls ---- */

  ghost function Calls(t: Walk, g: Links, roots: seq<nat>, n: nat): (r: Walk)
    requires t.Sound(g, roots)
    ensures r.Sound(g, roots)
  {
    if n == 0 then t else Calls(t, g, roots, n - 1).Call(g, roots)
  }

  ghost function RingCalls(t: Walk, g: Links, roots: seq<nat>, n: nat): (r: Walk)
    requires t.Sound(g, roots)
    ensures r.Sound(g, roots)
  {
    if n == 0 then t else CallRing(RingCalls(t, g, roots, n - 1), g, roots)
  }

  ghost predicate AgreesAt(t: Walk, g: Links, roots: seq<nat>, n: nat)
    requires t.Sound(g, roots)
  {
    RingCalls(t, g, roots, n) == Calls(t, g, roots, n)
  }

  ghost predicate HeldAt(t: Walk, g: Links, roots: seq<nat>, n: nat)
    requires t.Sound(g, roots)
  {
    Held(Calls(t, g, roots, n))
  }

  /** The unbounded queue never fills the ring. */
  ghost predicate RingSuffices(t: Walk, g: Links, roots: seq<nat>)
    requires t.Sound(g, roots)
  {
    forall n: nat {:trigger HeldAt(t, g, roots, n)} :: HeldAt(t, g, roots, n)
  }

  /**
   The walk over the ring is the walk over an unbounded queue after every number of calls, if and
   only if no queue of the unbounded walk reaches the number of slots.
   */
  lemma RingIsExact(t: Walk, g: Links, roots: seq<nat>)
    requires t.Sound(g, roots) && Held(t)
    ensures RingSuffices(t, g, roots) <==>
            forall n: nat {:trigger AgreesAt(t, g, roots, n)} :: AgreesAt(t, g, roots, n)
  {
    if RingSuffices(t, g, roots) {
      forall n: nat ensures AgreesAt(t, g, roots, n) {
        HeldWalksAgree(t, g, roots, n);
      }
    }
    if forall n: nat {:trigger AgreesAt(t, g, roots, n)} :: AgreesAt(t, g, roots, n) {
      forall n: nat ensures HeldAt(t, g, roots, n) {
        assert AgreesAt(t, g, roots, n);
        RingIsHeld(t, g, roots, n);
      }
    }
  }

  lemma {:induction false} HeldWalksAgree(t: Walk, g: Links, roots: seq<nat>, n: nat)
    requires t.Sound(g, roots) && RingSuffices(t, g, roots)
    ensures AgreesAt(t, g, roots, n)
  {
    if n > 0 {
      HeldWalksAgree(t, g, roots, n - 1);
      assert HeldAt(t, g, roots, n - 1) && HeldAt(t, g, roots, n);
      OneCallAgrees(Calls(t, g, roots, n - 1), g, roots);
    }
  }

  lemma {:induction false} RingIsHeld(t: Walk, g: Links, roots: seq<nat>, n: nat)
    requires t.Sound(g, roots) && Held(t)
    ensures Held(RingCalls(t, g, roots, n))
  {
    if n > 0 {
      RingIsHeld(t, g, roots, n - 1);
      OneCallAgrees(RingCalls(t, g, roots, n - 1), g, roots);
    }
  }

  lemma {:induction false} CallsAreValid(t: Walk, g: Links, roots: seq<nat>, n: nat)
    requires t.Valid(g, roots)
    ensures Calls(t, g, roots, n).Valid(g, roots)
  {
    if n > 0 {
      var before := Calls(t, g, roots, n - 1);
      CallsAreValid(t, g, roots, n - 1);
      before.CallKeepsValid(g, roots);
      assert Calls(t, g, roots, n) == before.Call(g, roots);
    }
  }

  /** What call number i took and returned. */
  ghost predicate LogsCall(t: Walk, g: Links, roots: seq<nat>, returned: seq<nat>, taken: seq<nat>, i: nat)
    requires t.Sound(g, roots) && i < |returned| == |taken|
  {
    var r := RingCalls(t, g, roots, i);
    taken[i] == Taken(r, roots) && returned[i] == Returned(r, g, roots)
  }

  ghost predicate Logs(t: Walk, g: Links, roots: seq<nat>, returned: seq<nat>, taken: seq<nat>)
    requires t.Sound(g, roots)
  {
    && |returned| == |taken|
    && forall i: nat :: i < |taken| ==> LogsCall(t, g, roots, returned, taken, i)
  }

  lemma LogsMore(t: Walk, g: Links, roots: seq<nat>, returned: seq<nat>, taken: seq<nat>, v: nat, w: nat)
    requires t.Sound(g, roots) && Logs(t, g, roots, returned, taken)
    requires var r := RingCalls(t, g, roots, |taken|); w == Taken(r, roots) && v == Returned(r, g, roots)
    ensures Logs(t, g, roots, returned + [v], taken + [w])
  {
    forall i: nat | i < |taken| + 1 ensures LogsCall(t, g, roots, returned + [v], taken + [w], i) {
      assert i < |taken| ==> LogsCall(t, g, roots, returned, taken, i);
    }
  }

  /** As long as all calls return what they take, the walk is that over an unbounded queue. */
  lemma {:induction false} AgreesWhileReturned(t: Walk, g: Links, roots: seq<nat>, returned: seq<nat>, n: nat)
    requires t.Sound(g, roots) && Held(t) && Logs(t, g, roots, returned, returned) && n <= |returned|
    ensures AgreesAt(t, g, roots, n)
  {
    if n > 0 {
      AgreesWhileReturned(t, g, roots, returned, n - 1);
      RingIsHeld(t, g, roots, n - 1);
      assert LogsCall(t, g, roots, returned, returned, n - 1);
      ReturnedIsTaken(RingCalls(t, g, roots, n - 1), g, roots);
    }
  }

  lemma NullCallIsLast(t: Walk, g: Links, roots: seq<nat>)
    requires t.Sound(g, roots) && Taken(t, roots) == NULL
    ensures t.Call(g, roots).queue == [] && Taken(t.Call(g, roots), roots) == NULL
  {
    t.NextRootFacts(roots);
    QueueHoldsNodes(t, g, roots);
  }

  /** After a call that returned null nothing is queued any more. */
  lemma {:induction false} EndedWalkStays(t: Walk, g: Links, roots: seq<nat>, n: nat, k: nat)
    requires t.Sound(g, roots) && Taken(Calls(t, g, roots, n), roots) == NULL && k >= n
    ensures Taken(Calls(t, g, roots, k), roots) == NULL
    ensures k > n ==> Calls(t, g, roots, k).queue == []
    decreases k
  {
    if k > n {
      EndedWalkStays(t, g, roots, n, k - 1);
      NullCallIsLast(Calls(t, g, roots, k - 1), g, roots);
    }
  }

  lemma QueueHoldsNodes(t: Walk, g: Links, roots: seq<nat>)
    requires t.Sound(g, roots)
    ensures t.NextRoot(roots).queue != [] ==> Taken(t, roots) != NULL
  {
    t.NextRootKeepsSound(g, roots);
    var next := t.NextRoot(roots);
    assert next.queue != [] ==> next.queue[0] in next.queue;
  }

  /**
   A walk that ran to its end returned exactly the nodes it took, call by call, if and only if the
   ring suffices.
   */
  lemma ReturnedAsTakenExactly(t: Walk, g: Links, roots: seq<nat>, returned: seq<nat>, taken: seq<nat>)
    requires t.Sound(g, roots) && Held(t) && Logs(t, g, roots, returned, taken)
    requires Taken(RingCalls(t, g, roots, |taken|), roots) == NULL
    ensures returned == taken <==> RingSuffices(t, g, roots)
  {
    if returned == taken {
      AgreesWhileReturned(t, g, roots, returned, |taken|);
      assert AgreesAt(t, g, roots, |taken|);
      forall n: nat ensures HeldAt(t, g, roots, n) {
        if n <= |taken| {
          AgreesWhileReturned(t, g, roots, returned, n);
          RingIsHeld(t, g, roots, n);
        } else {
          EndedWalkStays(t, g, roots, |taken|, n);
        }
      }
    }
    if RingSuffices(t, g, roots) {
      forall i: nat | i < |taken| ensures returned[i] == taken[i] {
        assert LogsCall(t, g, roots, returned, taken, i);
        SufficientCallAgrees(t, g, roots, i);
      }
    }
  }

  lemma SufficientCallAgrees(t: Walk, g: Links, roots: seq<nat>, i: nat)
    requires t.Sound(g, roots) && RingSuffices(t, g, roots)
    ensures var r := RingCalls(t, g, roots, i); Returned(r, g, roots) == Taken(r, roots)
  {
    HeldWalksAgree(t, g, roots, i);
    HeldWalksAgree(t, g, roots, i + 1);
    assert HeldAt(t, g, roots, i);
    ReturnedIsTaken(RingCalls(t, g, roots, i), g, roots);
  }

  /** The walk over the ring comes nearer to its end even when the ring overflows. */
  lemma RingMakesProgress(t: Walk, g: Links, roots: seq<nat>)
    requires t.Sound(g, roots) && Held(t) && t.NextRoot(roots).queue != []
    ensures |CallRing(t, g, roots).Unseen()| <= |t.Unseen()|
    ensures |CallRing(t, g, roots).Unseen()| == |t.Unseen()| ==>
              CallRing(t, g, roots).Ahead(CallRing(t, g, roots).queue) < t.Ahead(t.queue)
  {
    var next := t.NextRoot(roots);
    t.CallMakesProgress(g, roots);
    t.NextRootKeepsSound(g, roots);
    NextRootIsHeld(t, roots);
    next.LeaveKeepsSound(g, roots);
    OneLeaveAgrees(next, g);
    assert CallRing(t, g, roots).Unseen() == t.Call(g, roots).Unseen();
  }

  /* ---- A property of the graph ---- */

  /** No node is entered in two ways: by two links, or by a link and as a root. */
  ghost predicate OneWayIn(g: Links, roots: seq<nat>) {
    && (forall u, v, w {:trigger g.HasLink(u, w), g.HasLink(v, w)} :: g.HasLink(u, w) && g.HasLink(v, w) ==> u == v)
    && (forall v {:trigger g.out0[v]} :: 0 <= v < |g.out0| && v < |g.out1| && g.out0[v] != NULL ==>
          g.out0[v] != g.out1[v])
    && (forall v, r {:trigger g.HasLink(v, r)} :: r in roots ==> !g.HasLink(v, r))
  }

  /** Queued nodes are different and unmarked, and each got there as a root or over a link. */
  ghost predicate Tidy(t: Walk, g: Links, roots: seq<nat>) {
    && (forall i, j :: 0 <= i < j < |t.queue| ==> t.queue[i] != t.queue[j])
    && (forall q {:trigger t.Seen(q)} {:trigger q in t.queue} :: q in t.queue ==> !t.Seen(q))
    && (forall q {:trigger CameIn(t, g, roots, q)} :: q in t.queue ==> CameIn(t, g, roots, q))
  }

  ghost predicate CameIn(t: Walk, g: Links, roots: seq<nat>, q: int) {
    q in roots || exists v {:trigger g.HasLink(v, q)} :: t.Seen(v) && g.HasLink(v, q)
  }

  lemma LeaveIsTidy(t: Walk, g: Links, roots: seq<nat>)
    requires OneWayIn(g, roots) && t.Sound(g, roots) && Tidy(t, g, roots) && t.queue != []
    ensures t.queue[0] < |t.visits| && Tidy(t.Leave(g), g, roots)
  {
    var v := t.queue[0];
    t.LeaveKeepsSound(g, roots);
    t.LeaveMarks(g);
    var u, sent := t.Leave(g), t.Sent(g);
    forall w | w in sent ensures w !in t.queue[1..] {
      assert g.HasLink(v, w);
      assert w in t.queue[1..] ==> w in t.queue && CameIn(t, g, roots, w);
    }
    SentOnce(t, g, roots);
    DifferentTogether(t.queue[1..], sent);
    forall q | q in u.queue ensures CameIn(u, g, roots, q) && !u.Seen(q) {
      if q in t.queue[1..] {
        assert q in t.queue && CameIn(t, g, roots, q);
        if q !in roots {
          var p :| t.Seen(p) && g.HasLink(p, q);
          assert u.Seen(p);
        }
      } else {
        assert q in sent && g.HasLink(v, q) && u.Seen(v);
      }
    }
  }

  lemma DifferentTogether(a: seq<nat>, b: seq<nat>)
    requires forall i, j :: 0 <= i < j < |a| ==> a[i] != a[j]
    requires |b| <= 2 && (|b| == 2 ==> b[0] != b[1])
    requires forall w {:trigger w in b} :: w in b ==> w !in a
    ensures forall i, j :: 0 <= i < j < |a + b| ==> (a + b)[i] != (a + b)[j]
  {
    forall i, j | 0 <= i < j < |a + b| ensures (a + b)[i] != (a + b)[j] {
      if i < |a| <= j {
        assert b[j - |a|] in b;
      }
    }
  }

  lemma SentOnce(t: Walk, g: Links, roots: seq<nat>)
    requires OneWayIn(g, roots) && t.Sound(g, roots) && t.queue != [] && t.queue[0] < |t.visits|
    ensures |t.Sent(g)| == 2 ==> t.Sent(g)[0] != t.Sent(g)[1]
    ensures |t.Sent(g)| <= 2
  {
    assert g.out0[t.queue[0]] == NULL || g.out0[t.queue[0]] != g.out1[t.queue[0]];
  }

  lemma {:induction false} NextRootIsTidy(t: Walk, g: Links, roots: seq<nat>)
    requires t.Sound(g, roots) && Tidy(t, g, roots)
    ensures Tidy(t.NextRoot(roots), g, roots)
    decreases |roots| - t.rootIdx
  {
    if t.queue == [] && t.rootIdx < |roots| {
      if t.Seen(roots[t.rootIdx]) {
        t.SkipKeepsSound(g, roots);
        NextRootIsTidy(t.(rootIdx := t.rootIdx + 1), g, roots);
      } else {
        assert roots[t.rootIdx] in roots;
        assert CameIn(t.NextRoot(roots), g, roots, roots[t.rootIdx]);
      }
    }
  }

  /** After a node was marked a tidy queue has fewer entries than the graph has nodes. */
  lemma TidyIsHeld(t: Walk, g: Links, roots: seq<nat>, v: nat)
    requires t.Sound(g, roots) && Tidy(t, g, roots) && t.Seen(v)
    ensures Held(t)
  {
    NoDuplicates(t.queue);
    var others := Below(|t.visits|) - {v};
    forall q | q in Elements(t.queue) ensures q in others {
      assert q in t.queue;
    }
    SubsetSize(Elements(t.queue), others);
  }

  lemma {:induction false} CallsAreTidy(t: Walk, g: Links, roots: seq<nat>, n: nat)
    requires OneWayIn(g, roots) && t.Sound(g, roots) && Tidy(t, g, roots) && Held(t)
    ensures Tidy(Calls(t, g, roots, n), g, roots) && Held(Calls(t, g, roots, n))
  {
    if n > 0 {
      CallsAreTidy(t, g, roots, n - 1);
      CallIsTidy(Calls(t, g, roots, n - 1), g, roots);
    }
  }

  lemma CallIsTidy(t: Walk, g: Links, roots: seq<nat>)
    requires OneWayIn(g, roots) && t.Sound(g, roots) && Tidy(t, g, roots) && Held(t)
    ensures Tidy(t.Call(g, roots), g, roots) && Held(t.Call(g, roots))
  {
    var next := t.NextRoot(roots);
    t.NextRootKeepsSound(g, roots);
    NextRootIsTidy(t, g, roots);
    if next.queue != [] {
      LeaveIsTidy(next, g, roots);
      next.LeaveMarks(g);
      next.LeaveKeepsSound(g, roots);
      TidyIsHeld(next.Leave(g), g, roots, next.queue[0]);
    }
  }

  /** The walk from the first root over a graph without a second way in never fills the ring. */
  lemma OneWayInSuffices(g: Links, roots: seq<nat>)
    requires g.Valid() && roots != [] && OneWayIn(g, roots)
    requires forall r {:trigger r in roots} :: r in roots ==> g.IsNode(r)
    ensures Start(g, roots).Sound(g, roots) && RingSuffices(Start(g, roots), g, roots)
  {
    StartIsValid(g, roots);
    var t := Start(g, roots);
    assert roots[0] in roots && CameIn(t, g, roots, roots[0]);
    forall n: nat ensures HeldAt(t, g, roots, n) {
      CallsAreTidy(t, g, roots, n);
    }
  }

  /** What dgraph_traverse_reset leaves behind. */
  function Start(g: Links, roots: seq<nat>): Walk
    requires roots != []
  {
    Walk(Zeros(|g.out0|), [roots[0]], 1)
  }

  /* ---- A ring that does not suffice ---- */

  /** A node with both links to the other one. */
  const TWICE: Links := Links([1, NULL], [1, NULL])

  lemma TwiceIsQueued(t: Walk)
    requires t == Walk([0, 0], [0], 1)
    ensures t.Leave(TWICE) == Walk([1, 0], [1, 1], 1) && LeaveRing(t, TWICE) == Walk([1, 0], [], 1)
  {
    assert t.queue[1..] == [];
  }

  /**
   On this graph the first call takes node 0 and adds node 1 twice. The second addition overwrites the
   slot, so the call counts node 0 and returns node 1; the ring of two slots reads as empty, so the
   next call returns null. The root is never returned, and the node that was is never counted.
   */
  lemma RingIsTooSmall()
    ensures var t, r := Start(TWICE, [0]), Walk([1, 0], [], 1);
            && TWICE.Reaches([0], 1) && t.Sound(TWICE, [0]) && !RingSuffices(t, TWICE, [0])
            && Taken(t, [0]) == 0 && Returned(t, TWICE, [0]) == 1 && RingCalls(t, TWICE, [0], 1) == r
            && Returned(r, TWICE, [0]) == NULL
  {
    var t := Start(TWICE, [0]);
    StartIsValid(TWICE, [0]);
    LastNodeIsReached();
    TwiceIsQueued(t);
    FirstCall(t, TWICE, [0]);
    NotHeld(t, TWICE, [0], 1);
  }

  lemma FirstCall(t: Walk, g: Links, roots: seq<nat>)
    requires t.Sound(g, roots) && t.queue != [] && t.queue[0] < |t.visits|
    ensures RingCalls(t, g, roots, 1) == LeaveRing(t, g) && Calls(t, g, roots, 1) == t.Leave(g)
  {
    assert RingCalls(t, g, roots, 0) == t == Calls(t, g, roots, 0);
    assert t.NextRoot(roots) == t;
  }

  lemma NotHeld(t: Walk, g: Links, roots: seq<nat>, n: nat)
    requires t.Sound(g, roots) && !Held(Calls(t, g, roots, n))
    ensures !RingSuffices(t, g, roots)
  {
    assert !HeldAt(t, g, roots, n);
  }

  lemma LastNodeIsReached()
    ensures TWICE.Reaches([0], 1)
  {
    TWICE.RootsAreReached([0], 0);
    TWICE.LinksAreReached([0], 0, 1);
  }
}
