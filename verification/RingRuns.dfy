/**
 Every interleaving of one guarded producer and the one consumer of a ring (util/fifo.c).

 A RingState carries the history of what was added and consumed next to the physical ring, the
 slot whose address the last fifo_get handed out, and the end mark of a running iteration.
 Each action is one call made on the ring; an action whose guard fails is not made.
 */
module RingRuns {
  import opened Common
  import opened Ring

  datatype Handed<T> = Nothing | Slot(index: nat, value: T)

  datatype RingState<T> = RingState(
    ring: Slots<T>,
    reserve: nat,          // input_count
    added: seq<T>,
    consumed: seq<T>,
    handed: Handed<T>,     // address returned by the last fifo_get or kept by fifo_consume
    iterating: bool,
    iterHead: nat,
    iterBegin: nat,        // elements consumed and added when fifo_begin ran
    iterLimit: nat
  )

  datatype Action<T> = Add(x: T) | Get | Begin | Iter

  ghost predicate Safe<T>(s: RingState<T>) {
    && s.ring.Valid()
    && 1 <= s.reserve
    && |s.ring.Contents()| + s.reserve <= |s.ring.buf|
    && s.added == s.consumed + s.ring.Contents()
    && (s.handed.Slot? ==> HandedIsSafe(s))
    && (s.iterating ==> IterationIsExact(s))
  }

  /** The vacated slot still holds the element last consumed and is not the next to be filled. */
  ghost predicate HandedIsSafe<T>(s: RingState<T>)
    requires s.ring.Valid()
  {
    && s.handed.Slot? && s.handed.index < |s.ring.buf|
    && s.ring.tail == Next(s.handed.index, |s.ring.buf|)
    && s.ring.buf[s.handed.index] == s.handed.value
    && s.consumed != [] && s.handed.value == s.consumed[|s.consumed| - 1]
  }

  /** The end mark is the slot of the element that was next to be added at fifo_begin. */
  ghost predicate IterationIsExact<T>(s: RingState<T>)
    requires s.ring.Valid()
  {
    && s.iterBegin <= |s.consumed| <= s.iterLimit <= |s.consumed| + |s.ring.Contents()|
    && s.iterHead == s.ring.SlotOf(s.iterLimit - |s.consumed|)
  }

  /** The producer's guard: fifo_receivable is positive. */
  ghost predicate MayAdd<T>(s: RingState<T>)
    requires s.ring.Valid()
  {
    |s.ring.Contents()| + s.reserve < |s.ring.buf|
  }

  ghost predicate MayGet<T>(s: RingState<T>)
    requires s.ring.Valid()
  {
    s.ring.head != s.ring.tail && !s.iterating
  }

  /** fifo_get, fifo_consume and fifo_iter all advance the consumer this way. */
  ghost function Advanced<T>(s: RingState<T>): (r: RingState<T>)
    requires s.ring.Valid()
    ensures r.ring.Valid() && r.reserve == s.reserve && |r.ring.buf| == |s.ring.buf|
  {
    var x := s.ring.buf[s.ring.tail];
    s.(ring := s.ring.Advance(), consumed := s.consumed + [x], handed := Slot(s.ring.tail, x))
  }

  ghost function Step<T>(s: RingState<T>, a: Action<T>): (r: RingState<T>)
    requires s.ring.Valid()
    ensures r.ring.Valid() && r.reserve == s.reserve && |r.ring.buf| == |s.ring.buf|
  {
    match a
    case Add(x) =>
      if MayAdd(s) then s.(ring := s.ring.Add(x), added := s.added + [x]) else s
    case Get =>
      if MayGet(s) then Advanced(s) else s
    case Begin =>
      s.(iterating := true, iterHead := s.ring.head, iterBegin := |s.consumed|,
         iterLimit := |s.added|)
    case Iter =>
      if s.iterating then
        if s.ring.tail == s.iterHead then s.(iterating := false) else Advanced(s)
      else s
  }

  ghost function Run<T>(s: RingState<T>, actions: seq<Action<T>>): (r: RingState<T>)
    requires s.ring.Valid()
    ensures r.ring.Valid() && r.reserve == s.reserve && |r.ring.buf| == |s.ring.buf|
    decreases |actions|
  {
    if actions == [] then s else Run(Step(s, actions[0]), actions[1..])
  }

  /** A fresh ring of the given buffer. */
  ghost function Start<T>(buf: seq<T>, reserve: nat): (s: RingState<T>)
  {
    RingState(Slots(buf, 0, 0), reserve, [], [], Nothing, false, 0, 0, 0)
  }

  lemma AddKeepsSafe<T>(s: RingState<T>, x: T)
    requires Safe(s) && MayAdd(s)
    ensures Safe(Step(s, Add(x)))
  {
    s.ring.AddAppends(x);
    var r := Step(s, Add(x));
    assert r.added == r.consumed + r.ring.Contents();
    if s.handed.Slot? {
      assert s.handed.index != s.ring.head;
    }
  }

  lemma AdvanceKeepsSafe<T>(s: RingState<T>)
    requires Safe(s) && s.ring.head != s.ring.tail
    requires s.iterating ==> s.ring.tail != s.iterHead
    ensures Safe(Advanced(s))
  {
    s.ring.AdvanceDropsFirst();
    FirstMovesOver(s.consumed, s.ring.Contents());
    if s.iterating {
      AdvanceKeepsIteration(s);
    }
  }

  lemma AdvanceKeepsIteration<T>(s: RingState<T>)
    requires s.ring.Valid() && s.ring.Contents() != [] && IterationIsExact(s) && s.ring.tail != s.iterHead
    ensures IterationIsExact(Advanced(s))
  {
    s.ring.AdvanceDropsFirst();
  }

  /** An iteration that is not at its mark has an element to visit. */
  lemma NotAtEnd<T>(s: RingState<T>)
    requires Safe(s) && s.iterating && s.ring.tail != s.iterHead
    ensures s.ring.head != s.ring.tail
  {
  }

  lemma StepKeepsSafe<T>(s: RingState<T>, a: Action<T>)
    requires Safe(s)
    ensures Safe(Step(s, a))
    ensures s.added <= Step(s, a).added && s.consumed <= Step(s, a).consumed
  {
    match a
    case Add(x) => if MayAdd(s) { AddKeepsSafe(s, x); }
    case Get => if MayGet(s) { AdvanceKeepsSafe(s); }
    case Begin =>
    case Iter => if s.iterating && s.ring.tail != s.iterHead { NotAtEnd(s); AdvanceKeepsSafe(s); }
  }

  /** Over every run: nothing is lost, reordered or overwritten, and the ring never fills up. */
  lemma {:induction false} EveryRunIsSafe<T>(s: RingState<T>, actions: seq<Action<T>>)
    requires Safe(s)
    ensures Safe(Run(s, actions))
    ensures s.added <= Run(s, actions).added && s.consumed <= Run(s, actions).consumed
    decreases |actions|
  {
    if actions != [] {
      StepKeepsSafe(s, actions[0]);
      EveryRunIsSafe(Step(s, actions[0]), actions[1..]);
    }
  }

  /**
   From a fresh ring: what was consumed is a prefix of what was added, at least one slot stays
   free, and the element last handed out is still intact in its slot.
   */
  lemma ConsumedIsPrefixOfAdded<T>(buf: seq<T>, reserve: nat, actions: seq<Action<T>>)
    requires 2 <= |buf| <= WORD32 / 2 && 1 <= reserve <= |buf|
    ensures var r := Run(Start(buf, reserve), actions);
            && r.consumed <= r.added
            && r.added[|r.consumed|..] == r.ring.Contents()
            && |r.ring.Contents()| < |buf|
            && (r.handed.Slot? ==>
                  (r.consumed != [] && r.handed.index < |buf|
                   && r.ring.buf[r.handed.index] == r.consumed[|r.consumed| - 1]))
  {
    EveryRunIsSafe(Start(buf, reserve), actions);
  }

  /**
   An iteration that reaches its end mark has visited exactly the elements queued when it
   began, whatever the producer added meanwhile.
   */
  lemma IterationVisitsSnapshot<T>(s: RingState<T>, actions: seq<Action<T>>)
    requires Safe(s)
    requires forall i :: 0 <= i < |actions| ==> actions[i].Add? || actions[i].Iter?
    ensures var b := Step(s, Begin);
            var r := Run(b, actions);
            && (r.iterating && r.ring.tail == r.iterHead ==>
                  r.consumed == s.consumed + s.ring.Contents())
            && (r.iterating ==> s.consumed <= r.consumed <= s.consumed + s.ring.Contents())
  {
    var b := Step(s, Begin);
    StepKeepsSafe(s, Begin);
    IterationKeepsMarks(b, actions);
    var r := Run(b, actions);
    EveryRunIsSafe(b, actions);
    if r.iterating {
      ShorterPrefix(r.consumed, b.added, r.added);
    }
  }

  lemma ShorterPrefix<T>(a: seq<T>, b: seq<T>, all: seq<T>)
    requires a <= all && b <= all && |a| <= |b|
    ensures a <= b && (|a| == |b| ==> a == b)
  {
    assert a == all[..|a|] == b[..|a|];
  }

  lemma {:induction false} IterationKeepsMarks<T>(s: RingState<T>, actions: seq<Action<T>>)
    requires Safe(s)
    requires forall i :: 0 <= i < |actions| ==> actions[i].Add? || actions[i].Iter?
    ensures var r := Run(s, actions);
            r.iterating ==> s.iterating && r.iterLimit == s.iterLimit && r.iterBegin == s.iterBegin
    decreases |actions|
  {
    if actions != [] {
      StepKeepsSafe(s, actions[0]);
      IterationKeepsMarks(Step(s, actions[0]), actions[1..]);
    }
  }

  /* ---- The reserve ---- */

  lemma {:induction false} RunOfSum<T>(s: RingState<T>, a: seq<Action<T>>, b: seq<Action<T>>)
    requires s.ring.Valid()
    ensures Run(s, a + b) == Run(Run(s, a), b)
    decreases |a|
  {
    if a == [] {
      assert a + b == b;
    } else {
      assert (a + b)[1..] == a[1..] + b;
      RunOfSum(Step(s, a[0]), a[1..], b);
    }
  }

  function Adds<T>(x: T, k: nat): (a: seq<Action<T>>)
    ensures |a| == k
  {
    if k == 0 then [] else [Add(x)] + Adds(x, k - 1)
  }

  /** With an input count of zero the guard stops nothing: head goes up to the end of the buffer. */
  lemma {:induction false} AddsWithoutReserve<T>(s: RingState<T>, x: T, k: nat)
    requires s.ring.Valid() && s.reserve == 0 && s.ring.head + k <= |s.ring.buf|
    ensures var r := Run(s, Adds(x, k));
            && r.ring.head == Wrap(s.ring.head + k, |s.ring.buf|) && r.ring.tail == s.ring.tail
            && |r.added| == |s.added| + k && r.consumed == s.consumed && r.handed == s.handed
    decreases k
  {
    if k > 0 {
      assert Adds(x, k)[1..] == Adds(x, k - 1);
      AddsWithoutReserve(Step(s, Add(x)), x, k - 1);
    }
  }

  /** What was added is what was consumed followed by what is queued. */
  ghost predicate Conserves<T>(s: RingState<T>)
    requires s.ring.Valid()
  {
    s.added == s.consumed + s.ring.Contents()
  }

  /** The slot last handed out still holds the element that was taken from it. */
  ghost predicate HandedIsIntact<T>(s: RingState<T>) {
    s.handed.Slot? ==> s.handed.index < |s.ring.buf| && s.ring.buf[s.handed.index] == s.handed.value
  }

  /** Adding to all slots of a fresh ring makes it read as empty. */
  lemma WithoutReserveRowsAreLost(buf: seq<int>)
    requires 2 <= |buf| <= WORD32 / 2
    ensures !Conserves(Run(Start(buf, 0), Adds(0, |buf|)))
  {
    AddsWithoutReserve(Start(buf, 0), 0, |buf|);
  }

  /** As many additions as there are slots after a get overwrite the slot it handed out. */
  lemma WithoutReserveSlotIsLost(buf: seq<int>) returns (actions: seq<Action<int>>)
    requires 2 <= |buf| <= WORD32 / 2
    ensures !HandedIsIntact(Run(Start(buf, 0), actions))
  {
    var first, u := AddThenGet(Start(buf, 0));
    var round, v := OnceRound(u);
    RunOfSum(Start(buf, 0), first, round);
    actions := first + round;
  }

  lemma AddThenGet(s: RingState<int>) returns (actions: seq<Action<int>>, u: RingState<int>)
    requires 2 <= |s.ring.buf| <= WORD32 / 2 && s == Start(s.ring.buf, 0)
    ensures s.ring.Valid() && u == Run(s, actions) && u.ring.Valid() && u.reserve == 0
    ensures |u.ring.buf| == |s.ring.buf| && u.ring.head == 1 && u.handed == Slot(0, 0)
  {
    var t := Step(s, Add(0));
    u := Step(t, Get);
    RunOfOne(s, Add(0));
    RunOfOne(t, Get);
    RunOfSum(s, [Add(0)], [Get]);
    actions := [Add(0)] + [Get];
  }

  lemma OnceRound(u: RingState<int>) returns (actions: seq<Action<int>>, w: RingState<int>)
    requires u.ring.Valid() && u.reserve == 0 && u.ring.head == 1 && u.handed == Slot(0, 0)
    ensures w == Run(u, actions) && !HandedIsIntact(w)
  {
    var ones := Adds(1, |u.ring.buf| - 1);
    AddsWithoutReserve(u, 1, |u.ring.buf| - 1);
    var v := Run(u, ones);
    w := Step(v, Add(1));
    RunOfSum(u, ones, [Add(1)]);
    RunOfOne(v, Add(1));
    actions := ones + [Add(1)];
  }

  lemma RunOfOne<T>(s: RingState<T>, a: Action<T>)
    requires s.ring.Valid()
    ensures Run(s, [a]) == Step(s, a)
  {
    assert Run(Step(s, a), []) == Step(s, a);
  }

  /**
   For a ring of any size: every run loses nothing, and every run leaves the slot handed out
   intact, if and only if the producers keep at least one slot in reserve.
   */
  lemma ReserveIsNeeded(buf: seq<int>, reserve: nat)
    requires 2 <= |buf| <= WORD32 / 2 && reserve <= |buf|
    ensures (forall a: seq<Action<int>> :: Conserves(Run(Start(buf, reserve), a))) <==> reserve >= 1
    ensures (forall a: seq<Action<int>> :: HandedIsIntact(Run(Start(buf, reserve), a))) <==> reserve >= 1
  {
    if reserve >= 1 {
      forall a: seq<Action<int>>
        ensures Conserves(Run(Start(buf, reserve), a)) && HandedIsIntact(Run(Start(buf, reserve), a))
      {
        EveryRunIsSafe(Start(buf, reserve), a);
      }
    } else {
      WithoutReserveRowsAreLost(buf);
      var actions := WithoutReserveSlotIsLost(buf);
    }
  }

  /* ---- Slots kept over several gets ---- */

  /** The slot d places behind. */
  function Behind(tail: nat, d: nat, n: nat): (i: nat)
    requires 1 <= d <= n && tail < n
    ensures i < n
  {
    if d <= tail then tail - d else tail + n - d
  }

  /** The slot of the d-th last get still holds what was taken from it. */
  ghost predicate HoldsBehind<T>(ring: Slots<T>, consumed: seq<T>, d: nat)
    requires ring.Valid()
  {
    && 1 <= d <= |ring.buf| && d <= |consumed|
    && ring.buf[Behind(ring.tail, d, |ring.buf|)] == consumed[|consumed| - d]
  }

  /** So do the slots of all of the last gets for which there is a slot that is not queued. */
  ghost predicate Trail<T>(ring: Slots<T>, consumed: seq<T>)
    requires ring.Valid()
  {
    forall d: nat :: 1 <= d <= |consumed| && d + |ring.Contents()| <= |ring.buf| ==>
      HoldsBehind(ring, consumed, d)
  }

  /** The next addition overwrites exactly the slot of that get with which all slots are used up. */
  lemma NextToBeOverwritten<T>(ring: Slots<T>, d: nat)
    requires ring.Valid() && 1 <= d <= |ring.buf|
    ensures Behind(ring.tail, d, |ring.buf|) == ring.head <==> d + |ring.Contents()| == |ring.buf|
  {
  }

  lemma AddKeepsTrail<T>(ring: Slots<T>, consumed: seq<T>, x: T)
    requires ring.Valid() && |ring.Contents()| + 1 < |ring.buf| && Trail(ring, consumed)
    ensures ring.Add(x).Valid() && Trail(ring.Add(x), consumed)
  {
    ring.AddAppends(x);
    var more := ring.Add(x);
    forall d: nat | 1 <= d <= |consumed| && d + |more.Contents()| <= |more.buf|
      ensures HoldsBehind(more, consumed, d)
    {
      assert HoldsBehind(ring, consumed, d);
      NextToBeOverwritten(ring, d);
    }
  }

  lemma AdvanceKeepsTrail<T>(ring: Slots<T>, consumed: seq<T>)
    requires ring.Valid() && ring.Contents() != [] && Trail(ring, consumed)
    ensures ring.Advance().Valid() && Trail(ring.Advance(), consumed + [ring.buf[ring.tail]])
  {
    ring.AdvanceDropsFirst();
    var less, more := ring.Advance(), consumed + [ring.buf[ring.tail]];
    assert |less.Contents()| == |ring.Contents()| - 1;
    forall d: nat | 1 <= d <= |more| && d + |less.Contents()| <= |less.buf|
      ensures HoldsBehind(less, more, d)
    {
      if d > 1 {
        BehindNext(ring.tail, d, |ring.buf|);
        assert HoldsBehind(ring, consumed, d - 1);
        assert more[|more| - d] == consumed[|consumed| - (d - 1)];
      }
    }
  }

  lemma BehindNext(tail: nat, d: nat, n: nat)
    requires 1 < d <= n && tail < n
    ensures Behind(Next(tail, n), d, n) == Behind(tail, d - 1, n)
  {
  }

  lemma {:induction false} EveryRunKeepsTrail<T>(s: RingState<T>, actions: seq<Action<T>>)
    requires Safe(s) && Trail(s.ring, s.consumed)
    ensures var r := Run(s, actions); Safe(r) && Trail(r.ring, r.consumed)
    decreases |actions|
  {
    if actions != [] {
      StepKeepsTrail(s, actions[0]);
      EveryRunKeepsTrail(Step(s, actions[0]), actions[1..]);
    }
  }

  lemma StepKeepsTrail<T>(s: RingState<T>, a: Action<T>)
    requires Safe(s) && Trail(s.ring, s.consumed)
    ensures var r := Step(s, a); Safe(r) && Trail(r.ring, r.consumed)
  {
    StepKeepsSafe(s, a);
    match a
    case Add(x) => if MayAdd(s) { AddKeepsTrail(s.ring, s.consumed, x); }
    case Get => if MayGet(s) { AdvanceKeepsTrail(s.ring, s.consumed); }
    case Begin =>
    case Iter => if s.iterating && s.ring.tail != s.iterHead { AdvanceKeepsTrail(s.ring, s.consumed); }
  }

  /** The elements are distinct ones of the set. */
  ghost predicate DistinctIn<T>(xs: seq<T>, all: set<T>) {
    && (forall i {:trigger xs[i]} :: 0 <= i < |xs| ==> xs[i] in all)
    && forall i, j :: 0 <= i < j < |xs| ==> xs[i] != xs[j]
  }

  /**
   A process that takes several nodes from a root ring, one after the other, may go on using the
   slot of the first: as long as the nodes taken since are all still out, every one of these slots
   holds its node, and none of them is the slot that the next node to come home will fill.
   */
  lemma SlotsOfNodesHeldAreIntact<T(!new)>(s: RingState<T>, nodes: set<T>, d: nat)
    requires Safe(s) && Trail(s.ring, s.consumed) && |nodes| < |s.ring.buf|
    requires d <= |s.consumed|
    requires DistinctIn(s.ring.Contents() + s.consumed[|s.consumed| - d..], nodes)
    ensures forall k: nat {:trigger HoldsBehind(s.ring, s.consumed, k)} :: 1 <= k <= d ==>
              HoldsBehind(s.ring, s.consumed, k) && Behind(s.ring.tail, k, |s.ring.buf|) != s.ring.head
  {
    var held := s.ring.Contents() + s.consumed[|s.consumed| - d..];
    NoDuplicates(held);
    SubsetSize(Elements(held), nodes);
    forall k: nat | 1 <= k <= d
      ensures HoldsBehind(s.ring, s.consumed, k) && Behind(s.ring.tail, k, |s.ring.buf|) != s.ring.head
    {
      NextToBeOverwritten(s.ring, k);
    }
  }

  /**
   That the node itself is still out is not enough: on a ring of three slots dealt the nodes 0 and
   1, node 1 goes out, home, out and home again, which overwrites the slot node 0 was taken from.
   */
  lemma SlotOfOneNodeIsLost()
    ensures var s := RingState(Slots([0, 1, 2], 2, 0), 1, [0, 1], [], Nothing, false, 0, 0, 0);
            var r := Run(s, [Get, Get, Add(1), Get, Add(1)]);
            Safe(s) && s.ring.buf[0] == 0 && r.consumed == [0, 1, 1] && r.ring.Contents() == [1]
            && r.ring.buf[0] == 1
  {
    var s := RingState(Slots([0, 1, 2], 2, 0), 1, [0, 1], [], Nothing, false, 0, 0, 0);
    assert [Get, Get, Add(1), Get, Add(1)] == [Get] + ([Get] + ([Add(1)] + ([Get] + [Add(1)])));
    var t := Step(s, Get);
    var u := Step(t, Get);
    var v := Step(u, Add(1));
    var w := Step(v, Get);
    RunOfSum(s, [Get], [Get] + ([Add(1)] + ([Get] + [Add(1)])));
    RunOfSum(t, [Get], [Add(1)] + ([Get] + [Add(1)]));
    RunOfSum(u, [Add(1)], [Get] + [Add(1)]);
    RunOfSum(v, [Get], [Add(1)]);
    RunOfOne(s, Get);
    RunOfOne(t, Get);
    RunOfOne(u, Add(1));
    RunOfOne(v, Get);
    RunOfOne(w, Add(1));
  }
}
