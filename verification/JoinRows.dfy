/**
 What a join emits, as sequences of rows, and the value-level step of the hash join's left side
 (lib/fqlprocesses.c). A row is a left group with the right record appended, or a left group
 alone.
 */
module JoinRows {
  import opened Assoc
  import opened Common

  datatype Row<+L, +R> = Row(left: L, right: Option<R>)

  function Pairs<L, R>(l: L, rs: seq<R>): seq<Row<L, R>>
  {
    if rs == [] then [] else [Row(l, Some(rs[0]))] + Pairs(l, rs[1..])
  }

  /** The rows of one left group: its matches in order, or for a LEFT JOIN without any, itself. */
  function RowsOf<L, R>(l: L, rs: seq<R>, outer: bool): seq<Row<L, R>>
  {
    if rs == [] && outer then [Row(l, None)] else Pairs(l, rs)
  }

  ghost function JoinOf<L, R>(lefts: seq<L>, of: L -> seq<R>, outer: bool): seq<Row<L, R>>
  {
    if lefts == [] then []
    else RowsOf(lefts[0], of(lefts[0]), outer) + JoinOf(lefts[1..], of, outer)
  }

  /** The left groups an inner join drops, or sends to its false output. */
  ghost function Unmatched<L, R>(lefts: seq<L>, of: L -> seq<R>, outer: bool): seq<Row<L, R>>
  {
    if lefts == [] then []
    else (if of(lefts[0]) == [] && !outer then [Row(lefts[0], None)] else [])
         + Unmatched(lefts[1..], of, outer)
  }

  /**
   The left side of a hash join: the queued left groups, the matches of the first one that are
   still to be sent, and everything sent so far.
   */
  datatype JoinState<L, R> = JoinState(queue: seq<L>, pending: seq<R>,
                                       sentTrue: seq<Row<L, R>>, sentFalse: seq<Row<L, R>>) {

    ghost predicate Valid() {
      pending != [] ==> queue != []
    }

    /** The rows still to be sent to the true output. */
    ghost function RestTrue(of: L -> seq<R>, outer: bool): seq<Row<L, R>>
      requires Valid()
    {
      if pending == [] then JoinOf(queue, of, outer)
      else Pairs(queue[0], pending) + JoinOf(queue[1..], of, outer)
    }

    ghost function RestFalse(of: L -> seq<R>, outer: bool): seq<Row<L, R>>
      requires Valid()
    {
      if pending == [] then Unmatched(queue, of, outer) else Unmatched(queue[1..], of, outer)
    }

    /** One turn of the left-side loop: one left group or one match is dealt with. */
    ghost function Turn(of: L -> seq<R>, outer: bool): (s: JoinState<L, R>)
      requires Valid() && queue != []
      ensures s.Valid()
    {
      var l := queue[0];
      var rs := if pending == [] then of(l) else pending;
      if rs == [] then
        if outer then JoinState(queue[1..], [], sentTrue + [Row(l, None)], sentFalse)
        else JoinState(queue[1..], [], sentTrue, sentFalse + [Row(l, None)])
      else
        JoinState(if |rs| == 1 then queue[1..] else queue, rs[1..],
                  sentTrue + [Row(l, Some(rs[0]))], sentFalse)
    }

    ghost function Arrive(l: L): (s: JoinState<L, R>)
      requires Valid()
      ensures s.Valid()
    {
      this.(queue := queue + [l])
    }

    /** A turn moves rows from what is to be sent to what was sent, in order and only once. */
    lemma TurnConserves(of: L -> seq<R>, outer: bool)
      requires Valid() && queue != []
      ensures var s := Turn(of, outer);
              && s.sentTrue + s.RestTrue(of, outer) == sentTrue + RestTrue(of, outer)
              && s.sentFalse + s.RestFalse(of, outer) == sentFalse + RestFalse(of, outer)
    {
      var l := queue[0];
      var rs := if pending == [] then of(l) else pending;
      if rs != [] {
        MatchConserves(rs, of, outer);
      } else {
        MissConserves(of, outer);
      }
    }

    lemma MissConserves(of: L -> seq<R>, outer: bool)
      requires Valid() && queue != [] && pending == [] && of(queue[0]) == []
      ensures var s := Turn(of, outer);
              && s.sentTrue + s.RestTrue(of, outer) == sentTrue + RestTrue(of, outer)
              && s.sentFalse + s.RestFalse(of, outer) == sentFalse + RestFalse(of, outer)
    {
      var rest, lost := JoinOf(queue[1..], of, outer), Unmatched(queue[1..], of, outer);
      var row := [Row(queue[0], None)];
      assert [] + rest == rest && [] + lost == lost;
      Associate(sentTrue, row, rest);
      Associate(sentFalse, row, lost);
    }

    lemma MatchConserves(rs: seq<R>, of: L -> seq<R>, outer: bool)
      requires Valid() && queue != [] && rs != []
      requires rs == if pending == [] then of(queue[0]) else pending
      ensures var s := Turn(of, outer);
              && s.sentTrue + s.RestTrue(of, outer) == sentTrue + RestTrue(of, outer)
              && s.sentFalse + s.RestFalse(of, outer) == sentFalse + RestFalse(of, outer)
    {
      var l, s := queue[0], Turn(of, outer);
      var rest := JoinOf(queue[1..], of, outer);
      var row, more := [Row(l, Some(rs[0]))], Pairs(l, rs[1..]);
      assert RestTrue(of, outer) == (row + more) + rest;
      assert s.RestTrue(of, outer) == more + rest by {
        if |rs| == 1 {
          assert [] + rest == rest;
        }
      }
      Regroup(sentTrue, row, more, rest);
      assert s.RestFalse(of, outer) == RestFalse(of, outer) by {
        assert pending == [] ==> [] + Unmatched(queue[1..], of, outer) == Unmatched(queue[1..], of, outer);
      }
    }

    lemma ArrivalExtends(l: L, of: L -> seq<R>, outer: bool)
      requires Valid()
      ensures Arrive(l).RestTrue(of, outer) == RestTrue(of, outer) + RowsOf(l, of(l), outer)
      ensures Arrive(l).RestFalse(of, outer) == RestFalse(of, outer) + Unmatched([l], of, outer)
    {
      if pending == [] {
        JoinOfMore(queue, l, of, outer);
      } else {
        assert (queue + [l])[1..] == queue[1..] + [l];
        JoinOfMore(queue[1..], l, of, outer);
        Associate(Pairs(queue[0], pending), JoinOf(queue[1..], of, outer), RowsOf(l, of(l), outer));
      }
    }
  }

  lemma Regroup<T>(a: seq<T>, b: seq<T>, c: seq<T>, d: seq<T>)
    ensures (a + b) + (c + d) == a + ((b + c) + d)
  {
  }

  lemma {:induction false} JoinOfMore<L, R>(ls: seq<L>, l: L, of: L -> seq<R>, outer: bool)
    ensures JoinOf(ls + [l], of, outer) == JoinOf(ls, of, outer) + RowsOf(l, of(l), outer)
    ensures Unmatched(ls + [l], of, outer) == Unmatched(ls, of, outer) + Unmatched([l], of, outer)
    decreases |ls|
  {
    if ls == [] {
      assert [l][1..] == [] && ls + [l] == [l];
      assert RowsOf(l, of(l), outer) + [] == [] + RowsOf(l, of(l), outer);
      assert JoinOf([l], of, outer) == RowsOf(l, of(l), outer) + JoinOf([l][1..], of, outer);
    } else {
      assert (ls + [l])[1..] == ls[1..] + [l] && (ls + [l])[0] == ls[0];
      JoinOfMore(ls[1..], l, of, outer);
      Associate(RowsOf(ls[0], of(ls[0]), outer), JoinOf(ls[1..], of, outer), RowsOf(l, of(l), outer));
      Associate(if of(ls[0]) == [] && !outer then [Row(ls[0], None)] else [],
                Unmatched(ls[1..], of, outer), Unmatched([l], of, outer));
    }
  }

  ghost function Turns<L, R>(s: JoinState<L, R>, k: nat, of: L -> seq<R>, outer: bool): (r: JoinState<L, R>)
    requires s.Valid()
    ensures r.Valid()
    decreases k
  {
    if k == 0 || s.queue == [] then s else Turns(s.Turn(of, outer), k - 1, of, outer)
  }

  lemma TurnAfter<L, R>(s: JoinState<L, R>, k: nat, of: L -> seq<R>, outer: bool)
    requires s.Valid() && Turns(s, k, of, outer).queue != []
    ensures Turns(s, k + 1, of, outer) == Turns(s, k, of, outer).Turn(of, outer)
    decreases k
  {
    if k > 0 {
      assert s.queue != [];
      TurnAfter(s.Turn(of, outer), k - 1, of, outer);
    }
  }

  /** r is reached from s by some number of turns. */
  ghost predicate Follows<L, R>(s: JoinState<L, R>, r: JoinState<L, R>, of: L -> seq<R>, outer: bool) {
    s.Valid() && exists k: nat :: r == Turns(s, k, of, outer)
  }

  lemma FollowsTurn<L, R>(s: JoinState<L, R>, r: JoinState<L, R>, of: L -> seq<R>, outer: bool)
    requires s.Valid() && r.Valid() && r.queue != []
    ensures Follows(s, r, of, outer) ==> Follows(s, r.Turn(of, outer), of, outer)
    ensures Follows(r.Turn(of, outer), r.Turn(of, outer), of, outer)
  {
    if Follows(s, r, of, outer) {
      var k: nat :| r == Turns(s, k, of, outer);
      TurnAfter(s, k, of, outer);
    }
    assert Turns(r.Turn(of, outer), 0, of, outer) == r.Turn(of, outer);
  }

  /** What the scheduler and the left producer may do: deliver a group, or make one call. */
  datatype Event<L> = Deliver(l: L) | Call(turns: nat)

  ghost function Run<L, R>(s: JoinState<L, R>, events: seq<Event<L>>, of: L -> seq<R>, outer: bool)
    : (r: JoinState<L, R>)
    requires s.Valid()
    ensures r.Valid()
    decreases |events|
  {
    if events == [] then s
    else
      var before := Run(s, events[..|events| - 1], of, outer);
      match events[|events| - 1]
      case Deliver(l) => before.Arrive(l)
      case Call(k) => Turns(before, k, of, outer)
  }

  function Delivered<L>(events: seq<Event<L>>): seq<L>
  {
    if events == [] then []
    else
      Delivered(events[..|events| - 1])
      + match events[|events| - 1] case Deliver(l) => [l] case Call(_) => []
  }

  lemma {:induction false} TurnsConserve<L, R>(s: JoinState<L, R>, k: nat, of: L -> seq<R>, outer: bool)
    requires s.Valid()
    ensures var r := Turns(s, k, of, outer);
            && r.sentTrue + r.RestTrue(of, outer) == s.sentTrue + s.RestTrue(of, outer)
            && r.sentFalse + r.RestFalse(of, outer) == s.sentFalse + s.RestFalse(of, outer)
    decreases k
  {
    if k > 0 && s.queue != [] {
      s.TurnConserves(of, outer);
      TurnsConserve(s.Turn(of, outer), k - 1, of, outer);
    }
  }

  /**
   However full outputs cut the calls short and however the left groups trickle in, what was
   sent and what remains together are the join of everything delivered, in order.
   */
  lemma {:induction false} EveryRunIsTheJoin<L, R>(events: seq<Event<L>>, of: L -> seq<R>, outer: bool)
    ensures var r := Run(JoinState([], [], [], []), events, of, outer);
            && r.sentTrue + r.RestTrue(of, outer) == JoinOf(Delivered(events), of, outer)
            && r.sentFalse + r.RestFalse(of, outer) == Unmatched(Delivered(events), of, outer)
    decreases |events|
  {
    if events != [] {
      EveryRunIsTheJoin(events[..|events| - 1], of, outer);
      var before := Run(JoinState([], [], [], []), events[..|events| - 1], of, outer);
      var ls := Delivered(events[..|events| - 1]);
      match events[|events| - 1]
      case Deliver(l) =>
        before.ArrivalExtends(l, of, outer);
        JoinOfMore(ls, l, of, outer);
        assert Delivered(events) == ls + [l];
      case Call(k) =>
        TurnsConserve(before, k, of, outer);
        assert Delivered(events) == ls + [] == ls;
    }
  }

  /** Once the queue is empty the output is the join itself: nothing lost, nothing repeated. */
  lemma DrainedRunIsTheJoin<L, R>(events: seq<Event<L>>, of: L -> seq<R>, outer: bool)
    requires Run(JoinState([], [], [], []), events, of, outer).queue == []
    ensures Run(JoinState([], [], [], []), events, of, outer).sentTrue
            == JoinOf(Delivered(events), of, outer)
  {
    EveryRunIsTheJoin(events, of, outer);
  }
}
