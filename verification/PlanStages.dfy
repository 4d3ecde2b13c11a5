/**
 The two join plans as states of whole pipelines: arrivals, the join, the filter behind it and what
 the next process has read. Every step of a pipeline keeps its state in order, and an ordered state
 that is worked off is the plan's result.
 */
module PlanStages {
  import opened Assoc
  import opened CartesianJoin
  import opened Common
  import opened HashJoin
  import opened JoinPlan
  import opened JoinRows
  import opened Keys
  import opened UpdateMerge

  /** Behind a join: how many of its rows the filter has read, what it let through, what was read of that. */
  datatype Stage<T> = Stage(taken: nat, held: seq<T>, passed: seq<T>) {

    ghost predicate Of(sent: seq<T>, holds: T -> bool) {
      taken <= |sent| && passed + held == Where(sent[..taken], holds, true)
    }

    ghost predicate Done(sent: seq<T>) {
      taken == |sent| && held == []
    }

    lemma SentMore(sent: seq<T>, more: seq<T>, holds: T -> bool)
      requires Of(sent, holds) && sent <= more
      ensures Of(more, holds)
    {
      assert more[..taken] == sent[..taken];
    }

    function Filtered(sent: seq<T>, holds: T -> bool, k: nat): Stage<T>
      requires taken + k <= |sent|
    {
      Stage(taken + k, held + Where(sent[taken..taken + k], holds, true), passed)
    }

    lemma FilterKeeps(sent: seq<T>, holds: T -> bool, k: nat)
      requires Of(sent, holds) && taken + k <= |sent|
      ensures Filtered(sent, holds, k).Of(sent, holds)
    {
      WhereOfSum(sent[..taken], sent[taken..taken + k], holds, true);
      assert sent[..taken + k] == sent[..taken] + sent[taken..taken + k];
      Associate(passed, held, Where(sent[taken..taken + k], holds, true));
    }

    function Read(): Stage<T>
      requires held != []
    {
      Stage(taken, held[1..], passed + [held[0]])
    }

    lemma ReadKeeps(sent: seq<T>, holds: T -> bool)
      requires Of(sent, holds) && held != []
      ensures Read().Of(sent, holds)
    {
      FirstMovesOver(passed, held);
    }

    lemma DoneIsAll(sent: seq<T>, holds: T -> bool)
      requires Of(sent, holds) && Done(sent)
      ensures passed == Where(sent, holds, true)
    {
      assert sent[..|sent|] == sent && passed + [] == passed;
    }
  }

  lemma {:induction false} WhereIsNoLonger<T>(rows: seq<T>, holds: T -> bool, want: bool)
    ensures |Where(rows, holds, want)| <= |rows|
  {
    if rows != [] {
      WhereIsNoLonger(rows[..|rows| - 1], holds, want);
    }
  }

  /** Keeping rows and routing them to the true output are the same. */
  lemma {:induction false} KeptIsWhere<L, R>(q: Query<L, R>, rows: seq<Row<L, R>>, skip: Option<nat>)
    ensures q.Kept(rows, skip) == Where(rows, q.Filter(skip), true)
  {
    if rows != [] {
      var n := |rows| - 1;
      KeptIsWhere(q, rows[..n], skip);
      KeptMore(q, rows[..n], rows[n], skip);
      assert rows == rows[..n] + [rows[n]];
    }
  }

  lemma KeptMore<L, R>(q: Query<L, R>, rows: seq<Row<L, R>>, row: Row<L, R>, skip: Option<nat>)
    requires q.Kept(rows, skip) == Where(rows, q.Filter(skip), true)
    ensures q.Kept(rows + [row], skip) == Where(rows + [row], q.Filter(skip), true)
  {
    q.KeptOfBoth(rows, [row], skip);
    KeptOne(q, row, skip);
    WhereOfMore(rows, row, q.Filter(skip));
  }

  /* ---- The hash join ---- */

  /** All that arrived, the join's side, multimap and right ring, its left side, and the filter. */
  datatype HashRun<!L, !R> = HashRun(lefts: seq<L>, rights: seq<R>, side: JoinSide, table: Assoc<Bytes, seq<R>>,
                                     queued: seq<R>, join: JoinState<L, R>, stage: Stage<Row<L, R>>) {

    ghost predicate InOrder(q: Query<L, R>) {
      && IsFilling(q) && join.Valid()
      && (if side == SIDE_RIGHT then join == JoinState(lefts, [], [], []) else queued == [] && IsJoining(q))
      && stage.Of(join.sentTrue, q.Filter(Some(q.chosen)))
    }

    /** Multimap and right ring together hold the right table. */
    ghost predicate IsFilling(q: Query<L, R>) {
      && table.Valid()
      && Filled(table, queued, q.Props(), q.rightKey) == Filled(Assoc([], []), rights, q.Props(), q.rightKey)
    }

    ghost predicate IsJoining(q: Query<L, R>)
      requires join.Valid()
    {
      var of := q.Lookup(rights);
      join.sentTrue + join.RestTrue(of, false) == JoinOf(lefts, of, false)
    }

    ghost predicate Drained() {
      side == SIDE_LEFT && join.queue == [] && stage.Done(join.sentTrue)
    }

    ghost function LeftArrives(l: L): HashRun<L, R>
      requires join.Valid()
    {
      this.(lefts := lefts + [l], join := join.Arrive(l))
    }

    lemma LeftKeepsOrder(q: Query<L, R>, l: L)
      requires InOrder(q)
      ensures LeftArrives(l).InOrder(q)
    {
      if side == SIDE_LEFT {
        var of := q.Lookup(rights);
        join.ArrivalExtends(l, of, false);
        JoinOfMore(lefts, l, of, false);
        Associate(join.sentTrue, join.RestTrue(of, false), RowsOf(l, of(l), false));
      }
    }

    function RightArrives(r: R): HashRun<L, R>
    {
      this.(rights := rights + [r], queued := queued + [r])
    }

    lemma RightKeepsOrder(q: Query<L, R>, r: R)
      requires InOrder(q) && side == SIDE_RIGHT
      ensures RightArrives(r).InOrder(q)
    {
      FilledLast(table, queued + [r], q.Props(), q.rightKey);
      FilledLast(Assoc([], []), rights + [r], q.Props(), q.rightKey);
      assert (queued + [r])[..|queued|] == queued && (rights + [r])[..|rights|] == rights;
    }

    /** The queued right records go into the multimap; the side changes when there were none. */
    ghost function Fills(q: Query<L, R>, next: JoinSide): HashRun<L, R>
      requires table.Valid()
    {
      this.(table := Filled(table, queued, q.Props(), q.rightKey), queued := [], side := next)
    }

    lemma FillKeepsOrder(q: Query<L, R>, next: JoinSide)
      requires InOrder(q) && side == SIDE_RIGHT && (next == SIDE_LEFT ==> queued == [])
      ensures Fills(q, next).InOrder(q)
    {
      assert [] + JoinOf(lefts, q.Lookup(rights), false) == JoinOf(lefts, q.Lookup(rights), false);
    }

    /** The lookup of the left side is that of the whole right table. */
    lemma LooksUpAll(q: Query<L, R>)
      requires InOrder(q) && side == SIDE_LEFT
      ensures Matcher(table, q.Props(), q.leftKey) == q.Lookup(rights)
    {
      assert Filled(table, [], q.Props(), q.rightKey) == table;
    }

    lemma TurnsKeepOrder(q: Query<L, R>, next: JoinState<L, R>)
      requires InOrder(q) && side == SIDE_LEFT && join.queue != []
      requires var of := q.Lookup(rights); Follows(join.Turn(of, false), next, of, false)
      ensures next.Valid() && this.(join := next).InOrder(q)
    {
      var of := q.Lookup(rights);
      var first := join.Turn(of, false);
      join.TurnConserves(of, false);
      var k: nat :| next == Turns(first, k, of, false);
      TurnsConserve(first, k, of, false);
      TurnsExtend(first, k, of, false);
      stage.SentMore(join.sentTrue, next.sentTrue, q.Filter(Some(q.chosen)));
    }

    /** The right table has to be taken in, then the join has to turn to the left. */
    function Phase(): nat
    {
      if side == SIDE_LEFT then 0 else if queued == [] then 1 else 2
    }

    /** On the left: rows to be sent, to be filtered and to be read, and left groups to be looked up. */
    ghost function Work(q: Query<L, R>): (n: int)
      ensures side == SIDE_LEFT && InOrder(q) ==> n >= 0
    {
      if side == SIDE_RIGHT then 0
      else
        3 * |JoinOf(lefts, q.Lookup(rights), false)| + |join.queue| + |stage.held| - |join.sentTrue| - 2 * stage.taken
    }

    ghost predicate IsNearer(s: HashRun<L, R>, q: Query<L, R>) {
      Phase() < s.Phase() || (Phase() == s.Phase() && Work(q) < s.Work(q))
    }

    ghost predicate IsNoFarther(s: HashRun<L, R>, q: Query<L, R>) {
      Phase() < s.Phase() || (Phase() == s.Phase() && Work(q) <= s.Work(q))
    }

    /** Every round of the left side is work done. */
    lemma TurnsAreWork(q: Query<L, R>, next: JoinState<L, R>)
      requires InOrder(q) && side == SIDE_LEFT && join.queue != []
      requires var of := q.Lookup(rights); Follows(join.Turn(of, false), next, of, false)
      ensures this.(join := next).IsNearer(this, q)
    {
      var of := q.Lookup(rights);
      var first := join.Turn(of, false);
      var k: nat :| next == Turns(first, k, of, false);
      TurnsExtend(first, k, of, false);
    }

    lemma FilteringIsWork(q: Query<L, R>, holds: Row<L, R> -> bool, k: nat)
      requires stage.taken + k <= |join.sentTrue|
      ensures var r := this.(stage := stage.Filtered(join.sentTrue, holds, k));
              r.IsNoFarther(this, q) && (k > 0 && side == SIDE_LEFT ==> r.IsNearer(this, q))
    {
      WhereIsNoLonger(join.sentTrue[stage.taken..stage.taken + k], holds, true);
    }

    lemma ReadingIsWork(q: Query<L, R>)
      requires stage.held != []
      ensures var r := this.(stage := stage.Read());
              r.IsNoFarther(this, q) && (side == SIDE_LEFT ==> r.IsNearer(this, q))
    {
    }

    lemma DrainedIsThePlan(q: Query<L, R>)
      requires InOrder(q) && Drained()
      ensures stage.passed == q.HashPlan(lefts, rights)
    {
      var of := q.Lookup(rights);
      assert join.sentTrue + [] == join.sentTrue;
      stage.DoneIsAll(join.sentTrue, q.Filter(Some(q.chosen)));
      KeptIsWhere(q, join.sentTrue, Some(q.chosen));
    }
  }

  /** Turns only add to what was sent and only take from the queue. */
  lemma {:induction false} TurnsExtend<L, R>(s: JoinState<L, R>, k: nat, of: L -> seq<R>, outer: bool)
    requires s.Valid()
    ensures s.sentTrue <= Turns(s, k, of, outer).sentTrue && |Turns(s, k, of, outer).queue| <= |s.queue|
    decreases k
  {
    if k > 0 && s.queue != [] {
      TurnsExtend(s.Turn(of, outer), k - 1, of, outer);
    }
  }

  /* ---- The product ---- */

  datatype BruteRun<!L, !R> = BruteRun(lefts: seq<L>, rights: seq<R>, scan: ScanState<L, R>,
                                       stage: Stage<Row<L, R>>) {

    ghost predicate InOrder(q: Query<L, R>) {
      && scan.Valid(rights)
      && scan.sent + scan.Rest(rights) == JoinOf(lefts, _ => rights, false)
      && stage.Of(scan.sent, q.Filter(None))
    }

    ghost predicate Drained() {
      scan.queue == [] && stage.Done(scan.sent)
    }

    function LeftArrives(l: L): BruteRun<L, R>
    {
      this.(lefts := lefts + [l], scan := scan.Arrive(l))
    }

    lemma LeftKeepsOrder(q: Query<L, R>, l: L)
      requires InOrder(q)
      ensures LeftArrives(l).InOrder(q)
    {
      scan.ArrivalExtends(l, rights);
      JoinOfMore(lefts, l, _ => rights, false);
      Associate(scan.sent, scan.Rest(rights), Pairs(l, rights));
    }

    lemma ReadsKeepOrder(q: Query<L, R>, next: ScanState<L, R>)
      requires InOrder(q) && scan.queue != [] && ReadsTo(scan.Read(rights), next, rights)
      ensures this.(scan := next).InOrder(q)
    {
      scan.ReadConserves(rights);
      var n: nat :| next == Reads(scan.Read(rights), n, rights);
      ReadsConserve(scan.Read(rights), n, rights);
      stage.SentMore(scan.sent, next.sent, q.Filter(None));
    }

    lemma DrainedIsThePlan(q: Query<L, R>)
      requires InOrder(q) && Drained()
      ensures stage.passed == q.BrutePlan(lefts, rights)
    {
      assert scan.sent + [] == scan.sent;
      stage.DoneIsAll(scan.sent, q.Filter(None));
      KeptIsWhere(q, scan.sent, None);
    }
  }

  /** From s the join goes on to r: rows are only sent, none is lost, and no left group is added. */
  ghost predicate LeadsTo<L, R>(s: ScanState<L, R>, r: ScanState<L, R>, rights: seq<R>) {
    && s.Valid(rights) && r.Valid(rights) && r.sent + r.Rest(rights) == s.sent + s.Rest(rights)
    && s.sent <= r.sent && |r.queue| <= |s.queue|
  }

  lemma {:induction false} ReadsConserve<L, R>(s: ScanState<L, R>, n: nat, rights: seq<R>)
    requires s.Valid(rights)
    ensures LeadsTo(s, Reads(s, n, rights), rights)
  {
    if n > 0 {
      ReadsConserve(s, n - 1, rights);
      LeadsOneOn(s, Reads(s, n - 1, rights), Reads(s, n, rights), rights);
    }
  }

  lemma LeadsOneOn<L, R>(s: ScanState<L, R>, m: ScanState<L, R>, r: ScanState<L, R>, rights: seq<R>)
    requires LeadsTo(s, m, rights) && r == if m.queue == [] then m else m.Read(rights)
    ensures LeadsTo(s, r, rights)
  {
    OneReadLeadsTo(m, r, rights);
    LeadsOn(s, m, r, rights);
  }

  lemma LeadsOn<L, R>(s: ScanState<L, R>, m: ScanState<L, R>, r: ScanState<L, R>, rights: seq<R>)
    requires LeadsTo(s, m, rights) && LeadsTo(m, r, rights)
    ensures LeadsTo(s, r, rights)
  {
  }

  lemma OneReadLeadsTo<L, R>(s: ScanState<L, R>, r: ScanState<L, R>, rights: seq<R>)
    requires s.Valid(rights) && r == if s.queue == [] then s else s.Read(rights)
    ensures LeadsTo(s, r, rights)
  {
    if s.queue != [] {
      s.ReadConserves(rights);
    }
  }
}
