/**
 Both join plans as processes on their rings: the join, the filter behind it and the process that
 reads what the filter lets through, under any schedule of arrivals and calls.
 */
module PlanRuns {
  import opened Assoc
  import opened CartesianJoin
  import opened Common
  import opened HashJoin
  import opened HashTable
  import opened JoinLogic
  import opened JoinPlan
  import opened JoinRows
  import opened LogicProcess
  import opened PlanStages
  import opened Processes
  import opened Ring
  import opened UpdateMerge

  datatype HashTurn<L, R> =
    | LeftArrives(l: L)
    | RightArrives(r: R)
    | RightCloses
    | Join
    | Filter
    | Read

  class HashPlan<L(!new, 0), R(!new, 0)> {
    const q: Query<L, R>
    const joiner: Joiner<L, R>
    const filter: Router<Row<L, R>>
    const out: Fifo<Row<L, R>>
    ghost var lefts: seq<L>
    ghost var rights: seq<R>
    var passed: seq<Row<L, R>>

    constructor (q: Query<L, R>, joiner: Joiner<L, R>, filter: Router<Row<L, R>>, out: Fifo<Row<L, R>>)
      requires joiner.leftKey == q.leftKey && joiner.rightKey == q.rightKey && !joiner.outer
      requires joiner.hashData.props == q.Props() && joiner.hashData.View() == Assoc([], [])
      requires filter.input == joiner.outTrue && filter.outTrue == out && filter.outFalse == null
      requires !filter.isConst && filter.holds == q.Filter(Some(q.chosen))
      requires IsBeyond(joiner, out)
      requires joiner.Valid() && joiner.inLeft.Guarded() && filter.Valid()
      requires joiner.inRight.Valid() && joiner.inRight.Guarded() && joiner.inRight.Contents() == []
      requires joiner.state == SIDE_RIGHT && joiner.View() == JoinState([], [], [], [])
      requires joiner.takenTrue == 0 && out.Contents() == []
      ensures Valid() && lefts == [] && rights == [] && passed == []
      ensures this.q == q && this.joiner == joiner && this.filter == filter && this.out == out
    {
      this.q, this.joiner, this.filter, this.out := q, joiner, filter, out;
      lefts, rights, passed := [], [], [];
    }

    ghost function View(): HashRun<L, R>
      requires joiner.inLeft.Valid() && joiner.inRight.Valid() && out.Valid()
      reads this, joiner, joiner.inLeft, joiner.inLeft.buf, joiner.inRight, joiner.inRight.buf
      reads joiner.hashData, out, out.buf
    {
      HashRun(lefts, rights, joiner.state, joiner.hashData.View(), joiner.inRight.Contents(), joiner.View(),
              Stage(joiner.takenTrue, out.Contents(), passed))
    }

    ghost predicate Wired()
      reads joiner.hashData
    {
      && joiner.leftKey == q.leftKey && joiner.rightKey == q.rightKey && !joiner.outer
      && joiner.hashData.props == q.Props()
      && filter.input == joiner.outTrue && filter.outTrue == out && filter.outFalse == null
      && !filter.isConst && filter.holds == q.Filter(Some(q.chosen))
      && IsBeyond(joiner, out)
    }

    /** All processes and rings are sound. */
    ghost predicate Sound()
      reads this, joiner, joiner.inLeft, joiner.inLeft.buf, joiner.inRight, joiner.inRight.buf
      reads joiner.outTrue, joiner.outTrue.buf, joiner.hashData, joiner.hashData.entries, out, out.buf
    {
      && Wired() && joiner.Valid() && joiner.inLeft.Guarded()
      && joiner.inRight.Valid() && joiner.inRight.Guarded() && filter.Valid()
    }

    ghost predicate Valid()
      reads this, joiner, joiner.inLeft, joiner.inLeft.buf, joiner.inRight, joiner.inRight.buf
      reads joiner.outTrue, joiner.outTrue.buf, joiner.hashData, joiner.hashData.entries, out, out.buf
    {
      Sound() && View().InOrder(q)
    }

    method AddLeft(l: L)
      requires Sound() && joiner.inLeft.HasRoom()
      modifies `lefts, joiner.inLeft`head, joiner.inLeft.buf
      ensures Sound() && View() == old(View()).LeftArrives(l)
    {
      joiner.inLeft.Add(l);
      lefts := lefts + [l];
    }

    method LeftTurn(l: L)
      requires Valid()
      modifies `lefts, joiner.inLeft`head, joiner.inLeft.buf
      ensures Valid() && lefts == old(lefts) + if old(joiner.inLeft.HasRoom()) then [l] else []
    {
      if joiner.inLeft.Receivable() > 0 {
        View().LeftKeepsOrder(q, l);
        AddLeft(l);
      }
    }

    method AddRight(r: R)
      requires Sound() && joiner.inRight.HasRoom()
      modifies `rights, joiner.inRight`head, joiner.inRight.buf
      ensures Sound() && View() == old(View()).RightArrives(r)
    {
      joiner.inRight.Add(r);
      rights := rights + [r];
    }

    /** The reader of the right table adds a record until it closes the ring. */
    method RightTurn(r: R)
      requires Valid()
      modifies `rights, joiner.inRight`head, joiner.inRight.buf
      ensures Valid()
      ensures rights == old(rights) + if joiner.state == SIDE_RIGHT && joiner.inRight.isOpen
                                         && old(joiner.inRight.HasRoom()) then [r] else []
    {
      if joiner.state == SIDE_RIGHT && joiner.inRight.isOpen && joiner.inRight.Receivable() > 0 {
        View().RightKeepsOrder(q, r);
        AddRight(r);
      }
    }

    method CallJoin()
      requires Sound()
      modifies joiner, joiner.hashData, joiner.hashData.entries, joiner.inLeft`tail, joiner.inLeft`iterHead
      modifies joiner.inRight`tail, joiner.inRight`iterHead, joiner.outTrue`head, joiner.outTrue.buf
      ensures joiner.hashData.entries == old(joiner.hashData.entries) || fresh(joiner.hashData.entries)
      ensures Wired() && joiner.Valid() && joiner.inRight.Valid() && filter.Valid()
      ensures IsJoinCall(old(View()), View(), q, joiner.outTrue.isOpen, joiner.inRight.isOpen,
                         old(joiner.outTrue.HasRoom()))
    {
      var _ := joiner.Call();
    }

    method CallSoundJoin()
      requires Sound()
      modifies joiner, joiner.hashData, joiner.hashData.entries, joiner.inLeft`tail, joiner.inLeft`iterHead
      modifies joiner.inRight`tail, joiner.inRight`iterHead, joiner.outTrue`head, joiner.outTrue.buf
      ensures joiner.hashData.entries == old(joiner.hashData.entries) || fresh(joiner.hashData.entries)
      ensures Sound() && IsJoinCall(old(View()), View(), q, joiner.outTrue.isOpen, joiner.inRight.isOpen,
                                    old(joiner.outTrue.HasRoom()))
    {
      ghost var s, room := View(), joiner.outTrue.HasRoom();
      CallJoin();
      JoinTakes(s, View(), q, joiner.outTrue.isOpen, joiner.inRight.isOpen, room);
    }

    method JoinTurn()
      requires Valid()
      modifies joiner, joiner.hashData, joiner.hashData.entries, joiner.inLeft`tail, joiner.inLeft`iterHead
      modifies joiner.inRight`tail, joiner.inRight`iterHead, joiner.outTrue`head, joiner.outTrue.buf
      ensures joiner.hashData.entries == old(joiner.hashData.entries) || fresh(joiner.hashData.entries)
      ensures Valid() && IsJoinCall(old(View()), View(), q, joiner.outTrue.isOpen, joiner.inRight.isOpen,
                                    old(joiner.outTrue.HasRoom()))
    {
      ghost var s, room := View(), joiner.outTrue.HasRoom();
      CallSoundJoin();
      JoinKeepsOrder(s, View(), q, joiner.outTrue.isOpen, joiner.inRight.isOpen, room);
    }

    /** A call of the filter, seen from its rings. */
    method CallFilter(ghost sent: seq<Row<L, R>>, ghost taken: nat) returns (ghost k: nat)
      requires Wired() && filter.Valid() && Carries(joiner.outTrue, sent, taken)
      modifies joiner.outTrue`tail, joiner.outTrue`iterHead, out, out.buf
      ensures filter.Valid() && taken + k <= |sent| && Carries(joiner.outTrue, sent, taken + k)
      ensures out.Contents() == old(out.Contents()) + Where(sent[taken..taken + k], filter.holds, true)
      ensures out.isOpen == old(out.isOpen) && out.inputCount == old(out.inputCount)
      ensures old(out.isOpen && out.HasRoom()) && taken < |sent| ==> k > 0
    {
      var ret: Return;
      ret, k := filter.Call();
      assert sent[taken..][..k] == sent[taken..taken + k] && sent[taken..][k..] == sent[taken + k..];
    }

    /** The join's rows that the filter read count as consumed. */
    method Consume() returns (ghost k: nat)
      requires Sound()
      modifies joiner`takenTrue, joiner.outTrue`tail, joiner.outTrue`iterHead, out, out.buf
      ensures Sound() && joiner.takenTrue == old(joiner.takenTrue) + k <= |joiner.sentTrue|
      ensures out.Contents() ==
              old(out.Contents()) + Where(joiner.sentTrue[old(joiner.takenTrue)..joiner.takenTrue], filter.holds, true)
      ensures old(out.isOpen && out.HasRoom() && joiner.takenTrue < |joiner.sentTrue|) ==> k > 0
      ensures out.isOpen == old(out.isOpen) && out.inputCount == old(out.inputCount)
    {
      k := CallFilter(joiner.sentTrue, joiner.takenTrue);
      joiner.Took(k);
    }

    method MoveOn() returns (ghost k: nat)
      requires Sound()
      modifies joiner`takenTrue, joiner.outTrue`tail, joiner.outTrue`iterHead, out, out.buf
      ensures Sound() && old(joiner.takenTrue) + k <= |joiner.sentTrue|
      ensures View() == old(View()).(stage := old(View().stage.Filtered(joiner.sentTrue, filter.holds, k)))
      ensures old(out.isOpen && out.HasRoom() && joiner.takenTrue < |joiner.sentTrue|) ==> k > 0
      ensures out.isOpen == old(out.isOpen) && out.inputCount == old(out.inputCount)
    {
      k := Consume();
    }

    method FilterTurn() returns (ghost k: nat)
      requires Valid()
      modifies joiner`takenTrue, joiner.outTrue`tail, joiner.outTrue`iterHead, out, out.buf
      ensures Valid() && old(joiner.takenTrue) + k <= |joiner.sentTrue|
      ensures View() == old(View()).(stage := old(View().stage.Filtered(joiner.sentTrue, filter.holds, k)))
      ensures old(out.isOpen && out.HasRoom() && joiner.takenTrue < |joiner.sentTrue|) ==> k > 0
      ensures out.isOpen == old(out.isOpen) && out.inputCount == old(out.inputCount)
    {
      ghost var s := View();
      k := MoveOn();
      s.stage.FilterKeeps(s.join.sentTrue, filter.holds, k);
    }

    method TakeRow()
      requires Sound() && out.Contents() != []
      modifies `passed, out`tail
      ensures Sound() && View() == old(View()).(stage := old(View()).stage.Read())
    {
      var row := out.Get();
      passed := passed + [row];
    }

    method ReadTurn()
      requires Valid()
      modifies `passed, out`tail
      ensures Valid()
      ensures View() == if old(out.Contents()) == [] then old(View()) else old(View()).(stage := old(View()).stage.Read())
    {
      if !out.IsEmpty() {
        View().stage.ReadKeeps(joiner.sentTrue, filter.holds);
        TakeRow();
      }
    }

    /** The reader of the right table is done. */
    method CloseRight()
      requires Valid()
      modifies joiner.inRight`isOpen
      ensures Valid() && !joiner.inRight.isOpen
    {
      joiner.inRight.isOpen := false;
    }

    /** Nothing more comes from the right table, and both rings behind the join can take a row when empty. */
    ghost predicate CanDrain()
      reads joiner.inRight, joiner.outTrue, out
    {
      && !joiner.inRight.isOpen && joiner.outTrue.isOpen && out.isOpen
      && joiner.outTrue.inputCount < joiner.outTrue.buf.Length && out.inputCount < out.buf.Length
    }

    ghost predicate Draining()
      reads this, joiner, joiner.inLeft, joiner.inLeft.buf, joiner.inRight, joiner.inRight.buf
      reads joiner.outTrue, joiner.outTrue.buf, joiner.hashData, joiner.hashData.entries, out, out.buf
    {
      Valid() && CanDrain()
    }

    /** A call of the join when nothing more comes from the right; an empty output has room. */
    method JoinStep(ghost s: HashRun<L, R>) returns (ghost room: bool)
      requires Draining() && s == View()
      modifies joiner, joiner.hashData, joiner.hashData.entries, joiner.inLeft`tail, joiner.inLeft`iterHead
      modifies joiner.inRight`tail, joiner.inRight`iterHead, joiner.outTrue`head, joiner.outTrue.buf
      ensures joiner.hashData.entries == old(joiner.hashData.entries) || fresh(joiner.hashData.entries)
      ensures Draining() && IsJoinCall(s, View(), q, true, false, room)
      ensures s.stage.taken == |s.join.sentTrue| ==> room
    {
      room := joiner.outTrue.HasRoom();
      JoinTurn();
    }

    method FilterStep() returns (ghost k: nat)
      requires Draining()
      modifies joiner`takenTrue, joiner.outTrue`tail, joiner.outTrue`iterHead, out, out.buf
      ensures Draining() && IsFilterCall(old(View()), View(), q, k)
      ensures joiner.hashData.entries == old(joiner.hashData.entries)
    {
      k := FilterTurn();
    }

    method ReadStep()
      requires Draining()
      modifies `passed, out`tail
      ensures Draining() && IsReadCall(old(View()), View())
      ensures joiner.hashData.entries == old(joiner.hashData.entries)
    {
      ReadTurn();
    }

    /** The two processes behind the join are called once. */
    method CallBehind(ghost s: HashRun<L, R>, ghost room: bool)
      requires Draining()
      requires s.InOrder(q) && IsJoinCall(s, View(), q, true, false, room)
      requires s.stage.taken == |s.join.sentTrue| ==> room
      modifies `passed, joiner`takenTrue, joiner.outTrue`tail, joiner.outTrue`iterHead, out, out.buf
      ensures Draining() && (!s.Drained() ==> View().IsNearer(s, q))
      ensures joiner.hashData.entries == old(joiner.hashData.entries)
    {
      ghost var t := View();
      ghost var k := FilterStep();
      ghost var u := View();
      ReadStep();
      if !s.Drained() { RoundIsNearer(s, t, u, View(), q, room, k); }
    }

    /** Every process is called once. */
    method Round(ghost s: HashRun<L, R>)
      requires Draining() && s == View()
      modifies `passed, joiner, joiner.hashData, joiner.hashData.entries, joiner.inLeft`tail, joiner.inLeft`iterHead
      modifies joiner.inRight`tail, joiner.inRight`iterHead, joiner.outTrue`head, joiner.outTrue`tail
      modifies joiner.outTrue`iterHead, joiner.outTrue.buf, out, out.buf
      ensures joiner.hashData.entries == old(joiner.hashData.entries) || fresh(joiner.hashData.entries)
      ensures Draining()
      ensures !s.Drained() ==> View().IsNearer(s, q)
    {
      ghost var room := JoinStep(s);
      CallBehind(s, room);
    }

    /**
     Called again and again once the right table is closed, the processes work everything off, however
     small the rings are, and what they passed on is the plan's result.
     */
    method WorkOff()
      requires Draining()
      modifies `passed, joiner, joiner.hashData, joiner.hashData.entries, joiner.inLeft`tail, joiner.inLeft`iterHead
      modifies joiner.inRight`tail, joiner.inRight`iterHead, joiner.outTrue`head, joiner.outTrue`tail
      modifies joiner.outTrue`iterHead, joiner.outTrue.buf, out, out.buf
      ensures Valid() && View().Drained() && passed == q.HashPlan(lefts, rights)
    {
      while !IsDrained()
        invariant Draining()
        invariant joiner.hashData.entries == old(joiner.hashData.entries) || fresh(joiner.hashData.entries)
        decreases View().Phase(), View().Work(q)
      {
        Round(View());
      }
      View().DrainedIsThePlan(q);
    }

    /** Nothing is queued anywhere. */
    function IsDrained(): (drained: bool)
      requires Sound()
      reads this, joiner, joiner.inLeft, joiner.inLeft.buf, joiner.inRight, joiner.inRight.buf
      reads joiner.outTrue, joiner.outTrue.buf, joiner.hashData, joiner.hashData.entries, out, out.buf
      ensures drained <==> View().Drained()
    {
      joiner.state == SIDE_LEFT && joiner.inLeft.IsEmpty() && joiner.outTrue.IsEmpty() && out.IsEmpty()
    }

    method Take(turn: HashTurn<L, R>)
      requires Valid()
      modifies this, joiner, joiner.hashData, joiner.hashData.entries, joiner.inLeft, joiner.inLeft.buf
      modifies joiner.inRight, joiner.inRight.buf, joiner.outTrue, joiner.outTrue.buf, out, out.buf
      ensures joiner.hashData.entries == old(joiner.hashData.entries) || fresh(joiner.hashData.entries)
      ensures Valid()
    {
      match turn
      case LeftArrives(l) => LeftTurn(l);
      case RightArrives(r) => RightTurn(r);
      case RightCloses => CloseRight();
      case Join => JoinTurn();
      case Filter => var _ := FilterTurn();
      case Read => ReadTurn();
    }

    /** Any schedule keeps the pipeline in order. */
    method Run(schedule: seq<HashTurn<L, R>>)
      requires Valid()
      modifies this, joiner, joiner.hashData, joiner.hashData.entries, joiner.inLeft, joiner.inLeft.buf
      modifies joiner.inRight, joiner.inRight.buf, joiner.outTrue, joiner.outTrue.buf, out, out.buf
      ensures Valid()
      ensures View().Drained() ==> passed == q.HashPlan(lefts, rights)
    {
      for i := 0 to |schedule|
        invariant joiner.hashData.entries == old(joiner.hashData.entries) || fresh(joiner.hashData.entries)
        invariant Valid()
      {
        Take(schedule[i]);
      }
      if View().Drained() { View().DrainedIsThePlan(q); }
    }
  }

  /** The output is none of the join's objects, and the join's inputs have buffers of their own. */
  ghost predicate IsBeyond<L(0), R(0)>(joiner: Joiner<L, R>, out: Fifo<Row<L, R>>)
    reads joiner.hashData
  {
    && (joiner.inLeft.buf as object) != joiner.inRight.buf
    && (out as object) != joiner.inLeft && (out as object) != joiner.inRight && out != joiner.outTrue
    && (out.buf as object) != joiner.inLeft.buf && (out.buf as object) != joiner.inRight.buf
    && out.buf != joiner.outTrue.buf
    && IsOutside(joiner.hashData, out) && IsOutside(joiner.hashData, out.buf)
  }

  /**
   What a call of the join does to the pipeline: nothing when nobody reads its output; the right side
   takes all queued records in, and turns to the left when there were none and none will come; the left
   side makes at least one round when it has a group and room.
   */
  ghost predicate IsJoinCall<L, R>(s: HashRun<L, R>, r: HashRun<L, R>, q: Query<L, R>, open: bool,
                                   rightOpen: bool, room: bool)
    requires s.table.Valid() && s.join.Valid()
  {
    if !open then r == s
    else if s.side == SIDE_RIGHT then
      r == s.Fills(q, if s.queued == [] && !rightOpen then SIDE_LEFT else SIDE_RIGHT)
    else if !room || s.join.queue == [] then r == s
    else
      var of := Matcher(s.table, q.Props(), q.leftKey);
      r == s.(join := r.join) && Follows(s.join.Turn(of, false), r.join, of, false)
  }

  lemma JoinTakes<L, R>(s: HashRun<L, R>, r: HashRun<L, R>, q: Query<L, R>, open: bool, rightOpen: bool, room: bool)
    requires s.table.Valid() && s.join.Valid() && IsJoinCall(s, r, q, open, rightOpen, room)
    ensures |r.queued| <= |s.queued| && |r.join.queue| <= |s.join.queue|
  {
    if r != s && s.side == SIDE_LEFT {
      var of := Matcher(s.table, q.Props(), q.leftKey);
      var k: nat :| r.join == Turns(s.join.Turn(of, false), k, of, false);
      TurnsExtend(s.join.Turn(of, false), k, of, false);
    }
  }

  lemma JoinKeepsOrder<L, R>(s: HashRun<L, R>, r: HashRun<L, R>, q: Query<L, R>, open: bool, rightOpen: bool,
                             room: bool)
    requires s.InOrder(q) && IsJoinCall(s, r, q, open, rightOpen, room)
    ensures r.InOrder(q)
  {
    if r != s {
      if s.side == SIDE_RIGHT {
        s.FillKeepsOrder(q, r.side);
      } else {
        s.LooksUpAll(q);
        s.TurnsKeepOrder(q, r.join);
      }
    }
  }

  ghost predicate IsFilterCall<L, R>(s: HashRun<L, R>, r: HashRun<L, R>, q: Query<L, R>, k: nat) {
    && s.stage.taken + k <= |s.join.sentTrue|
    && r == s.(stage := s.stage.Filtered(s.join.sentTrue, q.Filter(Some(q.chosen)), k))
    && (s.stage.held == [] && s.stage.taken < |s.join.sentTrue| ==> k > 0)
  }

  ghost predicate IsReadCall<L, R>(s: HashRun<L, R>, r: HashRun<L, R>) {
    r == if s.stage.held == [] then s else s.(stage := s.stage.Read())
  }

  /** Whatever is left to do, one of the three calls does some of it. */
  lemma RoundIsNearer<L, R>(s: HashRun<L, R>, t: HashRun<L, R>, u: HashRun<L, R>, r: HashRun<L, R>,
                            q: Query<L, R>, room: bool, k: nat)
    requires s.InOrder(q) && !s.Drained()
    requires IsJoinCall(s, t, q, true, false, room) && (s.stage.taken == |s.join.sentTrue| ==> room)
    requires IsFilterCall(t, u, q, k) && IsReadCall(u, r)
    ensures r.IsNearer(s, q)
  {
    t.FilteringIsWork(q, q.Filter(Some(q.chosen)), k);
    if u.stage.held != [] { u.ReadingIsWork(q); }
    if s.side == SIDE_LEFT && room && s.join.queue != [] {
      s.LooksUpAll(q);
      s.TurnsAreWork(q, t.join);
    }
  }

  /* ---- The product ---- */

  datatype BruteTurn<L, N> =
    | LeftArrives(l: L)
    | NodeComesHome(n: N)
    | Join
    | Filter
    | Read

  class BrutePlan<L(!new, 0), R(!new, 0), N(0)> {
    const q: Query<L, R>
    const scanner: Scanner<L, R, N>
    const filter: Router<Row<L, R>>
    const out: Fifo<Row<L, R>>
    ghost var lefts: seq<L>
    var passed: seq<Row<L, R>>

    constructor (q: Query<L, R>, scanner: Scanner<L, R, N>, filter: Router<Row<L, R>>, out: Fifo<Row<L, R>>)
      requires filter.input == scanner.out && filter.outTrue == out && filter.outFalse == null
      requires !filter.isConst && filter.holds == q.Filter(None)
      requires IsBehind(scanner, out)
      requires scanner.Valid() && scanner.inLeft.Guarded() && filter.Valid()
      requires scanner.View() == ScanState([], 0, []) && scanner.taken == 0 && out.Contents() == []
      ensures Valid() && lefts == [] && passed == []
      ensures this.q == q && this.scanner == scanner && this.filter == filter && this.out == out
    {
      this.q, this.scanner, this.filter, this.out := q, scanner, filter, out;
      lefts, passed := [], [];
    }

    ghost function View(): BruteRun<L, R>
      requires scanner.inLeft.Valid() && out.Valid()
      reads this, scanner, scanner.inLeft, scanner.inLeft.buf, out, out.buf
    {
      BruteRun(lefts, scanner.rights, scanner.View(), Stage(scanner.taken, out.Contents(), passed))
    }

    ghost predicate Wired() {
      && filter.input == scanner.out && filter.outTrue == out && filter.outFalse == null
      && !filter.isConst && filter.holds == q.Filter(None)
      && IsBehind(scanner, out)
    }

    /** All processes and rings are sound. */
    ghost predicate Sound()
      reads this, scanner, scanner.inLeft, scanner.inLeft.buf, scanner.inRight, scanner.inRight.buf
      reads scanner.out, scanner.out.buf, out, out.buf
    {
      Wired() && scanner.Valid() && scanner.inLeft.Guarded() && filter.Valid()
    }

    ghost predicate Valid()
      reads this, scanner, scanner.inLeft, scanner.inLeft.buf, scanner.inRight, scanner.inRight.buf
      reads scanner.out, scanner.out.buf, out, out.buf
    {
      Sound() && View().InOrder(q)
    }

    method AddLeft(l: L)
      requires Sound() && scanner.inLeft.HasRoom()
      modifies `lefts, scanner.inLeft`head, scanner.inLeft.buf
      ensures Sound() && View() == old(View()).LeftArrives(l)
    {
      scanner.inLeft.Add(l);
      lefts := lefts + [l];
    }

    method LeftTurn(l: L)
      requires Valid()
      modifies `lefts, scanner.inLeft`head, scanner.inLeft.buf
      ensures Valid() && lefts == old(lefts) + if old(scanner.inLeft.HasRoom()) then [l] else []
    {
      if scanner.inLeft.Receivable() > 0 {
        View().LeftKeepsOrder(q, l);
        AddLeft(l);
      }
    }

    method AddNode(n: N)
      requires Sound() && |scanner.inRight.Contents()| + 1 < scanner.inRight.buf.Length
      modifies scanner.inRight`head, scanner.inRight.buf
      ensures Sound() && View() == old(View())
      ensures scanner.inRight.Contents() == old(scanner.inRight.Contents()) + [n]
    {
      scanner.inRight.Add(n);
    }

    /** A recycled node comes back to the root ring. */
    method NodeTurn(n: N)
      requires Valid()
      modifies scanner.inRight`head, scanner.inRight.buf
      ensures Valid()
      ensures var nodes := old(scanner.inRight.Contents());
              scanner.inRight.Contents() == nodes + if |nodes| + 1 < scanner.inRight.buf.Length then [n] else []
    {
      if scanner.inRight.Available() + 1 < scanner.inRight.buf.Length {
        AddNode(n);
      }
    }

    method CallJoin()
      requires Sound() && scanner.out.HasRoom() && !scanner.IsShort()
      modifies scanner`pos, scanner`inbuf, scanner`iter, scanner`sent
      modifies scanner.inLeft`tail, scanner.inRight`tail, scanner.out`head, scanner.out.buf
      ensures Wired() && scanner.Valid() && filter.Valid()
      ensures IsScanCall(old(View()), View(), scanner.out.isOpen, old(scanner.HasNodes()))
    {
      var _ := scanner.Call();
    }

    method CallSoundJoin()
      requires Sound() && scanner.out.HasRoom() && !scanner.IsShort()
      modifies scanner`pos, scanner`inbuf, scanner`iter, scanner`sent
      modifies scanner.inLeft`tail, scanner.inRight`tail, scanner.out`head, scanner.out.buf
      ensures Sound() && IsScanCall(old(View()), View(), scanner.out.isOpen, old(scanner.HasNodes()))
    {
      ghost var s, nodes := View(), scanner.HasNodes();
      CallJoin();
      ScanTakes(s, View(), scanner.out.isOpen, nodes);
    }

    /** The join is called when its output has room and its root ring is not short of a block. */
    method JoinTurn()
      requires Valid()
      modifies scanner`pos, scanner`inbuf, scanner`iter, scanner`sent
      modifies scanner.inLeft`tail, scanner.inRight`tail, scanner.out`head, scanner.out.buf
      ensures Valid()
      ensures if old(scanner.out.HasRoom() && !scanner.IsShort()) then
                IsScanCall(old(View()), View(), scanner.out.isOpen, old(scanner.HasNodes()))
              else View() == old(View())
    {
      var isShort := scanner.iter == |scanner.inbuf| && 0 < scanner.inRight.Available() < scanner.outSrcCount
                     && scanner.inRight.tail > 0;
      if scanner.out.Receivable() > 0 && !isShort {
        ghost var s, nodes := View(), scanner.HasNodes();
        CallSoundJoin();
        ScanKeepsOrder(s, View(), q, scanner.out.isOpen, nodes);
      }
    }

    method CallFilter(ghost sent: seq<Row<L, R>>, ghost taken: nat) returns (ghost k: nat)
      requires Wired() && filter.Valid() && Carries(scanner.out, sent, taken)
      modifies scanner.out`tail, scanner.out`iterHead, out, out.buf
      ensures filter.Valid() && taken + k <= |sent| && Carries(scanner.out, sent, taken + k)
      ensures out.Contents() == old(out.Contents()) + Where(sent[taken..taken + k], filter.holds, true)
      ensures old(out.isOpen && out.HasRoom()) && taken < |sent| ==> k > 0
    {
      var ret: Return;
      ret, k := filter.Call();
      assert sent[taken..][..k] == sent[taken..taken + k] && sent[taken..][k..] == sent[taken + k..];
    }

    /** The join's rows that the filter read count as consumed. */
    method Consume() returns (ghost k: nat)
      requires Sound()
      modifies scanner`taken, scanner.out`tail, scanner.out`iterHead, out, out.buf
      ensures Sound() && scanner.taken == old(scanner.taken) + k <= |scanner.sent|
      ensures out.Contents() ==
              old(out.Contents()) + Where(scanner.sent[old(scanner.taken)..scanner.taken], filter.holds, true)
      ensures old(out.isOpen && out.HasRoom() && scanner.taken < |scanner.sent|) ==> k > 0
    {
      k := CallFilter(scanner.sent, scanner.taken);
      scanner.Took(k);
    }

    method MoveOn() returns (ghost k: nat)
      requires Sound()
      modifies scanner`taken, scanner.out`tail, scanner.out`iterHead, out, out.buf
      ensures Sound() && old(scanner.taken) + k <= |scanner.sent|
      ensures View() == old(View()).(stage := old(View().stage.Filtered(scanner.sent, filter.holds, k)))
      ensures old(out.isOpen && out.HasRoom() && scanner.taken < |scanner.sent|) ==> k > 0
    {
      k := Consume();
    }

    method FilterTurn() returns (ghost k: nat)
      requires Valid()
      modifies scanner`taken, scanner.out`tail, scanner.out`iterHead, out, out.buf
      ensures Valid() && old(scanner.taken) + k <= |scanner.sent|
      ensures View() == old(View()).(stage := old(View().stage.Filtered(scanner.sent, filter.holds, k)))
      ensures old(out.isOpen && out.HasRoom() && scanner.taken < |scanner.sent|) ==> k > 0
    {
      ghost var s := View();
      k := MoveOn();
      s.stage.FilterKeeps(s.scan.sent, filter.holds, k);
    }

    method TakeRow()
      requires Sound() && out.Contents() != []
      modifies `passed, out`tail
      ensures Sound() && View() == old(View()).(stage := old(View()).stage.Read())
    {
      var row := out.Get();
      passed := passed + [row];
    }

    method ReadTurn()
      requires Valid()
      modifies `passed, out`tail
      ensures Valid()
      ensures View() == if old(out.Contents()) == [] then old(View()) else old(View()).(stage := old(View()).stage.Read())
    {
      if !out.IsEmpty() {
        View().stage.ReadKeeps(scanner.sent, filter.holds);
        TakeRow();
      }
    }

    method Take(turn: BruteTurn<L, N>)
      requires Valid()
      modifies this, scanner, scanner.inLeft, scanner.inLeft.buf, scanner.inRight, scanner.inRight.buf
      modifies scanner.out, scanner.out.buf, out, out.buf
      ensures Valid()
    {
      match turn
      case LeftArrives(l) => LeftTurn(l);
      case NodeComesHome(n) => NodeTurn(n);
      case Join => JoinTurn();
      case Filter => var _ := FilterTurn();
      case Read => ReadTurn();
    }

    /** Any schedule keeps the pipeline in order. */
    method Run(schedule: seq<BruteTurn<L, N>>)
      requires Valid()
      modifies this, scanner, scanner.inLeft, scanner.inLeft.buf, scanner.inRight, scanner.inRight.buf
      modifies scanner.out, scanner.out.buf, out, out.buf
      ensures Valid()
      ensures View().Drained() ==> passed == q.BrutePlan(lefts, scanner.rights)
    {
      for i := 0 to |schedule|
        invariant Valid()
      {
        Take(schedule[i]);
      }
      if View().Drained() { View().DrainedIsThePlan(q); }
    }
  }

  /** All these rings and buffers are different ones. */
  ghost predicate IsBehind<L(0), R, N(0)>(scanner: Scanner<L, R, N>, out: Fifo<Row<L, R>>) {
    && (out as object) != scanner.inLeft && (out as object) != scanner.inRight && out != scanner.out
    && (out.buf as object) != scanner.inLeft.buf && (out.buf as object) != scanner.inRight.buf
    && out.buf != scanner.out.buf && (scanner.inLeft.buf as object) != scanner.inRight.buf
  }

  /** What a call of the join does to the pipeline: with nodes and a left group it reads at least once. */
  ghost predicate IsScanCall<L, R>(s: BruteRun<L, R>, r: BruteRun<L, R>, open: bool, nodes: bool)
    requires s.scan.Valid(s.rights)
  {
    if !open || s.scan.queue == [] || !nodes then r == s
    else r == s.(scan := r.scan) && ReadsTo(s.scan.Read(s.rights), r.scan, s.rights)
  }

  lemma ScanTakes<L, R>(s: BruteRun<L, R>, r: BruteRun<L, R>, open: bool, nodes: bool)
    requires s.scan.Valid(s.rights) && IsScanCall(s, r, open, nodes)
    ensures |r.scan.queue| <= |s.scan.queue|
  {
    if r != s {
      var first := s.scan.Read(s.rights);
      var n: nat :| r.scan == Reads(first, n, s.rights);
      ReadsConserve(first, n, s.rights);
    }
  }

  lemma ScanKeepsOrder<L, R>(s: BruteRun<L, R>, r: BruteRun<L, R>, q: Query<L, R>, open: bool, nodes: bool)
    requires s.InOrder(q) && IsScanCall(s, r, open, nodes)
    ensures r.InOrder(q)
  {
    if r != s {
      s.ReadsKeepOrder(q, r.scan);
    }
  }

  /* ---- Both ---- */

  /**
   Two pipelines for one query that got the same rows and have worked them off let the same rows
   through in the same order, however their processes were scheduled.
   */
  lemma DrainedPipelinesAgree<L(!new, 0), R(!new, 0), N(0)>(hash: HashPlan<L, R>, brute: BrutePlan<L, R, N>)
    requires hash.Valid() && brute.Valid() && hash.View().Drained() && brute.View().Drained()
    requires hash.q == brute.q && hash.lefts == brute.lefts && hash.rights == brute.scanner.rights
    requires !CanBeFalse(hash.q.group, hash.q.chosen) && hash.q.chosen !in Negated(hash.q.group)
    requires hash.q.AllAgree(hash.lefts, hash.rights)
    ensures hash.passed == brute.passed
  {
    hash.View().DrainedIsThePlan(hash.q);
    brute.View().DrainedIsThePlan(brute.q);
    hash.q.HashPlanIsBruteForce(hash.lefts, hash.rights);
  }

  /** With the join predicate as the whole condition they do so exactly when all key pairs agree. */
  lemma SinglePredicatePipelines<L(!new, 0), R(!new, 0), N(0)>(hash: HashPlan<L, R>, brute: BrutePlan<L, R, N>)
    requires hash.Valid() && brute.Valid() && hash.View().Drained() && brute.View().Drained()
    requires hash.q == brute.q && hash.lefts == brute.lefts && hash.rights == brute.scanner.rights
    requires hash.q.group == Predicate(hash.q.chosen, false)
    ensures hash.passed == brute.passed <==> hash.q.AllAgree(hash.lefts, hash.rights)
  {
    hash.View().DrainedIsThePlan(hash.q);
    brute.View().DrainedIsThePlan(brute.q);
    hash.q.SinglePredicatePlans(hash.lefts, hash.rights);
  }
}
