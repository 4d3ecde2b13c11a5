/** fql_update for a single source (lib/fqlprocesses.c): the merge of the two routed streams. */
module UpdateProcess {
  import opened Processes
  import opened Ring
  import opened UpdateMerge
  import opened LogicProcess

  /** How many of the rows written were updated. */
  ghost function Updates<R>(written: seq<(R, bool)>): nat
  {
    if written == [] then 0
    else Updates(written[..|written| - 1]) + if written[|written| - 1].1 then 1 else 0
  }

  lemma UpdatesMore<R>(written: seq<(R, bool)>, w: (R, bool))
    ensures Updates(written + [w]) == Updates(written) + if w.1 then 1 else 0
  {
    assert (written + [w])[..|written|] == written;
  }

  class Updater<R(0)> {
    const position: R -> nat               // rec_idx
    const inFalse: Fifo<R>
    const inTrue: Fifo<R>
    const topCount: nat
    var updateIdx: nat
    var written: seq<(R, bool)>            // what the writer was given, and by which of the two calls
    var rowsAffected: nat                  // of the update; nothing in the source advances it
    var procRowsAffected: nat
    var waitForIn0: bool

    constructor (position: R -> nat, inFalse: Fifo<R>, inTrue: Fifo<R>, topCount: nat)
      requires inFalse != inTrue && inFalse.Valid() && inTrue.Valid()
      ensures Valid() && this.position == position && this.inFalse == inFalse && this.inTrue == inTrue
      ensures updateIdx == 0 && written == [] && rowsAffected == 0 && waitForIn0 && this.topCount == topCount
      ensures procRowsAffected == 0
    {
      this.position, this.inFalse, this.inTrue, this.topCount := position, inFalse, inTrue, topCount;
      updateIdx, written, rowsAffected, procRowsAffected, waitForIn0 := 0, [], 0, 0, true;
    }

    ghost predicate Valid()
      reads inFalse, inFalse.buf, inTrue, inTrue.buf
    {
      inFalse != inTrue && inFalse.Valid() && inTrue.Valid()
    }

    /** The flow of which these are the rings, when the rows routed so far are known. */
    ghost function View(routed: seq<R>): Flow<R>
      requires Valid()
      reads this, inFalse, inFalse.buf, inTrue, inTrue.buf
    {
      Flow(routed, inFalse.Contents(), inTrue.Contents(), updateIdx, written)
    }

    method WriteOne()
      requires Valid() && inFalse.Contents() != []
      modifies `updateIdx, `written
      ensures updateIdx == old(updateIdx) + 1
      ensures written == old(written) + [(inFalse.Contents()[0], false)]
      ensures Updates(written) == Updates(old(written))
    {
      var w := (inFalse.Peek(), false);
      UpdatesMore(written, w);
      written := written + [w];
      updateIdx := updateIdx + 1;
    }

    method WriteFalse(ghost routed: seq<R>)
      requires Valid() && View(routed).CanWrite(false, position)
      modifies `updateIdx, `written, inFalse`tail
      ensures Valid() && View(routed) == old(View(routed)).Write(false, position)
      ensures Updates(written) == Updates(old(written))
    {
      WriteOne();
      inFalse.Iter();
    }

    /** The loop over the rows that are not updated. */
    method DrainFalse(ghost routed: seq<R>)
      requires Valid()
      modifies `updateIdx, `written, inFalse`tail, inFalse`iterHead
      ensures Valid() && View(routed) == Drain(old(View(routed)), false, position)
      ensures Updates(written) == Updates(old(written))
    {
      inFalse.Begin();
      while inFalse.tail != inFalse.iterHead
        invariant Valid() && inFalse.iterHead == inFalse.head
        invariant Drain(View(routed), false, position) == old(Drain(View(routed), false, position))
        invariant Updates(written) == Updates(old(written))
        decreases |inFalse.Contents()|
      {
        if position(inFalse.Peek()) > updateIdx {
          break;
        }
        WriteFalse(routed);
      }
    }

    /** The writing half of a round of the second loop. */
    method UpdateOne()
      requires Valid() && inTrue.Contents() != []
      modifies `updateIdx, `written, `procRowsAffected
      ensures updateIdx == old(updateIdx) + 1 && procRowsAffected == old(procRowsAffected) + 1
      ensures written == old(written) + [(inTrue.Contents()[0], true)]
      ensures Updates(written) == Updates(old(written)) + 1
    {
      UpdatesMore(written, (inTrue.Peek(), true));
      written := written + [(inTrue.Peek(), true)];
      updateIdx := updateIdx + 1;
      procRowsAffected := procRowsAffected + 1;
    }

    /**
     The loop over the rows to be updated. The TOP test compares a counter that stays zero: with
     any other TOP than zero it never stops the loop. With TOP zero the loop stops after one row,
     which was written and recycled but not taken from its ring.
     */
    method DrainTrue(ghost routed: seq<R>) returns (ret: Return)
      requires Valid() && waitForIn0
      modifies `updateIdx, `written, `procRowsAffected, `waitForIn0, inTrue`tail, inTrue`iterHead
      ensures Valid()
      ensures rowsAffected < topCount ==>
                View(routed) == Drain(old(View(routed)), true, position)
                && waitForIn0 && ret == WAIT_ON_IN_EITHER
      ensures rowsAffected >= topCount ==>
                if old(View(routed)).CanWrite(true, position) then
                  View(routed) == old(View(routed)).WriteOnly() && !waitForIn0 && ret == RUNNING
                else View(routed) == old(View(routed)) && waitForIn0 && ret == WAIT_ON_IN_EITHER
      ensures procRowsAffected + Updates(old(written)) == old(procRowsAffected) + Updates(written)
    {
      inTrue.Begin();
      while inTrue.tail != inTrue.iterHead
        invariant Valid() && waitForIn0 && inTrue.iterHead == inTrue.head
        invariant Drain(View(routed), true, position) == old(Drain(View(routed), true, position))
        invariant rowsAffected >= topCount ==> View(routed) == old(View(routed))
        invariant procRowsAffected + Updates(old(written)) == old(procRowsAffected) + Updates(written)
        decreases |inTrue.Contents()|
      {
        if position(inTrue.Peek()) > updateIdx {
          break;
        }
        ghost var s := View(routed);
        UpdateOne();
        if rowsAffected >= topCount {
          waitForIn0 := false;
          return RUNNING;
        }
        inTrue.Iter();
        assert View(routed) == s.Write(true, position);
      }
      ret := WAIT_ON_IN_EITHER;
    }

    /**
     fql_update: one call of the process. When it completes of its own accord everything routed has
     been written, in reading order, updated exactly where the condition holds. The rows counted as
     affected are those written as updated.
     */
    method Call(ghost routed: seq<R>, ghost holds: R -> bool) returns (ret: Return)
      requires Valid()
      modifies this, inFalse`tail, inFalse`iterHead, inTrue`tail, inTrue`iterHead
      ensures Valid() && rowsAffected == old(rowsAffected)
      ensures var s := old(View(routed));
              var m := Drain(s, false, position);
              if s.falses == [] && s.trues == [] then
                View(routed) == s
                && ret == (if inTrue.isOpen || inFalse.isOpen then WAIT_ON_IN_EITHER else COMPLETE)
              else if !old(waitForIn0) then View(routed) == s && ret == COMPLETE
              else if rowsAffected >= topCount && m.CanWrite(true, position) then
                View(routed) == m.WriteOnly() && !waitForIn0 && ret == RUNNING
              else
                View(routed) == (if rowsAffected >= topCount then m else Drain(m, true, position))
                && waitForIn0 && ret == WAIT_ON_IN_EITHER
      ensures procRowsAffected + Updates(old(written)) == old(procRowsAffected) + Updates(written)
      ensures waitForIn0 ==> old(waitForIn0)
      ensures old(waitForIn0) && rowsAffected < topCount && (inTrue.isOpen || inFalse.isOpen) ==> waitForIn0
      ensures ret == COMPLETE ==> !waitForIn0
      ensures ret == COMPLETE && old(waitForIn0) && old(View(routed)).Valid(holds, position) ==>
                written == Marked(routed, holds)
    {
      if inFalse.IsEmpty() && inTrue.IsEmpty() {
        if inTrue.isOpen || inFalse.isOpen {
          return WAIT_ON_IN_EITHER;
        }
        waitForIn0 := false;
        if View(routed).Valid(holds, position) { View(routed).AllIsWritten(holds, position); }
      }
      if !waitForIn0 {
        return COMPLETE;
      }
      DrainFalse(routed);
      ret := DrainTrue(routed);
    }
  }

  /** The router's outputs are the updater's inputs. */
  ghost predicate Connected<R(0)>(router: Router<R>, u: Updater<R>)
    reads router.input, router.input.buf, Frame(router.outFalse), Frame(router.outTrue)
    reads u.inFalse, u.inFalse.buf, u.inTrue, u.inTrue.buf
  {
    && router.outFalse == u.inFalse && router.outTrue == u.inTrue && !router.isConst
    && router.Valid() && u.Valid()
  }

  /** The router has a row to read, room for it on either side and a reader there. */
  ghost predicate CanRoute<R(0)>(router: Router<R>, u: Updater<R>)
    requires Connected(router, u)
    reads router.input, router.input.buf, Frame(router.outFalse), Frame(router.outTrue)
    reads u.inFalse, u.inFalse.buf, u.inTrue, u.inTrue.buf
  {
    router.input.Contents() != [] && u.inFalse.HasRoom() && u.inTrue.HasRoom() && !router.IsClosed()
  }

  /** One call of the router: the rows it read arrive in the updater's rings. */
  method RouteRows<R(0)>(router: Router<R>, u: Updater<R>) returns (ret: Return, ghost rows: seq<R>)
    requires Connected(router, u)
    modifies router.input`tail, router.input`iterHead, Frame(router.outFalse), Frame(router.outTrue)
    ensures Connected(router, u)
    ensures rows + router.input.Contents() == old(router.input.Contents())
    ensures u.inFalse.Contents() == old(u.inFalse.Contents()) + Where(rows, router.holds, false)
    ensures u.inTrue.Contents() == old(u.inTrue.Contents()) + Where(rows, router.holds, true)
    ensures old(CanRoute(router, u)) ==> rows != []
  {
    ghost var queued := router.input.Contents();
    ghost var k;
    ret, k := router.Call();
    rows := queued[..k];
    assert rows + queued[k..] == queued;
  }

  /** On the flow it is the routing of these rows. */
  method RouteTurn<R(0)>(router: Router<R>, u: Updater<R>, ghost routed: seq<R>)
    returns (ret: Return, ghost rows: seq<R>)
    requires Connected(router, u)
    modifies router.input`tail, router.input`iterHead, Frame(router.outFalse), Frame(router.outTrue)
    ensures Connected(router, u)
    ensures rows + router.input.Contents() == old(router.input.Contents())
    ensures u.View(routed + rows) == RouteAll(old(u.View(routed)), rows, router.holds)
    ensures old(CanRoute(router, u)) ==> rows != []
  {
    ghost var s := u.View(routed);
    ret, rows := RouteRows(router, u);
    RouteAllIsWhere(s, rows, router.holds);
  }

  /** Rows carry their positions, from the given one on. */
  ghost predicate NumberedFrom<R>(first: nat, rows: seq<R>, position: R -> nat) {
    forall i {:trigger rows[i]} :: 0 <= i < |rows| ==> position(rows[i]) == first + i
  }

  /**
   The flow between the processes; after the updater has stopped, be it that all rows were written or
   that TOP was zero, the rows written are still the first ones, in order.
   */
  ghost predicate FlowInOrder<R>(s: Flow<R>, waiting: bool, holds: R -> bool, position: R -> nat) {
    if waiting then s.Valid(holds, position)
    else s.idx <= |s.routed| && s.written == Marked(s.routed[..s.idx], holds)
  }

  lemma RouteAllKeepsOrder<R>(s: Flow<R>, waiting: bool, rows: seq<R>, holds: R -> bool, position: R -> nat)
    requires FlowInOrder(s, waiting, holds, position) && NumberedFrom(|s.routed|, rows, position)
    ensures FlowInOrder(RouteAll(s, rows, holds), waiting, holds, position)
  {
    RouteAllIsWhere(s, rows, holds);
    if waiting {
      RouteAllKeepsValid(s, rows, holds, position);
    } else {
      assert (s.routed + rows)[..s.idx] == s.routed[..s.idx];
    }
  }

  /** The row that TOP zero lets through is the next one too. */
  lemma WriteOnlyKeepsOrder<R>(s: Flow<R>, holds: R -> bool, position: R -> nat)
    requires s.Valid(holds, position) && s.CanWrite(true, position)
    ensures FlowInOrder(s.WriteOnly(), false, holds, position)
  {
    s.WriteKeepsValid(true, holds, position);
    s.NextIsAtOneHead(holds, position);
    MarkedMore(s.routed, s.idx, holds);
  }

  /** The rows routed, those waiting for the router, and the flow between the two processes. */
  ghost predicate InOrder<R(0)>(router: Router<R>, u: Updater<R>, routed: seq<R>)
    reads u, router.input, router.input.buf, Frame(router.outFalse), Frame(router.outTrue)
    reads u.inFalse, u.inFalse.buf, u.inTrue, u.inTrue.buf
  {
    && Connected(router, u) && FlowInOrder(u.View(routed), u.waitForIn0, router.holds, u.position)
    && router.input.Guarded() && NumberedFrom(|routed|, router.input.Contents(), u.position)
  }

  /** All rows that have arrived. */
  ghost function Arrived<R(0)>(router: Router<R>, routed: seq<R>): seq<R>
    requires router.input.Valid()
    reads router.input, router.input.buf
  {
    routed + router.input.Contents()
  }

  method RouteInOrder<R(0)>(router: Router<R>, u: Updater<R>, ghost routed: seq<R>)
    returns (ret: Return, ghost now: seq<R>)
    requires InOrder(router, u, routed)
    modifies router.input`tail, router.input`iterHead, Frame(router.outFalse), Frame(router.outTrue)
    ensures InOrder(router, u, now) && Arrived(router, now) == old(Arrived(router, routed))
    ensures |now| > |routed| || (now == routed && !old(CanRoute(router, u)))
  {
    ghost var s, queued := u.View(routed), router.input.Contents();
    ghost var rows;
    ret, rows := RouteTurn(router, u, routed);
    now := routed + rows;
    assert now + router.input.Contents() == routed + queued;
    NumberedParts(|routed|, rows, router.input.Contents(), u.position);
    RouteAllKeepsOrder(s, u.waitForIn0, rows, router.holds, u.position);
  }

  lemma NumberedParts<R>(first: nat, a: seq<R>, b: seq<R>, position: R -> nat)
    requires NumberedFrom(first, a + b, position)
    ensures NumberedFrom(first, a, position) && NumberedFrom(first + |a|, b, position)
  {
    forall i | 0 <= i < |a| ensures position(a[i]) == first + i {
      assert (a + b)[i] == a[i];
    }
    forall i | 0 <= i < |b| ensures position(b[i]) == first + |a| + i {
      assert (a + b)[|a| + i] == b[i];
    }
  }

  /** What a call of the updater makes of the flow, given whether it waited before and waits after. */
  ghost predicate IsUpdateCall<R>(s: Flow<R>, r: Flow<R>, waited: bool, waits: bool, position: R -> nat) {
    var m := Drain(s, false, position);
    if !waited then r == s && !waits
    else if s.falses == [] && s.trues == [] then r == s
    else if !waits then m.CanWrite(true, position) && r == m.WriteOnly()
    else (r == m && !m.CanWrite(true, position)) || r == Drain(m, true, position)
  }

  lemma {:induction false} DrainShrinks<R>(s: Flow<R>, want: bool, position: R -> nat)
    ensures var r := Drain(s, want, position);
            r.routed == s.routed && |r.falses| <= |s.falses| && |r.trues| <= |s.trues|
    decreases |s.Queue(want)|
  {
    if s.CanWrite(want, position) { DrainShrinks(s.Write(want, position), want, position); }
  }

  /** The rings only get shorter, so their producers keep their room. */
  method WriteTurn<R(0)>(router: Router<R>, u: Updater<R>, ghost routed: seq<R>) returns (ret: Return)
    requires Connected(router, u)
    modifies u, u.inFalse`tail, u.inFalse`iterHead, u.inTrue`tail, u.inTrue`iterHead
    ensures Connected(router, u)
    ensures router.input.View() == old(router.input.View()) && router.input.inputCount == old(router.input.inputCount)
    ensures IsUpdateCall(old(u.View(routed)), u.View(routed), old(u.waitForIn0), u.waitForIn0, u.position)
    ensures ret == COMPLETE && old(u.waitForIn0) && old(u.View(routed)).Valid(router.holds, u.position) ==>
              u.written == Marked(routed, router.holds)
  {
    ghost var s := u.View(routed);
    DrainShrinks(s, false, u.position);
    DrainShrinks(Drain(s, false, u.position), true, u.position);
    ret := u.Call(routed, router.holds);
  }

  /** Every outcome of a call keeps the order, and writes a row if one is outstanding. */
  lemma CallKeepsOrder<R>(s: Flow<R>, r: Flow<R>, waited: bool, waits: bool, holds: R -> bool, position: R -> nat)
    requires FlowInOrder(s, waited, holds, position) && IsUpdateCall(s, r, waited, waits, position)
    ensures FlowInOrder(r, waits, holds, position)
    ensures waited && s.idx < |s.routed| ==> r.idx > s.idx
  {
    if waited {
      var m := Drain(s, false, position);
      DrainKeepsValid(s, false, holds, position);
      DrainKeepsValid(m, true, holds, position);
      s.NextIsAtOneHead(holds, position);
      if m.CanWrite(true, position) { WriteOnlyKeepsOrder(m, holds, position); }
      if s.idx < |s.routed| { CallMakesProgress(s, holds, position); }
    }
  }

  method WriteInOrder<R(0)>(router: Router<R>, u: Updater<R>, ghost routed: seq<R>) returns (ret: Return)
    requires InOrder(router, u, routed)
    modifies u, u.inFalse`tail, u.inFalse`iterHead, u.inTrue`tail, u.inTrue`iterHead
    ensures InOrder(router, u, routed) && Arrived(router, routed) == old(Arrived(router, routed))
    ensures ret == COMPLETE && old(u.waitForIn0) ==> u.written == Marked(routed, router.holds)
    ensures old(u.waitForIn0 && u.updateIdx < |routed|) ==> u.updateIdx > old(u.updateIdx)
  {
    ghost var s, waited := u.View(routed), u.waitForIn0;
    ret := WriteTurn(router, u, routed);
    CallKeepsOrder(s, u.View(routed), waited, u.waitForIn0, router.holds, u.position);
  }

  datatype Turn<R> = Arrival(row: R) | Routing | Writing

  /** The reader adds its next row when there is room for it. */
  method ArriveInOrder<R(0)>(router: Router<R>, u: Updater<R>, row: R, next: nat, ghost routed: seq<R>)
    returns (ok: bool)
    requires InOrder(router, u, routed) && next == |Arrived(router, routed)|
    modifies router.input`head, router.input.buf
    ensures InOrder(router, u, routed)
    ensures Arrived(router, routed) == old(Arrived(router, routed)) + if ok then [row] else []
    ensures ok <==> old(router.input.HasRoom()) && u.position(row) == next
  {
    ok := router.input.Receivable() > 0 && u.position(row) == next;
    if ok {
      router.input.Add(row);
    }
  }

  /**
   Both processes under any schedule of arrivals and calls: no row is lost, and what was written are
   the first rows that arrived, in order, each once and updated exactly where its condition holds.
   */
  method RunBoth<R(0)>(router: Router<R>, u: Updater<R>, schedule: seq<Turn<R>>, first: nat,
                       ghost start: seq<R>)
    returns (ghost routed: seq<R>)
    requires InOrder(router, u, start) && first == |Arrived(router, start)|
    modifies u, router.input, router.input.buf, Frame(router.outFalse), Frame(router.outTrue)
    ensures InOrder(router, u, routed) && old(Arrived(router, start)) <= Arrived(router, routed)
    ensures u.updateIdx <= |routed| && u.written == Marked(routed[..u.updateIdx], router.holds)
  {
    var next := first;
    routed := start;
    for i := 0 to |schedule|
      invariant InOrder(router, u, routed) && next == |Arrived(router, routed)|
      invariant old(Arrived(router, start)) <= Arrived(router, routed)
    {
      match schedule[i]
      case Arrival(row) =>
        var ok := ArriveInOrder(router, u, row, next, routed);
        next := next + if ok then 1 else 0;
      case Routing =>
        var _, now := RouteInOrder(router, u, routed);
        routed := now;
      case Writing =>
        var _ := WriteInOrder(router, u, routed);
    }
  }
}
