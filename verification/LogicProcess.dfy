/**
 The predicate router (fql_logic, lib/fqlprocesses.c): a row goes to the ring of its condition's
 value, or is recycled when there is no such ring.
 */
module LogicProcess {
  import opened Processes
  import opened Ring
  import opened UpdateMerge

  ghost function Held<R(0)>(out: Fifo?<R>): seq<R>
    requires out != null ==> out.Valid()
    reads out, if out == null then {} else {out.buf}
  {
    if out == null then [] else out.Contents()
  }

  ghost predicate Guarded<R(0)>(out: Fifo?<R>)
    reads out, if out == null then {} else {out.buf}
  {
    out != null ==> out.Valid() && out.Guarded()
  }

  ghost predicate Takes<R(0)>(out: Fifo?<R>)
    reads out, if out == null then {} else {out.buf}
  {
    out != null ==> out.Valid() && out.HasRoom()
  }

  ghost function Frame<R(0)>(out: Fifo?<R>): set<object>
  {
    if out == null then {} else {out, out.buf}
  }

  class Router<R(0)> {
    const holds: R -> bool
    const input: Fifo<R>
    const outFalse: Fifo?<R>
    const outTrue: Fifo?<R>
    const isConst: bool

    constructor (holds: R -> bool, input: Fifo<R>, outFalse: Fifo?<R>, outTrue: Fifo?<R>, isConst: bool)
      ensures this.holds == holds && this.input == input && this.isConst == isConst
      ensures this.outFalse == outFalse && this.outTrue == outTrue
    {
      this.holds, this.input, this.outFalse, this.outTrue := holds, input, outFalse, outTrue;
      this.isConst := isConst;
    }

    ghost predicate Apart()
    {
      && Frame(outFalse) !! Frame(outTrue)
      && input !in Frame(outFalse) && input.buf !in Frame(outFalse)
      && input !in Frame(outTrue) && input.buf !in Frame(outTrue)
    }

    ghost predicate Valid()
      reads input, input.buf, Frame(outFalse), Frame(outTrue)
    {
      Apart() && input.Valid() && Guarded(outFalse) && Guarded(outTrue)
    }

    /** The rows that reach an output: all of its kind, or none when there is no such ring. */
    ghost function Share(out: Fifo?<R>, rows: seq<R>, want: bool): seq<R>
    {
      if out == null then [] else Where(rows, holds, want)
    }

    /** Nobody reads an output any more. */
    ghost predicate IsClosed()
      reads Frame(outFalse), Frame(outTrue)
    {
      (outTrue != null && !outTrue.isOpen) || (outFalse != null && !outFalse.isOpen)
    }

    /** What a call leaves alone in its outputs: whether one is closed, and the slots they keep in reserve. */
    ghost function Settings(): (bool, nat, nat)
      reads Frame(outFalse), Frame(outTrue)
    {
      (IsClosed(), if outFalse == null then 0 else outFalse.inputCount,
       if outTrue == null then 0 else outTrue.inputCount)
    }

    /** The row goes to the ring of its condition, if there is one. */
    method Deliver(row: R)
      requires Valid() && Takes(outFalse) && Takes(outTrue)
      modifies Frame(outFalse), Frame(outTrue)
      ensures Valid() && input.Contents() == old(input.Contents()) && Settings() == old(Settings())
      ensures Held(outFalse) == old(Held(outFalse)) + Share(outFalse, [row], false)
      ensures Held(outTrue) == old(Held(outTrue)) + Share(outTrue, [row], true)
    {
      WhereOfOne(row, holds, false);
      WhereOfOne(row, holds, true);
      if holds(row) && outTrue != null {
        outTrue.Add(row);
      } else if !holds(row) && outFalse != null {
        outFalse.Add(row);
      }
    }

    method Advance()
      requires Valid() && input.Contents() != []
      modifies input`tail
      ensures Valid() && input.Contents() == old(input.Contents())[1..]
      ensures Held(outFalse) == old(Held(outFalse)) && Held(outTrue) == old(Held(outTrue))
    {
      input.Iter();
    }

    /** What the outputs gained over heldFalse and heldTrue are the first k rows of queued. */
    ghost predicate Delivered(queued: seq<R>, heldFalse: seq<R>, heldTrue: seq<R>, k: nat)
      requires Valid()
      reads input, input.buf, Frame(outFalse), Frame(outTrue)
    {
      && k <= |queued|
      && Held(outFalse) == heldFalse + Share(outFalse, queued[..k], false)
      && Held(outTrue) == heldTrue + Share(outTrue, queued[..k], true)
    }

    lemma ShareMore(out: Fifo?<R>, held: seq<R>, queued: seq<R>, k: nat, want: bool)
      requires k < |queued|
      ensures (held + Share(out, queued[..k], want)) + Share(out, [queued[k]], want)
           == held + Share(out, queued[..k + 1], want)
    {
      assert queued[..k + 1] == queued[..k] + [queued[k]];
      WhereOfSum(queued[..k], [queued[k]], holds, want);
    }

    /** One round of the loop; the row of a constant query does not leave its ring. */
    method RouteNext(ghost queued: seq<R>, ghost heldFalse: seq<R>, ghost heldTrue: seq<R>, ghost k: nat)
      requires Valid() && Takes(outFalse) && Takes(outTrue)
      requires Delivered(queued, heldFalse, heldTrue, k) && k < |queued| && input.Contents() == queued[k..]
      modifies input`tail, Frame(outFalse), Frame(outTrue)
      ensures Valid() && Delivered(queued, heldFalse, heldTrue, k + 1)
      ensures input.Contents() == if isConst then queued[k..] else queued[k + 1..]
      ensures Settings() == old(Settings())
    {
      ShareMore(outFalse, heldFalse, queued, k, false);
      ShareMore(outTrue, heldTrue, queued, k, true);
      Deliver(input.Peek());
      if !isConst {
        Advance();
      }
    }

    /** What a call waits for: room in the outputs, or else more input. */
    ghost predicate IsWaiting(ret: Return)
      reads Frame(outFalse), Frame(outTrue)
    {
      ret == if !Takes(outTrue) then WAIT_ON_OUT1 else if !Takes(outFalse) then WAIT_ON_OUT0 else WAIT_ON_IN0
    }

    /** The tests of the outputs. */
    method LookForRoom() returns (ret: Return)
      requires Valid()
      ensures IsWaiting(ret)
    {
      if outTrue != null && outTrue.Receivable() == 0 {
        return WAIT_ON_OUT1;
      }
      if outFalse != null && outFalse.Receivable() == 0 {
        return WAIT_ON_OUT0;
      }
      ret := WAIT_ON_IN0;
    }

    /** The loop of one call; that of a constant query stops in its first round. */
    method Route() returns (ret: Return, ghost k: nat)
      requires Valid() && input.Contents() != [] && Takes(outFalse) && Takes(outTrue)
      modifies input`tail, input`iterHead, Frame(outFalse), Frame(outTrue)
      ensures Valid() && k > 0 && Settings() == old(Settings())
      ensures Delivered(old(input.Contents()), old(Held(outFalse)), old(Held(outTrue)), k)
      ensures input.Contents() == if isConst then old(input.Contents()) else old(input.Contents())[k..]
      ensures if isConst then k == 1 && ret == COMPLETE else IsWaiting(ret)
      ensures ret == WAIT_ON_IN0 ==> input.Contents() == []
    {
      ghost var queued, heldFalse, heldTrue := input.Contents(), Held(outFalse), Held(outTrue);
      assert queued[..0] == [] && queued[0..] == queued;
      input.Begin();
      if isConst {
        RouteNext(queued, heldFalse, heldTrue, 0);
        return COMPLETE, 1;
      }
      ret, k := RouteAllQueued(queued, heldFalse, heldTrue, Settings());
    }

    /** The k rows read since queued, and what the outputs gained over heldFalse and heldTrue. */
    ghost predicate Routed(queued: seq<R>, heldFalse: seq<R>, heldTrue: seq<R>, k: nat,
                          settings: (bool, nat, nat))
      reads input, input.buf, Frame(outFalse), Frame(outTrue)
    {
      && Valid() && Delivered(queued, heldFalse, heldTrue, k) && input.Contents() == queued[k..]
      && input.iterHead == input.head && Settings() == settings
    }

    method RouteAllQueued(ghost queued: seq<R>, ghost heldFalse: seq<R>, ghost heldTrue: seq<R>,
                          ghost settings: (bool, nat, nat))
      returns (ret: Return, ghost k: nat)
      requires Routed(queued, heldFalse, heldTrue, 0, settings) && queued != [] && !isConst && IsWaiting(WAIT_ON_IN0)
      modifies input`tail, Frame(outFalse), Frame(outTrue)
      ensures Routed(queued, heldFalse, heldTrue, k, settings) && k > 0
      ensures IsWaiting(ret) && (ret == WAIT_ON_IN0 ==> input.Contents() == [])
    {
      k := 0;
      while input.tail != input.iterHead
        invariant Routed(queued, heldFalse, heldTrue, k, settings) && IsWaiting(WAIT_ON_IN0)
        decreases |queued| - k
      {
        ret := Round(queued, heldFalse, heldTrue, k, settings);
        k := k + 1;
        if ret != WAIT_ON_IN0 {
          return;
        }
      }
      ret := WAIT_ON_IN0;
    }

    method Round(ghost queued: seq<R>, ghost heldFalse: seq<R>, ghost heldTrue: seq<R>, ghost k: nat,
                 ghost settings: (bool, nat, nat))
      returns (ret: Return)
      requires Routed(queued, heldFalse, heldTrue, k, settings) && !isConst && IsWaiting(WAIT_ON_IN0)
      requires input.tail != input.iterHead
      modifies input`tail, Frame(outFalse), Frame(outTrue)
      ensures Routed(queued, heldFalse, heldTrue, k + 1, settings) && k < |queued| && IsWaiting(ret)
    {
      RouteNext(queued, heldFalse, heldTrue, k);
      ret := LookForRoom();
    }

    /** fql_logic: one call of the process. */
    method Call() returns (ret: Return, ghost k: nat)
      requires Valid()
      modifies input`tail, input`iterHead, Frame(outFalse), Frame(outTrue)
      ensures Valid() && Delivered(old(input.Contents()), old(Held(outFalse)), old(Held(outTrue)), k)
      ensures input.Contents() == if isConst then old(input.Contents()) else old(input.Contents())[k..]
      ensures Settings() == old(Settings())
      ensures if IsClosed() then k == 0 && ret == COMPLETE
              else if old(input.Contents()) == [] then
                k == 0 && ret == if input.isOpen then WAIT_ON_IN0 else COMPLETE
              else if !old(Takes(outFalse) && Takes(outTrue)) then k == 0 && IsWaiting(ret)
              else k > 0 && (ret == WAIT_ON_IN0 ==> input.Contents() == [])
                   && if isConst then k == 1 && ret == COMPLETE else IsWaiting(ret)
    {
      k := 0;
      if (outTrue != null && !outTrue.isOpen) || (outFalse != null && !outFalse.isOpen) {
        return COMPLETE, k;
      }
      if input.IsEmpty() {
        return if input.isOpen then WAIT_ON_IN0 else COMPLETE, k;
      }
      ret := LookForRoom();
      if ret == WAIT_ON_IN0 {
        ret, k := Route();
      }
    }
  }
}
