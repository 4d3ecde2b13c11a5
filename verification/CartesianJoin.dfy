/**
 The brute-force join (lib/fqlprocesses.c): the right table is read from the start for every
 left group.

 Records are values. The nodes that carry them come from the right root ring in blocks of
 out_src_count: one for the right record and one for each copied left record.
 */
module CartesianJoin {
  import opened Assoc
  import opened Common
  import opened JoinRows
  import opened Processes
  import opened Ring

  /** The queued left groups, how far the right table was read for the first, and what was sent. */
  datatype ScanState<L, R> = ScanState(queue: seq<L>, pos: nat, sent: seq<Row<L, R>>) {

    ghost predicate Valid(rights: seq<R>) {
      pos <= |rights| && (queue == [] ==> pos == 0)
    }

    ghost function Rest(rights: seq<R>): seq<Row<L, R>>
      requires Valid(rights)
    {
      if queue == [] then []
      else Pairs(queue[0], rights[pos..]) + JoinOf(queue[1..], _ => rights, false)
    }

    /** One read: a row, or at the end of the table the next left group. */
    function Read(rights: seq<R>): (s: ScanState<L, R>)
      requires pos <= |rights| && queue != []
    {
      if pos < |rights| then
        ScanState(queue, pos + 1, sent + [Row(queue[0], Some(rights[pos]))])
      else ScanState(queue[1..], 0, sent)
    }

    lemma ReadConserves(rights: seq<R>)
      requires Valid(rights) && queue != []
      ensures Read(rights).Valid(rights)
      ensures Read(rights).sent + Read(rights).Rest(rights) == sent + Rest(rights)
    {
      var rest := JoinOf(queue[1..], _ => rights, false);
      if pos < |rights| {
        assert rights[pos..][1..] == rights[pos + 1..];
        Regroup(sent, [Row(queue[0], Some(rights[pos]))], Pairs(queue[0], rights[pos + 1..]), rest);
      } else {
        assert Pairs(queue[0], rights[pos..]) == [] && [] + rest == rest;
        if queue[1..] == [] {
          assert rest == [];
        } else {
          assert rights[0..] == rights;
        }
      }
    }

    function Arrive(l: L): ScanState<L, R>
    {
      this.(queue := queue + [l])
    }

    lemma ArrivalExtends(l: L, rights: seq<R>)
      requires Valid(rights)
      ensures Arrive(l).Valid(rights)
      ensures Arrive(l).Rest(rights) == Rest(rights) + Pairs(l, rights)
    {
      if queue == [] {
        assert (queue + [l])[1..] == [] && rights[0..] == rights;
        assert Pairs(l, rights) + [] == Pairs(l, rights) == [] + Pairs(l, rights);
      } else {
        assert (queue + [l])[1..] == queue[1..] + [l];
        JoinOfMore(queue[1..], l, _ => rights, false);
        Associate(Pairs(queue[0], rights[pos..]), JoinOf(queue[1..], _ => rights, false),
                  Pairs(l, rights));
      }
    }
  }

  ghost function Reads<L, R>(s: ScanState<L, R>, n: nat, rights: seq<R>): (r: ScanState<L, R>)
    requires s.Valid(rights)
    ensures r.Valid(rights)
  {
    if n == 0 then s
    else
      var before := Reads(s, n - 1, rights);
      if before.queue == [] then before else before.Read(rights)
  }

  /** r is reached from s by some number of reads. */
  ghost predicate ReadsTo<L, R>(s: ScanState<L, R>, r: ScanState<L, R>, rights: seq<R>) {
    s.Valid(rights) && exists n: nat :: r == Reads(s, n, rights)
  }

  lemma ReadOnce<L, R>(s: ScanState<L, R>, r: ScanState<L, R>, rights: seq<R>)
    requires ReadsTo(s, r, rights) && r.queue != []
    ensures ReadsTo(s, r.Read(rights), rights)
  {
    var n: nat :| r == Reads(s, n, rights);
    assert r.Read(rights) == Reads(s, n + 1, rights);
  }

  lemma NoReads<L, R>(s: ScanState<L, R>, rights: seq<R>)
    requires s.Valid(rights)
    ensures ReadsTo(s, s, rights)
  {
    assert s == Reads(s, 0, rights);
  }

  /** A positive number of whole blocks is at least one block. */
  lemma OneBlockLeft(n: nat, block: nat)
    requires block > 0 && n > 0 && n % block == 0
    ensures n >= block && (n - block) % block == 0
  {
    var q := n / block;
    assert n == q * block;
    assert q >= 1;
    assert (q - 1) * block == n - block;
    QuotientIsUnique(n - block, block, q - 1, 0);
  }

  datatype Event<L> = Deliver(l: L) | Read

  ghost function Run<L, R>(events: seq<Event<L>>, rights: seq<R>): (s: ScanState<L, R>)
    ensures s.Valid(rights)
    decreases |events|
  {
    if events == [] then ScanState([], 0, [])
    else
      var before := Run(events[..|events| - 1], rights);
      match events[|events| - 1]
      case Deliver(l) => before.Arrive(l)
      case Read => if before.queue == [] then before else before.Read(rights)
  }

  function Delivered<L>(events: seq<Event<L>>): seq<L>
  {
    if events == [] then []
    else
      Delivered(events[..|events| - 1])
      + match events[|events| - 1] case Deliver(l) => [l] case Read => []
  }

  /** Whatever the interleaving, rows sent and rows to come are the product in row order. */
  lemma {:induction false} EveryRunIsTheProduct<L, R>(events: seq<Event<L>>, rights: seq<R>)
    ensures var s := Run(events, rights);
            s.sent + s.Rest(rights) == JoinOf(Delivered(events), _ => rights, false)
    decreases |events|
  {
    if events != [] {
      var before, ls := Run(events[..|events| - 1], rights), Delivered(events[..|events| - 1]);
      EveryRunIsTheProduct(events[..|events| - 1], rights);
      match events[|events| - 1]
      case Deliver(l) =>
        before.ArrivalExtends(l, rights);
        JoinOfMore(ls, l, _ => rights, false);
        Associate(before.sent, before.Rest(rights), Pairs(l, rights));
      case Read =>
        assert Delivered(events) == ls + [] == ls;
        if before.queue != [] { before.ReadConserves(rights); }
    }
  }

  /** fifo_nget into an empty buffer. */
  method TakeBlocks<N(0)>(ring: Fifo<N>, block: nat, max: nat) returns (nodes: seq<N>)
    requires ring.Valid() && 1 <= block <= max
    modifies ring`tail
    ensures ring.Valid()
    ensures var c := old(ring.Contents());
            if 0 < |c| < block && old(ring.tail) > 0 then
              ring.View() == old(ring.View()) && nodes == ring.buf[ring.tail..] + ring.buf[..ring.tail]
            else nodes + ring.Contents() == c && |nodes| == WholeBlocks(|c|, block, max)
  {
    ghost var c := ring.Contents();
    var left: nat;
    nodes, left := ring.NGet([], block, max);
    ghost var t := WholeBlocks(|c|, block, max);
    assert c[..t] + c[t..] == c;
    if t == 0 && c != [] && old(ring.tail) > 0 {
      assert ring.Contents() == c;
      assert ring.tail == old(ring.tail);
    }
  }

  class Scanner<L(0), R, N(0)> {
    const rights: seq<R>                // what the reader returns, record by record
    const outSrcCount: nat
    const baseSize: nat
    const inLeft: Fifo<L>
    const inRight: Fifo<N>
    const out: Fifo<Row<L, R>>

    var pos: nat                        // reader position
    var inbuf: seq<N>
    var iter: nat                       // inbuf_iter
    ghost var sent: seq<Row<L, R>>
    ghost var taken: nat

    ghost function View(): ScanState<L, R>
      requires inLeft.Valid()
      reads this, inLeft, inLeft.buf
    {
      ScanState(inLeft.Contents(), pos, sent)
    }

    ghost predicate Valid()
      reads this, inLeft, inLeft.buf, inRight, inRight.buf, out, out.buf
    {
      Scans() && Carries(out, sent, taken)
    }

    /** All but the output. */
    ghost predicate Scans()
      reads this, inLeft, inLeft.buf, inRight, inRight.buf
    {
      && (inLeft as object) != out && (inLeft.buf as object) != out.buf
      && (inRight as object) != out && (inRight.buf as object) != out.buf
      && (inRight as object) != inLeft
      && 1 <= outSrcCount <= baseSize
      && inLeft.Valid() && inRight.Valid()
      && View().Valid(rights)
      && iter <= |inbuf| && (|inbuf| - iter) % outSrcCount == 0
    }

    /** The next process has consumed k rows. */
    method Took(ghost k: nat)
      requires Scans() && Carries(out, sent, taken + k)
      modifies `taken
      ensures Valid() && taken == old(taken) + k
    {
      taken := taken + k;
    }

    constructor (rights: seq<R>, outSrcCount: nat, baseSize: nat, inLeft: Fifo<L>,
                 inRight: Fifo<N>, out: Fifo<Row<L, R>>)
      requires (inLeft as object) != out && (inLeft.buf as object) != out.buf
      requires (inRight as object) != out && (inRight.buf as object) != out.buf
      requires (inRight as object) != inLeft
      requires 1 <= outSrcCount <= baseSize
      requires inLeft.Valid() && inRight.Valid()
      requires out.Valid() && out.Guarded() && out.Contents() == []
      ensures Valid() && View() == ScanState(inLeft.Contents(), 0, [])
      ensures this.rights == rights && this.outSrcCount == outSrcCount && this.baseSize == baseSize
      ensures this.inLeft == inLeft && this.inRight == inRight && this.out == out
    {
      this.rights, this.outSrcCount, this.baseSize := rights, outSrcCount, baseSize;
      this.inLeft, this.inRight, this.out := inLeft, inRight, out;
      pos, inbuf, iter, sent, taken := 0, [], 0, [], 0;
      WholeMultiple(0, outSrcCount);
    }

    /** The buffer is used up, and the root ring has nodes but no whole block, at a tail past slot 0. */
    ghost predicate IsShort()
      requires inRight.Valid()
      reads this, inRight, inRight.buf
    {
      iter == |inbuf| && 0 < |inRight.Contents()| < outSrcCount && inRight.tail > 0
    }

    /** A call finds nodes in the buffer or a block of them in the root ring. */
    ghost predicate HasNodes()
      requires inRight.Valid()
      reads this, inRight, inRight.buf
    {
      iter < |inbuf| || |inRight.Contents()| >= outSrcCount
    }

    /**
     _fill_inbuf: nothing while nodes are left, else the whole blocks the root ring has. When the
     ring is short the buffer gets all of its slots, and the nodes stay in the ring.
     */
    method FillInbuf()
      requires Valid()
      modifies `inbuf, `iter, inRight`tail
      ensures !old(IsShort()) ==> Valid()
      ensures old(iter) < |old(inbuf)| ==> inbuf == old(inbuf) && iter == old(iter)
      ensures old(iter) == |old(inbuf)| && !old(IsShort()) ==>
                iter == 0 && inbuf + inRight.Contents() == old(inRight.Contents())
                && |inbuf| == WholeBlocks(|old(inRight.Contents())|, outSrcCount, baseSize)
      ensures old(IsShort()) ==>
                iter == 0 && inRight.View() == old(inRight.View())
                && inbuf == inRight.buf[inRight.tail..] + inRight.buf[..inRight.tail]
    {
      if iter == |inbuf| {
        inbuf := TakeBlocks(inRight, outSrcCount, baseSize);
        iter := 0;
      }
    }

    /**
     A row made of one block of nodes: the right record and the copied left group. Room in the output
     is looked at afterwards only; a row sent to a full ring takes all rows out of it.
     */
    method SendRow()
      requires Valid() && inLeft.Contents() != []
      requires iter < |inbuf| && pos < |rights|
      modifies `pos, `iter, `sent, out`head, out.buf
      ensures View() == old(View()).Read(rights) && iter > old(iter)
      ensures inLeft.Contents() == old(inLeft.Contents())
      ensures old(out.HasRoom()) ==> Valid()
      ensures |old(out.Contents())| + 1 == out.buf.Length ==> out.Valid() && out.Contents() == []
    {
      OneBlockLeft(|inbuf| - iter, outSrcCount);
      var row := Row(inLeft.Peek(), Some(rights[pos]));
      pos := pos + 1;
      out.View().AddAppends(row);
      out.Add(row);
      sent := sent + [row];
      iter := iter + outSrcCount;
    }

    /** End of the right table: it is reset and the left group is consumed and recycled. */
    method NextLeft()
      requires Valid() && inLeft.Contents() != [] && pos == |rights|
      modifies `pos, inLeft`tail
      ensures Valid() && View() == old(View()).Read(rights)
    {
      pos := 0;
      inLeft.Iter();
    }

    /**
     How a call that read something ended: with a full output, at the end of the right table, where the
     left ring is compared with the mark of an iteration that this process never begins, or without nodes.
     */
    ghost predicate EndedWith(ret: Return, queued: seq<L>)
      requires inLeft.Valid() && out.Valid()
      reads this, inLeft, inLeft.buf, out, out.buf
    {
      && (inLeft.Contents() == queued || (queued != [] && inLeft.Contents() == queued[1..] && out.HasRoom()))
      && (out.HasRoom() && inLeft.Contents() == queued ==> iter == |inbuf|)
      && ret == if !out.HasRoom() then WAIT_ON_OUT0
                else if inLeft.Contents() != queued && inLeft.tail == inLeft.iterHead then WAIT_ON_IN0
                else RUNNING
    }

    /** The loop of one call: reads until the nodes, the right table or the output's room end. */
    method Scan() returns (ret: Return)
      requires Valid() && inLeft.Contents() != [] && out.HasRoom() && iter < |inbuf|
      modifies `pos, `iter, `sent, inLeft`tail, out`head, out.buf
      ensures Valid() && ReadsTo(old(View()).Read(rights), View(), rights)
      ensures EndedWith(ret, old(inLeft.Contents()))
    {
      ghost var first, queued := View().Read(rights), inLeft.Contents();
      ghost var started := false;
      NoReads(first, rights);
      while iter != |inbuf|
        invariant Valid() && out.HasRoom() && inLeft.Contents() == queued
        invariant if started then ReadsTo(first, View(), rights)
                  else iter < |inbuf| && View().Read(rights) == first
        decreases |inbuf| - iter
      {
        if started {
          ReadOnce(first, View(), rights);
        }
        if pos == |rights| {
          NextLeft();
          return if inLeft.tail == inLeft.iterHead then WAIT_ON_IN0 else RUNNING;
        }
        SendRow();
        started := true;
        if out.Receivable() == 0 {
          return WAIT_ON_OUT0;
        }
      }
      ret := RUNNING;
    }

    /** fql_cartesian_join: one call, entered with room in the output. */
    method Call() returns (ret: Return)
      requires Valid() && out.HasRoom() && !IsShort()
      modifies `pos, `inbuf, `iter, `sent, inLeft`tail, inRight`tail, out`head, out.buf
      ensures Valid() && taken == old(taken)
      ensures if !out.isOpen then View() == old(View()) && ret == COMPLETE
              else if old(inLeft.Contents()) == [] then
                View() == old(View()) && ret == if inLeft.isOpen then WAIT_ON_IN0 else COMPLETE
              else if !old(HasNodes()) then
                View() == old(View()) && ret == RUNNING
              else
                ReadsTo(old(View()).Read(rights), View(), rights) && EndedWith(ret, old(inLeft.Contents()))
    {
      if !out.isOpen {
        return COMPLETE;
      }
      if inLeft.IsEmpty() {
        return if inLeft.isOpen then WAIT_ON_IN0 else COMPLETE;
      }
      FillInbuf();
      if iter == |inbuf| {
        return RUNNING;
      }
      ret := Scan();
    }
  }
}
