/**
 The processes around a group (lib/fqlprocesses.c): fql_groupby first takes in all rows and then
 dumps one record a group, fql_distinct passes on the rows that start a group.
 */
module GroupProcesses {
  import opened Assoc
  import opened Common
  import opened Keys
  import opened Ring
  import opened CompositeMap
  import opened FlexStore
  import opened GroupBy
  import opened Processes

  /** The rows no earlier row of the sequence has the key of. */
  ghost function FirstOccurrences<R(!new), A>(g: Grouping<R, A>, rows: seq<R>): seq<R>
  {
    if rows == [] then []
    else
      var n := |rows| - 1;
      FirstOccurrences(g, rows[..n]) + if g.HasKey(rows[..n], g.KeyOf(rows[n])) then [] else [rows[n]]
  }

  lemma OneMore<R(!new), A>(g: Grouping<R, A>, rows: seq<R>, row: R)
    ensures FirstOccurrences(g, rows + [row]) ==
            FirstOccurrences(g, rows) + if g.HasKey(rows, g.KeyOf(row)) then [] else [row]
  {
    assert (rows + [row])[..|rows|] == rows;
  }

  /** The objects of a process are different ones. */
  ghost predicate Apart<R(!new), A, T(0), U(0)>(group: Group<R, A>, input: Fifo<T>, out: Fifo<U>)
    reads group.valMap
  {
    && (input as object) != out && (input.buf as object) != out.buf
    && IsOutside(group, input) && IsOutside(group, input.buf)
    && IsOutside(group, out) && IsOutside(group, out.buf)
  }

  /** The object is none of the group's. */
  ghost predicate IsOutside<R(!new), A>(group: Group<R, A>, o: object)
    reads group.valMap
  {
    && o != group && o != group.groupData && o != group.valMap && o != group.valMap.entries
  }

  /** When row k of those queued is recorded, some aggregate cannot be folded over its group. */
  ghost predicate FailsAt<R(!new), A>(group: Group<R, A>, rows: seq<R>, queued: seq<R>, k: nat)
    requires k < |queued|
  {
    group.CannotFold(group.GroupWith(group.g.Groups(rows + queued[..k]), queued[k]))
  }

  ghost predicate FailsAmong<R(!new), A>(group: Group<R, A>, rows: seq<R>, queued: seq<R>) {
    exists k: nat {:trigger FailsAt(group, rows, queued, k)} :: k < |queued| && FailsAt(group, rows, queued, k)
  }

  /** The rows read so far and the next one, seen from the rows queued at first. */
  lemma FailureIsAmong<R(!new), A>(group: Group<R, A>, rows: seq<R>, queued: seq<R>, read: seq<R>, rest: seq<R>)
    requires read + rest == rows + queued && |read| >= |rows| && rest != []
    requires group.CannotFold(group.GroupWith(group.g.Groups(read), rest[0]))
    ensures FailsAmong(group, rows, queued)
  {
    var k := |read| - |rows|;
    assert read == (rows + queued)[..|read|] == rows + queued[..k];
    assert rest[0] == (read + rest)[|read|] == queued[k];
    assert FailsAt(group, rows, queued, k);
  }

  /** A group without aggregates takes every row. */
  lemma NoAggregateNoFailure<R(!new), A>(group: Group<R, A>, rows: seq<R>, queued: seq<R>)
    requires group.g.aggs == []
    ensures !FailsAmong(group, rows, queued)
  {
  }

  class Distinct<R(!new, 0), A> {
    const group: Group<R, A>
    const input: Fifo<R>
    const out: Fifo<R>

    ghost var sent: seq<R>
    ghost var taken: nat                   // how many of them the next process has consumed

    ghost predicate Valid()
      reads this, group, group.groupData, group.valMap, group.valMap.entries, input, input.buf, out, out.buf
    {
      && Apart(group, input, out) && group.Valid() && input.Valid() && Carries(out, sent, taken)
      && sent == FirstOccurrences(group.g, group.rows)
    }

    /** All rows that came in so far and those still queued. */
    ghost function All(): seq<R>
      requires input.Valid()
      reads group, input, input.buf
    {
      group.rows + input.Contents()
    }

    constructor (group: Group<R, A>, input: Fifo<R>, out: Fifo<R>)
      requires Apart(group, input, out) && group.Valid() && group.rows == [] && input.Valid()
      requires out.Valid() && out.Guarded() && out.Contents() == []
      ensures Valid() && this.group == group && this.input == input && this.out == out && sent == []
    {
      this.group, this.input, this.out := group, input, out;
      sent, taken := [], 0;
    }

    method Send(row: R)
      requires Apart(group, input, out) && group.Valid() && input.Valid()
      requires Carries(out, sent, taken) && out.HasRoom()
      modifies `sent, out`head, out.buf
      ensures Apart(group, input, out) && group.Valid() && input.Valid() && Carries(out, sent, taken)
      ensures input.Contents() == old(input.Contents()) && sent == old(sent) + [row]
    {
      out.Add(row);
      sent := sent + [row];
    }

    /** A row is passed on when it starts a group. */
    method Judge(row: R) returns (ok: bool)
      requires Valid() && out.HasRoom()
      modifies `sent, group, group.groupData, group.valMap, group.valMap.entries, out`head, out.buf
      ensures group.valMap.entries == old(group.valMap.entries) || fresh(group.valMap.entries)
      ensures ok ==> Valid() && group.rows == old(group.rows) + [row]
      ensures ok ==> input.Contents() == old(input.Contents())
      ensures !ok ==> group.CannotFold(group.GroupWith(group.g.Groups(old(group.rows)), row))
    {
      OneMore(group.g, group.rows, row);
      var ret := group.Record(row);
      if ret == 1 {
        Send(row);
      }
      ok := ret != FQL_FAIL;
    }

    /** One queued row is judged and leaves its ring. */
    method PassOne() returns (ok: bool)
      requires Valid() && input.Contents() != [] && out.HasRoom()
      modifies `sent, group, group.groupData, group.valMap, group.valMap.entries, out`head, out.buf, input`tail
      ensures group.valMap.entries == old(group.valMap.entries) || fresh(group.valMap.entries)
      ensures ok ==> Valid() && All() == old(All())
      ensures ok ==> |input.Contents()| + 1 == |old(input.Contents())|
      ensures !ok ==> group.CannotFold(group.GroupWith(group.g.Groups(old(group.rows)), old(input.Contents())[0]))
    {
      FirstMovesOver(group.rows, input.Contents());
      ok := Judge(input.Peek());
      if ok {
        Advance();
      }
    }

    method Advance()
      requires Valid() && input.Contents() != []
      modifies input`tail
      ensures Valid() && input.Contents() == old(input.Contents())[1..]
    {
      input.Iter();
    }

    /** The loop of one call: until the rows queued at its start are read or the output is full. */
    method Pass() returns (ret: Return)
      requires Valid() && out.HasRoom() && input.Contents() != []
      modifies `sent, group, group.groupData, group.valMap, group.valMap.entries
      modifies out`head, out.buf, input`tail, input`iterHead
      ensures ret != FAIL ==> Valid() && All() == old(All()) && |input.Contents()| < |old(input.Contents())|
      ensures ret != FAIL ==> ret == if out.HasRoom() then WAIT_ON_IN0 else WAIT_ON_OUT0
      ensures ret == WAIT_ON_IN0 ==> input.Contents() == []
      ensures ret == FAIL ==> FailsAmong(group, old(group.rows), old(input.Contents()))
    {
      ghost var all, queued, rows, first := All(), |input.Contents()|, group.rows, input.Contents();
      input.Begin();
      while input.tail != input.iterHead
        invariant Valid() && All() == all && |input.Contents()| <= queued
        invariant group.valMap.entries == old(group.valMap.entries) || fresh(group.valMap.entries)
        invariant input.iterHead == input.head && out.HasRoom()
        decreases |input.Contents()|
      {
        ghost var read, rest := group.rows, input.Contents();
        var ok := PassOne();
        if !ok {
          FailureIsAmong(group, rows, first, read, rest);
          return FAIL;
        }
        if out.Receivable() == 0 {
          return WAIT_ON_OUT0;
        }
      }
      ret := WAIT_ON_IN0;
    }

    ghost predicate IsAsBefore(rows: seq<R>, before: seq<R>)
      reads this, group
    {
      group.rows == rows && sent == before
    }

    /** fql_distinct: one call of the process. */
    method Call(waitForIn0: bool) returns (ret: Return)
      requires Valid()
      modifies `sent, group, group.groupData, group.valMap, group.valMap.entries
      modifies out`head, out.buf, input`tail, input`iterHead
      ensures ret != FAIL ==> Valid() && All() == old(All())
      ensures if !out.isOpen then IsAsBefore(old(group.rows), old(sent)) && ret == COMPLETE
              else if old(input.Contents()) == [] then
                IsAsBefore(old(group.rows), old(sent))
                && ret == if waitForIn0 && !input.isOpen then COMPLETE else WAIT_ON_IN0
              else if !old(out.HasRoom()) then IsAsBefore(old(group.rows), old(sent)) && ret == WAIT_ON_OUT0
              else if ret == FAIL then FailsAmong(group, old(group.rows), old(input.Contents()))
              else
                && |input.Contents()| < |old(input.Contents())| && (out.HasRoom() ==> input.Contents() == [])
                && ret == if out.HasRoom() then WAIT_ON_IN0 else WAIT_ON_OUT0
    {
      if !out.isOpen {
        return COMPLETE;
      }
      if input.IsEmpty() {
        return if waitForIn0 && !input.isOpen then COMPLETE else WAIT_ON_IN0;
      }
      if out.Receivable() == 0 {
        return WAIT_ON_OUT0;
      }
      ret := Pass();
    }
  }

  /** The records of the first n groups, in order. */
  ghost function Records<R(!new), A>(group: Group<R, A>, groups: seq<seq<R>>, n: nat)
    : (sent: seq<seq<Field<A>>>)
    requires group.g.Valid() && n <= |groups|
    ensures |sent| == n
  {
    if n == 0 then []
    else
      Records(group, groups, n - 1)
      + [if group.AllFold(groups[n - 1]) then group.g.Record(groups[n - 1]) else []]
  }

  class Grouper<R(!new, 0), A> {
    const group: Group<R, A>
    const inData: Fifo<R>
    const inFresh: Fifo<nat>
    const out: Fifo<seq<Field<A>>>

    ghost var sent: seq<seq<Field<A>>>
    ghost var taken: nat

    /** The rows the group takes in: none at all when it has no expressions. */
    ghost function Recorded(rows: seq<R>): seq<R>
    {
      if group.g.exprs == [] then [] else rows
    }

    lemma OneRecorded(rows: seq<R>, queued: seq<R>)
      requires queued != []
      ensures (rows + Recorded([queued[0]])) + Recorded(queued[1..]) == rows + Recorded(queued)
    {
      assert [queued[0]] + queued[1..] == queued;
    }

    /** What dumping and sending do not disturb. */
    ghost predicate Ready()
      reads this, group, group.groupData, group.valMap, group.valMap.entries
      reads inData, inData.buf, inFresh, inFresh.buf, out, out.buf
    {
      && Apart(group, inData, out) && Apart(group, inFresh, out)
      && (inData as object) != inFresh && (inData.buf as object) != inFresh.buf
      && group.Valid() && inData.Valid() && inFresh.Valid() && Carries(out, sent, taken)
    }

    ghost predicate Valid()
      reads this, group, group.groupData, group.valMap, group.valMap.entries
      reads inData, inData.buf, inFresh, inFresh.buf, out, out.buf
    {
      && Ready() && group.dumpIdx == |sent| <= |group.g.Groups(group.rows).values|
      && sent == Records(group, group.g.Groups(group.rows).values, |sent|)
    }

    constructor (group: Group<R, A>, inData: Fifo<R>, inFresh: Fifo<nat>, out: Fifo<seq<Field<A>>>)
      requires Apart(group, inData, out) && Apart(group, inFresh, out)
      requires (inData as object) != inFresh && (inData.buf as object) != inFresh.buf
      requires group.Valid() && group.dumpIdx == 0 && inData.Valid() && inFresh.Valid()
      requires out.Valid() && out.Guarded() && out.Contents() == []
      ensures Valid() && sent == []
      ensures this.group == group && this.inData == inData && this.inFresh == inFresh && this.out == out
    {
      this.group, this.inData, this.inFresh, this.out := group, inData, inFresh, out;
      sent, taken := [], 0;
    }

    method Send(rec: seq<Field<A>>)
      requires Ready() && out.HasRoom()
      modifies `sent, out`head, out.buf
      ensures Ready() && sent == old(sent) + [rec]
      ensures inFresh.Contents() == old(inFresh.Contents())
    {
      out.Add(rec);
      sent := sent + [rec];
    }

    /** group_dump_record; the rings do not notice. */
    method NextRecord() returns (rec: Option<seq<Field<A>>>)
      requires Valid()
      modifies group`dumpIdx
      ensures Ready() && inFresh.Contents() == old(inFresh.Contents())
      ensures var groups := group.g.Groups(group.rows).values;
              if |sent| >= |groups| then rec == None && group.dumpIdx == |sent|
              else group.dumpIdx == |sent| + 1
                   && rec.Some? && sent + [rec.value] == Records(group, groups, |sent| + 1)
    {
      rec := group.DumpRecord();
    }

    /** The record goes out on the fresh node at the head of its ring. */
    method SendNext(rec: seq<Field<A>>)
      requires Ready() && out.HasRoom()
      requires group.dumpIdx == |sent| + 1 <= |group.g.Groups(group.rows).values|
      requires sent + [rec] == Records(group, group.g.Groups(group.rows).values, |sent| + 1)
      modifies `sent, out`head, out.buf
      ensures Valid() && |sent| == |old(sent)| + 1
      ensures inFresh.Contents() == old(inFresh.Contents())
    {
      Send(rec);
    }

    method AdvanceFresh()
      requires Valid() && inFresh.Contents() != []
      modifies inFresh`tail
      ensures Valid() && inFresh.Contents() == old(inFresh.Contents())[1..]
    {
      inFresh.Iter();
    }

    /** One round of the loop; no group is left when ok is false. */
    method DumpNext() returns (ok: bool)
      requires Valid() && out.HasRoom() && inFresh.Contents() != []
      modifies `sent, group`dumpIdx, out`head, out.buf, inFresh`tail
      ensures Valid()
      ensures ok <==> |old(sent)| < |group.g.Groups(group.rows).values|
      ensures if ok then |sent| == |old(sent)| + 1 && inFresh.Contents() == old(inFresh.Contents())[1..]
              else AllSent() && sent == old(sent) && inFresh.Contents() == old(inFresh.Contents()) && out.HasRoom()
    {
      var rec := NextRecord();
      if rec.None? {
        return false;
      }
      SendNext(rec.value);
      AdvanceFresh();
      ok := true;
    }

    /** How a dump ended, given how many records had gone out and how many nodes there were. */
    ghost predicate DumpedWith(ret: Return, before: nat)
      requires Valid()
      reads this, group, group.groupData, group.valMap, group.valMap.entries
      reads inData, inData.buf, inFresh, inFresh.buf, out, out.buf
    {
      && |sent| + |inFresh.Contents()| == before
      && ret == (if !out.HasRoom() then WAIT_ON_OUT0
                 else if inFresh.Contents() == [] then WAIT_ON_IN0 else COMPLETE)
      && (ret == COMPLETE ==> AllSent())
    }

    /** _group_dump: a record for every fresh node while there is room and a group is left. */
    method Dump() returns (ret: Return)
      requires Valid()
      modifies `sent, group`dumpIdx, out`head, out.buf, inFresh`tail, inFresh`iterHead
      ensures Valid() && DumpedWith(ret, old(|sent| + |inFresh.Contents()|))
    {
      if out.Receivable() == 0 {
        return WAIT_ON_OUT0;
      }
      inFresh.Begin();
      ret := DumpAll(|sent| + |inFresh.Contents()|);
    }

    /** In the loop every record sent used up a fresh node. */
    ghost predicate Dumping(before: nat)
      reads this, group, group.groupData, group.valMap, group.valMap.entries
      reads inData, inData.buf, inFresh, inFresh.buf, out, out.buf
    {
      Valid() && inFresh.iterHead == inFresh.head && |sent| + |inFresh.Contents()| == before
    }

    method DumpAll(ghost before: nat) returns (ret: Return)
      requires Dumping(before) && out.HasRoom()
      modifies `sent, group`dumpIdx, out`head, out.buf, inFresh`tail
      ensures Valid() && DumpedWith(ret, before)
    {
      while inFresh.tail != inFresh.iterHead
        invariant Dumping(before) && out.HasRoom()
        decreases |inFresh.Contents()|
      {
        ret := DumpRound(before);
        if ret != RUNNING {
          return;
        }
      }
      ret := WAIT_ON_IN0;
    }

    /** A round, and how the call ends after it, if it does. */
    method DumpRound(ghost before: nat) returns (ret: Return)
      requires Dumping(before) && out.HasRoom() && inFresh.tail != inFresh.iterHead
      modifies `sent, group`dumpIdx, out`head, out.buf, inFresh`tail
      ensures Dumping(before) && |inFresh.Contents()| <= |old(inFresh.Contents())|
      ensures if ret == RUNNING then out.HasRoom() && |inFresh.Contents()| < |old(inFresh.Contents())|
              else DumpedWith(ret, before)
    {
      var ok := DumpNext();
      if !ok {
        return COMPLETE;
      }
      ret := if out.Receivable() == 0 then WAIT_ON_OUT0 else RUNNING;
    }

    /** All queued rows go into the group. */
    method Collect() returns (ret: Return)
      requires Valid() && sent == []
      modifies group, group.groupData, group.valMap, group.valMap.entries, inData`tail, inData`iterHead
      ensures ret == FAIL || ret == WAIT_ON_IN0
      ensures ret != FAIL ==> Valid() && inData.Contents() == [] && All() == old(All())
      ensures ret == FAIL ==> group.g.exprs != [] && FailsAmong(group, old(group.rows), old(inData.Contents()))
    {
      ghost var rows, queued := group.rows, inData.Contents();
      inData.Begin();
      while inData.tail != inData.iterHead
        invariant Valid() && inData.iterHead == inData.head && All() == old(All())
        invariant |inData.Contents()| <= |queued|
        invariant group.valMap.entries == old(group.valMap.entries) || fresh(group.valMap.entries)
        decreases |inData.Contents()|
      {
        ghost var read, rest := group.rows, inData.Contents();
        var ok := CollectNext();
        if !ok {
          FailureIsAmong(group, rows, queued, read, rest);
          return FAIL;
        }
      }
      ret := WAIT_ON_IN0;
    }

    /** The rows recorded so far and those still to be recorded. */
    ghost function All(): seq<R>
      requires inData.Valid()
      reads group, inData, inData.buf
    {
      group.rows + Recorded(inData.Contents())
    }

    method CollectNext() returns (ok: bool)
      requires Valid() && sent == [] && inData.Contents() != []
      modifies group, group.groupData, group.valMap, group.valMap.entries, inData`tail
      ensures group.valMap.entries == old(group.valMap.entries) || fresh(group.valMap.entries)
      ensures ok ==> Valid() && All() == old(All()) && |inData.Contents()| + 1 == |old(inData.Contents())|
      ensures !ok ==> group.g.exprs != [] && FailsOn(old(group.rows), old(inData.Contents())[0])
    {
      OneRecorded(group.rows, inData.Contents());
      ok := CollectOne(inData.Peek());
      if ok {
        Advance();
      }
    }

    ghost predicate FailsOn(rows: seq<R>, row: R) {
      group.CannotFold(group.GroupWith(group.g.Groups(rows), row))
    }

    /** A group without expressions records nothing. */
    method CollectOne(row: R) returns (ok: bool)
      requires Valid() && sent == []
      modifies group, group.groupData, group.valMap, group.valMap.entries
      ensures group.valMap.entries == old(group.valMap.entries) || fresh(group.valMap.entries)
      ensures ok ==> Valid() && group.rows == old(group.rows) + Recorded([row])
      ensures !ok ==> group.g.exprs != [] && FailsOn(old(group.rows), row)
    {
      if group.g.exprs == [] {
        return true;
      }
      ok := Record(row);
    }

    /** group_record; the rings do not notice. */
    method Record(row: R) returns (ok: bool)
      requires Valid() && sent == []
      modifies group, group.groupData, group.valMap, group.valMap.entries
      ensures group.valMap.entries == old(group.valMap.entries) || fresh(group.valMap.entries)
      ensures ok ==> Ready() && group.rows == old(group.rows) + [row] && group.dumpIdx == old(group.dumpIdx)
      ensures !ok ==> FailsOn(old(group.rows), row)
    {
      var ret := group.Record(row);
      ok := ret != FQL_FAIL;
    }

    method Advance()
      requires Valid() && inData.Contents() != []
      modifies inData`tail
      ensures Valid() && inData.Contents() == old(inData.Contents())[1..]
    {
      inData.Iter();
    }

    method DumpTurn() returns (ret: Return)
      requires Valid() && IsRead()
      modifies `sent, group`dumpIdx, out`head, out.buf, inFresh`tail, inFresh`iterHead
      ensures Valid() && IsRead() && All() == old(All()) && group.rows == old(group.rows)
      ensures DumpedWith(ret, old(|sent| + |inFresh.Contents()|))
    {
      ret := Dump();
    }

    method CollectTurn() returns (ret: Return)
      requires Valid() && DumpsLast() && !IsRead()
      modifies group, group.groupData, group.valMap, group.valMap.entries, inData`tail, inData`iterHead
      ensures ret != FAIL ==> Valid() && DumpsLast() && All() == old(All())
      ensures if ret == FAIL then group.g.exprs != [] && FailsAmong(group, old(group.rows), old(inData.Contents()))
              else ret == WAIT_ON_IN0 && inData.Contents() == []
    {
      ret := Collect();
    }

    /**
     fql_groupby: one call of the process, for a query that is not constant. It completes exactly
     when the output is closed or one record for every group has been sent.
     */
    method Call() returns (ret: Return)
      requires Valid() && DumpsLast()
      modifies `sent, group, group.groupData, group.valMap, group.valMap.entries
      modifies out`head, out.buf, inFresh`tail, inFresh`iterHead, inData`tail, inData`iterHead
      ensures ret != FAIL ==> Valid() && DumpsLast() && All() == old(All())
      ensures if !out.isOpen then group.rows == old(group.rows) && sent == old(sent) && ret == COMPLETE
              else if old(IsRead()) then
                ret != FAIL && group.rows == old(group.rows) && DumpedWith(ret, old(|sent| + |inFresh.Contents()|))
              else if ret == FAIL then
                group.g.exprs != [] && FailsAmong(group, old(group.rows), old(inData.Contents()))
              else ret == WAIT_ON_IN0 && inData.Contents() == [] && sent == old(sent)
    {
      if !out.isOpen {
        return COMPLETE;
      }
      ret := CallOpen();
    }

    method CallOpen() returns (ret: Return)
      requires Valid() && DumpsLast() && out.isOpen
      modifies `sent, group, group.groupData, group.valMap, group.valMap.entries
      modifies out`head, out.buf, inFresh`tail, inFresh`iterHead, inData`tail, inData`iterHead
      ensures ret != FAIL ==> Valid() && DumpsLast() && All() == old(All())
      ensures if old(IsRead()) then
                ret != FAIL && group.rows == old(group.rows) && DumpedWith(ret, old(|sent| + |inFresh.Contents()|))
              else if ret == FAIL then
                group.g.exprs != [] && FailsAmong(group, old(group.rows), old(inData.Contents()))
              else ret == WAIT_ON_IN0 && inData.Contents() == [] && sent == old(sent)
    {
      if !inData.isOpen && inData.IsEmpty() {
        ret := DumpTurn();
      } else {
        ret := CollectTurn();
      }
    }

    /** No row is left and none will come. */
    ghost predicate IsRead()
      requires inData.Valid()
      reads inData, inData.buf
    {
      inData.Contents() == [] && !inData.isOpen
    }

    ghost predicate DumpsLast()
      requires inData.Valid()
      reads this, inData, inData.buf
    {
      sent != [] ==> IsRead()
    }

    /** One record for every group went out, in order. */
    ghost predicate AllSent()
      requires group.Valid()
      reads this, group, group.groupData, group.valMap, group.valMap.entries
    {
      var groups := group.g.Groups(group.rows).values;
      sent == Records(group, groups, |groups|)
    }
  }
}
