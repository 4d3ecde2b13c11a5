/**
 The hash-join process (lib/fqlprocesses.c): a right side that fills a multimap and a left side
 that is called again and again and stops whenever an output is full.

 Records are values: nodes for the right records and for copies of the left group, taken from
 the auxiliary root ring, are the subject of RecordPool.
 */
module HashJoin {
  import opened Assoc
  import opened HashTable
  import opened JoinRows
  import opened Keys
  import opened Processes
  import opened Ring

  datatype JoinSide = SIDE_LEFT | SIDE_RIGHT

  /** The matches of a left group in a multimap of right records. */
  ghost function Matcher<L, R>(table: Assoc<Bytes, seq<R>>, props: Props, leftKey: L -> Bytes)
    : L -> seq<R>
    requires table.Valid()
  {
    (l: L) => table.Get(props.Form(leftKey(l))).GetOr([])
  }

  /** The right records with their stored keys, as the multimap receives them. */
  function Keyed<R>(rights: seq<R>, props: Props, rightKey: R -> Bytes): seq<(Bytes, R)>
  {
    if rights == [] then []
    else Keyed(rights[..|rights| - 1], props, rightKey)
         + [(props.Form(rightKey(rights[|rights| - 1])), rights[|rights| - 1])]
  }

  /** The multimap after the right records were stored, in their order. */
  ghost function Filled<R>(table: Assoc<Bytes, seq<R>>, rights: seq<R>, props: Props,
                           rightKey: R -> Bytes): (a: Assoc<Bytes, seq<R>>)
    requires table.Valid()
    ensures a.Valid()
  {
    AppendAll(table, Keyed(rights, props, rightKey))
  }

  lemma FilledLast<R>(table: Assoc<Bytes, seq<R>>, rights: seq<R>, props: Props, rightKey: R -> Bytes)
    requires table.Valid() && rights != []
    ensures var n := |rights| - 1;
            Filled(table, rights, props, rightKey) ==
            Append(Filled(table, rights[..n], props, rightKey), props.Form(rightKey(rights[n])), rights[n])
  {
    var puts := Keyed(rights, props, rightKey);
    assert puts[..|puts| - 1] == Keyed(rights[..|rights| - 1], props, rightKey);
  }

  /** Batches of right records fill the multimap as one batch would. */
  lemma {:induction false} FilledInBatches<R>(table: Assoc<Bytes, seq<R>>, first: seq<R>, more: seq<R>,
                                              props: Props, rightKey: R -> Bytes)
    requires table.Valid()
    ensures Filled(Filled(table, first, props, rightKey), more, props, rightKey)
         == Filled(table, first + more, props, rightKey)
    decreases |more|
  {
    var all := first + more;
    if more == [] {
      assert all == first;
    } else {
      var n := |more| - 1;
      FilledInBatches(table, first, more[..n], props, rightKey);
      FilledLast(Filled(table, first, props, rightKey), more, props, rightKey);
      FilledLast(table, all, props, rightKey);
      assert all[..|all| - 1] == first + more[..n];
    }
  }

  lemma FilledFirst<R>(table: Assoc<Bytes, seq<R>>, rights: seq<R>, props: Props, rightKey: R -> Bytes)
    requires table.Valid() && rights != []
    ensures Filled(Append(table, props.Form(rightKey(rights[0])), rights[0]), rights[1..], props, rightKey)
         == Filled(table, rights, props, rightKey)
  {
    var one := [rights[0]];
    FilledInBatches(table, one, rights[1..], props, rightKey);
    assert rights == one + rights[1..];
    FilledLast(table, one, props, rightKey);
    assert one[..0] == [];
  }

  /** A vector is made for its first record and only grows. */
  ghost predicate NoEmptyVector<R>(vectors: seq<seq<R>>) {
    forall i :: 0 <= i < |vectors| ==> vectors[i] != []
  }

  /** The object is none of the multimap's. */
  ghost predicate IsOutside<R>(hashData: HashMap<seq<R>>, o: object)
    reads hashData
  {
    o != hashData && o != hashData.entries
  }

  /** The rings, their buffers and the multimap are different objects. */
  ghost predicate Apart<L(0), R(0)>(inLeft: Fifo<L>, inRight: Fifo<R>, outTrue: Fifo<Row<L, R>>,
                                    hashData: HashMap<seq<R>>)
    reads hashData
  {
    && (inLeft as object) != outTrue && (inLeft.buf as object) != outTrue.buf
    && (inRight as object) != outTrue && (inRight.buf as object) != outTrue.buf
    && (inRight as object) != inLeft
    && IsOutside(hashData, inLeft) && IsOutside(hashData, inLeft.buf)
    && IsOutside(hashData, inRight) && IsOutside(hashData, inRight.buf)
    && IsOutside(hashData, outTrue) && IsOutside(hashData, outTrue.buf)
  }

  class Joiner<L(0), R(0)> {
    const leftKey: L -> Bytes
    const rightKey: R -> Bytes
    const outer: bool                       // join_type == JOIN_LEFT
    const inLeft: Fifo<L>
    const inRight: Fifo<R>
    const outTrue: Fifo<Row<L, R>>
    const hashData: HashMap<seq<R>>

    var state: JoinSide
    var recs: Option<seq<R>>
    var recIdx: nat

    ghost var sentTrue: seq<Row<L, R>>
    ghost var takenTrue: nat               // how many of them the next process has consumed
    ghost var dropped: seq<Row<L, R>>      // left groups recycled without a match

    constructor (leftKey: L -> Bytes, rightKey: R -> Bytes, outer: bool, inLeft: Fifo<L>,
                 inRight: Fifo<R>, outTrue: Fifo<Row<L, R>>,
                 hashData: HashMap<seq<R>>)
      requires inLeft.Valid() && hashData.Valid() && hashData.View() == Assoc([], [])
      requires outTrue.Valid() && outTrue.Guarded() && outTrue.Contents() == []
      requires Apart(inLeft, inRight, outTrue, hashData)
      ensures Valid() && state == SIDE_RIGHT
      ensures View() == JoinState(inLeft.Contents(), [], [], [])
      ensures this.leftKey == leftKey && this.rightKey == rightKey && this.outer == outer
      ensures this.inLeft == inLeft && this.inRight == inRight && this.hashData == hashData
      ensures this.outTrue == outTrue
    {
      this.leftKey, this.rightKey, this.outer := leftKey, rightKey, outer;
      this.inLeft, this.inRight, this.hashData := inLeft, inRight, hashData;
      this.outTrue := outTrue;
      state, recs, recIdx := SIDE_RIGHT, None, 0;
      sentTrue, takenTrue, dropped := [], 0, [];
    }

    /** The matches of the current left group that are still to be sent. */
    ghost function Pending(): seq<R>
      reads this
    {
      if recs.Some? && recIdx <= |recs.value| then recs.value[recIdx..] else []
    }

    ghost function View(): JoinState<L, R>
      requires inLeft.Valid()
      reads this, inLeft, inLeft.buf
    {
      JoinState(inLeft.Contents(), Pending(), sentTrue, dropped)
    }

    ghost function Matches(): L -> seq<R>
      requires hashData.View().Valid()
      reads hashData
    {
      Matcher(hashData.View(), hashData.props, leftKey)
    }

    ghost predicate Valid()
      reads this, inLeft, inLeft.buf, outTrue, outTrue.buf, hashData, hashData.entries
    {
      Joins() && Carries(outTrue, sentTrue, takenTrue)
    }

    /** All but the output. */
    ghost predicate Joins()
      reads this, inLeft, inLeft.buf, hashData, hashData.entries
    {
      && Apart(inLeft, inRight, outTrue, hashData)
      && inLeft.Valid() && hashData.Valid() && NoEmptyVector(hashData.values)
      && (recs.Some? ==> recIdx < |recs.value| && inLeft.Contents() != [])
    }

    /** The next process has consumed k rows. */
    method Took(ghost k: nat)
      requires Joins() && Carries(outTrue, sentTrue, takenTrue + k)
      modifies `takenTrue
      ensures Valid() && takenTrue == old(takenTrue) + k
    {
      takenTrue := takenTrue + k;
    }

    /** _hash_join_left_side: the next match of the group, if there is one. */
    method LeftSide(l: L) returns (rec: Option<R>)
      requires hashData.Valid() && NoEmptyVector(hashData.values)
      requires recs.Some? ==> recIdx < |recs.value|
      modifies `recs, `recIdx, hashData`keybuf
      ensures hashData.Valid()
      ensures hashData.View() == old(hashData.View())
      ensures recs.Some? ==> recIdx < |recs.value|
      ensures var rs := if old(Pending()) == [] then Matches()(l) else old(Pending());
              if rs == [] then rec == None && Pending() == []
              else rec == Some(rs[0]) && Pending() == rs[1..]
    {
      if recs.None? {
        recs := hashData.NGet(leftKey(l));
        recIdx := 0;
        if recs.None? {
          return None;
        }
      }
      rec := Some(recs.value[recIdx]);
      recIdx := recIdx + 1;
      if recIdx >= |recs.value| {
        recs := None;
      }
    }

    /** One round of the left-side loop. */
    method TurnOnce()
      requires Valid() && inLeft.Contents() != [] && outTrue.HasRoom()
      modifies `recs, `recIdx, `sentTrue, `dropped
      modifies hashData`keybuf, inLeft`tail, outTrue`head, outTrue.buf
      ensures Valid()
      ensures hashData.View() == old(hashData.View())
      ensures View() == old(View()).Turn(old(Matches()), outer)
      ensures |inLeft.Contents()| < old(|inLeft.Contents()|)
              || (inLeft.Contents() == old(inLeft.Contents())
                  && |outTrue.Contents()| > old(|outTrue.Contents()|))
    {
      TakeNext(if Pending() == [] then Matches()(inLeft.Contents()[0]) else Pending());
    }

    /** The round, given the matches that are left for the group. */
    method TakeNext(ghost rs: seq<R>)
      requires Valid() && inLeft.Contents() != [] && outTrue.HasRoom()
      requires rs == if Pending() == [] then Matches()(inLeft.Contents()[0]) else Pending()
      modifies `recs, `recIdx, `sentTrue, `dropped
      modifies hashData`keybuf, inLeft`tail, outTrue`head, outTrue.buf
      ensures Valid() && hashData.View() == old(hashData.View())
      ensures Pending() == if rs == [] then [] else rs[1..]
      ensures inLeft.Contents() == if |rs| <= 1 then old(inLeft.Contents())[1..] else old(inLeft.Contents())
      ensures var l := old(inLeft.Contents())[0];
              && sentTrue == old(sentTrue) + (if rs != [] then [Row(l, Some(rs[0]))] else if outer then [Row(l, None)]
                                              else [])
              && dropped == old(dropped) + (if rs == [] && !outer then [Row(l, None)] else [])
      ensures |inLeft.Contents()| < old(|inLeft.Contents()|)
              || (inLeft.Contents() == old(inLeft.Contents())
                  && |outTrue.Contents()| > old(|outTrue.Contents()|))
    {
      var l := inLeft.Peek();
      var rec := LeftSide(l);
      Deliver(l, rec);
    }

    /** Sends the row of a match, or deals with a group that has none, and moves on. */
    method Deliver(l: L, rec: Option<R>)
      requires Valid() && inLeft.Contents() != [] && outTrue.HasRoom() && (rec.None? ==> recs.None?)
      modifies `sentTrue, `dropped, inLeft`tail, outTrue`head, outTrue.buf
      ensures Valid() && hashData.View() == old(hashData.View())
      ensures |inLeft.Contents()| < old(|inLeft.Contents()|)
              || (inLeft.Contents() == old(inLeft.Contents())
                  && |outTrue.Contents()| > old(|outTrue.Contents()|))
      ensures sentTrue == old(sentTrue) + (if rec.Some? || outer then [Row(l, rec)] else [])
      ensures dropped == old(dropped) + (if rec.None? && !outer then [Row(l, None)] else [])
      ensures inLeft.Contents() == if rec.None? || recs.None? then old(inLeft.Contents())[1..]
                                   else old(inLeft.Contents())
    {
      if rec.None? && !outer {
        dropped := dropped + [Row(l, None)];   // recycled
      } else {
        Send(Row(l, rec));
      }
      if rec.None? || recs.None? {
        inLeft.Iter();
      }
    }

    /** fifo_add on the true output. */
    method Send(row: Row<L, R>)
      requires Carries(outTrue, sentTrue, takenTrue) && outTrue.HasRoom()
      modifies `sentTrue, outTrue`head, outTrue.buf
      ensures Carries(outTrue, sentTrue, takenTrue)
      ensures sentTrue == old(sentTrue) + [row]
    {
      outTrue.Add(row);
      sentTrue := sentTrue + [row];
    }

    /**
     The left-side loop of one call: at least one turn, and then turns until the queue is drained
     or the output is full.
     */
    method LeftCall() returns (ret: Return)
      requires Valid() && outTrue.HasRoom() && inLeft.Contents() != []
      modifies `recs, `recIdx, `sentTrue, `dropped
      modifies hashData`keybuf, inLeft`tail, inLeft`iterHead, outTrue`head, outTrue.buf
      ensures Valid() && hashData.View() == old(hashData.View())
      ensures Follows(old(View()).Turn(old(Matches()), outer), View(), old(Matches()), outer)
      ensures ret == if outTrue.HasRoom() then WAIT_ON_IN0 else WAIT_ON_OUT1
      ensures ret == WAIT_ON_IN0 ==> inLeft.Contents() == []
    {
      ghost var of, first := Matches(), View().Turn(Matches(), outer);
      ghost var started := false;
      inLeft.Begin();
      while inLeft.tail != inLeft.iterHead
        invariant Valid() && hashData.View() == old(hashData.View())
        invariant inLeft.iterHead == inLeft.head && outTrue.HasRoom()
        invariant if started then Follows(first, View(), of, outer)
                  else inLeft.Contents() != [] && View().Turn(of, outer) == first
        decreases |inLeft.Contents()|, outTrue.buf.Length - |outTrue.Contents()|
      {
        FollowsTurn(first, View(), of, outer);
        TurnOnce();
        started := true;
        if outTrue.Receivable() == 0 {
          return WAIT_ON_OUT1;
        }
      }
      ret := WAIT_ON_IN0;
    }

    /** The multimap once the queued right records are in it. */
    ghost function WhenFilled(): Assoc<Bytes, seq<R>>
      requires inRight.Valid() && hashData.View().Valid()
      reads hashData, inRight, inRight.buf
    {
      Filled(hashData.View(), inRight.Contents(), hashData.props, rightKey)
    }

    /** _hash_join_right_side: every queued right record goes into the multimap. */
    method RightSide()
      requires Valid() && inRight.Valid()
      modifies hashData, hashData.entries, inRight`tail, inRight`iterHead
      ensures Valid() && inRight.Valid() && (hashData.entries == old(hashData.entries) || fresh(hashData.entries))
      ensures inRight.Contents() == []
      ensures hashData.View() == Filled(old(hashData.View()), old(inRight.Contents()),
                                        hashData.props, rightKey)
    {
      inRight.Begin();
      while inRight.tail != inRight.iterHead
        invariant Valid() && inRight.Valid() && (hashData.entries == old(hashData.entries) || fresh(hashData.entries))
        invariant inRight.iterHead == inRight.head
        invariant WhenFilled() == old(WhenFilled())
        decreases |inRight.Contents()|
      {
        FilledFirst(hashData.View(), inRight.Contents(), hashData.props, rightKey);
        StoreNext();
      }
    }

    /** One round of the right-side loop. */
    method StoreNext()
      requires Valid() && inRight.Valid() && inRight.Contents() != []
      modifies hashData, hashData.entries, inRight`tail
      ensures Valid() && inRight.Valid() && (hashData.entries == old(hashData.entries) || fresh(hashData.entries))
      ensures inRight.Contents() == old(inRight.Contents())[1..]
      ensures var r := old(inRight.Contents())[0];
              hashData.View() == Append(old(hashData.View()), hashData.props.Form(rightKey(r)), r)
    {
      StoreRight(inRight.Peek());
      inRight.Iter();
    }

    method StoreRight(r: R)
      requires Valid()
      modifies hashData, hashData.entries
      ensures Valid() && (hashData.entries == old(hashData.entries) || fresh(hashData.entries))
      ensures hashData.View() ==
              Append(old(hashData.View()), hashData.props.Form(rightKey(r)), r)
    {
      AppendKeepsNonEmpty(hashData.View(), hashData.props.Form(rightKey(r)), r);
      MultimapNSet(hashData, rightKey(r), r);
    }

    /** The half of a call that fills the multimap, and at the end of the right table turns to the left. */
    method RightCall() returns (ret: Return)
      requires Valid() && inRight.Valid() && state == SIDE_RIGHT
      modifies `state, hashData, hashData.entries, inRight`tail, inRight`iterHead
      ensures Valid() && inRight.Valid() && (hashData.entries == old(hashData.entries) || fresh(hashData.entries))
      ensures View() == old(View()) && inRight.Contents() == []
      ensures hashData.View() == Filled(old(hashData.View()), old(inRight.Contents()),
                                        hashData.props, rightKey)
      ensures state == SIDE_LEFT <==> old(inRight.Contents()) == [] && !inRight.isOpen
      ensures ret == if state == SIDE_LEFT then RUNNING else WAIT_ON_IN1
    {
      if inRight.IsEmpty() {
        if !inRight.isOpen {
          state := SIDE_LEFT;
          return RUNNING;
        }
        return WAIT_ON_IN1;
      }
      RightSide();
      ret := WAIT_ON_IN1;
    }

    /** The half of a call that sends rows, if there is room and a left group. */
    method SendCall() returns (ret: Return)
      requires Valid()
      modifies `recs, `recIdx, `sentTrue, `dropped
      modifies hashData`keybuf, inLeft`tail, inLeft`iterHead, outTrue`head, outTrue.buf
      ensures Valid() && hashData.View() == old(hashData.View())
      ensures if !old(outTrue.HasRoom()) then View() == old(View()) && ret == WAIT_ON_OUT1
              else if old(inLeft.Contents()) == [] then
                View() == old(View()) && ret == if inLeft.isOpen then WAIT_ON_IN0 else COMPLETE
              else
                && Follows(old(View()).Turn(old(Matches()), outer), View(), old(Matches()), outer)
                && ret == (if outTrue.HasRoom() then WAIT_ON_IN0 else WAIT_ON_OUT1)
                && (ret == WAIT_ON_IN0 ==> inLeft.Contents() == [])
    {
      if outTrue.Receivable() == 0 {
        return WAIT_ON_OUT1;
      }
      if inLeft.IsEmpty() {
        return if inLeft.isOpen then WAIT_ON_IN0 else COMPLETE;
      }
      ret := LeftCall();
    }

    /** fql_hash_join: one call of the process. */
    method Call() returns (ret: Return)
      requires Valid() && inRight.Valid()
      modifies this, hashData, hashData.entries, inLeft`tail, inLeft`iterHead
      modifies inRight`tail, inRight`iterHead, outTrue`head, outTrue.buf
      ensures Valid() && inRight.Valid() && (hashData.entries == old(hashData.entries) || fresh(hashData.entries))
      ensures takenTrue == old(takenTrue)
      ensures !outTrue.isOpen ==>
                ret == COMPLETE && state == old(state) && View() == old(View())
                && hashData.View() == old(hashData.View()) && inRight.Contents() == old(inRight.Contents())
      ensures outTrue.isOpen && old(state) == SIDE_RIGHT ==>
                && View() == old(View()) && inRight.Contents() == []
                && hashData.View() == Filled(old(hashData.View()), old(inRight.Contents()),
                                             hashData.props, rightKey)
                && (state == SIDE_LEFT <==> old(inRight.Contents()) == [] && !inRight.isOpen)
                && ret == if state == SIDE_LEFT then RUNNING else WAIT_ON_IN1
      ensures outTrue.isOpen && old(state) == SIDE_LEFT ==>
                && state == SIDE_LEFT && hashData.View() == old(hashData.View())
                && inRight.Contents() == old(inRight.Contents())
                && if !old(outTrue.HasRoom()) then View() == old(View()) && ret == WAIT_ON_OUT1
                   else if old(inLeft.Contents()) == [] then
                     View() == old(View()) && ret == if inLeft.isOpen then WAIT_ON_IN0 else COMPLETE
                   else
                     && Follows(old(View()).Turn(old(Matches()), outer), View(), old(Matches()), outer)
                     && ret == (if outTrue.HasRoom() then WAIT_ON_IN0 else WAIT_ON_OUT1)
                     && (ret == WAIT_ON_IN0 ==> inLeft.Contents() == [])
    {
      if !outTrue.isOpen {
        return COMPLETE;
      }
      if state == SIDE_RIGHT {
        ret := RightCall();
        return;
      }
      ret := SendCall();
    }
  }

  lemma AppendKeepsNonEmpty<K(!new), D>(a: Assoc<K, seq<D>>, k: K, d: D)
    requires a.Valid() && NoEmptyVector(a.values)
    ensures NoEmptyVector(Append(a, k, d).values)
  {
  }
}