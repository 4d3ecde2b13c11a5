/**
 ORDER BY and TOP (lib/order.c): sort keys kept in a flat store, the comparator over it, and the
 output of the first entries of the sorted vector.

 Sort expressions are total functions from a row to an integer or a text. An integer is stored as
 the eight bytes of its word, lowest first.
 */
module OrderBy {
  import opened Binary
  import opened Keys
  import opened CheckedArith
  import opened FlexStore
  import opened SortOrder

  /* ---- Numbers in binary ---- */

  function StoredLong(n: Long): Bytes
  {
    ToBytes(Unsigned(n), 8)
  }

  function LoadedLong(b: Bytes): Long
  {
    Wrapped(FromBytes(b))
  }

  /** What is read back is what was stored. */
  lemma LongRoundTrip(n: Long)
    ensures |StoredLong(n)| == 8 && LoadedLong(StoredLong(n)) == n
  {
    Powers();
    FromToBytes(Unsigned(n), 8);
    assert InRange(n);
    WordOf(n);
    WordOf(Unsigned(n));
  }

  /* ---- The order meant by the sort expressions ---- */

  datatype SortKey<!R> =
    | IntKey(number: R -> Long, descending: bool)
    | TextKey(text: R -> Bytes, descending: bool)

  function CompareNumbers(n0: int, n1: int): int
  {
    if n0 > n1 then 1 else if n0 < n1 then -1 else 0
  }

  function CompareBy<R>(key: SortKey<R>, a: R, b: R): int
  {
    var ret := match key
               case IntKey(number, _) => CompareNumbers(number(a), number(b))
               case TextKey(text, _) => Keys.Compare(true, text(a), text(b));
    if key.descending then -ret else ret
  }

  /** The first key that tells the rows apart decides. */
  function CompareRows<R>(keys: seq<SortKey<R>>, a: R, b: R): int
    decreases |keys|
  {
    if keys == [] then 0
    else if CompareBy(keys[0], a, b) != 0 then CompareBy(keys[0], a, b)
    else CompareRows(keys[1..], a, b)
  }

  function Comparator<R>(keys: seq<SortKey<R>>): (R, R) -> int
  {
    (a, b) => CompareRows(keys, a, b)
  }

  /** All texts that the row is sorted by are free of control bytes. */
  predicate Sortable<R>(keys: seq<SortKey<R>>, r: R) {
    forall k {:trigger keys[k]} :: 0 <= k < |keys| && keys[k].TextKey? ==> Printable(keys[k].text(r))
  }

  lemma CompareByLaws<R>(key: SortKey<R>, a: R, b: R, c: R)
    requires key.TextKey? ==> Printable(key.text(a)) && Printable(key.text(b)) && Printable(key.text(c))
    ensures CompareBy(key, a, b) < 0 <==> CompareBy(key, b, a) > 0
    ensures CompareBy(key, a, b) <= 0 && CompareBy(key, b, c) <= 0 ==> CompareBy(key, a, c) <= 0
    ensures CompareBy(key, a, b) == 0 && CompareBy(key, b, c) == 0 ==> CompareBy(key, a, c) == 0
    ensures CompareBy(key, a, c) == 0 && CompareBy(key, a, b) <= 0 && CompareBy(key, b, c) <= 0 ==>
              CompareBy(key, a, b) == 0 && CompareBy(key, b, c) == 0
  {
    if key.TextKey? {
      var x, y, z := key.text(a), key.text(b), key.text(c);
      CompareIsTotalPreorder(true, x, y, z);
      CompareIsTotalPreorder(true, z, y, x);
      CompareIsTotalPreorder(true, y, x, z);
      CompareIsTotalPreorder(true, z, x, y);
      CompareIsTotalPreorder(true, y, z, x);
      CompareIsTotalPreorder(true, x, z, y);
    }
  }

  /** Sign and transitivity for all keys together. */
  lemma {:induction false} CompareRowsLaws<R>(keys: seq<SortKey<R>>, a: R, b: R, c: R)
    requires Sortable(keys, a) && Sortable(keys, b) && Sortable(keys, c)
    ensures CompareRows(keys, a, b) < 0 <==> CompareRows(keys, b, a) > 0
    ensures CompareRows(keys, a, b) <= 0 && CompareRows(keys, b, c) <= 0 ==> CompareRows(keys, a, c) <= 0
    decreases |keys|
  {
    if keys != [] {
      assert keys[0].TextKey? ==> Printable(keys[0].text(a));
      CompareByLaws(keys[0], a, b, c);
      CompareByLaws(keys[0], b, a, c);
      forall k | 0 <= k < |keys[1..]|
        ensures keys[1..][k].TextKey? ==> Printable(keys[1..][k].text(a))
        ensures keys[1..][k].TextKey? ==> Printable(keys[1..][k].text(b))
        ensures keys[1..][k].TextKey? ==> Printable(keys[1..][k].text(c))
      {
        assert keys[1..][k] == keys[k + 1];
      }
      CompareRowsLaws(keys[1..], a, b, c);
    }
  }

  /** The comparator is lawful, so "sorted" means something. */
  lemma ComparatorIsLawful<R(!new)>(keys: seq<SortKey<R>>, rows: seq<R>)
    requires forall r {:trigger r in rows} :: r in rows ==> Sortable(keys, r)
    ensures TotalPreorder(Comparator(keys), rows)
  {
    forall a, b | a in rows && b in rows
      ensures Comparator(keys)(a, b) < 0 <==> Comparator(keys)(b, a) > 0
    {
      CompareRowsLaws(keys, a, b, b);
    }
    forall a, b, c | a in rows && b in rows && c in rows
                     && Comparator(keys)(a, b) <= 0 && Comparator(keys)(b, c) <= 0
      ensures Comparator(keys)(a, c) <= 0
    {
      CompareRowsLaws(keys, a, b, c);
    }
  }

  /* ---- Which row comes first ---- */

  /** The first text precedes the second when both are folded and padded with spaces. */
  ghost predicate TextBefore(s: Bytes, t: Bytes) {
    exists n: nat {:trigger AgreeBelow(true, SPACE, s, t, n)} ::
      AgreeBelow(true, SPACE, s, t, n) && Padded(true, SPACE, s, n) < Padded(true, SPACE, t, n)
  }

  ghost predicate Tie<R>(key: SortKey<R>, a: R, b: R) {
    match key
    case IntKey(number, _) => number(a) == number(b)
    case TextKey(text, _) =>
      forall i: nat :: Padded(true, SPACE, text(a), i) == Padded(true, SPACE, text(b), i)
  }

  /** The smaller value comes first, or the larger one where the key is descending. */
  ghost predicate Before<R>(key: SortKey<R>, a: R, b: R) {
    match key
    case IntKey(number, descending) => if descending then number(a) > number(b) else number(a) < number(b)
    case TextKey(text, descending) =>
      if descending then TextBefore(text(b), text(a)) else TextBefore(text(a), text(b))
  }

  lemma TextOrder(s: Bytes, t: Bytes)
    requires Printable(s) && Printable(t)
    ensures Keys.Compare(true, s, t) < 0 <==> TextBefore(s, t)
    ensures Keys.Compare(true, s, t) > 0 <==> TextBefore(t, s)
    ensures Keys.Compare(true, s, t) == 0 <==> forall i: nat :: Padded(true, SPACE, s, i) == Padded(true, SPACE, t, i)
  {
    CompareIsOrderOfPad(true, SPACE, s, t);
    PaddedZeroIsEqual(true, SPACE, s, t);
    PaddedIsTotalPreorder(true, SPACE, s, t, s);
    PaddedBefore(s, t);
    PaddedBefore(t, s);
  }

  lemma PaddedBefore(s: Bytes, t: Bytes)
    ensures PaddedCompare(true, SPACE, s, t) < 0 <==> TextBefore(s, t)
  {
    var n := FirstDifference(true, SPACE, s, t, 0);
    if PaddedCompare(true, SPACE, s, t) < 0 {
      assert AgreeBelow(true, SPACE, s, t, n);
    }
    if m: nat :| AgreeBelow(true, SPACE, s, t, m) && Padded(true, SPACE, s, m) < Padded(true, SPACE, t, m) {
      DifferenceDecides(true, SPACE, s, t, m);
    }
  }

  lemma CompareByOrder<R>(key: SortKey<R>, a: R, b: R)
    requires key.TextKey? ==> Printable(key.text(a)) && Printable(key.text(b))
    ensures CompareBy(key, a, b) < 0 <==> Before(key, a, b)
    ensures CompareBy(key, a, b) == 0 <==> Tie(key, a, b)
  {
    if key.TextKey? {
      TextOrder(key.text(a), key.text(b));
    }
  }

  /** Some key puts a before b, and all keys before it leave the question open. */
  ghost predicate ComesBefore<R>(keys: seq<SortKey<R>>, a: R, b: R) {
    exists k {:trigger Before(keys[k], a, b)} :: 0 <= k < |keys| && Before(keys[k], a, b)
      && forall j {:trigger Tie(keys[j], a, b)} :: 0 <= j < k ==> Tie(keys[j], a, b)
  }

  /** What the comparator says: which row comes first, and which rows are equal. */
  lemma {:induction false} CompareRowsOrder<R>(keys: seq<SortKey<R>>, a: R, b: R)
    requires Sortable(keys, a) && Sortable(keys, b)
    ensures CompareRows(keys, a, b) < 0 <==> ComesBefore(keys, a, b)
    ensures CompareRows(keys, a, b) == 0 <==>
            forall k {:trigger Tie(keys[k], a, b)} :: 0 <= k < |keys| ==> Tie(keys[k], a, b)
    decreases |keys|
  {
    if keys != [] {
      var rest := keys[1..];
      assert keys[0].TextKey? ==> Printable(keys[0].text(a)) && Printable(keys[0].text(b));
      CompareByOrder(keys[0], a, b);
      forall k | 0 <= k < |rest| ensures rest[k] == keys[k + 1] {
      }
      CompareRowsOrder(rest, a, b);
      FirstKeyOrder(keys, a, b);
    }
  }

  lemma FirstKeyOrder<R>(keys: seq<SortKey<R>>, a: R, b: R)
    requires keys != []
    ensures ComesBefore(keys, a, b) <==> Before(keys[0], a, b) || (Tie(keys[0], a, b) && ComesBefore(keys[1..], a, b))
  {
    var rest := keys[1..];
    if Before(keys[0], a, b) {
      assert ComesBefore(keys, a, b);
    }
    if Tie(keys[0], a, b) && ComesBefore(rest, a, b) {
      var k :| 0 <= k < |rest| && Before(rest[k], a, b) && forall j :: 0 <= j < k ==> Tie(rest[j], a, b);
      assert Before(keys[k + 1], a, b);
      forall j | 0 <= j < k + 1 ensures Tie(keys[j], a, b) {
        assert j > 0 ==> Tie(rest[j - 1], a, b);
      }
    }
    if ComesBefore(keys, a, b) && !Before(keys[0], a, b) {
      var k :| 0 <= k < |keys| && Before(keys[k], a, b) && forall j :: 0 <= j < k ==> Tie(keys[j], a, b);
      assert Before(rest[k - 1], a, b);
      forall j | 0 <= j < k - 1 ensures Tie(rest[j], a, b) {
        assert Tie(keys[j + 1], a, b);
      }
    }
  }

  /** Sorted by one number the numbers do not decrease, or do not increase where it is descending. */
  lemma SortedNumbers<R>(number: R -> Long, descending: bool, rows: seq<R>)
    ensures Sorted(Comparator([IntKey(number, descending)]), rows) <==>
            forall i, j {:trigger rows[i], rows[j]} :: 0 <= i < j < |rows| ==>
              if descending then number(rows[i]) >= number(rows[j]) else number(rows[i]) <= number(rows[j])
  {
    var key := IntKey(number, descending);
    forall a, b ensures Comparator([key])(a, b) <= 0 <==>
                        if descending then number(a) >= number(b) else number(a) <= number(b)
    {
      assert [key][1..] == [] && CompareRows([key][1..], a, b) == 0;
    }
  }

  /* ---- The store and the comparator over it ---- */

  datatype Entry = Entry(idx: nat, offset: nat, len: nat)

  function Cell<R>(key: SortKey<R>, r: R): Bytes
  {
    match key
    case IntKey(number, _) => StoredLong(number(r))
    case TextKey(text, _) => text(r)
  }

  /** What a row puts into the store: one element for each of the first n sort expressions. */
  function Cells<R>(keys: seq<SortKey<R>>, n: nat, r: R): (c: seq<Bytes>)
    requires n <= |keys|
    ensures |c| == n && forall k {:trigger c[k]} :: 0 <= k < n ==> c[k] == Cell(keys[k], r)
  {
    if n == 0 then [] else Cells(keys, n - 1, r) + [Cell(keys[n - 1], r)]
  }

  /** The row's cells lie in the store from the entry's index on. */
  ghost predicate CellsAt<R>(view: seq<Bytes>, keys: seq<SortKey<R>>, idx: nat, r: R) {
    idx + |keys| <= |view| && view[idx..idx + |keys|] == Cells(keys, |keys|, r)
  }

  class Order<R(!new)> {
    const keys: seq<SortKey<R>>
    const orderData: Flex
    const topCount: nat
    var entries: seq<Entry>
    ghost var rows: map<Entry, R>          // the row of each entry

    constructor (keys: seq<SortKey<R>>, topCount: nat)
      ensures Valid() && entries == [] && this.keys == keys && this.topCount == topCount && fresh(orderData)
    {
      this.keys, this.topCount, entries, rows := keys, topCount, [], map[];
      orderData := new Flex();
    }

    ghost predicate Held(e: Entry)
      requires orderData.Valid()
      reads this, orderData
    {
      e in rows && CellsAt(orderData.View(), keys, e.idx, rows[e])
    }

    ghost predicate Valid()
      reads this, orderData
    {
      && (this as object) != orderData && orderData.Valid()
      && forall i {:trigger entries[i]} :: 0 <= i < |entries| ==> Held(entries[i])
    }

    /** The loop over the sort expressions. */
    method PushCells(row: R)
      requires orderData.Valid()
      modifies orderData
      ensures orderData.Valid()
      ensures orderData.View() == old(orderData.View()) + Cells(keys, |keys|, row)
    {
      for i := 0 to |keys|
        invariant orderData.Valid()
        invariant orderData.View() == old(orderData.View()) + Cells(keys, i, row)
      {
        match keys[i]
        case IntKey(number, _) => orderData.PushBack(StoredLong(number(row)));
        case TextKey(text, _) => orderData.PushBack(text(row));
      }
    }

    /** order_add_record: an entry for the record, wherever its text lies in the temporary file. */
    method AddRecord(row: R, offset: nat, len: nat)
      requires Valid()
      modifies this, orderData
      ensures Valid()
      ensures var e := Entry(|old(orderData.View())|, offset, len);
              entries == old(entries) + [e] && rows == old(rows)[e := row] && (keys != [] ==> e !in old(entries))
    {
      var entry := Entry(|orderData.pairs|, offset, len);
      ghost var view, before := orderData.View(), rows;
      forall i | 0 <= i < |entries| ensures entries[i] == entry ==> keys == [] {
        assert Held(entries[i]);
      }
      PushCells(row);
      rows := rows[entry := row];
      entries := entries + [entry];
      forall i | 0 <= i < |entries| ensures Held(entries[i]) {
        if i < |entries| - 1 {
          assert old(Held(entries[i]));
          CellsStay(view, orderData.View(), entries[i].idx, before[entries[i]]);
        }
      }
    }

    lemma CellsStay(view: seq<Bytes>, more: seq<Bytes>, idx: nat, row: R)
      requires CellsAt(view, keys, idx, row) && view <= more
      ensures CellsAt(more, keys, idx, row)
    {
      assert more[idx..idx + |keys|] == view[idx..idx + |keys|];
    }

    method ReadCell(i: nat, idx: nat, ghost e: Entry) returns (cell: Bytes)
      requires Valid() && Held(e) && i < |keys| && idx == e.idx + i
      ensures cell == Cell(keys[i], rows[e])
    {
      CellIs(e, i);
      cell := orderData.PairAt(idx);
    }

    /** One round of the comparison: the cells of the i-th sort expression. */
    method CompareCells(i: nat, idx0: nat, idx1: nat, ghost e0: Entry, ghost e1: Entry) returns (ret: int)
      requires Valid() && Held(e0) && Held(e1) && i < |keys| && idx0 == e0.idx + i && idx1 == e1.idx + i
      ensures ret == CompareBy(keys[i], rows[e0], rows[e1])
    {
      var cell0 := ReadCell(i, idx0, e0);
      var cell1 := ReadCell(i, idx1, e1);
      match keys[i] {
        case IntKey(number, _) =>
          LongRoundTrip(number(rows[e0]));
          LongRoundTrip(number(rows[e1]));
          ret := CompareNumbers(LoadedLong(cell0), LoadedLong(cell1));
        case TextKey(_, _) =>
          ret := CompareRtrim(true, cell0, cell1);
      }
      if keys[i].descending {
        ret := ret * -1;
      }
    }

    /** _compare: reads both entries' cells from the store. */
    method Compare(e0: Entry, e1: Entry) returns (ret: int)
      requires Valid() && Held(e0) && Held(e1)
      ensures ret == CompareRows(keys, rows[e0], rows[e1])
    {
      var idx0, idx1 := e0.idx, e1.idx;
      ghost var a, b := rows[e0], rows[e1];
      ret := 0;
      var i := 0;
      while ret == 0 && i < |keys|
        invariant i <= |keys| && idx0 == e0.idx + i && idx1 == e1.idx + i
        invariant CompareRows(keys, a, b) == if ret != 0 then ret else CompareRows(keys[i..], a, b)
        decreases |keys| - i
      {
        assert keys[i..][0] == keys[i] && keys[i..][1..] == keys[i + 1..];
        ret := CompareCells(i, idx0, idx1, e0, e1);
        idx0, idx1, i := idx0 + 1, idx1 + 1, i + 1;
      }
    }

    lemma CellIs(e: Entry, k: nat)
      requires Valid() && Held(e) && k < |keys|
      ensures e.idx + k < |orderData.View()|
      ensures orderData.View()[e.idx + k] == Cell(keys[k], rows[e])
    {
      assert orderData.View()[e.idx..e.idx + |keys|][k] == orderData.View()[e.idx + k];
    }

    /** _order_select: the first entries of the sorted vector, up to TOP. */
    method Select(rowsAffected: nat) returns (written: seq<Entry>)
      requires rowsAffected <= topCount
      ensures var n := topCount - rowsAffected;
              written == entries[..if |entries| <= n then |entries| else n]
    {
      var i, affected := 0, rowsAffected;
      written := [];
      while i < |entries| && affected < topCount
        invariant i <= |entries| && affected == rowsAffected + i <= topCount && written == entries[..i]
      {
        written := written + [entries[i]];
        affected := affected + 1;
        i := i + 1;
      }
    }
  }

  /**
   TOP is well defined: whatever order the sort leaves equal rows in, the rows written are the
   same place by place up to rows that compare equal, and no row left out precedes one written.
   */
  lemma TopIsWellDefined<R(!new)>(keys: seq<SortKey<R>>, a: seq<R>, b: seq<R>, top: nat, i: nat, j: nat)
    requires multiset(a) == multiset(b) && Sorted(Comparator(keys), a) && Sorted(Comparator(keys), b)
    requires forall r {:trigger r in a} :: r in a ==> Sortable(keys, r)
    requires i < top <= j < |a|
    ensures |b| == |a| && CompareRows(keys, a[i], b[i]) == 0
    ensures CompareRows(keys, a[i], b[j]) <= 0
  {
    ComparatorIsLawful(keys, a);
    SortedIsUnique(Comparator(keys), a, b, i);
    assert a[i] in a && multiset(a)[a[i]] > 0;
    assert b[i] in multiset(b) && b[j] in multiset(b);
    assert b[i] in a && b[j] in a;
    CompareRowsLaws(keys, a[i], b[i], b[j]);
    assert Comparator(keys)(b[i], b[j]) <= 0;
  }
}
