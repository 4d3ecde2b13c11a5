/**
 The hash-join plan against the brute-force plan: the planner replaces a product filtered by the
 whole condition with a hash join filtered by the condition without its join predicate
 (lib/schema.c, lib/fqlprocesses.c).
 */
module JoinPlan {
  import opened Assoc
  import CartesianJoin
  import opened Common
  import opened HashJoin
  import opened HashTable
  import opened JoinLogic
  import opened JoinRows
  import opened Keys

  /** How the two keys of the join predicate are compared; floating point is left out. */
  datatype KeyKind = IntKey | StringKey

  /** fql_logic_eq_i on the bytes of two longs, or fql_logic_eq_s. */
  predicate KeysEqual(kind: KeyKind, a: Bytes, b: Bytes)
  {
    match kind
    case IntKey => a == b
    case StringKey => Compare(true, a, b) == 0
  }

  /** Keys on which the multimap and the comparison agree. */
  predicate Usable(kind: KeyKind, key: Bytes)
  {
    kind == StringKey ==> ProperKey(key)
  }

  /** table_hash_join_init: string keys fold case and trim, the others are raw bytes. */
  function TableProps(kind: KeyKind, mix: (nat, Byte) -> nat): Props
  {
    Props(kind == StringKey, kind == StringKey, mix)
  }

  /**
   A join condition with the predicate chosen for the hash join. The value of every condition on
   a pair of rows is given; that of the chosen one is the equality of the two keys.
   */
  datatype Query<!L, !R> = Query(
    group: LogicGroup,
    chosen: nat,
    kind: KeyKind,
    leftKey: L -> Bytes,
    rightKey: R -> Bytes,
    others: (nat, L, R) -> bool,
    mix: (nat, Byte) -> nat
  ) {
    predicate Holds(c: nat, l: L, r: R)
    {
      if c == chosen then KeysEqual(kind, leftKey(l), rightKey(r)) else others(c, l, r)
    }

    /** The values of all conditions on a pair of rows. */
    function Values(l: L, r: R): Valuation
    {
      (c: nat) => Holds(c, l, r)
    }

    /** The logic process on one row. */
    predicate Passes(row: Row<L, R>, skip: Option<nat>)
    {
      match row.right
      case None => true
      case Some(r) => Eval(group, Values(row.left, r), skip)
    }

    /** That process as the predicate of a router. */
    function Filter(skip: Option<nat>): Row<L, R> -> bool
    {
      (row: Row<L, R>) => Passes(row, skip)
    }

    function Kept(rows: seq<Row<L, R>>, skip: Option<nat>): seq<Row<L, R>>
    {
      if rows == [] then []
      else (if Passes(rows[0], skip) then [rows[0]] else []) + Kept(rows[1..], skip)
    }

    function Props(): Props
    {
      TableProps(kind, mix)
    }

    ghost function BrutePlan(lefts: seq<L>, rights: seq<R>): seq<Row<L, R>>
    {
      Kept(JoinOf(lefts, _ => rights, false), None)
    }

    /** The multimap the right side fills. */
    ghost function Lookup(rights: seq<R>): L -> seq<R>
    {
      Matcher(Filled(Assoc([], []), rights, Props(), rightKey), Props(), leftKey)
    }

    ghost function HashJoinRows(lefts: seq<L>, rights: seq<R>, outer: bool): seq<Row<L, R>>
    {
      JoinOf(lefts, Lookup(rights), outer)
    }

    ghost function HashPlan(lefts: seq<L>, rights: seq<R>): seq<Row<L, R>>
    {
      Kept(HashJoinRows(lefts, rights, false), Some(chosen))
    }

    /** The right rows whose key equals the left group's, in table order. */
    function EqualTo(l: L, rights: seq<R>): seq<R>
    {
      if rights == [] then []
      else
        var last := rights[|rights| - 1];
        EqualTo(l, rights[..|rights| - 1])
        + if KeysEqual(kind, leftKey(l), rightKey(last)) then [last] else []
    }

    ghost predicate UsableRows(lefts: seq<L>, rights: seq<R>) {
      && (forall i :: 0 <= i < |lefts| ==> Usable(kind, leftKey(lefts[i])))
      && (forall i :: 0 <= i < |rights| ==> Usable(kind, rightKey(rights[i])))
    }

    /** The multimap puts the right row with the left group exactly when the predicate holds. */
    ghost predicate Agree(l: L, r: R) {
      Props().Form(leftKey(l)) == Props().Form(rightKey(r)) <==> KeysEqual(kind, leftKey(l), rightKey(r))
    }

    ghost predicate AllAgree(lefts: seq<L>, rights: seq<R>) {
      forall i, j {:trigger Agree(lefts[i], rights[j])} :: 0 <= i < |lefts| && 0 <= j < |rights| ==>
        Agree(lefts[i], rights[j])
    }

    /** Usable keys agree. */
    lemma UsableRowsAgree(lefts: seq<L>, rights: seq<R>)
      requires UsableRows(lefts, rights)
      ensures AllAgree(lefts, rights)
    {
      forall i, j | 0 <= i < |lefts| && 0 <= j < |rights| ensures Agree(lefts[i], rights[j]) {
        StoredAlikeIsEqual(leftKey(lefts[i]), rightKey(rights[j]));
      }
    }

    /** Keys are stored alike exactly when the predicate finds them equal. */
    lemma StoredAlikeIsEqual(a: Bytes, b: Bytes)
      requires Usable(kind, a) && Usable(kind, b)
      ensures Props().Form(a) == Props().Form(b) <==> KeysEqual(kind, a, b)
    {
      match kind
      case IntKey =>
        assert FoldAll(false, a) == a && FoldAll(false, b) == b;
      case StringKey =>
        HashAgreesWithCompare(true, a, b);
    }

    /** The multimap returns exactly the right rows with an equal key, in table order. */
    lemma MatchesAreEqualRows(l: L, rights: seq<R>)
      requires AllAgree([l], rights)
      ensures Lookup(rights)(l) == EqualTo(l, rights)
    {
      var k := Props().Form(leftKey(l));
      EveryRunOfAppends(Keyed(rights, Props(), rightKey), k);
      forall j | 0 <= j < |rights| ensures Agree(l, rights[j]) {
        assert Agree([l][0], rights[j]);
      }
      UnderIsEqualTo(l, rights);
    }

    lemma {:induction false} UnderIsEqualTo(l: L, rights: seq<R>)
      requires forall j {:trigger rights[j]} :: 0 <= j < |rights| ==> Agree(l, rights[j])
      ensures Under(Keyed(rights, Props(), rightKey), Props().Form(leftKey(l))) == EqualTo(l, rights)
      decreases |rights|
    {
      if rights != [] {
        var n := |rights| - 1;
        UnderIsEqualTo(l, rights[..n]);
        assert Agree(l, rights[n]);
        var puts := Keyed(rights, Props(), rightKey);
        assert puts[..|puts| - 1] == Keyed(rights[..n], Props(), rightKey);
      }
    }

    lemma {:induction false} KeptOfBoth(a: seq<Row<L, R>>, b: seq<Row<L, R>>, skip: Option<nat>)
      ensures Kept(a + b, skip) == Kept(a, skip) + Kept(b, skip)
      decreases |a|
    {
      if a == [] {
        assert a + b == b;
      } else {
        assert (a + b)[1..] == a[1..] + b;
        KeptOfBoth(a[1..], b, skip);
        Associate(if Passes(a[0], skip) then [a[0]] else [], Kept(a[1..], skip), Kept(b, skip));
      }
    }

    lemma {:induction false} PairsMore(l: L, rs: seq<R>, r: R)
      ensures Pairs(l, rs + [r]) == Pairs(l, rs) + [Row(l, Some(r))]
      decreases |rs|
    {
      if rs == [] {
        assert [] + [r] == [r] && [r][1..] == [];
      } else {
        assert (rs + [r])[1..] == rs[1..] + [r];
        PairsMore(l, rs[1..], r);
      }
    }

    /** For one left group: filtering the matches is filtering the whole table. */
    lemma {:induction false} OneGroupAgrees(l: L, rights: seq<R>)
      requires !CanBeFalse(group, chosen) && chosen !in Negated(group)
      ensures Kept(Pairs(l, EqualTo(l, rights)), Some(chosen)) == Kept(Pairs(l, rights), None)
      decreases |rights|
    {
      if rights != [] {
        var n := |rights| - 1;
        var r, row := rights[n], Row(l, Some(rights[n]));
        OneGroupAgrees(l, rights[..n]);
        assert rights == rights[..n] + [r];
        PairsMore(l, rights[..n], r);
        KeptOfBoth(Pairs(l, rights[..n]), [row], None);
        ExtractionIsSound(group, chosen, Values(l, r));
        assert [row][1..] == [];
        if KeysEqual(kind, leftKey(l), rightKey(r)) {
          PairsMore(l, EqualTo(l, rights[..n]), r);
          KeptOfBoth(Pairs(l, EqualTo(l, rights[..n])), [row], Some(chosen));
        } else {
          assert EqualTo(l, rights) == EqualTo(l, rights[..n]);
        }
      }
    }

    /**
     The hash-join plan is the brute-force plan: for every left and right input whose keys are
     stored alike exactly when they are equal and every condition from which the chosen predicate
     may be extracted, the two emit the same rows in the same order.
     */
    lemma {:induction false} HashPlanIsBruteForce(lefts: seq<L>, rights: seq<R>)
      requires !CanBeFalse(group, chosen) && chosen !in Negated(group)
      requires AllAgree(lefts, rights)
      ensures HashPlan(lefts, rights) == BrutePlan(lefts, rights)
      decreases |lefts|
    {
      if lefts != [] {
        var l := lefts[0];
        FirstAndRestAgree(lefts, rights);
        HashPlanIsBruteForce(lefts[1..], rights);
        MatchesAreEqualRows(l, rights);
        OneGroupAgrees(l, rights);
        KeptOfBoth(Pairs(l, EqualTo(l, rights)), HashJoinRows(lefts[1..], rights, false), Some(chosen));
        KeptOfBoth(Pairs(l, rights), JoinOf(lefts[1..], _ => rights, false), None);
      }
    }

    lemma FirstAndRestAgree(lefts: seq<L>, rights: seq<R>)
      requires AllAgree(lefts, rights) && lefts != []
      ensures AllAgree([lefts[0]], rights) && AllAgree(lefts[1..], rights)
    {
      forall i, j | 0 <= i < 1 && 0 <= j < |rights| ensures Agree([lefts[0]][i], rights[j]) {
        assert Agree(lefts[0], rights[j]);
      }
      forall i, j | 0 <= i < |lefts[1..]| && 0 <= j < |rights| ensures Agree(lefts[1..][i], rights[j]) {
        assert Agree(lefts[i + 1], rights[j]);
      }
    }

    /**
     With the join predicate as the whole condition this is exact: the plans emit the same rows
     if and only if every left and right key are stored alike exactly when they are equal.
     */
    lemma SinglePredicatePlans(lefts: seq<L>, rights: seq<R>)
      requires group == Predicate(chosen, false)
      ensures HashPlan(lefts, rights) == BrutePlan(lefts, rights) <==> AllAgree(lefts, rights)
    {
      if AllAgree(lefts, rights) {
        HashPlanIsBruteForce(lefts, rights);
      }
      if HashPlan(lefts, rights) == BrutePlan(lefts, rights) {
        forall i, j | 0 <= i < |lefts| && 0 <= j < |rights| ensures Agree(lefts[i], rights[j]) {
          InHashPlan(lefts, rights, lefts[i], rights[j]);
          InBrutePlan(lefts, rights, lefts[i], rights[j]);
        }
      }
    }

    lemma InHashPlan(lefts: seq<L>, rights: seq<R>, l: L, r: R)
      requires group == Predicate(chosen, false) && l in lefts && r in rights
      ensures Row(l, Some(r)) in HashPlan(lefts, rights) <==>
              Props().Form(leftKey(l)) == Props().Form(rightKey(r))
    {
      IsKept(HashJoinRows(lefts, rights, false), Some(chosen), Row(l, Some(r)));
      IsJoined(lefts, Lookup(rights), l, r);
      EveryRunOfAppends(Keyed(rights, Props(), rightKey), Props().Form(leftKey(l)));
      IsUnder(rights, Props().Form(leftKey(l)), r);
    }

    lemma InBrutePlan(lefts: seq<L>, rights: seq<R>, l: L, r: R)
      requires group == Predicate(chosen, false) && l in lefts && r in rights
      ensures Row(l, Some(r)) in BrutePlan(lefts, rights) <==> KeysEqual(kind, leftKey(l), rightKey(r))
    {
      IsKept(JoinOf(lefts, _ => rights, false), None, Row(l, Some(r)));
      IsJoined(lefts, _ => rights, l, r);
    }

    lemma {:induction false} IsKept(rows: seq<Row<L, R>>, skip: Option<nat>, row: Row<L, R>)
      ensures row in Kept(rows, skip) <==> row in rows && Passes(row, skip)
    {
      if rows != [] {
        assert rows == [rows[0]] + rows[1..];
        IsKept(rows[1..], skip, row);
      }
    }

    lemma {:induction false} IsPaired(l: L, rs: seq<R>, l': L, r: R)
      ensures Row(l', Some(r)) in Pairs(l, rs) <==> l == l' && r in rs
    {
      if rs != [] {
        assert rs == [rs[0]] + rs[1..];
        IsPaired(l, rs[1..], l', r);
      }
    }

    lemma {:induction false} IsJoined(lefts: seq<L>, of: L -> seq<R>, l: L, r: R)
      ensures Row(l, Some(r)) in JoinOf(lefts, of, false) <==> l in lefts && r in of(l)
    {
      if lefts != [] {
        assert lefts == [lefts[0]] + lefts[1..];
        IsPaired(lefts[0], of(lefts[0]), l, r);
        IsJoined(lefts[1..], of, l, r);
      }
    }

    lemma {:induction false} IsUnder(rights: seq<R>, k: Bytes, r: R)
      ensures r in Under(Keyed(rights, Props(), rightKey), k) <==> r in rights && Props().Form(rightKey(r)) == k
      decreases |rights|
    {
      if rights != [] {
        var n := |rights| - 1;
        assert rights == rights[..n] + [rights[n]];
        var puts := Keyed(rights, Props(), rightKey);
        assert puts[..|puts| - 1] == Keyed(rights[..n], Props(), rightKey);
        IsUnder(rights[..n], k, r);
      }
    }

    /**
     The same for runs of the joins' steps: however the arrivals and the calls interleave in either
     plan, once both have worked off the same left groups the rows that pass are the same.
     */
    lemma DrainedPlansAgree(hashed: seq<Event<L>>, brute: seq<CartesianJoin.Event<L>>, rights: seq<R>)
      requires !CanBeFalse(group, chosen) && chosen !in Negated(group)
      requires AllAgree(Delivered(hashed), rights) && Delivered(hashed) == CartesianJoin.Delivered(brute)
      requires Run(JoinState([], [], [], []), hashed, Lookup(rights), false).queue == []
      requires CartesianJoin.Run(brute, rights).queue == []
      ensures Kept(Run(JoinState([], [], [], []), hashed, Lookup(rights), false).sentTrue, Some(chosen))
           == Kept(CartesianJoin.Run(brute, rights).sent, None)
    {
      DrainedRunIsTheJoin(hashed, Lookup(rights), false);
      CartesianJoin.EveryRunIsTheProduct(brute, rights);
      var sent := CartesianJoin.Run(brute, rights).sent;
      assert sent + [] == sent;
      HashPlanIsBruteForce(Delivered(hashed), rights);
    }

    /** LEFT JOIN on the one equality: each left group with its equal right rows, or alone. */
    lemma {:induction false} LeftJoinRows(lefts: seq<L>, rights: seq<R>)
      requires AllAgree(lefts, rights)
      ensures HashJoinRows(lefts, rights, true) == JoinOf(lefts, l => EqualTo(l, rights), true)
      decreases |lefts|
    {
      if lefts != [] {
        FirstAndRestAgree(lefts, rights);
        LeftJoinRows(lefts[1..], rights);
        MatchesAreEqualRows(lefts[0], rights);
      }
    }
  }

  /** NOT (T1.a = T2.b) on tables whose one row has the one-byte key 1. */
  function NegatedEquality(mix: (nat, Byte) -> nat): Query<(), ()>
  {
    Query(Predicate(0, true), 0, IntKey, (_: ()) => [1], (_: ()) => [1], (c, l, r) => true, mix)
  }

  /** A negated predicate is chosen all the same, and then the plans differ on equal rows. */
  lemma NegatedPredicateBreaksThePlan(mix: (nat, Byte) -> nat)
    ensures var q := NegatedEquality(mix);
            && !CanBeFalse(q.group, q.chosen) && q.UsableRows([()], [()])
            && q.BrutePlan([()], [()]) == []
            && q.HashPlan([()], [()]) == [Row((), Some(()))]
  {
    var q := NegatedEquality(mix);
    var row: Row<(), ()> := Row((), Some(()));
    assert q.EqualTo((), [()]) == [()];
    q.UsableRowsAgree([()], [()]);
    q.MatchesAreEqualRows((), [()]);
    assert [row][1..] == [];
    assert !q.Passes(row, None) && q.Passes(row, Some(0));
    KeptOne(q, row, None);
    KeptOne(q, row, Some(0));
    OneRow(q.Lookup([()]));
    assert q.HashJoinRows([()], [()], false) == [row];
    OneRow((_: ()) => [()]);
    ConstantLookup([()], [()], (_: ()) => [()]);
  }

  lemma KeptOne<L, R>(q: Query<L, R>, row: Row<L, R>, skip: Option<nat>)
    ensures q.Kept([row], skip) == if q.Passes(row, skip) then [row] else []
  {
    assert [row][1..] == [] && [row][0] == row;
    assert q.Kept([row][1..], skip) == [];
  }

  /** Lookups that agree everywhere give the same join. */
  lemma {:induction false} ConstantLookup<L, R>(lefts: seq<L>, rights: seq<R>, of: L -> seq<R>)
    requires forall i :: 0 <= i < |lefts| ==> of(lefts[i]) == rights
    ensures JoinOf(lefts, of, false) == JoinOf(lefts, _ => rights, false)
    decreases |lefts|
  {
    if lefts != [] {
      ConstantLookup(lefts[1..], rights, of);
    }
  }

  lemma OneRow(of: (()) -> seq<()>)
    requires of(()) == [()]
    ensures JoinOf([()], of, false) == [Row((), Some(()))]
  {
    assert [()][1..] == [];
    assert Pairs((), [()]) == [Row((), Some(()))] + Pairs((), []);
  }
}
