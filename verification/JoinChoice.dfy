/**
 From a join condition to its hash join: the plan that _resolve_join_conditions makes, run as a
 query, emits the rows of the product on which the condition as it was written holds.
 */
module JoinChoice {
  import opened Assoc
  import opened JoinLogic
  import opened JoinPlan
  import opened JoinRows
  import opened JoinSides
  import opened Keys
  import opened PlanStages
  import opened UpdateMerge

  /**
   A join condition: its tree, the value of each of its conditions on a pair of rows, how an equality
   compares its operands, and what an expression yields on a pair of rows and on a row of either input.
   */
  datatype Condition<!L(!new), !R(!new)> = Condition(
    group: LogicGroup,
    holds: (nat, L, R) -> bool,
    kindOf: nat -> KeyKind,
    value: (Expr, L, R) -> Bytes,
    leftValue: (Expr, L) -> Bytes,
    rightValue: (Expr, R) -> Bytes,
    right: int
  ) {
    /** The condition of the equality compares its two operands. */
    ghost predicate IsOf(eq: Equality) {
      forall l, r {:trigger holds(eq.condition, l, r)} ::
        holds(eq.condition, l, r) <==>
        KeysEqual(kindOf(eq.condition), value(eq.expr0, l, r), value(eq.expr1, l, r))
    }

    /** An expression that does not read an input can be evaluated without it. */
    ghost predicate EvaluatesApart() {
      && (forall e, l, r {:trigger value(e, l, r)} :: !ReadsRight(Sources(e), right) ==> value(e, l, r) == leftValue(e, l))
      && (forall e, l, r {:trigger value(e, l, r)} :: !ReadsLeft(Sources(e), right) ==> value(e, l, r) == rightValue(e, r))
    }

    /** The hash join that the plan sets up, and the filter behind it. */
    function Planned(plan: HashJoinPlan, mix: (nat, Byte) -> nat): Query<L, R>
    {
      Query(group, plan.condition, kindOf(plan.condition), l => leftValue(plan.leftExpr, l),
            r => rightValue(plan.rightExpr, r), holds, mix)
    }

    function Satisfied(row: Row<L, R>): bool
    {
      row.right.None? || Eval(group, (c: nat) => holds(c, row.left, row.right.value), None)
    }

    /** With separate keys the planned predicate is the condition it was made from. */
    lemma PlannedIsCondition(plan: HashJoinPlan, eq: Equality, mix: (nat, Byte) -> nat, c: nat, l: L, r: R)
      requires IsOf(eq) && EvaluatesApart() && IsPlanOf(plan, eq) && KeysAreSeparate(plan, right)
      ensures Planned(plan, mix).Holds(c, l, r) == holds(c, l, r)
    {
      if c == plan.condition {
        assert value(plan.leftExpr, l, r) == leftValue(plan.leftExpr, l);
        assert value(plan.rightExpr, l, r) == rightValue(plan.rightExpr, r);
        EqualityIsSymmetric(kindOf(c), leftValue(plan.leftExpr, l), rightValue(plan.rightExpr, r));
      }
    }

    lemma FilterIsCondition(plan: HashJoinPlan, eq: Equality, mix: (nat, Byte) -> nat, row: Row<L, R>)
      requires IsOf(eq) && EvaluatesApart() && IsPlanOf(plan, eq) && KeysAreSeparate(plan, right)
      ensures Planned(plan, mix).Passes(row, None) == Satisfied(row)
    {
      if row.right.Some? {
        var l, r := row.left, row.right.value;
        forall c: nat ensures Planned(plan, mix).Values(l, r)(c) == holds(c, l, r) {
          PlannedIsCondition(plan, eq, mix, c, l, r);
        }
        SameValues(group, Planned(plan, mix).Values(l, r), (c: nat) => holds(c, l, r));
      }
    }

    /**
     The rows that the planned hash join and the filter behind it pass on are those of the product that
     satisfy the condition: the predicate that the filter skips is the one the keys stand for.
     */
    lemma ChosenPlanIsTheJoin(plan: HashJoinPlan, eq: Equality, mix: (nat, Byte) -> nat, lefts: seq<L>,
                              rights: seq<R>)
      requires IsOf(eq) && EvaluatesApart() && IsPlanOf(plan, eq) && KeysAreSeparate(plan, right)
      requires !CanBeFalse(group, eq.condition) && eq.condition !in Negated(group)
      requires Planned(plan, mix).AllAgree(lefts, rights)
      ensures Planned(plan, mix).HashPlan(lefts, rights) ==
              Where(JoinOf(lefts, _ => rights, false), row => Satisfied(row), true)
    {
      var q, rows := Planned(plan, mix), JoinOf(lefts, _ => rights, false);
      q.HashPlanIsBruteForce(lefts, rights);
      KeptIsWhere(q, rows, None);
      forall row ensures q.Filter(None)(row) == Satisfied(row) {
        FilterIsCondition(plan, eq, mix, row);
      }
      SameRows(rows, q.Filter(None), row => Satisfied(row));
    }
  }

  lemma EqualityIsSymmetric(kind: KeyKind, a: Bytes, b: Bytes)
    ensures KeysEqual(kind, a, b) == KeysEqual(kind, b, a)
  {
    CompareZero(true, a, b);
    CompareZero(true, b, a);
    assert |Shorter(a, b)| == |Shorter(b, a)| && (|a| != |b| ==> Longer(a, b) == Longer(b, a));
    var m := |Shorter(a, b)|;
    assert FoldAll(true, a)[..m] == FoldAll(true, b)[..m] <==> FoldAll(true, b)[..m] == FoldAll(true, a)[..m];
  }

  lemma {:induction false} SameValues(g: LogicGroup, a: Valuation, b: Valuation)
    requires forall c: nat :: a(c) == b(c)
    ensures Eval(g, a, None) == Eval(g, b, None)
  {
    if !g.Predicate? {
      SameValues(g.left, a, b);
      SameValues(g.right, a, b);
    }
  }

  lemma {:induction false} SameRows<T>(rows: seq<T>, a: T -> bool, b: T -> bool)
    requires forall row :: a(row) == b(row)
    ensures Where(rows, a, true) == Where(rows, b, true)
  {
    if rows != [] {
      SameRows(rows[..|rows| - 1], a, b);
    }
  }

  /**
   A condition that forces an equality of a left and a right operand gets a hash join, and if such
   equalities are all it lists the join is the one of the condition.
   */
  method PlanJoin<L(!new), R(!new)>(j: Condition<L, R>, joinable: seq<Equality>) returns (plan: Option<HashJoinPlan>, ghost eq: Equality)
    requires j.EvaluatesApart() && forall eq :: eq in joinable ==> j.IsOf(eq) && IsSeparate(eq, j.right)
    ensures plan.None? <==> forall eq :: eq in joinable ==> CanBeFalse(j.group, eq.condition)
    ensures plan.Some? ==>
              && eq in joinable && IsPlanOf(plan.value, eq) && KeysAreSeparate(plan.value, j.right)
              && !CanBeFalse(j.group, plan.value.condition)
              && forall lefts: seq<L>, rights: seq<R>, mix: (nat, Byte) -> nat
                   {:trigger j.Planned(plan.value, mix).HashPlan(lefts, rights)} ::
                   eq.condition !in Negated(j.group) && j.Planned(plan.value, mix).AllAgree(lefts, rights) ==>
                   j.Planned(plan.value, mix).HashPlan(lefts, rights) ==
                   Where(JoinOf(lefts, _ => rights, false), row => j.Satisfied(row), true)
  {
    plan := ResolveJoinConditions(j.group, joinable, j.right);
    if plan.Some? {
      eq :| eq in joinable && IsPlanOf(plan.value, eq) && !CanBeFalse(j.group, eq.condition)
            && PutsSeparateKeysRight(plan.value, eq, j.right);
      forall lefts: seq<L>, rights: seq<R>, mix: (nat, Byte) -> nat
        | eq.condition !in Negated(j.group) && j.Planned(plan.value, mix).AllAgree(lefts, rights)
        ensures j.Planned(plan.value, mix).HashPlan(lefts, rights) ==
                Where(JoinOf(lefts, _ => rights, false), row => j.Satisfied(row), true)
      {
        j.ChosenPlanIsTheJoin(plan.value, eq, mix, lefts, rights);
      }
    } else {
      eq := *;
    }
  }
}
