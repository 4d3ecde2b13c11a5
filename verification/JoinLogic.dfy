/**
 Condition trees and the choice of a hash-join predicate (lib/logic.c, lib/schema.c).

 A condition is named by a number, as the source names it by its address. Its value on a row is
 an uninterpreted truth value; errors and NULL operands are not modelled.
 */
module JoinLogic {
  import opened Assoc

  datatype LogicGroup =
    | And(left: LogicGroup, right: LogicGroup)
    | Or(left: LogicGroup, right: LogicGroup)
    | Predicate(condition: nat, negation: bool)

  type Valuation = nat -> bool

  /** logicgroup_eval; a skipped condition counts as true, negated or not. */
  function Eval(g: LogicGroup, holds: Valuation, skip: Option<nat>): (value: bool)
    ensures g.And? ==> (value <==> Eval(g.left, holds, skip) && Eval(g.right, holds, skip))
    ensures g.Or? ==> (value <==> Eval(g.left, holds, skip) || Eval(g.right, holds, skip))
    ensures g.Predicate? && skip != Some(g.condition) ==> (value <==> holds(g.condition) != g.negation)
  {
    match g
    case Predicate(c, negation) =>
      if skip == Some(c) then true
      else if negation then !holds(c) else holds(c)
    case And(a, b) => if !Eval(a, holds, skip) then false else Eval(b, holds, skip)
    case Or(a, b) => if Eval(a, holds, skip) then true else Eval(b, holds, skip)
  }

  /** logic_can_be_false: everything is assumed true except the checked condition. */
  function CanBeFalse(g: LogicGroup, check: nat): bool
  {
    match g
    case Predicate(c, _) => c != check
    case And(a, b) => if !CanBeFalse(a, check) then false else CanBeFalse(b, check)
    case Or(a, b) => if CanBeFalse(a, check) then true else CanBeFalse(b, check)
  }

  /** logicgroup_get_condition_count. */
  function ConditionCount(g: LogicGroup): nat
  {
    match g
    case Predicate(_, _) => 1
    case And(a, b) => ConditionCount(a) + ConditionCount(b)
    case Or(a, b) => ConditionCount(a) + ConditionCount(b)
  }

  function Conditions(g: LogicGroup): set<nat>
  {
    match g
    case Predicate(c, _) => {c}
    case And(a, b) => Conditions(a) + Conditions(b)
    case Or(a, b) => Conditions(a) + Conditions(b)
  }

  /** The conditions that occur under a negated leaf. */
  function Negated(g: LogicGroup): set<nat>
  {
    match g
    case Predicate(c, negation) => if negation then {c} else {}
    case And(a, b) => Negated(a) + Negated(b)
    case Or(a, b) => Negated(a) + Negated(b)
  }

  /** Every leaf owns its condition, as the tree builder allocates them. */
  predicate OwnsLeaves(g: LogicGroup)
  {
    match g
    case Predicate(_, _) => true
    case And(a, b) => OwnsLeaves(a) && OwnsLeaves(b) && Conditions(a) !! Conditions(b)
    case Or(a, b) => OwnsLeaves(a) && OwnsLeaves(b) && Conditions(a) !! Conditions(b)
  }

  /** What the leaf of a condition evaluates to. */
  function LeafValue(g: LogicGroup, c: nat, holds: Valuation): bool
  {
    holds(c) != (c in Negated(g))
  }

  lemma NegatedAreConditions(g: LogicGroup)
    ensures Negated(g) <= Conditions(g)
  {
    if !g.Predicate? {
      NegatedAreConditions(g.left);
      NegatedAreConditions(g.right);
    }
  }

  /**
   Extraction is sound: a condition that cannot be false and is not negated can be taken out of
   the tree and tested first.
   */
  lemma {:induction false} ExtractionIsSound(g: LogicGroup, check: nat, holds: Valuation)
    requires !CanBeFalse(g, check) && check !in Negated(g)
    ensures Eval(g, holds, None) <==> holds(check) && Eval(g, holds, Some(check))
  {
    if holds(check) {
      SkippingTrue(g, check, holds);
    }
    ForcedTrue(g, check, holds);
  }

  /** Skipping a condition that is true and un-negated changes nothing. */
  lemma SkippingTrue(g: LogicGroup, check: nat, holds: Valuation)
    requires holds(check) && check !in Negated(g)
    ensures Eval(g, holds, None) == Eval(g, holds, Some(check))
  {
    if !g.Predicate? {
      SkippingTrue(g.left, check, holds);
      SkippingTrue(g.right, check, holds);
    }
  }

  lemma ForcedTrue(g: LogicGroup, check: nat, holds: Valuation)
    requires !CanBeFalse(g, check) && check !in Negated(g)
    ensures Eval(g, holds, None) ==> holds(check)
  {
    if !g.Predicate? {
      if !CanBeFalse(g.left, check) { ForcedTrue(g.left, check, holds); }
      if !CanBeFalse(g.right, check) { ForcedTrue(g.right, check, holds); }
    }
  }

  /** The valuation under which every leaf is true, except the leaf of c when c is given. */
  function AllTrueBut(g: LogicGroup, c: Option<nat>): Valuation
  {
    (k: nat) => (k !in Negated(g)) != (c == Some(k))
  }

  /** On trees that own their leaves the test is exact, whether or not the leaf is negated. */
  lemma CanBeFalseIsExact(g: LogicGroup, check: nat)
    requires OwnsLeaves(g)
    ensures !CanBeFalse(g, check) <==>
            check in Conditions(g)
            && forall holds: Valuation :: Eval(g, holds, None) ==> LeafValue(g, check, holds)
  {
    if !CanBeFalse(g, check) {
      ForcedLeaf(g, check);
    } else if check in Conditions(g) {
      var holds := AllTrueBut(g, Some(check));
      EvalAllTrueBut(g, g, check, holds);
      assert Eval(g, holds, None) && !LeafValue(g, check, holds);
    }
  }

  lemma {:induction false} ForcedLeaf(g: LogicGroup, check: nat)
    requires OwnsLeaves(g) && !CanBeFalse(g, check)
    ensures check in Conditions(g)
    ensures forall holds: Valuation :: Eval(g, holds, None) ==> LeafValue(g, check, holds)
  {
    if !g.Predicate? {
      NegatedAreConditions(g.left);
      NegatedAreConditions(g.right);
      if !CanBeFalse(g.left, check) {
        ForcedLeaf(g.left, check);
        forall holds: Valuation | Eval(g.left, holds, None) ensures LeafValue(g, check, holds) {
          assert LeafValue(g.left, check, holds);
        }
      }
      if !CanBeFalse(g.right, check) {
        ForcedLeaf(g.right, check);
        forall holds: Valuation | Eval(g.right, holds, None) ensures LeafValue(g, check, holds) {
          assert LeafValue(g.right, check, holds);
        }
      }
    }
  }

  /** With every other leaf true the tree computes what logic_can_be_false computes. */
  lemma EvalAllTrueBut(whole: LogicGroup, g: LogicGroup, check: nat, holds: Valuation)
    requires OwnsLeaves(g) && holds == AllTrueBut(whole, Some(check))
    requires forall c :: c in Conditions(g) ==> (c in Negated(g) <==> c in Negated(whole))
    ensures Eval(g, holds, None) == CanBeFalse(g, check)
  {
    if !g.Predicate? {
      NegatedAreConditions(g.left);
      NegatedAreConditions(g.right);
      EvalAllTrueBut(whole, g.left, check, holds);
      EvalAllTrueBut(whole, g.right, check, holds);
    }
  }

  lemma EvalAllTrue(whole: LogicGroup, g: LogicGroup, skip: Option<nat>)
    requires OwnsLeaves(g)
    requires forall c :: c in Conditions(g) ==> (c in Negated(g) <==> c in Negated(whole))
    ensures forall holds: Valuation ::
              (forall c :: c in Conditions(g) && skip != Some(c) ==> holds(c) == (c !in Negated(whole)))
              ==> Eval(g, holds, skip)
  {
    if !g.Predicate? {
      NegatedAreConditions(g.left);
      NegatedAreConditions(g.right);
      EvalAllTrue(whole, g.left, skip);
      EvalAllTrue(whole, g.right, skip);
    }
  }

  /**
   The remark that negation may be ignored is wrong: taking the condition out is right for every
   row exactly when its leaf is not negated.
   */
  lemma ExtractionNeedsNoNegation(g: LogicGroup, check: nat)
    requires OwnsLeaves(g) && !CanBeFalse(g, check)
    ensures (forall holds: Valuation ::
               Eval(g, holds, None) <==> holds(check) && Eval(g, holds, Some(check)))
            <==> check !in Negated(g)
  {
    if check !in Negated(g) {
      forall holds: Valuation
        ensures Eval(g, holds, None) <==> holds(check) && Eval(g, holds, Some(check))
      {
        ExtractionIsSound(g, check, holds);
      }
    } else {
      var holds := AllTrueBut(g, Some(check));
      ForcedLeaf(g, check);
      EvalAllTrue(g, g, Some(check));
      assert holds(check) && Eval(g, holds, Some(check));
      assert !LeafValue(g, check, holds);
      assert !Eval(g, holds, None);
    }
  }

  /** With one condition the skipped tree is always true, so its process may be made passive. */
  lemma OneConditionIsPassive(g: LogicGroup, check: nat, holds: Valuation)
    requires ConditionCount(g) == 1 && !CanBeFalse(g, check)
    ensures Eval(g, holds, Some(check))
  {
    if !g.Predicate? {
      CountIsPositive(g.left);
      CountIsPositive(g.right);
    }
  }

  lemma CountIsPositive(g: LogicGroup)
    ensures ConditionCount(g) >= 1
  {
  }
}
