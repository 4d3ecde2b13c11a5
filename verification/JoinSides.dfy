/**
 Which table an expression reads, and the choice of a hash-join predicate from that
 (lib/schema.c).
 */
module JoinSides {
  import opened Assoc
  import opened JoinLogic

  /**
   Expressions as the side test sees them. A column names its source directly or, read through a
   subquery, by the subquery's index. Everything else is one leaf with the sources it really
   reads: none for constants and variables, any for CASE expressions.
   */
  datatype Expr =
    | FullRecord(source: int)
    | Column(source: int, subquerySource: int)
    | Function(args: seq<Expr>)
    | Other(sources: set<int>)

  datatype Side = LEFT | RIGHT | MIXED | UNDEF

  function SideOfSource(source: int, right: int): Side
  {
    if source < right then LEFT else RIGHT
  }

  /** The side of a function call, once the arguments before it have given side0. */
  function SideOfArgs(args: seq<Expr>, right: int, side0: Side): Side
    decreases args, 0
  {
    if args == [] then side0
    else
      var side1 := SideOf(args[0], right);
      if side0 == UNDEF then SideOfArgs(args[1..], right, side1)
      else if side1 == UNDEF || side0 == side1 then SideOfArgs(args[1..], right, side0)
      else MIXED
  }

  function SideOf(e: Expr, right: int): Side
    decreases e, 1
  {
    match e
    case FullRecord(s) => SideOfSource(s, right)
    case Column(s, q) => SideOfSource(if q == -1 then s else q, right)
    case Function(args) => SideOfArgs(args, right, UNDEF)
    case Other(_) => UNDEF
  }

  /** _get_join_side. */
  method GetJoinSide(e: Expr, right: int) returns (side: Side)
    ensures side == SideOf(e, right)
    decreases e
  {
    match e
    case FullRecord(s) => side := if s < right then LEFT else RIGHT;
    case Column(s, q) =>
      if q == -1 {
        side := if s < right then LEFT else RIGHT;
      } else {
        side := if q < right then LEFT else RIGHT;
      }
    case Function(args) =>
      side := UNDEF;
      var i := 0;
      while i < |args|
        invariant 0 <= i <= |args|
        invariant SideOfArgs(args, right, UNDEF) == SideOfArgs(args[i..], right, side)
      {
        var side1 := GetJoinSide(args[i], right);
        assert args[i..][1..] == args[i + 1..];
        if side == UNDEF {
          side := side1;
        } else if side1 != UNDEF && side != side1 {
          return MIXED;
        }
        i := i + 1;
      }
      assert args[|args|..] == [];
    case Other(_) => side := UNDEF;
  }

  /** The sources an expression reads. */
  function Sources(e: Expr): set<int>
  {
    match e
    case FullRecord(s) => {s}
    case Column(s, q) => {if q == -1 then s else q}
    case Function(args) => SourcesOfAll(args)
    case Other(sources) => sources
  }

  function SourcesOfAll(args: seq<Expr>): set<int>
  {
    if args == [] then {} else Sources(args[0]) + SourcesOfAll(args[1..])
  }

  /** No leaf hides a source from the side test. */
  predicate Transparent(e: Expr)
  {
    match e
    case Function(args) => TransparentAll(args)
    case Other(sources) => sources == {}
    case _ => true
  }

  predicate TransparentAll(args: seq<Expr>)
  {
    args == [] || (Transparent(args[0]) && TransparentAll(args[1..]))
  }

  predicate ReadsLeft(s: set<int>, right: int)
  {
    exists k :: k in s && k < right
  }

  predicate ReadsRight(s: set<int>, right: int)
  {
    exists k :: k in s && k >= right
  }

  function SideOfReads(s: set<int>, right: int): Side
  {
    if ReadsLeft(s, right) then if ReadsRight(s, right) then MIXED else LEFT
    else if ReadsRight(s, right) then RIGHT else UNDEF
  }

  /** On transparent expressions the side is exactly which of the two inputs is read. */
  lemma {:induction false} SideIsWhatIsRead(e: Expr, right: int)
    requires Transparent(e)
    ensures SideOf(e, right) == SideOfReads(Sources(e), right)
    decreases e, 1
  {
    match e
    case FullRecord(s) => assert s in Sources(e);
    case Column(s, q) => assert (if q == -1 then s else q) in Sources(e);
    case Function(args) =>
      ArgsAreWhatIsRead(args, right, {});
      assert {} + SourcesOfAll(args) == SourcesOfAll(args);
    case Other(_) =>
  }

  lemma {:induction false} ArgsAreWhatIsRead(args: seq<Expr>, right: int, before: set<int>)
    requires TransparentAll(args)
    ensures SideOfArgs(args, right, SideOfReads(before, right)) ==
            SideOfReads(before + SourcesOfAll(args), right)
    decreases args, 0
  {
    if args == [] {
      assert before + SourcesOfAll(args) == before;
    } else {
      SideIsWhatIsRead(args[0], right);
      var more := before + Sources(args[0]);
      ArgsAreWhatIsRead(args[1..], right, more);
      assert before + SourcesOfAll(args) == more + SourcesOfAll(args[1..]);
      SidesJoin(before, Sources(args[0]), right);
      SidesJoin(more, SourcesOfAll(args[1..]), right);
    }
  }

  lemma SidesJoin(a: set<int>, b: set<int>, right: int)
    ensures ReadsLeft(a + b, right) <==> ReadsLeft(a, right) || ReadsLeft(b, right)
    ensures ReadsRight(a + b, right) <==> ReadsRight(a, right) || ReadsRight(b, right)
  {
    if ReadsLeft(a, right) { var k :| k in a && k < right; assert k in a + b; }
    if ReadsLeft(b, right) { var k :| k in b && k < right; assert k in a + b; }
    if ReadsRight(a, right) { var k :| k in a && k >= right; assert k in a + b; }
    if ReadsRight(b, right) { var k :| k in b && k >= right; assert k in a + b; }
  }

  /** An equality found joinable when it was parsed: its condition and its two operands. */
  datatype Equality = Equality(condition: nat, expr0: Expr, expr1: Expr)

  datatype HashJoinPlan = HashJoinPlan(condition: nat, leftExpr: Expr, rightExpr: Expr)

  predicate Accepts(g: LogicGroup, eq: Equality, right: int)
  {
    var side0, side1 := SideOf(eq.expr0, right), SideOf(eq.expr1, right);
    side0 != MIXED && side0 != side1 && !CanBeFalse(g, eq.condition)
  }

  function PlanFor(eq: Equality, right: int): HashJoinPlan
  {
    if SideOf(eq.expr0, right) == RIGHT then HashJoinPlan(eq.condition, eq.expr1, eq.expr0)
    else HashJoinPlan(eq.condition, eq.expr0, eq.expr1)
  }

  /** The plan has the condition of the equality, and its two operands in one order or the other. */
  predicate IsPlanOf(plan: HashJoinPlan, eq: Equality) {
    && plan.condition == eq.condition
    && ((plan.leftExpr == eq.expr0 && plan.rightExpr == eq.expr1)
        || (plan.leftExpr == eq.expr1 && plan.rightExpr == eq.expr0))
  }

  /** The expression reads sources of one input and none of the other. */
  predicate ReadsOnlyLeft(e: Expr, right: int) {
    Transparent(e) && ReadsLeft(Sources(e), right) && !ReadsRight(Sources(e), right)
  }

  predicate ReadsOnlyRight(e: Expr, right: int) {
    Transparent(e) && ReadsRight(Sources(e), right) && !ReadsLeft(Sources(e), right)
  }

  /** One operand reads the left input only and the other the right one only. */
  predicate IsSeparate(eq: Equality, right: int) {
    || (ReadsOnlyLeft(eq.expr0, right) && ReadsOnlyRight(eq.expr1, right))
    || (ReadsOnlyRight(eq.expr0, right) && ReadsOnlyLeft(eq.expr1, right))
  }

  /** The left input gets the operand that reads it. */
  predicate PutsSeparateKeysRight(plan: HashJoinPlan, eq: Equality, right: int) {
    IsSeparate(eq, right) ==> ReadsOnlyLeft(plan.leftExpr, right) && ReadsOnlyRight(plan.rightExpr, right)
  }

  /** Such an equality is accepted in either order if its condition cannot be false, and turned the right way. */
  lemma SeparateIsAccepted(g: LogicGroup, eq: Equality, right: int)
    requires IsSeparate(eq, right) && !CanBeFalse(g, eq.condition)
    ensures Accepts(g, eq, right)
    ensures IsPlanOf(PlanFor(eq, right), eq) && PutsSeparateKeysRight(PlanFor(eq, right), eq, right)
  {
    SideIsWhatIsRead(eq.expr0, right);
    SideIsWhatIsRead(eq.expr1, right);
  }

  /** _resolve_join_conditions: the first acceptable equality becomes the hash join. */
  method ResolveJoinConditions(g: LogicGroup, joinable: seq<Equality>, right: int)
    returns (plan: Option<HashJoinPlan>)
    ensures plan.None? ==> forall i :: 0 <= i < |joinable| ==> !Accepts(g, joinable[i], right)
    ensures plan.Some? ==>
              exists i :: 0 <= i < |joinable| && Accepts(g, joinable[i], right)
                && plan.value == PlanFor(joinable[i], right)
                && forall j :: 0 <= j < i ==> !Accepts(g, joinable[j], right)
    ensures plan.Some? ==> exists eq :: eq in joinable && IsPlanOf(plan.value, eq) && !CanBeFalse(g, eq.condition)
                             && PutsSeparateKeysRight(plan.value, eq, right)
    ensures (exists eq :: eq in joinable && !CanBeFalse(g, eq.condition) && IsSeparate(eq, right)) ==> plan.Some?
  {
    for i := 0 to |joinable|
      invariant forall j :: 0 <= j < i ==> !Accepts(g, joinable[j], right)
    {
      var eq := joinable[i];
      var side0 := GetJoinSide(eq.expr0, right);
      if side0 != MIXED {
        var side1 := GetJoinSide(eq.expr1, right);
        if side0 != side1 && !CanBeFalse(g, eq.condition) {
          if IsSeparate(eq, right) { SeparateIsAccepted(g, eq, right); }
          assert eq in joinable && IsPlanOf(PlanFor(eq, right), eq);
          if side0 == RIGHT {
            return Some(HashJoinPlan(eq.condition, eq.expr1, eq.expr0));
          } else {
            return Some(HashJoinPlan(eq.condition, eq.expr0, eq.expr1));
          }
        }
      }
    }
    forall eq | eq in joinable && !CanBeFalse(g, eq.condition) && IsSeparate(eq, right) ensures false {
      var i :| 0 <= i < |joinable| && joinable[i] == eq;
      SeparateIsAccepted(g, joinable[i], right);
    }
    return None;
  }

  /** Each key can be computed from its own input alone. */
  predicate KeysAreSeparate(plan: HashJoinPlan, right: int)
  {
    !ReadsRight(Sources(plan.leftExpr), right) && !ReadsLeft(Sources(plan.rightExpr), right)
  }

  /**
   An accepted equality gives separate keys exactly when its second operand is not mixed and it
   is not a constant compared with a left operand, in that order.
   */
  lemma AcceptedKeysAreSeparate(g: LogicGroup, eq: Equality, right: int)
    requires Accepts(g, eq, right) && Transparent(eq.expr0) && Transparent(eq.expr1)
    ensures var side0, side1 := SideOf(eq.expr0, right), SideOf(eq.expr1, right);
            KeysAreSeparate(PlanFor(eq, right), right) <==>
              side1 != MIXED && !(side0 == UNDEF && side1 == LEFT)
  {
    SideIsWhatIsRead(eq.expr0, right);
    SideIsWhatIsRead(eq.expr1, right);
  }

  /** The test lets a mixed second operand through: T1.a = f(T1.a, T2.b) with T2 on the right. */
  lemma MixedOperandIsAccepted()
    ensures var eq := Equality(0, Column(0, -1), Function([Column(0, -1), Column(1, -1)]));
            Accepts(Predicate(0, false), eq, 1) && !KeysAreSeparate(PlanFor(eq, 1), 1)
  {
    var mixed := Function([Column(0, -1), Column(1, -1)]);
    var rest := [Column(0, -1), Column(1, -1)][1..];
    assert rest == [Column(1, -1)] && rest[1..] == [];
    assert SideOfArgs(rest, 1, LEFT) == MIXED;
    AcceptedKeysAreSeparate(Predicate(0, false), Equality(0, Column(0, -1), mixed), 1);
  }
}
