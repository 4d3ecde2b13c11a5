/** The integer aggregates (lib/aggregatefn.c) as the aggregates of a group (lib/group.c). */
module GroupAggregates {
  import opened Assoc
  import opened CheckedArith
  import opened GroupBy

  function StepOf<R>(a: Aggregate, col: R -> Long): (Totals, R) -> Option<Totals>
  {
    (t, r) => Counted(a, Some(t), col(r))
  }

  function Column<R>(col: R -> Long, rows: seq<R>): (nums: seq<Long>)
    ensures |nums| == |rows|
  {
    if rows == [] then [] else Column(col, rows[..|rows| - 1]) + [col(rows[|rows| - 1])]
  }

  lemma {:induction false} FoldOfGroup<R(!new)>(g: Grouping<R, Totals>, a: Aggregate, col: R -> Long,
                                                rows: seq<R>)
    requires g.zero == ZEROED
    ensures g.FoldRows(StepOf(a, col), rows) == Fold(a, Column(col, rows))
  {
    if rows != [] {
      var n := |rows| - 1;
      FoldOfGroup(g, a, col, rows[..n]);
      assert Column(col, rows)[..n] == Column(col, rows[..n]);
    }
  }

  /**
   The SUM column of a group's record: the exact total of that group's column, or a failed query
   when a partial sum leaves the range, unless the smallest long was added to itself.
   */
  lemma SumOfGroup<R(!new)>(g: Grouping<R, Totals>, col: R -> Long, rows: seq<R>)
    requires g.zero == ZEROED && !MeetsTwoMinima(Column(col, rows))
    ensures var nums := Column(col, rows);
            g.FoldRows(StepOf(Sum, col), rows) ==
            if PrefixesFit(nums) then Some(Totals(Total(nums), 0, Rows(|rows|))) else None
  {
    var nums := Column(col, rows);
    FoldOfGroup(g, Sum, col, rows);
    SumIsExact(nums);
    assert nums[..|nums|] == nums && SumIsRight(nums[..|nums|]);
  }
}
