/**
 GROUP BY and DISTINCT (lib/group.c): a composite table from grouping keys to group numbers, a
 flat store of the groups' key texts and one vector of results for every aggregate.

 A row is any value R. A grouping expression is a total function from a row to the text it shows,
 an aggregate a step over results A that may fail, as the overflow-checked ones do.
 */
module GroupBy {
  import opened Assoc
  import opened Common
  import opened Keys
  import opened HashTable
  import opened CompositeMap
  import opened FlexStore

  const FQL_FAIL: int := -5

  datatype Expr<!R> = Key(text: R -> Bytes) | Agg(idx: nat)

  datatype Field<A> = Text(text: Bytes) | Result(result: A)

  datatype Grouping<!R(!new), !A> =
    Grouping(p: Props, exprs: seq<Expr<R>>, aggs: seq<(A, R) -> Option<A>>, zero: A) {

    /** Every aggregate expression names one of the aggregates. */
    predicate Valid() {
      forall i {:trigger exprs[i]} :: 0 <= i < |exprs| && exprs[i].Agg? ==> exprs[i].idx < |aggs|
    }

    /** How many of the first n expressions are keys. */
    function KeyCount(n: nat): (c: nat)
      requires n <= |exprs|
      ensures c <= n
    {
      if n == 0 then 0 else KeyCount(n - 1) + if exprs[n - 1].Key? then 1 else 0
    }

    /** The texts of the key expressions among the first n. */
    function KeyTexts(n: nat, r: R): (t: seq<Bytes>)
      requires n <= |exprs|
      ensures |t| == KeyCount(n)
    {
      if n == 0 then []
      else KeyTexts(n - 1, r) + if exprs[n - 1].Key? then [exprs[n - 1].text(r)] else []
    }

    lemma {:induction false} KeyTextAt(n: nat, m: nat, r: R)
      requires n < m <= |exprs| && exprs[n].Key?
      ensures KeyCount(n) < KeyCount(m)
      ensures KeyTexts(m, r)[KeyCount(n)] == exprs[n].text(r)
      decreases m
    {
      if n + 1 < m {
        KeyTextAt(n, m - 1, r);
      }
    }

    /** The composite key a row is stored and found under. */
    function KeyOf(r: R): seq<Bytes>
    {
      FormAll(p, KeyTexts(|exprs|, r))
    }

    function Puts(rows: seq<R>): (puts: seq<(seq<Bytes>, R)>)
      ensures |puts| == |rows|
      ensures forall i {:trigger puts[i]} :: 0 <= i < |rows| ==> puts[i] == (KeyOf(rows[i]), rows[i])
    {
      if rows == [] then []
      else Puts(rows[..|rows| - 1]) + [(KeyOf(rows[|rows| - 1]), rows[|rows| - 1])]
    }

    /** What grouping means: the rows of each key, under the keys in first-appearance order. */
    ghost function Groups(rows: seq<R>): (a: Assoc<seq<Bytes>, seq<R>>)
      ensures a.Valid()
    {
      AppendAll(Assoc([], []), Puts(rows))
    }

    /** Group i holds exactly the rows with its key, in order; the keys are the distinct ones. */
    lemma GroupsAreTheRowsOfTheirKeys(rows: seq<R>, i: nat)
      ensures Groups(rows).keys == Firsts(Puts(rows))
      ensures i < |Groups(rows).keys| ==>
                Groups(rows).values[i] == Under(Puts(rows), Groups(rows).keys[i])
    {
      var a := Groups(rows);
      EveryRunOfAppends(Puts(rows), if i < |a.keys| then a.keys[i] else []);
      if i < |a.keys| {
        IndexOfAt(a.keys, i);
      }
    }

    /** Some row has the key. */
    ghost predicate HasKey(rows: seq<R>, k: seq<Bytes>) {
      exists i {:trigger rows[i]} :: 0 <= i < |rows| && KeyOf(rows[i]) == k
    }

    lemma KeysOfGroups(rows: seq<R>, k: seq<Bytes>)
      ensures k in Groups(rows).keys <==> HasKey(rows, k)
    {
      GroupsAreTheRowsOfTheirKeys(rows, 0);
      var puts := Puts(rows);
      if HasKey(rows, k) {
        var i :| 0 <= i < |rows| && KeyOf(rows[i]) == k;
        assert puts[i].0 == k;
      }
    }

    lemma GroupsMore(rows: seq<R>, r: R)
      ensures Groups(rows + [r]) == Append(Groups(rows), KeyOf(r), r)
    {
      var puts := Puts(rows + [r]);
      assert (rows + [r])[..|rows|] == rows;
      assert puts[..|rows|] == Puts(rows);
    }

    /** A row with a new key makes a group of its own; any other joins the group of its key. */
    lemma GroupsGrow(rows: seq<R>, r: R)
      ensures var a, k := Groups(rows), KeyOf(r);
              Groups(rows + [r]) ==
              if k !in a.keys then Assoc(a.keys + [k], a.values + [[r]])
              else var i := IndexOf(a.keys, k); Assoc(a.keys, a.values[i := a.values[i] + [r]])
    {
      GroupsMore(rows, r);
      assert [] + [r] == [r];
    }

    lemma RowEnters(rows: seq<R>, r: R)
      ensures NonEmpty(Groups(rows).values)
      ensures KeyOf(r) in Groups(rows).keys <==> HasKey(rows, KeyOf(r))
      ensures var a, k := Groups(rows), KeyOf(r);
              Groups(rows + [r]) ==
              if k !in a.keys then Assoc(a.keys + [k], a.values + [[r]])
              else var i := IndexOf(a.keys, k); Assoc(a.keys, a.values[i := a.values[i] + [r]])
    {
      GroupsAreNonEmpty(rows);
      GroupsGrow(rows, r);
      KeysOfGroups(rows, KeyOf(r));
    }

    /** One aggregate over the rows of one group. */
    function FoldRows(step: (A, R) -> Option<A>, rows: seq<R>): Option<A>
    {
      if rows == [] then Some(zero)
      else
        match FoldRows(step, rows[..|rows| - 1])
        case None => None
        case Some(result) => step(result, rows[|rows| - 1])
    }

    /** The key texts of the groups, each from the group's first row. */
    ghost function FirstTexts(groups: seq<seq<R>>): (t: seq<Bytes>)
    {
      if groups == [] then []
      else
        var last := groups[|groups| - 1];
        FirstTexts(groups[..|groups| - 1]) + if last == [] then [] else KeyTexts(|exprs|, last[0])
    }

    /** The store holds a fixed number of texts for each group. */
    lemma {:induction false} FirstTextAt(groups: seq<seq<R>>, g: nat)
      requires NonEmpty(groups) && g < |groups|
      ensures var k := KeyCount(|exprs|);
              && Times(k, g) + k <= |FirstTexts(groups)|
              && FirstTexts(groups)[Times(k, g)..Times(k, g) + k] == KeyTexts(|exprs|, groups[g][0])
      decreases |groups|
    {
      var n := |groups| - 1;
      FirstTextsSize(groups[..n]);
      if g < n {
        FirstTextAt(groups[..n], g);
        var k := KeyCount(|exprs|);
        assert FirstTexts(groups)[Times(k, g)..Times(k, g) + k]
            == FirstTexts(groups[..n])[Times(k, g)..Times(k, g) + k];
      }
    }

    lemma {:induction false} FirstTextsSize(groups: seq<seq<R>>)
      requires NonEmpty(groups)
      ensures |FirstTexts(groups)| == Times(KeyCount(|exprs|), |groups|)
    {
      if groups != [] {
        FirstTextsSize(groups[..|groups| - 1]);
        OneTimeMore(KeyCount(|exprs|), |groups| - 1);
      }
    }

    /** A row that joins an old group leaves the key texts alone. */
    lemma {:induction false} FirstTextsOfUpdate(groups: seq<seq<R>>, g: nat, r: R)
      requires NonEmpty(groups) && g < |groups|
      ensures FirstTexts(groups[g := groups[g] + [r]]) == FirstTexts(groups)
    {
      var n := |groups| - 1;
      var more := groups[g := groups[g] + [r]];
      if g < n {
        assert more[..n] == groups[..n][g := groups[..n][g] + [r]];
        FirstTextsOfUpdate(groups[..n], g, r);
      } else {
        assert more[..n] == groups[..n];
      }
    }

    lemma GroupsAreNonEmpty(rows: seq<R>)
      ensures NonEmpty(Groups(rows).values)
    {
      if rows != [] {
        var n := |rows| - 1;
        assert rows == rows[..n] + [rows[n]];
        GroupsAreNonEmpty(rows[..n]);
        GroupsMore(rows[..n], rows[n]);
      }
    }

    /** The record GROUP BY emits for a group. */
    ghost function Record(group: seq<R>): (fields: seq<Field<A>>)
      requires Valid() && group != []
      requires forall j {:trigger aggs[j]} :: 0 <= j < |aggs| ==> FoldRows(aggs[j], group).Some?
      ensures |fields| == |exprs|
    {
      seq(|exprs|, e requires 0 <= e < |exprs| =>
        match exprs[e]
        case Key(text) => Text(text(group[0]))
        case Agg(j) => Result(FoldRows(aggs[j], group).value))
    }
  }

  function Times(k: nat, n: nat): nat
  {
    k * n
  }

  lemma OneTimeMore(k: nat, n: nat)
    ensures Times(k, n) + k == Times(k, n + 1)
  {
  }

  ghost predicate NonEmpty<R>(groups: seq<seq<R>>) {
    forall i {:trigger groups[i]} :: 0 <= i < |groups| ==> groups[i] != []
  }

  class Group<R(!new), A> {
    const g: Grouping<R, A>
    const groupData: Flex
    const valMap: CompositeMap<nat>
    var results: seq<seq<A>>
    var dumpIdx: nat
    ghost var rows: seq<R>

    /** Every result is the fold over its group's rows. */
    ghost predicate AllFolded(results: seq<seq<A>>, groups: seq<seq<R>>)
    {
      && |results| == |g.aggs|
      && (forall j {:trigger results[j]} :: 0 <= j < |results| ==> |results[j]| == |groups|)
      && forall j, i {:trigger FoldedAt(results, groups, j, i)} :: FoldedAt(results, groups, j, i)
    }

    /** Map and store hold these groups. */
    ghost predicate Holds(a: Assoc<seq<Bytes>, seq<R>>)
      requires groupData.Valid()
      reads groupData, valMap
    {
      && valMap.View() == Assoc(a.keys, UpTo(|a.keys|))
      && groupData.View() == g.FirstTexts(a.values)
    }

    ghost predicate Sound()
      reads groupData, valMap, valMap.entries
    {
      && g.Valid() && valMap.props == g.p
      && valMap.Valid() && groupData.Valid()
      && (groupData as object) != valMap && (groupData as object) != valMap.entries
      && (this as object) != valMap && (this as object) != valMap.entries && (this as object) != groupData
    }

    ghost predicate Valid()
      reads this, groupData, valMap, valMap.entries
    {
      Sound() && Holds(g.Groups(rows)) && AllFolded(results, g.Groups(rows).values)
    }

    constructor (g: Grouping<R, A>)
      requires g.Valid()
      ensures Valid() && rows == [] && dumpIdx == 0 && this.g == g
      ensures fresh(groupData) && fresh(valMap) && fresh(valMap.entries)
    {
      this.g := g;
      groupData := new Flex();
      valMap := new CompositeMap(128, g.p);
      results := seq(|g.aggs|, _ => []);
      dumpIdx, rows := 0, [];
    }

    /** The key texts of the row go to the end of the store. */
    method PushTexts(row: R)
      requires groupData.Valid()
      modifies groupData
      ensures groupData.Valid()
      ensures groupData.View() == old(groupData.View()) + g.KeyTexts(|g.exprs|, row)
    {
      for i := 0 to |g.exprs|
        invariant groupData.Valid()
        invariant groupData.View() == old(groupData.View()) + g.KeyTexts(i, row)
      {
        if g.exprs[i].Key? {
          groupData.PushBack(g.exprs[i].text(row));
        }
      }
    }

    /** The composite key is read back from the store. */
    method ReadComposite(orgSize: nat) returns (composite: seq<Bytes>)
      requires groupData.Valid() && orgSize <= |groupData.pairs|
      ensures composite == groupData.View()[orgSize..]
    {
      composite := [];
      while orgSize + |composite| < |groupData.pairs|
        invariant orgSize + |composite| <= |groupData.pairs|
        invariant composite == groupData.View()[orgSize..][..|composite|]
        decreases |groupData.pairs| - |composite|
      {
        var text := groupData.PairAt(orgSize + |composite|);
        composite := composite + [text];
      }
    }

    /** The result of aggregate j after its first row, and after one row more. */
    ghost predicate Started(row: R, j: nat, before: seq<A>, after: seq<A>)
      requires j < |g.aggs|
    {
      g.aggs[j](g.zero, row).Some? && after == before + [g.aggs[j](g.zero, row).value]
    }

    ghost predicate Updated(row: R, j: nat, idx: nat, before: seq<A>, after: seq<A>)
      requires j < |g.aggs|
    {
      && idx < |before| && g.aggs[j](before[idx], row).Some?
      && after == before[idx := g.aggs[j](before[idx], row).value]
    }

    /** _add_agg_result: a zeroed result for a new group, and the first step of every aggregate. */
    method AddAggResult(row: R, ghost before: seq<seq<A>>) returns (ok: bool)
      requires |results| == |g.aggs| && before == results
      modifies `results
      ensures |results| == |g.aggs|
      ensures ok ==> forall j: nat {:trigger Started(row, j, before[j], results[j])} :: j < |results| ==>
                Started(row, j, before[j], results[j])
      ensures !ok ==> exists j: nat {:trigger g.aggs[j]} :: j < |g.aggs| && g.aggs[j](g.zero, row).None?
    {
      for j := 0 to |g.aggs|
        invariant |results| == |g.aggs|
        invariant forall k: nat {:trigger Started(row, k, before[k], results[k])} :: k < j ==>
                    Started(row, k, before[k], results[k])
        invariant results[j..] == before[j..]
      {
        assert results[j] == results[j..][0] == before[j..][0] == before[j];
        ghost var old1 := results;
        results := results[j := results[j] + [g.zero]];
        match g.aggs[j](g.zero, row)
        case None =>
          return false;
        case Some(result) =>
          results := results[j := results[j][..|results[j]| - 1] + [result]];
          assert Started(row, j, before[j], results[j]);
          assert results[j + 1..] == old1[j..][1..] == before[j + 1..];
          forall k: nat | k < j ensures Started(row, k, before[k], results[k]) {
            assert Started(row, k, before[k], old1[k]);
          }
      }
      return true;
    }

    /** _update_agg_result: one more step of every aggregate of an old group. */
    method UpdateAggResult(row: R, idx: nat, ghost before: seq<seq<A>>) returns (ok: bool)
      requires |results| == |g.aggs| && before == results
      requires forall j {:trigger results[j]} :: 0 <= j < |results| ==> idx < |results[j]|
      modifies `results
      ensures |results| == |g.aggs|
      ensures ok ==> forall j: nat {:trigger Updated(row, j, idx, before[j], results[j])} :: j < |results| ==>
                Updated(row, j, idx, before[j], results[j])
      ensures !ok ==> exists j: nat {:trigger g.aggs[j]} :: j < |g.aggs| && g.aggs[j](before[j][idx], row).None?
    {
      for j := 0 to |g.aggs|
        invariant |results| == |g.aggs|
        invariant forall k: nat {:trigger Updated(row, k, idx, before[k], results[k])} :: k < j ==>
                    Updated(row, k, idx, before[k], results[k])
        invariant results[j..] == before[j..]
      {
        assert results[j] == results[j..][0] == before[j..][0] == before[j];
        ghost var old1 := results;
        match g.aggs[j](results[j][idx], row)
        case None =>
          return false;
        case Some(result) =>
          results := results[j := results[j][idx := result]];
          assert Updated(row, j, idx, before[j], results[j]);
          assert results[j + 1..] == old1[j..][1..] == before[j + 1..];
          forall k: nat | k < j ensures Updated(row, k, idx, before[k], results[k]) {
            assert Updated(row, k, idx, before[k], old1[k]);
          }
      }
      return true;
    }

    /** The results before a row are the folds over these groups. */
    ghost predicate FoldedAt(before: seq<seq<A>>, groups: seq<seq<R>>, j: int, i: int)
      requires |before| == |g.aggs|
    {
      0 <= j < |before| && 0 <= i < |groups| ==>
        |before[j]| == |groups| && g.FoldRows(g.aggs[j], groups[i]) == Some(before[j][i])
    }

    lemma NewGroupFolds(row: R, before: seq<seq<A>>, after: seq<seq<A>>, groups: seq<seq<R>>, j: nat, i: nat)
      requires |before| == |g.aggs| == |after|
      requires forall j, i {:trigger FoldedAt(before, groups, j, i)} :: FoldedAt(before, groups, j, i)
      requires j < |after| ==> |before[j]| == |groups|
      requires j < |after| ==> Started(row, j, before[j], after[j])
      ensures FoldedAt(after, groups + [[row]], j, i)
    {
      assert FoldedAt(before, groups, j, i);
      assert [row][..0] == [];
    }

    lemma OldGroupFolds(row: R, idx: nat, before: seq<seq<A>>, after: seq<seq<A>>,
                        groups: seq<seq<R>>, j: nat, i: nat)
      requires |before| == |g.aggs| == |after| && idx < |groups|
      requires forall j, i {:trigger FoldedAt(before, groups, j, i)} :: FoldedAt(before, groups, j, i)
      requires j < |after| ==> |before[j]| == |groups|
      requires j < |after| ==> Updated(row, j, idx, before[j], after[j])
      ensures FoldedAt(after, groups[idx := groups[idx] + [row]], j, i)
    {
      assert FoldedAt(before, groups, j, i);
      assert (groups[idx] + [row])[..|groups[idx]|] == groups[idx];
    }

    /** Some aggregate cannot be folded over the group. */
    ghost predicate CannotFold(group: seq<R>) {
      exists j: nat {:trigger g.aggs[j]} :: j < |g.aggs| && g.FoldRows(g.aggs[j], group).None?
    }

    method StartResults(row: R, ghost groups: seq<seq<R>>) returns (ok: bool)
      requires AllFolded(results, groups)
      modifies `results
      ensures ok ==> AllFolded(results, groups + [[row]])
      ensures !ok ==> CannotFold([row])
    {
      ghost var before := results;
      assert [row][..0] == [];
      ok := AddAggResult(row, before);
      if ok {
        forall j: nat | j < |results| ensures |results[j]| == |groups| + 1 {
          assert Started(row, j, before[j], results[j]);
        }
        forall j, i ensures FoldedAt(results, groups + [[row]], j, i) {
          if 0 <= j < |results| && 0 <= i {
            assert Started(row, j, before[j], results[j]);
            NewGroupFolds(row, before, results, groups, j, i);
          }
        }
      } else {
        ghost var j: nat :| j < |g.aggs| && g.aggs[j](g.zero, row).None?;
        assert g.FoldRows(g.aggs[j], [row]).None?;
      }
    }

    method ExtendResults(row: R, idx: nat, ghost groups: seq<seq<R>>) returns (ok: bool)
      requires AllFolded(results, groups) && idx < |groups|
      modifies `results
      ensures ok ==> AllFolded(results, groups[idx := groups[idx] + [row]])
      ensures !ok ==> CannotFold(groups[idx] + [row])
    {
      ghost var before := results;
      ghost var more := groups[idx := groups[idx] + [row]];
      ok := UpdateAggResult(row, idx, before);
      if ok {
        forall j: nat | j < |results| ensures |results[j]| == |groups| {
          assert Updated(row, j, idx, before[j], results[j]);
        }
        forall j, i ensures FoldedAt(results, more, j, i) {
          if 0 <= j < |results| && 0 <= i {
            assert Updated(row, j, idx, before[j], results[j]);
            OldGroupFolds(row, idx, before, results, groups, j, i);
          }
        }
      } else {
        ghost var j: nat :| j < |g.aggs| && g.aggs[j](before[j][idx], row).None?;
        assert FoldedAt(before, groups, j, idx);
        assert (groups[idx] + [row])[..|groups[idx]|] == groups[idx];
        assert g.FoldRows(g.aggs[j], groups[idx] + [row]).None?;
      }
    }

    /** The row's texts stay in the store and its key is new. */
    method StartGroup(row: R, composite: seq<Bytes>, ghost a: Assoc<seq<Bytes>, seq<R>>) returns (ok: bool)
      requires Sound() && AllFolded(results, a.values) && a.Valid()
      requires valMap.View() == Assoc(a.keys, UpTo(|a.keys|))
      requires composite == g.KeyTexts(|g.exprs|, row) && g.KeyOf(row) !in a.keys
      requires groupData.View() == g.FirstTexts(a.values) + composite
      modifies `results, valMap, valMap.entries
      ensures Sound() && (valMap.entries == old(valMap.entries) || fresh(valMap.entries))
      ensures ok ==> Holds(Assoc(a.keys + [g.KeyOf(row)], a.values + [[row]]))
                     && AllFolded(results, a.values + [[row]])
      ensures !ok ==> CannotFold([row])
    {
      var groupCount := |valMap.values|;
      valMap.Set(composite, groupCount);
      ok := StartResults(row, a.values);
      assert (a.values + [[row]])[..|a.values|] == a.values;
    }

    /** The row's texts are rolled back; its group number is idx. */
    method JoinGroup(row: R, idx: nat, orgSize: nat, ghost a: Assoc<seq<Bytes>, seq<R>>) returns (ok: bool)
      requires Sound() && AllFolded(results, a.values) && a.Valid() && NonEmpty(a.values)
      requires idx < |a.keys| && valMap.View() == Assoc(a.keys, UpTo(|a.keys|))
      requires orgSize <= |groupData.pairs| && groupData.View()[..orgSize] == g.FirstTexts(a.values)
      modifies `results, groupData
      ensures Sound()
      ensures ok ==> Holds(Assoc(a.keys, a.values[idx := a.values[idx] + [row]]))
                     && AllFolded(results, a.values[idx := a.values[idx] + [row]])
      ensures !ok ==> CannotFold(a.values[idx] + [row])
    {
      groupData.Resize(orgSize);
      ok := ExtendResults(row, idx, a.values);
      g.FirstTextsOfUpdate(a.values, idx, row);
    }

    /** The rows of the group the row belongs to, with it. */
    ghost function GroupWith(a: Assoc<seq<Bytes>, seq<R>>, row: R): seq<R>
      requires a.Valid()
    {
      if g.KeyOf(row) in a.keys then a.values[IndexOf(a.keys, g.KeyOf(row))] + [row] else [row]
    }

    /** The row's texts at the end of the store, and its group number if it has one. */
    method Locate(row: R, ghost a: Assoc<seq<Bytes>, seq<R>>)
      returns (orgSize: nat, composite: seq<Bytes>, idx: Option<nat>)
      requires Sound() && Holds(a) && a.Valid()
      modifies groupData, valMap`keybuf, valMap`keyTemp
      ensures Sound() && valMap.View() == Assoc(a.keys, UpTo(|a.keys|))
      ensures composite == g.KeyTexts(|g.exprs|, row)
      ensures groupData.View() == g.FirstTexts(a.values) + composite
      ensures orgSize == |g.FirstTexts(a.values)| <= |groupData.pairs|
      ensures idx == if g.KeyOf(row) in a.keys then Some(IndexOf(a.keys, g.KeyOf(row))) else None
    {
      orgSize := |groupData.pairs|;
      PushTexts(row);
      composite := ReadComposite(orgSize);
      idx := valMap.Get(composite);
    }

    /** The row enters map, store and results as it enters the groups a, which become b. */
    method Place(row: R, ghost a: Assoc<seq<Bytes>, seq<R>>, ghost b: Assoc<seq<Bytes>, seq<R>>)
      returns (ret: int)
      requires Sound() && a.Valid() && NonEmpty(a.values) && Holds(a) && AllFolded(results, a.values)
      requires b == if g.KeyOf(row) !in a.keys then Assoc(a.keys + [g.KeyOf(row)], a.values + [[row]])
                    else var i := IndexOf(a.keys, g.KeyOf(row));
                         Assoc(a.keys, a.values[i := a.values[i] + [row]])
      modifies `results, groupData, valMap, valMap.entries
      ensures Sound() && (valMap.entries == old(valMap.entries) || fresh(valMap.entries))
      ensures ret == FQL_FAIL || ret == if g.KeyOf(row) !in a.keys then 1 else 0
      ensures ret != FQL_FAIL ==> Holds(b) && AllFolded(results, b.values)
      ensures ret == FQL_FAIL ==> CannotFold(GroupWith(a, row))
    {
      var orgSize, composite, idx := Locate(row, a);
      if idx.None? {
        var ok := StartGroup(row, composite, a);
        ret := if ok then 1 else FQL_FAIL;
      } else {
        var ok := JoinGroup(row, idx.value, orgSize, a);
        ret := if ok then 0 else FQL_FAIL;
      }
    }

    /** group_record: 1 is a row that started a group, 0 any other row, FQL_FAIL a failed aggregate. */
    method Record(row: R) returns (ret: int)
      requires Valid()
      modifies this, groupData, valMap, valMap.entries
      ensures Sound() && (valMap.entries == old(valMap.entries) || fresh(valMap.entries)) && dumpIdx == old(dumpIdx)
      ensures ret == FQL_FAIL || ret == if g.HasKey(old(rows), g.KeyOf(row)) then 0 else 1
      ensures ret != FQL_FAIL ==> Valid() && rows == old(rows) + [row]
      ensures ret == FQL_FAIL ==> CannotFold(GroupWith(g.Groups(old(rows)), row))
    {
      ghost var before := g.Groups(rows);
      g.RowEnters(rows, row);
      rows := rows + [row];
      ret := Place(row, before, g.Groups(rows));
    }

    /** The fields of group d, the key texts read from the store one after the other. */
    method ReadFields(d: nat, start: nat, ghost groups: seq<seq<R>>) returns (fields: seq<Field<A>>)
      requires Sound() && d < |groups| && StoredAt(start, groups[d])
      requires AllFolded(results, groups) && AllFold(groups[d])
      ensures fields == g.Record(groups[d])
    {
      var idx: nat := start;
      ghost var rec := g.Record(groups[d]);
      fields := [];
      for i := 0 to |g.exprs|
        invariant idx == start + g.KeyCount(i)
        invariant |fields| == i && forall k {:trigger fields[k]} :: 0 <= k < i ==> fields[k] == rec[k]
      {
        match g.exprs[i]
        case Agg(j) =>
          assert FoldedAt(results, groups, j, d);
          fields := fields + [Result(results[j][d])];
        case Key(_) =>
          var text := ReadKey(i, idx, start, groups[d]);
          fields := fields + [Text(text)];
          idx := idx + 1;
      }
    }

    method ReadKey(i: nat, idx: nat, ghost start: nat, ghost group: seq<R>) returns (text: Bytes)
      requires StoredAt(start, group) && i < |g.exprs| && g.exprs[i].Key? && idx == start + g.KeyCount(i)
      ensures text == g.exprs[i].text(group[0])
    {
      g.KeyTextAt(i, |g.exprs|, group[0]);
      assert groupData.View()[start..start + g.KeyCount(|g.exprs|)][g.KeyCount(i)] == groupData.View()[idx];
      text := groupData.PairAt(idx);
    }

    /** The group's key texts lie in the store from start on. */
    ghost predicate StoredAt(start: nat, group: seq<R>)
      reads groupData
    {
      && groupData.Valid() && group != []
      && start + g.KeyCount(|g.exprs|) <= |groupData.View()|
      && groupData.View()[start..start + g.KeyCount(|g.exprs|)] == g.KeyTexts(|g.exprs|, group[0])
    }

    lemma StoredInOrder(d: nat, groups: seq<seq<R>>)
      requires groupData.Valid() && groupData.View() == g.FirstTexts(groups)
      requires d < |groups| && NonEmpty(groups)
      ensures StoredAt(Times(g.KeyCount(|g.exprs|), d), groups[d])
    {
      g.FirstTextAt(groups, d);
    }

    /** group_dump_record: the next group's record, or nothing when all have been dumped. */
    method DumpRecord() returns (rec: Option<seq<Field<A>>>)
      requires Valid()
      modifies `dumpIdx
      ensures Valid()
      ensures var groups := g.Groups(rows).values;
              if old(dumpIdx) >= |groups| then rec == None && dumpIdx == old(dumpIdx)
              else dumpIdx == old(dumpIdx) + 1 && AllFold(groups[old(dumpIdx)])
                   && rec == Some(g.Record(groups[old(dumpIdx)]))
    {
      if dumpIdx >= |valMap.values| {
        return None;
      }
      ghost var a := g.Groups(rows);
      g.GroupsAreNonEmpty(rows);
      FoldsOfGroup(a.values, dumpIdx);
      StoredInOrder(dumpIdx, a.values);
      var fields := ReadFields(dumpIdx, Times(g.KeyCount(|g.exprs|), dumpIdx), a.values);
      dumpIdx := dumpIdx + 1;
      rec := Some(fields);
    }

    ghost predicate AllFold(group: seq<R>) {
      && group != []
      && forall j {:trigger g.aggs[j]} :: 0 <= j < |g.aggs| ==> g.FoldRows(g.aggs[j], group).Some?
    }

    lemma FoldsOfGroup(groups: seq<seq<R>>, i: nat)
      requires AllFolded(results, groups) && i < |groups| && NonEmpty(groups)
      ensures AllFold(groups[i])
    {
      forall j | 0 <= j < |g.aggs| ensures g.FoldRows(g.aggs[j], groups[i]).Some? {
        assert FoldedAt(results, groups, j, i);
      }
    }
  }
}
