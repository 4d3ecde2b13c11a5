/**
 The grouping key of an expression (_map_expression, lib/schema.c): a sequence of byte strings
 that spells the expression tree, with a marker where the arguments of a function end.
 */
module ExprKey {
  import opened Binary
  import opened Common
  import opened Keys
  import opened HashTable
  import opened CompositeMap

  type Word32 = n: nat | n < 0x1_0000_0000
  type Word64 = n: nat | n < 0x1_0000_0000_0000_0000

  /**
   Expressions after their types were determined. Numbers are given by their words, columns and
   subqueries by the pointers that identify them. T are the tests of a CASE expression.
   */
  datatype Expr<T> =
    | ConstInt(word: Word64)
    | ConstFloat(word: Word64)
    | ConstString(text: Bytes)
    | Column(source: Word64)
    | FullRecord(source: Word64)
    | Asterisk(srcIdx: Word32)
    | Aggregate(agg: Word32, args: seq<Expr>)
    | Subquery(query: Word64)
    | Function(fn: Word32, args: seq<Expr>)
    | SwitchCase(tests: T, values: seq<Expr>)
    | Unmapped                             // row numbers, references, variables, groupings, null

  const FUNCTION_END: nat := 8
  const SWITCHCASE_END: nat := 10

  function TagOf<T>(e: Expr<T>): nat
  {
    match e
    case ConstInt(_) => 0
    case ConstFloat(_) => 1
    case ConstString(_) => 2
    case Column(_) => 3
    case FullRecord(_) => 3
    case Asterisk(_) => 4
    case Aggregate(_, _) => 5
    case Subquery(_) => 6
    case Function(_, _) => 7
    case SwitchCase(_, _) => 9
    case Unmapped => 11
  }

  /** An enumerator in memory. */
  function Tag(n: nat): Bytes
  {
    ToBytes(n, 4)
  }

  /** The subexpressions the key goes down into. */
  function Children<T>(e: Expr<T>): seq<Expr<T>>
  {
    match e
    case Function(_, args) => args
    case SwitchCase(_, values) => values
    case _ => []
  }

  /** What stands before the children. */
  function Head<T>(e: Expr<T>): (h: seq<Bytes>)
    ensures h != [] && h[0] == Tag(TagOf(e))
  {
    var tag := Tag(TagOf(e));
    match e
    case ConstInt(word) => [tag, ToBytes(word, 8)]
    case ConstFloat(word) => [tag, ToBytes(word, 8)]
    case ConstString(text) => [tag, text]
    case Column(source) => [tag, ToBytes(source, 8)]
    case FullRecord(source) => [tag, ToBytes(source, 8)]
    case Asterisk(srcIdx) => [tag, ToBytes(srcIdx, 4)]
    case Aggregate(agg, _) => [tag, ToBytes(agg, 4)]
    case Subquery(query) => [tag, ToBytes(query, 8)]
    case Function(fn, _) => [tag, ToBytes(fn, 4)]
    case SwitchCase(_, _) => [tag]
    case Unmapped => [tag]
  }

  /** And after them. */
  function Tail<T>(e: Expr<T>): seq<Bytes>
  {
    match e
    case Function(_, _) => [Tag(FUNCTION_END)]
    case SwitchCase(_, _) => [Tag(SWITCHCASE_END)]
    case _ => []
  }

  /** The components of an expression. */
  function Key<T>(e: Expr<T>): (k: seq<Bytes>)
    ensures k != [] && k[0] == Tag(TagOf(e))
    decreases e, |Children(e)| + 1
  {
    Head(e) + KeyFrom(e, 0) + Tail(e)
  }

  /** The components of the children from the i-th on. */
  function KeyFrom<T>(e: Expr<T>, i: nat): seq<Bytes>
    requires i <= |Children(e)|
    decreases e, |Children(e)| - i
  {
    if i == |Children(e)| then [] else Key(Children(e)[i]) + KeyFrom(e, i + 1)
  }

  /** No unexpected expression is met. */
  predicate Mappable<T>(e: Expr<T>)
    decreases e
  {
    !e.Unmapped? && forall i {:trigger Children(e)[i]} :: 0 <= i < |Children(e)| ==> Mappable(Children(e)[i])
  }

  /** _map_expression; the components met before a failure stay in the vector. */
  method MapExpression<T>(key: seq<Bytes>, e: Expr<T>) returns (ok: bool, mapped: seq<Bytes>)
    ensures ok <==> Mappable(e)
    ensures ok ==> mapped == key + Key(e)
    decreases e, 1
  {
    if e.Unmapped? {
      return false, key;
    }
    ok, mapped := MapChildren(key + Head(e), e);
    mapped := mapped + Tail(e);
    assert key + Head(e) + KeyFrom(e, 0) + Tail(e) == key + (Head(e) + KeyFrom(e, 0) + Tail(e));
  }

  /** The loop over arguments or values. */
  method MapChildren<T>(key: seq<Bytes>, e: Expr<T>) returns (ok: bool, mapped: seq<Bytes>)
    requires !e.Unmapped?
    ensures ok <==> Mappable(e)
    ensures ok ==> mapped == key + KeyFrom(e, 0)
    decreases e, 0
  {
    mapped := key;
    var children := Children(e);
    for i := 0 to |children|
      invariant forall j {:trigger children[j]} :: 0 <= j < i ==> Mappable(children[j])
      invariant mapped + KeyFrom(e, i) == key + KeyFrom(e, 0)
    {
      Associate(mapped, Key(children[i]), KeyFrom(e, i + 1));
      ok, mapped := MapExpression(mapped, children[i]);
      if !ok {
        return;
      }
    }
    assert mapped + [] == mapped;
    ok := true;
  }

  /* ---- What the key tells apart ---- */

  /**
   What the key does not look at: the arguments of an aggregate, the tests of a CASE expression,
   and whether a column or the whole record is meant.
   */
  function Erased<T>(e: Expr<T>): Expr<()>
    decreases e
  {
    match e
    case ConstInt(word) => ConstInt(word)
    case ConstFloat(word) => ConstFloat(word)
    case ConstString(text) => ConstString(text)
    case Column(source) => Column(source)
    case FullRecord(source) => Column(source)
    case Asterisk(srcIdx) => Asterisk(srcIdx)
    case Aggregate(agg, _) => Aggregate(agg, [])
    case Subquery(query) => Subquery(query)
    case Function(fn, args) =>
      Function(fn, seq(|args|, i requires 0 <= i < |args| => Erased(args[i])))
    case SwitchCase(_, values) =>
      SwitchCase((), seq(|values|, i requires 0 <= i < |values| => Erased(values[i])))
    case Unmapped => Unmapped
  }

  lemma TagsDiffer(n: nat, m: nat)
    requires n < 12 && m < 12
    ensures Tag(n) == Tag(m) <==> n == m
  {
    Powers();
    BytesDiffer(n, m, 4);
  }

  lemma WordsDiffer(u: nat, v: nat)
    ensures u < 0x1_0000_0000 && v < 0x1_0000_0000 ==> (ToBytes(u, 4) == ToBytes(v, 4) <==> u == v)
    ensures u < 0x1_0000_0000_0000_0000 && v < 0x1_0000_0000_0000_0000 ==>
              (ToBytes(u, 8) == ToBytes(v, 8) <==> u == v)
  {
    Powers();
    if u < Power(4) && v < Power(4) { BytesDiffer(u, v, 4); }
    if u < Power(8) && v < Power(8) { BytesDiffer(u, v, 8); }
  }

  lemma Cancel(a: seq<Bytes>, b: seq<Bytes>, c: seq<Bytes>, d: seq<Bytes>)
    requires a + b == c + d && |a| == |c|
    ensures a == c && b == d
  {
    assert a == (a + b)[..|a|] && c == (c + d)[..|c|];
    assert b == (a + b)[|a|..] && d == (c + d)[|c|..];
  }

  lemma HeadsDiffer<T>(e1: Expr<T>, e2: Expr<T>)
    requires Head(e1) == Head(e2)
    ensures e1.ConstInt? && e2.ConstInt? ==> e1 == e2
    ensures e1.ConstFloat? && e2.ConstFloat? ==> e1 == e2
    ensures e1.ConstString? && e2.ConstString? ==> e1 == e2
    ensures (e1.Column? || e1.FullRecord?) && (e2.Column? || e2.FullRecord?) ==> e1.source == e2.source
    ensures e1.Asterisk? && e2.Asterisk? ==> e1 == e2
    ensures e1.Aggregate? && e2.Aggregate? ==> e1.agg == e2.agg
    ensures e1.Subquery? && e2.Subquery? ==> e1 == e2
    ensures e1.Function? && e2.Function? ==> e1.fn == e2.fn
  {
    if |Head(e1)| == 2 {
      assert Head(e1)[1] == Head(e2)[1];
    }
    if e1.ConstInt? && e2.ConstInt? { WordsDiffer(e1.word, e2.word); }
    if e1.ConstFloat? && e2.ConstFloat? { WordsDiffer(e1.word, e2.word); }
    if (e1.Column? || e1.FullRecord?) && (e2.Column? || e2.FullRecord?) { WordsDiffer(e1.source, e2.source); }
    if e1.Asterisk? && e2.Asterisk? { WordsDiffer(e1.srcIdx, e2.srcIdx); }
    if e1.Aggregate? && e2.Aggregate? { WordsDiffer(e1.agg, e2.agg); }
    if e1.Subquery? && e2.Subquery? { WordsDiffer(e1.query, e2.query); }
    if e1.Function? && e2.Function? { WordsDiffer(e1.fn, e2.fn); }
  }

  /* ---- The stored components ---- */

  /** The components as a table with these properties stores them. */
  function StoredKey<T>(p: Props, e: Expr<T>): seq<Bytes>
  {
    FormAll(p, Key(e))
  }

  function StoredFrom<T>(p: Props, e: Expr<T>, i: nat): seq<Bytes>
    requires i <= |Children(e)|
  {
    FormAll(p, KeyFrom(e, i))
  }

  lemma FormOfSum(p: Props, a: seq<Bytes>, b: seq<Bytes>)
    ensures FormAll(p, a + b) == FormAll(p, a) + FormAll(p, b)
  {
  }

  /** Enumerators are stored as they are: no byte of theirs is a letter, and the last is no space. */
  lemma TagIsSteady(p: Props, n: nat)
    requires n < 12
    ensures p.Form(Tag(n)) == Tag(n)
  {
    BytesOfTag(n);
    assert FoldAll(p.nocase, Tag(n)) == Tag(n);
    assert TrimEnd(Tag(n)) == Tag(n);
  }

  lemma BytesOfTag(n: nat)
    requires n < 12
    ensures Tag(n) == [n, 0, 0, 0]
  {
    assert ToBytes(n, 4) == [n] + ToBytes(0, 3);
    assert ToBytes(0, 3) == [0] + ToBytes(0, 2);
    assert ToBytes(0, 2) == [0] + ToBytes(0, 1);
  }

  lemma TailIsSteady<T>(p: Props, e: Expr<T>)
    ensures FormAll(p, Tail(e)) == Tail(e)
  {
    TagIsSteady(p, FUNCTION_END);
    TagIsSteady(p, SWITCHCASE_END);
  }

  /** The trees agree in kind, arity and, node by node, in the stored form of what the node adds. */
  ghost predicate Alike<T>(p: Props, e1: Expr<T>, e2: Expr<T>)
    decreases e1
  {
    && TagOf(e1) == TagOf(e2) && FormAll(p, Head(e1)) == FormAll(p, Head(e2))
    && |Children(e1)| == |Children(e2)|
    && forall i {:trigger Children(e1)[i]} :: 0 <= i < |Children(e1)| ==>
         Alike(p, Children(e1)[i], Children(e2)[i])
  }

  lemma StoredUnfolded<T>(p: Props, e: Expr<T>, r: seq<Bytes>)
    ensures StoredKey(p, e) + r == FormAll(p, Head(e)) + (StoredFrom(p, e, 0) + (Tail(e) + r))
  {
    FormOfSum(p, Head(e) + KeyFrom(e, 0), Tail(e));
    FormOfSum(p, Head(e), KeyFrom(e, 0));
    TailIsSteady(p, e);
    Associate(FormAll(p, Head(e)) + StoredFrom(p, e, 0), Tail(e), r);
    Associate(FormAll(p, Head(e)), StoredFrom(p, e, 0), Tail(e) + r);
  }

  lemma StoredChildFirst<T>(p: Props, e: Expr<T>, i: nat, t: seq<Bytes>)
    requires i < |Children(e)|
    ensures StoredFrom(p, e, i) + t == StoredKey(p, Children(e)[i]) + (StoredFrom(p, e, i + 1) + t)
  {
    FormOfSum(p, Key(Children(e)[i]), KeyFrom(e, i + 1));
    Associate(StoredKey(p, Children(e)[i]), StoredFrom(p, e, i + 1), t);
  }

  /** Equal beginnings come from nodes of the same kind with the same stored head. */
  lemma SameHead<T>(p: Props, e1: Expr<T>, e2: Expr<T>, r1: seq<Bytes>, r2: seq<Bytes>)
    requires FormAll(p, Head(e1)) + r1 == FormAll(p, Head(e2)) + r2
    ensures FormAll(p, Head(e1)) == FormAll(p, Head(e2)) && r1 == r2 && TagOf(e1) == TagOf(e2)
  {
    var h1, h2 := FormAll(p, Head(e1)), FormAll(p, Head(e2));
    assert (h1 + r1)[0] == h1[0] && (h2 + r2)[0] == h2[0];
    TagIsSteady(p, TagOf(e1));
    TagIsSteady(p, TagOf(e2));
    TagsDiffer(TagOf(e1), TagOf(e2));
    SameTagSameSize(e1, e2);
    Cancel(h1, r1, h2, r2);
  }

  lemma SameTagSameSize<T>(e1: Expr<T>, e2: Expr<T>)
    requires TagOf(e1) == TagOf(e2)
    ensures |Head(e1)| == |Head(e2)| && Tail(e1) == Tail(e2)
    ensures Tail(e1) == [] ==> Children(e1) == [] && Children(e2) == []
  {
  }

  /** The stored components are a prefix code up to the stored form of the heads. */
  lemma {:induction false} StoredPrefixFree<T>(p: Props, e1: Expr<T>, e2: Expr<T>, r1: seq<Bytes>, r2: seq<Bytes>)
    requires StoredKey(p, e1) + r1 == StoredKey(p, e2) + r2
    ensures Alike(p, e1, e2) && r1 == r2
    decreases e1, |Children(e1)| + 1, 0
  {
    var b1, b2 := StoredFrom(p, e1, 0) + (Tail(e1) + r1), StoredFrom(p, e2, 0) + (Tail(e2) + r2);
    StoredUnfolded(p, e1, r1);
    StoredUnfolded(p, e2, r2);
    SameHead(p, e1, e2, b1, b2);
    SameTagSameSize(e1, e2);
    if Tail(e1) != [] {
      SameChildren(p, e1, e2, 0, r1, r2);
      forall j | 0 <= j < |Children(e1)| ensures Alike(p, Children(e1)[j], Children(e2)[j]) {
        assert SameChild(p, e1, e2, j);
      }
    } else {
      assert b1 == r1 && b2 == r2;
    }
  }

  /** The end marker is not the beginning of any key, so both lists end together. */
  lemma {:induction false} SameChildren<T>(p: Props, e1: Expr<T>, e2: Expr<T>, i: nat, r1: seq<Bytes>, r2: seq<Bytes>)
    requires Tail(e1) == Tail(e2) != [] && i <= |Children(e1)| && i <= |Children(e2)|
    requires StoredFrom(p, e1, i) + (Tail(e1) + r1) == StoredFrom(p, e2, i) + (Tail(e2) + r2)
    ensures |Children(e1)| == |Children(e2)| && r1 == r2
    ensures forall j {:trigger SameChild(p, e1, e2, j)} :: i <= j ==> SameChild(p, e1, e2, j)
    decreases e1, |Children(e1)| - i, 1
  {
    if i == |Children(e1)| || i == |Children(e2)| {
      EndsTogether(p, e1, e2, i, r1, r2);
    } else {
      SameFirstChild(p, e1, e2, i, Tail(e1) + r1, Tail(e2) + r2);
      SameChildren(p, e1, e2, i + 1, r1, r2);
    }
  }

  lemma {:induction false} SameFirstChild<T>(p: Props, e1: Expr<T>, e2: Expr<T>, i: nat, t1: seq<Bytes>, t2: seq<Bytes>)
    requires i < |Children(e1)| && i < |Children(e2)|
    requires StoredFrom(p, e1, i) + t1 == StoredFrom(p, e2, i) + t2
    ensures SameChild(p, e1, e2, i) && StoredFrom(p, e1, i + 1) + t1 == StoredFrom(p, e2, i + 1) + t2
    decreases e1, |Children(e1)| - i, 0
  {
    StoredChildFirst(p, e1, i, t1);
    StoredChildFirst(p, e2, i, t2);
    StoredPrefixFree(p, Children(e1)[i], Children(e2)[i],
                     StoredFrom(p, e1, i + 1) + t1, StoredFrom(p, e2, i + 1) + t2);
  }

  ghost predicate SameChild<T>(p: Props, e1: Expr<T>, e2: Expr<T>, j: int) {
    0 <= j < |Children(e1)| && j < |Children(e2)| ==>
      Alike(p, Children(e1)[j], Children(e2)[j])
  }

  lemma EndsTogether<T>(p: Props, e1: Expr<T>, e2: Expr<T>, i: nat, r1: seq<Bytes>, r2: seq<Bytes>)
    requires Tail(e1) == Tail(e2) != [] && i <= |Children(e1)| && i <= |Children(e2)|
    requires i == |Children(e1)| || i == |Children(e2)|
    requires StoredFrom(p, e1, i) + (Tail(e1) + r1) == StoredFrom(p, e2, i) + (Tail(e2) + r2)
    ensures |Children(e1)| == i == |Children(e2)| && r1 == r2
  {
    var k1, k2 := StoredFrom(p, e1, i) + (Tail(e1) + r1), StoredFrom(p, e2, i) + (Tail(e2) + r2);
    FirstComponent(p, e1, i, r1);
    FirstComponent(p, e2, i, r2);
    assert k1[0] == k2[0];
    if i < |Children(e1)| { NoKeyStartsWithEnd(Children(e1)[i], e1); }
    if i < |Children(e2)| { NoKeyStartsWithEnd(Children(e2)[i], e2); }
    assert k1 == Tail(e1) + r1 && k2 == Tail(e2) + r2;
    Cancel(Tail(e1), r1, Tail(e2), r2);
  }

  lemma FirstComponent<T>(p: Props, e: Expr<T>, i: nat, r: seq<Bytes>)
    requires Tail(e) != [] && i <= |Children(e)|
    ensures (StoredFrom(p, e, i) + (Tail(e) + r))[0] ==
            if i < |Children(e)| then Tag(TagOf(Children(e)[i])) else Tail(e)[0]
  {
    if i < |Children(e)| {
      TagIsSteady(p, TagOf(Children(e)[i]));
      assert KeyFrom(e, i)[0] == Key(Children(e)[i])[0];
    }
  }

  lemma NoKeyStartsWithEnd<T>(c: Expr<T>, e: Expr<T>)
    requires Tail(e) != []
    ensures Tag(TagOf(c)) != Tail(e)[0]
  {
    TagsDiffer(TagOf(c), FUNCTION_END);
    TagsDiffer(TagOf(c), SWITCHCASE_END);
  }

  lemma {:induction false} AlikeStoredKeys<T>(p: Props, e1: Expr<T>, e2: Expr<T>)
    requires Alike(p, e1, e2)
    ensures StoredKey(p, e1) == StoredKey(p, e2)
    decreases e1, |Children(e1)| + 1
  {
    AlikeStoredFrom(p, e1, e2, 0);
    SameTagSameSize(e1, e2);
    StoredUnfolded(p, e1, []);
    StoredUnfolded(p, e2, []);
    assert StoredKey(p, e1) + [] == StoredKey(p, e1) && StoredKey(p, e2) + [] == StoredKey(p, e2);
  }

  lemma {:induction false} AlikeStoredFrom<T>(p: Props, e1: Expr<T>, e2: Expr<T>, i: nat)
    requires Alike(p, e1, e2) && i <= |Children(e1)|
    ensures StoredFrom(p, e1, i) == StoredFrom(p, e2, i)
    decreases e1, |Children(e1)| - i
  {
    if i < |Children(e1)| {
      AlikeStoredKeys(p, Children(e1)[i], Children(e2)[i]);
      AlikeStoredFrom(p, e1, e2, i + 1);
      FormOfSum(p, Key(Children(e1)[i]), KeyFrom(e1, i + 1));
      FormOfSum(p, Key(Children(e2)[i]), KeyFrom(e2, i + 1));
    }
  }

  /**
   A table takes two expressions for the same exactly when their trees agree in kind and arity and,
   node by node, in the stored form of what the node adds to the key.
   */
  lemma LookupIsExact<T>(p: Props, e1: Expr<T>, e2: Expr<T>)
    ensures FormAll(p, Key(e1)) == FormAll(p, Key(e2)) <==> Alike(p, e1, e2)
  {
    if StoredKey(p, e1) == StoredKey(p, e2) {
      StoredPrefixFree(p, e1, e2, [], []);
    }
    if Alike(p, e1, e2) {
      AlikeStoredKeys(p, e1, e2);
    }
  }

  /* ---- The components themselves ---- */

  /** A table that neither folds nor trims stores keys as they are. */
  const EXACT: Props := Props(false, false, (h, b) => h)

  lemma ExactForm(k: seq<Bytes>)
    ensures FormAll(EXACT, k) == k
  {
    forall i | 0 <= i < |k| ensures EXACT.Form(k[i]) == k[i] {
      assert FoldAll(false, k[i]) == k[i];
    }
  }

  /**
   The key is a prefix code: where two keys begin the same sequence they are the same key, and
   spell the same expression up to what is erased.
   */
  lemma PrefixFree<T>(e1: Expr<T>, e2: Expr<T>, r1: seq<Bytes>, r2: seq<Bytes>)
    requires Key(e1) + r1 == Key(e2) + r2
    ensures Erased(e1) == Erased(e2) && r1 == r2
  {
    ExactForm(Key(e1));
    ExactForm(Key(e2));
    StoredPrefixFree(EXACT, e1, e2, r1, r2);
    AlikeIsErased(e1, e2);
  }

  lemma {:induction false} AlikeIsErased<T>(e1: Expr<T>, e2: Expr<T>)
    requires Alike(EXACT, e1, e2)
    ensures Erased(e1) == Erased(e2)
    decreases e1
  {
    ExactForm(Head(e1));
    ExactForm(Head(e2));
    HeadsDiffer(e1, e2);
    forall j | 0 <= j < |Children(e1)| ensures Erased(Children(e1)[j]) == Erased(Children(e2)[j]) {
      AlikeIsErased(Children(e1)[j], Children(e2)[j]);
    }
  }

  /** What is erased does not show in the key. */
  lemma {:induction false} ErasedKey<T>(e: Expr<T>)
    ensures Key(Erased(e)) == Key(e)
    decreases e, |Children(e)| + 1
  {
    ErasedFrom(e, 0);
  }

  lemma {:induction false} ErasedFrom<T>(e: Expr<T>, i: nat)
    requires i <= |Children(e)|
    ensures |Children(Erased(e))| == |Children(e)|
    ensures KeyFrom(Erased(e), i) == KeyFrom(e, i)
    decreases e, |Children(e)| - i
  {
    if i < |Children(e)| {
      ErasedKey(Children(e)[i]);
      ErasedFrom(e, i + 1);
    }
  }

  /** Two expressions have the same key exactly when they are the same up to what is erased. */
  lemma KeysAreEqual<T>(e1: Expr<T>, e2: Expr<T>)
    ensures Key(e1) == Key(e2) <==> Erased(e1) == Erased(e2)
  {
    if Key(e1) == Key(e2) {
      PrefixFree(e1, e2, [], []);
    }
    ErasedKey(e1);
    ErasedKey(e2);
  }

  /** Trees of constants, columns, functions, subqueries and asterisks only. */
  predicate Plain<T>(e: Expr<T>)
    decreases e
  {
    && !e.FullRecord? && !e.Aggregate? && !e.SwitchCase? && !e.Unmapped?
    && forall i {:trigger Children(e)[i]} :: 0 <= i < |Children(e)| ==> Plain(Children(e)[i])
  }

  /** On these the key tells any two apart. */
  lemma PlainKeysAreEqual<T>(e1: Expr<T>, e2: Expr<T>)
    requires Plain(e1) && Plain(e2)
    ensures Key(e1) == Key(e2) <==> e1 == e2
  {
    KeysAreEqual(e1, e2);
    if Erased(e1) == Erased(e2) {
      NothingIsErased(e1, e2);
    }
  }

  lemma {:induction false} NothingIsErased<T>(e1: Expr<T>, e2: Expr<T>)
    requires Plain(e1) && Plain(e2) && Erased(e1) == Erased(e2)
    ensures e1 == e2
    decreases e1
  {
    if e1.Function? {
      assert |e1.args| == |Erased(e1).args| == |Erased(e2).args| == |e2.args|;
      forall i | 0 <= i < |e1.args| ensures e1.args[i] == e2.args[i] {
        assert Children(e1)[i] == e1.args[i] && Children(e2)[i] == e2.args[i];
        assert Erased(e1).args[i] == Erased(e1.args[i]) && Erased(e2).args[i] == Erased(e2.args[i]);
        NothingIsErased(e1.args[i], e2.args[i]);
      }
    }
  }

  /** CASE expressions with the same values are one grouping, whatever they test. */
  lemma TestsAreIgnored<T>(tests1: T, tests2: T, values: seq<Expr<T>>)
    ensures Key(SwitchCase(tests1, values)) == Key(SwitchCase(tests2, values))
  {
    KeysAreEqual(SwitchCase(tests1, values), SwitchCase(tests2, values));
  }

  /* ---- What the lookup tells apart ---- */

  /**
   The map of grouping expressions folds case and trims like a map of texts (lib/schema.c:1024).
   Expressions whose components are their own stored form are told apart as by their keys.
   */
  lemma LookupOfSteadyKeys<T>(p: Props, e1: Expr<T>, e2: Expr<T>)
    requires forall i {:trigger Key(e1)[i]} :: 0 <= i < |Key(e1)| ==> p.Form(Key(e1)[i]) == Key(e1)[i]
    requires forall i {:trigger Key(e2)[i]} :: 0 <= i < |Key(e2)| ==> p.Form(Key(e2)[i]) == Key(e2)[i]
    ensures FormAll(p, Key(e1)) == FormAll(p, Key(e2)) <==> Erased(e1) == Erased(e2)
  {
    KeysAreEqual(e1, e2);
    assert FormAll(p, Key(e1)) == Key(e1) && FormAll(p, Key(e2)) == Key(e2);
  }

  /** The constants 65 and 97 are the same argument: their first bytes are "A" and "a". */
  lemma ConstantsAreConfused(p: Props, fn: Word32)
    requires p.nocase
    ensures var e1: Expr<()>, e2: Expr<()> := Function(fn, [ConstInt(65)]), Function(fn, [ConstInt(97)]);
            Key(e1) != Key(e2) && FormAll(p, Key(e1)) == FormAll(p, Key(e2))
  {
    var c1: Expr<()>, c2: Expr<()> := ConstInt(65), ConstInt(97);
    var e1: Expr<()>, e2: Expr<()> := Function(fn, [c1]), Function(fn, [c2]);
    ConstantsAreAlike(p, c1, c2);
    assert Alike(p, e1, e2);
    LookupIsExact(p, e1, e2);
    KeysAreEqual(e1, e2);
    assert Erased(e1).args[0] == c1 && Erased(e2).args[0] == c2;
  }

  lemma ConstantsAreAlike(p: Props, c1: Expr<()>, c2: Expr<()>)
    requires p.nocase && c1 == ConstInt(65) && c2 == ConstInt(97)
    ensures Alike(p, c1, c2)
  {
    OneByte(65);
    OneByte(97);
    assert FoldAll(true, ToBytes(65, 8)) == FoldAll(true, ToBytes(97, 8));
    assert p.Form(ToBytes(65, 8)) == p.Form(ToBytes(97, 8));
    assert FormAll(p, Head(c1)) == FormAll(p, Head(c2));
  }

  lemma OneByte(b: Byte)
    ensures ToBytes(b, 8) == [b, 0, 0, 0, 0, 0, 0, 0]
  {
    assert ToBytes(b, 8) == [b] + ToBytes(0, 7);
    assert ToBytes(0, 7) == [0] + ToBytes(0, 6);
    assert ToBytes(0, 6) == [0] + ToBytes(0, 5);
    assert ToBytes(0, 5) == [0] + ToBytes(0, 4);
    assert ToBytes(0, 4) == [0] + ToBytes(0, 3);
    assert ToBytes(0, 3) == [0] + ToBytes(0, 2);
  }
}
