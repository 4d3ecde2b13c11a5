/**
 What sorting by a comparator means: any two sorted arrangements of the same entries agree, place
 by place, up to entries that compare equal. The library sort itself is not part of this model.
 */
module SortOrder {

  /** The comparator's laws on the elements of s. */
  ghost predicate TotalPreorder<T(!new)>(cmp: (T, T) -> int, s: seq<T>) {
    && (forall a, b {:trigger cmp(a, b)} :: a in s && b in s ==> (cmp(a, b) < 0 <==> cmp(b, a) > 0))
    && (forall a, b, c {:trigger cmp(a, b), cmp(b, c)} ::
          a in s && b in s && c in s && cmp(a, b) <= 0 && cmp(b, c) <= 0 ==> cmp(a, c) <= 0)
  }

  ghost predicate Sorted<T>(cmp: (T, T) -> int, s: seq<T>) {
    forall i, j {:trigger s[i], s[j]} :: 0 <= i < j < |s| ==> cmp(s[i], s[j]) <= 0
  }

  ghost function Count<T>(s: seq<T>, p: T -> bool): nat
  {
    if s == [] then 0 else Count(s[..|s| - 1], p) + if p(s[|s| - 1]) then 1 else 0
  }

  lemma {:induction false} CountOfSum<T>(a: seq<T>, b: seq<T>, p: T -> bool)
    ensures Count(a + b, p) == Count(a, p) + Count(b, p)
    decreases |b|
  {
    if b == [] {
      assert a + b == a;
    } else {
      assert (a + b)[..|a + b| - 1] == a + b[..|b| - 1];
      CountOfSum(a, b[..|b| - 1], p);
    }
  }

  lemma WithoutOne<T>(s: seq<T>, i: nat)
    requires i < |s|
    ensures multiset(s[..i] + s[i + 1..]) == multiset(s) - multiset{s[i]}
  {
    assert s == s[..i] + [s[i]] + s[i + 1..];
  }

  /** Rearranging changes no count. */
  lemma {:induction false} CountOfPermutation<T>(a: seq<T>, b: seq<T>, p: T -> bool)
    requires multiset(a) == multiset(b)
    ensures Count(a, p) == Count(b, p)
    decreases |a|
  {
    assert |a| == |multiset(a)| == |multiset(b)| == |b|;
    if a != [] {
      var last := a[|a| - 1];
      assert last in multiset(a);
      var i :| 0 <= i < |b| && b[i] == last;
      WithoutOne(a, |a| - 1);
      WithoutOne(b, i);
      assert a[..|a| - 1] + a[|a|..] == a[..|a| - 1];
      CountOfPermutation(a[..|a| - 1], b[..i] + b[i + 1..], p);
      CountWithoutOne(b, i, p);
    }
  }

  lemma CountWithoutOne<T>(s: seq<T>, i: nat, p: T -> bool)
    requires i < |s|
    ensures Count(s, p) == Count(s[..i] + s[i + 1..], p) + if p(s[i]) then 1 else 0
  {
    assert s == (s[..i] + [s[i]]) + s[i + 1..];
    CountOfSum(s[..i], s[i + 1..], p);
    CountOfSum(s[..i] + [s[i]], s[i + 1..], p);
    assert (s[..i] + [s[i]])[..i] == s[..i];
  }

  lemma {:induction false} CountBounds<T>(s: seq<T>, p: T -> bool)
    ensures Count(s, p) <= |s|
    ensures (forall i {:trigger s[i]} :: 0 <= i < |s| ==> p(s[i])) ==> Count(s, p) == |s|
    ensures (forall i {:trigger s[i]} :: 0 <= i < |s| ==> !p(s[i])) ==> Count(s, p) == 0
  {
    if s != [] {
      CountBounds(s[..|s| - 1], p);
    }
  }

  /** Two sorted arrangements have equal entries in every place. */
  lemma SortedIsUnique<T(!new)>(cmp: (T, T) -> int, a: seq<T>, b: seq<T>, i: nat)
    requires multiset(a) == multiset(b) && Sorted(cmp, a) && Sorted(cmp, b)
    requires TotalPreorder(cmp, a)
    requires i < |a|
    ensures |b| == |a| && cmp(a[i], b[i]) <= 0 && cmp(b[i], a[i]) <= 0
  {
    assert |a| == |multiset(a)| == |multiset(b)| == |b|;
    SameElements(a, b);
    assert a[i] in multiset(a) && b[i] in multiset(b);
    NotLess(cmp, a, b, i);
    NotLess(cmp, b, a, i);
  }

  lemma SameElements<T(!new)>(a: seq<T>, b: seq<T>)
    requires multiset(a) == multiset(b)
    ensures forall x :: x in a <==> x in b
  {
    forall x ensures x in a <==> x in b {
      assert x in a <==> x in multiset(a);
      assert x in b <==> x in multiset(b);
    }
  }

  /** An entry cannot be less than the entry in its place: too many entries would be less. */
  lemma NotLess<T(!new)>(cmp: (T, T) -> int, a: seq<T>, b: seq<T>, i: nat)
    requires multiset(a) == multiset(b) && Sorted(cmp, a) && Sorted(cmp, b)
    requires TotalPreorder(cmp, a) && i < |a| == |b|
    ensures !(cmp(a[i], b[i]) < 0)
  {
    SameElements(a, b);
    if cmp(a[i], b[i]) < 0 {
      var p := (x: T) => cmp(x, b[i]) < 0;
      CountOfPermutation(a, b, p);
      forall k | 0 <= k <= i ensures p(a[k]) {
        if k < i {
          assert cmp(a[k], a[i]) <= 0;
          assert a[k] in a && a[i] in a && b[i] in b;
          BelowIsLess(cmp, a, a[k], a[i], b[i]);
        }
      }
      forall k | i <= k < |b| ensures !p(b[k]) {
        assert k > i ==> cmp(b[i], b[k]) <= 0;
        assert b[i] in b && b[k] in b;
      }
      PrefixCounts(a, i + 1, p);
      SuffixCountsNothing(b, i, p);
    }
  }

  lemma PrefixCounts<T>(s: seq<T>, n: nat, p: T -> bool)
    requires n <= |s| && forall k {:trigger s[k]} :: 0 <= k < n ==> p(s[k])
    ensures Count(s, p) >= n
  {
    assert s == s[..n] + s[n..];
    CountOfSum(s[..n], s[n..], p);
    CountBounds(s[..n], p);
  }

  lemma SuffixCountsNothing<T>(s: seq<T>, n: nat, p: T -> bool)
    requires n <= |s| && forall k {:trigger s[k]} :: n <= k < |s| ==> !p(s[k])
    ensures Count(s, p) <= n
  {
    assert s == s[..n] + s[n..];
    CountOfSum(s[..n], s[n..], p);
    CountBounds(s[..n], p);
    CountBounds(s[n..], p);
  }

  lemma BelowIsLess<T(!new)>(cmp: (T, T) -> int, s: seq<T>, x: T, y: T, z: T)
    requires TotalPreorder(cmp, s) && x in s && y in s && z in s
    requires cmp(x, y) <= 0 && cmp(y, z) < 0
    ensures cmp(x, z) < 0
  {
    var back, across := cmp(z, x), cmp(z, y);
  }
}
