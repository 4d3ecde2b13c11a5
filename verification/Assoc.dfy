/**
 The association list a hash table stands for: distinct keys in the order of their first
 insertion, each with its value. What the tables promise is proved here over whole runs.
 */
module Assoc {

  datatype Option<+T> = None | Some(value: T) {
    function GetOr(default: T): T {
      if Some? then value else default
    }
  }

  ghost predicate Distinct<K>(keys: seq<K>) {
    forall i, j {:trigger Differ(keys, i, j)} :: Differ(keys, i, j)
  }

  ghost predicate Differ<K>(keys: seq<K>, i: int, j: int) {
    0 <= i < j < |keys| ==> keys[i] != keys[j]
  }

  lemma DistinctMore<K>(keys: seq<K>, k: K)
    requires Distinct(keys) && k !in keys
    ensures Distinct(keys + [k])
  {
    forall i, j ensures Differ(keys + [k], i, j) {
      assert Differ(keys, i, j);
    }
  }

  function IndexOf<K(==)>(keys: seq<K>, k: K): (i: nat)
    requires k in keys
    ensures i < |keys| && keys[i] == k
  {
    if keys[0] == k then 0 else 1 + IndexOf(keys[1..], k)
  }

  lemma IndexOfAt<K>(keys: seq<K>, i: nat)
    requires Distinct(keys) && i < |keys|
    ensures IndexOf(keys, keys[i]) == i
  {
    assert Differ(keys, IndexOf(keys, keys[i]), i) && Differ(keys, i, IndexOf(keys, keys[i]));
  }

  datatype Assoc<K(==,!new), V> = Assoc(keys: seq<K>, values: seq<V>) {

    ghost predicate Valid() {
      |keys| == |values| && Distinct(keys)
    }

    function Get(k: K): Option<V>
      requires Valid()
    {
      if k in keys then Some(values[IndexOf(keys, k)]) else None
    }

    /** hashmap_nset: a new key goes to the end, an old key keeps its place. */
    function Put(k: K, v: V): (a: Assoc<K, V>)
      requires Valid()
      ensures a.Valid()
    {
      if k in keys then Assoc(keys, values[IndexOf(keys, k) := v])
      else
        DistinctMore(keys, k);
        Assoc(keys + [k], values + [v])
    }

    /** A lookup after an insert finds the new value under its key and the old ones elsewhere. */
    lemma PutGet(k: K, v: V, k': K)
      requires Valid()
      ensures Put(k, v).Get(k') == if k' == k then Some(v) else Get(k')
    {
      if k !in keys {
        IndexOfMore(keys, k, k');
      }
    }
  }

  lemma IndexOfMore<K>(keys: seq<K>, k: K, k': K)
    requires k !in keys
    ensures k' in keys ==> IndexOf(keys + [k], k') == IndexOf(keys, k')
    ensures IndexOf(keys + [k], k) == |keys|
  {
    if keys != [] {
      assert (keys + [k])[1..] == keys[1..] + [k];
      if k' in keys[1..] {
        IndexOfMore(keys[1..], k, k');
      } else {
        IndexOfMore(keys[1..], k, k);
      }
    }
  }

  /** multimap_nset: appends to the key's vector, starting one for a new key. */
  function Append<K(==,!new), D>(a: Assoc<K, seq<D>>, k: K, d: D): (r: Assoc<K, seq<D>>)
    requires a.Valid()
    ensures r.Valid()
  {
    a.Put(k, a.Get(k).GetOr([]) + [d])
  }

  function PutAll<K(==,!new), V>(a: Assoc<K, V>, puts: seq<(K, V)>): (r: Assoc<K, V>)
    requires a.Valid()
    ensures r.Valid()
    decreases |puts|
  {
    if puts == [] then a
    else PutAll(a, puts[..|puts| - 1]).Put(puts[|puts| - 1].0, puts[|puts| - 1].1)
  }

  function AppendAll<K(==,!new), D>(a: Assoc<K, seq<D>>, puts: seq<(K, D)>): (r: Assoc<K, seq<D>>)
    requires a.Valid()
    ensures r.Valid()
    decreases |puts|
  {
    if puts == [] then a
    else Append(AppendAll(a, puts[..|puts| - 1]), puts[|puts| - 1].0, puts[|puts| - 1].1)
  }

  /** The values put under k, in order. */
  function Under<K(==,!new), V>(puts: seq<(K, V)>, k: K): seq<V>
  {
    if puts == [] then []
    else
      var last := puts[|puts| - 1];
      Under(puts[..|puts| - 1], k) + if last.0 == k then [last.1] else []
  }

  /** The distinct keys in the order in which they first occur. */
  function Firsts<K(==,!new), V>(puts: seq<(K, V)>): (r: seq<K>)
    ensures forall k :: k in r <==> exists i :: 0 <= i < |puts| && puts[i].0 == k
  {
    if puts == [] then []
    else
      var before, last := Firsts(puts[..|puts| - 1]), puts[|puts| - 1];
      if last.0 in before then before else before + [last.0]
  }

  /** After any run of inserts a lookup finds the last value put under the key, and nothing else. */
  lemma {:induction false} EveryRunOfPuts<K(!new), V>(puts: seq<(K, V)>, k: K)
    ensures var a := PutAll(Assoc([], []), puts);
            && a.keys == Firsts(puts)
            && a.Get(k) == (var under := Under(puts, k);
                            if under == [] then None else Some(under[|under| - 1]))
    decreases |puts|
  {
    if puts != [] {
      var last := puts[|puts| - 1];
      EveryRunOfPuts(puts[..|puts| - 1], k);
      PutAll(Assoc([], []), puts[..|puts| - 1]).PutGet(last.0, last.1, k);
    }
  }

  /** After any run of inserts a multimap holds every value of the key, in insertion order. */
  lemma {:induction false} EveryRunOfAppends<K(!new), D>(puts: seq<(K, D)>, k: K)
    ensures var a := AppendAll(Assoc([], []), puts);
            && a.keys == Firsts(puts)
            && a.Get(k) == if Under(puts, k) == [] then None else Some(Under(puts, k))
    decreases |puts|
  {
    if puts != [] {
      var last := puts[|puts| - 1];
      EveryRunOfAppends(puts[..|puts| - 1], k);
      var a := AppendAll<K, D>(Assoc([], []), puts[..|puts| - 1]);
      a.PutGet(last.0, a.Get(last.0).GetOr([]) + [last.1], k);
      assert AppendAll(Assoc([], []), puts) == Append(a, last.0, last.1);
      var under := Under(puts[..|puts| - 1], k);
      if last.0 == k {
        assert a.Get(k).GetOr([]) == under;
        assert Under(puts, k) == under + [last.1];
      } else {
        assert Under(puts, k) == under + [] == under;
      }
    }
  }

}
