/**
 Linear probing (util/hashmap.c), whatever the keys are and wherever their bytes lie. The ghost
 sequence keys is the table as a map: keys[i] is stored with the i-th value.
 */
module Probing {
  import opened Assoc
  import opened Common

  /** An entry is free while its value index is the all-ones sentinel. */
  datatype Entry = Free | Used(hash: nat, valIdx: nat, keyIdx: nat, keyLen: nat)

  /** The low bits of the hash: limits are powers of two. */
  function Home(hash: nat, limit: nat): (i: nat)
    requires limit > 0
    ensures i < limit
  {
    hash % limit
  }

  function NextSlot(i: nat, limit: nat): nat
  {
    if i + 1 == limit then 0 else i + 1
  }

  /** Slot t lies on the probe path that starts at home and stops before idx. */
  predicate OnPath(home: nat, idx: nat, t: nat) {
    if home <= idx then home <= t < idx else t >= home || t < idx
  }

  /** A table of this many slots doubles when more than nine tenths of them hold a value. */
  function Grown(slots: nat, used: nat): nat
  {
    if 10 * used > 9 * slots then 2 * slots else slots
  }

  /** Every value index has its one slot, reached from its home without crossing a free slot. */
  ghost predicate Placed(es: seq<Entry>, slots: map<nat, nat>) {
    && |es| > 0
    && (forall v :: v in slots ==> slots[v] < |es| && es[slots[v]].Used? && es[slots[v]].valIdx == v)
    && (forall i :: 0 <= i < |es| && es[i].Used? ==>
          es[i].valIdx in slots && slots[es[i].valIdx] == i)
    && (forall i, t {:trigger OnPath(Home(es[i].hash, |es|), i, t)} ::
          0 <= i < |es| && 0 <= t < |es| && es[i].Used? ==>
          OnPath(Home(es[i].hash, |es|), i, t) ==> es[t].Used?)
  }

  /** The index of a table: its entries, the keys it stands for and the slot of each value. */
  datatype Index<!K(!new)> =
    Index(hashOf: K -> nat, es: seq<Entry>, keys: seq<K>, slots: map<nat, nat>) {

    /** The entry holds the hash of the key stored with its value. */
    ghost predicate Describes(e: Entry) {
      e.Used? ==> e.valIdx < |keys| && e.hash == hashOf(keys[e.valIdx])
    }

    ghost predicate Ok() {
      && Distinct(keys)
      && Placed(es, slots)
      && Covers(slots, |keys|)
      && forall i {:trigger Describes(es[i])} :: 0 <= i < |es| ==> Describes(es[i])
    }

    /** Probing from home has passed only entries of other keys and stands at idx. */
    ghost predicate Passed(norm: K, home: nat, idx: nat) {
      && idx < |es|
      && forall t :: 0 <= t < |es| && OnPath(home, idx, t) ==>
           es[t].Used? && es[t].valIdx < |keys| && keys[es[t].valIdx] != norm
    }

    /** The index with one more key, described by e in slot i. */
    ghost function With(i: nat, e: Entry, norm: K): Index<K>
      requires i < |es| && e.Used?
    {
      Index(hashOf, es[i := e], keys + [norm], slots[e.valIdx := i])
    }

    lemma WithKeepsOk(i: nat, e: Entry, norm: K)
      requires Ok() && Found(norm, i) && es[i].Free?
      requires e.Used? && e.hash == hashOf(norm) && e.valIdx == |keys|
      ensures With(i, e, norm).Ok()
    {
      var r := With(i, e, norm);
      PlaceKeepsPlaced(es, slots, i, e);
      forall j | 0 <= j < |r.es| ensures r.Describes(r.es[j]) {
        if j != i {
          assert Describes(es[j]);
        }
      }
      DistinctMore(keys, norm);
    }

    /** Moving every entry to a slot reached from its home keeps the index sound. */
    lemma RehashedKeepsOk(dest: seq<Entry>, moved: map<nat, nat>)
      requires Ok() && Rehashed(this, |es|, dest, moved)
      ensures Index(hashOf, dest, keys, moved).Ok()
    {
      var r := Index(hashOf, dest, keys, moved);
      assert moved.Keys == slots.Keys;
      forall j | 0 <= j < |dest| ensures r.Describes(dest[j]) {
        if dest[j].Used? {
          assert Describes(es[slots[dest[j].valIdx]]);
        }
      }
    }

    /** Every entry of the larger table was an entry of the smaller one. */
    lemma RehashedEntry(dest: seq<Entry>, moved: map<nat, nat>, j: nat)
      requires Ok() && Rehashed(this, |es|, dest, moved) && j < |dest| && dest[j].Used?
      ensures dest[j] in es
    {
      assert dest[j] == es[slots[dest[j].valIdx]];
    }

    function Distance(idx: nat, free: nat): int
    {
      if free >= idx then free - idx else free - idx + |es|
    }

    lemma ProbeOn(norm: K, home: nat, idx: nat, free: nat)
      requires Ok() && home < |es| && Passed(norm, home, idx)
      requires es[idx].Used? && keys[es[idx].valIdx] != norm
      requires free < |es| && es[free].Free?
      ensures Passed(norm, home, NextSlot(idx, |es|))
      ensures 0 <= Distance(NextSlot(idx, |es|), free) < Distance(idx, free)
    {
      var next := NextSlot(idx, |es|);
      assert !OnPath(home, idx, free) && free != idx;
      forall t | 0 <= t < |es| && OnPath(home, next, t)
        ensures OnPath(home, idx, t) || t == idx
      {
      }
    }

    /** The slot of the key, or the free slot at the end of its probe path. */
    ghost predicate Found(norm: K, idx: nat) {
      && idx < |es|
      && (es[idx].Used? ==> norm in keys && es[idx].valIdx == IndexOf(keys, norm))
      && (es[idx].Free? ==> norm !in keys && Passed(norm, Home(hashOf(norm), |es|), idx))
    }

    lemma UsedIsFound(norm: K, idx: nat)
      requires Ok() && idx < |es| && es[idx].Used? && keys[es[idx].valIdx] == norm
      ensures Found(norm, idx)
    {
      assert Describes(es[idx]);
      IndexOfAt(keys, es[idx].valIdx);
    }

    /** Probing that ends at a free entry has shown the key absent. */
    lemma ProbeEnds(norm: K, idx: nat)
      requires Ok() && Passed(norm, Home(hashOf(norm), |es|), idx) && es[idx].Free?
      ensures Found(norm, idx)
    {
      var home := Home(hashOf(norm), |es|);
      forall v | 0 <= v < |keys| ensures keys[v] != norm {
        var s := slots[v];
        assert Describes(es[s]);
        assert 0 <= idx < |es| && !OnPath(Home(es[s].hash, |es|), s, idx);
        assert OnPath(home, idx, s) ==> keys[es[s].valIdx] != norm;
        OnOnePath(home, s, idx);
      }
    }
  }

  /** An index whose entries and probe paths agree with its keys. */
  type TableIndex<!K(!new)> = ix: Index<K> | ix.Ok()
    ghost witness Index((k: K) => 0, [Free], [], map[])

  lemma OnOnePath(home: nat, s: nat, t: nat)
    requires s != t
    ensures OnPath(home, s, t) || OnPath(home, t, s)
  {
  }

  predicate IsPowerOf2(n: nat) {
    n == 1 || (n > 1 && n % 2 == 0 && IsPowerOf2(n / 2))
  }

  lemma DoubleIsPowerOf2(n: nat)
    requires IsPowerOf2(n)
    ensures n > 0 && IsPowerOf2(2 * n)
  {
    assert 2 * n / 2 == n && 2 * n % 2 == 0;
  }

  /** There is no power of two strictly between one and its double. */
  lemma NoPowerBetween(n: nat, m: nat)
    requires IsPowerOf2(n) && IsPowerOf2(m) && n < m
    ensures 2 * n <= m
    decreases m
  {
    if n > 1 {
      NoPowerBetween(n / 2, m / 2);
    }
  }

  lemma NextPowerDoubles(n: nat, next: nat)
    requires IsPowerOf2(n) && IsPowerOf2(next) && n < next
    requires forall m :: IsPowerOf2(m) && n + 1 <= m ==> next <= m
    ensures next == 2 * n && IsPowerOf2(2 * n)
  {
    DoubleIsPowerOf2(n);
    NoPowerBetween(n, next);
  }

  /** _next_power_of_2: the least power of two that is not below n. */
  method NextPowerOf2(n: nat) returns (value: nat)
    ensures IsPowerOf2(value) && n <= value
    ensures forall m :: IsPowerOf2(m) && n <= m ==> value <= m
  {
    value := 1;
    while value < n
      invariant IsPowerOf2(value)
      invariant forall m :: IsPowerOf2(m) && n <= m ==> value <= m
      decreases 2 * n - value
    {
      DoubleIsPowerOf2(value);
      forall m | IsPowerOf2(m) && n <= m ensures 2 * value <= m {
        NoPowerBetween(value, m);
      }
      value := 2 * value;
    }
  }

  /** The limit after a power of two is its double. */
  method NextLimit(limit: nat) returns (next: nat)
    requires IsPowerOf2(limit)
    ensures next == 2 * limit && IsPowerOf2(next)
  {
    next := NextPowerOf2(limit + 1);
    NextPowerDoubles(limit, next);
  }

  lemma ValuesAtMostKeys(m: map<nat, nat>)
    ensures |m.Values| <= |m|
    decreases |m|
  {
    if m.Keys == {} {
      assert m.Values == {};
    } else {
      var k :| k in m;
      var rest := m - {k};
      ValuesAtMostKeys(rest);
      forall v | v in m.Values ensures v in rest.Values + {m[k]} {
        var j :| j in m && m[j] == v;
        assert j == k || rest[j] == v;
      }
      SubsetSize(m.Values, rest.Values + {m[k]});
      assert rest.Keys == m.Keys - {k};
    }
  }

  /** The value indices placed are exactly those below n. */
  ghost predicate Covers(slots: map<nat, nat>, n: nat) {
    forall v: nat :: v in slots <==> v < n
  }

  lemma CoveredSize(slots: map<nat, nat>, n: nat)
    requires Covers(slots, n)
    ensures |slots| == n
  {
    assert slots.Keys == Below(n);
  }

  /** A table with fewer values than slots has a free slot, so probing stops. */
  lemma SomeSlotIsFree(es: seq<Entry>, slots: map<nat, nat>) returns (free: nat)
    requires Placed(es, slots) && |slots| < |es|
    ensures free < |es| && es[free].Free?
  {
    if forall i :: 0 <= i < |es| ==> es[i].Used? {
      var all := Below(|es|);
      forall i | i in all ensures i in slots.Values {
        assert slots[es[i].valIdx] == i;
      }
      SubsetSize(all, slots.Values);
      ValuesAtMostKeys(slots);
      assert false;
    }
    free :| 0 <= free < |es| && es[free].Free?;
  }

  /** A new entry at the free end of its own probe path keeps every path unbroken. */
  lemma PlaceKeepsPlaced(es: seq<Entry>, slots: map<nat, nat>, i: nat, e: Entry)
    requires Placed(es, slots) && i < |es| && es[i].Free?
    requires e.Used? && e.valIdx !in slots
    requires forall t :: 0 <= t < |es| && OnPath(Home(e.hash, |es|), i, t) ==> es[t].Used?
    ensures Placed(es[i := e], slots[e.valIdx := i])
  {
  }

  /** The entries below i, and no others, have found a slot in the new table. */
  ghost predicate Rehashed<K(!new)>(src: Index<K>, i: nat, es: seq<Entry>, slots: map<nat, nat>) {
    && i <= |src.es|
    && Placed(es, slots)
    && (forall v :: v in slots ==> v in src.slots && src.slots[v] < i
                                   && es[slots[v]] == src.es[src.slots[v]])
    && (forall v :: v in src.slots && src.slots[v] < i ==> v in slots)
  }

  /** The inner loop: the first free slot from the entry's home takes it. */
  method PlaceByHash<K(!new)>(dest: array<Entry>, e: Entry, ghost slots: map<nat, nat>, ghost src: Index<K>,
                     ghost i: nat)
    returns (ghost placed: map<nat, nat>)
    requires i < |src.es| && src.es[i] == e && e.Used? && Placed(src.es, src.slots)
    requires Rehashed(src, i, dest[..], slots) && |src.slots| < dest.Length
    modifies dest
    ensures Rehashed(src, i + 1, dest[..], placed)
  {
    ghost var es := dest[..];
    SubsetSize(slots.Keys, src.slots.Keys);
    ghost var free := SomeSlotIsFree(es, slots);
    var idx: nat := Home(e.hash, dest.Length);
    while dest[idx].Used?
      invariant idx < |es| && dest[..] == es
      invariant forall t :: 0 <= t < |es| && OnPath(Home(e.hash, |es|), idx, t) ==> es[t].Used?
      decreases if free >= idx then free - idx else free - idx + |es|
    {
      PathGoesOn(es, Home(e.hash, |es|), idx, free);
      idx := NextSlot(idx, dest.Length);
    }
    placed := RehashedMore(src, i, es, slots, idx, e);
    dest[idx] := e;
    assert dest[..] == es[idx := e];
  }

  lemma RehashedMore<K(!new)>(src: Index<K>, i: nat, es: seq<Entry>, slots: map<nat, nat>, idx: nat, e: Entry)
    returns (placed: map<nat, nat>)
    requires Rehashed(src, i, es, slots) && i < |src.es| && src.es[i] == e && e.Used?
    requires Placed(src.es, src.slots) && idx < |es| && es[idx].Free?
    requires forall t :: 0 <= t < |es| && OnPath(Home(e.hash, |es|), idx, t) ==> es[t].Used?
    ensures Rehashed(src, i + 1, es[idx := e], placed)
  {
    placed := slots[e.valIdx := idx];
    PlaceKeepsPlaced(es, slots, idx, e);
  }

  lemma PathGoesOn(es: seq<Entry>, home: nat, idx: nat, free: nat)
    requires home < |es| && idx < |es| && es[idx].Used? && free < |es| && es[free].Free?
    requires forall t :: 0 <= t < |es| && OnPath(home, idx, t) ==> es[t].Used?
    ensures forall t :: 0 <= t < |es| && OnPath(home, NextSlot(idx, |es|), t) ==> es[t].Used?
    ensures NextSlot(idx, |es|) != home
  {
    assert !OnPath(home, idx, free) && free != idx;
    forall t | 0 <= t < |es| && OnPath(home, NextSlot(idx, |es|), t) ensures es[t].Used? {
      assert OnPath(home, idx, t) || t == idx;
    }
  }

  /** The outer loop of _increase_size. */
  method Rehash<K(!new)>(entries: array<Entry>, limit: nat, ghost src: Index<K>)
    returns (dest: array<Entry>, ghost slots: map<nat, nat>)
    requires entries[..] == src.es && Placed(src.es, src.slots)
    requires Covers(src.slots, |src.keys|) && |src.keys| < limit
    ensures fresh(dest) && dest.Length == limit
    ensures Rehashed(src, |src.es|, dest[..], slots)
  {
    CoveredSize(src.slots, |src.keys|);
    dest := new Entry[limit](_ => Free);
    slots := map[];
    for i := 0 to entries.Length
      invariant fresh(dest) && dest.Length == limit
      invariant Rehashed(src, i, dest[..], slots)
      invariant entries[..] == src.es
    {
      if entries[i].Used? {
        slots := PlaceByHash(dest, entries[i], slots, src, i);
      }
    }
  }

  /** _increase_size: moves every entry to a table of twice the slots by its stored hash. */
  method IncreaseSize<K(!new)>(entries: array<Entry>, ghost ix: TableIndex<K>)
    returns (dest: array<Entry>, ghost grown: TableIndex<K>)
    requires entries[..] == ix.es && IsPowerOf2(|ix.es|) && |ix.keys| <= |ix.es|
    ensures fresh(dest) && dest[..] == grown.es
    ensures grown.keys == ix.keys && grown.hashOf == ix.hashOf
    ensures IsPowerOf2(|grown.es|) && |grown.es| == 2 * |ix.es|
    ensures forall j {:trigger grown.es[j]} :: 0 <= j < |grown.es| && grown.es[j].Used? ==> grown.es[j] in ix.es
  {
    var limit := NextLimit(entries.Length);
    ghost var slots;
    dest, slots := Rehash(entries, limit, ix);
    ix.RehashedKeepsOk(dest[..], slots);
    grown := Index(ix.hashOf, dest[..], ix.keys, slots);
    forall j: nat | j < |grown.es| && grown.es[j].Used? ensures grown.es[j] in ix.es {
      ix.RehashedEntry(dest[..], slots, j);
    }
  }
}
