/**
 The open-addressing hash table (util/hashmap.c) behind sets, maps and multimaps.

 A table keeps the normal forms of its keys back to back in one key buffer, its values in a
 vector in insertion order, and an array of entries probed linearly. The ghost sequence keys is
 the table as a map: keys[i] is stored with values[i].
 */
module HashTable {
  import opened Assoc
  import opened Keys
  import opened Probing

  const FNV1_INIT: nat := 14695981039346656037

  /**
   How a table is built: HASHMAP_PROP_NOCASE, HASHMAP_PROP_RTRIM, and the step that mixes one
   byte into a hash. Nothing depends on what the step computes.
   */
  datatype Props = Props(nocase: bool, rtrim: bool, mix: (nat, Byte) -> nat) {

    /** The stored form of a key. */
    function Form(key: Bytes): Bytes
    {
      Normal(nocase, rtrim, key)
    }

    function HashOf(s: Bytes): nat
    {
      if s == [] then FNV1_INIT else mix(HashOf(s[..|s| - 1]), s[|s| - 1])
    }

    /** The hash of a stored key: a trimming table gives every blank key the initial value. */
    function KeyHash(stored: Bytes): nat
    {
      if rtrim && AllSpaces(stored) then FNV1_INIT else HashOf(stored)
    }
  }

  /** The key of an entry is its slice of the key buffer. */
  ghost predicate Stores(stored: Bytes, keys: seq<Bytes>, e: Entry) {
    e.Used? ==>
      && e.valIdx < |keys|
      && e.keyIdx + e.keyLen <= |stored|
      && stored[e.keyIdx..e.keyIdx + e.keyLen] == keys[e.valIdx]
  }

  ghost predicate StoresAll(stored: Bytes, keys: seq<Bytes>, es: seq<Entry>) {
    forall i {:trigger Stores(stored, keys, es[i])} :: 0 <= i < |es| ==> Stores(stored, keys, es[i])
  }

  /** Appending a key and its bytes leaves every slice in place. */
  lemma StoresMore(stored: Bytes, keys: seq<Bytes>, es: seq<Entry>, i: nat, e: Entry, norm: Bytes)
    requires StoresAll(stored, keys, es) && i < |es|
    requires e.Used? && e.valIdx == |keys| && e.keyIdx == |stored| && e.keyLen == |norm|
    ensures StoresAll(stored + norm, keys + [norm], es[i := e])
  {
    var more := es[i := e];
    forall j | 0 <= j < |es| ensures Stores(stored + norm, keys + [norm], more[j]) {
      if j == i {
        assert (stored + norm)[|stored|..|stored| + |norm|] == norm;
      } else {
        assert Stores(stored, keys, es[j]);
        if es[j].Used? {
          SliceOfPrefix(stored + norm, |stored|, es[j].keyIdx, es[j].keyLen);
        }
      }
    }
  }

  lemma StoresGrown(stored: Bytes, keys: seq<Bytes>, es: seq<Entry>, grown: seq<Entry>)
    requires StoresAll(stored, keys, es)
    requires forall j {:trigger grown[j]} :: 0 <= j < |grown| && grown[j].Used? ==> grown[j] in es
    ensures StoresAll(stored, keys, grown)
  {
    forall j | 0 <= j < |grown| ensures Stores(stored, keys, grown[j]) {
      if grown[j].Used? {
        var i :| 0 <= i < |es| && es[i] == grown[j];
        assert Stores(stored, keys, es[i]);
      }
    }
  }

  /** Length and hash up to the last byte that is not a space; n and the start if there is none. */
  ghost function LastText(p: Props, f: Bytes, n: nat): (nat, nat)
  {
    var r := TrimEnd(f);
    if r == [] then (n, FNV1_INIT) else (|r|, p.HashOf(r))
  }

  lemma PrefixStep(p: Props, f: Bytes, i: nat, n: nat)
    requires i < |f|
    ensures p.HashOf(f[..i + 1]) == p.mix(p.HashOf(f[..i]), f[i])
    ensures LastText(p, f[..i + 1], n) ==
            if f[i] != SPACE then (i + 1, p.HashOf(f[..i + 1])) else LastText(p, f[..i], n)
  {
    assert f[..i + 1][..i] == f[..i];
  }

  /** The hash loop: folds the key into the buffer, hashing as it goes. */
  method FoldInto(p: Props, keybuf: seq<Byte>, head: nat, key: Bytes)
    returns (written: seq<Byte>, hash: nat, lastN: nat, lastHash: nat)
    requires head + |key| <= |keybuf|
    ensures |written| == |keybuf| && written[..head] == keybuf[..head]
    ensures written[head..head + |key|] == FoldAll(p.nocase, key)
    ensures hash == p.HashOf(FoldAll(p.nocase, key))
    ensures (lastN, lastHash) == LastText(p, FoldAll(p.nocase, key), |key|)
  {
    ghost var f := FoldAll(p.nocase, key);
    written, lastN, lastHash, hash := keybuf, |key|, FNV1_INIT, FNV1_INIT;
    var i := 0;
    while i < |key|
      invariant i <= |key| && |written| == |keybuf|
      invariant written[..head] == keybuf[..head]
      invariant forall j :: 0 <= j < i ==> written[head + j] == f[j]
      invariant hash == p.HashOf(f[..i])
      invariant (lastN, lastHash) == LastText(p, f[..i], |key|)
    {
      var c := Folded(p.nocase, key[i]);
      written := written[head + i := c];
      PrefixStep(p, f, i, |key|);
      hash := p.mix(hash, c);
      if c != SPACE {
        lastN, lastHash := i + 1, hash;
      }
      i := i + 1;
    }
    assert f[..|key|] == f;
  }

  /**
   The four hash functions: they differ in the two properties only. The folded key is written
   after the stored keys; trimming shortens the length reported, never what is written.
   */
  method HashInto(p: Props, keybuf: seq<Byte>, head: nat, key: Bytes)
    returns (written: seq<Byte>, n: nat, hash: nat)
    requires head + |key| <= |keybuf|
    ensures |written| == |keybuf| && written[..head] == keybuf[..head]
    ensures n <= |key| && written[head..head + n] == p.Form(key)
    ensures hash == p.KeyHash(p.Form(key))
  {
    var lastN, lastHash;
    written, hash, lastN, lastHash := FoldInto(p, keybuf, head, key);
    n := |key|;
    if p.rtrim {
      n, hash := lastN, lastHash;
    }
    TrimmedHash(p, FoldAll(p.nocase, key));
    assert written[head..head + n] == written[head..head + |key|][..n];
  }

  lemma TrimmedHash(p: Props, f: Bytes)
    ensures p.rtrim ==> LastText(p, f, |f|) == (|Trimmed(f)|, p.KeyHash(Trimmed(f)))
    ensures Trimmed(f) <= f
    ensures !p.rtrim ==> p.HashOf(f) == p.KeyHash(f)
  {
    TrimEndOfText(f);
    TrimEndOfText(TrimEnd(f));
  }

  /** The negated probe condition: the entry is taken and length, hash and memcmp agree. */
  predicate Matches(e: Entry, keybuf: seq<Byte>, head: nat, n: nat, hash: nat)
    requires head + n <= |keybuf|
  {
    && e.Used? && e.keyLen == n && e.hash == hash
    && e.keyIdx + n <= |keybuf|
    && keybuf[e.keyIdx..e.keyIdx + n] == keybuf[head..head + n]
  }

  lemma MatchIsEquality(keys: seq<Bytes>, e: Entry, keybuf: seq<Byte>, head: nat, n: nat, p: Props)
    requires head + n <= |keybuf| && e.Used? && Stores(keybuf[..head], keys, e)
    requires e.hash == p.KeyHash(keys[e.valIdx])
    ensures var norm := keybuf[head..head + n];
            Matches(e, keybuf, head, n, p.KeyHash(norm)) <==> keys[e.valIdx] == norm
  {
    SliceOfPrefix(keybuf, head, e.keyIdx, e.keyLen);
  }

  lemma SliceOfPrefix<T>(s: seq<T>, n: nat, i: nat, len: nat)
    requires i + len <= n <= |s|
    ensures s[..n][i..i + len] == s[i..i + len]
  {
  }

  /** The probe loop: stops at the entry of the key in the buffer, or at a free entry. */
  method Probe(entries: array<Entry>, keybuf: seq<Byte>, head: nat, n: nat, hash: nat,
               ghost ix: TableIndex<Bytes>, ghost p: Props)
    returns (idx: nat)
    requires ix.es == entries[..] && head + n <= |keybuf| && StoresAll(keybuf[..head], ix.keys, ix.es)
    requires ix.hashOf == p.KeyHash && |ix.keys| < |ix.es|
    requires hash == p.KeyHash(keybuf[head..head + n])
    ensures ix.Found(keybuf[head..head + n], idx)
  {
    ghost var norm := keybuf[head..head + n];
    CoveredSize(ix.slots, |ix.keys|);
    ghost var free := SomeSlotIsFree(ix.es, ix.slots);
    idx := Home(hash, entries.Length);
    while entries[idx].Used? && !Matches(entries[idx], keybuf, head, n, hash)
      invariant ix.Passed(norm, Home(hash, |ix.es|), idx)
      decreases ix.Distance(idx, free)
    {
      assert ix.Describes(ix.es[idx]) && Stores(keybuf[..head], ix.keys, ix.es[idx]);
      MatchIsEquality(ix.keys, ix.es[idx], keybuf, head, n, p);
      ix.ProbeOn(norm, Home(hash, |ix.es|), idx, free);
      idx := NextSlot(idx, entries.Length);
    }
    assert entries[idx] == ix.es[idx];
    if entries[idx].Used? {
      assert ix.Describes(ix.es[idx]) && Stores(keybuf[..head], ix.keys, ix.es[idx]);
      MatchIsEquality(ix.keys, ix.es[idx], keybuf, head, n, p);
      ix.UsedIsFound(norm, idx);
    } else {
      ix.ProbeEnds(norm, idx);
    }
  }

  /** The loop that makes room for a raw key after the keys already stored. */
  method Reserve(keybuf: seq<Byte>, head: nat, n: nat) returns (grown: seq<Byte>)
    requires 0 < |keybuf| && head <= |keybuf|
    ensures head + n <= |grown| && keybuf <= grown
  {
    var len := |keybuf|;
    while head + n > len
      invariant len >= |keybuf|
      decreases head + n - len
    {
      len := len * 2;
    }
    grown := keybuf + seq(len - |keybuf|, _ => 0);
  }

  class HashMap<V> {
    const props: Props
    var entries: array<Entry>
    var keybuf: seq<Byte>
    var keybufHead: nat
    var values: seq<V>
    ghost var ix: TableIndex<Bytes>

    /** Entries and key buffer hold the index. */
    ghost predicate Represented()
      reads this, entries
    {
      && entries[..] == ix.es
      && 0 < |keybuf| && keybufHead <= |keybuf|
      && StoresAll(keybuf[..keybufHead], ix.keys, ix.es)
    }

    /** The index holds one key per value in a power of two of slots. */
    ghost predicate Indexed()
      reads this, entries
    {
      Represented() && ix.hashOf == props.KeyHash && |ix.keys| == |values| && IsPowerOf2(|ix.es|)
    }

    /** The load stays at or below nine tenths. */
    ghost predicate Valid()
      reads this, entries
    {
      Indexed() && 10 * |ix.keys| <= 9 * |ix.es|
    }

    /** The table as an association list. */
    ghost function View(): Assoc<Bytes, V>
      reads this
    {
      Assoc(ix.keys, values)
    }

    constructor (size: nat, props: Props)
      ensures Valid() && fresh(entries)
      ensures this.props == props && View() == Assoc([], [])
    {
      this.props := props;
      var limit := NextPowerOf2(size);
      entries := new Entry[limit](_ => Free);
      keybuf := seq(limit, _ => 0);
      keybufHead, values := 0, [];
      ix := Index(props.KeyHash, seq(limit, _ => Free), [], map[]);
    }

    /** Makes room for the key and folds it into the buffer, after the keys already stored. */
    method StoreKey(key: Bytes) returns (n: nat, hash: nat)
      requires 0 < |keybuf| && keybufHead <= |keybuf|
      modifies `keybuf
      ensures keybufHead + n <= |keybuf| && 0 < |keybuf|
      ensures keybuf[..keybufHead] == old(keybuf[..keybufHead])
      ensures keybuf[keybufHead..keybufHead + n] == props.Form(key)
      ensures hash == props.KeyHash(props.Form(key))
    {
      keybuf := Reserve(keybuf, keybufHead, |key|);
      keybuf, n, hash := HashInto(props, keybuf, keybufHead, key);
    }

    /** The key was folded into the buffer and idx is its slot or its free slot. */
    ghost predicate Located(key: Bytes, idx: nat, n: nat, hash: nat)
      reads this
    {
      && keybufHead + n <= |keybuf|
      && keybuf[keybufHead..keybufHead + n] == props.Form(key)
      && hash == props.KeyHash(props.Form(key))
      && ix.Found(props.Form(key), idx)
    }

    /**
     _get_entry: the slot of the key, or the free slot where its probe path ends. The normal
     form of the key is left in the key buffer, after the stored keys.
     */
    method GetEntry(key: Bytes) returns (idx: nat, n: nat, hash: nat)
      requires Valid()
      modifies `keybuf
      ensures Represented()
      ensures Located(key, idx, n, hash)
    {
      n, hash := StoreKey(key);
      idx := Probe(entries, keybuf, keybufHead, n, hash, ix, props);
    }

    /**
     The insertion shared by the set, map and multimap writers: the free entry takes the key
     left in the buffer and the value goes to the end; past nine tenths the table grows.
     */
    method Insert(key: Bytes, idx: nat, n: nat, hash: nat, v: V)
      requires Valid() && Located(key, idx, n, hash) && ix.es[idx].Free?
      modifies this, entries
      ensures Valid() && (entries == old(entries) || fresh(entries))
      ensures entries.Length == Grown(old(entries.Length), |values|)
      ensures View() == Assoc(old(ix.keys) + [props.Form(key)], old(values) + [v])
    {
      Take(key, idx, n, hash, v);
      if 10 * |values| > 9 * entries.Length {
        Grow();
      }
    }

    method Take(key: Bytes, idx: nat, n: nat, hash: nat, v: V)
      requires Valid() && Located(key, idx, n, hash) && ix.es[idx].Free?
      modifies `ix, `keybufHead, `values, entries
      ensures Indexed() && |ix.keys| <= |ix.es|
      ensures View() == Assoc(old(ix.keys) + [props.Form(key)], old(values) + [v])
    {
      ghost var norm := props.Form(key);
      var e := Used(hash, |values|, keybufHead, n);
      ix.WithKeepsOk(idx, e, norm);
      StoresMore(keybuf[..keybufHead], ix.keys, ix.es, idx, e, norm);
      ix := ix.With(idx, e, norm);
      assert keybuf[..keybufHead + n] == keybuf[..keybufHead] + norm;
      entries[idx] := e;
      keybufHead := keybufHead + n;
      values := values + [v];
      assert entries[..] == ix.es;
    }

    method Grow()
      requires Indexed() && |ix.keys| <= |ix.es|
      modifies `entries, `ix
      ensures Valid() && fresh(entries) && ix.keys == old(ix.keys) && entries.Length == 2 * old(entries.Length)
    {
      ghost var es := ix.es;
      entries, ix := IncreaseSize(entries, ix);
      StoresGrown(keybuf[..keybufHead], ix.keys, es, ix.es);
    }

    /** hashmap_nset. */
    method NSet(key: Bytes, data: V)
      requires Valid()
      modifies this, entries
      ensures Valid() && (entries == old(entries) || fresh(entries))
      ensures entries.Length == Grown(old(entries.Length), |values|)
      ensures View() == old(View()).Put(props.Form(key), data)
    {
      var idx, n, hash := GetEntry(key);
      if entries[idx].Free? {
        Insert(key, idx, n, hash, data);
      } else {
        values := values[entries[idx].valIdx := data];
      }
    }

    /** hashmap_nget; a lookup leaves its key in the buffer and nothing else behind. */
    method NGet(key: Bytes) returns (v: Option<V>)
      requires Valid()
      modifies `keybuf
      ensures Valid() && View() == old(View())
      ensures v == View().Get(props.Form(key))
    {
      var idx, n, hash := GetEntry(key);
      if entries[idx].Free? {
        return None;
      }
      v := Some(values[entries[idx].valIdx]);
    }
  }

  /** multimap_nset: each value is the vector of everything stored under its key. */
  method MultimapNSet<D>(m: HashMap<seq<D>>, key: Bytes, data: D)
    requires m.Valid()
    modifies m, m.entries
    ensures m.Valid() && (m.entries == old(m.entries) || fresh(m.entries))
    ensures m.entries.Length == Grown(old(m.entries.Length), |m.values|)
    ensures m.View() == Append(old(m.View()), m.props.Form(key), data)
  {
    var idx, n, hash := m.GetEntry(key);
    ghost var a, k := m.View(), m.props.Form(key);
    assert m.entries[idx] == m.ix.es[idx];
    if m.entries[idx].Free? {
      m.Insert(key, idx, n, hash, [data]);
      assert [] + [data] == [data] && a.Get(k).GetOr([]) == [];
    } else {
      assert a.Get(k).GetOr([]) == a.values[IndexOf(a.keys, k)];
      var i := m.entries[idx].valIdx;
      m.values := m.values[i := m.values[i] + [data]];
    }
  }

  /** set_nadd: the vector is only a count, and growth happens as for a map. */
  method SetNAdd(m: HashMap<()>, key: Bytes)
    requires m.Valid()
    modifies m, m.entries
    ensures m.Valid() && (m.entries == old(m.entries) || fresh(m.entries))
    ensures m.entries.Length == Grown(old(m.entries.Length), |m.values|)
    ensures forall k :: k in m.View().keys <==> k in old(m.View()).keys || k == m.props.Form(key)
  {
    var idx, n, hash := m.GetEntry(key);
    if m.entries[idx].Used? {
      return;
    }
    m.Insert(key, idx, n, hash, ());
  }

  method SetNHas(m: HashMap<()>, key: Bytes) returns (has: bool)
    requires m.Valid()
    modifies m`keybuf
    ensures m.Valid() && m.View() == old(m.View())
    ensures has <==> m.props.Form(key) in m.View().keys
  {
    var idx, n, hash := m.GetEntry(key);
    has := m.entries[idx].Used?;
  }
}
