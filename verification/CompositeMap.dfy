/**
 The composite table (util/hashmap.c): a key is a vector of strings. The components are stored
 back to back in the key buffer, and a second vector says where each one lies.
 */
module CompositeMap {
  import opened Assoc
  import opened Common
  import opened Keys
  import opened Probing
  import opened HashTable

  datatype KeyLoc = KeyLoc(idx: nat, len: nat)

  /** One factor of the composite hash: the position and the component's own hash. */
  function Mixed(hash: nat, position: nat, part: nat): nat
  {
    (hash * ((position * part) % WORD64)) % WORD64
  }

  function CompositeHash(p: Props, parts: seq<Bytes>): nat
  {
    if parts == [] then 1
    else Mixed(CompositeHash(p, parts[..|parts| - 1]), |parts|, p.KeyHash(parts[|parts| - 1]))
  }

  /** The stored form of a composite key. */
  function FormAll(p: Props, key: seq<Bytes>): (f: seq<Bytes>)
    ensures |f| == |key|
    ensures forall i {:trigger f[i]} :: 0 <= i < |key| ==> f[i] == p.Form(key[i])
  {
    seq(|key|, i requires 0 <= i < |key| => p.Form(key[i]))
  }

  /** The component lies at this place of the key buffer. */
  ghost predicate Lies(stored: Bytes, loc: KeyLoc, part: Bytes) {
    loc.idx + loc.len <= |stored| && stored[loc.idx..loc.idx + loc.len] == part
  }

  ghost predicate LieAll(stored: Bytes, locs: seq<KeyLoc>, parts: seq<Bytes>) {
    && |locs| == |parts|
    && forall j {:trigger Lies(stored, locs[j], parts[j])} :: 0 <= j < |locs| ==>
         Lies(stored, locs[j], parts[j])
  }

  /** The key of an entry is found through its slice of the location vector. */
  ghost predicate StoresParts(stored: Bytes, locs: seq<KeyLoc>, keys: seq<seq<Bytes>>, e: Entry) {
    e.Used? ==>
      && e.valIdx < |keys|
      && e.keyIdx + e.keyLen <= |locs|
      && LieAll(stored, locs[e.keyIdx..e.keyIdx + e.keyLen], keys[e.valIdx])
  }

  ghost predicate StoresAllParts(stored: Bytes, locs: seq<KeyLoc>, keys: seq<seq<Bytes>>, es: seq<Entry>) {
    forall i {:trigger StoresParts(stored, locs, keys, es[i])} :: 0 <= i < |es| ==>
      StoresParts(stored, locs, keys, es[i])
  }

  lemma LieAllMore(stored: Bytes, more: Bytes, locs: seq<KeyLoc>, parts: seq<Bytes>)
    requires LieAll(stored, locs, parts) && stored <= more
    ensures LieAll(more, locs, parts)
  {
    forall j | 0 <= j < |locs| ensures Lies(more, locs[j], parts[j]) {
      assert Lies(stored, locs[j], parts[j]);
      SliceOfPrefix(more, |stored|, locs[j].idx, locs[j].len);
    }
  }

  lemma StoresPartsMore(stored: Bytes, more: Bytes, locs: seq<KeyLoc>, temp: seq<KeyLoc>,
                        keys: seq<seq<Bytes>>, es: seq<Entry>, i: nat, e: Entry, norm: seq<Bytes>)
    requires StoresAllParts(stored, locs, keys, es) && i < |es| && stored <= more
    requires e.Used? && e.valIdx == |keys| && e.keyIdx == |locs| && e.keyLen == |temp|
    requires LieAll(more, temp, norm)
    ensures StoresAllParts(more, locs + temp, keys + [norm], es[i := e])
  {
    var grown := es[i := e];
    forall j | 0 <= j < |es| ensures StoresParts(more, locs + temp, keys + [norm], grown[j]) {
      if j == i {
        assert (locs + temp)[|locs|..|locs| + |temp|] == temp;
      } else {
        assert StoresParts(stored, locs, keys, es[j]);
        if es[j].Used? {
          var of := locs[es[j].keyIdx..es[j].keyIdx + es[j].keyLen];
          LieAllMore(stored, more, of, keys[es[j].valIdx]);
          assert (locs + temp)[es[j].keyIdx..es[j].keyIdx + es[j].keyLen] == of;
        }
      }
    }
  }

  lemma StoresPartsGrown(stored: Bytes, locs: seq<KeyLoc>, keys: seq<seq<Bytes>>, es: seq<Entry>,
                         grown: seq<Entry>)
    requires StoresAllParts(stored, locs, keys, es)
    requires forall j {:trigger grown[j]} :: 0 <= j < |grown| && grown[j].Used? ==> grown[j] in es
    ensures StoresAllParts(stored, locs, keys, grown)
  {
    forall j | 0 <= j < |grown| ensures StoresParts(stored, locs, keys, grown[j]) {
      if grown[j].Used? {
        var i :| 0 <= i < |es| && es[i] == grown[j];
        assert StoresParts(stored, locs, keys, es[i]);
      }
    }
  }

  /** The loop over the components: each is folded into the buffer after the one before. */
  method FoldParts(p: Props, keybuf: seq<Byte>, head: nat, key: seq<Bytes>)
    returns (written: seq<Byte>, temp: seq<KeyLoc>, keyLen: nat, hash: nat)
    requires 0 < |keybuf| && head <= |keybuf|
    ensures 0 < |written| && head + keyLen <= |written| && written[..head] == keybuf[..head]
    ensures LieAll(written[..head + keyLen], temp, FormAll(p, key))
    ensures hash == CompositeHash(p, FormAll(p, key))
  {
    written, temp, keyLen, hash := keybuf, [], 0, 1;
    ghost var f := FormAll(p, key);
    for i := 0 to |key|
      invariant 0 < |written| && head + keyLen <= |written| && written[..head] == keybuf[..head]
      invariant LieAll(written[..head + keyLen], temp, f[..i])
      invariant hash == CompositeHash(p, f[..i])
    {
      var n;
      written, n, hash := FoldPart(p, written, head, keyLen, key[i], i + 1, hash, temp, f[..i]);
      temp := temp + [KeyLoc(head + keyLen, n)];
      keyLen := keyLen + n;
      assert f[..i + 1] == f[..i] + [p.Form(key[i])];
    }
    assert f[..|key|] == f;
  }

  /** One component, folded in after the ones before it. */
  method FoldPart(p: Props, keybuf: seq<Byte>, head: nat, keyLen: nat, part: Bytes, position: nat,
                  hash: nat, ghost temp: seq<KeyLoc>, ghost done: seq<Bytes>)
    returns (written: seq<Byte>, n: nat, mixed: nat)
    requires 0 < |keybuf| && head + keyLen <= |keybuf| && position == |done| + 1
    requires LieAll(keybuf[..head + keyLen], temp, done) && hash == CompositeHash(p, done)
    ensures 0 < |written| && head + keyLen + n <= |written| && written[..head] == keybuf[..head]
    ensures LieAll(written[..head + keyLen + n], temp + [KeyLoc(head + keyLen, n)], done + [p.Form(part)])
    ensures mixed == CompositeHash(p, done + [p.Form(part)])
  {
    var reserved := Reserve(keybuf, head + keyLen, |part|);
    var h;
    written, n, h := HashInto(p, reserved, head + keyLen, part);
    mixed := Mixed(hash, position, h);
    ghost var before, after := keybuf[..head + keyLen], written[..head + keyLen + n];
    assert after[..head + keyLen] == written[..head + keyLen] == reserved[..head + keyLen] == before;
    assert written[..head] == after[..head + keyLen][..head];
    assert after[head + keyLen..head + keyLen + n] == written[head + keyLen..head + keyLen + n];
    LieAllMore(before, after, temp, done);
    assert (done + [p.Form(part)])[..|done|] == done;
    PartLies(after, temp + [KeyLoc(head + keyLen, n)], done + [p.Form(part)]);
  }

  lemma PartLies(stored: Bytes, locs: seq<KeyLoc>, parts: seq<Bytes>)
    requires |locs| == |parts| > 0 && LieAll(stored, locs[..|locs| - 1], parts[..|parts| - 1])
    requires Lies(stored, locs[|locs| - 1], parts[|parts| - 1])
    ensures LieAll(stored, locs, parts)
  {
    forall j | 0 <= j < |locs| ensures Lies(stored, locs[j], parts[j]) {
      if j < |locs| - 1 {
        assert Lies(stored, locs[..|locs| - 1][j], parts[..|parts| - 1][j]);
      }
    }
  }

  /**
   _composite_eq: component by component, length and bytes. Only reached for a key of the entry's
   own number of components.
   */
  method CompositeEq(keybuf: seq<Byte>, stored: seq<KeyLoc>, temp: seq<KeyLoc>,
                     ghost parts: seq<Bytes>, ghost norm: seq<Bytes>)
    returns (equal: bool)
    requires LieAll(keybuf, stored, parts) && LieAll(keybuf, temp, norm) && |stored| == |temp|
    ensures equal <==> parts == norm
  {
    for i := 0 to |stored|
      invariant parts[..i] == norm[..i]
    {
      assert Lies(keybuf, stored[i], parts[i]) && Lies(keybuf, temp[i], norm[i]);
      if stored[i].len != temp[i].len
         || keybuf[stored[i].idx..stored[i].idx + stored[i].len]
            != keybuf[temp[i].idx..temp[i].idx + temp[i].len]
      {
        return false;
      }
      assert parts[..i + 1] == parts[..i] + [parts[i]] && norm[..i + 1] == norm[..i] + [norm[i]];
    }
    assert parts[..|stored|] == parts && norm[..|stored|] == norm;
    return true;
  }

  /** The negated probe condition on a used entry. */
  method PartsMatch(e: Entry, keybuf: seq<Byte>, locs: seq<KeyLoc>, temp: seq<KeyLoc>, hash: nat,
                 ghost p: Props, ghost head: nat, ghost keys: seq<seq<Bytes>>, ghost norm: seq<Bytes>)
    returns (equal: bool)
    requires e.Used? && head <= |keybuf| && StoresParts(keybuf[..head], locs, keys, e)
    requires e.hash == CompositeHash(p, keys[e.valIdx]) && hash == CompositeHash(p, norm)
    requires LieAll(keybuf, temp, norm)
    ensures equal <==> keys[e.valIdx] == norm
  {
    if e.keyLen != |temp| || e.hash != hash {
      return false;
    }
    ghost var of := locs[e.keyIdx..e.keyIdx + e.keyLen];
    LieAllMore(keybuf[..head], keybuf, of, keys[e.valIdx]);
    equal := CompositeEq(keybuf, locs[e.keyIdx..e.keyIdx + e.keyLen], temp, keys[e.valIdx], norm);
  }

  method ProbeParts(entries: array<Entry>, keybuf: seq<Byte>, locs: seq<KeyLoc>, temp: seq<KeyLoc>,
                    hash: nat, ghost ix: TableIndex<seq<Bytes>>, ghost p: Props, ghost head: nat,
                    ghost norm: seq<Bytes>)
    returns (idx: nat)
    requires ix.es == entries[..] && head <= |keybuf|
    requires StoresAllParts(keybuf[..head], locs, ix.keys, ix.es)
    requires (forall k {:trigger ix.hashOf(k)} :: ix.hashOf(k) == CompositeHash(p, k)) && |ix.keys| < |ix.es|
    requires hash == CompositeHash(p, norm) && LieAll(keybuf, temp, norm)
    ensures ix.Found(norm, idx)
  {
    CoveredSize(ix.slots, |ix.keys|);
    ghost var free := SomeSlotIsFree(ix.es, ix.slots);
    idx := Home(hash, entries.Length);
    while entries[idx].Used?
      invariant ix.Passed(norm, Home(hash, |ix.es|), idx)
      decreases ix.Distance(idx, free)
    {
      assert ix.Describes(ix.es[idx]) && StoresParts(keybuf[..head], locs, ix.keys, ix.es[idx]);
      var equal := PartsMatch(entries[idx], keybuf, locs, temp, hash, p, head, ix.keys, norm);
      if equal {
        ix.UsedIsFound(norm, idx);
        return;
      }
      ix.ProbeOn(norm, Home(hash, |ix.es|), idx, free);
      idx := NextSlot(idx, entries.Length);
    }
    assert entries[idx] == ix.es[idx];
    ix.ProbeEnds(norm, idx);
  }

  class CompositeMap<V> {
    const props: Props
    var entries: array<Entry>
    var keybuf: seq<Byte>
    var keybufHead: nat
    var keys: seq<KeyLoc>
    var keyTemp: seq<KeyLoc>
    var values: seq<V>
    ghost var ix: TableIndex<seq<Bytes>>

    ghost predicate Represented()
      reads this, entries
    {
      && entries[..] == ix.es
      && 0 < |keybuf| && keybufHead <= |keybuf|
      && StoresAllParts(keybuf[..keybufHead], keys, ix.keys, ix.es)
    }

    ghost predicate Indexed()
      reads this, entries
    {
      && Represented()
      && (forall k {:trigger ix.hashOf(k)} :: ix.hashOf(k) == CompositeHash(props, k))
      && |ix.keys| == |values| && IsPowerOf2(|ix.es|)
    }

    ghost predicate Valid()
      reads this, entries
    {
      Indexed() && 10 * |ix.keys| <= 9 * |ix.es|
    }

    /** The table as an association list. */
    ghost function View(): (a: Assoc<seq<Bytes>, V>)
      reads this
    {
      Assoc(ix.keys, values)
    }

    constructor (size: nat, props: Props)
      ensures Valid() && fresh(entries)
      ensures this.props == props && View() == Assoc([], [])
    {
      this.props := props;
      var limit := NextPowerOf2(size);
      entries := new Entry[limit](_ => Free);
      keybuf := seq(limit, _ => 0);
      keybufHead, values, keys, keyTemp := 0, [], [], [];
      ix := Index(k => CompositeHash(props, k), seq(limit, _ => Free), [], map[]);
    }

    /** The key was folded into the buffer and idx is its slot or its free slot. */
    ghost predicate Located(key: seq<Bytes>, idx: nat, keyLen: nat, hash: nat)
      reads this
    {
      && keybufHead + keyLen <= |keybuf|
      && LieAll(keybuf[..keybufHead + keyLen], keyTemp, FormAll(props, key))
      && hash == CompositeHash(props, FormAll(props, key))
      && ix.Found(FormAll(props, key), idx)
    }

    /** _composite_get_entry: the head of the key buffer is put back before returning. */
    method GetEntry(key: seq<Bytes>) returns (idx: nat, keyLen: nat, hash: nat)
      requires Valid()
      modifies `keybuf, `keyTemp
      ensures Represented()
      ensures Located(key, idx, keyLen, hash)
    {
      keybuf, keyTemp, keyLen, hash := FoldParts(props, keybuf, keybufHead, key);
      LieAllMore(keybuf[..keybufHead + keyLen], keybuf, keyTemp, FormAll(props, key));
      idx := ProbeParts(entries, keybuf, keys, keyTemp, hash, ix, props, keybufHead, FormAll(props, key));
    }

    /** The branch of compositemap_set for a new key. */
    method Insert(key: seq<Bytes>, idx: nat, keyLen: nat, hash: nat, v: V)
      requires Valid() && Located(key, idx, keyLen, hash) && ix.es[idx].Free?
      modifies this, entries
      ensures Valid() && (entries == old(entries) || fresh(entries))
      ensures entries.Length == Grown(old(entries.Length), |values|)
      ensures View() == Assoc(old(ix.keys) + [FormAll(props, key)], old(values) + [v])
    {
      Take(key, idx, keyLen, hash, v);
      if 10 * |values| > 9 * entries.Length {
        Grow();
      }
    }

    /** The free entry takes the key and the value. */
    method Take(key: seq<Bytes>, idx: nat, keyLen: nat, hash: nat, v: V)
      requires Valid() && Located(key, idx, keyLen, hash) && ix.es[idx].Free?
      modifies `ix, `keybufHead, `keys, `values, entries
      ensures Indexed() && |ix.keys| <= |ix.es|
      ensures View() == Assoc(old(ix.keys) + [FormAll(props, key)], old(values) + [v])
    {
      ghost var norm := FormAll(props, key);
      var e := Used(hash, |values|, |keys|, |key|);
      ix.WithKeepsOk(idx, e, norm);
      StoresPartsMore(keybuf[..keybufHead], keybuf[..keybufHead + keyLen], keys, keyTemp,
                      ix.keys, ix.es, idx, e, norm);
      ix := ix.With(idx, e, norm);
      entries[idx] := e;
      keybufHead := keybufHead + keyLen;
      keys := keys + keyTemp;
      values := values + [v];
      assert entries[..] == ix.es;
    }

    method Grow()
      requires Indexed() && |ix.keys| <= |ix.es|
      modifies `entries, `ix
      ensures Valid() && fresh(entries) && ix.keys == old(ix.keys) && entries.Length == 2 * old(entries.Length)
    {
      ghost var es := ix.es;
      entries, ix := IncreaseSize(entries, ix);
      StoresPartsGrown(keybuf[..keybufHead], keys, ix.keys, es, ix.es);
    }

    /** compositemap_set. */
    method Set(key: seq<Bytes>, data: V)
      requires Valid()
      modifies this, entries
      ensures Valid() && (entries == old(entries) || fresh(entries))
      ensures entries.Length == Grown(old(entries.Length), |values|)
      ensures View() == old(View()).Put(FormAll(props, key), data)
    {
      var idx, keyLen, hash := GetEntry(key);
      if entries[idx].Free? {
        Insert(key, idx, keyLen, hash, data);
      } else {
        values := values[entries[idx].valIdx := data];
      }
    }

    /** compositemap_get. */
    method Get(key: seq<Bytes>) returns (v: Option<V>)
      requires Valid()
      modifies `keybuf, `keyTemp
      ensures Valid() && View() == old(View())
      ensures v == View().Get(FormAll(props, key))
    {
      var idx, keyLen, hash := GetEntry(key);
      if entries[idx].Free? {
        return None;
      }
      v := Some(values[entries[idx].valIdx]);
    }
  }
}
