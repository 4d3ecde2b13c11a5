/**
 The flat store of byte strings (util/flex.c): all bytes in one vector, and a vector of pairs that
 says where each element lies.
 */
module FlexStore {
  import opened Keys

  datatype Pair = Pair(idx: nat, len: nat)

  function End(pairs: seq<Pair>): nat
  {
    if pairs == [] then 0 else pairs[|pairs| - 1].idx + pairs[|pairs| - 1].len
  }

  /** Each element starts where the one before it ends. */
  ghost predicate Contiguous(pairs: seq<Pair>) {
    forall i {:trigger pairs[i]} :: 0 <= i < |pairs| ==> pairs[i].idx == End(pairs[..i])
  }

  lemma EndsGrow(pairs: seq<Pair>, i: nat)
    requires Contiguous(pairs) && i <= |pairs|
    ensures End(pairs[..i]) <= End(pairs)
    decreases |pairs| - i
  {
    if i < |pairs| {
      assert pairs[..i + 1][i] == pairs[i];
      EndsGrow(pairs, i + 1);
    } else {
      assert pairs[..i] == pairs;
    }
  }

  ghost function Elements(raw: Bytes, pairs: seq<Pair>): (e: seq<Bytes>)
    requires Contiguous(pairs) && |raw| == End(pairs)
    ensures |e| == |pairs|
    decreases |pairs|
  {
    if pairs == [] then []
    else
      var n := |pairs| - 1;
      EndsGrow(pairs, n);
      PrefixIsContiguous(pairs, n);
      Elements(raw[..pairs[n].idx], pairs[..n]) + [raw[pairs[n].idx..]]
  }

  lemma PrefixIsContiguous(pairs: seq<Pair>, n: nat)
    requires Contiguous(pairs) && n <= |pairs|
    ensures Contiguous(pairs[..n])
  {
    forall i | 0 <= i < n ensures pairs[..n][i].idx == End(pairs[..n][..i]) {
      assert pairs[..n][..i] == pairs[..i];
    }
  }

  lemma {:induction false} ElementAt(raw: Bytes, pairs: seq<Pair>, i: nat)
    requires Contiguous(pairs) && |raw| == End(pairs) && i < |pairs|
    ensures pairs[i].idx + pairs[i].len <= |raw|
    ensures Elements(raw, pairs)[i] == raw[pairs[i].idx..pairs[i].idx + pairs[i].len]
    decreases |pairs|
  {
    var n := |pairs| - 1;
    EndsGrow(pairs, n);
    PrefixIsContiguous(pairs, n);
    if i < n {
      ElementAt(raw[..pairs[n].idx], pairs[..n], i);
    }
  }

  /**
   The elements determine both vectors, so a store taken back to its former elements is back in
   its former state to the byte.
   */
  lemma {:induction false} ElementsDetermine(raw: Bytes, pairs: seq<Pair>, raw1: Bytes, pairs1: seq<Pair>)
    requires Contiguous(pairs) && |raw| == End(pairs)
    requires Contiguous(pairs1) && |raw1| == End(pairs1)
    requires Elements(raw, pairs) == Elements(raw1, pairs1)
    ensures raw == raw1 && pairs == pairs1
    decreases |pairs|
  {
    var n := |pairs| - 1;
    assert |pairs| == |pairs1|;
    if n >= 0 {
      EndsGrow(pairs, n);
      EndsGrow(pairs1, n);
      PrefixIsContiguous(pairs, n);
      PrefixIsContiguous(pairs1, n);
      var e, e1 := Elements(raw, pairs), Elements(raw1, pairs1);
      assert e[..n] == Elements(raw[..pairs[n].idx], pairs[..n]);
      assert e1[..n] == Elements(raw1[..pairs1[n].idx], pairs1[..n]);
      assert e[n] == e1[n];
      ElementsDetermine(raw[..pairs[n].idx], pairs[..n], raw1[..pairs1[n].idx], pairs1[..n]);
      assert raw == raw[..pairs[n].idx] + e[n] && raw1 == raw1[..pairs1[n].idx] + e1[n];
      assert pairs == pairs[..n] + [pairs[n]] && pairs1 == pairs1[..n] + [pairs1[n]];
    }
  }

  /** The two vectors of a store whose elements lie back to back. */
  datatype Vectors = Vectors(raw: Bytes, pairs: seq<Pair>)

  type Store = v: Vectors | Contiguous(v.pairs) && |v.raw| == End(v.pairs)
    witness Vectors([], [])

  class Flex {
    var raw: Bytes
    var pairs: seq<Pair>
    ghost var store: Store

    ghost predicate Valid()
      reads this
    {
      store == Vectors(raw, pairs)
    }

    ghost function View(): (view: seq<Bytes>)
      requires Valid()
      reads this
      ensures |view| == |pairs|
    {
      Elements(store.raw, store.pairs)
    }

    constructor ()
      ensures Valid() && View() == []
    {
      raw, pairs := [], [];
      store := Vectors([], []);
    }

    /** flex_push_back. */
    method PushBack(data: Bytes)
      requires Valid()
      modifies this
      ensures Valid() && View() == old(View()) + [data]
    {
      ghost var raw0, pairs0 := raw, pairs;
      pairs := pairs + [Pair(|raw|, |data|)];
      raw := raw + data;
      forall i | 0 <= i < |pairs| ensures pairs[i].idx == End(pairs[..i]) {
        assert pairs[..i] == pairs0[..i];
        assert i == |pairs0| ==> pairs[..i] == pairs0;
      }
      assert pairs[..|pairs0|] == pairs0 && raw[..|raw0|] == raw0 && raw[|raw0|..] == data;
      store := Vectors(raw, pairs);
    }

    /** flex_pop_back: bytes are given back only when the element is the last in the byte vector. */
    method PopBack()
      requires Valid() && pairs != []
      modifies this
      ensures Valid() && View() == old(View())[..|old(View())| - 1]
    {
      ghost var n := |pairs| - 1;
      PrefixIsContiguous(pairs, n);
      EndsGrow(pairs, n);
      assert pairs[n].idx == End(pairs[..n]);
      assert View()[..n] == Elements(raw[..pairs[n].idx], pairs[..n]);
      var pair := pairs[|pairs| - 1];
      if pair.idx + pair.len == |raw| {
        raw := raw[..pair.idx];
      }
      pairs := pairs[..|pairs| - 1];
      store := Vectors(raw, pairs);
    }

    /** flex_resize to no more elements than there are. */
    method Resize(size: nat)
      requires Valid() && size <= |pairs|
      modifies this
      ensures Valid() && View() == old(View())[..size]
    {
      while |pairs| > size
        invariant size <= |pairs| <= |old(View())| && Valid() && View() == old(View())[..|pairs|]
      {
        PopBack();
      }
    }

    /** flex_pair_at. */
    method PairAt(idx: nat) returns (text: Bytes)
      requires Valid() && idx < |pairs|
      ensures text == View()[idx]
    {
      ElementAt(raw, pairs, idx);
      text := raw[pairs[idx].idx..pairs[idx].idx + pairs[idx].len];
    }
  }
}
