/**
 Record groups: doubly linked lists of nodes (util/node.c). Nodes are numbered as they lie in
 the node array and -1 is the null pointer.
 */
module NodeLists {

  import opened Common

  function HeadOf(group: seq<nat>): int
  {
    if group == [] then NULL else group[0]
  }

  /** The group less its i-th node. */
  function Without(group: seq<nat>, i: nat): (rest: seq<nat>)
    requires i < |group|
    ensures |rest| == |group| - 1
    ensures forall j {:trigger rest[j]} :: 0 <= j < |rest| ==> rest[j] == group[if j < i then j else j + 1]
  {
    group[..i] + group[i + 1..]
  }

  /** The i-th node's links name its neighbours. */
  ghost predicate ChainedAt(next: seq<int>, prev: seq<int>, group: seq<nat>, i: int)
    requires |next| == |prev|
  {
    0 <= i < |group| ==>
      && group[i] < |next|
      && (next[group[i]] == if i + 1 < |group| then group[i + 1] else NULL)
      && (prev[group[i]] == if i > 0 then group[i - 1] else NULL)
  }

  ghost predicate Apart(group: seq<nat>, i: int, j: int) {
    0 <= i < j < |group| ==> group[i] != group[j]
  }

  /** The group's nodes are chained in order by next and in reverse by prev. */
  ghost predicate Chained(next: seq<int>, prev: seq<int>, group: seq<nat>)
  {
    && |next| == |prev|
    && (forall i, j {:trigger Apart(group, i, j)} :: Apart(group, i, j))
    && (forall i {:trigger ChainedAt(next, prev, group, i)} :: ChainedAt(next, prev, group, i))
  }

  /** Joining a node's two neighbours and clearing its links leaves the rest chained. */
  lemma CutOut(next: seq<int>, prev: seq<int>, group: seq<nat>, i: nat, next1: seq<int>, prev1: seq<int>)
    requires Chained(next, prev, group) && i < |group| && |next1| == |prev1| == |next|
    requires ChainedAt(next, prev, group, i)
    requires forall n {:trigger next1[n]} :: 0 <= n < |next| ==>
               next1[n] == if n == group[i] then NULL
                           else if i > 0 && n == group[i - 1] then next[group[i]] else next[n]
    requires forall n {:trigger prev1[n]} :: 0 <= n < |prev| ==>
               prev1[n] == if n == group[i] then NULL
                           else if i + 1 < |group| && n == group[i + 1] then prev[group[i]] else prev[n]
    ensures Chained(next1, prev1, Without(group, i))
  {
    var rest := Without(group, i);
    forall j, k ensures Apart(rest, j, k) {
      assert Apart(group, if j < i then j else j + 1, if k < i then k else k + 1);
    }
    forall j ensures ChainedAt(next1, prev1, rest, j) {
      if 0 <= j < |rest| {
        var k := if j < i then j else j + 1;
        assert ChainedAt(next, prev, group, k);
        assert Apart(group, i, k) && Apart(group, k, i);
        assert Apart(group, i - 1, k) && Apart(group, k, i - 1);
        assert Apart(group, i + 1, k) && Apart(group, k, i + 1);
      }
    }
  }

  lemma PutInFront(next: seq<int>, prev: seq<int>, group: seq<nat>, node: nat, next1: seq<int>, prev1: seq<int>)
    requires Chained(next, prev, group) && node !in group && node < |next| == |next1| == |prev1|
    requires forall n {:trigger next1[n]} :: 0 <= n < |next| ==>
               next1[n] == if n == node then HeadOf(group) else next[n]
    requires forall n {:trigger prev1[n]} :: 0 <= n < |prev| ==>
               prev1[n] == if n == node then NULL else if n == HeadOf(group) then node else prev[n]
    ensures Chained(next1, prev1, [node] + group)
  {
    var more := [node] + group;
    forall j, k ensures Apart(more, j, k) {
      assert Apart(group, j - 1, k - 1);
    }
    forall j ensures ChainedAt(next1, prev1, more, j) {
      assert ChainedAt(next, prev, group, j - 1);
      assert Apart(group, 0, j - 1);
    }
  }

  lemma PutAtBack(next: seq<int>, prev: seq<int>, group: seq<nat>, node: nat, next1: seq<int>, prev1: seq<int>)
    requires Chained(next, prev, group) && node !in group && node < |next| == |next1| == |prev1|
    requires forall n {:trigger next1[n]} :: 0 <= n < |next| ==>
               next1[n] == if n == node then NULL
                           else if group != [] && n == group[|group| - 1] then node else next[n]
    requires forall n {:trigger prev1[n]} :: 0 <= n < |prev| ==>
               prev1[n] == if n != node then prev[n]
                           else if group != [] then group[|group| - 1] else NULL
    ensures Chained(next1, prev1, group + [node])
  {
    var more := group + [node];
    forall j, k ensures Apart(more, j, k) {
      assert Apart(group, j, k);
    }
    forall j ensures ChainedAt(next1, prev1, more, j) {
      assert ChainedAt(next, prev, group, j);
      assert Apart(group, j, |group| - 1);
    }
  }

  /** A list depends on the links of its own nodes only. */
  lemma ChainedAgrees(next: seq<int>, prev: seq<int>, next1: seq<int>, prev1: seq<int>, group: seq<nat>)
    requires Chained(next, prev, group) && |next1| == |prev1| == |next|
    requires forall i {:trigger group[i]} :: 0 <= i < |group| && group[i] < |next| ==>
               next1[group[i]] == next[group[i]] && prev1[group[i]] == prev[group[i]]
    ensures Chained(next1, prev1, group)
  {
    forall j ensures ChainedAt(next1, prev1, group, j) {
      assert ChainedAt(next, prev, group, j);
    }
  }

  class Links {
    const next: array<int>
    const prev: array<int>

    constructor (n: nat)
      ensures fresh(next) && fresh(prev) && next.Length == prev.Length == n && next != prev
      ensures forall i :: 0 <= i < n ==> next[i] == prev[i] == NULL
    {
      next := new int[n](_ => NULL);
      prev := new int[n](_ => NULL);
    }

    ghost predicate Valid()
    {
      next != prev && next.Length == prev.Length
    }

    /** The list from head runs through exactly these nodes, both ways. */
    ghost predicate Linked(head: int, group: seq<nat>)
      requires Valid()
      reads next, prev
    {
      head == HeadOf(group) && Chained(next[..], prev[..], group)
    }

    ghost predicate Loose(n: int)
      requires Valid()
      reads next, prev
    {
      0 <= n < next.Length && next[n] == NULL && prev[n] == NULL
    }

    /** node_back. */
    method Back(head: int, ghost group: seq<nat>) returns (back: int)
      requires Valid() && Linked(head, group)
      ensures back == if group == [] then NULL else group[|group| - 1]
    {
      if head == NULL {
        return NULL;
      }
      back := head;
      ghost var i := 0;
      assert ChainedAt(next[..], prev[..], group, 0);
      while back != NULL && next[back] != NULL
        invariant 0 <= i < |group| && back == group[i]
        invariant ChainedAt(next[..], prev[..], group, i)
        decreases |group| - i
      {
        back := next[back];
        i := i + 1;
        assert ChainedAt(next[..], prev[..], group, i);
      }
    }

    /** record_at: the first record of a group that belongs to a source (lib/record.c). */
    method RecordAt(first: int, ghost group: seq<nat>, srcIdx: seq<int>, idx: int) returns (rec: int)
      requires Valid() && Linked(first, group) && |srcIdx| == next.Length
      ensures rec == NULL ==> forall j :: 0 <= j < |group| && group[j] < |srcIdx| ==> srcIdx[group[j]] != idx
      ensures rec != NULL ==>
                exists i :: 0 <= i < |group| && group[i] == rec && rec < |srcIdx| && srcIdx[rec] == idx
                  && forall j :: 0 <= j < i && group[j] < |srcIdx| ==> srcIdx[group[j]] != idx
    {
      var head := first;
      ghost var i := 0;
      assert ChainedAt(next[..], prev[..], group, 0);
      while head != NULL
        invariant 0 <= i <= |group| && head == if i < |group| then group[i] else NULL
        invariant ChainedAt(next[..], prev[..], group, i)
        invariant forall j :: 0 <= j < i && group[j] < |srcIdx| ==> srcIdx[group[j]] != idx
        decreases |group| - i
      {
        rec := head;
        head := next[head];
        if srcIdx[rec] == idx {
          return;
        }
        i := i + 1;
        assert ChainedAt(next[..], prev[..], group, i);
      }
      rec := NULL;
    }

    /** node_export: cuts a node out of the middle or an end of its list. */
    method Export(node: nat, ghost head: int, ghost group: seq<nat>, ghost i: nat)
      requires Valid() && Linked(head, group) && i < |group| && group[i] == node
      modifies next, prev
      ensures Loose(node) && Linked(HeadOf(Without(group, i)), Without(group, i))
      ensures forall n :: 0 <= n < next.Length && n !in group ==>
                next[n] == old(next[n]) && prev[n] == old(prev[n])
    {
      ghost var n0, p0 := next[..], prev[..];
      assert ChainedAt(n0, p0, group, i) && ChainedAt(n0, p0, group, i - 1) && ChainedAt(n0, p0, group, i + 1);
      assert Apart(group, i - 1, i) && Apart(group, i, i + 1) && Apart(group, i - 1, i + 1);
      if next[node] != NULL {
        prev[next[node]] := prev[node];
      }
      if prev[node] != NULL {
        next[prev[node]] := next[node];
      }
      next[node] := NULL;
      prev[node] := NULL;
      CutOut(n0, p0, group, i, next[..], prev[..]);
      assert ChainedAt(next[..], prev[..], Without(group, i), 0);
    }

    /** node_pop_export: the first node, cut out of the list, and the head that is left. */
    method PopExport(head: int, ghost group: seq<nat>) returns (node: int, rest: int)
      requires Valid() && Linked(head, group) && group != []
      modifies next, prev
      ensures node == group[0] && Loose(node) && Linked(rest, group[1..])
      ensures forall n :: 0 <= n < next.Length && n !in group ==>
                next[n] == old(next[n]) && prev[n] == old(prev[n])
    {
      assert ChainedAt(next[..], prev[..], group, 0);
      node, rest := head, next[head];
      Export(node, head, group, 0);
      assert Without(group, 0) == group[1..];
    }

    /** node_push_import: puts a loose node in front. */
    method PushImport(head: int, node: nat, ghost group: seq<nat>) returns (newHead: int)
      requires Valid() && Linked(head, group) && Loose(node) && node !in group
      modifies next, prev
      ensures newHead == node && Linked(newHead, [node] + group)
      ensures forall n :: 0 <= n < next.Length && n != node && n !in group ==>
                next[n] == old(next[n]) && prev[n] == old(prev[n])
    {
      ghost var n0, p0 := next[..], prev[..];
      assert ChainedAt(n0, p0, group, 0);
      next[node] := head;
      if head != NULL {
        prev[head] := node;
      }
      prev[node] := NULL;
      newHead := node;
      PutInFront(n0, p0, group, node, next[..], prev[..]);
    }

    /** node_enqueue_import: puts a loose node at the back. */
    method EnqueueImport(head: int, node: nat, ghost group: seq<nat>) returns (newHead: int)
      requires Valid() && Linked(head, group) && Loose(node) && node !in group
      modifies next, prev
      ensures Linked(newHead, group + [node])
      ensures forall n :: 0 <= n < next.Length && n != node && n !in group ==>
                next[n] == old(next[n]) && prev[n] == old(prev[n])
    {
      var back := Back(head, group);
      ghost var n0, p0 := next[..], prev[..];
      assert ChainedAt(n0, p0, group, |group| - 1) && ChainedAt(n0, p0, group, 0);
      if back != NULL {
        prev[node] := back;
        next[back] := node;
      }
      newHead := if head == NULL then node else head;
      next[node] := NULL;
      PutAtBack(n0, p0, group, node, next[..], prev[..]);
    }
  }
}
