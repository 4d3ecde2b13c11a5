/**
 Contracting passive nodes in place (_clear_passive, lib/fqlplan.c). Nodes are numbered as they
 were added and -1 is the null pointer. A rank shows that chains of passive nodes end.
 */
module PlanGraph {

  import opened Common

  ghost function NodesIn(order: seq<nat>): set<nat>
  {
    set v | v in order
  }

  datatype Graph = Graph(out0: seq<int>, out1: seq<int>, passive: seq<bool>) {

    predicate IsNode(v: int) {
      0 <= v < |passive|
    }

    predicate IsPassive(v: int) {
      IsNode(v) && passive[v]
    }

    /** A link leads to a node, to null, or from a passive node to a passive one of lower rank. */
    ghost predicate LinkOk(v: int, w: int, rank: seq<nat>)
      requires |rank| == |passive|
    {
      && (w == NULL || IsNode(w))
      && (IsPassive(v) && IsPassive(w) ==> rank[w] < rank[v])
    }

    ghost predicate LinksOk(v: int, rank: seq<nat>)
      requires |rank| == |passive| == |out0| == |out1|
    {
      IsNode(v) ==> LinkOk(v, out0[v], rank) && LinkOk(v, out1[v], rank)
    }

    ghost predicate Acyclic(rank: seq<nat>) {
      && |out0| == |out1| == |passive| == |rank|
      && forall v {:trigger LinksOk(v, rank)} :: LinksOk(v, rank)
    }

    ghost function Height(v: int, rank: seq<nat>): nat
      requires |rank| == |passive|
    {
      if IsPassive(v) then rank[v] + 1 else 0
    }

    /** Where the code goes on from a passive node met on the second branch. */
    function Second(v: int): int
      requires |out0| == |out1| == |passive| && IsNode(v)
    {
      if out1[v] != NULL then out1[v] else out0[v]
    }

    /** The first active node on the chain of first branches from v, or null. */
    ghost function First0(v: int, rank: seq<nat>): (w: int)
      requires Acyclic(rank) && (v == NULL || IsNode(v))
      ensures !IsPassive(w) && (w == NULL || IsNode(w))
      decreases Height(v, rank)
    {
      if IsPassive(v) then
        assert LinksOk(v, rank);
        First0(out0[v], rank)
      else v
    }

    /** The same along second branches, or first branches where there is no second one. */
    ghost function First1(v: int, rank: seq<nat>): (w: int)
      requires Acyclic(rank) && (v == NULL || IsNode(v))
      ensures !IsPassive(w) && (w == NULL || IsNode(w))
      decreases Height(v, rank)
    {
      if IsPassive(v) then
        assert LinksOk(v, rank);
        First1(Second(v), rank)
      else v
    }

    /** Node i with its two branches relinked, in this order. */
    ghost function Relinked(i: nat, rank: seq<nat>): (g: Graph)
      requires Acyclic(rank) && IsNode(i)
      ensures g.Acyclic(rank) && g.passive == passive
    {
      Relink0KeepsAcyclic(i, rank);
      var g := Relink0(i, rank);
      g.Relink1KeepsAcyclic(i, rank);
      g.Relink1(i, rank)
    }

    ghost function Relink0(i: nat, rank: seq<nat>): Graph
      requires Acyclic(rank) && IsNode(i)
    {
      assert LinksOk(i, rank);
      this.(out0 := out0[i := First0(out0[i], rank)])
    }

    ghost function Relink1(i: nat, rank: seq<nat>): Graph
      requires Acyclic(rank) && IsNode(i)
    {
      assert LinksOk(i, rank);
      this.(out1 := out1[i := First1(out1[i], rank)])
    }

    lemma Relink0KeepsAcyclic(i: nat, rank: seq<nat>)
      requires Acyclic(rank) && IsNode(i)
      ensures Relink0(i, rank).Acyclic(rank)
    {
      forall v ensures Relink0(i, rank).LinksOk(v, rank) {
        assert LinksOk(v, rank);
      }
    }

    lemma Relink1KeepsAcyclic(i: nat, rank: seq<nat>)
      requires Acyclic(rank) && IsNode(i)
      ensures Relink1(i, rank).Acyclic(rank)
    {
      forall v ensures Relink1(i, rank).LinksOk(v, rank) {
        assert LinksOk(v, rank);
      }
    }

    ghost predicate AreNodes(order: seq<nat>) {
      forall i {:trigger order[i]} :: 0 <= i < |order| ==> IsNode(order[i])
    }

    /** The relinking loop over the nodes in the given order. */
    ghost function RelinkAll(order: seq<nat>, rank: seq<nat>): (g: Graph)
      requires Acyclic(rank) && AreNodes(order)
      ensures g.Acyclic(rank) && g.passive == passive
      decreases |order|
    {
      if order == [] then this
      else
        assert IsNode(order[|order| - 1]);
        RelinkAll(order[..|order| - 1], rank).Relinked(order[|order| - 1], rank)
    }

    /**
     A passive node from which the walk goes on the same when the node has been relinked before
     it is met.
     */
    ghost predicate Plain(p: int, rank: seq<nat>)
      requires Acyclic(rank) && IsPassive(p)
    {
      assert LinksOk(p, rank);
      if out1[p] == NULL then First1(out0[p], rank) == First0(out0[p], rank)
      else First1(out1[p], rank) != NULL || First0(out0[p], rank) == NULL
    }

    /** All passive nodes on the walk from v are plain. */
    ghost predicate WalkIsPlain(v: int, rank: seq<nat>)
      requires Acyclic(rank) && (v == NULL || IsNode(v))
      decreases Height(v, rank)
    {
      IsPassive(v) ==>
        assert LinksOk(v, rank);
        Plain(v, rank) && WalkIsPlain(Second(v), rank)
    }

    /** How a partly relinked graph h stands to this one at node v. */
    ghost predicate Agrees(h: Graph, v: int, done: bool, rank: seq<nat>)
      requires Acyclic(rank) && h.Acyclic(rank) && h.passive == passive
    {
      IsNode(v) ==>
        assert LinksOk(v, rank) && h.LinksOk(v, rank);
        && (h.out0[v] == if done then First0(out0[v], rank) else out0[v])
        && (!done ==> h.out1[v] == out1[v])
        && (done ==> !IsPassive(h.out1[v]))
        && (out1[v] == NULL ==> h.out1[v] == NULL)
        && (done && WalkIsPlain(out1[v], rank) ==> h.out1[v] == First1(out1[v], rank))
    }

    ghost predicate AllAgree(h: Graph, done: set<nat>, rank: seq<nat>)
      requires Acyclic(rank) && h.Acyclic(rank) && h.passive == passive
    {
      forall v: nat {:trigger Agrees(h, v, v in done, rank)} :: Agrees(h, v, v in done, rank)
    }

    /** Relinking shortens chains of first branches but does not change where they lead. */
    lemma {:induction false} SameWalk0(h: Graph, done: set<nat>, v: int, rank: seq<nat>)
      requires Acyclic(rank) && h.Acyclic(rank) && h.passive == passive
      requires AllAgree(h, done, rank) && (v == NULL || IsNode(v))
      ensures h.First0(v, rank) == First0(v, rank)
      decreases Height(v, rank)
    {
      if IsPassive(v) {
        assert Agrees(h, v, v in done, rank) && LinksOk(v, rank);
        if v !in done {
          SameWalk0(h, done, out0[v], rank);
        }
      }
    }

    /** The same for second branches, as long as the nodes on the way are plain. */
    lemma {:induction false} SameWalk1(h: Graph, done: set<nat>, v: int, rank: seq<nat>)
      requires Acyclic(rank) && h.Acyclic(rank) && h.passive == passive
      requires AllAgree(h, done, rank) && (v == NULL || IsNode(v)) && WalkIsPlain(v, rank)
      ensures h.First1(v, rank) == First1(v, rank)
      decreases Height(v, rank)
    {
      if IsPassive(v) {
        assert Agrees(h, v, v in done, rank) && LinksOk(v, rank);
        if v !in done {
          SameWalk1(h, done, Second(v), rank);
        }
      }
    }

    /** A chain that starts below node i does not come back to it. */
    lemma {:induction false} NotThrough(i: nat, v: int, rank: seq<nat>)
      requires Acyclic(rank) && IsNode(i) && (v == NULL || IsNode(v))
      requires IsPassive(i) ==> Height(v, rank) <= rank[i]
      ensures Relink0(i, rank).Acyclic(rank)
      ensures Relink0(i, rank).First1(v, rank) == First1(v, rank)
      decreases Height(v, rank)
    {
      Relink0KeepsAcyclic(i, rank);
      if IsPassive(v) {
        assert LinksOk(v, rank);
        NotThrough(i, Second(v), rank);
      }
    }

    lemma StepAgrees(h: Graph, done: set<nat>, i: nat, rank: seq<nat>)
      requires Acyclic(rank) && h.Acyclic(rank) && h.passive == passive
      requires AllAgree(h, done, rank) && IsNode(i)
      ensures AllAgree(h.Relinked(i, rank), done + {i}, rank)
    {
      assert LinksOk(i, rank) && h.LinksOk(i, rank) && Agrees(h, i, i in done, rank);
      SameWalk0(h, done, h.out0[i], rank);
      h.NotThrough(i, h.out1[i], rank);
      if i !in done && WalkIsPlain(out1[i], rank) {
        SameWalk1(h, done, h.out1[i], rank);
      }
      forall v: nat ensures Agrees(h.Relinked(i, rank), v, v in done + {i}, rank) {
        assert Agrees(h, v, v in done, rank) && LinksOk(v, rank);
      }
    }

    lemma {:induction false} RelinkAllAgrees(order: seq<nat>, rank: seq<nat>)
      requires Acyclic(rank) && AreNodes(order)
      ensures AllAgree(RelinkAll(order, rank), NodesIn(order), rank)
      decreases |order|
    {
      if order == [] {
        forall v: nat ensures Agrees(this, v, false, rank) {
        }
      } else {
        var n := |order| - 1;
        assert IsNode(order[n]);
        RelinkAllAgrees(order[..n], rank);
        StepAgrees(RelinkAll(order[..n], rank), NodesIn(order[..n]), order[n], rank);
        assert NodesIn(order) == NodesIn(order[..n]) + {order[n]};
      }
    }

    /**
     After the loop, in whatever order it visits the nodes, no link leads to a passive node, and
     each first branch leads to the first active node of its old chain.
     */
    lemma Contraction(order: seq<nat>, rank: seq<nat>, v: nat)
      requires Acyclic(rank) && Covers(order) && IsNode(v)
      ensures var h := RelinkAll(order, rank);
              assert LinksOk(v, rank) && h.LinksOk(v, rank);
              && !IsPassive(h.out0[v]) && !IsPassive(h.out1[v])
              && h.out0[v] == First0(out0[v], rank)
              && (WalkIsPlain(out1[v], rank) ==> h.out1[v] == First1(out1[v], rank))
    {
      RelinkAllAgrees(order, rank);
      assert LinksOk(v, rank);
      assert v in order;
      assert Agrees(RelinkAll(order, rank), v, v in NodesIn(order), rank);
    }

    /** An order in which the loop could visit the nodes. */
    ghost predicate Covers(order: seq<nat>) {
      && (forall v {:trigger v in order} :: v in order <==> IsNode(v))
      && (forall i, j :: 0 <= i < j < |order| ==> order[i] != order[j])
      && AreNodes(order)
    }

    ghost predicate EndsAtFirst(order: seq<nat>, rank: seq<nat>, v: nat)
      requires Acyclic(rank) && Covers(order) && IsNode(v)
    {
      assert LinksOk(v, rank);
      RelinkAll(order, rank).out1[v] == First1(out1[v], rank)
    }

    /**
     The second branch of a node ends at the first active node of its chain, whatever the order
     of the nodes, if and only if every passive node on the chain is plain.
     */
    lemma SecondBranch(rank: seq<nat>, v: nat)
      requires Acyclic(rank) && IsNode(v)
      ensures LinksOk(v, rank)
      ensures WalkIsPlain(out1[v], rank) <==>
              forall order {:trigger EndsAtFirst(order, rank, v)} ::
                Covers(order) ==> EndsAtFirst(order, rank, v)
    {
      assert LinksOk(v, rank);
      if WalkIsPlain(out1[v], rank) {
        forall order | Covers(order) ensures EndsAtFirst(order, rank, v) {
          Contraction(order, rank, v);
        }
      } else {
        var p := NotPlainOnWalk(out1[v], rank);
        var rest := Others(|passive|, p, v);
        VisitedFirst(p, v, rank);
        assert forall i :: 0 <= i < |rest| ==> rest[i] in rest;
        RestLeavesAlone([p, v], rest, rank, v);
        FirstTwo(p, v);
        assert !EndsAtFirst([p, v] + rest, rank, v);
      }
    }

    lemma FirstTwo(p: nat, v: nat)
      requires IsNode(p) && IsNode(v) && p != v
      ensures Covers([p, v] + Others(|passive|, p, v))
    {
      var rest := Others(|passive|, p, v);
      var order := [p, v] + rest;
      assert forall i :: 0 <= i < |rest| ==> rest[i] in rest;
      forall u ensures u in order <==> IsNode(u) {
        assert order[0] == p && order[1] == v;
        assert u in order <==> u == p || u == v || u in rest;
      }
    }

    /** p lies on the walk from v. */
    ghost predicate OnWalk(v: int, p: int, rank: seq<nat>)
      requires Acyclic(rank) && (v == NULL || IsNode(v))
      decreases Height(v, rank)
    {
      IsPassive(v) && (v == p || (assert LinksOk(v, rank); OnWalk(Second(v), p, rank)))
    }

    lemma {:induction false} NotPlainOnWalk(v: int, rank: seq<nat>) returns (p: nat)
      requires Acyclic(rank) && (v == NULL || IsNode(v)) && !WalkIsPlain(v, rank)
      ensures IsPassive(p) && !Plain(p, rank) && OnWalk(v, p, rank)
      decreases Height(v, rank)
    {
      assert LinksOk(v, rank);
      if Plain(v, rank) {
        p := NotPlainOnWalk(Second(v), rank);
      } else {
        p := v;
      }
    }

    /** A node that is not plain, once relinked, sends every walk that meets it elsewhere. */
    lemma {:induction false} SentElsewhere(p: nat, v: int, rank: seq<nat>)
      requires Acyclic(rank) && IsPassive(p) && !Plain(p, rank)
      requires (v == NULL || IsNode(v)) && OnWalk(v, p, rank)
      ensures Relinked(p, rank).First1(v, rank) != First1(v, rank)
      decreases Height(v, rank)
    {
      var g := Relinked(p, rank);
      assert LinksOk(v, rank) && g.LinksOk(v, rank);
      if v == p {
        NotThrough(p, out1[p], rank);
      } else {
        SentElsewhere(p, Second(v), rank);
      }
    }

    lemma {:induction false} WalkGoesDown(v: int, p: int, rank: seq<nat>)
      requires Acyclic(rank) && (v == NULL || IsNode(v)) && OnWalk(v, p, rank)
      ensures IsPassive(p) && rank[p] <= rank[v]
      decreases Height(v, rank)
    {
      if v != p {
        assert LinksOk(v, rank);
        WalkGoesDown(Second(v), p, rank);
      }
    }

    /** Visiting p and then v fixes a second branch of v that is not the end of its chain. */
    lemma VisitedFirst(p: nat, v: nat, rank: seq<nat>)
      requires Acyclic(rank) && IsNode(v) && IsPassive(p) && !Plain(p, rank)
      requires LinksOk(v, rank) && OnWalk(out1[v], p, rank)
      ensures p != v && AreNodes([p, v])
      ensures RelinkAll([p, v], rank).out1[v] != First1(out1[v], rank)
    {
      WalkGoesDown(out1[v], p, rank);
      SentElsewhere(p, out1[v], rank);
      TwoSteps(p, v, rank);
      var g := Relinked(p, rank);
      assert g.LinksOk(v, rank);
      g.NotThrough(v, g.out1[v], rank);
    }

    lemma TwoSteps(p: nat, v: nat, rank: seq<nat>)
      requires Acyclic(rank) && IsNode(v) && IsNode(p)
      ensures AreNodes([p, v])
      ensures RelinkAll([p, v], rank) == Relinked(p, rank).Relinked(v, rank)
    {
      assert [p, v][..1] == [p] && [p][..0] == [];
      assert RelinkAll([p][..0], rank) == this;
      assert RelinkAll([p], rank) == Relinked(p, rank);
      assert RelinkAll([p, v], rank) == RelinkAll([p, v][..1], rank).Relinked([p, v][1], rank);
    }

    lemma {:induction false} RestLeavesAlone(order: seq<nat>, rest: seq<nat>, rank: seq<nat>, v: nat)
      requires Acyclic(rank) && IsNode(v)
      requires AreNodes(order) && AreNodes(rest) && v !in rest
      ensures AreNodes(order + rest)
      ensures RelinkAll(order + rest, rank).out1[v] == RelinkAll(order, rank).out1[v]
      decreases |rest|
    {
      if rest == [] {
        assert order + rest == order;
      } else {
        var n := |rest| - 1;
        assert IsNode(rest[n]);
        RestLeavesAlone(order, rest[..n], rank, v);
        assert (order + rest)[..|order| + n] == order + rest[..n];
      }
    }

    /** Passive nodes that use their first branch only are plain, and both walks are the same. */
    lemma {:induction false} FirstBranchOnly(rank: seq<nat>, v: int)
      requires Acyclic(rank) && (v == NULL || IsNode(v))
      requires forall p {:trigger out1[p]} :: 0 <= p < |out1| && passive[p] ==> out1[p] == NULL
      ensures First1(v, rank) == First0(v, rank) && WalkIsPlain(v, rank)
      decreases Height(v, rank)
    {
      if IsPassive(v) {
        assert LinksOk(v, rank);
        FirstBranchOnly(rank, out0[v]);
      }
    }
  }

  /** The nodes below n but two. */
  ghost function Others(n: nat, p: nat, v: nat): (s: seq<nat>)
    ensures forall u {:trigger u in s} :: u in s <==> 0 <= u < n && u != p && u != v
    ensures forall i, j :: 0 <= i < j < |s| ==> s[i] != s[j]
  {
    if n == 0 then []
    else
      var s := Others(n - 1, p, v);
      assert forall i :: 0 <= i < |s| ==> s[i] in s;
      if n - 1 == p || n - 1 == v then s else s + [n - 1]
  }
}
