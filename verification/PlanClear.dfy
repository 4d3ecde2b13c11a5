/** _clear_passive (lib/fqlplan.c) and dgraph_remove (util/dgraph.c) on the links themselves. */
module PlanClear {
  import opened Common
  import opened PlanGraph

  ghost function ActiveOf(g: Graph, nodes: seq<nat>): (s: seq<nat>)
    ensures forall v {:trigger v in s} :: v in s <==> v in nodes && !g.IsPassive(v)
  {
    if nodes == [] then []
    else
      var last := nodes[|nodes| - 1];
      ActiveOf(g, nodes[..|nodes| - 1]) + if g.IsPassive(last) then [] else [last]
  }

  lemma ActiveOfMore(g: Graph, all: seq<nat>, d: nat)
    requires d < |all|
    ensures ActiveOf(g, all[..d + 1]) == ActiveOf(g, all[..d]) + if g.IsPassive(all[d]) then [] else [all[d]]
  {
    assert all[..d + 1][..d] == all[..d];
  }

  class ProcessGraph {
    const out0: array<int>
    const out1: array<int>
    const passive: seq<bool>
    var nodes: seq<nat>

    constructor (n: nat, passive: seq<bool>)
      requires |passive| == n
      ensures out0.Length == out1.Length == n && out0 != out1 && fresh(out0) && fresh(out1)
      ensures this.passive == passive && nodes == UpTo(n)
      ensures forall i :: 0 <= i < n ==> out0[i] == out1[i] == NULL
    {
      out0 := new int[n](_ => NULL);
      out1 := new int[n](_ => NULL);
      this.passive := passive;
      nodes := UpTo(n);
    }

    ghost function View(): Graph
      reads this, out0, out1
    {
      Graph(out0[..], out1[..], passive)
    }

    ghost predicate Valid(rank: seq<nat>)
      reads this, out0, out1
    {
      out0 != out1 && View().Acyclic(rank)
    }

    /** The loop over a node's first branch. */
    method Relink0(i: nat, ghost rank: seq<nat>)
      requires Valid(rank) && View().IsNode(i)
      modifies out0
      ensures Valid(rank) && View() == old(View()).Relink0(i, rank)
    {
      ghost var g := View();
      g.Relink0KeepsAcyclic(i, rank);
      assert g.LinksOk(i, rank);
      while out0[i] != NULL
        invariant out0[..] == g.out0[i := out0[i]] && g.LinkOk(i, out0[i], rank)
        invariant g.First0(out0[i], rank) == g.First0(g.out0[i], rank)
        decreases g.Height(out0[i], rank), out0[i] != NULL
      {
        if passive[out0[i]] {
          assert g.LinksOk(out0[i], rank);
          out0[i] := out0[out0[i]];
        } else {
          break;
        }
      }
    }

    /** The loop over a node's second branch. */
    method Relink1(i: nat, ghost rank: seq<nat>)
      requires Valid(rank) && View().IsNode(i)
      modifies out1
      ensures Valid(rank) && View() == old(View()).Relink1(i, rank)
    {
      ghost var g := View();
      g.Relink1KeepsAcyclic(i, rank);
      assert g.LinksOk(i, rank);
      while out1[i] != NULL
        invariant out1[..] == g.out1[i := out1[i]] && g.LinkOk(i, out1[i], rank)
        invariant g.First1(out1[i], rank) == g.First1(g.out1[i], rank)
        decreases g.Height(out1[i], rank), out1[i] != NULL
      {
        if passive[out1[i]] {
          assert g.LinksOk(out1[i], rank);
          if out1[out1[i]] != NULL {
            out1[i] := out1[out1[i]];
          } else {
            out1[i] := out0[out1[i]];
          }
        } else {
          break;
        }
      }
    }

    method RelinkNode(i: nat, ghost rank: seq<nat>)
      requires Valid(rank) && View().IsNode(i)
      modifies out0, out1
      ensures Valid(rank) && View() == old(View()).Relinked(i, rank)
    {
      Relink0(i, rank);
      Relink1(i, rank);
    }

    /** dgraph_remove: links to the node are cut and it leaves the vector. */
    method Remove(k: nat)
      requires k < |nodes| && out0 != out1
      requires forall j {:trigger nodes[j]} :: 0 <= j < |nodes| ==>
                 nodes[j] < out0.Length && nodes[j] < out1.Length
      modifies `nodes, out0, out1
      ensures nodes == old(nodes)[..k] + old(nodes)[k + 1..]
      ensures forall v {:trigger out0[v]} :: 0 <= v < out0.Length ==>
                out0[v] == if v in old(nodes) && old(out0[v]) == old(nodes)[k] then NULL else old(out0[v])
      ensures forall v {:trigger out1[v]} :: 0 <= v < out1.Length ==>
                out1[v] == if v in old(nodes) && old(out1[v]) == old(nodes)[k] then NULL else old(out1[v])
    {
      var node := nodes[k];
      for i := 0 to |nodes|
        invariant nodes == old(nodes)
        invariant forall v {:trigger out0[v]} :: 0 <= v < out0.Length ==>
                    out0[v] == if v in nodes[..i] && old(out0[v]) == node then NULL else old(out0[v])
        invariant forall v {:trigger out1[v]} :: 0 <= v < out1.Length ==>
                    out1[v] == if v in nodes[..i] && old(out1[v]) == node then NULL else old(out1[v])
      {
        var it := nodes[i];
        assert nodes[..i + 1] == nodes[..i] + [it];
        if out0[it] == node {
          out0[it] := NULL;
        }
        if out1[it] == node {
          out1[it] := NULL;
        }
      }
      assert nodes[..|nodes|] == nodes;
      nodes := nodes[..k] + nodes[k + 1..];
    }

    /** No link leads to a passive node. */
    ghost predicate Skipped()
      reads this, out0, out1
    {
      && out0 != out1 && out0.Length == out1.Length == |passive|
      && (forall j {:trigger nodes[j]} :: 0 <= j < |nodes| ==> nodes[j] < |passive|)
      && (forall v {:trigger out0[v]} :: 0 <= v < |passive| ==> !View().IsPassive(out0[v]))
      && (forall v {:trigger out1[v]} :: 0 <= v < |passive| ==> !View().IsPassive(out1[v]))
    }

    /** So removing a passive node severs none. */
    method RemoveOne(k: nat)
      requires Skipped() && k < |nodes| && passive[nodes[k]]
      modifies `nodes, out0, out1
      ensures Skipped() && View() == old(View())
      ensures nodes == old(nodes)[..k] + old(nodes)[k + 1..]
    {
      ghost var g := View();
      Remove(k);
      assert out0[..] == g.out0 && out1[..] == g.out1;
    }

    /** The removal loop. */
    method RemovePassive()
      requires Skipped()
      modifies `nodes, out0, out1
      ensures Skipped() && View() == old(View())
      ensures nodes == ActiveOf(View(), old(nodes))
    {
      ghost var g, all, d := View(), nodes, 0;
      var i := 0;
      while i < |nodes|
        invariant i <= |nodes| && View() == g && Skipped() && d <= |all|
        invariant nodes[..i] == ActiveOf(g, all[..d]) && nodes[i..] == all[d..]
        decreases |nodes| - i
      {
        assert nodes[i] == nodes[i..][0] == all[d];
        ActiveOfMore(g, all, d);
        ghost var kept, rest := nodes[..i], nodes[i + 1..];
        assert rest == nodes[i..][1..] == all[d..][1..] == all[d + 1..];
        assert nodes[..i + 1] == kept + [nodes[i]];
        if passive[nodes[i]] {
          RemoveOne(i);
          assert nodes[..i] == kept && nodes[i..] == rest;
        } else {
          i := i + 1;
        }
        d := d + 1;
      }
      assert all[..|all|] == all;
    }

    /** The relinking loop. */
    method RelinkNodes(ghost rank: seq<nat>)
      requires Valid(rank) && nodes == UpTo(|passive|)
      modifies out0, out1
      ensures Valid(rank) && View() == old(View()).RelinkAll(UpTo(|passive|), rank)
    {
      ghost var g, order := View(), UpTo(|passive|);
      for i := 0 to |nodes|
        invariant Valid(rank) && nodes == order && View() == g.RelinkAll(order[..i], rank)
      {
        RelinkNode(nodes[i], rank);
        assert order[..i + 1][..i] == order[..i];
      }
      assert order[..|order|] == order;
    }

    /**
     _clear_passive. Only the active nodes stay, in their order; each first branch leads to the
     first active node of its old chain, and each second branch does where its chain is plain.
     */
    method ClearPassive(ghost rank: seq<nat>)
      requires Valid(rank) && nodes == UpTo(|passive|)
      modifies `nodes, out0, out1
      ensures Valid(rank) && nodes == ActiveOf(View(), UpTo(|passive|))
      ensures View() == old(View()).RelinkAll(UpTo(|passive|), rank)
      ensures AllCleared(old(View()), View(), rank)
    {
      AllAreCleared(View(), rank);
      ghost var g := View();
      RelinkNodes(rank);
      forall v | 0 <= v < |passive| ensures !g.IsPassive(out0[v]) && !g.IsPassive(out1[v]) {
        assert ClearedAt(g, View(), v, rank);
      }
      RemovePassive();
    }
  }

  /** What the contraction makes of node v. */
  ghost predicate ClearedAt(g: Graph, h: Graph, v: int, rank: seq<nat>)
    requires g.Acyclic(rank) && h.Acyclic(rank)
  {
    g.IsNode(v) && h.IsNode(v) ==>
      && g.LinksOk(v, rank)
      && h.out0[v] == g.First0(g.out0[v], rank)
      && !g.IsPassive(h.out1[v])
      && (g.WalkIsPlain(g.out1[v], rank) ==> h.out1[v] == g.First1(g.out1[v], rank))
  }

  ghost predicate AllCleared(g: Graph, h: Graph, rank: seq<nat>)
    requires g.Acyclic(rank) && h.Acyclic(rank)
  {
    forall v {:trigger ClearedAt(g, h, v, rank)} :: ClearedAt(g, h, v, rank)
  }

  lemma AllAreCleared(g: Graph, rank: seq<nat>)
    requires g.Acyclic(rank)
    ensures g.AreNodes(UpTo(|g.passive|)) && AllCleared(g, g.RelinkAll(UpTo(|g.passive|), rank), rank)
  {
    var order := UpTo(|g.passive|);
    forall v ensures v in order <==> g.IsNode(v) {
      if g.IsNode(v) {
        assert order[v] == v;
      }
    }
    assert g.AreNodes(order);
    forall v ensures ClearedAt(g, g.RelinkAll(order, rank), v, rank) {
      if g.IsNode(v) {
        g.Contraction(order, rank, v);
        assert g.LinksOk(v, rank);
      }
    }
  }
}
