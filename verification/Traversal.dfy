/**
 Walking the process graph (util/dgraph.c): breadth first over a work queue, where a node is
 marked when it leaves the queue and may therefore enter it several times.

 The queue is a sequence here; WalkRing says when the ring of the source behaves like it.
 */
module Traversal {
  import opened Common

  datatype Links = Links(out0: seq<int>, out1: seq<int>) {

    /** Links are null or lead to nodes. */
    ghost predicate Valid() {
      && |out0| == |out1|
      && (forall v {:trigger out0[v]} :: 0 <= v < |out0| ==> NULL <= out0[v] < |out0|)
      && (forall v {:trigger out1[v]} :: 0 <= v < |out1| ==> NULL <= out1[v] < |out1|)
    }

    predicate IsNode(v: int) {
      0 <= v < |out0|
    }

    predicate HasLink(v: int, w: int) {
      IsNode(v) && IsNode(w) && |out1| == |out0| && (out0[v] == w || out1[v] == w)
    }

    /** Each node after the first is an out of the one before. */
    ghost predicate IsPath(path: seq<nat>) {
      path != [] && IsNode(path[0])
      && forall i: nat :: 0 < i < |path| ==> LinkAt(path, i)
    }

    ghost predicate LinkAt(path: seq<nat>, i: nat)
      requires 0 < i < |path|
    {
      HasLink(path[i - 1], path[i])
    }

    ghost predicate Reaches(roots: seq<nat>, v: int) {
      exists path {:trigger IsPath(path)} :: IsPath(path) && path[0] in roots && path[|path| - 1] == v
    }

    lemma RootsAreReached(roots: seq<nat>, v: nat)
      requires IsNode(v) && v in roots
      ensures Reaches(roots, v)
    {
      assert IsPath([v]);
    }

    lemma LinksAreReached(roots: seq<nat>, v: nat, w: nat)
      requires Reaches(roots, v) && HasLink(v, w)
      ensures Reaches(roots, w)
    {
      var path :| IsPath(path) && path[0] in roots && path[|path| - 1] == v;
      var more := path + [w];
      forall i: nat | 0 < i < |more| ensures LinkAt(more, i) {
        if i < |path| {
          assert LinkAt(path, i);
        }
      }
      assert IsPath(more);
    }

    /** A set of nodes that holds the roots and is closed under links holds all that is reached. */
    lemma {:induction false} ReachedIsClosed(path: seq<nat>, closed: set<nat>)
      requires IsPath(path) && path[0] in closed
      requires forall v: nat, w: nat {:trigger HasLink(v, w)} :: v in closed && HasLink(v, w) ==> w in closed
      ensures path[|path| - 1] in closed
      decreases |path|
    {
      var n := |path| - 1;
      if n > 0 {
        forall i: nat | 0 < i < n ensures LinkAt(path[..n], i) {
          assert LinkAt(path, i);
        }
        ReachedIsClosed(path[..n], closed);
        assert LinkAt(path, n);
      }
    }
  }

  function Zeros(n: nat): (z: seq<nat>)
    ensures |z| == n && forall v {:trigger z[v]} :: 0 <= v < n ==> z[v] == 0
  {
    seq(n, _ => 0)
  }

  /** The first root is entered by hand. */
  lemma StartIsValid(g: Links, roots: seq<nat>)
    requires g.Valid() && roots != [] && forall r {:trigger r in roots} :: r in roots ==> g.IsNode(r)
    ensures Walk(Zeros(|g.out0|), [roots[0]], 1).Valid(g, roots)
  {
    assert roots[0] in roots;
    g.RootsAreReached(roots, roots[0]);
  }

  /** How often each node left the queue, the queue, and the next root to be entered. */
  datatype Walk = Walk(visits: seq<nat>, queue: seq<nat>, rootIdx: nat) {

    predicate Seen(v: int) {
      0 <= v < |visits| && visits[v] > 0
    }

    predicate Entered(v: int) {
      Seen(v) || v in queue
    }

    /** The out of a node just marked enters the queue while it is unmarked itself. */
    function Enter(w: int): Walk
    {
      if 0 <= w < |visits| && visits[w] == 0 then this.(queue := queue + [w]) else this
    }

    /** One node leaves the queue. */
    function Leave(g: Links): Walk
      requires queue != [] && queue[0] < |visits| && |visits| == |g.out0| == |g.out1|
    {
      var v := queue[0];
      Walk(visits[v := visits[v] + 1], queue[1..], rootIdx).Enter(g.out0[v]).Enter(g.out1[v])
    }

    /** Roots are entered up to the first that is not marked. */
    function NextRoot(roots: seq<nat>): Walk
      decreases |roots| - rootIdx
    {
      if queue != [] || rootIdx >= |roots| then this
      else
        var next := this.(rootIdx := rootIdx + 1);
        if Seen(roots[rootIdx]) then next.NextRoot(roots) else next.(queue := [roots[rootIdx]])
    }

    /** What is queued or marked is reached from the roots. */
    ghost predicate Sound(g: Links, roots: seq<nat>) {
      && g.Valid() && |visits| == |g.out0| && rootIdx <= |roots|
      && (forall r {:trigger r in roots} :: r in roots ==> g.IsNode(r))
      && (forall q {:trigger q in queue} :: q in queue ==> g.IsNode(q) && g.Reaches(roots, q))
      && (forall v {:trigger Seen(v)} :: Seen(v) ==> g.Reaches(roots, v))
    }

    /** And nothing that should have been entered was forgotten. */
    ghost predicate Closed(g: Links, roots: seq<nat>) {
      && rootIdx <= |roots|
      && (forall v, w {:trigger g.HasLink(v, w)} :: Seen(v) && g.HasLink(v, w) ==> Entered(w))
      && (forall i {:trigger roots[i]} :: 0 <= i < rootIdx ==> Entered(roots[i]))
    }

    ghost predicate Valid(g: Links, roots: seq<nat>) {
      Sound(g, roots) && Closed(g, roots)
    }

    /** The nodes that are not marked. */
    ghost function Unseen(): set<nat>
    {
      set v: nat | v < |visits| && visits[v] == 0
    }

    /** How many queue entries stand before the first unmarked one. */
    ghost function Ahead(q: seq<nat>): (n: nat)
      ensures n <= |q|
    {
      if q == [] || !Seen(q[0]) then 0 else 1 + Ahead(q[1..])
    }

    lemma {:induction false} AheadOfMore(q: seq<nat>, more: seq<nat>)
      requires forall w {:trigger w in more} :: w in more ==> !Seen(w)
      ensures Ahead(q + more) == Ahead(q)
    {
      if q == [] {
        assert q + more == more;
        assert more != [] ==> more[0] in more;
      } else {
        assert (q + more)[1..] == q[1..] + more;
        if Seen(q[0]) {
          AheadOfMore(q[1..], more);
        }
      }
    }

    lemma {:induction false} SameAhead(t: Walk, q: seq<nat>)
      requires forall v {:trigger Seen(v)} {:trigger t.Seen(v)} :: t.Seen(v) == Seen(v)
      ensures t.Ahead(q) == Ahead(q)
    {
      if q != [] {
        SameAhead(t, q[1..]);
      }
    }

    /** The outs a node sends into the queue when it leaves. */
    function Sent(g: Links): (sent: seq<nat>)
      requires queue != [] && queue[0] < |visits| && |visits| == |g.out0| == |g.out1|
      ensures Leave(g).queue == queue[1..] + sent
      ensures forall w {:trigger w in sent} :: w in sent ==> g.HasLink(queue[0], w) && !Leave(g).Seen(w)
    {
      var left := Walk(visits[queue[0] := visits[queue[0]] + 1], queue[1..], rootIdx);
      var one, both := left.Enter(g.out0[queue[0]]), Leave(g);
      both.queue[|queue| - 1..]
    }

    lemma LeaveKeepsSound(g: Links, roots: seq<nat>)
      requires Sound(g, roots) && queue != []
      ensures queue[0] < |visits| && Leave(g).Sound(g, roots)
    {
      var v := queue[0];
      assert v in queue;
      var t := Leave(g);
      LeaveMarks(g);
      forall q | q in t.queue ensures g.IsNode(q) && g.Reaches(roots, q) {
        if q in queue[1..] {
          assert q in queue;
        } else {
          assert q in Sent(g);
          g.LinksAreReached(roots, v, q);
        }
      }
    }

    lemma LeaveKeepsValid(g: Links, roots: seq<nat>)
      requires Valid(g, roots) && queue != []
      ensures queue[0] < |visits| && Leave(g).Valid(g, roots)
    {
      var v := queue[0];
      LeaveKeepsSound(g, roots);
      LeaveMarks(g);
      var t := Leave(g);
      assert queue == [v] + queue[1..];
      forall u ensures Entered(u) ==> t.Entered(u) {
        assert u in queue ==> u == v || u in queue[1..];
      }
      forall u, w | t.Seen(u) && g.HasLink(u, w) ensures t.Entered(w) {
        if u == v {
          assert t.Seen(w) || w in t.queue;
        }
      }
    }

    lemma LeaveMarks(g: Links)
      requires queue != [] && queue[0] < |visits| && |visits| == |g.out0| == |g.out1|
      ensures Leave(g).Unseen() == Unseen() - {queue[0]}
      ensures forall u {:trigger Leave(g).Seen(u)} :: Leave(g).Seen(u) <==> Seen(u) || u == queue[0]
    {
    }

    /** A node that leaves the queue is newly marked, or the first unmarked entry moves up. */
    lemma LeaveMakesProgress(g: Links)
      requires queue != [] && queue[0] < |visits| && |visits| == |g.out0| == |g.out1|
      ensures if Seen(queue[0]) then
                Leave(g).Unseen() == Unseen() && Leave(g).Ahead(Leave(g).queue) < Ahead(queue)
              else Leave(g).Unseen() == Unseen() - {queue[0]} && queue[0] in Unseen()
    {
      var t, sent := Leave(g), Sent(g);
      LeaveMarks(g);
      if Seen(queue[0]) {
        SameAhead(t, t.queue);
        AheadOfMore(queue[1..], sent);
      }
    }

    /** Only the root index and the queue have moved on. */
    lemma SameMarks(t: Walk, g: Links, roots: seq<nat>)
      requires Valid(g, roots) && queue == [] && t.visits == visits && t.Sound(g, roots)
      requires forall i {:trigger roots[i]} :: rootIdx <= i < t.rootIdx ==> t.Entered(roots[i])
      ensures t.Valid(g, roots)
    {
      forall v, w | t.Seen(v) && g.HasLink(v, w) ensures t.Entered(w) {
        assert Seen(v) && Entered(w);
      }
      forall i | 0 <= i < t.rootIdx ensures t.Entered(roots[i]) {
        assert i < rootIdx ==> Entered(roots[i]);
      }
    }

    lemma SkipKeepsSound(g: Links, roots: seq<nat>)
      requires Sound(g, roots) && queue == [] && rootIdx < |roots|
      ensures this.(rootIdx := rootIdx + 1).Sound(g, roots)
    {
      forall v | this.(rootIdx := rootIdx + 1).Seen(v) ensures g.Reaches(roots, v) {
        assert Seen(v);
      }
    }

    lemma EnterKeepsSound(g: Links, roots: seq<nat>)
      requires Sound(g, roots) && queue == [] && rootIdx < |roots|
      ensures this.(rootIdx := rootIdx + 1, queue := [roots[rootIdx]]).Sound(g, roots)
    {
      var t := this.(rootIdx := rootIdx + 1, queue := [roots[rootIdx]]);
      assert roots[rootIdx] in roots;
      g.RootsAreReached(roots, roots[rootIdx]);
      forall v | t.Seen(v) ensures g.Reaches(roots, v) {
        assert Seen(v);
      }
    }

    lemma SkipKeepsValid(g: Links, roots: seq<nat>)
      requires Valid(g, roots) && queue == [] && rootIdx < |roots| && Seen(roots[rootIdx])
      ensures this.(rootIdx := rootIdx + 1).Valid(g, roots)
    {
      SkipKeepsSound(g, roots);
      SameMarks(this.(rootIdx := rootIdx + 1), g, roots);
    }

    lemma EnterKeepsValid(g: Links, roots: seq<nat>)
      requires Valid(g, roots) && queue == [] && rootIdx < |roots|
      ensures this.(rootIdx := rootIdx + 1, queue := [roots[rootIdx]]).Valid(g, roots)
    {
      EnterKeepsSound(g, roots);
      SameMarks(this.(rootIdx := rootIdx + 1, queue := [roots[rootIdx]]), g, roots);
    }

    lemma {:induction false} NextRootFacts(roots: seq<nat>)
      requires rootIdx <= |roots|
      ensures NextRoot(roots).visits == visits && NextRoot(roots).rootIdx <= |roots|
      ensures queue != [] ==> NextRoot(roots) == this
      ensures NextRoot(roots).queue == [] ==> NextRoot(roots).rootIdx == |roots|
      ensures queue == [] && NextRoot(roots).queue != [] ==> !Seen(NextRoot(roots).queue[0])
      decreases |roots| - rootIdx
    {
      if queue == [] && rootIdx < |roots| && Seen(roots[rootIdx]) {
        this.(rootIdx := rootIdx + 1).NextRootFacts(roots);
      }
    }

    lemma {:induction false} NextRootKeepsValid(g: Links, roots: seq<nat>)
      requires Valid(g, roots)
      ensures NextRoot(roots).Valid(g, roots)
      decreases |roots| - rootIdx
    {
      if queue == [] && rootIdx < |roots| {
        if Seen(roots[rootIdx]) {
          SkipKeepsValid(g, roots);
          this.(rootIdx := rootIdx + 1).NextRootKeepsValid(g, roots);
          assert NextRoot(roots) == this.(rootIdx := rootIdx + 1).NextRoot(roots);
        } else {
          EnterKeepsValid(g, roots);
          assert NextRoot(roots) == this.(rootIdx := rootIdx + 1, queue := [roots[rootIdx]]);
        }
      }
    }

    lemma {:induction false} NextRootKeepsSound(g: Links, roots: seq<nat>)
      requires Sound(g, roots)
      ensures NextRoot(roots).Sound(g, roots)
      decreases |roots| - rootIdx
    {
      if queue == [] && rootIdx < |roots| {
        if Seen(roots[rootIdx]) {
          SkipKeepsSound(g, roots);
          this.(rootIdx := rootIdx + 1).NextRootKeepsSound(g, roots);
          assert NextRoot(roots) == this.(rootIdx := rootIdx + 1).NextRoot(roots);
        } else {
          EnterKeepsSound(g, roots);
          assert NextRoot(roots) == this.(rootIdx := rootIdx + 1, queue := [roots[rootIdx]]);
        }
      }
    }

    /** One call of dgraph_traverse; it returns the node that left the queue, or null. */
    ghost function Call(g: Links, roots: seq<nat>): (t: Walk)
      requires Sound(g, roots)
      ensures t.Sound(g, roots)
    {
      NextRootKeepsSound(g, roots);
      var next := NextRoot(roots);
      if next.queue == [] then next
      else
        next.LeaveKeepsSound(g, roots);
        next.Leave(g)
    }

    lemma CallKeepsValid(g: Links, roots: seq<nat>)
      requires Valid(g, roots)
      ensures Call(g, roots).Valid(g, roots)
    {
      NextRootKeepsValid(g, roots);
      if NextRoot(roots).queue != [] {
        NextRoot(roots).LeaveKeepsValid(g, roots);
      }
    }

    /** A call that returns a node takes the walk nearer to its end. */
    lemma CallMakesProgress(g: Links, roots: seq<nat>)
      requires Sound(g, roots) && NextRoot(roots).queue != []
      ensures |Call(g, roots).Unseen()| <= |Unseen()|
      ensures |Call(g, roots).Unseen()| == |Unseen()| ==> Call(g, roots).Ahead(Call(g, roots).queue) < Ahead(queue)
    {
      var next := NextRoot(roots);
      NextRootKeepsSound(g, roots);
      NextRootFacts(roots);
      next.LeaveKeepsSound(g, roots);
      next.LeaveMakesProgress(g);
      assert next.Unseen() == Unseen();
      if !next.Seen(next.queue[0]) {
        assert |next.Unseen() - {next.queue[0]}| == |next.Unseen()| - 1;
      }
    }

    lemma PathIsSeen(g: Links, roots: seq<nat>, path: seq<nat>)
      requires Closed(g, roots) && queue == [] && rootIdx == |roots|
      requires g.IsPath(path) && path[0] in roots
      ensures Seen(path[|path| - 1])
    {
      var closed := set u: nat | u < |visits| && Seen(u);
      var i :| 0 <= i < |roots| && roots[i] == path[0];
      assert Entered(roots[i]);
      forall u: nat, w: nat | u in closed && g.HasLink(u, w) ensures w in closed {
        assert Entered(w);
      }
      g.ReachedIsClosed(path, closed);
    }

    /** When nothing is left to enter, the marked nodes are exactly the reached ones. */
    lemma EndIsComplete(g: Links, roots: seq<nat>, v: nat)
      requires Valid(g, roots) && queue == [] && rootIdx == |roots| && g.IsNode(v)
      ensures Seen(v) <==> g.Reaches(roots, v)
    {
      if g.Reaches(roots, v) {
        var path :| g.IsPath(path) && path[0] in roots && path[|path| - 1] == v;
        PathIsSeen(g, roots, path);
      }
    }
  }
}
