/**
 The life of pooled records (lib/fqlprocesses.c, lib/record.c, lib/fqlplan.c): taken from a root
 ring, perhaps copied, recycled by reference count.

 Nodes are numbered as they lie in the plan's node array. The status of a node and the node that
 owns the text its fields point at are history; the source keeps neither.
 */
module RecordPool {
  import opened Assoc
  import opened Common

  datatype Status = InRing | Idle | Live | Released

  datatype Node = Node(refCount: nat, copyOf: Option<nat>, root: nat, status: Status, owner: nat)

  datatype Pool = Pool(nodes: seq<Node>, rings: seq<seq<nat>>) {

    /** The records whose rec_copy_node points at m. */
    ghost function Copies(m: nat): set<nat>
    {
      set i: nat | i < |nodes| && nodes[i].copyOf == Some(m)
    }

    /**
     The reference count is one while the node is not released, plus one for every copy of it.
     A released node has copies, and no node in a ring has any.
     */
    ghost predicate Counted(m: nat)
      requires m < |nodes|
    {
      var n := nodes[m];
      match n.status
      case InRing => n.refCount == 1 && n.copyOf == None && Copies(m) == {}
      case Idle => n.refCount == 1 && n.copyOf == None && Copies(m) == {}
      case Live => n.refCount == 1 + |Copies(m)|
      case Released => n.refCount == |Copies(m)| > 0 && n.copyOf == None
    }

    /** Each ring holds, once, exactly the nodes at home there that are in a ring. */
    ghost predicate RingHolds(k: nat)
      requires k < |rings|
    {
      && (forall i, j :: 0 <= i < j < |rings[k]| ==> rings[k][i] != rings[k][j])
      && (forall m: nat :: m in rings[k] <==>
            m < |nodes| && nodes[m].status == InRing && nodes[m].root == k)
    }

    /** Only live nodes are copies, of nodes other than themselves. */
    ghost predicate Sourced(m: nat)
      requires m < |nodes|
    {
      && nodes[m].root < |rings|
      && (nodes[m].copyOf.Some? ==>
            nodes[m].status == Live && nodes[m].copyOf.value < |nodes| && nodes[m].copyOf.value != m)
    }

    ghost predicate Valid() {
      && (forall m: nat {:trigger Counted(m)} {:trigger Sourced(m)} ::
            m < |nodes| ==> Counted(m) && Sourced(m))
      && (forall k: nat {:trigger RingHolds(k)} :: k < |rings| ==> RingHolds(k))
    }

    /** fifo_get on a root ring; the reader then fills the record with its own text. */
    function Take(k: nat): Pool
      requires k < |rings| && rings[k] != [] && rings[k][0] < |nodes|
    {
      var m := rings[k][0];
      Pool(nodes[m := nodes[m].(status := Live, owner := m)], rings[k := rings[k][1..]])
    }

    /** record_copy. */
    function Copy(dst: nat, src: nat): Pool
      requires dst < |nodes| && src < |nodes|
    {
      var counted := nodes[src := nodes[src].(refCount := nodes[src].refCount + 1)];
      Pool(counted[dst := counted[dst].(copyOf := Some(src), owner := nodes[src].owner)], rings)
    }

    /** The last part of recycling: one reference less, and home when it was the last one. */
    function Drop(m: nat): Pool
      requires m < |nodes| && nodes[m].refCount > 0 && nodes[m].root < |rings|
    {
      var n := nodes[m];
      if n.refCount == 1 then
        Pool(nodes[m := n.(refCount := 1, status := InRing)],
             rings[n.root := rings[n.root] + [m]])
      else Pool(nodes[m := n.(refCount := n.refCount - 1, status := Released)], rings)
    }

    /** The first part: a copy gives up its reference to its source. */
    function Detach(m: nat): Pool
      requires Valid() && m < |nodes|
    {
      match nodes[m].copyOf
      case None => this
      case Some(src) =>
        CopyIsCounted(m, src);
        var dropped := if nodes[src].refCount == 1 then Drop(src)
                       else Pool(nodes[src := nodes[src].(refCount := nodes[src].refCount - 1)], rings);
        Pool(dropped.nodes[m := dropped.nodes[m].(copyOf := None)], dropped.rings)
    }

    lemma CopyIsCounted(m: nat, src: nat)
      requires Valid() && m < |nodes| && nodes[m].copyOf == Some(src)
      ensures src < |nodes| && nodes[src].refCount > 0
      ensures nodes[src].refCount == 1 ==> nodes[src].status == Released && Copies(src) == {m}
      ensures nodes[src].status == Live || nodes[src].status == Released
      ensures src != m && nodes[src].root < |rings|
    {
      assert Sourced(m) && Counted(src) && Sourced(src);
      assert m in Copies(src);
      assert Copies(src) != {};
      if nodes[src].refCount == 1 {
        var rest := Copies(src) - {m};
        assert |rest| == |Copies(src)| - 1;
      }
    }

    /** fqlprocess_recycle on one node. */
    function Recycle(m: nat): Pool
      requires Valid() && m < |nodes| && nodes[m].status == Live
    {
      DetachKeepsValid(m);
      var s := Detach(m);
      assert s.Counted(m) && s.Sourced(m);
      s.Drop(m)
    }

    /** Where no node's source changes, no node's copies do. */
    lemma SameCopies(s: Pool, r: nat)
      requires |s.nodes| == |nodes|
      requires forall i :: 0 <= i < |nodes| ==> s.nodes[i].copyOf == nodes[i].copyOf
      ensures s.Copies(r) == Copies(r)
    {
    }

    /** Changing one node's source changes the copies of the two sources only. */
    lemma CopiesAfter(s: Pool, m: nat, r: nat)
      requires m < |nodes| == |s.nodes|
      requires forall i :: 0 <= i < |nodes| && i != m ==> s.nodes[i].copyOf == nodes[i].copyOf
      ensures s.nodes[m].copyOf == Some(r) ==> s.Copies(r) == Copies(r) + {m}
      ensures s.nodes[m].copyOf != Some(r) ==> s.Copies(r) == Copies(r) - {m}
      ensures m in Copies(r) <==> nodes[m].copyOf == Some(r)
    {
    }

    lemma TakeKeepsValid(k: nat)
      requires Valid() && k < |rings| && rings[k] != []
      ensures rings[k][0] < |nodes| && nodes[rings[k][0]].status == InRing && Take(k).Valid()
    {
      var m := rings[k][0];
      assert RingHolds(k) && m in rings[k];
      var s := Take(k);
      forall r: nat | r < |nodes| ensures s.Counted(r) && s.Sourced(r) {
        assert Counted(r) && Sourced(r);
        SameCopies(s, r);
      }
      forall j: nat | j < |rings| ensures s.RingHolds(j) {
        assert RingHolds(j);
        if j == k {
          assert rings[k] == [m] + s.rings[k];
          assert forall x :: x in rings[k] <==> x == m || x in s.rings[k];
        }
      }
    }

    lemma CopyKeepsValid(dst: nat, src: nat)
      requires Valid() && dst < |nodes| && src < |nodes| && dst != src
      requires nodes[dst].status == Live && nodes[dst].copyOf == None && nodes[src].status == Live
      ensures Copy(dst, src).Valid()
    {
      var s := Copy(dst, src);
      forall r: nat | r < |nodes| ensures s.Counted(r) && s.Sourced(r) {
        assert Counted(r) && Sourced(r);
        CopiesAfter(s, dst, r);
        CopyCounts(s, dst, src, r);
      }
      SameRings(s);
    }

    lemma CopyCounts(s: Pool, dst: nat, src: nat, r: nat)
      requires dst < |nodes| && src < |nodes| && r < |nodes| && s == Copy(dst, src) && Counted(r)
      requires nodes[src].status == Live && nodes[dst].status == Live && dst != src
      requires s.Copies(r) == (if r == src then Copies(r) + {dst} else Copies(r) - {dst})
      requires dst !in Copies(r)
      ensures s.Counted(r)
    {
      if r == src {
        assert |s.Copies(r)| == |Copies(r)| + 1;
      } else {
        assert s.Copies(r) == Copies(r);
      }
    }

    /** Rings are undisturbed while no node moves in or out. */
    lemma SameRings(s: Pool)
      requires Valid() && |s.nodes| == |nodes| && s.rings == rings
      requires forall i :: 0 <= i < |nodes| ==>
                 (s.nodes[i].root == nodes[i].root
                  && (s.nodes[i].status == InRing <==> nodes[i].status == InRing))
      ensures forall j: nat {:trigger s.RingHolds(j)} :: j < |s.rings| ==> s.RingHolds(j)
    {
      forall j: nat | j < |rings| ensures s.RingHolds(j) {
        assert RingHolds(j);
      }
    }

    /** A node that comes home goes to the end of its own ring. */
    lemma HomeRing(s: Pool, m: nat)
      requires Valid() && |s.nodes| == |nodes| && m < |nodes| && nodes[m].root < |rings|
      requires nodes[m].status != InRing && s.nodes[m].status == InRing
      requires s.rings == rings[nodes[m].root := rings[nodes[m].root] + [m]]
      requires forall i :: 0 <= i < |nodes| ==>
                 (s.nodes[i].root == nodes[i].root
                  && (i != m ==> (s.nodes[i].status == InRing <==> nodes[i].status == InRing)))
      ensures forall j: nat {:trigger s.RingHolds(j)} :: j < |s.rings| ==> s.RingHolds(j)
    {
      forall j: nat | j < |rings| ensures s.RingHolds(j) {
        assert RingHolds(j);
      }
    }

    /** A live node that is no copy is dropped for good, or stays behind for its copies. */
    lemma DropKeepsValid(m: nat)
      requires Valid() && m < |nodes| && nodes[m].status == Live && nodes[m].copyOf == None
      ensures nodes[m].refCount > 0 && nodes[m].root < |rings| && Drop(m).Valid()
    {
      assert Counted(m) && Sourced(m);
      var s := Drop(m);
      forall r: nat | r < |nodes| ensures s.Counted(r) && s.Sourced(r) {
        assert Counted(r) && Sourced(r);
        SameCopies(s, r);
      }
      if nodes[m].refCount == 1 { HomeRing(s, m); } else { SameRings(s); }
    }

    lemma DetachKeepsValid(m: nat)
      requires Valid() && m < |nodes| && nodes[m].status == Live
      ensures var s := Detach(m);
              && s.Valid() && |s.nodes| == |nodes| && |s.rings| == |rings|
              && s.nodes[m] == nodes[m].(copyOf := None)
    {
      if nodes[m].copyOf.Some? {
        var s, src := Detach(m), nodes[m].copyOf.value;
        CopyIsCounted(m, src);
        forall r: nat | r < |nodes| ensures s.Counted(r) && s.Sourced(r) {
          assert Counted(r) && Sourced(r);
          CopiesAfter(s, m, r);
        }
        if nodes[src].refCount == 1 { HomeRing(s, src); } else { SameRings(s); }
      }
    }

    lemma RecycleKeepsValid(m: nat)
      requires Valid() && m < |nodes| && nodes[m].status == Live
      ensures Recycle(m).Valid()
    {
      DetachKeepsValid(m);
      Detach(m).DropKeepsValid(m);
    }

    /* ---- Room in the rings ---- */

    /** The nodes whose home is ring k: as many as the ring has slots. */
    ghost function AtHome(k: nat): set<nat>
    {
      set m: nat | m < |nodes| && nodes[m].root == k
    }

    /** fifo_set_full leaves one node of every ring out of circulation for ever. */
    ghost predicate HasIdle(k: nat) {
      exists m :: m in AtHome(k) && nodes[m].status == Idle
    }

    ghost predicate OneIdle() {
      forall k: nat {:trigger HasIdle(k)} :: k < |rings| ==> HasIdle(k)
    }

    /** A ring never has more than its slots less one; a node coming home finds a further one free. */
    lemma RingHasRoom(k: nat, m: nat)
      requires Valid() && OneIdle() && k < |rings|
      ensures |rings[k]| + 1 <= |AtHome(k)|
      ensures m in AtHome(k) && nodes[m].status != InRing && nodes[m].status != Idle ==>
                |rings[k]| + 2 <= |AtHome(k)|
    {
      assert RingHolds(k) && HasIdle(k);
      var idle :| idle in AtHome(k) && nodes[idle].status == Idle;
      NoDuplicates(rings[k]);
      var others := AtHome(k) - {idle};
      assert |others| == |AtHome(k)| - 1;
      SubsetSize(Elements(rings[k]), others);
      if m in others && nodes[m].status != InRing {
        assert |others - {m}| == |others| - 1;
        SubsetSize(Elements(rings[k]), others - {m});
      }
    }

    /** When no node is live every circulated node is back in its ring: nothing has leaked. */
    lemma AllReturned(m: nat)
      requires Valid() && m < |nodes|
      requires forall i :: 0 <= i < |nodes| ==> nodes[i].status != Live
      ensures nodes[m].status == InRing || nodes[m].status == Idle
      ensures nodes[m].status == InRing ==> nodes[m].root < |rings| && m in rings[nodes[m].root]
    {
      assert Counted(m) && Sourced(m);
      forall i: nat | i < |nodes| ensures nodes[i].copyOf == None {
        assert Sourced(i);
      }
      assert Copies(m) == {};
      if nodes[m].status == InRing {
        assert RingHolds(nodes[m].root);
      }
    }

    /* ---- Whose text a record shows ---- */

    /** Copies show the text of their source's owner. */
    ghost predicate OwnerOfSource(m: nat)
      requires m < |nodes|
    {
      && (nodes[m].copyOf == None && nodes[m].status == Live ==> nodes[m].owner == m)
      && (nodes[m].copyOf.Some? ==> nodes[m].owner == nodes[m].copyOf.value)
    }

    /** The text a live record shows has not gone back to a ring to be overwritten. */
    ghost predicate TextIsSafe() {
      forall m: nat {:trigger nodes[m]} :: m < |nodes| && nodes[m].status == Live ==>
        nodes[m].owner < |nodes| && nodes[nodes[m].owner].status != InRing
    }

    /** No live record is a copy of a copy. */
    ghost predicate Shallow() {
      forall m: nat {:trigger OwnerOfSource(m)} :: m < |nodes| ==> OwnerOfSource(m)
    }

    lemma ShallowTextIsSafe()
      requires Valid() && Shallow()
      ensures TextIsSafe()
    {
      forall m: nat | m < |nodes| && nodes[m].status == Live
        ensures nodes[m].owner < |nodes| && nodes[nodes[m].owner].status != InRing
      {
        assert OwnerOfSource(m) && Sourced(m);
        if nodes[m].copyOf.Some? {
          CopyIsCounted(m, nodes[m].copyOf.value);
        }
      }
    }
  }

  /* ---- Runs ---- */

  datatype Action = Take(root: nat) | Copy(dst: nat, src: nat) | Recycle(node: nat)

  /** The calls the processes make: on a ring that has a node, on live nodes, into fresh records. */
  ghost predicate Allowed(s: Pool, a: Action)
    requires s.Valid()
  {
    match a
    case Take(k) => k < |s.rings| && s.rings[k] != []
    case Copy(dst, src) =>
      && dst < |s.nodes| && src < |s.nodes| && dst != src
      && s.nodes[dst].status == Live && s.nodes[dst].copyOf == None && s.nodes[src].status == Live
    case Recycle(m) => m < |s.nodes| && s.nodes[m].status == Live
  }

  ghost function Step(s: Pool, a: Action): (r: Pool)
    requires s.Valid()
    ensures r.Valid()
  {
    if !Allowed(s, a) then s
    else
      match a
      case Take(k) => s.TakeKeepsValid(k); s.Take(k)
      case Copy(dst, src) => s.CopyKeepsValid(dst, src); s.Copy(dst, src)
      case Recycle(m) => s.RecycleKeepsValid(m); s.Recycle(m)
  }

  ghost function Run(s: Pool, actions: seq<Action>): (r: Pool)
    requires s.Valid()
    ensures r.Valid()
    decreases |actions|
  {
    if actions == [] then s else Run(Step(s, actions[0]), actions[1..])
  }

  /** What no action changes: homes, sizes and the idle nodes. */
  ghost predicate SameFrame(s: Pool, r: Pool) {
    && |r.nodes| == |s.nodes| && |r.rings| == |s.rings|
    && (forall m :: 0 <= m < |s.nodes| ==>
          (r.nodes[m].root == s.nodes[m].root
           && (r.nodes[m].status == Idle <==> s.nodes[m].status == Idle)))
  }

  lemma StepKeepsFrame(s: Pool, a: Action)
    requires s.Valid()
    ensures SameFrame(s, Step(s, a))
  {
    if Allowed(s, a) {
      match a
      case Take(k) => s.TakeKeepsValid(k);
      case Copy(dst, src) =>
      case Recycle(m) =>
        RecycleKeepsFrame(s, m);
    }
  }

  lemma RecycleKeepsFrame(s: Pool, m: nat)
    requires s.Valid() && m < |s.nodes| && s.nodes[m].status == Live
    ensures SameFrame(s, s.Recycle(m))
  {
    s.DetachKeepsValid(m);
    if s.nodes[m].copyOf.Some? {
      s.CopyIsCounted(m, s.nodes[m].copyOf.value);
    }
    var d := s.Detach(m);
    assert d.Counted(m) && d.Sourced(m);
    assert SameFrame(s, d);
  }

  /**
   Over every run from a pool with one idle node a ring: every reference count is right, every
   node is in its own ring at most once and only while nothing copies it, and a node that comes
   home finds room.
   */
  lemma {:induction false} EveryRunConserves(s: Pool, actions: seq<Action>, k: nat, m: nat)
    requires s.Valid() && s.OneIdle() && k < |s.rings|
    ensures var r := Run(s, actions);
            && r.Valid() && SameFrame(s, r)
            && |r.rings[k]| < |s.AtHome(k)|
            && (m < |r.nodes| && r.nodes[m].root == k
                && (r.nodes[m].status == Live || r.nodes[m].status == Released) ==>
                  |r.rings[k]| + 1 < |s.AtHome(k)|)
    decreases |actions|
  {
    if actions == [] {
      s.RingHasRoom(k, m);
    } else {
      StepKeepsFrame(s, actions[0]);
      FrameKeepsIdle(s, Step(s, actions[0]));
      EveryRunConserves(Step(s, actions[0]), actions[1..], k, m);
      assert Step(s, actions[0]).AtHome(k) == s.AtHome(k);
    }
  }

  lemma FrameKeepsIdle(s: Pool, r: Pool)
    requires s.OneIdle() && SameFrame(s, r)
    ensures r.OneIdle()
  {
    forall k: nat | k < |r.rings| ensures r.HasIdle(k) {
      assert s.HasIdle(k);
      var m :| m in s.AtHome(k) && s.nodes[m].status == Idle;
      assert m in r.AtHome(k);
    }
  }

  /** No copy is taken of a record that is itself a copy. */
  ghost predicate CopiesOriginals(s: Pool, actions: seq<Action>)
    requires s.Valid()
    decreases |actions|
  {
    actions == []
    || ((actions[0].Copy? && Allowed(s, actions[0]) ==> s.nodes[actions[0].src].copyOf == None)
        && CopiesOriginals(Step(s, actions[0]), actions[1..]))
  }

  lemma StepKeepsShallow(s: Pool, a: Action)
    requires s.Valid() && s.Shallow()
    requires a.Copy? && Allowed(s, a) ==> s.nodes[a.src].copyOf == None
    ensures Step(s, a).Shallow()
  {
    var r := Step(s, a);
    if Allowed(s, a) {
      match a
      case Take(k) =>
        s.TakeKeepsValid(k);
        assert s.Counted(s.rings[k][0]);
      case Copy(dst, src) =>
        assert s.OwnerOfSource(src);
      case Recycle(m) =>
        s.DetachKeepsValid(m);
        if s.nodes[m].copyOf.Some? { s.CopyIsCounted(m, s.nodes[m].copyOf.value); }
        var d := s.Detach(m);
        assert d.Counted(m) && d.Sourced(m);
    }
    forall i: nat | i < |r.nodes| ensures r.OwnerOfSource(i) {
      assert s.OwnerOfSource(i);
    }
  }

  /**
   While only originals are copied, reference counting does what it is there for: on every run
   no text shown by a live record goes back to a ring.
   */
  lemma {:induction false} TextSurvivesEveryRun(s: Pool, actions: seq<Action>)
    requires s.Valid() && s.Shallow() && CopiesOriginals(s, actions)
    ensures Run(s, actions).TextIsSafe()
    decreases |actions|
  {
    if actions == [] {
      s.ShallowTextIsSafe();
    } else {
      StepKeepsShallow(s, actions[0]);
      TextSurvivesEveryRun(Step(s, actions[0]), actions[1..]);
    }
  }

  /** What recycling one node leaves of another. */
  lemma RecycleEffect(s: Pool, c: nat, m: nat)
    requires s.Valid() && c < |s.nodes| && m < |s.nodes| && s.nodes[c].status == Live
    ensures var r := s.Recycle(c);
            && r.Valid() && |r.nodes| == |s.nodes|
            && r.nodes[m].owner == s.nodes[m].owner
            && (m != c ==> r.nodes[m].copyOf == s.nodes[m].copyOf)
            && (m != c && s.nodes[m].status != Released ==> r.nodes[m].status == s.nodes[m].status)
            && (m != c && s.nodes[m].status == Released ==>
                  r.nodes[m].status == Released || r.nodes[m].status == InRing)
            && (m == c ==> r.nodes[m].copyOf == None)
            && (m == c && s.Copies(c) == {} ==> r.nodes[m].status == InRing)
  {
    s.RecycleKeepsValid(c);
    s.DetachKeepsValid(c);
    if s.nodes[c].copyOf.Some? {
      s.CopyIsCounted(c, s.nodes[c].copyOf.value);
    }
    var d := s.Detach(c);
    assert d.Counted(c) && d.Sourced(c) && s.Counted(c);
  }

  lemma RecycleDropsCopy(s: Pool, c: nat, q: nat)
    requires s.Valid() && c < |s.nodes| && s.nodes[c].status == Live && s.nodes[c].copyOf == Some(q)
    ensures s.Recycle(c).Copies(q) == s.Copies(q) - {c}
  {
    RecycleEffect(s, c, c);
    var r := s.Recycle(c);
    forall i: nat | i < |s.nodes| && i != c ensures r.nodes[i].copyOf == s.nodes[i].copyOf {
      RecycleEffect(s, c, i);
    }
    s.CopiesAfter(r, c, q);
  }

  ghost predicate OnlyRecycles(actions: seq<Action>) {
    forall i {:trigger actions[i]} :: 0 <= i < |actions| ==> actions[i].Recycle?
  }

  lemma {:induction false} RecyclesCopyNothing(s: Pool, actions: seq<Action>)
    requires s.Valid() && OnlyRecycles(actions)
    ensures CopiesOriginals(s, actions)
    decreases |actions|
  {
    if actions != [] {
      RecyclesCopyNothing(Step(s, actions[0]), actions[1..]);
    }
  }

  /** The record shows another's text without being counted there. */
  ghost predicate Adrift(s: Pool, m: nat, q: nat) {
    && m < |s.nodes| && q < |s.nodes| && m != q
    && s.nodes[m].status == Live && s.nodes[m].owner == q && s.nodes[m].copyOf != Some(q)
    && s.nodes[q].status != Idle
  }

  /** Recycling the owner's counted copies and the owner sends the text home under the record. */
  lemma {:induction false} LoseText(s: Pool, m: nat, q: nat) returns (actions: seq<Action>)
    requires s.Valid() && Adrift(s, m, q)
    ensures OnlyRecycles(actions)
    ensures Adrift(Run(s, actions), m, q) && Run(s, actions).nodes[q].status == InRing
    decreases |s.Copies(q)|, s.nodes[q].status != InRing
  {
    assert s.Counted(q);
    if s.nodes[q].status == InRing {
      return [];
    }
    var c := q;
    if s.Copies(q) != {} {
      c :| c in s.Copies(q);
      assert s.Sourced(c);
      RecycleDropsCopy(s, c, q);
      assert |s.Copies(q) - {c}| == |s.Copies(q)| - 1;
    } else {
      RecycleKeepsCopies(s, q);
    }
    RecycleEffect(s, c, m);
    RecycleEffect(s, c, q);
    var rest := LoseText(s.Recycle(c), m, q);
    actions := [Action.Recycle(c)] + rest;
    assert actions[1..] == rest;
  }

  lemma RecycleKeepsCopies(s: Pool, q: nat)
    requires s.Valid() && q < |s.nodes| && s.nodes[q].status == Live && s.Copies(q) == {}
    ensures s.Recycle(q).Copies(q) == {}
  {
    RecycleEffect(s, q, q);
    var r := s.Recycle(q);
    forall i: nat | i < |r.nodes| ensures r.nodes[i].copyOf != Some(q) {
      RecycleEffect(s, q, i);
      assert s.nodes[i].copyOf == Some(q) ==> i in s.Copies(q);
    }
  }

  /** Originals own their text, and copies show that of some other record in circulation. */
  ghost predicate OwnersAreKnown(s: Pool) {
    forall m: nat {:trigger s.nodes[m]} :: m < |s.nodes| && s.nodes[m].status == Live ==>
      if s.nodes[m].copyOf == None then s.nodes[m].owner == m
      else s.nodes[m].owner < |s.nodes| && s.nodes[m].owner != m
           && s.nodes[s.nodes[m].owner].status != Idle
  }

  ghost predicate StaysSafe(s: Pool, actions: seq<Action>)
    requires s.Valid()
  {
    CopiesOriginals(s, actions) ==> Run(s, actions).TextIsSafe()
  }

  /**
   Reference counting protects the text on every run that copies originals only, if and only if
   no live record is a copy of a copy to begin with.
   */
  lemma TextSurvivesExactly(s: Pool)
    requires s.Valid() && OwnersAreKnown(s)
    ensures s.Shallow() <==> forall actions {:trigger StaysSafe(s, actions)} :: StaysSafe(s, actions)
  {
    if s.Shallow() {
      forall actions ensures StaysSafe(s, actions) {
        if CopiesOriginals(s, actions) {
          TextSurvivesEveryRun(s, actions);
        }
      }
    } else {
      var m: nat :| m < |s.nodes| && !s.OwnerOfSource(m);
      assert s.Sourced(m);
      var actions := LoseText(s, m, s.nodes[m].owner);
      RecyclesCopyNothing(s, actions);
      assert !StaysSafe(s, actions);
    }
  }

  /** A ring of four nodes: three records have been taken and read, the last one is idle. */
  function ThreeTaken(): Pool
  {
    Pool([Node(1, None, 0, Live, 0), Node(1, None, 0, Live, 1), Node(1, None, 0, Live, 2),
          Node(1, None, 0, Idle, 3)], [[]])
  }

  lemma ThreeTakenIsValid()
    ensures ThreeTaken().Valid() && ThreeTaken().Shallow() && ThreeTaken().OneIdle()
  {
    var s := ThreeTaken();
    forall m: nat | m < 4 ensures s.Counted(m) && s.Sourced(m) {
      assert s.Copies(m) == {};
    }
    assert 3 in s.AtHome(0);
    assert s.HasIdle(0);
  }

  const CHAIN: seq<Action> := [Copy(1, 0), Copy(2, 1), Recycle(0), Recycle(1)]

  /**
   A copy of a copy does not keep the original: record 0 is copied to 1 and 1 to 2; once 0 and 1
   are recycled 0 is back in its ring although the live record 2 shows its text.
   */
  lemma CopyOfCopyLosesText()
    ensures ThreeTaken().Valid() && ThreeTaken().Shallow()
    ensures Run(ThreeTaken(), CHAIN).Valid() && !Run(ThreeTaken(), CHAIN).TextIsSafe()
  {
    ThreeTakenIsValid();
    assert CHAIN[0..] == CHAIN && CHAIN[4..] == [];
    var s1 := RunOne(ThreeTaken(), CHAIN, 0);
    var s2 := RunOne(s1, CHAIN, 1);
    assert s2.nodes[..3] == [Node(2, None, 0, Live, 0), Node(2, Some(0), 0, Live, 0),
                             Node(1, Some(1), 0, Live, 0)];
    var s3 := RunOne(s2, CHAIN, 2);
    assert s3.nodes[..3] == [Node(1, None, 0, Released, 0), Node(2, Some(0), 0, Live, 0),
                             Node(1, Some(1), 0, Live, 0)];
    var s4 := RunOne(s3, CHAIN, 3);
    assert s4.nodes[0].status == InRing && s4.nodes[2] == Node(1, Some(1), 0, Live, 0);
  }

  lemma RunOne(s: Pool, actions: seq<Action>, i: nat) returns (r: Pool)
    requires s.Valid() && i < |actions|
    ensures r == Step(s, actions[i]) && r.Valid()
    ensures Run(s, actions[i..]) == Run(r, actions[i + 1..])
  {
    r := Step(s, actions[i]);
    assert actions[i..][1..] == actions[i + 1..];
  }
}
