/**
 UPDATE in place (lib/fqlprocesses.c): rows are routed by a predicate into two rings and merged
 back by their position, so that they are written in the order in which they were read.

 Routing and merging are steps on a Flow; the run theorems at the end speak of every interleaving
 of single steps, and the methods of Processes.Update make whole calls out of them.
 */
module UpdateMerge {
  import opened Assoc

  /** The rows whose condition has the given value, in order. */
  function Where<R>(rows: seq<R>, holds: R -> bool, want: bool): seq<R>
  {
    if rows == [] then []
    else Where(rows[..|rows| - 1], holds, want)
         + if holds(rows[|rows| - 1]) == want then [rows[|rows| - 1]] else []
  }

  lemma {:induction false} WhereOfSum<R>(a: seq<R>, b: seq<R>, holds: R -> bool, want: bool)
    ensures Where(a + b, holds, want) == Where(a, holds, want) + Where(b, holds, want)
    decreases |b|
  {
    if b == [] {
      assert a + b == a;
    } else {
      var n := |b| - 1;
      WhereOfSum(a, b[..n], holds, want);
      assert (a + b)[..|a| + n] == a + b[..n];
    }
  }

  lemma HeadFirst<R>(rows: seq<R>, holds: R -> bool)
    requires rows != []
    ensures Where(rows, holds, holds(rows[0])) == [rows[0]] + Where(rows[1..], holds, holds(rows[0]))
    ensures Where(rows, holds, !holds(rows[0])) == Where(rows[1..], holds, !holds(rows[0]))
  {
    assert rows == [rows[0]] + rows[1..];
    WhereOfSum([rows[0]], rows[1..], holds, true);
    WhereOfSum([rows[0]], rows[1..], holds, false);
    WhereOfOne(rows[0], holds, true);
    WhereOfOne(rows[0], holds, false);
  }

  lemma WhereOfMore<R>(rows: seq<R>, r: R, holds: R -> bool)
    ensures Where(rows + [r], holds, holds(r)) == Where(rows, holds, holds(r)) + [r]
    ensures Where(rows + [r], holds, !holds(r)) == Where(rows, holds, !holds(r))
  {
    assert (rows + [r])[..|rows|] == rows;
  }

  lemma WhereOfOne<R>(r: R, holds: R -> bool, want: bool)
    ensures Where([r], holds, want) == if holds(r) == want then [r] else []
  {
    assert [r][..0] == [];
  }

  /** What the file should hold: each row once, updated or not. */
  function Marked<R>(rows: seq<R>, holds: R -> bool): (m: seq<(R, bool)>)
    ensures |m| == |rows|
    ensures forall i {:trigger m[i]} :: 0 <= i < |rows| ==> m[i] == (rows[i], holds(rows[i]))
  {
    seq(|rows|, i requires 0 <= i < |rows| => (rows[i], holds(rows[i])))
  }

  lemma MarkedMore<R>(rows: seq<R>, i: nat, holds: R -> bool)
    requires i < |rows|
    ensures Marked(rows[..i + 1], holds) == Marked(rows[..i], holds) + [(rows[i], holds(rows[i]))]
  {
  }

  /**
   The rows routed so far, the two rings, the number of rows written (update_idx) and what was
   written: each row with whether it went through the update.
   */
  datatype Flow<R> = Flow(routed: seq<R>, falses: seq<R>, trues: seq<R>, idx: nat, written: seq<(R, bool)>) {

    /** Rows carry their positions; what is not yet written is in the ring of its condition. */
    ghost predicate Valid(holds: R -> bool, position: R -> nat) {
      && (forall i {:trigger routed[i]} :: 0 <= i < |routed| ==> position(routed[i]) == i)
      && idx <= |routed|
      && falses == Where(routed[idx..], holds, false)
      && trues == Where(routed[idx..], holds, true)
      && written == Marked(routed[..idx], holds)
    }

    function Queue(want: bool): seq<R>
    {
      if want then trues else falses
    }

    /** fql_logic on one row. */
    function Route(r: R, holds: R -> bool): Flow<R>
    {
      if holds(r) then this.(routed := routed + [r], trues := trues + [r])
      else this.(routed := routed + [r], falses := falses + [r])
    }

    /** The head of the ring is the next row to be written. */
    predicate CanWrite(want: bool, position: R -> nat)
    {
      Queue(want) != [] && position(Queue(want)[0]) <= idx
    }

    /** One round of either loop of fql_update. */
    function Write(want: bool, position: R -> nat): Flow<R>
      requires Queue(want) != []
    {
      var next := this.(idx := idx + 1, written := written + [(Queue(want)[0], want)]);
      if want then next.(trues := trues[1..]) else next.(falses := falses[1..])
    }

    /** A round that TOP cuts short: the row is written and stays in its ring. */
    function WriteOnly(): Flow<R>
      requires trues != []
    {
      this.(idx := idx + 1, written := written + [(trues[0], true)])
    }

    lemma RouteKeepsValid(r: R, holds: R -> bool, position: R -> nat)
      requires Valid(holds, position) && position(r) == |routed|
      ensures Route(r, holds).Valid(holds, position)
    {
      WhereOfMore(routed[idx..], r, holds);
      assert (routed + [r])[idx..] == routed[idx..] + [r];
      assert (routed + [r])[..idx] == routed[..idx];
    }

    /**
     While a row is outstanding exactly one ring has the next row at its head, and the head of
     the other ring, if it has one, is a later row.
     */
    lemma NextIsAtOneHead(holds: R -> bool, position: R -> nat)
      requires Valid(holds, position)
      ensures idx == |routed| <==> falses == [] && trues == []
      ensures idx < |routed| ==>
                var want := holds(routed[idx]);
                && Queue(want) != [] && Queue(want)[0] == routed[idx] && CanWrite(want, position)
                && !CanWrite(!want, position)
      ensures idx < |routed| ==>
                Queue(holds(routed[idx]))[1..] == Where(routed[idx + 1..], holds, holds(routed[idx]))
      ensures idx < |routed| ==>
                Queue(!holds(routed[idx])) == Where(routed[idx + 1..], holds, !holds(routed[idx]))
    {
      if idx < |routed| {
        HeadFirst(routed[idx..], holds);
        assert routed[idx..][1..] == routed[idx + 1..];
        var later := Where(routed[idx + 1..], holds, !holds(routed[idx]));
        if later != [] {
          LaterInPosition(idx + 1, holds, !holds(routed[idx]), position);
        }
      }
    }

    lemma AllIsWritten(holds: R -> bool, position: R -> nat)
      requires Valid(holds, position) && falses == [] && trues == []
      ensures written == Marked(routed, holds)
    {
      NextIsAtOneHead(holds, position);
      assert routed[..|routed|] == routed;
    }

    lemma LaterInPosition(from: nat, holds: R -> bool, want: bool, position: R -> nat)
      requires Valid(holds, position) && from <= |routed| && Where(routed[from..], holds, want) != []
      ensures position(Where(routed[from..], holds, want)[0]) >= from
    {
      var r := Where(routed[from..], holds, want)[0];
      WhereIsAmong(routed[from..], holds, want, r);
      var i :| 0 <= i < |routed[from..]| && routed[from..][i] == r;
      assert routed[from + i] == r;
    }

    lemma WriteKeepsValid(want: bool, holds: R -> bool, position: R -> nat)
      requires Valid(holds, position) && CanWrite(want, position)
      ensures Write(want, position).Valid(holds, position)
      ensures idx < |routed| && want == holds(routed[idx])
    {
      NextIsAtOneHead(holds, position);
      MarkedMore(routed, idx, holds);
    }
  }

  lemma {:induction false} WhereIsAmong<R>(rows: seq<R>, holds: R -> bool, want: bool, r: R)
    requires r in Where(rows, holds, want)
    ensures r in rows && holds(r) == want
  {
    var n := |rows| - 1;
    if r in Where(rows[..n], holds, want) {
      WhereIsAmong(rows[..n], holds, want, r);
    }
  }

  /* ---- Runs ---- */

  datatype Action<R> = Route(row: R) | Write(want: bool)

  /** The reader hands out rows in order; a row is written only from the head of a ring, in turn. */
  ghost function Step<R>(s: Flow<R>, a: Action<R>, holds: R -> bool, position: R -> nat): Flow<R>
  {
    match a
    case Route(r) => if position(r) == |s.routed| then s.Route(r, holds) else s
    case Write(want) => if s.CanWrite(want, position) then s.Write(want, position) else s
  }

  ghost function Run<R>(s: Flow<R>, actions: seq<Action<R>>, holds: R -> bool, position: R -> nat): Flow<R>
    decreases |actions|
  {
    if actions == [] then s else Run(Step(s, actions[0], holds, position), actions[1..], holds, position)
  }

  /** Under every interleaving the file holds the first rows that were read, in order, each once. */
  lemma {:induction false} EveryRunKeepsOrder<R>(s: Flow<R>, actions: seq<Action<R>>, holds: R -> bool,
                                                 position: R -> nat)
    requires s.Valid(holds, position)
    ensures var r := Run(s, actions, holds, position);
            && r.Valid(holds, position)
            && r.written == Marked(r.routed[..r.idx], holds)
            && (r.falses == [] && r.trues == [] ==> r.written == Marked(r.routed, holds))
            && (r.falses != [] || r.trues != [] ==>
                  r.CanWrite(false, position) || r.CanWrite(true, position))
    decreases |actions|
  {
    if actions == [] {
      s.NextIsAtOneHead(holds, position);
      if s.falses == [] && s.trues == [] { s.AllIsWritten(holds, position); }
    } else {
      match actions[0] {
        case Route(r) => if position(r) == |s.routed| { s.RouteKeepsValid(r, holds, position); }
        case Write(want) => if s.CanWrite(want, position) { s.WriteKeepsValid(want, holds, position); }
      }
      EveryRunKeepsOrder(Step(s, actions[0], holds, position), actions[1..], holds, position);
    }
  }

  /* ---- Calls ---- */

  /** The rows that a call of fql_logic routes. */
  function RouteAll<R>(s: Flow<R>, rows: seq<R>, holds: R -> bool): Flow<R>
  {
    if rows == [] then s else RouteAll(s, rows[..|rows| - 1], holds).Route(rows[|rows| - 1], holds)
  }

  /** The rings gain the rows of either kind. */
  lemma {:induction false} RouteAllIsWhere<R>(s: Flow<R>, rows: seq<R>, holds: R -> bool)
    ensures RouteAll(s, rows, holds) ==
            Flow(s.routed + rows, s.falses + Where(rows, holds, false), s.trues + Where(rows, holds, true),
                 s.idx, s.written)
  {
    if rows != [] {
      var n := |rows| - 1;
      RouteAllIsWhere(s, rows[..n], holds);
      assert rows == rows[..n] + [rows[n]];
    }
  }

  lemma {:induction false} RouteAllKeepsValid<R>(s: Flow<R>, rows: seq<R>, holds: R -> bool, position: R -> nat)
    requires s.Valid(holds, position)
    requires forall i {:trigger rows[i]} :: 0 <= i < |rows| ==> position(rows[i]) == |s.routed| + i
    ensures RouteAll(s, rows, holds).Valid(holds, position)
  {
    if rows != [] {
      var n := |rows| - 1;
      var before := RouteAll(s, rows[..n], holds);
      RouteAllKeepsValid(s, rows[..n], holds, position);
      RouteAllIsWhere(s, rows[..n], holds);
      before.RouteKeepsValid(rows[n], holds, position);
    }
  }

  /** One loop of fql_update: until the ring is empty or its head has to wait. */
  function Drain<R>(s: Flow<R>, want: bool, position: R -> nat): Flow<R>
    decreases |s.Queue(want)|
  {
    if s.CanWrite(want, position) then Drain(s.Write(want, position), want, position) else s
  }

  lemma {:induction false} DrainKeepsValid<R>(s: Flow<R>, want: bool, holds: R -> bool, position: R -> nat)
    requires s.Valid(holds, position)
    ensures Drain(s, want, position).Valid(holds, position)
    ensures Drain(s, want, position).routed == s.routed
    ensures Drain(s, want, position).idx >= s.idx + if s.CanWrite(want, position) then 1 else 0
    ensures !Drain(s, want, position).CanWrite(want, position)
    ensures forall kind :: |Drain(s, want, position).Queue(kind)| <= |s.Queue(kind)|
    decreases |s.Queue(want)|
  {
    if s.CanWrite(want, position) {
      s.WriteKeepsValid(want, holds, position);
      DrainKeepsValid(s.Write(want, position), want, holds, position);
    }
  }

  /** A call of fql_update with a row in either ring writes at least one row. */
  lemma CallMakesProgress<R>(s: Flow<R>, holds: R -> bool, position: R -> nat)
    requires s.Valid(holds, position) && (s.falses != [] || s.trues != [])
    ensures var r := Drain(Drain(s, false, position), true, position);
            r.Valid(holds, position) && r.routed == s.routed && r.idx > s.idx
  {
    s.NextIsAtOneHead(holds, position);
    DrainKeepsValid(s, false, holds, position);
    var m := Drain(s, false, position);
    DrainKeepsValid(m, true, holds, position);
    m.NextIsAtOneHead(holds, position);
  }
}
