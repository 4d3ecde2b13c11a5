/**
 The bounded ring buffer that carries records between processes (util/fifo.c).

 Slots is the ring as a value: the buffer, the slot the producer fills next (head) and the
 slot the consumer reads next (tail). Fifo is the object the source mutates; every method is
 proved against the contents of its Slots. Mutexes and condition variables are not modelled:
 each method is one critical section.
 */
module Ring {
  import opened Common

  /** Reduction modulo the ring size for a position less than one lap ahead. */
  function Wrap(i: nat, n: nat): nat
  {
    if i < n then i else i - n
  }

  /** The index-advance macro. */
  function Next(i: nat, n: nat): nat
  {
    if i + 1 == n then 0 else i + 1
  }

  /** Both are the remainder the code takes. */
  lemma WrapIsRemainder(i: nat, n: nat)
    requires i < 2 * n
    ensures Wrap(i, n) == i % n
    ensures i < n ==> Next(i, n) == (i + 1) % n
  {
    QuotientIsUnique(i, n, if i < n then 0 else 1, Wrap(i, n));
    if i < n {
      QuotientIsUnique(i + 1, n, if i + 1 < n then 0 else 1, Next(i, n));
    }
  }

  /**
   fifo_available as the code computes it: the subtraction wraps at 32 bits, the comparison
   and the correction are done on 64 bits, and the result is cut to 32 bits again.
   */
  function AvailableWrapped(head: nat, tail: nat, size: nat): nat
  {
    var difference := (head - tail) % WORD32;
    var corrected := if difference > size then difference + size else difference;
    corrected % WORD32
  }

  /** How far head is ahead of tail, going round the ring. */
  function Distance(head: nat, tail: nat, size: nat): int
  {
    if tail <= head then head - tail else head - tail + size
  }

  /**
   The wrapped computation is the distance from tail to head exactly when the consumer is not
   ahead, or the wrapped difference still exceeds the ring size.
   */
  lemma AvailableIsDistance(head: nat, tail: nat, size: nat)
    requires head < size < WORD32 && tail < size
    ensures AvailableWrapped(head, tail, size) == Distance(head, tail, size)
       <==> head >= tail || WORD32 - (tail - head) > size
  {
  }

  ghost predicate AvailableIsExact(size: nat) {
    forall head: nat, tail: nat :: head < size && tail < size ==>
      AvailableWrapped(head, tail, size) == Distance(head, tail, size)
  }

  /** Rings of at most 2^31 slots are exact at every position; every larger ring is not. */
  lemma AvailableLimit(size: nat)
    requires 2 <= size < WORD32
    ensures size <= WORD32 / 2 <==> AvailableIsExact(size)
  {
    if size <= WORD32 / 2 {
      forall head: nat, tail: nat | head < size && tail < size
        ensures AvailableWrapped(head, tail, size) == Distance(head, tail, size)
      {
        AvailableIsDistance(head, tail, size);
      }
    } else {
      AvailableIsDistance(0, size - 1, size);
      assert AvailableWrapped(0, size - 1, size) != Distance(0, size - 1, size);
    }
  }

  datatype Slots<T> = Slots(buf: seq<T>, head: nat, tail: nat) {

    /** Ring sizes for which AvailableLimit makes the index arithmetic exact. */
    ghost predicate Valid() {
      2 <= |buf| <= WORD32 / 2 && head < |buf| && tail < |buf|
    }

    /** The elements between the consumer and the producer, oldest first. */
    ghost function Contents(): (c: seq<T>)
      requires Valid()
      ensures |c| == Distance(head, tail, |buf|)
    {
      if tail <= head then buf[tail..head] else buf[tail..] + buf[..head]
    }

    /** The slot of the k-th queued element, or of the next free slot when k is the length. */
    ghost function SlotOf(k: nat): (i: nat)
      requires Valid() && k <= |Contents()|
      ensures i < |buf|
      ensures k == |Contents()| ==> i == head
      ensures k < |Contents()| ==> buf[i] == Contents()[k]
      ensures k < |Contents()| ==> i != head
    {
      Wrap(tail + k, |buf|)
    }

    /** fifo_add: fills the head slot and advances, whether or not there is room. */
    function Add(x: T): (s: Slots<T>)
      requires Valid()
    {
      Slots(buf[head := x], Next(head, |buf|), tail)
    }

    /** fifo_consume, and the state change of fifo_get and fifo_iter. */
    function Advance(): (s: Slots<T>)
      requires Valid()
    {
      this.(tail := Next(tail, |buf|))
    }

    lemma AddAppends(x: T)
      requires Valid()
      ensures Add(x).Valid()
      ensures |Contents()| + 1 < |buf| ==> Add(x).Contents() == Contents() + [x]
      ensures |Contents()| + 1 == |buf| ==> Add(x).Contents() == []
    {
    }

    /** The buffer after xs was laid into the slots from head on, folded back at the end. */
    ghost predicate FilledWith(xs: seq<T>, filled: seq<T>)
      requires Valid()
    {
      && |filled| == |buf|
      && forall j :: 0 <= j < |buf| ==>
           filled[j] == if head <= j < head + |xs| then xs[j - head]
                        else if j + |buf| < head + |xs| then xs[j + |buf| - head]
                        else buf[j]
    }

    lemma FillAppends(xs: seq<T>, filled: seq<T>)
      requires Valid() && |Contents()| + |xs| < |buf|
      requires FilledWith(xs, filled)
      ensures Slots(filled, Wrap(head + |xs|, |buf|), tail).Valid()
      ensures Slots(filled, Wrap(head + |xs|, |buf|), tail).Contents() == Contents() + xs
    {
      var s := Slots(filled, Wrap(head + |xs|, |buf|), tail);
      assert |s.Contents()| == |Contents()| + |xs|;
      forall k | 0 <= k < |s.Contents()|
        ensures s.Contents()[k] == (Contents() + xs)[k]
      {
        var j := s.SlotOf(k);
        assert s.Contents()[k] == filled[j];
        if k < |Contents()| {
          assert j == SlotOf(k);
        }
      }
    }

    lemma AdvanceDropsFirst()
      requires Valid() && Contents() != []
      ensures Advance().Valid()
      ensures buf[tail] == Contents()[0]
      ensures Advance().Contents() == Contents()[1..]
    {
    }
  }

  lemma WholeMultiple(t: nat, d: nat)
    requires d > 0
    ensures t % d <= t && (t - t % d) % d == 0
    ensures t < d ==> t % d == t
  {
    var q := t / d;
    assert t == q * d + t % d;
    assert q >= 0 ==> q * d >= 0;
    QuotientIsUnique(t - t % d, d, q, 0);
  }

  /** What fifo_nget moves: the queued count capped at max, cut down to whole blocks. */
  function WholeBlocks(available: nat, blockSize: nat, max: nat): (t: nat)
    requires blockSize > 0
    ensures t <= available && t <= max && t % blockSize == 0
    ensures available < t + blockSize || max < t + blockSize
    ensures t == 0 <==> available < blockSize || max < blockSize
  {
    var t := if available > max then max else available;
    WholeMultiple(t, blockSize);
    t - t % blockSize
  }

  class Fifo<T(0)> {
    const buf: array<T>
    var head: nat
    var tail: nat
    var iterHead: nat
    var inputCount: nat
    var isOpen: bool

    ghost function View(): Slots<T>
      reads this, buf
    {
      Slots(buf[..], head, tail)
    }

    ghost predicate Valid()
      reads this, buf
    {
      View().Valid()
    }

    ghost function Contents(): seq<T>
      requires Valid()
      reads this, buf
    {
      View().Contents()
    }

    /** Producers never fill the slots set aside for the other producers of this ring. */
    ghost predicate Guarded()
      requires Valid()
      reads this, buf
    {
      1 <= inputCount && |Contents()| + inputCount <= buf.Length
    }

    /** Room for one more element by that guard. */
    ghost predicate HasRoom()
      requires Valid()
      reads this, buf
    {
      |Contents()| + inputCount < buf.Length
    }

    /** fifo_construct: a ring has at least two slots. */
    constructor (size: nat)
      requires size <= WORD32 / 2
      ensures Valid() && fresh(buf)
      ensures Contents() == [] && inputCount == 0 && isOpen
      ensures buf.Length == if size <= 1 then 2 else size
    {
      buf := new T[if size <= 1 then 2 else size];
      head, tail, iterHead, inputCount, isOpen := 0, 0, 0, 0, true;
    }

    /** A root ring after its buffer was rebuilt node by node and fifo_set_full ran. */
    constructor Preempted(nodes: seq<T>)
      requires 2 <= |nodes| <= WORD32 / 2
      ensures Valid() && fresh(buf)
      ensures Contents() == nodes[..|nodes| - 1] && buf.Length == |nodes|
      ensures isOpen && inputCount == 0
    {
      buf := new T[|nodes|](i requires 0 <= i < |nodes| => nodes[i]);
      tail, iterHead, inputCount, isOpen := 0, 0, 0, true;
      head := |nodes| - 1;
    }

    function Available(): (n: nat)
      requires Valid()
      reads this, buf
      ensures n == |Contents()|
    {
      AvailableIsDistance(head, tail, buf.Length);
      AvailableWrapped(head, tail, buf.Length)
    }

    function IsEmpty(): (e: bool)
      requires Valid()
      reads this, buf
      ensures e <==> Contents() == []
    {
      head == tail
    }

    /** Unsigned, so it is the free room only while the producers kept their guard. */
    function Receivable(): (n: nat)
      requires Valid()
      reads this, buf
      ensures |Contents()| + inputCount <= buf.Length ==>
                n == buf.Length - |Contents()| - inputCount && (n > 0 <==> HasRoom())
    {
      (buf.Length - Available() - inputCount) % WORD32
    }

    method Add(x: T)
      requires Valid()
      modifies `head, buf
      ensures Valid()
      ensures View() == old(View()).Add(x)
      ensures |old(Contents())| + 1 < buf.Length ==> Contents() == old(Contents()) + [x]
    {
      View().AddAppends(x);
      buf[head] := x;
      head := Next(head, buf.Length);
    }

    method Get() returns (x: T)
      requires Valid() && Contents() != []
      modifies `tail
      ensures Valid()
      ensures View() == old(View()).Advance()
      ensures x == old(Contents())[0] && Contents() == old(Contents())[1..]
      ensures x == buf[old(tail)]
    {
      View().AdvanceDropsFirst();
      x := buf[tail];
      tail := Next(tail, buf.Length);
    }

    function Peek(): (x: T)
      requires Valid()
      reads this, buf
      ensures Contents() != [] ==> x == Contents()[0]
    {
      buf[tail]
    }

    /** fifo_begin: remembers where this round of iteration stops. */
    method Begin()
      requires Valid()
      modifies `iterHead
      ensures iterHead == head
    {
      iterHead := Wrap(head, buf.Length);
    }

    /** fifo_iter: consumes one element without taking a lock. */
    method Iter()
      requires Valid() && Contents() != []
      modifies `tail
      ensures Valid()
      ensures View() == old(View()).Advance()
      ensures Contents() == old(Contents())[1..]
    {
      View().AdvanceDropsFirst();
      tail := Next(tail, buf.Length);
    }

    /** memcpy into a run of slots. */
    method SetAt(at: nat, src: seq<T>)
      requires at + |src| <= buf.Length
      modifies buf
      ensures forall j :: at <= j < at + |src| ==> buf[j] == src[j - at]
      ensures forall j :: 0 <= j < buf.Length && !(at <= j < at + |src|) ==> buf[j] == old(buf[j])
    {
      forall i | 0 <= i < |src| {
        buf[at + i] := src[i];
      }
    }

    /**
     fifo_nget. With a whole block to move it takes exactly the whole blocks at the front. With
     less than a block and a consumer that is not at slot 0 it appends the entire ring and
     consumes nothing.
     */
    method NGet(buffer: seq<T>, blockSize: nat, max: nat) returns (filled: seq<T>, left: nat)
      requires Valid() && blockSize > 0
      modifies `tail
      ensures Valid()
      ensures var c := old(Contents());
              var t := WholeBlocks(|c|, blockSize, max);
              && left == |c| - t
              && Contents() == c[t..]
              && (t > 0 || c == [] || tail == 0 ==> filled == buffer + c[..t])
              && (t == 0 && c != [] && tail > 0 ==> filled == buffer + buf[tail..] + buf[..tail])
    {
      var available := Available();
      if available == 0 {
        return buffer, 0;
      }
      ghost var c := Contents();
      var t := WholeBlocks(available, blockSize, max);
      var newTail := Wrap(tail + t, buf.Length);
      if newTail == 0 || newTail > tail {
        filled := buffer + buf[tail..tail + t];
      } else {
        filled := buffer + buf[tail..] + buf[..newTail];
        if t > 0 {
          assert buf[tail..] + buf[..newTail] == c[..t];
        }
      }
      tail := newTail;
      left := available - t;
    }

    /** The one or two memcpy calls that lay xs into the free slots from head on. */
    method CopyIn(xs: seq<T>)
      requires Valid() && xs != [] && |xs| < buf.Length
      modifies buf
      ensures old(View()).FilledWith(xs, buf[..])
    {
      var newHead := Wrap(head + |xs|, buf.Length);
      if newHead == 0 || newHead > head {
        SetAt(head, xs);
      } else {
        var first := buf.Length - head;
        SetAt(head, xs[..first]);
        SetAt(0, xs[first..]);
      }
    }

    method Fill(xs: seq<T>)
      requires Valid() && xs != [] && |Contents()| + |xs| < buf.Length
      modifies buf
      ensures Slots(buf[..], Wrap(head + |xs|, buf.Length), tail).Valid()
      ensures Slots(buf[..], Wrap(head + |xs|, buf.Length), tail).Contents() == old(Contents()) + xs
    {
      ghost var s := View();
      CopyIn(xs);
      s.FillAppends(xs, buf[..]);
    }

    /** fifo_nadd: moves the longest prefix of src that fits and leaves the rest in src. */
    method NAdd(src: seq<T>) returns (rest: seq<T>)
      requires Valid() && Guarded()
      requires src != []
      modifies `head, buf
      ensures Valid() && Guarded()
      ensures var k := if old(Receivable()) < |src| then old(Receivable()) else |src|;
              Contents() == old(Contents()) + src[..k] && rest == src[k..]
    {
      var receivable := Receivable();
      if receivable == 0 {
        return src;
      }
      var k := if receivable < |src| then receivable else |src|;
      Fill(src[..k]);
      head := Wrap(head + k, buf.Length);
      rest := if k == |src| then [] else src[k..];
    }
  }

  /** k single additions, as a fold over the value-level step. */
  function AddEach<T>(s: Slots<T>, xs: seq<T>): Slots<T>
    requires s.Valid()
    decreases |xs|
  {
    if xs == [] then s else
      s.AddAppends(xs[0]);
      AddEach(s.Add(xs[0]), xs[1..])
  }

  /** k single gets: the elements read and the ring they leave. */
  function GetEach<T>(s: Slots<T>, k: nat): (r: (seq<T>, Slots<T>))
    requires s.Valid() && k <= |s.Contents()|
    decreases k
  {
    if k == 0 then ([], s) else
      s.AdvanceDropsFirst();
      var (xs, rest) := GetEach(s.Advance(), k - 1);
      ([s.buf[s.tail]] + xs, rest)
  }

  /** fifo_nadd leaves the ring contents that adding one by one leaves. */
  lemma {:induction false} AddingOneByOne<T>(s: Slots<T>, xs: seq<T>)
    requires s.Valid() && |s.Contents()| + |xs| < |s.buf|
    ensures AddEach(s, xs).Valid() && AddEach(s, xs).Contents() == s.Contents() + xs
    decreases |xs|
  {
    if xs != [] {
      s.AddAppends(xs[0]);
      AddingOneByOne(s.Add(xs[0]), xs[1..]);
      assert s.Contents() + [xs[0]] + xs[1..] == s.Contents() + xs;
    }
  }

  /** fifo_nget with whole blocks to move reads and leaves what single gets read and leave. */
  lemma {:induction false} GettingOneByOne<T>(s: Slots<T>, k: nat)
    requires s.Valid() && k <= |s.Contents()|
    ensures GetEach(s, k).0 == s.Contents()[..k]
    ensures GetEach(s, k).1.Valid() && GetEach(s, k).1.Contents() == s.Contents()[k..]
    decreases k
  {
    if k > 0 {
      s.AdvanceDropsFirst();
      GettingOneByOne(s.Advance(), k - 1);
      assert s.Contents()[..k] == [s.Contents()[0]] + s.Contents()[1..][..k - 1];
      assert s.Contents()[1..][k - 1..] == s.Contents()[k..];
    }
  }
}
