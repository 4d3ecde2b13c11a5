/** A few facts and names that several modules share. */
module Common {

  /** The null pointer, where nodes are numbered from 0. */
  const NULL: int := -1

  /** One more than the largest unsigned number of 32 and of 64 bits. */
  const WORD32: int := 0x1_0000_0000
  const WORD64: int := 0x1_0000_0000_0000_0000

  lemma FirstMovesOver<T>(a: seq<T>, b: seq<T>)
    requires b != []
    ensures (a + [b[0]]) + b[1..] == a + b
  {
  }

  /** The numbers below n, in order and as a set. */
  function UpTo(n: nat): (s: seq<nat>)
    ensures |s| == n && forall i {:trigger s[i]} :: 0 <= i < n ==> s[i] == i
  {
    seq(n, i requires 0 <= i < n => i)
  }

  ghost function Below(n: nat): (s: set<nat>)
    ensures |s| == n && forall v: nat {:trigger v in s} :: v in s <==> v < n
  {
    if n == 0 then {} else Below(n - 1) + {n - 1}
  }

  lemma Associate<T>(a: seq<T>, b: seq<T>, c: seq<T>)
    ensures (a + b) + c == a + (b + c)
  {
  }

  lemma QuotientIsUnique(x: int, d: int, q: int, r: nat)
    requires r < d && x == q * d + r
    ensures x % d == r && x / d == q
  {
    var k := q - x / d;
    assert k * d == x % d - r by {
      assert k * d == q * d - (x / d) * d;
    }
    assert k >= 1 ==> k * d >= d;
    assert k <= -1 ==> k * d + d <= 0;
  }

  lemma SubsetSize<T>(a: set<T>, b: set<T>)
    requires a <= b
    ensures |a| <= |b|
  {
    if a != {} {
      var x :| x in a;
      SubsetSize(a - {x}, b - {x});
    }
  }

  ghost function Elements<T(!new)>(s: seq<T>): (r: set<T>)
    ensures forall x :: x in r <==> x in s
  {
    if s == [] then {} else Elements(s[..|s| - 1]) + {s[|s| - 1]}
  }

  lemma NoDuplicates<T(!new)>(s: seq<T>)
    requires forall i, j :: 0 <= i < j < |s| ==> s[i] != s[j]
    ensures |Elements(s)| == |s|
  {
    if s != [] {
      NoDuplicates(s[..|s| - 1]);
    }
  }
}
