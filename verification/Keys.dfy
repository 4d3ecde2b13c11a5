/**
 Byte strings as keys: the comparison behind = and ORDER BY (util/stringview.c) and the normal
 form under which the hash tables store a key (util/hashmap.c).

 Bytes are 0..255 and tolower and isspace are those of the C locale. Lengths are below 2^31, so
 the unsigned length difference the comparison returns is the signed one.
 */
module Keys {

  type Byte = b: int | 0 <= b < 256
  type Bytes = seq<Byte>

  const SPACE: Byte := 32

  function ToLower(b: Byte): Byte
  {
    if 65 <= b <= 90 then b + 32 else b
  }

  predicate IsSpace(b: Byte) {
    b == SPACE || 9 <= b <= 13
  }

  const UPPER: string := "ABCDEFGHIJKLMNOPQRSTUVWXYZ"
  const LOWER: string := "abcdefghijklmnopqrstuvwxyz"
  const WHITE: string := " \t\n\r\U{B}\U{C}"

  /** What the C library says in its own locale: letter by letter, and nothing else changes. */
  lemma LettersAreFolded(b: Byte)
    ensures |UPPER| == |LOWER| == 26
    ensures (b as char) in UPPER ==> exists i :: 0 <= i < 26 && UPPER[i] as int == b && LOWER[i] as int == ToLower(b)
    ensures (b as char) !in UPPER ==> ToLower(b) == b
  {
    assert forall i | 0 <= i < 26 :: UPPER[i] as int == 65 + i && LOWER[i] as int == 97 + i;
    if 65 <= b <= 90 {
      assert UPPER[b - 65] as int == b;
    }
  }

  lemma WhiteIsSpace(b: Byte)
    ensures IsSpace(b) <==> (b as char) in WHITE
  {
    if 9 <= b <= 13 {
      assert WHITE[1] == 9 as char && WHITE[2] == 10 as char && WHITE[3] == 13 as char;
      assert WHITE[4] == 11 as char && WHITE[5] == 12 as char;
    }
  }

  /** The byte as a comparison sees it. */
  function Folded(nocase: bool, b: Byte): Byte
  {
    if nocase then ToLower(b) else b
  }

  predicate AllSpaces(s: Bytes) {
    forall i :: 0 <= i < |s| ==> s[i] == SPACE
  }

  function Longer(s: Bytes, t: Bytes): Bytes
  {
    if |s| > |t| then s else t
  }

  function Shorter(s: Bytes, t: Bytes): Bytes
  {
    if |s| > |t| then t else s
  }

  /** The part of the longer string past the end of the shorter one. */
  function Overhang(s: Bytes, t: Bytes): Bytes
  {
    Longer(s, t)[|Shorter(s, t)|..]
  }

  /** The comparison from position i on: bytes while both last, then the overhang. */
  function CompareFrom(nocase: bool, s: Bytes, t: Bytes, i: nat): int
    decreases |s| + |t| - i
  {
    if i < |s| && i < |t| then
      var d := Folded(nocase, s[i]) - Folded(nocase, t[i]);
      if d != 0 then d else CompareFrom(nocase, s, t, i + 1)
    else if i < |Longer(s, t)| then
      if IsSpace(Longer(s, t)[i]) then CompareFrom(nocase, s, t, i + 1) else |s| - |t|
    else 0
  }

  /** stringview_compare_nocase_rtrim, and stringview_compare_rtrim when nocase is false. */
  method CompareRtrim(nocase: bool, s: Bytes, t: Bytes) returns (ret: int)
    ensures ret == Compare(nocase, s, t)
  {
    var shorter, longer := s, t;
    if |s| > |t| {
      shorter, longer := t, s;
    }
    ret := 0;
    var i := 0;
    while ret == 0 && i < |shorter|
      invariant i <= |shorter|
      invariant Compare(nocase, s, t) == if ret != 0 then ret else CompareFrom(nocase, s, t, i)
    {
      ret := Folded(nocase, s[i]) - Folded(nocase, t[i]);
      i := i + 1;
    }
    while ret == 0 && i < |longer|
      invariant ret == 0 ==> |shorter| <= i <= |longer|
      invariant Compare(nocase, s, t) == if ret != 0 then ret else CompareFrom(nocase, s, t, i)
    {
      ret := if IsSpace(longer[i]) then 0 else |s| - |t|;
      i := i + 1;
    }
  }

  function Compare(nocase: bool, s: Bytes, t: Bytes): int
  {
    CompareFrom(nocase, s, t, 0)
  }

  function Sign(n: int): int
  {
    if n < 0 then -1 else if n > 0 then 1 else 0
  }

  /* ---- The order the comparison is meant to be ---- */

  /** The string extended to the right with the pad, which need not be a byte, for ever. */
  function Padded(nocase: bool, pad: int, s: Bytes, i: nat): int
  {
    if i < |s| then Folded(nocase, s[i]) else pad
  }

  ghost predicate AgreeBelow(nocase: bool, pad: int, s: Bytes, t: Bytes, n: nat) {
    forall i: nat :: i < n ==> Padded(nocase, pad, s, i) == Padded(nocase, pad, t, i)
  }

  function FirstDifference(nocase: bool, pad: int, s: Bytes, t: Bytes, from: nat): (n: nat)
    requires AgreeBelow(nocase, pad, s, t, from)
    ensures from <= n && AgreeBelow(nocase, pad, s, t, n)
    ensures n < |Longer(s, t)| ==> Padded(nocase, pad, s, n) != Padded(nocase, pad, t, n)
    decreases |s| + |t| - from
  {
    if from >= |Longer(s, t)| || Padded(nocase, pad, s, from) != Padded(nocase, pad, t, from) then from
    else FirstDifference(nocase, pad, s, t, from + 1)
  }

  /** Lexicographic comparison of the padded strings. */
  function PaddedCompare(nocase: bool, pad: int, s: Bytes, t: Bytes): int
  {
    var n := FirstDifference(nocase, pad, s, t, 0);
    Padded(nocase, pad, s, n) - Padded(nocase, pad, t, n)
  }

  /** Where the strings agree up to n and differ there, both comparisons of padded text decide. */
  lemma DifferenceDecides(nocase: bool, pad: int, s: Bytes, t: Bytes, n: nat)
    requires AgreeBelow(nocase, pad, s, t, n)
    requires Padded(nocase, pad, s, n) != Padded(nocase, pad, t, n)
    ensures PaddedCompare(nocase, pad, s, t) == Padded(nocase, pad, s, n) - Padded(nocase, pad, t, n)
  {
    assert FirstDifference(nocase, pad, s, t, 0) >= n;
  }

  lemma PaddedZeroIsEqual(nocase: bool, pad: int, s: Bytes, t: Bytes)
    ensures PaddedCompare(nocase, pad, s, t) == 0 <==>
            forall i: nat :: Padded(nocase, pad, s, i) == Padded(nocase, pad, t, i)
  {
    var n := FirstDifference(nocase, pad, s, t, 0);
    if n >= |Longer(s, t)| {
      forall i: nat ensures Padded(nocase, pad, s, i) == Padded(nocase, pad, t, i) {
        if i < n { assert AgreeBelow(nocase, pad, s, t, n); }
      }
    }
  }

  /** The padded order is a total preorder, for any strings. */
  lemma PaddedIsTotalPreorder(nocase: bool, pad: int, s: Bytes, t: Bytes, u: Bytes)
    ensures PaddedCompare(nocase, pad, s, s) == 0
    ensures PaddedCompare(nocase, pad, t, s) == -PaddedCompare(nocase, pad, s, t)
    ensures PaddedCompare(nocase, pad, s, t) <= 0 && PaddedCompare(nocase, pad, t, u) <= 0 ==>
              PaddedCompare(nocase, pad, s, u) <= 0
  {
    PaddedZeroIsEqual(nocase, pad, s, s);
    PaddedZeroIsEqual(nocase, pad, s, t);
    PaddedZeroIsEqual(nocase, pad, t, s);
    PaddedZeroIsEqual(nocase, pad, t, u);
    var n, m := FirstDifference(nocase, pad, s, t, 0), FirstDifference(nocase, pad, t, u, 0);
    if PaddedCompare(nocase, pad, s, t) != 0 {
      DifferenceDecides(nocase, pad, t, s, n);
    }
    if PaddedCompare(nocase, pad, s, t) < 0 && PaddedCompare(nocase, pad, t, u) <= 0 {
      if PaddedCompare(nocase, pad, t, u) == 0 || n <= m {
        DifferenceDecides(nocase, pad, s, u, n);
      } else {
        DifferenceDecides(nocase, pad, s, u, m);
      }
    } else if PaddedCompare(nocase, pad, s, t) == 0 && PaddedCompare(nocase, pad, t, u) < 0 {
      DifferenceDecides(nocase, pad, s, u, m);
    } else if PaddedCompare(nocase, pad, s, t) == 0 && PaddedCompare(nocase, pad, t, u) == 0 {
      PaddedZeroIsEqual(nocase, pad, s, u);
    }
  }

  /* ---- When the comparison is that order ---- */

  /** The first byte of the overhang that is not a space, or its length. */
  function FirstNonSpace(o: Bytes, from: nat): (n: nat)
    requires from <= |o| && AllSpaces(o[..from])
    ensures from <= n <= |o| && AllSpaces(o[..n])
    ensures n < |o| ==> o[n] != SPACE
    decreases |o| - from
  {
    if from == |o| || o[from] != SPACE then from else FirstNonSpace(o, from + 1)
  }

  /**
   The strings differ before the shorter one ends, or the first byte past it that is not a
   space, if any, is above the space.
   */
  predicate Tame(nocase: bool, s: Bytes, t: Bytes) {
    var n := FirstDifference(nocase, SPACE, s, t, 0);
    var o := Overhang(s, t);
    var k := FirstNonSpace(o, 0);
    n < |Shorter(s, t)| || k == |o| || o[k] > SPACE
  }

  /** Compare reaches position n when the strings agree below it and only white space is passed. */
  lemma {:induction false} CompareReaches(nocase: bool, pad: int, s: Bytes, t: Bytes, n: nat)
    requires n <= |Longer(s, t)|
    requires forall i :: 0 <= i < n && i < |Shorter(s, t)| ==>
               Padded(nocase, pad, s, i) == Padded(nocase, pad, t, i)
    requires forall i :: |Shorter(s, t)| <= i < n ==> IsSpace(Longer(s, t)[i])
    ensures Compare(nocase, s, t) == CompareFrom(nocase, s, t, n)
    decreases n
  {
    if n > 0 {
      CompareReaches(nocase, pad, s, t, n - 1);
      if n <= |Shorter(s, t)| {
        assert Padded(nocase, pad, s, n - 1) == Padded(nocase, pad, t, n - 1);
      }
    }
  }

  /** The comparison is the padded order on exactly the tame pairs. */
  lemma CompareIsPaddedOrder(nocase: bool, s: Bytes, t: Bytes)
    ensures Sign(Compare(nocase, s, t)) == Sign(PaddedCompare(nocase, SPACE, s, t)) <==>
            Tame(nocase, s, t)
  {
    var n, m := FirstDifference(nocase, SPACE, s, t, 0), |Shorter(s, t)|;
    if n < m {
      CompareReaches(nocase, SPACE, s, t, n);
    } else {
      OverhangDecides(nocase, s, t);
    }
  }

  lemma OverhangDecides(nocase: bool, s: Bytes, t: Bytes)
    requires FirstDifference(nocase, SPACE, s, t, 0) >= |Shorter(s, t)|
    ensures Sign(Compare(nocase, s, t)) == Sign(PaddedCompare(nocase, SPACE, s, t)) <==>
            Tame(nocase, s, t)
  {
    var o, m := Overhang(s, t), |Shorter(s, t)|;
    var k := FirstNonSpace(o, 0);
    forall i | m <= i < m + k ensures Longer(s, t)[i] == SPACE {
      assert o[..k][i - m] == SPACE;
    }
    assert AgreeBelow(nocase, SPACE, s, t, m);
    forall i: nat | i < m + k ensures Padded(nocase, SPACE, s, i) == Padded(nocase, SPACE, t, i) {
    }
    CompareReaches(nocase, SPACE, s, t, m + k);
    if k == |o| {
      PaddedZeroIsEqual(nocase, SPACE, s, t);
    } else {
      assert Longer(s, t)[m + k] == o[k];
      FoldKeepsAboveSpace(nocase, o[k]);
      DifferenceDecides(nocase, SPACE, s, t, m + k);
      if o[k] < SPACE {
        CompareSignPastSpace(nocase, s, t, m + k);
      }
    }
  }

  lemma FoldKeepsAboveSpace(nocase: bool, b: Byte)
    ensures Folded(nocase, b) == SPACE <==> b == SPACE
    ensures Folded(nocase, b) > SPACE <==> b > SPACE
  {
  }

  /** In the overhang the comparison can only find the longer string greater. */
  lemma CompareSignPastSpace(nocase: bool, s: Bytes, t: Bytes, i: nat)
    requires |Shorter(s, t)| <= i
    ensures CompareFrom(nocase, s, t, i) == 0 || CompareFrom(nocase, s, t, i) == |s| - |t|
    decreases |s| + |t| - i
  {
    if i < |Longer(s, t)| && IsSpace(Longer(s, t)[i]) {
      CompareSignPastSpace(nocase, s, t, i + 1);
    }
  }

  /** White space in the string is the pad only, and every other byte is above it. */
  predicate PaddedBy(pad: int, s: Bytes) {
    forall i {:trigger s[i]} :: 0 <= i < |s| ==> if IsSpace(s[i]) then s[i] == pad else s[i] > pad
  }

  lemma FoldKeepsAbovePad(nocase: bool, pad: int, b: Byte)
    requires if IsSpace(b) then b == pad else b > pad
    ensures if IsSpace(b) then Folded(nocase, b) == pad else Folded(nocase, b) > pad
  {
  }

  /** On such strings the comparison is the lexicographic order of the padded strings. */
  lemma CompareIsOrderOfPad(nocase: bool, pad: int, s: Bytes, t: Bytes)
    requires PaddedBy(pad, s) && PaddedBy(pad, t)
    ensures Sign(Compare(nocase, s, t)) == Sign(PaddedCompare(nocase, pad, s, t))
  {
    var n, long := FirstDifference(nocase, pad, s, t, 0), Longer(s, t);
    var k := if n < |long| then n else |long|;
    forall i | |Shorter(s, t)| <= i < k ensures IsSpace(long[i]) {
      assert Padded(nocase, pad, s, i) == Padded(nocase, pad, t, i);
      FoldKeepsAbovePad(nocase, pad, long[i]);
    }
    CompareReaches(nocase, pad, s, t, k);
    if n < |long| {
      FoldKeepsAbovePad(nocase, pad, long[n]);
    }
  }

  lemma CompareIsPreorderOfPad(nocase: bool, pad: int, s: Bytes, t: Bytes, u: Bytes)
    requires PaddedBy(pad, s) && PaddedBy(pad, t) && PaddedBy(pad, u)
    ensures Compare(nocase, s, s) == 0
    ensures Sign(Compare(nocase, t, s)) == -Sign(Compare(nocase, s, t))
    ensures Compare(nocase, s, t) <= 0 && Compare(nocase, t, u) <= 0 ==> Compare(nocase, s, u) <= 0
  {
    PaddedIsTotalPreorder(nocase, pad, s, t, u);
    CompareIsOrderOfPad(nocase, pad, s, s);
    CompareIsOrderOfPad(nocase, pad, s, t);
    CompareIsOrderOfPad(nocase, pad, t, s);
    CompareIsOrderOfPad(nocase, pad, t, u);
    CompareIsOrderOfPad(nocase, pad, s, u);
  }

  /** No byte below the space. */
  predicate Printable(s: Bytes) {
    forall i :: 0 <= i < |s| ==> s[i] >= SPACE
  }

  /** On printable strings the comparison is a total preorder. */
  lemma CompareIsTotalPreorder(nocase: bool, s: Bytes, t: Bytes, u: Bytes)
    requires Printable(s) && Printable(t) && Printable(u)
    ensures Compare(nocase, s, s) == 0
    ensures Sign(Compare(nocase, t, s)) == -Sign(Compare(nocase, s, t))
    ensures Compare(nocase, s, t) <= 0 && Compare(nocase, t, u) <= 0 ==>
              Compare(nocase, s, u) <= 0
  {
    CompareIsPreorderOfPad(nocase, SPACE, s, t, u);
  }

  /** The string uses these bytes only. */
  predicate Over(s: Bytes, bytes: set<Byte>) {
    forall i {:trigger s[i]} :: 0 <= i < |s| ==> s[i] in bytes
  }

  ghost predicate TransitiveOver(nocase: bool, bytes: set<Byte>) {
    forall s, t, u {:trigger Compare(nocase, s, t), Compare(nocase, t, u)} ::
      Over(s, bytes) && Over(t, bytes) && Over(u, bytes) ==>
        (Compare(nocase, s, t) <= 0 && Compare(nocase, t, u) <= 0 ==> Compare(nocase, s, u) <= 0)
  }

  /** No white space is above another byte of the set, so there is at most one kind of it. */
  ghost predicate WhiteIsLowest(bytes: set<Byte>) {
    forall w, b :: w in bytes && b in bytes && IsSpace(w) ==> w <= b
  }

  /**
   On the strings over any set of bytes the comparison is transitive if and only if no white space
   of the set is above another byte of it: such bytes w and b give "w" <= "" <= "b" < "w".
   */
  lemma TransitiveExactly(nocase: bool, bytes: set<Byte>)
    ensures TransitiveOver(nocase, bytes) <==> WhiteIsLowest(bytes)
  {
    if WhiteIsLowest(bytes) {
      var pad := PadOf(bytes);
      forall s, t, u | Over(s, bytes) && Over(t, bytes) && Over(u, bytes)
                       && Compare(nocase, s, t) <= 0 && Compare(nocase, t, u) <= 0
        ensures Compare(nocase, s, u) <= 0
      {
        CompareIsPreorderOfPad(nocase, pad, s, t, u);
      }
    } else {
      var w, b :| w in bytes && b in bytes && IsSpace(w) && b < w;
      WhiteChain(nocase, w, b);
      assert Over([w], bytes) && Over([], bytes) && Over([b], bytes);
    }
  }

  lemma PadOf(bytes: set<Byte>) returns (pad: int)
    requires WhiteIsLowest(bytes)
    ensures forall s {:trigger Over(s, bytes)} :: Over(s, bytes) ==> PaddedBy(pad, s)
  {
    if w :| w in bytes && IsSpace(w) {
      pad := w;
    } else {
      pad := -1;
    }
  }

  lemma WhiteChain(nocase: bool, w: Byte, b: Byte)
    requires IsSpace(w) && b < w
    ensures Compare(nocase, [w], []) <= 0 && Compare(nocase, [], [b]) <= 0
    ensures Compare(nocase, [w], [b]) > 0
  {
    assert CompareFrom(nocase, [w], [], 1) == 0 == CompareFrom(nocase, [], [b], 1);
  }

  /** For instance "a" = "a\t" and "a" = "a ", yet "a\t" < "a ". */
  lemma TabsBreakTransitivity()
    ensures Compare(true, [97, 9], [97]) == 0 == Compare(true, [97], [97, 32])
    ensures Compare(true, [97, 9], [97, 32]) < 0
  {
  }

  /* ---- The stored form of a key ---- */

  function FoldAll(nocase: bool, s: Bytes): (r: Bytes)
    ensures |r| == |s| && forall i :: 0 <= i < |s| ==> r[i] == Folded(nocase, s[i])
  {
    seq(|s|, i requires 0 <= i < |s| => Folded(nocase, s[i]))
  }

  function TrimEnd(s: Bytes): (r: Bytes)
    ensures r <= s && AllSpaces(s[|r|..])
    ensures r == [] || r[|r| - 1] != SPACE
  {
    if s == [] || s[|s| - 1] != SPACE then s
    else
      var r := TrimEnd(s[..|s| - 1]);
      assert s[|r|..] == s[..|s| - 1][|r|..] + [SPACE];
      r
  }

  /** What is left of a key when trailing spaces are dropped. A blank key is not trimmed. */
  function Trimmed(f: Bytes): Bytes
  {
    if TrimEnd(f) != [] then TrimEnd(f) else f
  }

  /** The bytes a hash function leaves in the key buffer. */
  function Normal(nocase: bool, rtrim: bool, s: Bytes): Bytes
  {
    var f := FoldAll(nocase, s);
    if rtrim then Trimmed(f) else f
  }

  function FirstNonWhite(o: Bytes, from: nat): (n: nat)
    requires from <= |o| && forall i :: 0 <= i < from ==> IsSpace(o[i])
    ensures from <= n <= |o| && forall i :: 0 <= i < n ==> IsSpace(o[i])
    ensures n < |o| ==> !IsSpace(o[n])
    decreases |o| - from
  {
    if from == |o| || !IsSpace(o[from]) then from else FirstNonWhite(o, from + 1)
  }

  /** The comparison finds two strings equal when only white space is left over. */
  lemma CompareZero(nocase: bool, s: Bytes, t: Bytes)
    ensures var m := |Shorter(s, t)|;
            Compare(nocase, s, t) == 0 <==>
              (FoldAll(nocase, s)[..m] == FoldAll(nocase, t)[..m]
               && forall i :: m <= i < |Longer(s, t)| ==> IsSpace(Longer(s, t)[i]))
  {
    var m := |Shorter(s, t)|;
    var n := FirstDifference(nocase, SPACE, s, t, 0);
    if n < m {
      CompareReaches(nocase, SPACE, s, t, n);
      assert FoldAll(nocase, s)[..m][n] != FoldAll(nocase, t)[..m][n];
    } else {
      forall i | 0 <= i < m ensures FoldAll(nocase, s)[i] == FoldAll(nocase, t)[i] {
        assert Padded(nocase, SPACE, s, i) == Padded(nocase, SPACE, t, i);
      }
      var k := FirstNonWhite(Overhang(s, t), 0);
      forall i | m <= i < m + k ensures IsSpace(Longer(s, t)[i]) {
        assert IsSpace(Overhang(s, t)[i - m]);
      }
      CompareReaches(nocase, SPACE, s, t, m + k);
      if m + k < |Longer(s, t)| {
        assert Longer(s, t)[m + k] == Overhang(s, t)[k];
      }
    }
  }

  /** At least one byte is not a space. */
  predicate HasText(s: Bytes) {
    exists i :: 0 <= i < |s| && s[i] != SPACE
  }

  /** The trimmed form does not see a run of spaces added to a key with text. */
  lemma TrimEndDropsSpaces(w: Bytes, sp: Bytes)
    requires AllSpaces(sp)
    ensures TrimEnd(w + sp) == TrimEnd(w)
    decreases |sp|
  {
    if sp == [] {
      assert w + sp == w;
    } else {
      assert (w + sp)[..|w + sp| - 1] == w + sp[..|sp| - 1];
      TrimEndDropsSpaces(w, sp[..|sp| - 1]);
    }
  }

  lemma TrimEndOfText(s: Bytes)
    ensures TrimEnd(s) != [] <==> HasText(s)
  {
    var r := TrimEnd(s);
    if r == [] {
      assert s[|r|..] == s;
    } else {
      assert s[|r| - 1] != SPACE;
    }
  }

  /**
   For a trimming table two keys are stored alike exactly when the comparison calls them equal
   and either they have the same length, or the shorter has text and only spaces are left over.
   */
  lemma StoredAlike(nocase: bool, s: Bytes, t: Bytes)
    ensures Normal(nocase, true, s) == Normal(nocase, true, t) <==>
              Compare(nocase, s, t) == 0
              && (|s| == |t| || (HasText(Shorter(s, t)) && AllSpaces(Overhang(s, t))))
  {
    if |s| > |t| {
      StoredAlikeOrdered(nocase, t, s);
      CompareZero(nocase, t, s);
      CompareZero(nocase, s, t);
    } else {
      StoredAlikeOrdered(nocase, s, t);
    }
  }

  lemma StoredAlikeOrdered(nocase: bool, s: Bytes, t: Bytes)
    requires |s| <= |t|
    ensures Normal(nocase, true, s) == Normal(nocase, true, t) <==>
              Compare(nocase, s, t) == 0
              && (|s| == |t| || (HasText(s) && AllSpaces(t[|s|..])))
  {
    CompareZero(nocase, s, t);
    var fs, ft := FoldAll(nocase, s), FoldAll(nocase, t);
    TrimmedAlike(fs, ft);
    FoldKeepsText(nocase, s);
    FoldKeepsSpaces(nocase, t, |s|);
    assert fs[..|s|] == fs;
    if AllSpaces(t[|s|..]) {
      forall i | |s| <= i < |t| ensures IsSpace(t[i]) {
        assert t[|s|..][i - |s|] == SPACE;
      }
    }
  }

  lemma FoldKeepsText(nocase: bool, s: Bytes)
    ensures HasText(FoldAll(nocase, s)) <==> HasText(s)
  {
    if HasText(s) {
      var i :| 0 <= i < |s| && s[i] != SPACE;
      FoldKeepsAboveSpace(nocase, s[i]);
      assert FoldAll(nocase, s)[i] != SPACE;
    }
    if HasText(FoldAll(nocase, s)) {
      var i :| 0 <= i < |s| && FoldAll(nocase, s)[i] != SPACE;
      FoldKeepsAboveSpace(nocase, s[i]);
    }
  }

  lemma FoldKeepsSpaces(nocase: bool, t: Bytes, n: nat)
    requires n <= |t|
    ensures AllSpaces(FoldAll(nocase, t)[n..]) <==> AllSpaces(t[n..])
  {
    forall i | 0 <= i < |t| - n
      ensures FoldAll(nocase, t)[n..][i] == SPACE <==> t[n..][i] == SPACE
    {
      FoldKeepsAboveSpace(nocase, t[n + i]);
    }
  }

  /** Trimmed alike: the keys differ only by spaces at the end, and not at all if blank. */
  lemma TrimmedAlike(f: Bytes, g: Bytes)
    requires |f| <= |g|
    ensures Trimmed(f) == Trimmed(g) <==>
              f == g[..|f|] && AllSpaces(g[|f|..]) && (|f| == |g| || HasText(f))
  {
    TrimEndOfText(f);
    TrimEndOfText(g);
    TrimEndOfText(Trimmed(f));
    assert g == g[..|f|] + g[|f|..];
    if f == g[..|f|] && AllSpaces(g[|f|..]) {
      TrimEndDropsSpaces(f, g[|f|..]);
    }
    if Trimmed(f) == Trimmed(g) && HasText(f) {
      assert HasText(g) by { TrimmedKeepsText(f); TrimmedKeepsText(g); }
      SameTextSameKey(f, g, TrimEnd(f));
    }
    if Trimmed(f) == Trimmed(g) && !HasText(f) {
      assert !HasText(g) by { TrimmedKeepsText(f); TrimmedKeepsText(g); }
    }
  }

  lemma TrimmedKeepsText(f: Bytes)
    ensures HasText(Trimmed(f)) <==> HasText(f)
  {
    TrimEndOfText(f);
    var r := TrimEnd(f);
    if r != [] {
      assert r[|r| - 1] != SPACE;
    }
  }

  lemma SameTextSameKey(f: Bytes, g: Bytes, r: Bytes)
    requires |f| <= |g| && r <= f && r <= g
    requires AllSpaces(f[|r|..]) && AllSpaces(g[|r|..])
    ensures f == g[..|f|] && AllSpaces(g[|f|..])
  {
    assert g[|f|..] == g[|r|..][|f| - |r|..];
    forall i | 0 <= i < |f| ensures f[i] == g[i] {
      if i >= |r| {
        assert f[|r|..][i - |r|] == SPACE && g[|r|..][i - |r|] == SPACE;
      }
    }
  }

  /** Keys with text whose only white space is the space itself. */
  predicate ProperKey(s: Bytes) {
    HasText(s) && forall i :: 0 <= i < |s| ==> IsSpace(s[i]) ==> s[i] == SPACE
  }

  /** For proper keys the table and the comparison agree on which keys are equal. */
  lemma HashAgreesWithCompare(nocase: bool, s: Bytes, t: Bytes)
    requires ProperKey(s) && ProperKey(t)
    ensures Normal(nocase, true, s) == Normal(nocase, true, t) <==>
              Compare(nocase, s, t) == 0
  {
    StoredAlike(nocase, s, t);
    CompareZero(nocase, s, t);
  }

  /** The two families that are equal to the comparison and different to the table. */
  lemma BlankAndTabKeysDisagree()
    ensures Compare(true, [32], [32, 32]) == 0
    ensures Normal(true, true, [32]) != Normal(true, true, [32, 32])
    ensures Compare(true, [97], [97, 9]) == 0
    ensures Normal(true, true, [97]) != Normal(true, true, [97, 9])
  {
    StoredAlike(true, [32], [32, 32]);
    StoredAlike(true, [97], [97, 9]);
    assert [97, 9][1..] == [9];
  }
}
