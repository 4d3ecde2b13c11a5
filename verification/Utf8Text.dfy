/**
 LEFT, RIGHT and SUBSTRING (lib/scalarfn.c): scanning UTF-8 forwards by lead bytes and backwards
 over continuation bytes, as in section 3 of RFC 3629.

 The bit tests are written as ranges: 0xxxxxxx is below 128, 10xxxxxx from 128, 110xxxxx from 192,
 1110xxxx from 224 and 11110xxx from 240 to 247. None stands for a failed function.
 */
module Utf8Text {
  import opened Assoc
  import opened Common
  import opened Keys

  predicate IsContinuation(b: Byte) {
    128 <= b < 192
  }

  /** The length a lead byte announces; 0 when it is none. */
  function LengthOf(b: Byte): nat
  {
    if b < 128 then 1
    else if 192 <= b < 224 then 2
    else if 224 <= b < 240 then 3
    else if 240 <= b < 248 then 4
    else 0
  }

  /** _get_byte_count. */
  function ByteCount(b: Byte, limit: nat): (n: Option<nat>)
    ensures n.Some? ==> n.value > 0
  {
    if b < 128 then Some(1)
    else if LengthOf(b) == 0 || LengthOf(b) > limit then None
    else Some(LengthOf(b))
  }

  /** How many continuation bytes stand before position end. */
  function Run(s: Bytes, end: nat): (n: nat)
    requires end <= |s|
    ensures n <= end
  {
    if end > 0 && IsContinuation(s[end - 1]) then 1 + Run(s, end - 1) else 0
  }

  lemma {:induction false} RunIsContinuation(s: Bytes, end: nat)
    requires end <= |s|
    ensures forall i :: end - Run(s, end) <= i < end ==> IsContinuation(s[i])
    ensures Run(s, end) < end ==> !IsContinuation(s[end - Run(s, end) - 1])
  {
    if end > 0 && IsContinuation(s[end - 1]) {
      RunIsContinuation(s, end - 1);
    }
  }

  /** _get_rev_byte_count at the byte before end. */
  function RevByteCount(s: Bytes, end: nat): (n: Option<nat>)
    requires 0 < end <= |s|
    ensures n.Some? ==> 0 < n.value <= end
  {
    var run := Run(s, end);
    if s[end - 1] < 128 then Some(1)
    else if run == end || run == 0 || run > 3 || LengthOf(s[end - run - 1]) != run + 1 then None
    else Some(run + 1)
  }

  /** The backward scan as it is written. */
  method GetRevByteCount(s: Bytes, end: nat) returns (n: Option<nat>)
    requires 0 < end <= |s|
    ensures n == RevByteCount(s, end)
  {
    if s[end - 1] < 128 {
      return Some(1);
    }
    var i := 0;
    while i < end && IsContinuation(s[end - 1 - i])
      invariant i <= end && Run(s, end) == i + Run(s, end - i)
      decreases end - i
    {
      i := i + 1;
    }
    if i >= end {
      return None;
    }
    var lead := s[end - 1 - i];
    var valid := match i + 1
                 case 2 => 192 <= lead < 224
                 case 3 => 224 <= lead < 240
                 case 4 => 240 <= lead < 248
                 case _ => false;
    n := if valid then Some(i + 1) else None;
  }

  /** Where the forward scan stands after at most n characters from idx on. */
  function Forward(s: Bytes, idx: nat, n: nat): (end: Option<nat>)
    requires idx <= |s|
    ensures end.Some? ==> idx <= end.value <= |s|
    decreases n
  {
    if n == 0 || idx == |s| then Some(idx)
    else
      match ByteCount(s[idx], |s| - idx)
      case None => None
      case Some(bytes) => Forward(s, idx + bytes, n - 1)
  }

  /** Where the backward scan stands after at most n characters before end. */
  function Backward(s: Bytes, end: nat, n: nat): (start: Option<nat>)
    requires end <= |s|
    ensures start.Some? ==> start.value <= end
    decreases n
  {
    if n == 0 || end == 0 then Some(end)
    else
      match RevByteCount(s, end)
      case None => None
      case Some(bytes) => Backward(s, end - bytes, n - 1)
  }

  /** Where string_strncpy stops: at a zero byte or at the limit. */
  function ZeroAt(s: Bytes, i: nat): (end: nat)
    requires i <= |s|
    ensures i <= end <= |s|
    decreases |s| - i
  {
    if i == |s| || s[i] == 0 then i else ZeroAt(s, i + 1)
  }

  function UpToZero(s: Bytes): Bytes
  {
    s[..ZeroAt(s, 0)]
  }

  predicate ZeroFree(s: Bytes) {
    forall i {:trigger s[i]} :: 0 <= i < |s| ==> s[i] != 0
  }

  lemma {:induction false} NoZeroFrom(s: Bytes, i: nat)
    requires ZeroFree(s) && i <= |s|
    ensures ZeroAt(s, i) == |s|
    decreases |s| - i
  {
    if i < |s| {
      NoZeroFrom(s, i + 1);
    }
  }

  lemma ZeroFreeIsKept(s: Bytes)
    requires ZeroFree(s)
    ensures UpToZero(s) == s
  {
    NoZeroFrom(s, 0);
  }

  function Copied(s: Bytes, start: nat, end: nat): Bytes
    requires start <= end <= |s|
  {
    UpToZero(s[start..end])
  }

  function LeftOf(s: Bytes, n: int, charAsByte: bool): Option<Bytes>
  {
    if n < 0 then None
    else if n > |s| then Some(Copied(s, 0, |s|))
    else if charAsByte then Some(Copied(s, 0, n))
    else
      match Forward(s, 0, n)
      case None => None
      case Some(end) => Some(Copied(s, 0, end))
  }

  /** fql_left. */
  method Left(s: Bytes, n: int, charAsByte: bool) returns (r: Option<Bytes>)
    ensures r == LeftOf(s, n, charAsByte)
  {
    if n < 0 {
      return None;
    }
    if n > |s| {
      return Some(Copied(s, 0, |s|));
    }
    if charAsByte {
      return Some(Copied(s, 0, n));
    }
    var end := ScanForward(s, 0, n);
    if end.None? {
      return None;
    }
    r := Some(Copied(s, 0, end.value));
  }

  /** The forward loop: idx moves on by the bytes of one character. */
  method ScanForward(s: Bytes, start: nat, n: int) returns (end: Option<nat>)
    requires start <= |s| && n >= 0
    ensures end == Forward(s, start, n)
  {
    var idx, charCount := start, 0;
    while charCount < n && idx < |s|
      invariant start <= idx <= |s| && 0 <= charCount <= n
      invariant Forward(s, start, n) == Forward(s, idx, n - charCount)
      decreases n - charCount
    {
      var bytes := ByteCount(s[idx], |s| - idx);
      if bytes.None? {
        return None;
      }
      charCount := charCount + 1;
      idx := idx + bytes.value;
    }
    end := Some(idx);
  }

  /** Behind a text that is longer than its view the copy of more bytes than it has goes on. */
  function RightOf(s: Bytes, behind: Bytes, n: int, charAsByte: bool): Option<Bytes>
  {
    if n < 0 then None
    else if n > |s| then Some(UpToZero(if n < |s + behind| then (s + behind)[..n] else s + behind))
    else if charAsByte then Some(Copied(s, |s| - n, |s|))
    else
      match Backward(s, |s|, n)
      case None => None
      case Some(start) => Some(Copied(s, start, |s|))
  }

  /** fql_right; behind is what follows the text in memory up to the next zero byte. */
  method Right(s: Bytes, behind: Bytes, n: int, charAsByte: bool) returns (r: Option<Bytes>)
    ensures r == RightOf(s, behind, n, charAsByte)
  {
    if n < 0 {
      return None;
    }
    if n > |s| {
      var reached := s + behind;
      return Some(UpToZero(if n < |reached| then reached[..n] else reached));
    }
    if charAsByte {
      return Some(Copied(s, |s| - n, |s|));
    }
    var start := ScanBackward(s, n);
    if start.None? {
      return None;
    }
    r := Some(Copied(s, start.value, |s|));
  }

  /** The backward loop: end is one past idx, the last byte not yet passed. */
  method ScanBackward(s: Bytes, n: int) returns (start: Option<nat>)
    requires n >= 0
    ensures start == Backward(s, |s|, n)
  {
    var end: nat, charCount := |s|, 0;
    while end > 0 && charCount < n
      invariant end <= |s| && 0 <= charCount <= n
      invariant Backward(s, |s|, n) == Backward(s, end, n - charCount)
      decreases n - charCount
    {
      var bytes := GetRevByteCount(s, end);
      if bytes.None? {
        return None;
      }
      end := end - bytes.value;
      charCount := charCount + 1;
    }
    start := Some(end);
  }

  /** The characters dropped in front: start may lie before the text or far behind it. */
  function Skip(s: Bytes, start: int, charAsByte: bool): (idx: Option<nat>)
    ensures idx.Some? ==> idx.value <= |s|
  {
    if start <= 0 then Some(0)
    else if charAsByte then Some(if start < |s| then start else |s|)
    else Forward(s, 0, start)
  }

  /** A start before the text shortens the length; a negative length of bytes cannot be served. */
  function SubstringOf(s: Bytes, k: int, n: int, charAsByte: bool): Option<Bytes>
  {
    if n < 0 then None
    else
      match Skip(s, k - 1, charAsByte)
      case None => None
      case Some(idx) =>
        var left := if k < 1 then n + k - 1 else n;
        if idx + left > |s| then Some(Copied(s, idx, |s|))
        else if charAsByte then if left < 0 then None else Some(Copied(s, idx, idx + left))
        else
          match Forward(s, idx, if left < 0 then 0 else left)
          case None => None
          case Some(end) => Some(Copied(s, idx, end))
  }

  /** fql_substring. */
  method Substring(s: Bytes, k: int, n: int, charAsByte: bool) returns (r: Option<Bytes>)
    ensures r == SubstringOf(s, k, n, charAsByte)
  {
    var start, left := k - 1, n;
    if left < 0 {
      return None;
    }
    var idx := SkipForward(s, start, charAsByte);
    if idx.None? {
      return None;
    }
    if start < 0 {
      left := left + start;
    }
    if idx.value + left > |s| {
      return Some(Copied(s, idx.value, |s|));
    }
    if charAsByte {
      return if left < 0 then None else Some(Copied(s, idx.value, idx.value + left));
    }
    var end := ScanForward(s, idx.value, if left < 0 then 0 else left);
    if end.None? {
      return None;
    }
    r := Some(Copied(s, idx.value, end.value));
  }

  /** The first loop of fql_substring. */
  method SkipForward(s: Bytes, start: int, charAsByte: bool) returns (end: Option<nat>)
    ensures end == Skip(s, start, charAsByte)
  {
    var idx, charCount := 0, 0;
    while charCount < start && idx < |s|
      invariant 0 <= idx <= |s| && 0 <= charCount && (start > 0 ==> charCount <= start)
      invariant start <= 0 ==> idx == 0
      invariant start > 0 && charAsByte ==> idx == charCount
      invariant start > 0 && !charAsByte ==> Forward(s, 0, start) == Forward(s, idx, start - charCount)
      decreases |s| - idx
    {
      var bytes := 1;
      if !charAsByte {
        var count := ByteCount(s[idx], |s| - idx);
        if count.None? {
          return None;
        }
        bytes := count.value;
      }
      charCount := charCount + 1;
      idx := idx + bytes;
    }
    end := Some(idx);
  }

  /* ---- Text as characters ---- */

  /** One encoded character: a lead byte and the continuation bytes it announces. */
  predicate IsChar(c: Bytes) {
    && c != [] && LengthOf(c[0]) == |c|
    && forall i {:trigger c[i]} :: 1 <= i < |c| ==> IsContinuation(c[i])
  }

  predicate AllChars(cs: seq<Bytes>) {
    forall i {:trigger cs[i]} :: 0 <= i < |cs| ==> IsChar(cs[i])
  }

  /** The characters from i up to j, written out. */
  function Span(cs: seq<Bytes>, i: nat, j: nat): Bytes
    requires j <= |cs|
    decreases j
  {
    if i >= j then [] else Span(cs, i, j - 1) + cs[j - 1]
  }

  function Text(cs: seq<Bytes>): Bytes
  {
    Span(cs, 0, |cs|)
  }

  /** The byte position at which character i starts. */
  function At(cs: seq<Bytes>, i: nat): nat
    requires i <= |cs|
  {
    |Span(cs, 0, i)|
  }

  lemma {:induction false} SpanParts(cs: seq<Bytes>, i: nat, j: nat, k: nat)
    requires i <= j <= k <= |cs|
    ensures Span(cs, i, k) == Span(cs, i, j) + Span(cs, j, k)
    decreases k
  {
    if j < k {
      SpanParts(cs, i, j, k - 1);
    }
  }

  /** Between two character positions stand the characters between. */
  lemma SpanIsSlice(cs: seq<Bytes>, i: nat, j: nat)
    requires i <= j <= |cs|
    ensures At(cs, i) <= At(cs, j) <= |Text(cs)|
    ensures Text(cs)[At(cs, i)..At(cs, j)] == Span(cs, i, j)
  {
    SpanParts(cs, 0, j, |cs|);
    SpanParts(cs, 0, i, j);
    SliceOfThree(Span(cs, 0, i), Span(cs, i, j), Span(cs, j, |cs|));
  }

  lemma SliceOfThree(a: Bytes, b: Bytes, c: Bytes)
    ensures (a + b + c)[|a|..|a + b|] == b
  {
  }

  lemma {:induction false} PositionsGrow(cs: seq<Bytes>, i: nat, j: nat)
    requires AllChars(cs) && i <= j <= |cs|
    ensures At(cs, j) >= At(cs, i) + (j - i)
    decreases j
  {
    if i < j {
      assert IsChar(cs[j - 1]);
      PositionsGrow(cs, i, j - 1);
    }
  }

  function Least(n: nat, m: nat): nat
  {
    if n < m then n else m
  }

  /** A character is passed whole, forwards by its lead byte and backwards by its tail. */
  lemma CharIsPassed(s: Bytes, at: nat, c: Bytes)
    requires IsChar(c) && at + |c| <= |s| && s[at..at + |c|] == c
    ensures ByteCount(s[at], |s| - at) == Some(|c|)
    ensures RevByteCount(s, at + |c|) == Some(|c|)
  {
    assert s[at] == s[at..at + |c|][0] == c[0];
    RunOfChar(s, at, c, |c| - 1);
  }

  lemma {:induction false} RunOfChar(s: Bytes, at: nat, c: Bytes, k: nat)
    requires IsChar(c) && at + |c| <= |s| && s[at..at + |c|] == c && k < |c|
    ensures Run(s, at + 1 + k) == k || (k == 0 && IsContinuation(c[0]))
  {
    assert s[at + k] == s[at..at + |c|][k] == c[k];
    if k > 0 {
      RunOfChar(s, at, c, k - 1);
    }
  }

  lemma CharAt(cs: seq<Bytes>, i: nat)
    requires i < |cs|
    ensures At(cs, i + 1) == At(cs, i) + |cs[i]| <= |Text(cs)|
    ensures Text(cs)[At(cs, i)..At(cs, i) + |cs[i]|] == cs[i]
  {
    SpanIsSlice(cs, i, i + 1);
    assert Span(cs, i, i + 1) == [] + cs[i];
  }

  /** From a character position the forward scan moves to the position n characters on. */
  lemma {:induction false} ForwardPasses(cs: seq<Bytes>, i: nat, n: nat)
    requires AllChars(cs) && i <= |cs|
    ensures At(cs, i) <= |Text(cs)|
    ensures Forward(Text(cs), At(cs, i), n) == Some(At(cs, Least(i + n, |cs|)))
    decreases n
  {
    if i < |cs| && n > 0 {
      assert IsChar(cs[i]);
      CharAt(cs, i);
      CharIsPassed(Text(cs), At(cs, i), cs[i]);
      ForwardPasses(cs, i + 1, n - 1);
    } else {
      SpanIsSlice(cs, i, |cs|);
    }
  }

  function Before(i: nat, n: nat): nat
  {
    if n < i then i - n else 0
  }

  lemma BackwardStep(s: Bytes, end: nat, n: nat, bytes: nat)
    requires 0 < end <= |s| && n > 0 && RevByteCount(s, end) == Some(bytes)
    ensures bytes <= end && Backward(s, end, n) == Backward(s, end - bytes, n - 1)
  {
  }

  /** And the backward scan to the position n characters before. */
  lemma {:induction false} BackwardPasses(cs: seq<Bytes>, i: nat, n: nat, to: nat)
    requires AllChars(cs) && to <= i <= |cs| && to == Before(i, n)
    ensures At(cs, i) <= |Text(cs)|
    ensures Backward(Text(cs), At(cs, i), n) == Some(At(cs, to))
    decreases n
  {
    if i > 0 && n > 0 {
      BackwardOverChar(cs, i - 1, n);
      BackwardPasses(cs, i - 1, n - 1, to);
    } else {
      SpanIsSlice(cs, i, |cs|);
      BackwardStays(Text(cs), At(cs, i), n);
    }
  }

  lemma BackwardStays(s: Bytes, end: nat, n: nat)
    requires end <= |s| && (end == 0 || n == 0)
    ensures Backward(s, end, n) == Some(end)
  {
  }

  lemma BackwardOverChar(cs: seq<Bytes>, i: nat, n: nat)
    requires AllChars(cs) && i < |cs| && n > 0
    ensures At(cs, i) <= At(cs, i + 1) <= |Text(cs)|
    ensures Backward(Text(cs), At(cs, i + 1), n) == Backward(Text(cs), At(cs, i), n - 1)
  {
    assert IsChar(cs[i]);
    CharAt(cs, i);
    CharIsPassed(Text(cs), At(cs, i), cs[i]);
    BackwardStep(Text(cs), At(cs, i + 1), n, |cs[i]|);
  }

  lemma SpanCopied(cs: seq<Bytes>, i: nat, j: nat)
    requires ZeroFree(Text(cs)) && i <= j <= |cs|
    ensures At(cs, i) <= At(cs, j) <= |Text(cs)|
    ensures Copied(Text(cs), At(cs, i), At(cs, j)) == Span(cs, i, j)
  {
    SpanIsSlice(cs, i, j);
    ZeroFreeIsKept(Text(cs)[At(cs, i)..At(cs, j)]);
  }

  lemma SkipPasses(cs: seq<Bytes>, n: nat)
    requires AllChars(cs)
    ensures Forward(Text(cs), 0, n) == Some(At(cs, Least(n, |cs|)))
  {
    ForwardPasses(cs, 0, n);
    assert At(cs, 0) == 0 && Least(0 + n, |cs|) == Least(n, |cs|);
  }

  /** LEFT takes the first n characters, or all there are. */
  lemma LeftTakes(cs: seq<Bytes>, n: nat)
    requires AllChars(cs) && ZeroFree(Text(cs))
    ensures LeftOf(Text(cs), n, false) == Some(Span(cs, 0, Least(n, |cs|)))
  {
    SkipPasses(cs, n);
    SpanCopied(cs, 0, Least(n, |cs|));
    PositionsGrow(cs, 0, |cs|);
  }

  /** RIGHT takes the last n characters, or all there are, as long as n is at most the byte length. */
  lemma RightTakes(cs: seq<Bytes>, behind: Bytes, n: nat)
    requires AllChars(cs) && ZeroFree(Text(cs)) && n <= |Text(cs)|
    ensures RightOf(Text(cs), behind, n, false) == Some(Span(cs, Before(|cs|, n), |cs|))
  {
    BackwardPasses(cs, |cs|, n, Before(|cs|, n));
    SpanCopied(cs, Before(|cs|, n), |cs|);
  }

  /** Asked for more than there is, RIGHT returns the text if and only if a zero byte follows it. */
  lemma RightPastTheEnd(s: Bytes, behind: Bytes, n: nat, charAsByte: bool)
    requires ZeroFree(s + behind) && n > |s|
    ensures RightOf(s, behind, n, charAsByte) == Some(s) <==> behind == []
  {
    var reached := if n < |s + behind| then (s + behind)[..n] else s + behind;
    ZeroFreeIsKept(reached);
    if behind == [] {
      assert s + behind == s;
    } else {
      assert |reached| > |s|;
    }
  }

  /** The first n characters and the others make up the text. */
  lemma LeftAndRightRebuild(cs: seq<Bytes>, behind: Bytes, n: nat)
    requires AllChars(cs) && ZeroFree(Text(cs)) && n <= |cs|
    ensures var left, right := LeftOf(Text(cs), n, false), RightOf(Text(cs), behind, |cs| - n, false);
            left.Some? && right.Some? && left.value + right.value == Text(cs)
  {
    PositionsGrow(cs, 0, |cs|);
    LeftTakes(cs, n);
    RightTakes(cs, behind, |cs| - n);
    SpanParts(cs, 0, n, |cs|);
    assert Least(n, |cs|) == n && Before(|cs|, |cs| - n) == n;
  }

  /** SUBSTRING from position k >= 1 on drops k - 1 characters and takes the next n. */
  lemma SubstringTakes(cs: seq<Bytes>, k: nat, n: nat)
    requires AllChars(cs) && ZeroFree(Text(cs)) && k >= 1
    ensures var from := Least(k - 1, |cs|);
            SubstringOf(Text(cs), k, n, false) == Some(Span(cs, from, Least(from + n, |cs|)))
  {
    var from := Least(k - 1, |cs|);
    SubstringBetween(cs, k, n, from, Least(from + n, |cs|));
  }

  lemma SubstringBetween(cs: seq<Bytes>, k: nat, n: nat, from: nat, end: nat)
    requires AllChars(cs) && ZeroFree(Text(cs)) && k >= 1
    requires from == Least(k - 1, |cs|) && end == Least(from + n, |cs|)
    ensures SubstringOf(Text(cs), k, n, false) == Some(Span(cs, from, end))
  {
    SubstringScans(cs, k, n, from, end);
    SpanCopied(cs, from, end);
    SubstringCopies(Text(cs), k, n, At(cs, from), At(cs, end), Span(cs, from, end));
  }

  lemma SubstringScans(cs: seq<Bytes>, k: nat, n: nat, from: nat, end: nat)
    requires AllChars(cs) && k >= 1 && from == Least(k - 1, |cs|) && end == Least(from + n, |cs|)
    ensures At(cs, from) <= At(cs, end) <= |Text(cs)|
    ensures Forward(Text(cs), 0, k - 1) == Some(At(cs, from))
    ensures Forward(Text(cs), At(cs, from), n) == Some(At(cs, end))
    ensures At(cs, from) + n > |Text(cs)| ==> At(cs, end) == |Text(cs)|
  {
    SkipPasses(cs, k - 1);
    ForwardPasses(cs, from, n);
    SpanIsSlice(cs, from, end);
    if At(cs, from) + n > |Text(cs)| {
      AllAreTaken(cs, from, n);
    }
  }

  lemma AllAreTaken(cs: seq<Bytes>, from: nat, n: nat)
    requires AllChars(cs) && from <= |cs| && At(cs, from) + n > |Text(cs)|
    ensures At(cs, Least(from + n, |cs|)) == |Text(cs)|
  {
    PositionsGrow(cs, from, |cs|);
  }

  lemma SubstringCopies(s: Bytes, k: nat, n: nat, idx: nat, end: nat, taken: Bytes)
    requires k >= 1 && Forward(s, 0, k - 1) == Some(idx) && idx <= end <= |s|
    requires Forward(s, idx, n) == Some(end) && (idx + n > |s| ==> end == |s|)
    requires Copied(s, idx, end) == taken
    ensures SubstringOf(s, k, n, false) == Some(taken)
  {
  }

  /** The bytes passed by one step of the backward scan are one whole character. */
  lemma PassedIsChar(s: Bytes, end: nat)
    requires 0 < end <= |s| && RevByteCount(s, end).Some?
    ensures IsChar(s[end - RevByteCount(s, end).value..end])
  {
    RunIsContinuation(s, end);
  }

  /** The backward scan accepts the whole of a text exactly when it is a sequence of characters. */
  lemma BackwardAcceptsText(s: Bytes)
    ensures Backward(s, |s|, |s|) == Some(0) <==>
            exists cs {:trigger AllChars(cs)} :: AllChars(cs) && Text(cs) == s
  {
    if cs :| AllChars(cs) && Text(cs) == s {
      PositionsGrow(cs, 0, |cs|);
      BackwardPasses(cs, |cs|, |s|, 0);
    }
    if Backward(s, |s|, |s|) == Some(0) {
      var cs := CharsOf(s, |s|, |s|);
      assert s[..|s|] == s;
    }
  }

  lemma {:induction false} CharsOf(s: Bytes, end: nat, n: nat) returns (cs: seq<Bytes>)
    requires end <= |s| && Backward(s, end, n) == Some(0)
    ensures AllChars(cs) && Text(cs) == s[..end]
    decreases n
  {
    if end == 0 {
      cs := [];
    } else {
      var at, last := LastChar(s, end, n);
      var init := CharsOf(s, at, n - 1);
      TextOfLast(init, last);
      cs := init + [last];
    }
  }

  /** One step of the backward scan. */
  lemma LastChar(s: Bytes, end: nat, n: nat) returns (at: nat, c: Bytes)
    requires 0 < end <= |s| && Backward(s, end, n) == Some(0)
    ensures n > 0 && at < end && Backward(s, at, n - 1) == Some(0)
    ensures IsChar(c) && s[..end] == s[..at] + c
  {
    var bytes := RevByteCount(s, end).value;
    PassedIsChar(s, end);
    BackwardStep(s, end, n, bytes);
    at, c := end - bytes, s[end - bytes..end];
  }

  lemma TextOfLast(cs: seq<Bytes>, c: Bytes)
    ensures Text(cs + [c]) == Text(cs) + c
  {
    SpanOfPrefix(cs, c, |cs|);
  }

  lemma {:induction false} SpanOfPrefix(cs: seq<Bytes>, c: Bytes, j: nat)
    requires j <= |cs|
    ensures Span(cs + [c], 0, j) == Span(cs, 0, j)
    decreases j
  {
    if j > 0 {
      SpanOfPrefix(cs, c, j - 1);
    }
  }

  /* ---- Text as code points, by section 3 of RFC 3629 ---- */

  type CodePoint = c: int | 0 <= c < 0x11_0000

  /** The lowest six bits, and the others. */
  function Low(c: nat): (l: nat)
    ensures l < 0x40
  {
    c % 0x40
  }

  function High(c: nat): (h: nat)
    ensures c == 0x40 * h + Low(c)
  {
    c / 0x40
  }

  function Encoded(c: CodePoint): Bytes
  {
    if c < 0x80 then [c]
    else if c < 0x800 then [0xC0 + High(c), 0x80 + Low(c)]
    else if c < 0x1_0000 then [0xE0 + High(High(c)), 0x80 + Low(High(c)), 0x80 + Low(c)]
    else [0xF0 + High(High(High(c))), 0x80 + Low(High(High(c))), 0x80 + Low(High(c)), 0x80 + Low(c)]
  }

  /** The bits of the bytes put together again. */
  function Decoded(b: seq<int>): int
  {
    if |b| == 1 then b[0]
    else if |b| == 2 then (b[0] - 0xC0) * 0x40 + (b[1] - 0x80)
    else if |b| == 3 then ((b[0] - 0xE0) * 0x40 + (b[1] - 0x80)) * 0x40 + (b[2] - 0x80)
    else if |b| == 4 then
      (((b[0] - 0xF0) * 0x40 + (b[1] - 0x80)) * 0x40 + (b[2] - 0x80)) * 0x40 + (b[3] - 0x80)
    else -1
  }

  /** An encoded code point is one character, of one to four bytes, and is not lost in it. */
  lemma EncodedIsChar(c: CodePoint)
    ensures IsChar(Encoded(c)) && Decoded(Encoded(c)) == c
    ensures |Encoded(c)| == if c < 0x80 then 1 else if c < 0x800 then 2 else if c < 0x1_0000 then 3 else 4
    ensures c != 0 ==> ZeroFree(Encoded(c))
  {
  }

  /** No shorter character has these bits, and they are those of a code point. */
  predicate IsShortest(c: Bytes) {
    var v := Decoded(c);
    v < 0x11_0000 && v >= if |c| == 1 then 0 else if |c| == 2 then 0x80 else if |c| == 3 then 0x800 else 0x1_0000
  }

  /** The characters that the scans pass are the encoded code points, and their longer spellings. */
  lemma CharIsEncoded(c: Bytes)
    requires IsChar(c)
    ensures (exists p: CodePoint {:trigger Encoded(p)} :: c == Encoded(p)) <==> IsShortest(c)
  {
    if IsShortest(c) {
      DecodedEncodes(c);
    }
    if p: CodePoint :| c == Encoded(p) {
      EncodedIsChar(p);
    }
  }

  lemma DecodedEncodes(c: Bytes)
    requires IsChar(c) && IsShortest(c)
    ensures 0 <= Decoded(c) < 0x11_0000 && Encoded(Decoded(c)) == c
  {
    var mark := if |c| == 2 then 0xC0 else if |c| == 3 then 0xE0 else 0xF0;
    if |c| >= 2 {
      var v1: int := (c[0] as int - mark) * 0x40 + (c[1] as int - 0x80);
      TakenApart(v1, c[0] as int - mark, c[1] as int - 0x80);
      if |c| >= 3 {
        var v2 := v1 * 0x40 + (c[2] as int - 0x80);
        TakenApart(v2, v1, c[2] as int - 0x80);
        if |c| == 4 {
          TakenApart(v2 * 0x40 + (c[3] as int - 0x80), v2, c[3] as int - 0x80);
        }
      }
    }
  }

  lemma TakenApart(v: int, h: int, l: int)
    requires 0 <= h && 0 <= l < 0x40 && v == 0x40 * h + l
    ensures High(v) == h && Low(v) == l
  {
    QuotientIsUnique(v, 0x40, h, l);
  }

  /** The pieces of all elements, one by one and written out. */
  function Each<T>(ts: seq<T>, f: T -> Bytes): (cs: seq<Bytes>)
    ensures |cs| == |ts|
    ensures forall i {:trigger cs[i]} :: 0 <= i < |ts| ==> cs[i] == f(ts[i])
  {
    seq(|ts|, i requires 0 <= i < |ts| => f(ts[i]))
  }

  function Joined<T>(ts: seq<T>, f: T -> Bytes): Bytes
  {
    if ts == [] then [] else Joined(ts[..|ts| - 1], f) + f(ts[|ts| - 1])
  }

  lemma {:induction false} JoinedIsSpan<T>(ts: seq<T>, f: T -> Bytes, i: nat, j: nat)
    requires i <= j <= |ts|
    ensures Joined(ts[i..j], f) == Span(Each(ts, f), i, j)
    decreases j
  {
    if i < j {
      JoinedIsSpan(ts, f, i, j - 1);
      assert ts[i..j][..j - i - 1] == ts[i..j - 1];
    }
  }

  function Encode(cps: seq<CodePoint>): Bytes
  {
    Joined(cps, Encoded)
  }

  lemma EncodeIsText(cps: seq<CodePoint>)
    ensures Text(Each(cps, Encoded)) == Encode(cps) && AllChars(Each(cps, Encoded))
  {
    JoinedIsSpan(cps, Encoded, 0, |cps|);
    assert cps[0..|cps|] == cps;
    forall i | 0 <= i < |cps| ensures IsChar(Each(cps, Encoded)[i]) {
      EncodedIsChar(cps[i]);
    }
  }

  lemma {:induction false} EncodeIsZeroFree(cps: seq<CodePoint>)
    requires 0 !in cps
    ensures ZeroFree(Encode(cps))
  {
    if cps != [] {
      EncodeIsZeroFree(cps[..|cps| - 1]);
      EncodedIsChar(cps[|cps| - 1]);
    }
  }

  /** LEFT of an encoded text is the encoding of its first n code points. */
  lemma LeftTakesCodePoints(cps: seq<CodePoint>, n: nat)
    requires 0 !in cps
    ensures LeftOf(Encode(cps), n, false) == Some(Encode(cps[..Least(n, |cps|)]))
  {
    EncodeIsText(cps);
    EncodeIsZeroFree(cps);
    LeftTakes(Each(cps, Encoded), n);
    var end := Least(n, |cps|);
    JoinedIsSpan(cps, Encoded, 0, end);
    assert cps[0..end] == cps[..end];
  }

  /** RIGHT, for n up to the byte length, that of its last n. */
  lemma RightTakesCodePoints(cps: seq<CodePoint>, behind: Bytes, n: nat)
    requires 0 !in cps && n <= |Encode(cps)|
    ensures RightOf(Encode(cps), behind, n, false) == Some(Encode(cps[Before(|cps|, n)..]))
  {
    EncodeIsText(cps);
    EncodeIsZeroFree(cps);
    RightTakes(Each(cps, Encoded), behind, n);
    var from := Before(|cps|, n);
    JoinedIsSpan(cps, Encoded, from, |cps|);
    assert cps[from..|cps|] == cps[from..];
  }

  /** SUBSTRING from position k, at least 1, that of n code points from the k-th on. */
  lemma SubstringTakesCodePoints(cps: seq<CodePoint>, k: nat, n: nat)
    requires 0 !in cps && k >= 1
    ensures var from := Least(k - 1, |cps|);
            SubstringOf(Encode(cps), k, n, false) == Some(Encode(cps[from..Least(from + n, |cps|)]))
  {
    var from := Least(k - 1, |cps|);
    CodePointsBetween(cps, k, n, from, Least(from + n, |cps|));
  }

  lemma CodePointsBetween(cps: seq<CodePoint>, k: nat, n: nat, from: nat, end: nat)
    requires 0 !in cps && k >= 1 && from == Least(k - 1, |cps|) && end == Least(from + n, |cps|)
    ensures SubstringOf(Encode(cps), k, n, false) == Some(Encode(cps[from..end]))
  {
    EncodeIsText(cps);
    EncodeIsZeroFree(cps);
    SubstringTakes(Each(cps, Encoded), k, n);
    JoinedIsSpan(cps, Encoded, from, end);
  }

  /* ---- The other branches ---- */

  /** What is copied is free of zero bytes, and ends at one or where the range ends. */
  lemma CopyStopsAtZero(s: Bytes)
    ensures UpToZero(s) <= s && ZeroFree(UpToZero(s))
    ensures UpToZero(s) != s ==> s[|UpToZero(s)|] == 0
  {
    ZeroAtIsFirst(s, 0);
  }

  lemma {:induction false} ZeroAtIsFirst(s: Bytes, i: nat)
    requires i <= |s|
    ensures forall j {:trigger s[j]} :: i <= j < ZeroAt(s, i) ==> s[j] != 0
    ensures ZeroAt(s, i) < |s| ==> s[ZeroAt(s, i)] == 0
    decreases |s| - i
  {
    if i < |s| && s[i] != 0 {
      ZeroAtIsFirst(s, i + 1);
    }
  }

  /** Counting bytes, a character is a byte. A negative count is a failure in either case. */
  lemma BytesAreTaken(s: Bytes, behind: Bytes, n: int, charAsByte: bool)
    requires ZeroFree(s)
    ensures n < 0 ==> LeftOf(s, n, charAsByte) == None == RightOf(s, behind, n, charAsByte)
    ensures n < 0 ==> forall k :: SubstringOf(s, k, n, charAsByte) == None
    ensures n >= 0 ==> LeftOf(s, n, true) == Some(s[..Least(n, |s|)])
    ensures 0 <= n <= |s| ==> RightOf(s, behind, n, true) == Some(s[|s| - n..])
  {
    if n >= 0 {
      ZeroFreeIsKept(s[0..Least(n, |s|)]);
      assert s[0..Least(n, |s|)] == s[..Least(n, |s|)];
    }
    if 0 <= n <= |s| {
      ZeroFreeIsKept(s[|s| - n..|s|]);
      assert s[|s| - n..|s|] == s[|s| - n..];
    }
  }

  /**
   SUBSTRING of bytes, from position 1 on or before: positions before the text count too, so from k
   below 1 only n + k - 1 are taken.
   */
  lemma SubstringTakesBytes(s: Bytes, k: int, n: nat)
    requires ZeroFree(s) && (k < 1 ==> n + k - 1 >= 0)
    ensures var from := if k < 1 then 0 else Least(k - 1, |s|);
            var left := if k < 1 then n + k - 1 else n;
            SubstringOf(s, k, n, true) == Some(s[from..Least(from + left, |s|)])
  {
    var from := if k < 1 then 0 else Least(k - 1, |s|);
    var left := if k < 1 then n + k - 1 else n;
    ZeroFreeIsKept(s[from..Least(from + left, |s|)]);
  }

  /** SUBSTRING of characters from before the text is LEFT of what remains of the length. */
  lemma SubstringFromBefore(cs: seq<Bytes>, k: int, n: nat)
    requires AllChars(cs) && ZeroFree(Text(cs)) && k < 1
    ensures SubstringOf(Text(cs), k, n, false) ==
            Some(Span(cs, 0, Least(if n + k - 1 < 0 then 0 else n + k - 1, |cs|)))
  {
    var left := if n + k - 1 < 0 then 0 else n + k - 1;
    SkipPasses(cs, left);
    SpanCopied(cs, 0, Least(left, |cs|));
    PositionsGrow(cs, 0, |cs|);
    assert At(cs, 0) == 0;
    assert left > |Text(cs)| ==> Least(left, |cs|) == |cs|;
  }

  /* ---- What the scans accept ---- */

  /** As many bytes as the first one announces; what the others are is not looked at. */
  predicate IsBlock(c: Bytes) {
    c != [] && LengthOf(c[0]) == |c|
  }

  predicate AllBlocks(cs: seq<Bytes>) {
    forall i {:trigger cs[i]} :: 0 <= i < |cs| ==> IsBlock(cs[i])
  }

  lemma CharsAreBlocks(cs: seq<Bytes>)
    requires AllChars(cs)
    ensures AllBlocks(cs)
  {
    forall i | 0 <= i < |cs| ensures IsBlock(cs[i]) {
      assert IsChar(cs[i]);
    }
  }

  /** A block is passed by its first byte. */
  lemma ForwardOverBlock(s: Bytes, at: nat, c: Bytes, n: nat)
    requires IsBlock(c) && at + |c| <= |s| && s[at..at + |c|] == c && n > 0
    ensures Forward(s, at, n) == Forward(s, at + |c|, n - 1)
  {
    assert s[at] == s[at..at + |c|][0] == c[0];
  }

  /** The forward scan passes block after block, and reaches the end when it may take enough of them. */
  lemma {:induction false} ForwardPassesBlocks(cs: seq<Bytes>, i: nat, n: nat)
    requires AllBlocks(cs) && i <= |cs| && n >= |cs| - i
    ensures At(cs, i) <= |Text(cs)|
    ensures Forward(Text(cs), At(cs, i), n) == Some(|Text(cs)|)
    decreases n
  {
    SpanIsSlice(cs, i, |cs|);
    if i < |cs| {
      assert IsBlock(cs[i]);
      CharAt(cs, i);
      ForwardOverBlock(Text(cs), At(cs, i), cs[i], n);
      ForwardPassesBlocks(cs, i + 1, n - 1);
    }
  }

  lemma {:induction false} NoMoreBlocksThanBytes(cs: seq<Bytes>, j: nat)
    requires AllBlocks(cs) && j <= |cs|
    ensures j <= At(cs, j)
    decreases j
  {
    if j > 0 {
      assert IsBlock(cs[j - 1]);
      NoMoreBlocksThanBytes(cs, j - 1);
    }
  }

  /** Every step of the forward scan passes at least one byte. */
  lemma {:induction false} ForwardReachesEnd(s: Bytes, idx: nat, n: nat)
    requires idx <= |s| && n >= |s| - idx && Forward(s, idx, n).Some?
    ensures Forward(s, idx, n) == Some(|s|)
    decreases n
  {
    if idx < |s| {
      ForwardReachesEnd(s, idx + ByteCount(s[idx], |s| - idx).value, n - 1);
    }
  }

  lemma {:induction false} BackwardReachesStart(s: Bytes, end: nat, n: nat)
    requires end <= |s| && n >= end && Backward(s, end, n).Some?
    ensures Backward(s, end, n) == Some(0)
    decreases n
  {
    if end > 0 {
      BackwardReachesStart(s, end - RevByteCount(s, end).value, n - 1);
    }
  }

  /** The blocks that the forward scan passes from idx on. */
  lemma {:induction false} BlocksFrom(s: Bytes, idx: nat, n: nat) returns (cs: seq<Bytes>)
    requires idx <= |s| && Forward(s, idx, n) == Some(|s|)
    ensures AllBlocks(cs) && Text(cs) == s[idx..]
    decreases n
  {
    if idx == |s| {
      cs := [];
    } else {
      var bytes := ByteCount(s[idx], |s| - idx).value;
      var block := s[idx..idx + bytes];
      var rest := BlocksFrom(s, idx + bytes, n - 1);
      cs := [block] + rest;
      TextOfMore(block, rest);
      assert s[idx..] == block + s[idx + bytes..];
    }
  }

  lemma TextOfMore(c: Bytes, cs: seq<Bytes>)
    ensures Text([c] + cs) == c + Text(cs)
  {
    SpanOfMore(c, cs, |cs|);
  }

  lemma {:induction false} SpanOfMore(c: Bytes, cs: seq<Bytes>, j: nat)
    requires j <= |cs|
    ensures Span([c] + cs, 0, j + 1) == c + Span(cs, 0, j)
    decreases j
  {
    if j > 0 {
      SpanOfMore(c, cs, j - 1);
    } else {
      assert Span([c] + cs, 0, 0) == [];
    }
  }

  /** The forward scan accepts the whole of a text exactly when it is a sequence of blocks. */
  lemma ForwardAcceptsBlocks(s: Bytes)
    ensures Forward(s, 0, |s|).Some? <==> exists cs {:trigger AllBlocks(cs)} :: AllBlocks(cs) && Text(cs) == s
  {
    if cs :| AllBlocks(cs) && Text(cs) == s {
      NoMoreBlocksThanBytes(cs, |cs|);
      ForwardPassesBlocks(cs, 0, |s|);
    }
    if Forward(s, 0, |s|).Some? {
      ForwardReachesEnd(s, 0, |s|);
      var cs := BlocksFrom(s, 0, |s|);
      assert s[0..] == s;
    }
  }

  /** A text is a sequence of blocks in one way at most. */
  lemma {:induction false} BlocksAreUnique(cs: seq<Bytes>, ds: seq<Bytes>)
    requires AllBlocks(cs) && AllBlocks(ds) && Text(cs) == Text(ds)
    ensures cs == ds
    decreases |cs|
  {
    if cs != [] && ds != [] {
      TextOfMore(cs[0], cs[1..]);
      TextOfMore(ds[0], ds[1..]);
      assert cs == [cs[0]] + cs[1..] && ds == [ds[0]] + ds[1..];
      FirstBlockIsUnique(cs[0], Text(cs[1..]), ds[0], Text(ds[1..]));
      BlocksAreUnique(cs[1..], ds[1..]);
    } else {
      NoMoreBlocksThanBytes(cs, |cs|);
      NoMoreBlocksThanBytes(ds, |ds|);
    }
  }

  lemma FirstBlockIsUnique(c: Bytes, rest: Bytes, d: Bytes, more: Bytes)
    requires IsBlock(c) && IsBlock(d) && c + rest == d + more
    ensures c == d && rest == more
  {
    assert (c + rest)[0] == c[0] && (d + more)[0] == d[0];
    assert c == (c + rest)[..|c|] && rest == (c + rest)[|c|..];
  }

  /**
   LEFT and RIGHT of a whole text accept the same texts but for those whose blocks are not all
   characters: these LEFT accepts and RIGHT refuses.
   */
  lemma ScansAgree(s: Bytes, behind: Bytes)
    ensures (LeftOf(s, |s|, false).Some? <==> RightOf(s, behind, |s|, false).Some?) <==>
            forall cs {:trigger AllBlocks(cs)} :: AllBlocks(cs) && Text(cs) == s ==> AllChars(cs)
    ensures RightOf(s, behind, |s|, false).Some? ==> LeftOf(s, |s|, false).Some?
  {
    ForwardAcceptsBlocks(s);
    BackwardAcceptsText(s);
    if Backward(s, |s|, |s|).Some? {
      BackwardReachesStart(s, |s|, |s|);
      var cs :| AllChars(cs) && Text(cs) == s;
      CharsAreBlocks(cs);
      forall ds | AllBlocks(ds) && Text(ds) == s ensures AllChars(ds) {
        BlocksAreUnique(ds, cs);
      }
    }
  }

  /** For instance a lead byte followed by a letter. */
  lemma ForwardTrustsLeads()
    ensures LeftOf([195, 65], 1, false) == Some([195, 65])
    ensures RightOf([195, 65], [], 2, false) == None
  {
    assert Forward([195, 65], 2, 0) == Some(2);
    assert [195, 65][0..2] == [195, 65];
    ZeroFreeIsKept([195, 65]);
    assert RevByteCount([195, 65], 2) == Some(1);
    assert RevByteCount([195, 65], 1) == None;
    assert Backward([195, 65], 1, 1) == None;
  }
}
