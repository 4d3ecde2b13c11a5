/**
 The overflow-checked integer arithmetic of the engine (lib/misc.h), on 64-bit two's complement
 words: casts, negations and sums wrap, as the compiled code does.
 */
module CheckedArith {
  import opened Assoc
  import opened Common

  const LONG_MAX: int := 0x7FFF_FFFF_FFFF_FFFF
  const LONG_MIN: int := -0x8000_0000_0000_0000

  predicate InRange(n: int) {
    LONG_MIN <= n <= LONG_MAX
  }

  type Long = n: int | InRange(n)
  type ULong = u: int | 0 <= u < WORD64

  /** The word of any integer: a cast to unsigned long. */
  function Unsigned(n: int): ULong
  {
    n % WORD64
  }

  /** The word read back as a long. */
  function Signed(u: ULong): Long
  {
    if u > LONG_MAX then u - WORD64 else u
  }

  /** A long result computed on words. */
  function Wrapped(n: int): Long
  {
    Signed(Unsigned(n))
  }

  lemma WordOf(n: int)
    requires -WORD64 <= n <= 2 * LONG_MAX + 2
    ensures Unsigned(n) == if n < 0 then n + WORD64 else if n >= WORD64 then n - WORD64 else n
    ensures InRange(n) ==> Wrapped(n) == n
  {
    Remainder(n, if n < 0 then -1 else if n >= WORD64 then 1 else 0);
  }

  lemma Remainder(n: int, q: int)
    requires q * WORD64 <= n < (q + 1) * WORD64
    ensures n % WORD64 == n - q * WORD64
  {
    var k := n / WORD64 - q;
    assert n % WORD64 == n - q * WORD64 - k * WORD64;
    assert -WORD64 < k * WORD64 < WORD64;
  }

  /** overflow_safe_add_i; None is FQL_FAIL. */
  function Add(n0: int, n1: int): Option<Long>
    requires InRange(n0) && InRange(n1)
  {
    if n0 > 0 && n1 > 0 && Unsigned(Unsigned(n0) + Unsigned(n1)) > LONG_MAX then None
    else if n0 < 0 && n1 < 0
            && Unsigned(Unsigned(Wrapped(-n0)) + Unsigned(Wrapped(-n1))) > LONG_MAX + 1 then None
    else Some(Wrapped(n0 + n1))
  }

  /** overflow_safe_minus_i. */
  function Minus(n0: int, n1: int): Option<Long>
    requires InRange(n0) && InRange(n1)
  {
    if n0 > 0 && n1 < 0 && Unsigned(Unsigned(n0) + Unsigned(Wrapped(-n1))) > LONG_MAX then None
    else if n0 < 0 && n1 > 0
            && Unsigned(Unsigned(Wrapped(-n0)) + Unsigned(n1)) > LONG_MAX + 1 then None
    else Some(Wrapped(n0 - n1))
  }

  /** overflow_safe_multiply_i: multiplies magnitudes and checks by dividing. */
  method Multiply(n0: int, n1: int) returns (r: Option<Long>)
    requires InRange(n0) && InRange(n1)
    ensures r == Exact(n0 * n1)
  {
    var u0: int, u1: int, neg := 0, 0, false;
    WordOf(-n0);
    WordOf(-n1);
    if n0 < 0 {
      u0 := Unsigned(n0 * -1);
      neg := true;
    } else {
      u0 := n0;
    }
    if n1 < 0 {
      u1 := Unsigned(n1 * -1);
      neg := !neg;
    } else {
      u1 := n1;
    }
    var result: int := Unsigned(u0 * u1);
    var limit := if neg then LONG_MAX + 1 else LONG_MAX;
    SignOfProduct(n0, n1);
    assert u0 * u1 == if neg then -(n0 * n1) else n0 * n1;
    if u0 != 0 {
      DivisionFindsOverflow(u0, u1);
      if result / u0 != u1 || result > limit {
        return None;
      }
    } else {
      Remainder(u0 * u1, 0);
    }
    if neg { WordOf(-result); } else { WordOf(result); }
    r := Some(if neg then Signed(Unsigned(-1 * result)) else Signed(result));
  }

  lemma SignOfProduct(n0: int, n1: int)
    ensures (-n0) * n1 == -(n0 * n1) && n0 * -n1 == -(n0 * n1) && (-n0) * -n1 == n0 * n1
  {
  }

  /** The wrapped product divides back exactly when nothing was lost. */
  lemma DivisionFindsOverflow(u0: int, u1: int)
    requires 0 < u0 < WORD64 && 0 <= u1 < WORD64
    ensures Unsigned(u0 * u1) / u0 == u1 <==> u0 * u1 < WORD64
    ensures u0 * u1 < WORD64 ==> Unsigned(u0 * u1) == u0 * u1
    ensures u0 * u1 >= 0
  {
    var product, result := u0 * u1, Unsigned(u0 * u1);
    assert product >= 0;
    if product < WORD64 {
      Remainder(product, 0);
      QuotientIsUnique(product, u0, u1, 0);
    } else {
      var q := result / u0;
      assert u0 * q <= result < product == u0 * u1;
    }
  }

  /** What the arithmetic is for: the true result, or a failure when it does not fit. */
  function Exact(n: int): Option<Long>
  {
    if InRange(n) then Some(n) else None
  }

  /** Addition is exact but for one pair, whose sum comes out as zero. */
  lemma AddIsExact(n0: int, n1: int)
    requires InRange(n0) && InRange(n1)
    ensures Add(n0, n1) == Exact(n0 + n1) <==> !(n0 == LONG_MIN && n1 == LONG_MIN)
    ensures Add(LONG_MIN, LONG_MIN) == Some(0)
  {
    WordOf(n0 + n1);
    WordOf(-n0);
    WordOf(-n1);
    WordOf(n0);
    WordOf(n1);
    WordOf(-n0 + -n1);
    WordOf(WORD64);
    WordOf(2 * LONG_MIN);
    WordOf(LONG_MAX + 1);
  }

  /** Subtraction is exact but for one pair, where it yields the smallest number. */
  lemma MinusIsExact(n0: int, n1: int)
    requires InRange(n0) && InRange(n1)
    ensures Minus(n0, n1) == Exact(n0 - n1) <==> !(n0 == 0 && n1 == LONG_MIN)
    ensures Minus(0, LONG_MIN) == Some(LONG_MIN)
  {
    WordOf(n0 - n1);
    WordOf(-n0);
    WordOf(-n1);
    WordOf(n0);
    WordOf(n1);
    WordOf(-n0 + n1);
    WordOf(LONG_MAX + 1);
  }

  /* ---- Aggregates ---- */

  datatype Aggregate = Count | Min | Max | Sum | Avg

  /** The row counter is an unsigned int. */
  const ROWS: nat := WORD32

  type RowCount = n: nat | n < ROWS

  /** The counter advanced by one row. */
  function NextCount(c: RowCount): RowCount
  {
    if c + 1 == ROWS then 0 else c + 1
  }

  /** The counter after n rows. */
  function Rows(n: nat): (c: RowCount)
    ensures c <= n
    ensures n < ROWS ==> c == n
  {
    if n == 0 then 0 else NextCount(Rows(n - 1))
  }

  lemma {:induction false} RowsIsRemainder(n: nat)
    ensures Rows(n) == n % ROWS
  {
    if n > 0 {
      RowsIsRemainder(n - 1);
      var c: int, q := Rows(n - 1), (n - 1) / ROWS;
      if c + 1 == ROWS {
        QuotientIsUnique(n, ROWS, q + 1, 0);
      } else {
        QuotientIsUnique(n, ROWS, q, c + 1);
      }
    }
  }

  /** What struct aggresult holds: the result, the running total of AVG and the row counter. */
  datatype Totals = Totals(data: Long, auxdata: Long, qty: RowCount)

  const ZEROED: Totals := Totals(0, 0, 0)

  /** Division of longs truncates towards zero. */
  function Truncated(n: int, d: int): (r: Long)
    requires InRange(n) && d > 0
  {
    QuotientFits(if n >= 0 then n else -n, d);
    if n >= 0 then n / d else -((-n) / d)
  }

  /** r times d is n or the last multiple of d before it, seen from zero. */
  predicate IsQuotient(r: int, n: int, d: int) {
    && -d < n - r * d < d
    && (if n >= 0 then 0 <= r * d <= n else n <= r * d <= 0)
  }

  /** There is one such number, and it is what the division yields. */
  lemma TruncatedIsQuotient(n: int, d: int, r: int)
    requires InRange(n) && d > 0
    ensures r == Truncated(n, d) <==> IsQuotient(r, n, d)
  {
    if n >= 0 {
      QuotientExactly(n, d, r);
    } else {
      QuotientExactly(-n, d, -r);
      assert -r * d == -(r * d);
    }
  }

  lemma QuotientExactly(m: int, d: int, q: int)
    requires m >= 0 && d > 0
    ensures q == m / d <==> 0 <= q * d <= m < q * d + d
  {
    if q == m / d {
      QuotientFits(m, d);
      assert m == q * d + m % d;
      TimesKeepsOrder(0, q, d);
    }
    if 0 <= q * d <= m < q * d + d {
      QuotientIsUnique(m, d, q, m - q * d);
    }
  }

  lemma QuotientFits(m: int, d: int)
    requires m >= 0 && d > 0
    ensures 0 <= m / d <= m
  {
    var q := m / d;
    assert m == q * d + m % d;
    if q < 0 {
      TimesKeepsOrder(q, -1, d);
    } else {
      TimesKeepsOrder(1, d, q);
    }
  }

  lemma TimesKeepsOrder(a: int, b: int, d: nat)
    requires a <= b
    ensures a * d <= b * d
  {
  }

  /**
   One row of an aggregate, without the count that the caller advances. AVG divides by the counter
   plus one, which is a division by zero when the counter is about to wrap.
   */
  function Step(a: Aggregate, t: Totals, num: Long): Option<Totals>
  {
    match a
    case Count => Some(t.(data := Wrapped(t.data + 1)))
    case Min => Some(if t.qty == 0 || num < t.data then t.(data := num) else t)
    case Max => Some(if t.qty == 0 || num > t.data then t.(data := num) else t)
    case Sum =>
      (match Add(t.data, num)
       case None => None
       case Some(sum) => Some(t.(data := sum)))
    case Avg =>
      (match Add(t.auxdata, num)
       case None => None
       case Some(sum) =>
         if t.qty + 1 == ROWS then None else Some(Totals(Truncated(sum, t.qty + 1), sum, t.qty)))
  }

  /** _add_agg_result and _update_agg_result: a step, then the row is counted. */
  function Counted(a: Aggregate, t: Option<Totals>, num: Long): Option<Totals>
  {
    match t
    case None => None
    case Some(before) =>
      match Step(a, before, num)
      case None => None
      case Some(after) => Some(after.(qty := NextCount(after.qty)))
  }

  function Fold(a: Aggregate, nums: seq<Long>): Option<Totals>
  {
    if nums == [] then Some(ZEROED)
    else Counted(a, Fold(a, nums[..|nums| - 1]), nums[|nums| - 1])
  }

  function Total(nums: seq<Long>): int
  {
    if nums == [] then 0 else Total(nums[..|nums| - 1]) + nums[|nums| - 1]
  }

  /** Every partial sum fits a long. */
  predicate PrefixesFit(nums: seq<Long>)
  {
    nums == [] || (PrefixesFit(nums[..|nums| - 1]) && InRange(Total(nums)))
  }

  /** Some row adds the smallest number to a partial sum that is the smallest number. */
  predicate MeetsTwoMinima(nums: seq<Long>)
  {
    nums != []
    && (MeetsTwoMinima(nums[..|nums| - 1])
        || (PrefixesFit(nums[..|nums| - 1])
            && Total(nums[..|nums| - 1]) == LONG_MIN && nums[|nums| - 1] == LONG_MIN))
  }

  /** The sum as it should be: a failure as soon as a partial sum does not fit. */
  ghost predicate SumIsRight(nums: seq<Long>) {
    Fold(Sum, nums) == if PrefixesFit(nums) then Some(Totals(Total(nums), 0, Rows(|nums|))) else None
  }

  lemma SumStep(nums: seq<Long>)
    requires nums != []
    requires var before := nums[..|nums| - 1]; SumIsRight(before) && !MeetsTwoMinima(before)
    ensures SumIsRight(nums) <==> !MeetsTwoMinima(nums)
  {
    var before, last := nums[..|nums| - 1], nums[|nums| - 1];
    if PrefixesFit(before) {
      AddIsExact(Total(before), last);
    }
  }

  /**
   SUM is the exact sum, or fails if and only if a partial sum is out of range, after every row
   of the input, exactly when no row adds the smallest long to itself.
   */
  lemma {:induction false} SumIsExact(nums: seq<Long>)
    ensures (forall k: nat {:trigger SumIsRight(nums[..k])} :: k <= |nums| ==> SumIsRight(nums[..k]))
       <==> !MeetsTwoMinima(nums)
  {
    assert nums[..|nums|] == nums;
    if nums == [] {
      assert forall k: nat | k <= |nums| :: nums[..k] == [];
    } else {
      var before := nums[..|nums| - 1];
      SumIsExact(before);
      forall k: nat | k <= |before| ensures nums[..k] == before[..k] {
      }
      if !MeetsTwoMinima(before) {
        assert SumIsRight(before[..|before|]) && before[..|before|] == before;
        SumStep(nums);
        forall k: nat | k < |nums| ensures SumIsRight(nums[..k]) {
          assert SumIsRight(before[..k]);
        }
      } else {
        var k: nat :| k <= |before| && !SumIsRight(before[..k]);
        assert !SumIsRight(nums[..k]);
      }
    }
  }

  /** In particular when no input is the smallest long. */
  lemma {:induction false} NoMinimumNoTrouble(nums: seq<Long>)
    requires LONG_MIN !in nums
    ensures !MeetsTwoMinima(nums)
  {
    if nums != [] {
      NoMinimumNoTrouble(nums[..|nums| - 1]);
    }
  }

  /**
   AVG is the truncated quotient of the sum by the number of rows, wherever SUM is defined, for all
   inputs on which the counter does not wrap, and fails on all others.
   */
  lemma {:induction false} AvgIsTruncatedQuotient(nums: seq<Long>)
    requires nums != []
    ensures Fold(Avg, nums) ==
            if |nums| >= ROWS then None
            else
              match Fold(Sum, nums)
              case None => None
              case Some(t) => Some(Totals(Truncated(t.data, |nums|), t.data, |nums|))
    ensures |nums| < ROWS && Fold(Sum, nums).Some? ==>
              Fold(Avg, nums).Some? && IsQuotient(Fold(Avg, nums).value.data, Fold(Sum, nums).value.data, |nums|)
  {
    var before := nums[..|nums| - 1];
    if before != [] {
      AvgIsTruncatedQuotient(before);
    }
    FoldCounts(Sum, before);
    if |nums| < ROWS && Fold(Sum, nums).Some? {
      var sum := Fold(Sum, nums).value.data;
      TruncatedIsQuotient(sum, |nums|, Truncated(sum, |nums|));
    }
  }

  lemma {:induction false} FoldCounts(a: Aggregate, nums: seq<Long>)
    ensures Fold(a, nums).Some? ==> Fold(a, nums).value.qty == Rows(|nums|)
  {
    if nums != [] {
      FoldCounts(a, nums[..|nums| - 1]);
    }
  }

  /** COUNT is the number of rows. */
  lemma {:induction false} CountIsExact(nums: seq<Long>)
    requires |nums| <= LONG_MAX
    ensures Fold(Count, nums) == Some(Totals(|nums|, 0, Rows(|nums|)))
  {
    if nums != [] {
      CountIsExact(nums[..|nums| - 1]);
      WordOf(|nums|);
    }
  }

  /** The rows since the counter was last zero; all of them up to 2^32 rows. */
  function SinceWrap(nums: seq<Long>): (s: seq<Long>)
    requires nums != []
    ensures s != []
    ensures |nums| <= ROWS ==> s == nums
  {
    nums[|nums| - 1 - Rows(|nums| - 1)..]
  }

  lemma SinceWrapMore(nums: seq<Long>)
    requires nums != []
    ensures var n := |nums| - 1;
            SinceWrap(nums) == (if Rows(n) == 0 then [] else SinceWrap(nums[..n])) + [nums[n]]
  {
    var n := |nums| - 1;
    assert n > 0 ==> Rows(n) == NextCount(Rows(n - 1));
  }

  predicate IsLeast(n: Long, nums: seq<Long>)
  {
    n in nums && forall other :: other in nums ==> n <= other
  }

  predicate IsGreatest(n: Long, nums: seq<Long>)
  {
    n in nums && forall other :: other in nums ==> n >= other
  }

  lemma IsLeastMore(n: Long, nums: seq<Long>, last: Long)
    requires IsLeast(n, nums)
    ensures IsLeast(if last < n then last else n, nums + [last])
  {
    assert (nums + [last])[|nums|] == last;
    assert forall other :: other in nums ==> other in nums + [last];
  }

  lemma IsGreatestMore(n: Long, nums: seq<Long>, last: Long)
    requires IsGreatest(n, nums)
    ensures IsGreatest(if last > n then last else n, nums + [last])
  {
    assert (nums + [last])[|nums|] == last;
    assert forall other :: other in nums ==> other in nums + [last];
  }

  /** MIN restarts when the counter is zero, so it is the least of the rows since then. */
  lemma {:induction false} MinSinceWrap(nums: seq<Long>)
    requires nums != []
    ensures var r := Fold(Min, nums); r.Some? && IsLeast(r.value.data, SinceWrap(nums))
  {
    var before, last := nums[..|nums| - 1], nums[|nums| - 1];
    FoldCounts(Min, before);
    SinceWrapMore(nums);
    if before != [] {
      MinSinceWrap(before);
      IsLeastMore(Fold(Min, before).value.data, SinceWrap(before), last);
    }
  }

  /** MAX restarts likewise. */
  lemma {:induction false} MaxSinceWrap(nums: seq<Long>)
    requires nums != []
    ensures var r := Fold(Max, nums); r.Some? && IsGreatest(r.value.data, SinceWrap(nums))
  {
    var before, last := nums[..|nums| - 1], nums[|nums| - 1];
    FoldCounts(Max, before);
    SinceWrapMore(nums);
    if before != [] {
      MaxSinceWrap(before);
      IsGreatestMore(Fold(Max, before).value.data, SinceWrap(before), last);
    }
  }

  ghost predicate ExtremesAreRight(nums: seq<Long>) {
    && (var r := Fold(Min, nums); r.Some? && IsLeast(r.value.data, nums))
    && (var r := Fold(Max, nums); r.Some? && IsGreatest(r.value.data, nums))
  }

  /** MIN and MAX are extremes of all rows, for every input of some length, exactly up to 2^32 rows. */
  lemma ExtremesAreExact(n: nat)
    requires n > 0
    ensures (forall nums: seq<Long> | |nums| == n :: ExtremesAreRight(nums)) <==> n <= ROWS
  {
    if n <= ROWS {
      forall nums: seq<Long> | |nums| == n ensures ExtremesAreRight(nums) {
        MinSinceWrap(nums);
        MaxSinceWrap(nums);
      }
    } else {
      var nums: seq<Long> := seq(n, i => if i == 0 then 0 else 1);
      MinSinceWrap(nums);
      var since, first := SinceWrap(nums), n - 1 - Rows(n - 1);
      var least := Fold(Min, nums).value.data;
      var i :| 0 <= i < |since| && since[i] == least;
      assert since[i] == nums[first + i] == 1;
      assert nums[0] == 0 && nums[0] in nums;
      assert !IsLeast(least, nums);
    }
  }
}
