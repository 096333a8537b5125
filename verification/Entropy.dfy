/**
 The syscall tracer's entropy score: Shannon entropy of a payload of at most 64
 bytes, computed without floating point from a table of `c * log2(c) * 1024`.
 */
module Entropy {
  import opened Bytes
  import Fnv

  const MAX_PAYLOAD: nat := 64

  /** The table, indexed by `min(c, 64)`. */
  function CLogC(c: nat): nat {
    if c == 0 then 0 else if c == 1 then 0 else if c == 2 then 2048 else if c == 3 then 4869 else
    if c == 4 then 8192 else if c == 5 then 11888 else if c == 6 then 15882 else if c == 7 then 20123 else
    if c == 8 then 24576 else if c == 9 then 29214 else if c == 10 then 34017 else if c == 11 then 38967 else
    if c == 12 then 44052 else if c == 13 then 49260 else if c == 14 then 54582 else if c == 15 then 60010 else
    if c == 16 then 65536 else if c == 17 then 71155 else if c == 18 then 76860 else if c == 19 then 82648 else
    if c == 20 then 88513 else if c == 21 then 94452 else if c == 22 then 100462 else if c == 23 then 106539 else
    if c == 24 then 112680 else if c == 25 then 118883 else if c == 26 then 125145 else if c == 27 then 131463 else
    if c == 28 then 137836 else if c == 29 then 144263 else if c == 30 then 150740 else if c == 31 then 157266 else
    if c == 32 then 163840 else if c == 33 then 170460 else if c == 34 then 177125 else if c == 35 then 183834 else
    if c == 36 then 190584 else if c == 37 then 197376 else if c == 38 then 204207 else if c == 39 then 211078 else
    if c == 40 then 217986 else if c == 41 then 224931 else if c == 42 then 231913 else if c == 43 then 238929 else
    if c == 44 then 245980 else if c == 45 then 253065 else if c == 46 then 260182 else if c == 47 then 267331 else
    if c == 48 then 274512 else if c == 49 then 281724 else if c == 50 then 288965 else if c == 51 then 296237 else
    if c == 52 then 303537 else if c == 53 then 310866 else if c == 54 then 318222 else if c == 55 then 325606 else
    if c == 56 then 333017 else if c == 57 then 340454 else if c == 58 then 347917 else if c == 59 then 355406 else
    if c == 60 then 362919 else if c == 61 then 370458 else if c == 62 then 378020 else if c == 63 then 385606 else
    393216
  }

  // -------------------------------------------------------- shape of the table

  /** Discrete convexity: steps never shrink, and from the second on they are at least 2048. */
  lemma {:induction false} StepsGrow(i: nat)
    requires 1 <= i < MAX_PAYLOAD
    ensures CLogC(i + 1) + CLogC(i - 1) >= 2 * CLogC(i)
    ensures CLogC(i + 1) >= CLogC(i) + 2048
  {
  }

  lemma {:induction false} ZeroIsZero()
    ensures CLogC(0) == 0 && CLogC(1) == 0
  {
  }

  lemma {:induction false} LaterStepsAreLarger(i: nat, j: nat)
    requires i <= j < MAX_PAYLOAD
    ensures CLogC(i + 1) + CLogC(j) <= CLogC(j + 1) + CLogC(i)
    decreases j - i
  {
    hide CLogC;
    if i < j {
      StepsGrow(i + 1);
      LaterStepsAreLarger(i + 1, j);
    }
  }

  /** Splitting a count loses at least 2048 unless one part is empty. */
  lemma {:induction false} SplittingLoses(a: nat, b: nat)
    requires a + b <= MAX_PAYLOAD
    ensures CLogC(a) + CLogC(b) <= CLogC(a + b)
    ensures a > 0 && b > 0 ==> CLogC(a) + CLogC(b) + 2048 <= CLogC(a + b)
  {
    hide CLogC;
    ZeroIsZero();
    if b > 1 {
      SplittingLoses(a, b - 1);
      LaterStepsAreLarger(b - 1, a + b - 1);
    } else if b == 1 && a > 0 {
      StepsGrow(a);
    }
  }

  /** How far the table is from turning a product of counts into a sum of logarithms. */
  function ProductError(a: nat, b: nat): int {
    CLogC(a * b) - a * CLogC(b) - b * CLogC(a)
  }

  predicate Rounding(e: int, bound: nat) {
    0 <= 2 * e + bound && 2 * e <= bound
  }

  // The law for each smaller factor; beyond eight, the product leaves the table.

  lemma {:induction false} TimesTwo(b: nat)
    requires 2 <= b <= 32
    ensures Rounding(ProductError(2, b), b + 3)
  {
    hide CLogC;
    if b <= 12 {
      LowDoubles(b);
    } else if b <= 22 {
      MiddleDoubles(b);
    } else {
      HighDoubles(b);
    }
  }

  lemma {:induction false} LowDoubles(b: nat)
    requires 2 <= b <= 12
    ensures Rounding(ProductError(2, b), b + 3)
  {
  }

  lemma {:induction false} MiddleDoubles(b: nat)
    requires 13 <= b <= 22
    ensures Rounding(ProductError(2, b), b + 3)
  {
  }

  lemma {:induction false} HighDoubles(b: nat)
    requires 23 <= b <= 32
    ensures Rounding(ProductError(2, b), b + 3)
  {
  }

  lemma {:induction false} TimesThree(b: nat)
    requires 3 <= b <= 21
    ensures Rounding(ProductError(3, b), b + 4)
  {
  }

  lemma {:induction false} TimesFour(b: nat)
    requires 4 <= b <= 16
    ensures Rounding(ProductError(4, b), b + 5)
  {
  }

  lemma {:induction false} TimesFive(b: nat)
    requires 5 <= b <= 12
    ensures Rounding(ProductError(5, b), b + 6)
  {
  }

  lemma {:induction false} TimesSix(b: nat)
    requires 6 <= b <= 10
    ensures Rounding(ProductError(6, b), b + 7)
  {
  }

  lemma {:induction false} TimesSeven(b: nat)
    requires 7 <= b <= 9
    ensures Rounding(ProductError(7, b), b + 8)
  {
  }

  lemma {:induction false} TimesEight(b: nat)
    requires 8 <= b <= 8
    ensures Rounding(ProductError(8, b), b + 9)
  {
  }

  lemma {:induction false} SmallFactor(a: nat, b: nat)
    requires 1 <= a <= 8 && a <= b && a * b <= MAX_PAYLOAD
    ensures Rounding(ProductError(a, b), a + b + 1)
    ensures a == 1 ==> ProductError(a, b) == 0
  {
    hide ProductError;
    if a == 1 {
      TimesOne(b);
    } else if a == 2 {
      TimesTwo(b);
    } else if a == 3 {
      TimesThree(b);
    } else if a == 4 {
      TimesFour(b);
    } else if a == 5 {
      TimesFive(b);
    } else if a == 6 {
      TimesSix(b);
    } else if a == 7 {
      TimesSeven(b);
    } else {
      TimesEight(b);
    }
  }

  lemma {:induction false} TimesOne(b: nat)
    ensures ProductError(1, b) == 0
  {
    hide CLogC;
    ZeroIsZero();
  }

  /**
   The table is a logarithm: `ab * log(ab) = a * (b * log b) + b * (a * log a)`, up to the
   rounding of the three entries.
   */
  lemma {:induction false} TableIsLogarithmic(a: nat, b: nat)
    requires 1 <= a && 1 <= b && a * b <= MAX_PAYLOAD
    ensures Rounding(ProductError(a, b), a + b + 1)
    ensures a == 1 || b == 1 ==> ProductError(a, b) == 0
  {
    hide CLogC;
    var small, large := if a <= b then a else b, if a <= b then b else a;
    assert small * large == a * b;
    assert small <= 8 by {
      if small >= 9 {
        ProductGrows(9, small, 9, large);
      }
    }
    SmallFactor(small, large);
    assert ProductError(a, b) == ProductError(small, large);
  }

  lemma {:induction false} ProductGrows(a: nat, b: nat, c: nat, d: nat)
    requires a <= b && c <= d
    ensures a * c <= b * d
  {
    assert b * d - a * c == b * (d - c) + (b - a) * c;
  }

  function PowerOfTwo(k: nat): nat {
    if k == 0 then 1 else 2 * PowerOfTwo(k - 1)
  }

  /** For powers of two the entries are exact. */
  lemma {:induction false} PowersAreExact(k: nat)
    requires k <= 6
    ensures PowerOfTwo(k) <= MAX_PAYLOAD && CLogC(PowerOfTwo(k)) == 1024 * k * PowerOfTwo(k)
  {
    assert PowerOfTwo(k) ==
      if k == 0 then 1 else if k == 1 then 2 else if k == 2 then 4 else if k == 3 then 8 else
      if k == 4 then 16 else if k == 5 then 32 else 64 by { SmallPowers(k); }
  }

  lemma {:induction false} SmallPowers(k: nat)
    requires k <= 6
    ensures PowerOfTwo(k) ==
              if k == 0 then 1 else if k == 1 then 2 else if k == 2 then 4 else if k == 3 then 8 else
              if k == 4 then 16 else if k == 5 then 32 else 64
  {
    if k > 0 {
      SmallPowers(k - 1);
    }
  }

  // ---------------------------------------------------------- counts and sums

  function Count(data: seq<byte>, b: int): nat {
    multiset(data)[b]
  }

  /** How many bytes of the payload are at least v. */
  function TotalFrom(data: seq<byte>, v: nat): nat
    decreases 256 - v
  {
    if v >= 256 then 0 else Count(data, v) + TotalFrom(data, v + 1)
  }

  function SumFrom(data: seq<byte>, v: nat): nat
    decreases 256 - v
  {
    if v >= 256 then 0 else CLogC(Count(data, v)) + SumFrom(data, v + 1)
  }

  lemma {:induction false} TotalAfterAppend(data: seq<byte>, b: byte, v: nat)
    ensures TotalFrom(data + [b], v) == TotalFrom(data, v) + (if v <= b then 1 else 0)
    decreases 256 - v
  {
    if v < 256 {
      TotalAfterAppend(data, b, v + 1);
      assert Count(data + [b], v) == Count(data, v) + (if v == b then 1 else 0);
    }
  }

  lemma {:induction false} TotalOfNothing(v: nat)
    ensures TotalFrom([], v) == 0
    decreases 256 - v
  {
    if v < 256 {
      TotalOfNothing(v + 1);
    }
  }

  lemma {:induction false} TotalIsLength(data: seq<byte>)
    ensures TotalFrom(data, 0) == |data|
  {
    hide TotalFrom;
    if data == [] {
      TotalOfNothing(0);
    } else {
      var front := data[..|data| - 1];
      TotalIsLength(front);
      TotalAfterAppend(front, data[|data| - 1], 0);
      assert front + [data[|data| - 1]] == data;
    }
  }

  lemma {:induction false} CountBelowTotal(data: seq<byte>, v: nat, u: nat)
    requires v <= u < 256
    ensures Count(data, u) <= TotalFrom(data, v)
    decreases u - v
  {
    if v < u {
      CountBelowTotal(data, v + 1, u);
    }
  }

  /** Two different byte values occur, so the sum stays 2048 short of the whole. */
  lemma {:induction false} SumBelowWhole(data: seq<byte>, v: nat)
    requires TotalFrom(data, v) <= MAX_PAYLOAD
    ensures SumFrom(data, v) <= CLogC(TotalFrom(data, v))
    ensures forall x, y | v <= x < y < 256 && Count(data, x) > 0 && Count(data, y) > 0 ::
              SumFrom(data, v) + 2048 <= CLogC(TotalFrom(data, v))
    decreases 256 - v
  {
    hide CLogC;
    if v < 256 {
      SumBelowWhole(data, v + 1);
      SplittingLoses(Count(data, v), TotalFrom(data, v + 1));
      forall x, y | v <= x < y < 256 && Count(data, x) > 0 && Count(data, y) > 0
        ensures SumFrom(data, v) + 2048 <= CLogC(TotalFrom(data, v))
      {
        if x == v {
          CountBelowTotal(data, v + 1, y);
        }
      }
    } else {
      ZeroIsZero();
    }
  }

  /** With one byte value only, its count is the whole. */
  lemma {:induction false} SumOfOneValue(data: seq<byte>, b: byte, v: nat)
    requires forall u | 0 <= u < 256 && u != b :: Count(data, u) == 0
    ensures SumFrom(data, v) == if v <= b then CLogC(Count(data, b)) else 0
    decreases 256 - v
  {
    hide CLogC;
    ZeroIsZero();
    if v < 256 {
      SumOfOneValue(data, b, v + 1);
    }
  }

  lemma {:induction false} SumOfRareValues(data: seq<byte>, v: nat)
    ensures (forall u | v <= u < 256 :: Count(data, u) <= 1) ==> SumFrom(data, v) == 0
    ensures forall u | v <= u < 256 && 2 <= Count(data, u) <= MAX_PAYLOAD :: SumFrom(data, v) >= 2048
    decreases 256 - v
  {
    if v < 256 {
      SumOfRareValues(data, v + 1);
      RepeatsCost(Count(data, v));
      hide CLogC;
      ZeroIsZero();
    }
  }

  lemma {:induction false} RepeatsCost(c: nat)
    ensures 2 <= c <= MAX_PAYLOAD ==> CLogC(c) >= 2048
  {
    if 2 < c <= MAX_PAYLOAD {
      RepeatsCost(c - 1);
      StepsGrow(c - 1);
    }
  }

  // ---------------------------------------------------------------- the score

  /** Entropy per byte, scaled by 1024; the empty payload scores 0. */
  function Score(data: seq<byte>): int {
    if |data| == 0 then 0 else (CLogC(|data|) - SumFrom(data, 0)) / |data|
  }

  predicate AllEqual(data: seq<byte>) {
    forall i, j | 0 <= i < |data| && 0 <= j < |data| :: data[i] == data[j]
  }

  predicate AllDistinct(data: seq<byte>) {
    forall i, j | 0 <= i < j < |data| :: data[i] != data[j]
  }

  lemma {:induction false} OccursIffCounted(data: seq<byte>, b: byte)
    ensures Count(data, b) > 0 <==> b in data
  {
    assert b in multiset(data) <==> b in data;
  }

  lemma {:induction false} RepeatIsCountedTwice(data: seq<byte>, i: nat, j: nat)
    requires i < j < |data| && data[i] == data[j]
    ensures Count(data, data[i]) >= 2
  {
    var left, right := data[..j], data[j..];
    assert left + right == data;
    assert left[i] in multiset(left);
    assert right[0] in multiset(right);
  }

  lemma {:induction false} DistinctIsCountedOnce(data: seq<byte>, b: byte)
    requires AllDistinct(data)
    ensures Count(data, b) <= 1
  {
    if |data| > 0 {
      var front, last := data[..|data| - 1], data[|data| - 1];
      assert front + [last] == data;
      DistinctIsCountedOnce(front, b);
      if b == last {
        OccursIffCounted(front, b);
      }
    }
  }

  /** One repeated value uses up the whole sum; two different values leave 2048 of it. */
  lemma {:induction false} SumOfUniform(data: seq<byte>)
    requires 0 < |data| <= MAX_PAYLOAD
    ensures AllEqual(data) ==> SumFrom(data, 0) == CLogC(|data|)
    ensures !AllEqual(data) ==> SumFrom(data, 0) + 2048 <= CLogC(|data|)
    ensures SumFrom(data, 0) <= CLogC(|data|)
  {
    hide CLogC, SumFrom, TotalFrom;
    TotalIsLength(data);
    SumBelowWhole(data, 0);
    if AllEqual(data) {
      forall u: byte | u != data[0]
        ensures Count(data, u) == 0
      {
        OccursIffCounted(data, u);
      }
      SumOfOneValue(data, data[0], 0);
      OneValueCountsAll(data);
    } else {
      var i, j :| 0 <= i < |data| && 0 <= j < |data| && data[i] < data[j];
      OccursIffCounted(data, data[i]);
      OccursIffCounted(data, data[j]);
    }
  }

  lemma {:induction false} OneValueCountsAll(data: seq<byte>)
    requires |data| > 0 && AllEqual(data)
    ensures Count(data, data[0]) == |data|
  {
    var front, last := data[..|data| - 1], data[|data| - 1];
    assert front + [last] == data;
    if |front| > 0 {
      OneValueCountsAll(front);
    }
  }

  lemma {:induction false} SumOfDistinct(data: seq<byte>)
    requires |data| <= MAX_PAYLOAD
    ensures AllDistinct(data) ==> SumFrom(data, 0) == 0
    ensures !AllDistinct(data) ==> SumFrom(data, 0) >= 2048
  {
    hide CLogC, SumFrom, TotalFrom;
    SumOfRareValues(data, 0);
    if AllDistinct(data) {
      forall b: byte
        ensures Count(data, b) <= 1
      {
        DistinctIsCountedOnce(data, b);
      }
    } else {
      var i, j :| 0 <= i < j < |data| && data[i] == data[j];
      RepeatIsCountedTwice(data, i, j);
      TotalIsLength(data);
      CountBelowTotal(data, 0, data[i]);
    }
  }

  /** The subtraction never goes below zero, so the source's saturation never acts. */
  lemma {:induction false} ScoreIsNeverSaturated(data: seq<byte>)
    requires |data| <= MAX_PAYLOAD
    ensures |data| > 0 ==> SumFrom(data, 0) <= CLogC(|data|)
    ensures Score(data) >= 0
  {
    hide CLogC, SumFrom;
    if |data| > 0 {
      SumOfUniform(data);
    }
  }

  lemma {:induction false} ScoreZeroIffUniform(data: seq<byte>)
    requires |data| <= MAX_PAYLOAD
    ensures Score(data) == 0 <==> AllEqual(data)
  {
    hide CLogC, SumFrom;
    if |data| > 0 {
      SumOfUniform(data);
      if !AllEqual(data) {
        QuotientPositive(CLogC(|data|) - SumFrom(data, 0), |data|);
      }
    }
  }

  lemma {:induction false} QuotientPositive(x: int, n: int)
    requires 0 < n <= x
    ensures x / n >= 1
  {
    QuotientMonotone(n, x, n);
  }

  lemma {:induction false} FactorBelowOne(n: int, d: int)
    requires 0 < n && n * d < n
    ensures d < 1
  {
  }

  lemma {:induction false} QuotientMonotone(x: int, y: int, n: int)
    requires x <= y && 0 < n
    ensures x / n <= y / n
  {
    var a, b := x / n, y / n;
    assert n * (a - b) == n * a - n * b;
    FactorBelowOne(n, a - b);
  }

  lemma {:induction false} QuotientAtMost(x: int, n: int, k: int)
    requires x <= k * n && 0 < n
    ensures x / n <= k
  {
    assert n * (x / n - k) == n * (x / n) - n * k;
    FactorBelowOne(n, x / n - k);
  }

  lemma {:induction false} QuotientDrops(x: int, y: int, n: int)
    requires 0 < n <= y
    ensures (x - y) / n < x / n
  {
    var a, b := (x - y) / n, x / n;
    assert n * (a - b + 1) == n * a - n * b + n;
    FactorBelowOne(n, a - b + 1);
  }

  /** No payload scores above one of the same length with all bytes different, and only those reach it. */
  lemma {:induction false} ScoreMaximalIffDistinct(data: seq<byte>)
    requires 0 < |data| <= MAX_PAYLOAD
    ensures Score(data) <= CLogC(|data|) / |data|
    ensures Score(data) == CLogC(|data|) / |data| <==> AllDistinct(data)
  {
    hide CLogC, SumFrom;
    SumOfDistinct(data);
    if !AllDistinct(data) {
      QuotientDrops(CLogC(|data|), SumFrom(data, 0), |data|);
    }
  }

  /** Every byte value that occurs at all occurs m times. */
  predicate EquallyOften(data: seq<byte>, m: nat) {
    forall u | 0 <= u < 256 :: Count(data, u) == 0 || Count(data, u) == m
  }

  lemma {:induction false} SumOfEqualShares(data: seq<byte>, m: nat, v: nat)
    requires EquallyOften(data, m)
    ensures m * SumFrom(data, v) == TotalFrom(data, v) * CLogC(m)
    decreases 256 - v
  {
    hide CLogC, Count;
    ZeroIsZero();
    if v < 256 {
      SumOfEqualShares(data, m, v + 1);
      OneMoreShare(m, SumFrom(data, v + 1), TotalFrom(data, v + 1), CLogC(m));
    }
  }

  lemma {:induction false} OneMoreShare(m: nat, sum: nat, total: nat, x: nat)
    requires m * sum == total * x
    ensures m * (x + sum) == (m + total) * x
  {
  }

  /**
   A payload in which 2^k different bytes occur equally often has k bits of entropy per
   byte, and scores 1024 for each, or one less where the table's rounding falls short.
   */
  lemma {:induction false} EqualSharesScore(data: seq<byte>, k: nat, m: nat)
    requires 0 < m && EquallyOften(data, m) && |data| == PowerOfTwo(k) * m <= MAX_PAYLOAD
    ensures Score(data) == 1024 * k || Score(data) == 1024 * k - 1
    ensures m == 1 ==> Score(data) == 1024 * k
  {
    hide CLogC, SumFrom, TotalFrom, EquallyOften, PowerOfTwo;
    var d, n := PowerOfTwo(k), |data|;
    SumOfEqualShares(data, m, 0);
    TotalIsLength(data);
    SharesCancel(d, m, SumFrom(data, 0), CLogC(m));
    assert k <= 6 by {
      if k > 6 {
        LaterPowers(k);
        ProductGrows(128, d, 1, m);
      }
    }
    PowersAreExact(k);
    PowerIsPositive(k);
    TableIsLogarithmic(d, m);
    var e := ProductError(d, m);
    assert CLogC(n) - SumFrom(data, 0) == m * CLogC(d) + e;
    assert m * CLogC(d) == 1024 * k * n by { Regroup(m, 1024 * k, d); }
    assert 0 <= e + n && e < n by { ErrorBelow(d, m, e); }
    NearlyDivides(1024 * k, n, e);
  }

  lemma {:induction false} LaterPowers(k: nat)
    requires k > 6
    ensures PowerOfTwo(k) >= 128
  {
    if k > 7 {
      LaterPowers(k - 1);
    } else {
      SmallPowers(6);
    }
  }

  lemma {:induction false} PowerIsPositive(k: nat)
    ensures PowerOfTwo(k) >= 1
  {
    if k > 0 {
      PowerIsPositive(k - 1);
    }
  }

  lemma {:induction false} Regroup(m: nat, x: nat, d: nat)
    ensures m * (x * d) == x * (d * m)
  {
  }

  lemma {:induction false} SharesCancel(d: nat, m: nat, sum: nat, x: nat)
    requires 0 < m && m * sum == d * m * x
    ensures sum == d * x
  {
    assert m * (sum - d * x) == m * sum - m * (d * x);
    assert m * (d * x) == d * m * x;
    ZeroFactor(m, sum - d * x);
  }

  lemma {:induction false} ZeroFactor(m: int, y: int)
    requires m > 0 && m * y == 0
    ensures y == 0
  {
  }

  lemma {:induction false} NegativeFactor(m: int, y: int)
    requires m > 0 && m * y < 0
    ensures y < 0
  {
  }

  lemma {:induction false} ErrorBelow(d: nat, m: nat, e: int)
    requires 1 <= d && 1 <= m && Rounding(e, d + m + 1) && (d == 1 || m == 1 ==> e == 0)
    ensures 0 <= e + d * m && e < d * m
  {
    if d > 1 && m > 1 {
      assert (d - 1) * (m - 1) >= 1 by { ProductGrows(1, d - 1, 1, m - 1); }
      assert (d - 1) * (m - 1) == d * m - d - m + 1;
    }
  }

  lemma {:induction false} NearlyDivides(q: int, n: nat, e: int)
    requires 0 < n && 0 <= e + n && e < n
    ensures (q * n + e) / n == if e >= 0 then q else q - 1
  {
    var r := (q * n + e) / n;
    assert n * (r - q) == n * r - q * n;
    FactorBelowOne(n, r - q);
    assert n * (q - 1 - r) == q * n - n - n * r;
    FactorBelowOne(n, q - 1 - r);
    assert n * (q - r) == q * n - n * r;
    if e >= 0 {
      FactorBelowOne(n, q - r);
    } else {
      NegativeFactor(n, r - q);
    }
  }

  lemma {:induction false} TableBelow(c: nat)
    requires c <= MAX_PAYLOAD
    ensures CLogC(c) <= 6144 * c
  {
  }

  /** The score fits the 16-bit field it is stored in. */
  lemma {:induction false} ScoreFitsItsField(data: seq<byte>)
    requires |data| <= MAX_PAYLOAD
    ensures 0 <= Score(data) <= 6144
  {
    hide CLogC, SumFrom;
    ScoreIsNeverSaturated(data);
    if |data| > 0 {
      TableBelow(|data|);
      QuotientAtMost(CLogC(|data|) - SumFrom(data, 0), |data|, 6144);
    }
  }

  /** Only how often each byte occurs matters, not the order. */
  lemma {:induction false} ScoreIgnoresOrder(a: seq<byte>, b: seq<byte>)
    requires multiset(a) == multiset(b)
    ensures Score(a) == Score(b)
  {
    hide CLogC, SumFrom;
    assert |a| == |multiset(a)| == |multiset(b)| == |b|;
    SumIgnoresOrder(a, b, 0);
  }

  lemma {:induction false} SumIgnoresOrder(a: seq<byte>, b: seq<byte>, v: nat)
    requires multiset(a) == multiset(b)
    ensures SumFrom(a, v) == SumFrom(b, v)
    decreases 256 - v
  {
    hide CLogC;
    if v < 256 {
      SumIgnoresOrder(a, b, v + 1);
    }
  }

  method CountBytes(data: seq<byte>) returns (counts: array<nat>)
    ensures fresh(counts) && counts.Length == 256
    ensures forall v | 0 <= v < 256 :: counts[v] == Count(data, v)
  {
    counts := new nat[256](_ => 0);
    for i := 0 to |data|
      invariant forall v | 0 <= v < 256 :: counts[v] == Count(data[..i], v)
    {
      counts[data[i]] := counts[data[i]] + 1;
      assert data[..i + 1] == data[..i] + [data[i]];
    }
    assert data[..|data|] == data;
  }

  method ComputeEntropy(data: seq<byte>) returns (score: int)
    requires |data| <= MAX_PAYLOAD
    ensures score == Score(data)
  {
    hide CLogC, SumFrom;
    if |data| == 0 {
      return 0;
    }
    var counts := CountBytes(data);
    var sum := SumCounts(data, counts);
    SumOfUniform(data);
    var weighted := if CLogC(|data|) < sum then 0 else CLogC(|data|) - sum;
    score := weighted / |data|;
  }

  method SumCounts(data: seq<byte>, counts: array<nat>) returns (sum: nat)
    requires counts.Length == 256
    requires forall v | 0 <= v < 256 :: counts[v] == Count(data, v)
    ensures sum == SumFrom(data, 0)
  {
    hide CLogC;
    sum := 0;
    for v := 0 to 256
      invariant sum + SumFrom(data, v) == SumFrom(data, 0)
    {
      if counts[v] > 0 {
        sum := sum + CLogC(if counts[v] < 64 then counts[v] else 64);
      }
      ZeroIsZero();
      SaturatedIndex(counts[v]);
    }
  }

  lemma {:induction false} SaturatedIndex(c: nat)
    ensures c >= 64 ==> CLogC(c) == CLogC(64)
  {
  }

  // ------------------------------------------------------------- the event id

  const FIELD16: nat := 0x1_0000
  const FIELD32: nat := 0x1_0000_0000
  const FIELD48: nat := 0x1_0000_0000_0000

  /** Thread id in the top 16 bits, score in the next 16, hash in the low 32. */
  function EventId(thread: nat, data: seq<byte>): nat
    requires |data| <= MAX_PAYLOAD
  {
    ScoreFitsItsField(data);
    thread % FIELD16 * FIELD48 + Score(data) * FIELD32 + Fnv.Hash(data)
  }

  lemma {:induction false} EventIdFields(thread: nat, data: seq<byte>)
    requires |data| <= MAX_PAYLOAD
    ensures EventId(thread, data) / FIELD48 == thread % FIELD16
    ensures EventId(thread, data) / FIELD32 % FIELD16 == Score(data)
    ensures EventId(thread, data) % FIELD32 == Fnv.Hash(data)
  {
    hide Score;
    ScoreFitsItsField(data);
    PackedFields(thread % FIELD16, Score(data), Fnv.Hash(data));
  }

  lemma {:induction false} PackedFields(top: nat, middle: nat, low: nat)
    requires top < FIELD16 && middle < FIELD16 && low < FIELD32
    ensures var id := top * FIELD48 + middle * FIELD32 + low;
            id / FIELD48 == top && id / FIELD32 % FIELD16 == middle && id % FIELD32 == low
  {
    var id := top * FIELD48 + middle * FIELD32 + low;
    assert id == (top * FIELD16 + middle) * FIELD32 + low;
    assert id / FIELD32 == top * FIELD16 + middle;
  }
}
