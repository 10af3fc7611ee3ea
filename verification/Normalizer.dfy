/** The image normaliser of the C side (C/src/PiVisImageNormalizerAlgo.c) on values: clipping, the carried
    average, the co-moment in 32-bit unsigned arithmetic, and the contrast stretch. */
module Normalizer {
  import opened Arithmetic
  import opened Bytes
  import opened Images

  const IMAGE_FILTER_HIGH := 240
  const IMAGE_FILTER_LOW := 20

  /** Reduction to an unsigned int. */
  function Wrap(x: int): Word {
    x % U32
  }

  // ----- Gray values, clipping and the carried average -----

  function Gray(color: seq<Byte>): seq<Byte> {
    seq(|color| / 3, i requires 0 <= i < |color| / 3 => Mean(color, i))
  }

  function Clip(g: Byte): Byte {
    if g > IMAGE_FILTER_HIGH then IMAGE_FILTER_HIGH
    else if g < IMAGE_FILTER_LOW then IMAGE_FILTER_LOW
    else g
  }

  /** Sum of the clipped values of the first `n` pixels. */
  function ClipSum(gray: seq<Byte>, n: nat): nat
    requires n <= |gray|
  {
    if n == 0 then 0 else ClipSum(gray, n - 1) + Clip(gray[n - 1])
  }

  lemma {:induction false} ClipSumBounds(gray: seq<Byte>, n: nat)
    requires n <= |gray|
    ensures 20 * n <= ClipSum(gray, n) <= 240 * n
  {
    if n > 0 {
      ClipSumBounds(gray, n - 1);
    }
  }

  /** The average of a frame; the source adds to the previous frame's average and never resets it. */
  function Average(carried: nat, gray: seq<Byte>): nat {
    (carried + ClipSum(gray, |gray|)) / GRAYSCALE_IMAGE_SIZE
  }

  lemma AverageInRange(carried: nat, gray: seq<Byte>)
    requires IsGrayImage(gray) && carried <= 240
    ensures 20 <= Average(carried, gray) <= 240
  {
    ClipSumBounds(gray, |gray|);
  }

  lemma AverageBounds(carried: nat, gray: seq<Byte>)
    requires IsGrayImage(gray) && carried <= 240
    ensures 20 <= Average(carried, gray) <= 240
    ensures var sum := carried + ClipSum(gray, |gray|);
      Average(carried, gray) * GRAYSCALE_IMAGE_SIZE <= sum < (Average(carried, gray) + 1) * GRAYSCALE_IMAGE_SIZE
    ensures var mean := ClipSum(gray, |gray|) / GRAYSCALE_IMAGE_SIZE;
      mean <= Average(carried, gray) <= mean + 1
    ensures var d := ClipSum(gray, |gray|) - Average(carried, gray) * GRAYSCALE_IMAGE_SIZE;
      -240 <= d < GRAYSCALE_IMAGE_SIZE
  {
    ClipSumBounds(gray, |gray|);
  }

  /** The average carried after a sequence of frames. */
  function AverageAfter(frames: seq<seq<Byte>>): nat {
    if frames == [] then 0 else Average(AverageAfter(frames[..|frames| - 1]), frames[|frames| - 1])
  }

  /** Although it is never reset, the average stays within the filter bounds and within one of the last frame's
      own floored mean, over every sequence of frames. */
  lemma {:induction false} AverageNeverDrifts(frames: seq<seq<Byte>>)
    requires forall i :: 0 <= i < |frames| ==> IsGrayImage(frames[i])
    ensures AverageAfter(frames) <= 240
    ensures frames != [] ==>
      var last := frames[|frames| - 1];
      var mean := ClipSum(last, |last|) / GRAYSCALE_IMAGE_SIZE;
      20 <= AverageAfter(frames) && mean <= AverageAfter(frames) <= mean + 1
  {
    if frames != [] {
      AverageNeverDrifts(frames[..|frames| - 1]);
      AverageBounds(AverageAfter(frames[..|frames| - 1]), frames[|frames| - 1]);
    }
  }

  // ----- The co-moment -----

  /** One term of the co-moment as a true integer. */
  function CoTerm(g: Byte, a: nat): int {
    (Clip(g) - a) * (g - a)
  }

  /** The same term as line 75 computes it, every operation on unsigned int. */
  function TermU32(normalized: Byte, g: Byte, a: nat): Word {
    Wrap(Wrap(normalized - a) * Wrap(g - a))
  }

  function CoSum(gray: seq<Byte>, a: nat, n: nat): int
    requires n <= |gray|
  {
    if n == 0 then 0 else CoSum(gray, a, n - 1) + CoTerm(gray[n - 1], a)
  }

  lemma WrapOfProduct(x: int, y: int)
    requires (x == 0 && -255 <= y <= 255) || (0 <= x <= 255 && 0 <= y <= 255) || (-255 <= x < 0 && -255 <= y < 0)
    ensures 0 <= x * y <= 65025 && Wrap(Wrap(x) * Wrap(y)) == x * y
  {
    if x == 0 {
      assert Wrap(x) == 0;
    } else if x > 0 {
      ProductRange(x, y);
      assert Wrap(x) == x && Wrap(y) == y;
    } else {
      ProductRange(x, y);
      WrapOfNegativeProduct(x, y);
    }
  }

  lemma WrapOfNegativeProduct(x: int, y: int)
    requires -255 <= x < 0 && -255 <= y < 0 && 0 <= x * y <= 65025
    ensures Wrap(Wrap(x) * Wrap(y)) == x * y
  {
    assert Wrap(x) == x + U32 && Wrap(y) == y + U32;
    MulDifferences(x, -U32, y, -U32);
    assert (x + U32) * (y + U32) == x * y + U32 * (x + y + U32);
    ModuloOfMultiple(x * y, x + y + U32, U32);
  }

  lemma ProductRange(x: int, y: int)
    requires (0 <= x <= 255 && 0 <= y <= 255) || (-255 <= x <= 0 && -255 <= y <= 0)
    ensures 0 <= x * y <= 65025
  {
    if x >= 0 && y >= 0 {
      MulNonNegative(x, y);
      MulMonotone(x, 255, y);
    } else {
      assert x * y == (-x) * (-y);
      MulNonNegative(-x, -y);
      MulMonotone(-x, 255, -y);
    }
  }

  /** Clipping pulls a value towards any average within the filter bounds but never past it, so each term is
      non-negative and the wrapped unsigned product is the true one, clipped pixel or not. */
  lemma CoTermExact(g: Byte, a: nat)
    requires 20 <= a <= 240
    ensures 0 <= CoTerm(g, a) == TermU32(Clip(g), g, a)
  {
    WrapOfProduct(Clip(g) - a, g - a);
  }

  /** How many of the first `n` pixels are clipped to the lower bound, and to the upper. */
  function LowCount(gray: seq<Byte>, n: nat): nat
    requires n <= |gray|
  {
    if n == 0 then 0 else LowCount(gray, n - 1) + (if gray[n - 1] < IMAGE_FILTER_LOW then 1 else 0)
  }

  function HighCount(gray: seq<Byte>, n: nat): nat
    requires n <= |gray|
  {
    if n == 0 then 0 else HighCount(gray, n - 1) + (if gray[n - 1] > IMAGE_FILTER_HIGH then 1 else 0)
  }

  /** How many pixels of an image are clipped. */
  function ClippedCount(gray: seq<Byte>): nat {
    LowCount(gray, |gray|) + HighCount(gray, |gray|)
  }

  /** Clipped pixels pull the clipped sum towards their bound. */
  lemma {:induction false} CountsBoundSum(gray: seq<Byte>, n: nat)
    requires n <= |gray|
    ensures ClipSum(gray, n) <= 240 * n - 220 * LowCount(gray, n)
    ensures ClipSum(gray, n) >= 20 * n + 220 * HighCount(gray, n)
  {
    if n > 0 {
      CountsBoundSum(gray, n - 1);
    }
  }

  /** What clipping adds to a term, by the bound it clips to. */
  function LowWeight(a: int): int {
    20 * (a - 20)
  }

  function HighWeight(a: int): int {
    15 * (240 - a)
  }

  lemma ClipExcess(g: Byte, a: nat)
    requires 20 <= a <= 240
    ensures (Clip(g) - a) * (g - Clip(g)) <= if g < 20 then LowWeight(a) else if g > 240 then HighWeight(a) else 0
  {
    if g < 20 {
      assert (20 - a) * (g - 20) == (20 - g) * (a - 20);
      MulMonotone(20 - g, 20, a - 20);
    } else if g > 240 {
      MulMonotone(g - 240, 15, 240 - a);
    }
  }

  lemma CoTermBound(g: Byte, a: nat)
    requires 20 <= a <= 240
    ensures CoTerm(g, a) <= (260 - 2 * a) * Clip(g) + (a * a - 4800)
                            + (if g < 20 then LowWeight(a) else if g > 240 then HighWeight(a) else 0)
  {
    var c := Clip(g);
    MulNonNegative(240 - c, c - 20);
    MulDifferences(240, c, c, 20);
    MulDifferences(c, a, c, a);
    MulSubtract(260, 2 * a, c);
    ClipExcess(g, a);
    MulAdd(c - a, c - a, g - c);
  }

  lemma {:induction false} CoSumBound(gray: seq<Byte>, a: nat, n: nat)
    requires n <= |gray| && 20 <= a <= 240
    ensures 0 <= CoSum(gray, a, n)
         <= (260 - 2 * a) * ClipSum(gray, n) + n * (a * a - 4800)
            + LowWeight(a) * LowCount(gray, n) + HighWeight(a) * HighCount(gray, n)
  {
    if n > 0 {
      var g := gray[n - 1];
      CoSumBound(gray, a, n - 1);
      CoTermExact(g, a);
      CoTermBound(g, a);
      SumStep(260 - 2 * a, a * a - 4800, ClipSum(gray, n - 1), Clip(g), n);
      MulAdd(LowWeight(a), LowCount(gray, n - 1), LowCount(gray, n) - LowCount(gray, n - 1));
      MulAdd(HighWeight(a), HighCount(gray, n - 1), HighCount(gray, n) - HighCount(gray, n - 1));
    }
  }

  lemma SumStep(k: int, b: int, sum: int, c: int, n: int)
    ensures k * (sum + c) + n * b == (k * sum + (n - 1) * b) + (k * c + b)
  {
    MulAdd(k, sum, c);
    MulSubtract(n, 1, b);
  }

  /** The Bhatia-Davis step, with the floored average `a` in place of the mean: `d` is what flooring and the
      carried average leave over. */
  lemma FlooredMeanBound(a: nat, d: int)
    requires 20 <= a <= 240 && -240 <= d < GRAYSCALE_IMAGE_SIZE
    ensures (260 - 2 * a) * (a * GRAYSCALE_IMAGE_SIZE + d) + GRAYSCALE_IMAGE_SIZE * (a * a - 4800)
         <= 12101 * GRAYSCALE_IMAGE_SIZE
  {
    var e := 130 - a;
    FlooredMeanIdentity(a, d, e);
    if e >= 0 {
      MulMonotone(d, GRAYSCALE_IMAGE_SIZE, e);
      SquareAtLeast(e);
    } else {
      MulMonotone(-d, 240, -e);
      SquareAtLeast(e);
    }
  }

  lemma FlooredMeanIdentity(a: int, d: int, e: int)
    requires e == 130 - a
    ensures (260 - 2 * a) * (a * GRAYSCALE_IMAGE_SIZE + d) + GRAYSCALE_IMAGE_SIZE * (a * a - 4800)
         == GRAYSCALE_IMAGE_SIZE * (12100 - e * e) + 2 * (d * e)
  {
    MulDifferences(130, a, 130, a);
    MulAdd(2 * e, a * GRAYSCALE_IMAGE_SIZE, d);
    MulSubtract(130, a, a);
    assert 2 * e * (a * GRAYSCALE_IMAGE_SIZE) == GRAYSCALE_IMAGE_SIZE * (2 * (e * a));
    assert 2 * e * d == 2 * (d * e);
  }

  lemma SquareAtLeast(e: int)
    ensures e * e >= 2 * e - 1 && e * e >= -e
  {
    MulDifferences(e, 1, e, 1);
    if e >= 1 {
      MulNonNegative(e - 1, e - 1);
    } else {
      MulNonNegative(1 - e, 1 - e);
      MulDifferences(1, e, 1, e);
      MulNonNegative(-e, -e);
      if e < 0 {
        MulMonotone(1, -e, -e);
      }
    }
  }

  /** The bound of the co-moment in the distance `e` of the average from 130, what flooring leaves over, and the
      counts of clipped pixels. */
  function Cap(e: int, d: int, low: int, high: int): int {
    GRAYSCALE_IMAGE_SIZE * (12100 - e * e) + 2 * (d * e) + LowWeight(130 - e) * low + HighWeight(130 - e) * high
  }

  /** What flooring and the carried average leave over. */
  function Leftover(carried: nat, gray: seq<Byte>): int {
    ClipSum(gray, |gray|) - Average(carried, gray) * GRAYSCALE_IMAGE_SIZE
  }

  lemma CapInAverage(a: nat, d: int, low: int, high: int)
    ensures Cap(130 - a, d, low, high)
         == (260 - 2 * a) * (a * GRAYSCALE_IMAGE_SIZE + d) + GRAYSCALE_IMAGE_SIZE * (a * a - 4800)
            + LowWeight(a) * low + HighWeight(a) * high
  {
    FlooredMeanIdentity(a, d, 130 - a);
  }

  /** The co-moment of every frame is within the bound, and the clipped pixels leave room for each other. */
  lemma CoMomentBound(carried: nat, gray: seq<Byte>)
    requires IsGrayImage(gray) && carried <= 240
    ensures var e, d := 130 - Average(carried, gray), Leftover(carried, gray);
      var low, high := LowCount(gray, |gray|), HighCount(gray, |gray|);
      && -110 <= e <= 110 && -240 <= d < GRAYSCALE_IMAGE_SIZE
      && 220 * low <= (110 + e) * GRAYSCALE_IMAGE_SIZE - d
      && 220 * high <= (110 - e) * GRAYSCALE_IMAGE_SIZE + d
      && 0 <= CoSum(gray, Average(carried, gray), |gray|) <= Cap(e, d, low, high)
  {
    var a := Average(carried, gray);
    AverageBounds(carried, gray);
    CountsBoundSum(gray, |gray|);
    CoSumBound(gray, a, |gray|);
    CapInAverage(a, Leftover(carried, gray), LowCount(gray, |gray|), HighCount(gray, |gray|));
    Room(a, Leftover(carried, gray), LowCount(gray, |gray|), HighCount(gray, |gray|), ClipSum(gray, |gray|));
  }

  lemma Room(a: int, d: int, low: int, high: int, sum: int)
    requires sum == a * GRAYSCALE_IMAGE_SIZE + d
    requires sum <= 240 * GRAYSCALE_IMAGE_SIZE - 220 * low && sum >= 20 * GRAYSCALE_IMAGE_SIZE + 220 * high
    ensures 220 * low <= (110 + (130 - a)) * GRAYSCALE_IMAGE_SIZE - d
    ensures 220 * high <= (110 - (130 - a)) * GRAYSCALE_IMAGE_SIZE + d
  {
  }

  const MAX_CLIPPED := 299010

  /** Averages up to well below 130: a pixel clipped low weighs at least as much as one clipped high, and there
      is room for only so many of them. */
  lemma CapAtHighAverage(e: int, d: int, low: int, high: int)
    requires -110 <= e <= 15 && -240 <= d < GRAYSCALE_IMAGE_SIZE
    requires low >= 0 && high >= 0 && low + high <= MAX_CLIPPED
    requires 220 * low <= (110 + e) * GRAYSCALE_IMAGE_SIZE - d
    ensures Cap(e, d, low, high) < U32
  {
    var q, r := HighWeight(130 - e), 110 - 7 * e;
    assert LowWeight(130 - e) == q + 5 * r;
    WeighAll(q, r, low, high);
    MulMonotone(220 * low, (110 + e) * GRAYSCALE_IMAGE_SIZE - d, r);
    assert (220 * low) * r == 44 * (5 * r * low);
    ExpandRoom(e, d);
    LowPolynomial(e, d);
  }

  lemma WeighAll(q: int, r: int, low: int, high: int)
    requires q >= 0 && low + high <= MAX_CLIPPED
    ensures (q + 5 * r) * low + q * high <= q * MAX_CLIPPED + 5 * r * low
  {
    MulMonotone(low + high, MAX_CLIPPED, q);
    assert (q + 5 * r) * low + q * high == (low + high) * q + 5 * r * low;
  }

  lemma ExpandRoom(e: int, d: int)
    ensures ((110 + e) * GRAYSCALE_IMAGE_SIZE - d) * (110 - 7 * e)
         == GRAYSCALE_IMAGE_SIZE * (12100 - 660 * e - 7 * (e * e)) - 110 * d + 7 * (d * e)
  {
    MulDifferences((110 + e) * GRAYSCALE_IMAGE_SIZE, d, 110, 7 * e);
    assert ((110 + e) * GRAYSCALE_IMAGE_SIZE) * (7 * e) == GRAYSCALE_IMAGE_SIZE * (770 * e + 7 * (e * e));
    assert d * (7 * e) == 7 * (d * e);
  }

  lemma LowPolynomial(e: int, d: int)
    requires -110 <= e <= 15 && -240 <= d < GRAYSCALE_IMAGE_SIZE
    ensures 95 * (d * e) - 110 * d - 51 * GRAYSCALE_IMAGE_SIZE * (e * e) - 5405400 * e <= 26400
  {
    if e >= 2 {
      MulMonotone(d, GRAYSCALE_IMAGE_SIZE, 95 * e - 110);
      assert d * (95 * e - 110) == 95 * (d * e) - 110 * d;
      MulMonotone(2, e, e);
    } else if e <= -1 {
      MulMonotone(-d, 240, 110 - 95 * e);
      assert (-d) * (110 - 95 * e) == 95 * (d * e) - 110 * d;
      MulMonotone(1, -e, -e);
      assert (-e) * (-e) == e * e;
    }
  }

  /** Averages well below 130: every clipped pixel weighs at most as much as one clipped high. */
  lemma CapAtLowAverage(e: int, d: int, low: int, high: int)
    requires 16 <= e <= 110 && d < GRAYSCALE_IMAGE_SIZE
    requires low >= 0 && high >= 0 && low + high <= MAX_CLIPPED
    ensures Cap(e, d, low, high) < U32
  {
    var p, q := LowWeight(130 - e), HighWeight(130 - e);
    MulMonotone(p, q, low);
    MulMonotone(low + high, MAX_CLIPPED, q);
    assert (low + high) * q == q * low + q * high;
    MulMonotone(d, GRAYSCALE_IMAGE_SIZE, e);
    MulMonotone(16, e, e);
  }

  lemma CapOfFew(e: int, d: int, low: int, high: int)
    requires -110 <= e <= 110 && -240 <= d < GRAYSCALE_IMAGE_SIZE
    requires low >= 0 && high >= 0 && low + high <= MAX_CLIPPED
    requires 220 * low <= (110 + e) * GRAYSCALE_IMAGE_SIZE - d
    ensures Cap(e, d, low, high) < U32
  {
    if e <= 15 {
      CapAtHighAverage(e, d, low, high);
    } else {
      CapAtLowAverage(e, d, low, high);
    }
  }

  /** Pixels clipped on one side only, however many, never add up to 32 bits. */
  lemma CapLowOnly(e: int, d: int, low: int)
    requires -110 <= e <= 110 && -240 <= d < GRAYSCALE_IMAGE_SIZE
    requires 220 * low <= (110 + e) * GRAYSCALE_IMAGE_SIZE - d
    ensures Cap(e, d, low, 0) < U32
  {
    Square(e);
    LeftoverTerm(e, d);
    MulMonotone(220 * low, (110 + e) * GRAYSCALE_IMAGE_SIZE - d, 110 - e);
    ExpandSide(e, d);
    assert (220 * low) * (110 - e) == 11 * (LowWeight(130 - e) * low);
  }

  lemma CapHighOnly(e: int, d: int, high: int)
    requires -110 <= e <= 110 && -240 <= d < GRAYSCALE_IMAGE_SIZE
    requires 220 * high <= (110 - e) * GRAYSCALE_IMAGE_SIZE + d
    ensures Cap(e, d, 0, high) < U32
  {
    Square(e);
    LeftoverTerm(e, d);
    MulMonotone(220 * high, (110 - e) * GRAYSCALE_IMAGE_SIZE + d, 110 + e);
    ExpandHighSide(e, d);
    ScaleHigh(e, high);
  }

  lemma Square(e: int)
    ensures e * e >= 0
  {
    if e >= 0 {
      MulNonNegative(e, e);
    } else {
      MulNonNegative(-e, -e);
      assert (-e) * (-e) == e * e;
    }
  }

  lemma LeftoverTerm(e: int, d: int)
    requires -110 <= e <= 110 && -240 <= d < GRAYSCALE_IMAGE_SIZE
    ensures d * e <= 110 * GRAYSCALE_IMAGE_SIZE
  {
    if e >= 0 {
      MulMonotone(d, GRAYSCALE_IMAGE_SIZE, e);
    } else {
      MulMonotone(-d, 240, -e);
      assert (-d) * (-e) == d * e;
    }
  }

  lemma ExpandSide(e: int, d: int)
    ensures ((110 + e) * GRAYSCALE_IMAGE_SIZE - d) * (110 - e)
         == GRAYSCALE_IMAGE_SIZE * (12100 - e * e) - 110 * d + d * e
  {
    MulDifferences((110 + e) * GRAYSCALE_IMAGE_SIZE, d, 110, e);
    assert ((110 + e) * GRAYSCALE_IMAGE_SIZE) * e == GRAYSCALE_IMAGE_SIZE * (110 * e + e * e);
  }

  lemma ExpandHighSide(e: int, d: int)
    ensures ((110 - e) * GRAYSCALE_IMAGE_SIZE + d) * (110 + e)
         == GRAYSCALE_IMAGE_SIZE * (12100 - e * e) + 110 * d + d * e
  {
    MulDifferences((110 - e) * GRAYSCALE_IMAGE_SIZE, -d, 110, -e);
    assert ((110 - e) * GRAYSCALE_IMAGE_SIZE) * e == GRAYSCALE_IMAGE_SIZE * (110 * e - e * e);
  }

  lemma ScaleHigh(e: int, high: int)
    ensures 3 * ((220 * high) * (110 + e)) == 44 * (HighWeight(130 - e) * high)
  {
  }

  /** The 32-bit accumulator ends up with the true co-moment. */
  predicate Exact(carried: nat, gray: seq<Byte>) {
    var sum := CoSum(gray, Average(carried, gray), |gray|);
    Wrap(sum) == sum
  }

  lemma CoMomentOfFew(carried: nat, gray: seq<Byte>)
    requires IsGrayImage(gray) && carried <= 240 && ClippedCount(gray) <= MAX_CLIPPED
    ensures 0 <= CoSum(gray, Average(carried, gray), |gray|) < U32
  {
    var e, d := 130 - Average(carried, gray), Leftover(carried, gray);
    var low, high := LowCount(gray, |gray|), HighCount(gray, |gray|);
    CoMomentBound(carried, gray);
    assert Cap(e, d, low, high) < U32 by {
      CapOfFew(e, d, low, high);
    }
  }

  lemma AccumulatorDoesNotWrap(carried: nat, gray: seq<Byte>)
    requires IsGrayImage(gray) && carried <= 240 && ClippedCount(gray) <= MAX_CLIPPED
    ensures Exact(carried, gray)
  {
    CoMomentOfFew(carried, gray);
  }

  /** It takes pixels clipped on both sides to wrap: dark frames and bright frames are exact however much of them
      is clipped. */
  lemma OneSidedClippingIsExact(carried: nat, gray: seq<Byte>)
    requires IsGrayImage(gray) && carried <= 240
    requires LowCount(gray, |gray|) == 0 || HighCount(gray, |gray|) == 0
    ensures Exact(carried, gray)
  {
    CoMomentBound(carried, gray);
    var e, d := 130 - Average(carried, gray), Leftover(carried, gray);
    if HighCount(gray, |gray|) == 0 {
      CapLowOnly(e, d, LowCount(gray, |gray|));
    } else {
      CapHighOnly(e, d, HighCount(gray, |gray|));
    }
  }

  /** On a frame without clipped pixels the sum is at most 12101 for each pixel. */
  lemma UnclippedMoment(carried: nat, gray: seq<Byte>)
    requires IsGrayImage(gray) && carried <= 240 && ClippedCount(gray) == 0
    ensures Exact(carried, gray)
    ensures CoSum(gray, Average(carried, gray), |gray|) <= 12101 * GRAYSCALE_IMAGE_SIZE
  {
    AccumulatorDoesNotWrap(carried, gray);
    CoMomentBound(carried, gray);
    var a, d := Average(carried, gray), Leftover(carried, gray);
    CapInAverage(a, d, 0, 0);
    FlooredMeanBound(a, d);
  }

  /** A frame without clipped pixels has a standard deviation of at most 110, half the width of the filter. */
  lemma DeviationOfUnclipped(carried: nat, gray: seq<Byte>)
    requires IsGrayImage(gray) && carried <= 240 && ClippedCount(gray) == 0
    ensures StandardDeviation(gray, Average(carried, gray)) <= 110
  {
    UnclippedMoment(carried, gray);
    var v := Wrap(CoSum(gray, Average(carried, gray), |gray|)) / GRAYSCALE_IMAGE_SIZE;
    assert v <= 12101;
    var r := FloorSqrt(v);
    if r >= 111 {
      MulMonotone(111, r, r);
    }
  }

  /** A frame of `low` black pixels, `high` white ones, and the rest at the upper filter bound. */
  function Bands(low: nat, high: nat): seq<Byte>
    requires low + high <= GRAYSCALE_IMAGE_SIZE
  {
    seq(GRAYSCALE_IMAGE_SIZE, i => if i < low then 0 else if i < low + high then 255 else 240)
  }

  lemma {:induction false} BandSums(low: nat, high: nat, n: nat)
    requires low + high <= GRAYSCALE_IMAGE_SIZE && n <= GRAYSCALE_IMAGE_SIZE
    ensures var gray := Bands(low, high);
      var x := Min(n, low);
      var y := Min(n - x, high);
      && ClipSum(gray, n) == 20 * x + 240 * (n - x)
      && CoSum(gray, 130, n) == 14300 * x + 13750 * y + 12100 * (n - x - y)
      && LowCount(gray, n) == x && HighCount(gray, n) == y
  {
    if n > 0 {
      BandSums(low, high, n - 1);
    }
  }

  lemma BandMoment(low: nat, high: nat, carried: nat)
    requires low + high <= GRAYSCALE_IMAGE_SIZE && carried <= 240 && 153599 <= low <= 153600
    ensures var gray := Bands(low, high);
      && Average(carried, gray) == 130 && ClippedCount(gray) == low + high
      && CoSum(gray, 130, |gray|) == 14300 * low + 13750 * high + 12100 * (GRAYSCALE_IMAGE_SIZE - low - high)
  {
    BandSums(low, high, GRAYSCALE_IMAGE_SIZE);
  }

  /** A frame half black, half white exceeds 32 bits whatever was carried in. */
  lemma HalfAndHalfWraps(carried: nat)
    requires carried <= 240
    ensures !Exact(carried, Bands(GRAYSCALE_IMAGE_SIZE / 2, GRAYSCALE_IMAGE_SIZE / 2))
  {
    BandMoment(GRAYSCALE_IMAGE_SIZE / 2, GRAYSCALE_IMAGE_SIZE / 2, carried);
  }

  /** The threshold is exact: the accumulator is right on every frame with at most `k` clipped pixels if and only
      if k is at most 299010. */
  lemma ExactIffFewClipped(carried: nat, k: nat)
    requires carried <= 240
    ensures (forall gray :: IsGrayImage(gray) && ClippedCount(gray) <= k ==> Exact(carried, gray))
            <==> k <= MAX_CLIPPED
  {
    if k <= MAX_CLIPPED {
      forall gray | IsGrayImage(gray) && ClippedCount(gray) <= k ensures Exact(carried, gray) {
        AccumulatorDoesNotWrap(carried, gray);
      }
    } else {
      var worst := Bands(153599, 145412);
      BandMoment(153599, 145412, carried);
      assert IsGrayImage(worst) && ClippedCount(worst) <= k && !Exact(carried, worst);
    }
  }

  // ----- Standard deviation, rescaling and contrast stretch -----

  function FloorSqrt(v: nat): (r: nat)
    ensures r * r <= v < (r + 1) * (r + 1)
  {
    if v == 0 then 0
    else
      var r := FloorSqrt(v - 1);
      if (r + 1) * (r + 1) <= v then r + 1 else r
  }

  /** The standard deviation of a frame as the source computes it. */
  function StandardDeviation(gray: seq<Byte>, a: nat): nat {
    FloorSqrt(Wrap(CoSum(gray, a, |gray|)) / GRAYSCALE_IMAGE_SIZE)
  }

  /** It is the root of the mean co-moment, rounded down. */
  lemma DeviationIs(gray: seq<Byte>, a: nat)
    ensures var sd := StandardDeviation(gray, a);
      var moment := Wrap(CoSum(gray, a, |gray|));
      sd * sd * GRAYSCALE_IMAGE_SIZE <= moment < (sd + 1) * (sd + 1) * GRAYSCALE_IMAGE_SIZE
  {
    var moment := Wrap(CoSum(gray, a, |gray|));
    var v := moment / GRAYSCALE_IMAGE_SIZE;
    var r := FloorSqrt(v);
    MulMonotone(r * r, v, GRAYSCALE_IMAGE_SIZE);
    MulMonotone(v + 1, (r + 1) * (r + 1), GRAYSCALE_IMAGE_SIZE);
  }

  /** Pixels above the average are divided by the standard deviation, which divides by zero when that is 0. */
  predicate DividesByZero(gray: seq<Byte>, a: nat, sd: nat) {
    sd == 0 && exists i :: 0 <= i < |gray| && Clip(gray[i]) > a
  }

  function Rescale(c: Byte, a: nat, sd: nat): Byte {
    if c > a && sd > 0 then QuotientBound(c - a, sd); (c - a) / sd else c
  }

  function RescaleAll(gray: seq<Byte>, a: nat, sd: nat): seq<Byte> {
    seq(|gray|, i requires 0 <= i < |gray| => Rescale(Clip(gray[i]), a, sd))
  }

  /** Above the average `a` a clipped value has become its distance from the average in standard deviations, rounded
      down; up to the average it has stayed. */
  ghost predicate Rescaled(gray: seq<Byte>, a: nat, sd: nat, s: seq<Byte>) {
    && |s| == |gray|
    && (forall i :: 0 <= i < |s| ==> PixelRescaled(Clip(gray[i]), a, sd, s[i]))
  }

  predicate PixelRescaled(c: Byte, a: nat, sd: nat, r: Byte) {
    if c > a then r * sd <= c - a < (r + 1) * sd else r == c
  }

  lemma RescaledIs(gray: seq<Byte>, a: nat, sd: nat)
    requires !DividesByZero(gray, a, sd)
    ensures Rescaled(gray, a, sd, RescaleAll(gray, a, sd))
  {
    forall i | 0 <= i < |gray| ensures PixelRescaled(Clip(gray[i]), a, sd, RescaleAll(gray, a, sd)[i]) {
      if Clip(gray[i]) > a {
        DivisionBounds(Clip(gray[i]) - a, sd);
      }
    }
  }

  /** The filter moves a value only as far as the nearer of its limits, 20 and 240. */
  lemma ClipIs(g: Byte)
    ensures 20 <= Clip(g) <= 240
    ensures 20 <= g <= 240 ==> Clip(g) == g
    ensures g < 20 ==> Clip(g) == 20
    ensures g > 240 ==> Clip(g) == 240
  {
  }

  lemma DivisionBounds(x: nat, d: nat)
    requires d > 0
    ensures (x / d) * d <= x < (x / d + 1) * d
  {
    var q := x / d;
    assert x == d * q + x % d;
    MulAdd(d, q, 1);
  }

  /** The extremes tracked by the rescaling loop over the first `n` pixels. */
  function MaxTo(s: seq<Byte>, n: nat): Byte
    requires n <= |s|
  {
    if n == 0 then 0 else if s[n - 1] > MaxTo(s, n - 1) then s[n - 1] else MaxTo(s, n - 1)
  }

  function MinTo(s: seq<Byte>, n: nat): Byte
    requires n <= |s|
  {
    if n == 0 then 255 else if s[n - 1] < MinTo(s, n - 1) then s[n - 1] else MinTo(s, n - 1)
  }

  /** The tracked values are the exact extremes of a non-empty image. */
  lemma {:induction false} TrackedExtremes(s: seq<Byte>, n: nat)
    requires n <= |s|
    ensures forall i :: 0 <= i < n ==> MinTo(s, n) <= s[i] <= MaxTo(s, n)
    ensures n > 0 ==> MinTo(s, n) in s[..n] && MaxTo(s, n) in s[..n]
  {
    if n > 0 {
      TrackedExtremes(s, n - 1);
      assert s[..n] == s[..n - 1] + [s[n - 1]];
    }
  }

  function Factor(lo: Byte, hi: Byte): nat
    requires lo < hi
  {
    255 / (hi - lo)
  }

  /** The stretched value before it is stored in a byte; a pixel at the minimum is left as it is. */
  function Stretch(v: Byte, lo: Byte, hi: Byte): nat
    requires lo < hi
  {
    if v > lo then (v - lo) * Factor(lo, hi) else v
  }

  lemma FactorRange(lo: Byte, hi: Byte)
    requires lo < hi
    ensures var d := hi - lo; Factor(lo, hi) >= 1 && d * Factor(lo, hi) <= 255 < d * Factor(lo, hi) + d
  {
  }

  /** The largest whole factor that keeps a range of `width` within a byte. */
  function ScaleOf(width: nat): (f: nat)
    requires 0 < width <= 255
    ensures f * width <= 255 < (f + 1) * width
  {
    DivisionBounds(255, width);
    255 / width
  }

  lemma StretchRange(v: Byte, lo: Byte, hi: Byte)
    requires lo <= v <= hi && lo < hi
    ensures 0 <= Stretch(v, lo, hi) <= 255 && (v == hi ==> Stretch(v, lo, hi) >= 128)
  {
    var f := Factor(lo, hi);
    FactorRange(lo, hi);
    MulNonNegative(v - lo, f);
    MulMonotone(v - lo, hi - lo, f);
    MulMonotone(1, f, hi - lo);
  }

  lemma StretchOrder(v: Byte, w: Byte, lo: Byte, hi: Byte)
    requires lo < v < w && lo < hi
    ensures Stretch(v, lo, hi) < Stretch(w, lo, hi)
  {
    FactorRange(lo, hi);
    MulStrict(v - lo, w - lo, Factor(lo, hi));
  }

  /** No stretched value exceeds a byte, pixels above the minimum keep their strict order, and the brightest
      pixel lands in the upper half. */
  lemma ContrastStretch(s: seq<Byte>, i: nat, j: nat)
    requires i < |s| && j < |s| && MinTo(s, |s|) < MaxTo(s, |s|)
    ensures var lo, hi := MinTo(s, |s|), MaxTo(s, |s|);
      && 0 <= Stretch(s[i], lo, hi) <= 255
      && (lo < s[i] && lo < s[j] ==> (s[i] < s[j] <==> Stretch(s[i], lo, hi) < Stretch(s[j], lo, hi)))
      && (s[i] == hi ==> Stretch(s[i], lo, hi) >= 128)
      && (s[i] == lo ==> Stretch(s[i], lo, hi) == lo)
      && (lo < s[i] ==> Stretch(s[i], lo, hi) == (s[i] - lo) * ScaleOf(hi - lo))
  {
    var lo, hi := MinTo(s, |s|), MaxTo(s, |s|);
    TrackedExtremes(s, |s|);
    StretchRange(s[i], lo, hi);
    if lo < s[i] < s[j] {
      StretchOrder(s[i], s[j], lo, hi);
    } else if lo < s[j] < s[i] {
      StretchOrder(s[j], s[i], lo, hi);
    }
  }

  /** The output of a frame that divides by zero nowhere. */
  function Normalized(s: seq<Byte>): seq<nat>
    requires MinTo(s, |s|) < MaxTo(s, |s|)
  {
    seq(|s|, i requires 0 <= i < |s| => Stretch(s[i], MinTo(s, |s|), MaxTo(s, |s|)))
  }

  /** The premise `max > min` is genuine: a frame of a single gray value has none, whatever was carried in. */
  lemma UniformFrameHasNoContrast(carried: nat, gray: seq<Byte>, g: Byte)
    requires IsGrayImage(gray) && carried <= 240 && forall i :: 0 <= i < |gray| ==> gray[i] == g
    ensures var a := Average(carried, gray);
      var s := RescaleAll(gray, a, StandardDeviation(gray, a));
      MinTo(s, |s|) == MaxTo(s, |s|) && !DividesByZero(gray, a, StandardDeviation(gray, a))
  {
    var a := Average(carried, gray);
    UniformSum(gray, g, |gray|);
    assert a == Clip(g);
    var s := RescaleAll(gray, a, StandardDeviation(gray, a));
    TrackedExtremes(s, |s|);
  }

  lemma {:induction false} UniformSum(gray: seq<Byte>, g: Byte, n: nat)
    requires n <= |gray| && forall i :: 0 <= i < |gray| ==> gray[i] == g
    ensures ClipSum(gray, n) == n * Clip(g)
  {
    if n > 0 {
      UniformSum(gray, g, n - 1);
    }
  }
}
