/** Walking a side: cumulative sizes, and what taking a size from the best levels costs. */
module DepthWalk {
  import opened Arith
  import opened Codec
  import opened Side

  /** A 64-bit sum as the release build computes it: wrapped. */
  function Wrap(x: int): i64 {
    (x - I64_MIN) % U64 + I64_MIN
  }

  lemma WrapIdentity(x: int)
    ensures IsI64(x) ==> Wrap(x) == x
  {
  }

  lemma WrapAdd(x: int, y: int)
    ensures Wrap(Wrap(x) + y) == Wrap(x + y)
  {
    var a, b := x - I64_MIN, x + y - I64_MIN;
    assert a == U64 * (a / U64) + a % U64;
    assert Wrap(x) + y - I64_MIN == b - U64 * (a / U64);
    ShiftMod(b, a / U64);
  }

  lemma ShiftMod(b: int, k: int)
    ensures (b - U64 * k) % U64 == b % U64
  {
    var q, r := b / U64, b % U64;
    assert b - U64 * k == U64 * (q - k) + r;
    ModUnique(b - U64 * k, q - k, r);
  }

  lemma ModUnique(x: int, q: int, r: int)
    ensures x == U64 * q + r && 0 <= r < U64 ==> x % U64 == r
  {
  }

  /** The size available at the best `k` levels. */
  function Available(l: seq<Level>, k: nat): int
    requires k <= |l|
  {
    if k == 0 then 0 else Available(l, k - 1) + l[k - 1].qty
  }

  /** The first `k` of a list of sizes, added up. */
  function Total(q: seq<i64>, k: nat): int
    requires k <= |q|
  {
    if k == 0 then 0 else Total(q, k - 1) + q[k - 1]
  }

  lemma WrapSum(x: int, y: int)
    ensures Wrap(Wrap(x) + Wrap(y)) == Wrap(x + y)
  {
    WrapAdd(x, Wrap(y));
    WrapAdd(y, x);
  }

  // ---------------------------------------------------------------------------
  // Taking a size
  // ---------------------------------------------------------------------------

  datatype Fill = Fill(requested: i64, filled: i64, notionalE8: i64, levelsUsed: nat, bestPx: i64, averagePx: int)

  /** What level `k` adds when `filled` was already taken. */
  function Take(l: seq<Level>, size: i64, k: nat, filled: i64): i64
    requires k < |l|
  {
    var want := Wrap(size - filled);
    if want <= l[k].qty then want else l[k].qty
  }

  /** Size taken from the best `k` levels. */
  function Filled(l: seq<Level>, size: i64, k: nat): i64
    requires k <= |l|
  {
    if k == 0 then 0
    else Wrap(Filled(l, size, k - 1) + Take(l, size, k - 1, Filled(l, size, k - 1)))
  }

  /** The value of one level's share, rounded towards zero. */
  function Share(l: seq<Level>, size: i64, k: nat): int
    requires k < |l|
  {
    Trunc(l[k].px * Take(l, size, k, Filled(l, size, k)), E8)
  }

  /** Value of the best `k` levels' shares, saturating at every step as the code does. */
  function Notional(l: seq<Level>, size: i64, k: nat): i64
    requires k <= |l|
  {
    if k == 0 then 0 else Clamp(Notional(l, size, k - 1) + Clamp(Share(l, size, k - 1)))
  }

  /** The first count of levels that fills the size, or all of them. */
  function Used(l: seq<Level>, size: i64, k: nat): (used: nat)
    requires k <= |l|
    ensures k <= used <= |l|
    decreases |l| - k
  {
    if k == |l| || Filled(l, size, k) >= size then k else Used(l, size, k + 1)
  }

  function TakeFrom(l: seq<Level>, size: i64): Option<Fill> {
    if l == [] || size <= 0 then None
    else
      var k := Used(l, size, 0);
      var filled, notional := Filled(l, size, k), Notional(l, size, k);
      if filled == 0 then None
      else Some(Fill(size, filled, notional, k, l[0].px, Trunc(Clamp(notional * E8), filled)))
  }

  // ---------------------------------------------------------------------------
  // Sides with positive sizes
  // ---------------------------------------------------------------------------

  predicate PositiveSizes(l: seq<Level>) {
    forall i :: 0 <= i < |l| ==> l[i].qty > 0
  }

  lemma {:induction false} FilledIsMin(l: seq<Level>, size: i64, k: nat)
    requires PositiveSizes(l) && size > 0 && k <= |l|
    ensures Filled(l, size, k) == Min(size, Available(l, k))
    ensures Available(l, k) >= k
    ensures k > 0 ==> Take(l, size, k - 1, Filled(l, size, k - 1)) == Filled(l, size, k) - Filled(l, size, k - 1) >= 0
  {
    hide Wrap;
    if k > 0 {
      FilledIsMin(l, size, k - 1);
      var f := Filled(l, size, k - 1);
      WrapIdentity(size - f);
      WrapIdentity(f + Take(l, size, k - 1, f));
    }
  }

  lemma {:induction false} UsedIsFirst(l: seq<Level>, size: i64, k: nat)
    requires PositiveSizes(l) && size > 0 && k <= |l|
    requires forall j :: 0 <= j < k ==> Available(l, j) < size
    ensures var u := Used(l, size, k);
            && (forall j :: 0 <= j < u ==> Available(l, j) < size)
            && (u == |l| || Available(l, u) >= size)
    decreases |l| - k
  {
    FilledIsMin(l, size, k);
    if k < |l| && Filled(l, size, k) < size {
      UsedIsFirst(l, size, k + 1);
    }
  }

  /** The walk takes exactly what was asked or all there is, and stops at the first level
      whose cumulative size reaches the request. */
  lemma TakesTheMinimum(l: seq<Level>, size: i64)
    requires PositiveSizes(l) && l != [] && size > 0
    ensures TakeFrom(l, size).Some?
    ensures var f := TakeFrom(l, size).value;
            && f.filled == Min(size, Available(l, |l|)) > 0
            && f.levelsUsed <= |l|
            && (forall j :: 0 <= j < f.levelsUsed ==> Available(l, j) < size)
            && (f.levelsUsed == |l| || Available(l, f.levelsUsed) >= size)
  {
    var k := Used(l, size, 0);
    UsedIsFirst(l, size, 0);
    FilledIsMin(l, size, k);
    FilledIsMin(l, size, |l|);
    DepthGrows(l, k, |l|);
    assert Available(l, 0) == 0;
  }

  lemma {:induction false} DepthGrows(l: seq<Level>, j: nat, k: nat)
    requires PositiveSizes(l) && j <= k <= |l|
    ensures Available(l, j) <= Available(l, k)
  {
    if j < k {
      DepthGrows(l, j, k - 1);
    }
  }

  predicate PricesWithin(l: seq<Level>, k: nat, lo: int, hi: int)
    requires k <= |l|
  {
    forall i :: 0 <= i < k ==> lo <= l[i].px <= hi
  }

  /** The shares added up without saturation. */
  function Exact(l: seq<Level>, size: i64, k: nat): int
    requires k <= |l|
  {
    if k == 0 then 0 else Exact(l, size, k - 1) + Share(l, size, k - 1)
  }

  lemma ShareBounds(px: int, take: int, lo: int, hi: int)
    requires 0 <= lo <= px <= hi && take >= 0
    ensures lo * take - (E8 - 1) <= E8 * Trunc(px * take, E8) <= hi * take
    ensures Trunc(px * take, E8) >= 0
  {
    var p := px * take;
    assert p >= 0 by { MulNonNegative(px, take); }
    assert lo * take <= p <= hi * take by {
      MulNonNegative(px - lo, take);
      MulNonNegative(hi - px, take);
      assert (px - lo) * take == p - lo * take;
      assert (hi - px) * take == hi * take - p;
    }
    assert p == E8 * (p / E8) + p % E8;
  }

  lemma AddBounds(lo: int, hi: int, f: int, t: int, e: int, s: int, slack: int)
    requires lo * f - slack <= E8 * e <= hi * f && lo * t - (E8 - 1) <= E8 * s <= hi * t
    ensures lo * (f + t) - (slack + (E8 - 1)) <= E8 * (e + s) <= hi * (f + t)
  {
    assert lo * (f + t) == lo * f + lo * t && hi * (f + t) == hi * f + hi * t;
  }

  lemma {:induction false} ExactBounds(l: seq<Level>, size: i64, k: nat, lo: int, hi: int)
    requires PositiveSizes(l) && size > 0 && k <= |l| && 0 <= lo && PricesWithin(l, k, lo, hi)
    ensures lo * Filled(l, size, k) - k * (E8 - 1) <= E8 * Exact(l, size, k) <= hi * Filled(l, size, k)
  {
    hide Take, Trunc, Wrap;
    if k > 0 {
      ExactBounds(l, size, k - 1, lo, hi);
      FilledIsMin(l, size, k);
      var f, t := Filled(l, size, k - 1), Take(l, size, k - 1, Filled(l, size, k - 1));
      ShareBounds(l[k - 1].px, t, lo, hi);
      AddBounds(lo, hi, f, t, Exact(l, size, k - 1), Share(l, size, k - 1), (k - 1) * (E8 - 1));
      assert (k - 1) * (E8 - 1) + (E8 - 1) == k * (E8 - 1);
      assert f + t == Filled(l, size, k);
    }
  }

  /** Saturating at every step is saturating once at the end: no share is negative. */
  lemma {:induction false} NotionalIsMin(l: seq<Level>, size: i64, k: nat, lo: int, hi: int)
    requires PositiveSizes(l) && size > 0 && k <= |l| && 0 <= lo && PricesWithin(l, k, lo, hi)
    ensures Exact(l, size, k) >= 0 && Notional(l, size, k) == Min(Exact(l, size, k), I64_MAX)
  {
    hide Take, Trunc, Wrap;
    if k > 0 {
      NotionalIsMin(l, size, k - 1, lo, hi);
      FilledIsMin(l, size, k);
      ShareBounds(l[k - 1].px, Take(l, size, k - 1, Filled(l, size, k - 1)), lo, hi);
    }
  }

  /** When the traded value times 1e8 fits 64 bits, the average price is at most the
      highest price touched, and above the lowest one less one unit and less what
      rounding each level's share can lose, spread over the size. */
  lemma AverageIsBounded(l: seq<Level>, size: i64, lo: int, hi: int)
    requires PositiveSizes(l) && l != [] && size > 0 && 0 <= lo
    ensures TakeFrom(l, size).Some?
    ensures var f := TakeFrom(l, size).value;
            PricesWithin(l, Used(l, size, 0), lo, hi) && f.notionalE8 * E8 <= I64_MAX ==>
              && f.averagePx <= hi
              && f.averagePx * f.filled > lo * f.filled - f.levelsUsed * E8 - f.filled
  {
    TakesTheMinimum(l, size);
    var f, k := TakeFrom(l, size).value, Used(l, size, 0);
    if PricesWithin(l, k, lo, hi) && f.notionalE8 * E8 <= I64_MAX {
      ExactBounds(l, size, k, lo, hi);
      NotionalIsMin(l, size, k, lo, hi);
      var value := f.notionalE8 * E8;
      assert f.averagePx == value / f.filled;
      QuotientBounds(value, f.filled);
      CancelFactor(f.averagePx, hi, f.filled);
    }
  }

  // ---------------------------------------------------------------------------
  // What a fill is worth
  // ---------------------------------------------------------------------------

  /** How much of the request comes from level `i`. */
  function Portion(l: seq<Level>, size: i64, i: nat): int
    requires i < |l|
  {
    Min(size, Available(l, i + 1)) - Min(size, Available(l, i))
  }

  /** Price times size over the best `k` levels, nothing rounded. */
  function Value(l: seq<Level>, size: i64, k: nat): int
    requires k <= |l|
  {
    if k == 0 then 0 else Value(l, size, k - 1) + l[k - 1].px * Portion(l, size, k - 1)
  }

  /** A product in whole units of 1e-8, cut towards zero. */
  function InUnits(product: int): int {
    if product >= 0 then product / 100_000_000 else -(-product / 100_000_000)
  }

  /** Each level's product in whole units, added up. */
  function Worth(l: seq<Level>, size: i64, k: nat): int
    requires k <= |l|
  {
    if k == 0 then 0 else Worth(l, size, k - 1) + InUnits(l[k - 1].px * Portion(l, size, k - 1))
  }

  predicate PricesNotNegative(l: seq<Level>) {
    forall i :: 0 <= i < |l| ==> l[i].px >= 0
  }

  lemma PortionNotNegative(l: seq<Level>, size: i64, i: nat)
    requires PositiveSizes(l) && size > 0 && i < |l|
    ensures Portion(l, size, i) >= 0
    ensures Available(l, i) < size ==> Portion(l, size, i) > 0
  {
  }

  lemma ShareIs(l: seq<Level>, size: i64, i: nat)
    requires PositiveSizes(l) && size > 0 && i < |l|
    ensures Share(l, size, i) == InUnits(l[i].px * Portion(l, size, i))
  {
    hide Wrap, Take, Trunc, InUnits;
    FilledIsMin(l, size, i);
    FilledIsMin(l, size, i + 1);
    TruncInUnits(l[i].px * Portion(l, size, i));
  }

  lemma TruncInUnits(p: int)
    ensures Trunc(p, E8) == InUnits(p)
  {
  }

  lemma {:induction false} WorthIsExact(l: seq<Level>, size: i64, k: nat)
    requires PositiveSizes(l) && size > 0 && k <= |l|
    ensures Exact(l, size, k) == Worth(l, size, k)
  {
    if k > 0 {
      hide Wrap, Take, Portion, Share;
      WorthIsExact(l, size, k - 1);
      ShareIs(l, size, k - 1);
    }
  }

  /** Cutting loses less than one unit a level. */
  lemma {:induction false} WorthIsValue(l: seq<Level>, size: i64, k: nat)
    requires PositiveSizes(l) && size > 0 && k <= |l|
    ensures Value(l, size, k) - k * (E8 - 1) <= E8 * Worth(l, size, k) <= Value(l, size, k) + k * (E8 - 1)
    ensures PricesNotNegative(l) ==> E8 * Worth(l, size, k) <= Value(l, size, k)
  {
    hide Portion, InUnits;
    if k > 0 {
      WorthIsValue(l, size, k - 1);
      var p := l[k - 1].px * Portion(l, size, k - 1);
      PortionNotNegative(l, size, k - 1);
      if PricesNotNegative(l) {
        MulNonNegative(l[k - 1].px, Portion(l, size, k - 1));
      }
      UnitsLose(p);
      assert k * (E8 - 1) == (k - 1) * (E8 - 1) + (E8 - 1);
    }
  }

  lemma UnitsLose(p: int)
    ensures p - (E8 - 1) <= E8 * InUnits(p) <= p + (E8 - 1)
    ensures p >= 0 ==> E8 * InUnits(p) <= p
  {
    var q := if p >= 0 then p else -p;
    assert q == E8 * (q / E8) + q % E8;
  }

  /** Nothing to report without levels or without a request. */
  lemma NoFill(l: seq<Level>, size: i64)
    ensures l == [] || size <= 0 ==> TakeFrom(l, size).None?
  {
  }

  /** No level's worth and no running sum of them leaves 64 bits. */
  predicate WorthFits(l: seq<Level>, size: i64) {
    forall k :: 0 <= k < |l| ==> IsI64(Worth(l, size, k + 1)) && IsI64(InUnits(l[k].px * Portion(l, size, k)))
  }

  /** The same of prices of any sign, as long as the sums fit. */
  lemma FillOfAnySign(l: seq<Level>, size: i64)
    requires PositiveSizes(l) && l != [] && size > 0
    requires WorthFits(l, size)
    ensures TakeFrom(l, size).Some?
    ensures var f := TakeFrom(l, size).value;
            && f.bestPx == l[0].px && f.filled == Min(size, Available(l, |l|)) > 0 && f.levelsUsed <= |l|
            && f.notionalE8 == Worth(l, size, f.levelsUsed)
            && f.averagePx == Trunc(Clamp(f.notionalE8 * 100_000_000), f.filled)
  {
    hide Worth;
    TakesTheMinimum(l, size);
    NotionalFits(l, size, TakeFrom(l, size).value.levelsUsed);
  }

  lemma {:induction false} NotionalFits(l: seq<Level>, size: i64, k: nat)
    requires PositiveSizes(l) && size > 0 && k <= |l| && WorthFits(l, size)
    ensures Notional(l, size, k) == Worth(l, size, k)
  {
    hide Share, Portion, InUnits, Clamp;
    if k > 0 {
      NotionalFits(l, size, k - 1);
      ShareIs(l, size, k - 1);
      WorthStep(l, size, k);
      assert IsI64(Worth(l, size, k - 1 + 1));
      UnclampedSum(Notional(l, size, k - 1), Share(l, size, k - 1));
    }
  }

  lemma WorthStep(l: seq<Level>, size: i64, k: nat)
    requires 0 < k <= |l|
    ensures Worth(l, size, k) == Worth(l, size, k - 1) + InUnits(l[k - 1].px * Portion(l, size, k - 1))
  {
  }

  lemma UnclampedSum(a: i64, b: int)
    requires IsI64(a + b) && IsI64(b)
    ensures Clamp(a + Clamp(b)) == a + b
  {
  }

  /** What a fill reports: the best price, the worth of what it takes from each level it
      reaches, saturated once, and that worth over the size. */
  lemma FillReports(l: seq<Level>, size: i64)
    requires PositiveSizes(l) && PricesNotNegative(l) && l != [] && size > 0
    ensures TakeFrom(l, size).Some?
    ensures var f := TakeFrom(l, size).value;
            && f.requested == size && f.bestPx == l[0].px && f.filled == Min(size, Available(l, |l|)) > 0
            && 0 < f.levelsUsed <= |l| && Min(size, Available(l, f.levelsUsed)) == f.filled
            && f.notionalE8 == Min(Worth(l, size, f.levelsUsed), I64_MAX) >= 0
            && f.averagePx == Min(f.notionalE8 * E8, I64_MAX) / f.filled
  {
    TakesTheMinimum(l, size);
    var f := TakeFrom(l, size).value;
    FilledIsMin(l, size, f.levelsUsed);
    var hi := HighestPrice(l, |l|);
    NotionalIsMin(l, size, f.levelsUsed, 0, hi);
    WorthIsExact(l, size, f.levelsUsed);
    assert Available(l, 0) == 0;
  }

  lemma {:induction false} HighestPrice(l: seq<Level>, k: nat) returns (hi: int)
    requires PricesNotNegative(l) && k <= |l|
    ensures PricesWithin(l, k, 0, hi)
  {
    if k == 0 {
      hi := 0;
    } else {
      hi := HighestPrice(l, k - 1);
      hi := Max(hi, l[k - 1].px);
    }
  }

  /** The average is the size-weighted mean of the prices taken, never above it and less than
      one unit and what cutting loses below it. */
  lemma AverageIsWeighted(l: seq<Level>, size: i64)
    requires PositiveSizes(l) && PricesNotNegative(l) && l != [] && size > 0
    requires TakeFrom(l, size).Some? ==> TakeFrom(l, size).value.notionalE8 * E8 <= I64_MAX
    ensures TakeFrom(l, size).Some?
    ensures var f := TakeFrom(l, size).value;
            && f.levelsUsed <= |l|
            && Value(l, size, f.levelsUsed) - f.levelsUsed * E8 - f.filled < f.averagePx * f.filled <= Value(l, size, f.levelsUsed)
  {
    hide Value, Worth, TakeFrom;
    FillReports(l, size);
    var f := TakeFrom(l, size).value;
    WorthIsValue(l, size, f.levelsUsed);
    QuotientBounds(f.notionalE8 * E8, f.filled);
  }

  /** Every level past the best one is strictly worse, so what it supplies costs. */
  lemma {:induction false} WorseThanBest(isBid: bool, l: seq<Level>, size: i64, k: nat)
    requires Sorted(isBid, l) && PositiveSizes(l) && size > 0 && 0 < k <= |l|
    requires forall j :: 0 <= j < k ==> Available(l, j) < size
    ensures if k == 1 then Value(l, size, k) == l[0].px * Min(size, Available(l, k))
            else if isBid then Value(l, size, k) < l[0].px * Min(size, Available(l, k))
            else Value(l, size, k) > l[0].px * Min(size, Available(l, k))
  {
    hide Sorted;
    if k == 1 {
      OneLevel(l, size);
    } else {
      WorseThanBest(isBid, l, size, k - 1);
      BestIsFirst(isBid, l, k - 1);
      PortionNotNegative(l, size, k - 1);
      var p, t, before := l[k - 1].px, Portion(l, size, k - 1), Min(size, Available(l, k - 1));
      MulMonotone(if isBid then l[0].px else p, if isBid then p else l[0].px, t);
      assert l[0].px * (before + t) == l[0].px * before + l[0].px * t;
    }
  }

  lemma OneLevel(l: seq<Level>, size: i64)
    requires l != [] && size > 0
    ensures Value(l, size, 1) == l[0].px * Min(size, Available(l, 1))
  {
    assert Value(l, size, 0) == 0 && Available(l, 0) == 0;
  }

  lemma BestIsFirst(isBid: bool, l: seq<Level>, i: nat)
    requires Sorted(isBid, l) && 0 < i < |l|
    ensures Better(isBid, l[0].px, l[i].px)
  {
  }

  /** Depth costs, and the average shows it. Buying past the best ask averages above it once
      the excess paid outweighs the rounding; selling past the best bid always averages below
      it; and a fill within the best level never averages above its price. */
  lemma DepthCosts(isBid: bool, l: seq<Level>, size: i64)
    requires Sorted(isBid, l) && PositiveSizes(l) && PricesNotNegative(l) && l != [] && size > 0
    requires TakeFrom(l, size).Some? ==> TakeFrom(l, size).value.notionalE8 * E8 <= I64_MAX
    ensures TakeFrom(l, size).Some? && TakeFrom(l, size).value.levelsUsed <= |l|
    ensures var f := TakeFrom(l, size).value;
            var excess := Value(l, size, f.levelsUsed) - f.bestPx * f.filled;
            && (f.levelsUsed == 1 ==> excess == 0 && f.averagePx <= f.bestPx)
            && (f.levelsUsed > 1 && isBid ==> excess < 0 && f.averagePx < f.bestPx)
            && (f.levelsUsed > 1 && !isBid ==> excess > 0)
            && (excess >= f.levelsUsed * E8 + f.filled ==> f.averagePx > f.bestPx)
  {
    hide Value, TakeFrom, Sorted;
    AverageIsWeighted(l, size);
    FillReports(l, size);
    TakesTheMinimum(l, size);
    var f := TakeFrom(l, size).value;
    WorseThanBest(isBid, l, size, f.levelsUsed);
    CancelFactor(f.averagePx, f.bestPx, f.filled);
    CancelFactor(f.bestPx, f.averagePx, f.filled);
  }

  /** One unit at 1.00 and half a unit at 2.00: worth 2.00, on average 1.33333333. */
  lemma TwoLevelFill()
    ensures TakeFrom([Level(E8, E8), Level(2 * E8, E8)], 150_000_000) ==
            Some(Fill(150_000_000, 150_000_000, 2 * E8, 2, E8, 133_333_333))
  {
    var l: seq<Level> := [Level(E8, E8), Level(2 * E8, E8)];
    hide TakeFrom;
    var size: i64 := 150_000_000;
    assert Available(l, 0) == 0 && Available(l, 1) == E8 && Available(l, 2) == 2 * E8;
    FillReports(l, size);
    TakesTheMinimum(l, size);
    assert Portion(l, size, 0) == E8 && Portion(l, size, 1) == 50_000_000;
    assert Worth(l, size, 0) == 0 && Worth(l, size, 1) == E8 && Worth(l, size, 2) == 2 * E8;
  }

  /** The product saturates before the division: past 64 bits the average depends only on
      the size, not on any price. It is the true quotient exactly as long as the product
      stays below the next multiple of the size above the largest value. */
  lemma AverageSaturates(l: seq<Level>, size: i64)
    requires PositiveSizes(l) && l != [] && size > 0
    ensures TakeFrom(l, size).Some? && TakeFrom(l, size).value.filled > 0
    ensures var f := TakeFrom(l, size).value;
            && (f.notionalE8 * E8 > I64_MAX ==> f.averagePx == I64_MAX / f.filled)
            && (f.notionalE8 >= 0 ==>
                  (f.averagePx == f.notionalE8 * E8 / f.filled <==> f.notionalE8 * E8 < (I64_MAX / f.filled + 1) * f.filled))
  {
    hide Notional;
    TakesTheMinimum(l, size);
    var f := TakeFrom(l, size).value;
    if f.notionalE8 >= 0 {
      ClampedQuotient(f.notionalE8 * E8, f.filled);
    }
  }

  lemma ClampedQuotient(value: nat, d: i64)
    requires d > 0
    ensures Trunc(Clamp(value), d) == value / d <==> value < (I64_MAX / d + 1) * d
  {
    QuotientBounds(value, d);
    QuotientBounds(I64_MAX, d);
    assert (I64_MAX / d + 1) * d == I64_MAX / d * d + d;
    assert (value / d + 1) * d == value / d * d + d;
    CancelFactor(value / d, I64_MAX / d + 1, d);
    CancelFactor(I64_MAX / d, value / d + 1, d);
  }

  /** A realistic fill is in that range: one whole unit at a price of 65,000 is reported
      at an average of 922.33720368. */
  lemma RealisticFillSaturates()
    ensures TakeFrom([Level(65000 * E8, E8)], E8) ==
            Some(Fill(E8, E8, 65000 * E8, 1, 65000 * E8, 92_233_720_368))
  {
    var l: seq<Level> := [Level(65000 * E8, E8)];
    FilledIsMin(l, E8, 0);
    FilledIsMin(l, E8, 1);
    assert Available(l, 1) == Available(l, 0) + E8;
    assert Used(l, E8, 0) == Used(l, E8, 1) == 1;
    assert Notional(l, E8, 0) == 0 && Share(l, E8, 0) == 65000 * E8;
    assert Notional(l, E8, 1) == 65000 * E8;
  }
}
