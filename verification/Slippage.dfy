/** The cost of an execution split into its parts, in hundredths of a basis point of the
    decision price, and prices built from a spread. */
module Slippage {
  import opened Arith
  import opened Codec
  import opened Fixed
  import opened DepthWalk

  const BPS: nat := 1_000_000

  datatype Taker = Buy | Sell

  datatype Execution = Execution(taker: Taker, decisionMid: i64, actionMid: i64, actionPx: i64, filled: i64, unfilled: i64)

  datatype Cost = Cost(latency: i64, depth: i64, shortfall: i64, spread: i64)

  function Sign(t: Taker): int {
    if t.Buy? then 1 else -1
  }

  /** How far `a` is past `b` against the taker, saturating. */
  function Adverse(t: Taker, a: i64, b: i64): i64 {
    Clamp(Sign(t) * Clamp(a - b))
  }

  function Decompose(e: Execution): Cost {
    if e.decisionMid == 0 then Cost(0, 0, 0, 0)
    else
      var half := Wrap(Abs(Clamp(e.actionPx - e.actionMid)));
      Cost(DeltaBps(Adverse(e.taker, e.actionMid, e.decisionMid), e.decisionMid),
           DeltaBps(Adverse(e.taker, e.actionPx, e.actionMid), e.decisionMid),
           DeltaBps(Adverse(e.taker, e.actionPx, e.decisionMid), e.decisionMid),
           DeltaBps(Clamp(half * 2), e.decisionMid))
  }

  // ---------------------------------------------------------------------------
  // Truncating division
  // ---------------------------------------------------------------------------

  lemma TruncBounds(a: int, d: int)
    requires d > 0
    ensures a >= 0 ==> 0 <= a - Trunc(a, d) * d < d && Trunc(a, d) >= 0
    ensures a <= 0 ==> -d < a - Trunc(a, d) * d <= 0 && Trunc(a, d) <= 0
  {
    QuotientBounds(Abs(a), d);
    assert (-(Abs(a) / d)) * d == -(Abs(a) / d * d);
  }

  lemma TruncNegated(a: int, d: int)
    requires d != 0
    ensures Trunc(-a, d) == -Trunc(a, d)
  {
    assert Abs(-a) == Abs(a);
    if a == 0 {
      assert Abs(a) / Abs(d) == 0;
    }
  }

  lemma TruncOpposed(a: int, d: int)
    requires d != 0
    ensures Trunc(a, -d) == -Trunc(a, d)
  {
    assert Abs(-d) == Abs(d);
    if a == 0 {
      assert Abs(a) / Abs(d) == 0;
    }
  }

  lemma AbsTrunc(a: int, d: int)
    requires d > 0
    ensures Trunc(Abs(a), d) == Abs(Trunc(a, d))
  {
    hide Trunc;
    TruncBounds(a, d);
    TruncNegated(a, d);
  }

  /** Splitting an amount before dividing is at most one unit away from dividing it whole. */
  lemma TruncAdds(a: int, b: int, d: int)
    requires d != 0
    ensures Abs(Trunc(a, d) + Trunc(b, d) - Trunc(a + b, d)) <= 1
  {
    if d > 0 {
      TruncAddsPositive(a, b, d);
    } else {
      TruncAddsPositive(a, b, -d);
      TruncOpposed(a, d);
      TruncOpposed(b, d);
      TruncOpposed(a + b, d);
    }
  }

  lemma TruncAddsPositive(a: int, b: int, d: int)
    requires d > 0
    ensures Abs(Trunc(a, d) + Trunc(b, d) - Trunc(a + b, d)) <= 1
  {
    hide Trunc;
    TruncBounds(a, d);
    TruncBounds(b, d);
    TruncBounds(a + b, d);
    var x, y, z := Trunc(a, d), Trunc(b, d), Trunc(a + b, d);
    assert (x + y - z) * d == x * d + y * d - z * d;
    CancelFactor(x + y - z, 2, d);
    CancelFactor(-2, x + y - z, d);
  }

  // ---------------------------------------------------------------------------
  // The decomposition
  // ---------------------------------------------------------------------------

  /** The three price differences of an execution. */
  function Late(e: Execution): int {
    e.actionMid - e.decisionMid
  }

  function Deep(e: Execution): int {
    e.actionPx - e.actionMid
  }

  function Short(e: Execution): int {
    e.actionPx - e.decisionMid
  }

  /** No price difference, doubled for the spread, and no ratio leaves 64 bits. */
  predicate Fits(difference: int, reference: i64) {
    Abs(difference) <= I64_MAX && (reference != 0 ==> Abs(Trunc(difference * BPS, reference)) <= I64_MAX)
  }

  predicate Unsaturated(e: Execution) {
    Fits(Late(e), e.decisionMid) && Fits(Deep(e), e.decisionMid) && Fits(Short(e), e.decisionMid)
    && Fits(2 * Deep(e), e.decisionMid)
  }

  lemma ExactBps(t: Taker, difference: int, reference: i64)
    requires reference != 0 && Fits(difference, reference)
    ensures DeltaBps(Clamp(Sign(t) * Clamp(difference)), reference) == Sign(t) * Trunc(difference * BPS, reference)
  {
    hide Trunc;
    TruncNegated(difference * BPS, reference);
    Opposite(difference);
    if t.Buy? {
      assert Clamp(Sign(t) * Clamp(difference)) == difference;
    } else {
      assert Clamp(Sign(t) * Clamp(difference)) == -difference;
    }
  }

  lemma Opposite(difference: int)
    ensures (-difference) * BPS == -(difference * BPS)
  {
  }

  /** The parts add up to the whole within one hundredth of a basis point, whichever way
      the order went and whatever the signs. */
  lemma PartsAddUp(e: Execution)
    requires Unsaturated(e)
    ensures var c := Decompose(e); Abs(c.latency + c.depth - c.shortfall) <= 1
  {
    hide Trunc, Fits, DeltaBps, Wrap;
    if e.decisionMid != 0 {
      ExactBps(e.taker, Late(e), e.decisionMid);
      ExactBps(e.taker, Deep(e), e.decisionMid);
      ExactBps(e.taker, Short(e), e.decisionMid);
      assert Late(e) * BPS + Deep(e) * BPS == Short(e) * BPS;
      TruncAdds(Late(e) * BPS, Deep(e) * BPS, e.decisionMid);
    }
  }

  /** Paying above the decision price costs a buyer and gains a seller, by exactly the
      difference over that price; the delay and the depth are charged the same way, each
      with the size of its own difference. A negative price turns every sign round. */
  lemma CostsAreSigned(e: Execution)
    requires Unsaturated(e) && e.decisionMid != 0
    ensures var c, ref, buys := Decompose(e), e.decisionMid, e.taker.Buy? == (e.decisionMid > 0);
            && (if e.actionPx >= ref then (if buys then c.shortfall >= 0 else c.shortfall <= 0) else if buys then c.shortfall <= 0 else c.shortfall >= 0)
            && (if e.actionMid >= ref then (if buys then c.latency >= 0 else c.latency <= 0) else if buys then c.latency <= 0 else c.latency >= 0)
            && (if e.actionPx >= e.actionMid then (if buys then c.depth >= 0 else c.depth <= 0) else if buys then c.depth <= 0 else c.depth >= 0)
    ensures var c, ref := Decompose(e), Abs(e.decisionMid);
            && Abs(c.shortfall) * ref <= Abs(e.actionPx - e.decisionMid) * 1_000_000 < (Abs(c.shortfall) + 1) * ref
            && Abs(c.latency) * ref <= Abs(e.actionMid - e.decisionMid) * 1_000_000 < (Abs(c.latency) + 1) * ref
            && Abs(c.depth) * ref <= Abs(e.actionPx - e.actionMid) * 1_000_000 < (Abs(c.depth) + 1) * ref
  {
    hide Trunc, Fits, DeltaBps, Wrap, Sign, Clamp, Abs;
    SignedPart(e.taker, e.actionMid, e.decisionMid, e.decisionMid);
    SignedPart(e.taker, e.actionPx, e.actionMid, e.decisionMid);
    SignedPart(e.taker, e.actionPx, e.decisionMid, e.decisionMid);
  }

  /** Without a decision price there is nothing to compare with. */
  lemma NoReference(e: Execution)
    requires e.decisionMid == 0
    ensures var c := Decompose(e); c.latency == c.depth == c.shortfall == c.spread == 0
  {
  }

  lemma SignedPart(t: Taker, a: i64, b: i64, reference: i64)
    requires reference != 0 && Fits(a - b, reference)
    ensures var c, buys := DeltaBps(Adverse(t, a, b), reference), t.Buy? == (reference > 0);
            && (if a >= b then (if buys then c >= 0 else c <= 0) else if buys then c <= 0 else c >= 0)
            && Abs(c) * Abs(reference) <= Abs(a - b) * 1_000_000 < (Abs(c) + 1) * Abs(reference)
  {
    hide Trunc, Fits, DeltaBps, Clamp;
    ExactBps(t, a - b, reference);
    SignedTrunc(a - b, Abs(reference));
    TruncOpposed((a - b) * BPS, reference);
    Bps();
  }

  lemma Bps()
    ensures BPS == 1_000_000
  {
  }

  lemma SignedTrunc(x: int, d: int)
    requires d > 0
    ensures (x >= 0 ==> Trunc(x * BPS, d) >= 0) && (x <= 0 ==> Trunc(x * BPS, d) <= 0)
    ensures Abs(Trunc(x * BPS, d)) * d <= Abs(x) * BPS < (Abs(Trunc(x * BPS, d)) + 1) * d
  {
    hide Trunc;
    var t := Trunc(x * BPS, d);
    TruncBounds(x * BPS, d);
    AbsScaled(x);
    assert (-t) * d == -(t * d);
    assert (Abs(t) + 1) * d == Abs(t) * d + d;
  }

  /** The other taker, meeting exactly opposite price differences. */
  predicate Mirrors(e: Execution, o: Execution) {
    && o.taker != e.taker && o.decisionMid == e.decisionMid
    && Late(o) == -Late(e) && Deep(o) == -Deep(e)
  }

  /** Opposite differences are measured alike unless the one against the taker falls below
      the negative of the largest value: overflow the other way keeps the mirror. */
  lemma MirrorIff(t: Taker, u: Taker, a: i64, b: i64, c: i64, d: i64)
    requires t != u && c - d == -(a - b)
    ensures Adverse(t, a, b) == Adverse(u, c, d) <==> -I64_MAX <= Sign(t) * (a - b)
  {
  }

  /** The size of the spread is the same exactly when it fits. */
  lemma SpreadMirrorIff(x: int)
    ensures Clamp(Wrap(Abs(Clamp(x))) * 2) == Clamp(Wrap(Abs(Clamp(-x))) * 2) <==> Abs(x) <= I64_MAX
  {
    if Abs(x) <= I64_MAX {
      assert Abs(Clamp(x)) == Abs(Clamp(-x));
    } else {
      WrapIdentity(I64_MAX);
      assert Wrap(-I64_MIN) == I64_MIN;
    }
  }

  /** What an execution's parts are computed from: three signed differences and the spread. */
  function Measured(e: Execution): (i64, i64, i64, i64) {
    (Adverse(e.taker, e.actionMid, e.decisionMid), Adverse(e.taker, e.actionPx, e.actionMid),
     Adverse(e.taker, e.actionPx, e.decisionMid), Clamp(Wrap(Abs(Clamp(Deep(e)))) * 2))
  }

  /** Against the taker no difference falls below the negative of the largest value, and the
      depth fits either way. */
  predicate MirrorFits(e: Execution) {
    -I64_MAX <= Sign(e.taker) * Late(e) && -I64_MAX <= Sign(e.taker) * Short(e) && Abs(Deep(e)) <= I64_MAX
  }

  /** A mirrored sell is measured exactly as the buy is if and only if the differences fit,
      and then costs exactly the same. */
  lemma MirrorCostsTheSame(e: Execution, o: Execution)
    requires Mirrors(e, o)
    ensures Measured(o) == Measured(e) <==> MirrorFits(e)
    ensures MirrorFits(e) ==> Decompose(o) == Decompose(e)
  {
    hide DeltaBps, Wrap, Adverse, Clamp;
    MirrorIff(e.taker, o.taker, e.actionMid, e.decisionMid, o.actionMid, o.decisionMid);
    MirrorIff(e.taker, o.taker, e.actionPx, e.actionMid, o.actionPx, o.actionMid);
    MirrorIff(e.taker, o.taker, e.actionPx, e.decisionMid, o.actionPx, o.decisionMid);
    SpreadMirrorIff(Deep(e));
  }

  /** Past that the costs themselves can differ: a buy and the sell that mirrors it. */
  lemma SaturationBreaksTheMirror()
    ensures var e, o := Execution(Buy, 1_000_000, 2_000_001, I64_MIN + 2_000_001, 0, 0), Execution(Sell, 1_000_000, -1, I64_MAX, 0, 0);
            Mirrors(e, o) && Decompose(e).depth != Decompose(o).depth
  {
    var e, o := Execution(Buy, 1_000_000, 2_000_001, I64_MIN + 2_000_001, 0, 0), Execution(Sell, 1_000_000, -1, I64_MAX, 0, 0);
    assert Adverse(Buy, e.actionPx, e.actionMid) == I64_MIN && Adverse(Sell, o.actionPx, o.actionMid) == -I64_MAX;
    assert DeltaBps(I64_MIN, 1_000_000) == I64_MIN && DeltaBps(-I64_MAX, 1_000_000) == -I64_MAX;
  }

  lemma TwiceTrunc(a: nat, d: nat)
    requires d > 0
    ensures 2 * Trunc(a, d) <= Trunc(2 * a, d) <= 2 * Trunc(a, d) + 1
  {
    hide Trunc;
    TruncBounds(a, d);
    TruncBounds(2 * a, d);
    var x, y := Trunc(a, d), Trunc(2 * a, d);
    assert (2 * x) * d == 2 * (x * d);
    assert (2 * x + 2) * d == 2 * (x * d) + 2 * d;
    assert (y + 1) * d == y * d + d;
    CancelFactor(2 * x, y + 1, d);
    CancelFactor(y, 2 * x + 2, d);
  }

  lemma AbsScaled(x: int)
    ensures Abs(x) * BPS == Abs(x * BPS) && Abs(2 * x) == 2 * Abs(x)
  {
  }

  /** The effective spread is twice the depth cost, or one unit more. */
  lemma SpreadIsTwiceDepth(e: Execution)
    requires Unsaturated(e) && e.decisionMid > 0
    ensures var c := Decompose(e); c.spread == 2 * Abs(c.depth) || c.spread == 2 * Abs(c.depth) + 1
  {
    hide Trunc, Fits, DeltaBps, Clamp, Wrap;
    var d := Deep(e);
    ExactBps(e.taker, d, e.decisionMid);
    ExactSpread(d, e.decisionMid);
    AbsTrunc(d * BPS, e.decisionMid);
    AbsScaled(d);
    AbsScaled(2 * d);
    TwiceTrunc(Abs(d) * BPS, e.decisionMid);
  }

  lemma ExactSpread(d: int, reference: i64)
    requires reference > 0
    ensures Fits(d, reference) && Fits(2 * d, reference) ==>
              DeltaBps(Clamp(Wrap(Abs(Clamp(d))) * 2), reference) == Trunc(2 * (Abs(d) * BPS), reference)
  {
    hide Trunc;
    if Fits(d, reference) {
      WrapIdentity(Abs(d));
    }
    AbsScaled(d);
    AbsScaled(2 * d);
    AbsTrunc(2 * d * BPS, reference);
  }

  /** Prices that are not negative, a reference of at least a hundredth of a unit and a
      spread below half the range never saturate. */
  lemma OrdinaryPricesFit(e: Execution)
    requires e.decisionMid >= BPS && e.actionMid >= 0 && e.actionPx >= 0 && 2 * Abs(Deep(e)) <= I64_MAX
    ensures Unsaturated(e)
  {
    hide Trunc;
    RatioFits(Late(e), e.decisionMid);
    RatioFits(Deep(e), e.decisionMid);
    RatioFits(Short(e), e.decisionMid);
    RatioFits(2 * Deep(e), e.decisionMid);
  }

  lemma RatioFits(difference: int, reference: i64)
    requires reference >= BPS && Abs(difference) <= I64_MAX
    ensures Fits(difference, reference)
  {
    hide Trunc;
    var t := Trunc(difference * BPS, reference);
    TruncBounds(difference * BPS, reference);
    TruncNegated(difference * BPS, reference);
    Opposite(difference);
    assert (-t) * reference == -(t * reference);
    MulMonotone(reference, BPS, I64_MAX);
    CancelFactor(Abs(t), I64_MAX, reference);
  }

  // ---------------------------------------------------------------------------
  // Prices from a spread
  // ---------------------------------------------------------------------------

  /** The price that many hundredths of a basis point above a midpoint. */
  function PriceFromBps(mid: i64, bps: i64): i64 {
    if mid == 0 then 0 else Clamp(mid + Wrap(Trunc(mid * bps, BPS)))
  }

  function Recovered(mid: i64, bps: i64): i64 {
    DeltaBps(Clamp(PriceFromBps(mid, bps) - mid), mid)
  }

  lemma PriceIsExact(mid: i64, bps: i64)
    requires mid > 0 && bps >= 0 && mid + Trunc(mid * bps, BPS) <= I64_MAX
    ensures mid * bps >= 0 && Trunc(mid * bps, BPS) == Div(mid * bps, BPS)
    ensures PriceFromBps(mid, bps) == mid + Div(mid * bps, BPS)
  {
    MulNonNegative(mid, bps);
    WrapIdentity(Trunc(mid * bps, BPS));
  }

  /** A price from a spread of either sign, when it fits: the midpoint and that part of it, cut
      towards zero; and no price from no midpoint. */
  lemma PriceIsApart(mid: i64, bps: i64)
    ensures mid == 0 ==> PriceFromBps(mid, bps) == 0
    ensures mid != 0 && IsI64(Trunc(mid * bps, 1_000_000)) && IsI64(mid + Trunc(mid * bps, 1_000_000)) ==>
              var apart := PriceFromBps(mid, bps) - mid;
              && Abs(apart) * 1_000_000 <= Abs(mid * bps) < (Abs(apart) + 1) * 1_000_000
              && (mid * bps >= 0 ==> apart >= 0) && (mid * bps <= 0 ==> apart <= 0)
  {
    hide Trunc;
    var t := Trunc(mid * bps, 1_000_000);
    TruncBounds(mid * bps, 1_000_000);
    WrapIdentity(t);
  }

  /** For a positive midpoint and a spread that is not negative, when the price fits: what
      the price shows back is never more than the spread; it is exact if and only if the
      product is a whole number of units; and it is within one if and only if what the
      product has over whole units is at most the midpoint. */
  lemma RecoversWithin(mid: i64, bps: i64)
    requires mid > 0 && bps >= 0 && mid + Trunc(mid * bps, BPS) <= I64_MAX
    ensures mid * bps >= 0
    ensures Recovered(mid, bps) <= bps
    ensures Recovered(mid, bps) == bps <==> Mod(mid * bps, BPS) == 0
    ensures Recovered(mid, bps) >= bps - 1 <==> Mod(mid * bps, BPS) <= mid
  {
    hide Div, Mod, Trunc, PriceFromBps;
    PriceIsExact(mid, bps);
    var delta, over: int := Div(mid * bps, BPS), Mod(mid * bps, BPS);
    var q := Trunc(delta * BPS, mid);
    TruncBounds(delta * BPS, mid);
    assert delta * BPS == bps * mid - over;
    // q is the quotient of a number `over` short of bps whole midpoints.
    CancelFactor(q, bps, mid);
    CancelFactor(bps, q + 1, mid);
    CancelFactor(bps - 1, q + 1, mid);
    assert (q + 1) * mid == q * mid + mid;
    assert (bps - 1) * mid == bps * mid - mid;
  }

  /** From a hundredth of a unit upwards it is always within one. */
  lemma RecoversAboveAHundredth(mid: i64, bps: i64)
    requires mid >= BPS && bps >= 0 && mid + Trunc(mid * bps, BPS) <= I64_MAX
    ensures bps - 1 <= Recovered(mid, bps) <= bps
  {
    hide Recovered, Mod;
    RecoversWithin(mid, bps);
    assert Mod(mid * bps, BPS) < BPS;
  }

  /** Below that it may not be. */
  lemma RecoversTwoShort()
    ensures Recovered(500_001, 3) == 1
  {
  }
}
