/** Prices and sizes as integers scaled by 1e8: midpoints and relative moves. */
module Fixed {
  import opened Arith
  import opened Codec
  import opened DepthWalk

  /** The midpoint of two prices, as 64-bit arithmetic computes it. */
  function Mid(a: i64, b: i64): i64 {
    var lo, hi := Min(a, b), Max(a, b);
    Wrap(lo + Trunc(Wrap(hi - lo), 2))
  }

  /** The midpoint is the mean rounded down if and only if the distance of the two prices
      fits 64 bits, and then it lies between them whatever their order. */
  lemma MidIsMean(a: i64, b: i64)
    ensures 2 * Mid(a, b) <= a + b <= 2 * Mid(a, b) + 1 <==> IsI64(Max(a, b) - Min(a, b))
    ensures IsI64(Max(a, b) - Min(a, b)) ==> Min(a, b) <= Mid(a, b) <= Max(a, b)
    ensures Mid(a, b) == Mid(b, a)
  {
    hide Wrap, Mid;
    var lo, hi := Min(a, b), Max(a, b);
    OrderIrrelevant(a, b);
    if IsI64(hi - lo) {
      HalfWay(lo, hi);
    } else {
      FarApart(lo, hi);
    }
  }

  lemma OrderIrrelevant(a: i64, b: i64)
    ensures Mid(a, b) == Mid(b, a) == Mid(Min(a, b), Max(a, b))
  {
  }

  lemma HalfWay(lo: i64, hi: i64)
    requires 0 <= hi - lo <= I64_MAX
    ensures Mid(lo, hi) == lo + (hi - lo) / 2
  {
    hide Wrap;
    WrapIdentity(hi - lo);
    WrapIdentity(lo + (hi - lo) / 2);
  }

  /** Past 64 bits the distance comes out negative, and the midpoint far below the mean or
      far above it. */
  lemma FarApart(lo: i64, hi: i64)
    requires hi - lo > I64_MAX
    ensures Wrap(hi - lo) == hi - lo - U64
    ensures !(2 * Mid(lo, hi) <= lo + hi <= 2 * Mid(lo, hi) + 1)
  {
    var m := lo + Trunc(hi - lo - U64, 2);
    assert Wrap(m) == m || Wrap(m) == m + U64;
  }

  /** It is also the mean rounded towards zero exactly when the sum is even or not
      negative. */
  lemma MidTowardsZeroIff(a: i64, b: i64)
    requires IsI64(Max(a, b) - Min(a, b))
    ensures Mid(a, b) == Trunc(a + b, 2) <==> a + b >= 0 || (a + b) % 2 == 0
  {
    hide Mid;
    MidIsMean(a, b);
  }

  /** One unit below and two: the mean is -1.5. */
  lemma MidBelowZero()
    ensures Mid(-1, -2) == -2 && Trunc(-1 + -2, 2) == -1
  {
  }

  /** Prices of the same sign never overflow it. */
  lemma MidOfSameSign(a: i64, b: i64)
    requires (a >= 0) == (b >= 0)
    ensures 2 * Mid(a, b) <= a + b <= 2 * Mid(a, b) + 1
    ensures Min(a, b) <= Mid(a, b) <= Max(a, b)
  {
    MidIsMean(a, b);
  }

  /** A change measured against a reference, in hundredths of a basis point. */
  function DeltaBps(delta: i64, reference: i64): i64 {
    if reference == 0 then 0 else Clamp(Trunc(delta * 1_000_000, reference))
  }

  /** The size of a change in whole hundredths of a basis point, the rest cut. */
  function Ratio(delta: int, reference: int): (q: int)
    requires reference != 0
    ensures q >= 0
  {
    Div(Abs(delta) * 1_000_000, Abs(reference))
  }

  /** Nothing against no reference; otherwise the ratio with the sign of the two, or the
      nearest 64-bit number to it. */
  lemma DeltaBpsIs(delta: i64, reference: i64)
    ensures reference == 0 ==> DeltaBps(delta, reference) == 0
    ensures reference != 0 ==>
              DeltaBps(delta, reference) ==
              if (delta < 0) == (reference < 0) then Min(Ratio(delta, reference), I64_MAX)
              else Max(-Ratio(delta, reference), I64_MIN)
  {
    hide Trunc, Ratio;
    if reference != 0 {
      TruncIsRatio(delta, reference);
    }
  }

  lemma TruncIsRatio(delta: int, reference: int)
    requires reference != 0
    ensures Trunc(delta * 1_000_000, reference) ==
            if (delta < 0) == (reference < 0) then Ratio(delta, reference) else -Ratio(delta, reference)
  {
    hide Div;
    var scaled := delta * 1_000_000;
    assert (scaled < 0) == (delta < 0) && Abs(scaled) == Abs(delta) * 1_000_000;
    DivIs(Abs(scaled), Abs(reference));
  }

  lemma DivIs(n: nat, d: pos)
    ensures Div(n, d) == n / d
  {
  }
}
