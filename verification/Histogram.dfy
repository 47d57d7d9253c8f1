/** A latency distribution in 256 buckets. The bucket of a value and the upper bound of a
    bucket are any maps with the two properties the real ones are built to have, so that no
    floating-point logarithm is part of the model. */
module Histogram {
  import opened Arith
  import opened Codec

  const BUCKETS: nat := 256
  const U64_MAX: u64 := U64 - 1

  datatype BucketMap = BucketMap(of: u64 -> nat, upper: nat -> u64)

  /** Larger values never go to lower buckets, and outside the last bucket no value is
      above its bucket's upper bound. */
  ghost predicate Good(m: BucketMap) {
    && (forall v: u64 :: m.of(v) < BUCKETS)
    && (forall v: u64, w: u64 :: v <= w ==> m.of(v) <= m.of(w))
    && (forall v: u64 :: m.of(v) < BUCKETS - 1 ==> v <= m.upper(m.of(v)))
  }

  // ---------------------------------------------------------------------------
  // What a list of samples says
  // ---------------------------------------------------------------------------

  function CountIn(m: BucketMap, samples: seq<u64>, b: nat): nat {
    if samples == [] then 0
    else CountIn(m, samples[..|samples| - 1], b) + (if m.of(samples[|samples| - 1]) == b then 1 else 0)
  }

  /** Samples in bucket `b` or below. */
  function CountUpTo(m: BucketMap, samples: seq<u64>, b: int): nat {
    if samples == [] then 0
    else CountUpTo(m, samples[..|samples| - 1], b) + (if m.of(samples[|samples| - 1]) <= b then 1 else 0)
  }

  /** Samples below `x`. */
  function Below(samples: seq<u64>, x: int): nat {
    if samples == [] then 0
    else Below(samples[..|samples| - 1], x) + (if samples[|samples| - 1] < x then 1 else 0)
  }

  function Total(samples: seq<u64>): nat {
    if samples == [] then 0 else Total(samples[..|samples| - 1]) + samples[|samples| - 1]
  }

  function Largest(samples: seq<u64>): (r: u64)
    ensures forall i :: 0 <= i < |samples| ==> samples[i] <= r
    ensures if samples == [] then r == 0 else r in samples
  {
    if samples == [] then 0 else Max(Largest(samples[..|samples| - 1]), samples[|samples| - 1])
  }

  function Smallest(samples: seq<u64>): (r: u64)
    ensures forall i :: 0 <= i < |samples| ==> r <= samples[i]
    ensures if samples == [] then r == U64_MAX else r in samples
  {
    if samples == [] then U64_MAX else Min(Smallest(samples[..|samples| - 1]), samples[|samples| - 1])
  }

  /** `x` is the `k`th smallest sample, counting from one. */
  predicate IsRank(samples: seq<u64>, k: nat, x: u64) {
    Below(samples, x) < k <= Below(samples, x + 1)
  }

  /** How many samples lie below `x`, by which they are. */
  lemma {:induction false} BelowCounts(samples: seq<u64>, x: int)
    ensures Below(samples, x) == |set i | 0 <= i < |samples| && samples[i] < x|
  {
    if samples != [] {
      var front := samples[..|samples| - 1];
      BelowCounts(front, x);
      var a, b := set i | 0 <= i < |front| && front[i] < x, set i | 0 <= i < |samples| && samples[i] < x;
      assert b == a + (if samples[|samples| - 1] < x then {|samples| - 1} else {});
    }
  }

  lemma {:induction false} BelowBounds(samples: seq<u64>, x: int, y: int)
    requires x <= y
    ensures Below(samples, x) <= Below(samples, y) <= |samples|
    ensures x <= 0 ==> Below(samples, x) == 0
    ensures y >= U64 ==> Below(samples, y) == |samples|
  {
    if samples != [] {
      BelowBounds(samples[..|samples| - 1], x, y);
    }
  }

  lemma {:induction false} RankFrom(samples: seq<u64>, k: nat, x: u64)
    requires 1 <= k <= Below(samples, x + 1)
    ensures exists y: u64 :: IsRank(samples, k, y)
  {
    if Below(samples, x) < k {
      assert IsRank(samples, k, x);
    } else {
      BelowBounds(samples, 0, x);
      BelowBounds(samples, x, x);
      RankFrom(samples, k, x - 1);
    }
  }

  /** Every rank from one to the number of samples belongs to exactly one value, and that
      value is one of the samples. */
  lemma RankExists(samples: seq<u64>, k: nat)
    requires 1 <= k <= |samples|
    ensures exists x: u64 :: IsRank(samples, k, x)
    ensures forall x: u64, y: u64 :: IsRank(samples, k, x) && IsRank(samples, k, y) ==> x == y
    ensures forall x: u64 :: IsRank(samples, k, x) ==> x in samples
  {
    BelowBounds(samples, U64_MAX, U64);
    RankFrom(samples, k, U64_MAX);
    forall x: u64, y: u64 | IsRank(samples, k, x) && IsRank(samples, k, y)
      ensures x == y
    {
      if x < y {
        BelowBounds(samples, x + 1, y);
      } else if y < x {
        BelowBounds(samples, y + 1, x);
      }
    }
    forall x: u64 | IsRank(samples, k, x)
      ensures x in samples
    {
      AbsentAddsNone(samples, x);
    }
  }

  lemma {:induction false} AbsentAddsNone(samples: seq<u64>, x: u64)
    ensures x !in samples ==> Below(samples, x + 1) == Below(samples, x)
  {
    if samples != [] {
      AbsentAddsNone(samples[..|samples| - 1], x);
    }
  }

  ghost function Kth(samples: seq<u64>, k: nat): (x: u64)
    requires 1 <= k <= |samples|
    ensures IsRank(samples, k, x) && x in samples
  {
    RankExists(samples, k);
    var x :| IsRank(samples, k, x);
    x
  }

  /** Counting by bucket brackets counting by value. */
  lemma {:induction false} BucketsBracket(m: BucketMap, samples: seq<u64>, x: u64)
    requires Good(m)
    ensures CountUpTo(m, samples, m.of(x) - 1) <= Below(samples, x)
    ensures Below(samples, x + 1) <= CountUpTo(m, samples, m.of(x))
  {
    if samples != [] {
      var v := samples[|samples| - 1];
      BucketsBracket(m, samples[..|samples| - 1], x);
      assert m.of(v) < m.of(x) ==> v < x;
      assert v <= x ==> m.of(v) <= m.of(x);
    }
  }

  lemma {:induction false} UpToStep(m: BucketMap, samples: seq<u64>, b: nat)
    ensures CountUpTo(m, samples, b) == CountUpTo(m, samples, b - 1) + CountIn(m, samples, b)
    ensures CountUpTo(m, samples, -1) == 0
  {
    if samples != [] {
      UpToStep(m, samples[..|samples| - 1], b);
    }
  }

  lemma {:induction false} UpToMonotone(m: BucketMap, samples: seq<u64>, a: int, b: int)
    requires a <= b
    ensures CountUpTo(m, samples, a) <= CountUpTo(m, samples, b)
  {
    if samples != [] {
      UpToMonotone(m, samples[..|samples| - 1], a, b);
    }
  }

  /** The first bucket at which the running count reaches rank `k` is the bucket of the
      `k`th smallest sample. */
  lemma FirstToReach(m: BucketMap, samples: seq<u64>, k: nat, b: nat)
    requires Good(m) && 1 <= k <= |samples|
    requires CountUpTo(m, samples, b - 1) < k <= CountUpTo(m, samples, b)
    ensures m.of(Kth(samples, k)) == b
  {
    var x := Kth(samples, k);
    BucketsBracket(m, samples, x);
    if b < m.of(x) {
      UpToMonotone(m, samples, b, m.of(x) - 1);
    } else if m.of(x) < b {
      UpToMonotone(m, samples, m.of(x), b - 1);
    }
  }

  lemma {:induction false} AllBuckets(m: BucketMap, samples: seq<u64>)
    requires Good(m)
    ensures CountUpTo(m, samples, BUCKETS - 1) == |samples|
  {
    if samples != [] {
      AllBuckets(m, samples[..|samples| - 1]);
    }
  }

  /** What the histogram answers for rank `k`. */
  ghost function Answer(m: BucketMap, samples: seq<u64>, k: nat): u64
    requires 1 <= k <= |samples|
  {
    var b := m.of(Kth(samples, k));
    if b == BUCKETS - 1 then Largest(samples) else m.upper(b)
  }

  function ClampUnit(q: real): real {
    if q < 0.0 then 0.0 else if q > 1.0 then 1.0 else q
  }

  function Ceiling(x: real): (n: nat)
    requires x >= 0.0
    ensures n as real >= x && n as real < x + 1.0
  {
    -((-x).Floor)
  }

  /** The fraction of `n` samples, rounded up. */
  function Wanted(q: real, n: nat): (k: nat)
    ensures k as real >= ClampUnit(q) * n as real && k <= n
    ensures k as real < ClampUnit(q) * n as real + 1.0
  {
    FractionOf(ClampUnit(q), n);
    Ceiling(ClampUnit(q) * n as real)
  }

  /** The rank, counting from one, that a fraction of the samples asks for. */
  function RankOf(q: real, n: nat): (k: nat)
    requires n > 0
    ensures 1 <= k <= n && k >= Wanted(q, n)
  {
    Min(Max(Wanted(q, n), 1), n)
  }

  lemma FractionOf(q: real, n: nat)
    requires 0.0 <= q <= 1.0
    ensures 0.0 <= q * n as real <= n as real
  {
    assert (1.0 - q) * n as real >= 0.0;
  }

  /** At least that fraction of the samples is at or below what is reported. */
  lemma CoversFraction(m: BucketMap, samples: seq<u64>, q: real)
    requires Good(m) && samples != []
    ensures Below(samples, Answer(m, samples, RankOf(q, |samples|)) + 1) as real >= ClampUnit(q) * |samples| as real
  {
    hide Below, Good, ClampUnit, Wanted, Answer, Largest;
    var k := RankOf(q, |samples|);
    var x: int := Kth(samples, k);
    NeverBelow(m, samples, k);
    BelowBounds(samples, x + 1, Answer(m, samples, k) + 1);
  }

  /** The rank is the smallest that covers the fraction. */
  lemma SmallestRank(samples: seq<u64>, q: real)
    requires samples != []
    ensures var k := RankOf(q, |samples|);
            && Below(samples, Kth(samples, k) + 1) as real >= ClampUnit(q) * |samples| as real
            && (Below(samples, Kth(samples, k)) == 0 || Below(samples, Kth(samples, k)) as real < ClampUnit(q) * |samples| as real)
  {
    hide Below, ClampUnit, Wanted;
    var k := RankOf(q, |samples|);
    assert IsRank(samples, k, Kth(samples, k));
  }

  /** The sample that a quantile answers for, and what it answers. */
  ghost predicate AnswersFor(m: BucketMap, samples: seq<u64>, p: real, x: u64, r: u64) {
    && x in samples
    && Below(samples, x + 1) as real >= p * |samples| as real
    && (Below(samples, x) == 0 || Below(samples, x) as real < p * |samples| as real)
    && (m.of(x) < BUCKETS - 1 ==> r == m.upper(m.of(x)))
    && (m.of(x) == BUCKETS - 1 ==> r in samples && forall s :: s in samples ==> s <= r)
  }

  /** It never reports below the `k`th smallest sample. */
  lemma NeverBelow(m: BucketMap, samples: seq<u64>, k: nat)
    requires Good(m) && 1 <= k <= |samples|
    ensures Answer(m, samples, k) >= Kth(samples, k)
  {
    var x := Kth(samples, k);
    assert x <= Largest(samples);
  }

  lemma {:induction false} Joined(m: BucketMap, a: seq<u64>, b: seq<u64>)
    ensures forall i: nat :: CountIn(m, a + b, i) == CountIn(m, a, i) + CountIn(m, b, i)
    ensures Total(a + b) == Total(a) + Total(b)
    ensures Largest(a + b) == Max(Largest(a), Largest(b))
    ensures Smallest(a + b) == Min(Smallest(a), Smallest(b))
  {
    if b == [] {
      assert a + b == a;
    } else {
      assert (a + b)[..|a + b| - 1] == a + b[..|b| - 1];
      Joined(m, a, b[..|b| - 1]);
    }
  }

  /** What one sample counts for. */
  lemma OneSample(m: BucketMap, v: u64)
    ensures forall i: nat :: CountIn(m, [v], i) == if m.of(v) == i then 1 else 0
    ensures Total([v]) == v && Largest([v]) == v && Smallest([v]) == v
  {
    assert [v][..0] == [];
  }

  lemma Appended(m: BucketMap, a: seq<u64>, v: u64)
    ensures forall i: nat :: CountIn(m, a + [v], i) == CountIn(m, a, i) + (if m.of(v) == i then 1 else 0)
    ensures Total(a + [v]) == Total(a) + v
    ensures Largest(a + [v]) == Max(Largest(a), v)
    ensures Smallest(a + [v]) == Min(Smallest(a), v)
  {
    assert (a + [v])[..|a|] == a;
  }

  lemma MoveToEnd(a: seq<u64>, v: u64, b: seq<u64>)
    ensures multiset(a + [v] + b) == multiset(a + b) + multiset{v}
  {
    assert multiset(a + [v] + b) == multiset(a) + multiset([v]) + multiset(b);
    assert multiset(a + b) == multiset(a) + multiset(b);
  }

  lemma CancelOne(p: multiset<u64>, q: multiset<u64>, v: u64)
    requires p + multiset{v} == q + multiset{v}
    ensures p == q
  {
    assert p == (p + multiset{v}) - multiset{v};
  }

  lemma RemoveBoth(front: seq<u64>, v: u64, l: seq<u64>, r: seq<u64>)
    requires multiset(front + [v]) == multiset(l + [v] + r)
    ensures multiset(front) == multiset(l + r)
  {
    MoveToEnd(l, v, r);
    assert multiset(front + [v]) == multiset(front) + multiset{v};
    CancelOne(multiset(front), multiset(l + r), v);
  }

  lemma MoveKeeps(m: BucketMap, a: seq<u64>, v: u64, b: seq<u64>)
    ensures forall i: nat :: CountIn(m, a + [v] + b, i) == CountIn(m, a + b + [v], i)
    ensures Total(a + [v] + b) == Total(a + b + [v])
    ensures Largest(a + [v] + b) == Largest(a + b + [v])
    ensures Smallest(a + [v] + b) == Smallest(a + b + [v])
  {
    hide CountIn, Total, Largest, Smallest;
    Appended(m, a, v);
    Joined(m, a + [v], b);
    Joined(m, a, b);
    Appended(m, a + b, v);
  }

  lemma SplitAround(b: seq<u64>, v: u64) returns (j: nat)
    requires v in multiset(b)
    ensures j < |b| && b == b[..j] + [v] + b[j + 1..]
  {
    j :| j < |b| && b[j] == v;
  }

  /** Which samples were seen, and not when, decides everything a histogram holds. */
  lemma {:induction false} OrderIrrelevant(m: BucketMap, a: seq<u64>, b: seq<u64>)
    requires multiset(a) == multiset(b)
    ensures forall i: nat :: CountIn(m, a, i) == CountIn(m, b, i)
    ensures Total(a) == Total(b) && Largest(a) == Largest(b) && Smallest(a) == Smallest(b)
  {
    hide CountIn, Total, Largest, Smallest;
    if a == [] {
      assert |b| == |multiset(b)| == 0;
    } else {
      var v, front := a[|a| - 1], a[..|a| - 1];
      assert a == front + [v];
      var j := SplitAround(b, v);
      var l, r := b[..j], b[j + 1..];
      RemoveBoth(front, v, l, r);
      OrderIrrelevant(m, front, l + r);
      Appended(m, front, v);
      Appended(m, l + r, v);
      MoveKeeps(m, l, v, r);
    }
  }

  // ---------------------------------------------------------------------------
  // The histogram
  // ---------------------------------------------------------------------------

  function SaturatingAdd(a: u64, b: u64): u64 {
    Min(a + b, U64_MAX)
  }

  class Histogram {
    const m: BucketMap
    const counts: array<nat>
    var count: nat
    var sum: u64
    var min: u64
    var max: u64
    /** Everything recorded since the last reset, in order. */
    ghost var samples: seq<u64>

    ghost predicate Valid()
      reads this, counts
    {
      && Good(m) && counts.Length == BUCKETS
      && (forall b :: 0 <= b < BUCKETS ==> counts[b] == CountIn(m, samples, b))
      && count == |samples| && sum == Min(Total(samples), U64_MAX)
      && min == Smallest(samples) && max == Largest(samples)
    }

    constructor (m: BucketMap)
      requires Good(m)
      ensures Valid() && samples == [] && this.m == m && fresh(counts)
    {
      this.m := m;
      counts := new nat[BUCKETS](_ => 0);
      count, sum, min, max, samples := 0, 0, U64_MAX, 0, [];
    }

    /** One more sample. */
    method Record(value: u64)
      requires Valid()
      modifies this, counts
      ensures Valid() && samples == old(samples) + [value]
    {
      hide CountIn, Total, Largest, Smallest;
      Appended(m, samples, value);
      var b := m.of(value);
      counts[b] := counts[b] + 1;
      count := count + 1;
      sum := SaturatingAdd(sum, value);
      if value < min {
        min := value;
      }
      if value > max {
        max := value;
      }
      samples := samples + [value];
    }

    /** The quantile at a fraction of the samples, the fraction clamped to [0, 1]: it answers
        for the smallest sample that has that fraction at or below it, with the upper bound
        of the sample's bucket, or with the largest sample when that is the last bucket. */
    method QuantileAt(q: real) returns (r: u64)
      requires Valid()
      ensures samples == [] ==> r == 0
      ensures samples != [] ==>
                var p := if q < 0.0 then 0.0 else if q > 1.0 then 1.0 else q;
                && Below(samples, r + 1) as real >= p * |samples| as real
                && exists x: u64 :: AnswersFor(m, samples, p, x, r)
    {
      hide Below, Total, Answer, CountIn, CountUpTo, Largest, Smallest, Good, IsRank, AnswersFor;
      hide Wanted, ClampUnit;
      r := Quantile(Wanted(q, count));
      if samples != [] {
        CoversFraction(m, samples, q);
        AnswersForRank(m, samples, q);
        ClampIs(q);
      }
    }

    /** The observation at rank `wanted`, counting from one and clamped into range: the
        upper bound of the `wanted`th smallest sample's bucket, or the exact maximum when
        that is the last bucket. */
    method Quantile(wanted: nat) returns (r: u64)
      requires Valid()
      ensures samples == [] ==> r == 0
      ensures samples != [] ==> r == Answer(m, samples, Min(Max(wanted, 1), |samples|))
      ensures samples != [] ==>
                exists x: u64 :: && x in samples && IsRank(samples, if wanted < 1 then 1 else if wanted > |samples| then |samples| else wanted, x)
                                 && r == if m.of(x) == BUCKETS - 1 then max else m.upper(m.of(x))
    {
      hide CountIn, CountUpTo, Total, Largest, Smallest, Kth, Good, IsRank;
      if count == 0 {
        return 0;
      }
      var target: nat := Min(Max(wanted, 1), count);
      var seen, i := 0, 0;
      UpToStep(m, samples, 0);
      while i < BUCKETS
        invariant i <= BUCKETS && seen == CountUpTo(m, samples, i - 1) < target
      {
        UpToStep(m, samples, i);
        seen := seen + counts[i];
        if seen >= target {
          FirstToReach(m, samples, target, i);
          return if i == BUCKETS - 1 && counts[BUCKETS - 1] > 0 then max else m.upper(i);
        }
        i := i + 1;
      }
      AllBuckets(m, samples);
      assert false;
    }

    /** Merging another distribution is recording all of its samples. */
    method Merge(other: Histogram)
      requires Valid() && other.Valid() && other.m == m && other != this && other.counts != counts
      modifies this, counts
      ensures Valid() && samples == old(samples) + other.samples
    {
      hide CountIn, Total, Largest, Smallest, Good;
      Joined(m, samples, other.samples);
      EmptyExtremes(other.samples);
      var i := 0;
      while i < BUCKETS
        modifies counts
        invariant i <= BUCKETS
        invariant forall b :: 0 <= b < i ==> counts[b] == old(counts[b]) + other.counts[b]
        invariant forall b :: i <= b < BUCKETS ==> counts[b] == old(counts[b])
      {
        counts[i] := counts[i] + other.counts[i];
        i := i + 1;
      }
      count := count + other.count;
      sum := SaturatingAdd(sum, other.sum);
      if other.count > 0 {
        if other.min < min {
          min := other.min;
        }
        if other.max > max {
          max := other.max;
        }
      }
      samples := samples + other.samples;
    }
  }

  lemma ClampIs(q: real)
    ensures ClampUnit(q) == if q < 0.0 then 0.0 else if q > 1.0 then 1.0 else q
  {
  }

  lemma AnswersForRank(m: BucketMap, samples: seq<u64>, q: real)
    requires Good(m) && samples != []
    ensures AnswersFor(m, samples, ClampUnit(q), Kth(samples, RankOf(q, |samples|)), Answer(m, samples, RankOf(q, |samples|)))
  {
    hide Below, ClampUnit, Wanted, IsRank;
    SmallestRank(samples, q);
  }

  lemma EmptyExtremes(samples: seq<u64>)
    ensures samples == [] ==> Largest(samples) == 0 && Smallest(samples) == U64_MAX
  {
  }
}
