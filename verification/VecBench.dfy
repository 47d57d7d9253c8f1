/** The blocked prefix sum that the bench keeps beside the sequential one. */
module VecBench {
  import opened Arith
  import opened Codec
  import opened DepthWalk

  const BLOCK: nat := 8
  const MAX_BLOCKS: nat := 128

  /** The sum of the sizes from `from` up to, not including, `to`. */
  function Range(q: seq<i64>, from: nat, to: nat): int
    requires from <= to <= |q|
  {
    Total(q, to) - Total(q, from)
  }

  /** Prefix sums within `[start, end)`. */
  method PrefixWithin(q: seq<i64>, start: nat, end: nat, out: array<i64>)
    requires start <= end <= |q| && end <= out.Length
    modifies out
    ensures forall i :: start <= i < end ==> out[i] == Wrap(Range(q, start, i + 1))
    ensures forall i :: 0 <= i < out.Length && !(start <= i < end) ==> out[i] == old(out[i])
  {
    hide Wrap;
    var running: i64 := 0;
    WrapIdentity(0);
    var i := start;
    while i < end
      invariant start <= i <= end && running == Wrap(Range(q, start, i))
      invariant forall k :: start <= k < i ==> out[k] == Wrap(Range(q, start, k + 1))
      invariant forall k :: 0 <= k < out.Length && !(start <= k < i) ==> out[k] == old(out[k])
    {
      WrapAdd(Range(q, start, i), q[i]);
      running := Wrap(running + q[i]);
      out[i] := running;
      i := i + 1;
    }
  }

  method BlockTotal(q: seq<i64>, start: nat, end: nat) returns (sum: i64)
    requires start <= end <= |q|
    ensures sum == Wrap(Range(q, start, end))
  {
    hide Wrap;
    sum := 0;
    WrapIdentity(0);
    var i := start;
    while i < end
      invariant start <= i <= end && sum == Wrap(Range(q, start, i))
    {
      WrapAdd(Range(q, start, i), q[i]);
      sum := Wrap(sum + q[i]);
      i := i + 1;
    }
  }

  /** Turn prefix sums that start at `start` into prefix sums from the beginning. */
  method AddOffset(q: seq<i64>, start: nat, end: nat, offset: i64, out: array<i64>)
    requires start <= end <= |q| && end <= out.Length && offset == Wrap(Total(q, start))
    requires forall i :: start <= i < end ==> out[i] == Wrap(Range(q, start, i + 1))
    modifies out
    ensures forall i :: start <= i < end ==> out[i] == Wrap(Total(q, i + 1))
    ensures forall i :: 0 <= i < out.Length && !(start <= i < end) ==> out[i] == old(out[i])
  {
    hide Wrap;
    var i := start;
    while i < end
      invariant start <= i <= end
      invariant forall k :: start <= k < i ==> out[k] == Wrap(Total(q, k + 1))
      invariant forall k :: 0 <= k < out.Length && !(start <= k < i) ==> out[k] == old(out[k])
    {
      WrapSum(Range(q, start, i + 1), Total(q, start));
      out[i] := Wrap(out[i] + offset);
      i := i + 1;
    }
  }

  function AddWrapped(a: int, b: int): i64 {
    Wrap(a + b)
  }

  /** Each of the sums is the one before and one size more, wrapped. */
  predicate Running(q: seq<i64>, sums: seq<i64>) {
    |sums| <= |q| && forall i :: 0 <= i < |sums| ==> sums[i] == if i == 0 then q[0] else AddWrapped(sums[i - 1], q[i])
  }

  lemma TotalsRun(q: seq<i64>, sums: seq<i64>)
    requires |sums| <= |q| && forall i :: 0 <= i < |sums| ==> sums[i] == Wrap(Total(q, i + 1))
    ensures Running(q, sums)
  {
    hide Wrap;
    forall i | 0 <= i < |sums|
      ensures sums[i] == if i == 0 then q[0] else AddWrapped(sums[i - 1], q[i])
    {
      WrapAdd(Total(q, i), q[i]);
      WrapIdentity(q[i]);
    }
  }

  function Start(b: nat): nat {
    b * BLOCK
  }

  function End(b: nat, take: nat): nat {
    Min(b * BLOCK + BLOCK, take)
  }

  /** Block `b` of `out` holds the block's own prefix sums. */
  ghost predicate BlockDone(q: seq<i64>, out: seq<i64>, b: nat, take: nat) {
    take <= |q| && take <= |out|
    && forall i :: Start(b) <= i < End(b, take) ==> out[i] == Wrap(Range(q, Start(b), i + 1))
  }

  method BlockTotals(q: seq<i64>, take: nat, blocks: nat) returns (totals: seq<i64>)
    requires take <= |q| && (blocks > 0 ==> Start(blocks - 1) < take)
    ensures |totals| == blocks
    ensures forall b :: 0 <= b < blocks ==> totals[b] == Wrap(Range(q, Start(b), End(b, take)))
  {
    hide Wrap, Range;
    totals := [];
    while |totals| < blocks
      invariant |totals| <= blocks
      invariant forall b :: 0 <= b < |totals| ==> totals[b] == Wrap(Range(q, Start(b), End(b, take)))
    {
      var total := BlockTotal(q, Start(|totals|), End(|totals|, take));
      totals := totals + [total];
    }
  }

  method BlockPrefixes(q: seq<i64>, take: nat, blocks: nat, out: array<i64>)
    requires take <= |q| && take <= out.Length && (blocks > 0 ==> Start(blocks - 1) < take)
    modifies out
    ensures forall b :: 0 <= b < blocks ==> BlockDone(q, out[..], b, take)
    ensures forall i :: take <= i < out.Length ==> out[i] == old(out[i])
  {
    hide Wrap, Range;
    var b := 0;
    while b < blocks
      invariant b <= blocks
      invariant forall k :: 0 <= k < b ==> BlockDone(q, out[..], k, take)
      invariant forall i :: take <= i < out.Length ==> out[i] == old(out[i])
    {
      ghost var before := out[..];
      PrefixWithin(q, Start(b), End(b, take), out);
      forall k | 0 <= k < b
        ensures BlockDone(q, out[..], k, take)
      {
        assert BlockDone(q, before, k, take);
      }
      b := b + 1;
    }
  }

  /** Add each block's offset, one running total behind the next. */
  method BlockOffsets(q: seq<i64>, take: nat, totals: seq<i64>, out: array<i64>) returns (offset: i64)
    requires take <= |q| && take <= out.Length && (|totals| > 0 ==> Start(|totals| - 1) < take)
    requires forall b :: 0 <= b < |totals| ==> totals[b] == Wrap(Range(q, Start(b), End(b, take)))
    requires forall b :: 0 <= b < |totals| ==> BlockDone(q, out[..], b, take)
    modifies out
    ensures offset == Wrap(Total(q, Min(Start(|totals|), take)))
    ensures forall i :: 0 <= i < Min(Start(|totals|), take) ==> out[i] == Wrap(Total(q, i + 1))
    ensures forall i :: Min(Start(|totals|), take) <= i < out.Length ==> out[i] == old(out[i])
  {
    hide Wrap;
    offset := 0;
    WrapIdentity(0);
    var b := 0;
    while b < |totals|
      invariant b <= |totals| && offset == Wrap(Total(q, Min(Start(b), take)))
      invariant forall i :: 0 <= i < Min(Start(b), take) ==> out[i] == Wrap(Total(q, i + 1))
      invariant forall i :: Min(Start(b), take) <= i < out.Length ==> out[i] == old(out[i])
    {
      assert BlockDone(q, old(out[..]), b, take);
      AddOffset(q, Start(b), End(b, take), offset, out);
      WrapSum(Total(q, Start(b)), Range(q, Start(b), End(b, take)));
      offset := Wrap(offset + totals[b]);
      b := b + 1;
    }
  }

  /** Block totals, prefix sums inside each block, then each block's offset: the same
      running totals as the sequential loop, for every length. */
  method CumulativeBlocked(q: seq<i64>, n: nat, out: array<i64>) returns (take: nat)
    modifies out
    ensures take == Min(Min(n, |q|), out.Length)
    ensures forall i :: 0 <= i < take ==> out[i] == Wrap(Total(q, i + 1))
    ensures Running(q, out[..take])
    ensures forall i :: take <= i < out.Length ==> out[i] == old(out[i])
  {
    hide Wrap, Running;
    take := Min(Min(n, |q|), out.Length);
    if take == 0 {
      TotalsRun(q, out[..take]);
      return;
    }
    var blocks: nat := Min((take + BLOCK - 1) / BLOCK, MAX_BLOCKS);
    var tail := Min(Start(blocks), take);
    var totals := BlockTotals(q, take, blocks);
    BlockPrefixes(q, take, blocks, out);
    if tail < take {
      ghost var before := out[..];
      PrefixWithin(q, tail, take, out);
      forall b | 0 <= b < blocks
        ensures BlockDone(q, out[..], b, take)
      {
        assert BlockDone(q, before, b, take);
      }
    }
    var offset := BlockOffsets(q, take, totals, out);
    if tail < take {
      AddOffset(q, tail, take, offset, out);
    }
    TotalsRun(q, out[..take]);
  }
}
