/** The stages of a record's life, the rejection of stamps that cannot be durations, and the
    correction for coordinated omission. */
module Latency {
  import opened Arith
  import opened Codec
  import opened Histogram

  const MAX_BACKFILL_SAMPLES: nat := 4096
  const IMPLAUSIBLE_STAGE_NS: nat := 1_000_000_000

  // ---------------------------------------------------------------------------
  // What a tracker has seen
  // ---------------------------------------------------------------------------

  datatype Readings = Readings(
    sendToRecv: seq<u64>, recvToPublish: seq<u64>, publishToSeen: seq<u64>, total: seq<u64>,
    stamped: nat, unstamped: nat, implausible: nat, lastTotal: u64, truncated: nat)

  const NoReadings: Readings := Readings([], [], [], [], 0, 0, 0, 0, 0)

  /** The stage-1 duration, when the stamp can be one. */
  function Usable(stamp: Option<u64>): Option<u64> {
    if stamp.Some? && stamp.value < IMPLAUSIBLE_STAGE_NS then stamp else None
  }

  function StageOne(stamp: Option<u64>): u64 {
    match Usable(stamp) case Some(ns) => ns case None => 0
  }

  function Counted(r: Readings, stamp: Option<u64>): Readings {
    if stamp.None? then r.(unstamped := r.unstamped + 1)
    else if Usable(stamp).Some? then r.(stamped := r.stamped + 1)
    else r.(implausible := r.implausible + 1)
  }

  function Listed(stamp: Option<u64>): seq<u64> {
    match Usable(stamp) case Some(ns) => [ns] case None => []
  }

  function Add3(a: u64, b: u64, c: u64): u64 {
    SaturatingAdd(SaturatingAdd(a, b), c)
  }

  /** The samples a stall of `observed` swallowed at one every `interval`. */
  function Missed(observed: u64, interval: u64): (samples: seq<u64>)
  {
    if 0 < interval < observed then
      CountIsPositive(observed, interval);
      seq(Min(MAX_BACKFILL_SAMPLES, observed / interval - 1) as nat,
          k requires 0 <= k < observed / interval - 1 => MissedAt(observed, interval, k))
    else []
  }

  lemma CountIsPositive(observed: u64, interval: u64)
    requires 0 < interval < observed
    ensures observed / interval >= 1
  {
    QuotientBounds(observed, interval);
    CancelFactor(0, observed / interval, interval);
  }

  function MissedAt(observed: u64, interval: u64, k: nat): (v: u64)
    requires 0 < interval < observed && k < observed / interval - 1
    ensures interval <= v <= observed - interval && v == observed - (k + 1) * interval
  {
    QuotientBounds(observed, interval);
    MulMonotone(observed / interval, k + 2, interval);
    MulMonotone(k + 1, 1, interval);
    assert (k + 2) * interval == (k + 1) * interval + interval;
    observed - (k + 1) * interval
  }

  function Backfilled(r: Readings, interval: u64): Readings {
    var missed := Missed(r.lastTotal, interval);
    r.(total := r.total + missed,
       truncated := r.truncated + (if |missed| >= MAX_BACKFILL_SAMPLES then 1 else 0))
  }

  function Source(r: Readings, stamp: Option<u64>, recvToPublish: u64): Readings {
    var classified := SaturatingAdd(StageOne(stamp), recvToPublish);
    Counted(r, stamp).(
      recvToPublish := r.recvToPublish + [recvToPublish],
      sendToRecv := r.sendToRecv + Listed(stamp),
      total := r.total + [classified],
      lastTotal := classified)
  }

  function Sink(r: Readings, stamp: Option<u64>, ingress: u64, publishToSeen: u64): Readings {
    Counted(r, stamp).(
      publishToSeen := r.publishToSeen + [publishToSeen],
      total := r.total + [Add3(StageOne(stamp), ingress, publishToSeen)])
  }

  function Whole(r: Readings, stamp: Option<u64>, recvToPublish: u64, publishToSeen: u64): Readings {
    var classified := Add3(StageOne(stamp), recvToPublish, publishToSeen);
    Counted(r, stamp).(
      recvToPublish := r.recvToPublish + [recvToPublish],
      publishToSeen := r.publishToSeen + [publishToSeen],
      sendToRecv := r.sendToRecv + Listed(stamp),
      total := r.total + [classified],
      lastTotal := classified)
  }

  // ---------------------------------------------------------------------------
  // The correction
  // ---------------------------------------------------------------------------

  /** The correction adds min(4096, observed / interval - 1) samples, the `k`th one `k`
      intervals under what was observed and every one from one interval up to one interval
      less than observed; if it stopped before 4096 the next would be below an interval. */
  lemma MissedIsExact(observed: u64, interval: u64)
    ensures !(0 < interval < observed) ==> Missed(observed, interval) == []
    ensures 0 < interval < observed ==>
            var missed := Missed(observed, interval);
            && |missed| == Min(4096, observed / interval - 1)
            && (forall k :: 0 <= k < |missed| ==>
                  missed[k] == observed - (k + 1) * interval && interval <= missed[k] <= observed - interval)
            && (|missed| < MAX_BACKFILL_SAMPLES ==> observed - (|missed| + 1) * interval < interval)
  {
    if 0 < interval < observed {
      CountIsPositive(observed, interval);
      QuotientBounds(observed, interval);
      var missed := Missed(observed, interval);
      if |missed| < MAX_BACKFILL_SAMPLES {
        assert |missed| + 1 == observed / interval;
      }
    }
  }

  lemma MissedBelow(observed: u64, interval: u64)
    ensures Largest(Missed(observed, interval)) <= observed
  {
    var missed := Missed(observed, interval);
    LargestIsOne(missed);
    if 0 < interval < observed {
      MissedIsExact(observed, interval);
    }
  }

  lemma {:induction false} LargestIsOne(samples: seq<u64>)
    ensures samples == [] ==> Largest(samples) == 0
    ensures samples != [] ==> Largest(samples) in samples
  {
    if samples != [] {
      LargestIsOne(samples[..|samples| - 1]);
    }
  }

  // ---------------------------------------------------------------------------
  // Runs
  // ---------------------------------------------------------------------------

  /** An interval of zero asks for no correction. */
  datatype Op =
    | AtSource(stamp: Option<u64>, recvToPublish: u64, interval: u64)
    | AtSink(stamp: Option<u64>, ingress: u64, publishToSeen: u64)
    | AtOnce(stamp: Option<u64>, recvToPublish: u64, publishToSeen: u64, interval: u64)

  function Step(r: Readings, op: Op): Readings {
    match op
    case AtSource(stamp, recv, interval) => Backfilled(Source(r, stamp, recv), interval)
    case AtSink(stamp, ingress, seen) => Sink(r, stamp, ingress, seen)
    case AtOnce(stamp, recv, seen, interval) => Backfilled(Whole(r, stamp, recv, seen), interval)
  }

  function Run(ops: seq<Op>): Readings {
    if ops == [] then NoReadings else Step(Run(ops[..|ops| - 1]), ops[|ops| - 1])
  }

  /** The total one record contributes by itself. */
  function TotalOf(op: Op): u64 {
    match op
    case AtSource(stamp, recv, _) => SaturatingAdd(StageOne(stamp), recv)
    case AtSink(stamp, ingress, seen) => Add3(StageOne(stamp), ingress, seen)
    case AtOnce(stamp, recv, seen, _) => Add3(StageOne(stamp), recv, seen)
  }

  function Totals(ops: seq<Op>): seq<u64> {
    if ops == [] then [] else Totals(ops[..|ops| - 1]) + [TotalOf(ops[|ops| - 1])]
  }

  lemma StepMaximum(r: Readings, op: Op)
    ensures Largest(Step(r, op).total) == Max(Largest(r.total), TotalOf(op))
  {
    hide Missed, Largest, SaturatingAdd;
    var m := BucketMap(_ => 0, _ => 0);
    Appended(m, r.total, TotalOf(op));
    if !op.AtSink? {
      MissedBelow(TotalOf(op), op.interval);
      Joined(m, r.total + [TotalOf(op)], Missed(TotalOf(op), op.interval));
    }
  }

  lemma RunOne(front: seq<Op>, op: Op)
    ensures Run(front + [op]) == Step(Run(front), op) && Totals(front + [op]) == Totals(front) + [TotalOf(op)]
    ensures Largest(Totals(front) + [TotalOf(op)]) == Max(Largest(Totals(front)), TotalOf(op))
  {
    assert (front + [op])[..|front|] == front;
    assert (Totals(front) + [TotalOf(op)])[..|Totals(front)|] == Totals(front);
  }

  lemma NothingRun()
    ensures Run([]) == NoReadings && Largest(Run([]).total) == Largest(Totals([]))
  {
  }

  /** The correction never invents a sample worse than one observed: the maximum of the
      totals is the largest total of any one record. */
  lemma {:induction false} MaximumIsObserved(ops: seq<Op>)
    ensures Largest(Run(ops).total) == Largest(Totals(ops))
  {
    hide *;
    if ops == [] {
      NothingRun();
    } else {
      var front, op := ops[..|ops| - 1], ops[|ops| - 1];
      assert ops == front + [op];
      MaximumIsObserved(front);
      RunOne(front, op);
      StepMaximum(Run(front), op);
    }
  }

  /** The same record without a stamp that is too large to be a duration. */
  function Cleaned(op: Op): Op {
    op.(stamp := Usable(op.stamp))
  }

  function AllCleaned(ops: seq<Op>): seq<Op> {
    seq(|ops|, i requires 0 <= i < |ops| => Cleaned(ops[i]))
  }

  predicate SameDistributions(a: Readings, b: Readings) {
    && a.sendToRecv == b.sendToRecv && a.recvToPublish == b.recvToPublish
    && a.publishToSeen == b.publishToSeen && a.total == b.total
    && a.lastTotal == b.lastTotal && a.truncated == b.truncated && a.stamped == b.stamped
  }

  lemma StepCleaned(a: Readings, b: Readings, op: Op)
    requires SameDistributions(a, b)
    ensures SameDistributions(Step(a, op), Step(b, Cleaned(op)))
  {
    hide Missed, SaturatingAdd;
    assert StageOne(op.stamp) == StageOne(Cleaned(op).stamp) && Listed(op.stamp) == Listed(Cleaned(op).stamp);
  }

  /** A rejected stamp contributes nothing, in any run: every distribution, corrections
      included, is what it would have been had the stamp been absent. */
  lemma {:induction false} ImplausibleStampsVanish(ops: seq<Op>)
    ensures SameDistributions(Run(ops), Run(AllCleaned(ops)))
  {
    if ops != [] {
      hide Step, Cleaned, SameDistributions;
      var front, op := ops[..|ops| - 1], ops[|ops| - 1];
      assert AllCleaned(ops)[..|ops| - 1] == AllCleaned(front);
      ImplausibleStampsVanish(front);
      StepCleaned(Run(front), Run(AllCleaned(front)), op);
    } else {
      assert AllCleaned(ops) == [];
    }
  }

  /** What one record says about each stage by itself. */
  function StageTwo(op: Op): seq<u64> {
    if op.AtSink? then [] else [op.recvToPublish]
  }

  function StageThree(op: Op): seq<u64> {
    if op.AtSource? then [] else [op.publishToSeen]
  }

  function StageOneOf(op: Op): seq<u64> {
    if op.AtSink? then [] else Listed(op.stamp)
  }

  function Gathered(ops: seq<Op>, stage: Op -> seq<u64>): seq<u64> {
    if ops == [] then [] else Gathered(ops[..|ops| - 1], stage) + stage(ops[|ops| - 1])
  }

  lemma StepStages(r: Readings, op: Op)
    ensures Step(r, op).sendToRecv == r.sendToRecv + StageOneOf(op)
    ensures Step(r, op).recvToPublish == r.recvToPublish + StageTwo(op)
    ensures Step(r, op).publishToSeen == r.publishToSeen + StageThree(op)
  {
    hide Missed, SaturatingAdd;
  }

  /** The stages never mix: each distribution holds that stage's readings in order, and no
      correction reaches it. */
  lemma {:induction false} StagesAreSeparate(ops: seq<Op>)
    ensures Run(ops).sendToRecv == Gathered(ops, StageOneOf)
    ensures Run(ops).recvToPublish == Gathered(ops, StageTwo)
    ensures Run(ops).publishToSeen == Gathered(ops, StageThree)
  {
    if ops != [] {
      hide Step, StageOneOf, StageTwo, StageThree;
      StagesAreSeparate(ops[..|ops| - 1]);
      StepStages(Run(ops[..|ops| - 1]), ops[|ops| - 1]);
    }
  }

  /** Every record's stamp is counted exactly once. */
  lemma {:induction false} StampsAddUp(ops: seq<Op>)
    ensures Run(ops).stamped + Run(ops).unstamped + Run(ops).implausible == |ops|
    ensures |Run(ops).sendToRecv| <= Run(ops).stamped
    ensures (forall op :: op in ops ==> !op.AtSink?) ==> |Run(ops).sendToRecv| == Run(ops).stamped
  {
    if ops != [] {
      hide Step;
      var front, op := ops[..|ops| - 1], ops[|ops| - 1];
      StampsAddUp(front);
      StepStamps(Run(front), op);
      assert forall o :: o in front ==> o in ops;
    }
  }

  lemma StepStamps(r: Readings, op: Op)
    ensures var r' := Step(r, op);
            && r'.stamped + r'.unstamped + r'.implausible == r.stamped + r.unstamped + r.implausible + 1
            && |r'.sendToRecv| - |r.sendToRecv| <= r'.stamped - r.stamped
            && (!op.AtSink? ==> |r'.sendToRecv| - |r.sendToRecv| == r'.stamped - r.stamped)
  {
    hide Missed, SaturatingAdd;
  }

  /** What one record does to everything the tracker keeps but the correction: a stamp under a
      second is stage one, any other stands for nothing; the total is the stages the caller
      could see, added without overflow. */
  lemma RecordMeans(r: Readings, op: Op)
    ensures var t, usable := Step(r, op), op.stamp.Some? && op.stamp.value < 1_000_000_000;
            var one := if usable then op.stamp.value else 0;
            && t.stamped == r.stamped + (if usable then 1 else 0)
            && t.unstamped == r.unstamped + (if op.stamp.None? then 1 else 0)
            && t.implausible == r.implausible + (if op.stamp.Some? && op.stamp.value >= 1_000_000_000 then 1 else 0)
            && t.sendToRecv == r.sendToRecv + (if usable && !op.AtSink? then [op.stamp.value] else [])
            && t.recvToPublish == r.recvToPublish + (if op.AtSink? then [] else [op.recvToPublish])
            && t.publishToSeen == r.publishToSeen + (if op.AtSource? then [] else [op.publishToSeen])
            && |t.total| > |r.total| && t.total[..|r.total|] == r.total
            && t.total[|r.total|] == Min(U64_MAX, one + (match op
                                                         case AtSource(_, recv, _) => recv
                                                         case AtSink(_, ingress, seen) => ingress + seen
                                                         case AtOnce(_, recv, seen, _) => recv + seen))
            && t.lastTotal == (if op.AtSink? then r.lastTotal else t.total[|r.total|])
  {
    hide Missed;
  }

  /** What the correction starts from is always the total of the record it follows, whatever
      was remembered before: a subscriber's reading, which is not remembered, never shows in
      one. */
  lemma CorrectionStartsFromItsRecord(r: Readings, op: Op)
    ensures Step(r, op).total == r.total + [TotalOf(op)] + (if op.AtSink? then [] else Missed(TotalOf(op), op.interval))
    ensures !op.AtSink? ==> Step(r, op).truncated - r.truncated == if |Missed(TotalOf(op), op.interval)| == MAX_BACKFILL_SAMPLES then 1 else 0
    ensures op.AtSink? ==> Step(r, op).lastTotal == r.lastTotal && Step(r, op).truncated == r.truncated
  {
    hide SaturatingAdd;
    assert r.total + [TotalOf(op)] + [] == r.total + [TotalOf(op)];
  }

  // ---------------------------------------------------------------------------
  // The tracker in place
  // ---------------------------------------------------------------------------

  class LatencyTracker {
    const sendToRecv: Histogram
    const recvToPublish: Histogram
    const publishToSeen: Histogram
    const total: Histogram
    var stamped: nat
    var unstamped: nat
    var implausible: nat
    var lastTotal: u64
    var truncated: nat

    ghost function Objects(): set<object> {
      {sendToRecv, recvToPublish, publishToSeen, total,
       sendToRecv.counts, recvToPublish.counts, publishToSeen.counts, total.counts}
    }

    ghost predicate Separate() {
      && sendToRecv != recvToPublish && sendToRecv != publishToSeen && sendToRecv != total
      && recvToPublish != publishToSeen && recvToPublish != total && publishToSeen != total
      && sendToRecv.counts != recvToPublish.counts && sendToRecv.counts != publishToSeen.counts
      && sendToRecv.counts != total.counts && recvToPublish.counts != publishToSeen.counts
      && recvToPublish.counts != total.counts && publishToSeen.counts != total.counts
    }

    ghost predicate Valid()
      reads this, Objects()
    {
      Separate() && sendToRecv.Valid() && recvToPublish.Valid() && publishToSeen.Valid() && total.Valid()
    }

    ghost function Abstract(): Readings
      reads this, Objects()
    {
      Readings(sendToRecv.samples, recvToPublish.samples, publishToSeen.samples, total.samples,
               stamped, unstamped, implausible, lastTotal, truncated)
    }

    constructor (m: BucketMap)
      requires Good(m)
      ensures Valid() && Abstract() == NoReadings && fresh(Objects())
    {
      sendToRecv := new Histogram(m);
      recvToPublish := new Histogram(m);
      publishToSeen := new Histogram(m);
      total := new Histogram(m);
      stamped, unstamped, implausible, lastTotal, truncated := 0, 0, 0, 0, 0;
    }

    /** Which of the three counters a stamp belongs to, and its duration if it has one. */
    method ClassifyStamp(stamp: Option<u64>) returns (ns: Option<u64>)
      requires Valid()
      modifies this`stamped, this`unstamped, this`implausible
      ensures Valid() && ns == Usable(stamp) && Abstract() == Counted(old(Abstract()), stamp)
    {
      hide Histogram.Valid;
      match stamp
      case Some(v) =>
        if v < IMPLAUSIBLE_STAGE_NS {
          stamped := stamped + 1;
          ns := Some(v);
        } else {
          implausible := implausible + 1;
          ns := None;
        }
      case None =>
        unstamped := unstamped + 1;
        ns := None;
    }

    method RecordSource(stamp: Option<u64>, recv: u64)
      requires Valid()
      modifies this, Objects()
      ensures Valid() && Abstract() == Source(old(Abstract()), stamp, recv)
    {
      hide Histogram.Valid, SaturatingAdd;
      recvToPublish.Record(recv);
      var known := ClassifyStamp(stamp);
      var stageOne := 0;
      if known.Some? {
        sendToRecv.Record(known.value);
        stageOne := known.value;
      }
      var classified := SaturatingAdd(stageOne, recv);
      total.Record(classified);
      lastTotal := classified;
    }

    method RecordSink(stamp: Option<u64>, ingress: u64, seen: u64)
      requires Valid()
      modifies this, Objects()
      ensures Valid() && Abstract() == Sink(old(Abstract()), stamp, ingress, seen)
    {
      hide Histogram.Valid, SaturatingAdd;
      publishToSeen.Record(seen);
      var known := ClassifyStamp(stamp);
      var stageOne := match known case Some(ns) => ns case None => 0;
      total.Record(Add3(stageOne, ingress, seen));
    }

    method RecordAll(stamp: Option<u64>, recv: u64, seen: u64)
      requires Valid()
      modifies this, Objects()
      ensures Valid() && Abstract() == Whole(old(Abstract()), stamp, recv, seen)
    {
      hide Histogram.Valid, SaturatingAdd;
      recvToPublish.Record(recv);
      publishToSeen.Record(seen);
      var known := ClassifyStamp(stamp);
      var stageOne := 0;
      if known.Some? {
        sendToRecv.Record(known.value);
        stageOne := known.value;
      }
      var classified := Add3(stageOne, recv, seen);
      total.Record(classified);
      lastTotal := classified;
    }

    /** The correction's bounded walk down from what was observed. */
    method Backfill(interval: u64)
      requires Valid()
      modifies this`truncated, total, total.counts
      ensures Valid() && Abstract() == Backfilled(old(Abstract()), interval)
    {
      hide Histogram.Valid, Missed;
      NothingMissed(lastTotal, interval);
      if interval == 0 {
        return;
      }
      var observed := lastTotal;
      if observed <= interval {
        return;
      }
      ghost var missed := Missed(observed, interval);
      MissedIsExact(observed, interval);
      var missing: int := observed - interval;
      var inserted: nat := 0;
      while missing >= interval && inserted < MAX_BACKFILL_SAMPLES
        modifies total, total.counts
        invariant inserted <= |missed| && missing == observed - (inserted + 1) * interval && 0 <= missing <= observed
        invariant total.Valid() && total.samples == old(total.samples) + missed[..inserted]
      {
        StillMissing(observed, interval, inserted);
        total.Record(missing);
        missing := missing - interval;
        inserted := inserted + 1;
      }
      DoneMissing(observed, interval, inserted);
      if inserted >= MAX_BACKFILL_SAMPLES {
        truncated := truncated + 1;
      }
    }

    method RecordSourceWithExpectedInterval(stamp: Option<u64>, recv: u64, interval: u64)
      requires Valid()
      modifies this, Objects()
      ensures Valid() && Abstract() == Step(old(Abstract()), AtSource(stamp, recv, interval))
    {
      hide Histogram.Valid, Source, Backfilled;
      RecordSource(stamp, recv);
      Backfill(interval);
    }

    method RecordWithExpectedInterval(stamp: Option<u64>, recv: u64, seen: u64, interval: u64)
      requires Valid()
      modifies this, Objects()
      ensures Valid() && Abstract() == Step(old(Abstract()), AtOnce(stamp, recv, seen, interval))
    {
      hide Histogram.Valid, Whole, Backfilled;
      RecordAll(stamp, recv, seen);
      Backfill(interval);
    }
  }

  lemma NothingMissed(observed: u64, interval: u64)
    ensures interval == 0 || observed <= interval ==> Missed(observed, interval) == []
  {
  }

  lemma StillMissing(observed: u64, interval: u64, n: nat)
    requires 0 < interval < observed && n <= |Missed(observed, interval)| && n < MAX_BACKFILL_SAMPLES
    requires observed - (n + 1) * interval >= interval
    ensures n < |Missed(observed, interval)|
    ensures Missed(observed, interval)[n] == observed - (n + 1) * interval
    ensures observed - (n + 1) * interval - interval == observed - (n + 2) * interval
  {
    hide Missed;
    MissedIsExact(observed, interval);
    assert (n + 2) * interval == (n + 1) * interval + interval;
  }

  lemma DoneMissing(observed: u64, interval: u64, n: nat)
    requires 0 < interval < observed && n <= |Missed(observed, interval)|
    requires observed - (n + 1) * interval < interval || n >= MAX_BACKFILL_SAMPLES
    ensures n == |Missed(observed, interval)|
  {
    hide Missed;
    MissedIsExact(observed, interval);
    if n < |Missed(observed, interval)| {
      EachAtLeast(observed, interval, n);
    }
  }

  lemma EachAtLeast(observed: u64, interval: u64, n: nat)
    requires 0 < interval < observed && n < |Missed(observed, interval)|
    ensures observed - (n + 1) * interval >= interval && n < MAX_BACKFILL_SAMPLES
  {
    hide Missed;
    MissedIsExact(observed, interval);
    assert Missed(observed, interval)[n] >= interval;
  }
}
