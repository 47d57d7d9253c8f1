/** The append-only log across crashes, kills and reopens. The file is a byte sequence
    of which a front part is durable; a machine crash keeps any front part that is at
    least that long. */
module WriteAheadLog {
  import opened Arith
  import opened Codec
  import opened Framing

  const SYNC_EVERY: nat := 32
  const REPLAY_BATCH: nat := 256

  datatype SyncPolicy = NoSync | DataSync | FullSync

  datatype Disk = Disk(file: seq<byte>, durable: nat)

  function Flush(policy: SyncPolicy, d: Disk): Disk {
    if policy.NoSync? then d else d.(durable := |d.file|)
  }

  /** Cut the torn tail of a file that is about to be appended to. */
  function Trim(d: Disk): Disk {
    var whole := Whole(d.file) * MSG_SIZE;
    Disk(d.file[..whole], Min(d.durable, whole))
  }

  // ---------------------------------------------------------------------------
  // Replay
  // ---------------------------------------------------------------------------

  datatype Replayed = Replayed(records: seq<Msg>, recordsSeen: nat, rejected: nat, tornTailBytes: nat, bytes: nat)

  /** Decoding 256 records at a time gives what decoding the whole body at once does. */
  method Replay(file: seq<byte>, filler: Msg) returns (r: Replayed)
    ensures r.records == DecodeAll(file[..Whole(file) * MSG_SIZE])
    ensures r.recordsSeen == Whole(file) && r.rejected == Whole(file) - |r.records|
    ensures r.tornTailBytes == |file| - Whole(file) * MSG_SIZE && r.bytes == |file|
  {
    var whole := |file| / MSG_SIZE;
    var out := new Msg[REPLAY_BATCH](_ => filler);
    var records, seen, rejected, done := [], 0, 0, 0;
    ghost var body := file[..whole * MSG_SIZE];
    assert body[..0] == [];
    while done < whole
      invariant done <= whole && out.Length == REPLAY_BATCH
      invariant records == DecodeAll(body[..done * MSG_SIZE])
      invariant seen == done && |records| <= done && rejected == done - |records|
    {
      var next := Min(done + REPLAY_BATCH, whole);
      var chunk := file[done * MSG_SIZE..next * MSG_SIZE];
      assert chunk == body[done * MSG_SIZE..next * MSG_SIZE];
      DecodeAllRange(body, done, next);
      var stats := DecodeBatch(chunk, out);
      seen := seen + stats.records;
      rejected := rejected + stats.skipped;
      records := records + out[..stats.decoded];
      done := next;
    }
    assert body[..whole * MSG_SIZE] == body;
    r := Replayed(records, seen, rejected, |file| % MSG_SIZE, |file|);
  }

  // ---------------------------------------------------------------------------
  // Runs
  // ---------------------------------------------------------------------------

  /** `middle` holds between the write of an append and its automatic sync. */
  datatype Handle = Closed | Opened(policy: SyncPolicy, sinceSync: nat, middle: bool)

  /** `log` is what the file ought to hold: the records appended, less what a crash or
      a truncation took. `kills` counts the handles that went away without a sync since
      the last one, and `carried` the appends they left unsynced. */
  datatype State = State(disk: Disk, handle: Handle, log: seq<Msg>, kills: nat, carried: nat)

  datatype Action =
    | Open(truncate: bool, policy: SyncPolicy)
    | Write(m: Msg)
    | AutoSync
    | Sync
    | Close
    | Kill
    | ShortWrite(m: Msg, n: nat)
    | FailedWrite(m: Msg, n: nat)
    | Crash(keep: nat)

  const Empty: State := State(Disk([], 0), Closed, [], 0, 0)

  function Synced(s: State, h: Handle): State
    requires s.handle.Opened?
  {
    var s' := s.(disk := Flush(s.handle.policy, s.disk), handle := h);
    if s.handle.policy.NoSync? then s' else s'.(kills := 0, carried := 0)
  }

  function Killed(s: State): State
    requires s.handle.Opened?
  {
    s.(handle := Closed, kills := s.kills + 1, carried := s.carried + s.handle.sinceSync)
  }

  /** One event; an event that cannot happen in this state changes nothing. A short write
      ends in a kill, a failed one in the handle being dropped, which syncs. */
  function Step(s: State, a: Action): State {
    match a
    case Open(truncate, policy) =>
      if s.handle.Opened? then s
      else if truncate then State(Disk([], 0), Opened(policy, 0, false), [], 0, 0)
      else s.(disk := Trim(s.disk), handle := Opened(policy, 0, false))
    case Write(m) =>
      if s.handle.Closed? || s.handle.middle then s
      else s.(disk := s.disk.(file := s.disk.file + Encode(m)),
              handle := s.handle.(sinceSync := s.handle.sinceSync + 1, middle := true),
              log := s.log + [m])
    case AutoSync =>
      if s.handle.Closed? || !s.handle.middle then s
      else if s.handle.sinceSync >= SYNC_EVERY && !s.handle.policy.NoSync? then
        Synced(s, s.handle.(sinceSync := 0, middle := false))
      else s.(handle := s.handle.(middle := false))
    case Sync =>
      if s.handle.Closed? || s.handle.middle then s
      else Synced(s, s.handle.(sinceSync := 0))
    case Close =>
      if s.handle.Closed? || s.handle.middle then s else Synced(s, Closed)
    case Kill =>
      if s.handle.Closed? then s else Killed(s)
    case ShortWrite(m, n) =>
      if s.handle.Closed? || s.handle.middle || n >= MSG_SIZE then s
      else Killed(s.(disk := s.disk.(file := s.disk.file + Encode(m)[..n])))
    case FailedWrite(m, n) =>
      if s.handle.Closed? || s.handle.middle || n >= MSG_SIZE then s
      else Synced(s.(disk := s.disk.(file := s.disk.file + Encode(m)[..n])), Closed)
    case Crash(keep) =>
      if s.disk.durable <= keep <= |s.disk.file| then
        State(Disk(s.disk.file[..keep], keep), Closed,
              if keep / MSG_SIZE <= |s.log| then s.log[..keep / MSG_SIZE] else s.log, 0, 0)
      else s
  }

  function Run(events: seq<Action>): State {
    if events == [] then Empty else Step(Run(events[..|events| - 1]), events[|events| - 1])
  }

  function EncodeAll(log: seq<Msg>): (b: seq<byte>)
    ensures |b| == |log| * MSG_SIZE
  {
    if log == [] then [] else EncodeAll(log[..|log| - 1]) + Encode(log[|log| - 1])
  }

  /** The records that survive encoding: those with a right header. */
  function ValidOnly(log: seq<Msg>): seq<Msg> {
    if log == [] then []
    else ValidOnly(log[..|log| - 1]) + (if log[|log| - 1].Valid() then [log[|log| - 1]] else [])
  }

  lemma {:induction false} DecodeOfEncodeAll(log: seq<Msg>)
    ensures DecodeAll(EncodeAll(log)) == ValidOnly(log)
  {
    if log != [] {
      var front, m := log[..|log| - 1], log[|log| - 1];
      DecodeOfEncodeAll(front);
      DecodeAllConcat(EncodeAll(front), |front|, Encode(m));
      DecodeEncode(m);
      assert Encode(m)[..MSG_SIZE] == Encode(m) && Encode(m)[MSG_SIZE..] == [];
    }
  }

  lemma {:induction false} EncodeAllPrefix(log: seq<Msg>, k: nat)
    requires k <= |log|
    ensures EncodeAll(log[..k]) == EncodeAll(log)[..k * MSG_SIZE]
  {
    if k == |log| {
      assert log[..k] == log;
    } else {
      var front := log[..|log| - 1];
      EncodeAllPrefix(front, k);
      assert front[..k] == log[..k];
    }
  }

  predicate FileOk(s: State) {
    && s.disk.durable <= |s.disk.file|
    && Whole(s.disk.file) == |s.log|
    && s.disk.file[..|s.log| * MSG_SIZE] == EncodeAll(s.log)
    && (s.handle.Opened? ==> |s.disk.file| == |s.log| * MSG_SIZE)
  }

  type Consistent = s: State | FileOk(s) witness Empty

  /** How many records a crash right now could take. */
  function AtRisk(s: State): int {
    |s.log| - s.disk.durable / MSG_SIZE
  }

  function SinceSync(h: Handle): nat {
    if h.Opened? then h.sinceSync else 0
  }

  predicate RiskOk(s: State) {
    && AtRisk(s) == s.carried + SinceSync(s.handle)
    && (s.handle.Opened? ==>
          if s.handle.middle then 1 <= s.handle.sinceSync <= SYNC_EVERY else s.handle.sinceSync < SYNC_EVERY)
    && s.carried <= SYNC_EVERY * s.kills
  }

  lemma WriteKeepsFile(s: Consistent, m: Msg)
    ensures FileOk(Step(s, Write(m)))
  {
    if s.handle.Opened? && !s.handle.middle {
      assert (s.log + [m])[..|s.log|] == s.log;
      assert s.disk.file[..|s.log| * MSG_SIZE] == s.disk.file;
    }
  }

  lemma CrashKeepsFile(s: Consistent, keep: nat)
    ensures FileOk(Step(s, Crash(keep)))
  {
    if s.disk.durable <= keep <= |s.disk.file| {
      var k := keep / MSG_SIZE;
      EncodeAllPrefix(s.log, k);
      assert s.disk.file[..keep][..k * MSG_SIZE] == s.disk.file[..|s.log| * MSG_SIZE][..k * MSG_SIZE];
    }
  }

  /** Part of a record changes no whole one. */
  lemma TornKeepsFile(s: Consistent, m: Msg, n: nat)
    ensures FileOk(Step(s, ShortWrite(m, n))) && FileOk(Step(s, FailedWrite(m, n)))
  {
    hide Encode, EncodeAll;
    if s.handle.Opened? && n < MSG_SIZE {
      assert (s.disk.file + Encode(m)[..n])[..|s.log| * MSG_SIZE] == s.disk.file[..|s.log| * MSG_SIZE];
    }
  }

  lemma StepKeepsFile(s: Consistent, a: Action)
    ensures FileOk(Step(s, a))
  {
    hide Encode, EncodeAll;
    match a
    case Write(m) => WriteKeepsFile(s, m);
    case ShortWrite(m, n) => TornKeepsFile(s, m, n);
    case FailedWrite(m, n) => TornKeepsFile(s, m, n);
    case Crash(keep) => CrashKeepsFile(s, keep);
    case _ =>
  }

  lemma {:induction false} RunKeepsFile(events: seq<Action>)
    ensures FileOk(Run(events))
  {
    if events != [] {
      RunKeepsFile(events[..|events| - 1]);
      StepKeepsFile(Run(events[..|events| - 1]), events[|events| - 1]);
    }
  }

  /** After any run of events, replaying the file returns exactly the surviving records,
      rejecting only those appended with a wrong header, and reports the torn bytes. */
  lemma ReplayIsLog(events: seq<Action>)
    ensures var s := Run(events);
            && DecodeAll(s.disk.file[..Whole(s.disk.file) * MSG_SIZE]) == ValidOnly(s.log)
            && Whole(s.disk.file) == |s.log|
            && ((forall m :: m in s.log ==> m.Valid()) ==> ValidOnly(s.log) == s.log)
  {
    RunKeepsFile(events);
    var s := Run(events);
    DecodeOfEncodeAll(s.log);
    if forall m :: m in s.log ==> m.Valid() {
      AllValid(s.log);
    }
  }

  lemma {:induction false} AllValid(log: seq<Msg>)
    requires forall m :: m in log ==> m.Valid()
    ensures ValidOnly(log) == log
  {
    if log != [] {
      AllValid(log[..|log| - 1]);
      assert log[|log| - 1] in log;
    }
  }

  /** What each event does to the surviving records: an append adds one at the end, a
      crash keeps exactly the whole records of what it keeps, which is every durable one at
      least, truncating forgets them, and nothing else touches them. */
  lemma LogHistory(s: Consistent, a: Action)
    ensures match a
            case Write(m) => Step(s, a).log == if s.handle.Opened? && !s.handle.middle then s.log + [m] else s.log
            case Crash(keep) =>
              if s.disk.durable <= keep <= |s.disk.file|
              then Step(s, a).log == s.log[..keep / MSG_SIZE] && keep / MSG_SIZE >= s.disk.durable / MSG_SIZE
              else Step(s, a).log == s.log
            case Open(truncate, _) => Step(s, a).log == if s.handle.Closed? && truncate then [] else s.log
            case _ => Step(s, a).log == s.log
  {
  }

  /** What each event does to what is durable and to what is owed a sync. */
  lemma DurableHistory(s: Consistent, a: Action)
    ensures var t, live := Step(s, a), s.handle.Opened? && !s.handle.middle;
            var syncs := s.handle.Opened? && !s.handle.policy.NoSync?;
            match a
            case Write(m) => live ==> t.disk.durable == s.disk.durable && t.handle.Opened? && t.handle.sinceSync == s.handle.sinceSync + 1
            case AutoSync =>
              s.handle.Opened? && s.handle.middle ==>
                && t.handle.Opened? && !t.handle.middle && t.disk.file == s.disk.file
                && (if syncs && s.handle.sinceSync >= 32
                    then t.disk.durable == |t.disk.file| && t.handle.sinceSync == t.kills == t.carried == 0
                    else t.disk == s.disk && t.handle.sinceSync == s.handle.sinceSync && t.kills == s.kills && t.carried == s.carried)
            case Sync => live ==> t.handle.Opened? && t.handle.sinceSync == 0 && t.disk.file == s.disk.file && Settles(s, t, syncs)
            case Close => live ==> t.handle.Closed? && t.disk.file == s.disk.file && Settles(s, t, syncs)
            case FailedWrite(_, n) => live && n < 72 ==> t.handle.Closed? && |t.disk.file| == |s.disk.file| + n && Settles(s, t, syncs)
            case Kill => s.handle.Opened? ==> t.disk == s.disk && t.handle.Closed? && t.kills == s.kills + 1 && t.carried == s.carried + s.handle.sinceSync
            case ShortWrite(_, n) =>
              live && n < 72 ==>
                && t.disk.durable == s.disk.durable && |t.disk.file| == |s.disk.file| + n && t.handle.Closed?
                && t.kills == s.kills + 1 && t.carried == s.carried + s.handle.sinceSync
            case Crash(keep) =>
              s.disk.durable <= keep <= |s.disk.file| ==>
                t.disk.file == s.disk.file[..keep] && t.disk.durable == keep && t.handle.Closed? && t.kills == t.carried == 0
            case Open(truncate, policy) =>
              s.handle.Closed? ==>
                && t.handle == Opened(policy, 0, false)
                && (if truncate then t.disk.file == [] && t.disk.durable == t.kills == t.carried == 0
                    else |t.disk.file| == |s.disk.file| / 72 * 72 && t.disk.file == s.disk.file[..|t.disk.file|]
                         && t.disk.durable == Min(s.disk.durable, |t.disk.file|) && t.kills == s.kills && t.carried == s.carried)
  {
    hide Encode, EncodeAll;
  }

  /** A sync under a policy that syncs makes the whole file durable and owes nothing more; under
      the other it changes nothing. */
  predicate Settles(s: State, t: State, syncs: bool) {
    if syncs then t.disk.durable == |t.disk.file| && t.kills == t.carried == 0
    else t.disk.durable == s.disk.durable && t.kills == s.kills && t.carried == s.carried
  }

  /** Nothing in these events takes records away. */
  predicate KeepsAll(events: seq<Action>) {
    forall a :: a in events ==> !a.Crash? && !(a.Open? && a.truncate)
  }

  /** The records that `later` really appends after `events`. */
  function Appended(events: seq<Action>, later: seq<Action>): seq<Msg> {
    if later == [] then []
    else
      var front, a := later[..|later| - 1], later[|later| - 1];
      var h := Run(events + front).handle;
      Appended(events, front) + (if a.Write? && h.Opened? && !h.middle then [a.m] else [])
  }

  lemma RunAppend(events: seq<Action>, a: Action)
    ensures Run(events + [a]) == Step(Run(events), a)
  {
    assert (events + [a])[..|events|] == events;
  }

  lemma {:induction false} LogGrows(events: seq<Action>, later: seq<Action>)
    requires KeepsAll(later)
    ensures Run(events + later).log == Run(events).log + Appended(events, later)
  {
    hide Run, Step, FileOk;
    if later == [] {
      assert events + later == events;
      assert Run(events).log + [] == Run(events).log;
    } else {
      var front, a := later[..|later| - 1], later[|later| - 1];
      assert events + later == (events + front) + [a];
      assert a in later && forall x :: x in front ==> x in later;
      LogGrows(events, front);
      RunAppend(events + front, a);
      RunKeepsFile(events + front);
      LogHistory(Run(events + front), a);
    }
  }

  /** Recovery: a machine crash at any byte, then anything but another crash or a
      truncation. What replay returns is a front part of what was there, every durable
      record included, followed by what was appended afterwards. */
  lemma CrashThenAppend(events: seq<Action>, keep: nat, later: seq<Action>)
    requires Run(events).disk.durable <= keep <= |Run(events).disk.file| && KeepsAll(later)
    ensures var before, after := Run(events), Run(events + [Crash(keep)] + later);
            var kept := keep / MSG_SIZE;
            && before.disk.durable / MSG_SIZE <= kept <= |before.log|
            && after.log == before.log[..kept] + Appended(events + [Crash(keep)], later)
            && DecodeAll(after.disk.file[..Whole(after.disk.file) * MSG_SIZE]) == ValidOnly(after.log)
  {
    hide Run, Step, Appended, ValidOnly;
    RunKeepsFile(events);
    RunAppend(events, Crash(keep));
    LogHistory(Run(events), Crash(keep));
    LogGrows(events + [Crash(keep)], later);
    ReplayIsLog(events + [Crash(keep)] + later);
  }

  /** Every handle was opened under a policy that syncs. */
  predicate AlwaysSyncs(events: seq<Action>) {
    forall a :: a in events && a.Open? ==> !a.policy.NoSync?
  }

  lemma StepKeepsRisk(s: Consistent, a: Action)
    requires RiskOk(s)
    requires s.handle.Opened? ==> !s.handle.policy.NoSync?
    requires a.Open? ==> !a.policy.NoSync?
    ensures RiskOk(Step(s, a))
    ensures Step(s, a).handle.Opened? ==> !Step(s, a).handle.policy.NoSync?
  {
  }

  lemma {:induction false} RunKeepsRisk(events: seq<Action>)
    requires AlwaysSyncs(events)
    ensures RiskOk(Run(events))
    ensures Run(events).handle.Opened? ==> !Run(events).handle.policy.NoSync?
  {
    if events != [] {
      var front := events[..|events| - 1];
      RunKeepsRisk(front);
      RunKeepsFile(front);
      StepKeepsRisk(Run(front), events[|events| - 1]);
    }
  }

  /** What a crash that keeps the bytes up to `keep` takes. */
  function Loss(s: State, keep: nat): int {
    |s.log| - |Step(s, Crash(keep)).log|
  }

  /** Under the syncing policies the most a crash can take is exactly the appends the open
      handle has not synced and those that killed handles left behind since the last sync;
      so it takes at most 32, as documented, if and only if those together are at most 32. */
  lemma CrashLossExactly(events: seq<Action>)
    requires AlwaysSyncs(events)
    ensures var s := Run(events);
            && Loss(s, s.disk.durable) == s.carried + SinceSync(s.handle)
            && (forall keep: nat :: Loss(s, keep) <= s.carried + SinceSync(s.handle))
    ensures var s := Run(events);
            (forall keep: nat :: Loss(s, keep) <= 32) <==> s.carried + SinceSync(s.handle) <= 32
  {
    RunKeepsRisk(events);
    RunKeepsFile(events);
    var s := Run(events);
    assert s.disk.durable / MSG_SIZE <= |s.log|;
  }

  /** Each killed handle leaves at most 32, so a crash takes at most 32 for the open handle
      and 32 for each handle killed since the last sync. */
  lemma CrashLossBounded(events: seq<Action>, keep: nat)
    requires AlwaysSyncs(events)
    ensures Loss(Run(events), keep) <= 32 * (Run(events).kills + 1)
  {
    hide Loss;
    RunKeepsRisk(events);
    CrashLossExactly(events);
  }

  /** A run past the documented bound: one handle killed after 31 appends and the next one
      left open after 31 more are 62 records that one crash takes. */
  lemma KillsAddUp(m: Msg) returns (events: seq<Action>)
    ensures AlwaysSyncs(events) && |Run(events).log| == 62 && Run(events).kills == 1
    ensures Loss(Run(events), 0) == 62
  {
    hide Encode, EncodeAll, DecodeAll;
    var first := [Open(false, DataSync)];
    assert first[..0] == [];
    var a := Appends(first, m, 31);
    var b := a + [Kill] + [Open(false, DataSync)];
    assert (a + [Kill])[..|a|] == a && b[..|b| - 1] == a + [Kill];
    RunKeepsFile(a + [Kill]);
    events := Appends(b, m, 31);
  }

  lemma {:induction false} Appends(events: seq<Action>, m: Msg, n: nat) returns (more: seq<Action>)
    requires n < SYNC_EVERY && AlwaysSyncs(events)
    requires Run(events).handle == Opened(DataSync, 0, false)
    ensures AlwaysSyncs(more)
    ensures Run(more).handle == Opened(DataSync, n, false)
    ensures |Run(more).log| == |Run(events).log| + n
    ensures Run(more).disk.durable == Run(events).disk.durable && Run(more).kills == Run(events).kills
  {
    more := events;
    if n > 0 {
      var before := Appends(events, m, n - 1);
      var written := before + [Write(m)];
      more := written + [AutoSync];
      assert written[..|before|] == before && more[..|written|] == written;
    }
  }

  // ---------------------------------------------------------------------------
  // The log handle
  // ---------------------------------------------------------------------------

  /** An open handle and its file. The ghost fields carry the run it is part of. */
  class Wal {
    var file: seq<byte>
    ghost var durable: nat
    const policy: SyncPolicy
    var sinceSync: nat
    var appended: nat
    ghost var log: seq<Msg>
    ghost var kills: nat
    ghost var carried: nat

    ghost function OnDisk(): Disk
      reads this
    {
      Disk(file, durable)
    }

    /** The run so far, with the handle open and no append half done. */
    ghost function Abstract(): State
      reads this
    {
      State(OnDisk(), Opened(policy, sinceSync, false), log, kills, carried)
    }

    /** Open what a run has left on disk, starting over or cutting a torn tail. */
    constructor (onDisk: seq<byte>, truncate: bool, policy: SyncPolicy, ghost before: State)
      requires before.handle.Closed? && before.disk.file == onDisk
      ensures Abstract() == Step(before, Open(truncate, policy))
      ensures appended == 0
    {
      this.policy := policy;
      sinceSync, appended := 0, 0;
      file := if truncate then [] else onDisk[..|onDisk| - |onDisk| % MSG_SIZE];
      durable := if truncate then 0 else Trim(before.disk).durable;
      log := if truncate then [] else before.log;
      kills := if truncate then 0 else before.kills;
      carried := if truncate then 0 else before.carried;
    }

    method Append(m: Msg)
      modifies this
      ensures Abstract() == Step(Step(old(Abstract()), Write(m)), AutoSync)
      ensures appended == old(appended) + 1
    {
      var wire := EncodeWire(m);
      file := file + wire[..];
      log := log + [m];
      appended := appended + 1;
      sinceSync := sinceSync + 1;
      if sinceSync >= SYNC_EVERY && policy != NoSync {
        Sync();
      }
    }

    method Sync()
      modifies this`durable, this`sinceSync, this`kills, this`carried
      ensures Abstract() == Step(old(Abstract()), Action.Sync)
    {
      if policy != NoSync {
        durable := |file|;
        kills, carried := 0, 0;
      }
      sinceSync := 0;
    }

    /** What happens as the handle goes away. */
    method Drop()
      modifies this`durable, this`sinceSync, this`kills, this`carried
      ensures Abstract().(handle := Closed) == Step(old(Abstract()), Close)
    {
      Sync();
    }
  }
}
