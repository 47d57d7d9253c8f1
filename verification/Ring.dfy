/** The shared-memory bus as interleaved steps: one writer, any number of readers, no
    locks. A slot is 72 bytes; the writer stores and a reader copies them in any order
    and in pieces of any size, so both a byte at a time and a whole slot at once are
    runs of this machine. The memory is sequentially consistent, and the 64-bit
    publish counter does not wrap. */
module RingProtocol {
  import opened Arith
  import opened Codec

  /** The writer is between publishes, or is storing record number `wseq`. */
  datatype Writer = Idle | Writing(m: Msg, todo: set<nat>)

  datatype Shared = Shared(slots: seq<seq<byte>>, wseq: nat, writer: Writer, log: seq<Msg>)

  /** A record a reader was handed. `clear` says that, when its copy ended, the writer had
      not started on the record that reuses the slot. */
  datatype Taken = Taken(cursor: nat, m: Msg, clear: bool)

  datatype ReaderPc = Resting | Copying(written: nat, wire: seq<byte>, todo: set<nat>)

  datatype Reader = Reader(cursor: nat, pc: ReaderPc, taken: seq<Taken>)

  datatype State = State(sh: Shared, readers: seq<Reader>)

  datatype Action =
    | Begin(m: Msg)
    | Store(bytes: set<nat>)
    | Release
    | Join(cursor: nat)
    | Acquire(r: nat)
    | Copy(r: nat, bytes: set<nat>)

  const ALL: set<nat> := set i: nat | i < MSG_SIZE

  function Init(capacity: pos): State {
    State(Shared(seq(capacity, _ => seq(MSG_SIZE, _ => 0)), 0, Idle, []), [])
  }

  /** What `publish` makes of the caller's record: header fixed, number assigned. */
  function Stamped(m: Msg, number: u64): Msg {
    m.(magic := MAGIC, nbytes := MSG_SIZE, seqno := number)
  }

  /** `base` with the bytes at the given offsets taken from `from`. */
  function Overlay(base: seq<byte>, from: seq<byte>, offsets: set<nat>): seq<byte>
    requires |base| == |from|
  {
    seq(|base|, i requires 0 <= i < |base| => if i in offsets then from[i] else base[i])
  }

  function Capacity(sh: Shared): nat {
    |sh.slots|
  }

  /** The record that will reuse the slot of record `n` has not been started. */
  predicate NotOvertaken(sh: Shared, n: nat) {
    sh.wseq < n + Capacity(sh) || (sh.wseq == n + Capacity(sh) && sh.writer.Idle?)
  }

  function StepWriter(sh: Sound, a: Action): Shared
  {
    match a
    case Begin(m) =>
      if sh.writer.Idle? && sh.wseq + 1 < U64 then sh.(writer := Writing(Stamped(m, sh.wseq), ALL)) else sh
    case Store(bytes) =>
      if sh.writer.Idle? then sh
      else
        var i := sh.wseq % Capacity(sh);
        var slot := Overlay(sh.slots[i], Encode(sh.writer.m), bytes * sh.writer.todo);
        sh.(slots := sh.slots[i := slot], writer := sh.writer.(todo := sh.writer.todo - bytes))
    case Release =>
      if sh.writer.Writing? && sh.writer.todo == {} then
        sh.(wseq := sh.wseq + 1, writer := Idle, log := sh.log + [sh.writer.m])
      else sh
    case _ => sh
  }

  /** Load the publish counter: nothing new, lapped, or start copying. */
  function StepAcquire(sh: Shared, rd: Reader): Reader {
    if !rd.pc.Resting? || rd.cursor >= sh.wseq then rd
    else if sh.wseq - rd.cursor > Capacity(sh) then rd.(cursor := sh.wseq - Capacity(sh))
    else rd.(pc := Copying(sh.wseq, seq(MSG_SIZE, _ => 0), ALL))
  }

  /** Copy some bytes; when the last one is there, decode and decide. */
  function StepCopy(sh: Sound, rd: Reader, bytes: set<nat>): Reader
    requires (rd.pc.Copying? ==> |rd.pc.wire| == MSG_SIZE)
  {
    if rd.pc.Resting? then rd
    else
      var wire := Overlay(rd.pc.wire, sh.slots[rd.cursor % Capacity(sh)], bytes * rd.pc.todo);
      if rd.pc.todo - bytes != {} then rd.(pc := Copying(rd.pc.written, wire, rd.pc.todo - bytes))
      else Decide(rd, wire, NotOvertaken(sh, rd.cursor))
  }

  /** The record is handed over exactly when it decodes and carries the number asked
      for; otherwise the reader skips to the count it loaded. */
  function Decide(rd: Reader, wire: seq<byte>, clear: bool): Reader
    requires rd.pc.Copying?
  {
    var d := Decode(wire);
    if d.Ok? && d.value.seqno == rd.cursor then
      Reader(rd.cursor + 1, Resting, rd.taken + [Taken(rd.cursor, d.value, clear)])
    else
      rd.(cursor := rd.pc.written, pc := Resting)
  }

  function Step(s: State, a: Action): State
    requires Inv(s)
  {
    match a
    case Join(cursor) =>
      if cursor <= s.sh.wseq then s.(readers := s.readers + [Reader(cursor, Resting, [])]) else s
    case Acquire(r) =>
      if r < |s.readers| then s.(readers := s.readers[r := StepAcquire(s.sh, s.readers[r])]) else s
    case Copy(r, bytes) =>
      if r < |s.readers| then s.(readers := s.readers[r := StepCopy(s.sh, s.readers[r], bytes)]) else s
    case _ => s.(sh := StepWriter(s.sh, a))
  }

  // ---------------------------------------------------------------------------
  // The invariant
  // ---------------------------------------------------------------------------

  /** Every record still in the ring fills its slot exactly, unless the writer is
      storing over it; there the bytes already stored are the new record's. */
  ghost predicate SharedOk(sh: Shared) {
    && Capacity(sh) > 0
    && (forall i :: 0 <= i < Capacity(sh) ==> |sh.slots[i]| == MSG_SIZE)
    && |sh.log| == sh.wseq < U64
    && (forall n :: 0 <= n < sh.wseq ==> sh.log[n].Valid() && sh.log[n].seqno == n)
    && (forall n :: 0 <= n < sh.wseq && NotOvertaken(sh, n) ==> sh.slots[n % Capacity(sh)] == Encode(sh.log[n]))
    && (sh.writer.Writing? ==>
          && sh.writer.m.Valid() && sh.writer.m.seqno == sh.wseq && sh.wseq + 1 < U64
          && sh.writer.todo <= ALL
          && (forall i :: 0 <= i < MSG_SIZE && i !in sh.writer.todo ==>
                sh.slots[sh.wseq % Capacity(sh)][i] == Encode(sh.writer.m)[i]))
  }

  type Sound = sh: Shared | SharedOk(sh) ghost witness Shared([seq(MSG_SIZE, _ => 0)], 0, Idle, [])

  /** While its slot has not been overtaken, what a reader has copied is the record's. */
  ghost predicate CopyOk(sh: Sound, rd: Reader)
  {
    rd.pc.Copying? ==>
      && |rd.pc.wire| == MSG_SIZE
      && rd.cursor < rd.pc.written <= sh.wseq
      && (NotOvertaken(sh, rd.cursor) ==>
            forall i :: 0 <= i < MSG_SIZE && i !in rd.pc.todo ==> rd.pc.wire[i] == Encode(sh.log[rd.cursor])[i])
  }

  ghost predicate TakenOk(sh: Shared, rd: Reader) {
    && rd.cursor <= sh.wseq
    && (forall i :: 0 <= i < |rd.taken| ==>
          && rd.taken[i].cursor < rd.cursor
          && rd.taken[i].cursor < |sh.log|
          && rd.taken[i].m.seqno == rd.taken[i].cursor
          && (rd.taken[i].clear ==> rd.taken[i].m == sh.log[rd.taken[i].cursor]))
    && (forall i, j :: 0 <= i < j < |rd.taken| ==> rd.taken[i].cursor < rd.taken[j].cursor)
  }

  ghost predicate ReaderOk(sh: Sound, rd: Reader)
  {
    CopyOk(sh, rd) && TakenOk(sh, rd)
  }

  ghost predicate Inv(s: State) {
    SharedOk(s.sh) && forall r :: 0 <= r < |s.readers| ==> ReaderOk(s.sh, s.readers[r])
  }

  lemma SlotOfAnother(sh: Shared, n: nat)
    requires n < sh.wseq && NotOvertaken(sh, n) && sh.writer.Writing? && Capacity(sh) > 0
    ensures n % Capacity(sh) != sh.wseq % Capacity(sh)
  {
    SlotsDistinct(sh.wseq, n, Capacity(sh));
  }

  lemma StoreKeepsShared(sh: Sound, bytes: set<nat>)
    ensures SharedOk(StepWriter(sh, Store(bytes)))
  {
    hide Encode;
    if sh.writer.Writing? {
      var sh' := StepWriter(sh, Store(bytes));
      forall n | 0 <= n < sh'.wseq && NotOvertaken(sh', n)
        ensures sh'.slots[n % Capacity(sh')] == Encode(sh'.log[n])
      {
        assert NotOvertaken(sh, n);
        SlotOfAnother(sh, n);
      }
    }
  }

  lemma ReleaseKeepsShared(sh: Sound)
    ensures SharedOk(StepWriter(sh, Release))
  {
    hide Encode;
    if sh.writer.Writing? && sh.writer.todo == {} {
      var sh' := StepWriter(sh, Release);
      var i := sh.wseq % Capacity(sh);
      assert sh.slots[i] == Encode(sh.writer.m);
      forall n | 0 <= n < sh'.wseq && NotOvertaken(sh', n)
        ensures sh'.slots[n % Capacity(sh')] == Encode(sh'.log[n])
      {
        assert n < sh.wseq ==> NotOvertaken(sh, n);
      }
    }
  }

  lemma WriterKeepsShared(sh: Sound, a: Action)
    ensures SharedOk(StepWriter(sh, a))
  {
    hide Encode;
    match a
    case Store(bytes) => StoreKeepsShared(sh, bytes);
    case Release => ReleaseKeepsShared(sh);
    case _ =>
      forall n | 0 <= n < sh.wseq && NotOvertaken(StepWriter(sh, a), n)
        ensures NotOvertaken(sh, n)
      {
      }
  }

  lemma WriterKeepsReader(sh: Sound, a: Action, rd: Reader)
    requires ReaderOk(sh, rd)
    ensures SharedOk(StepWriter(sh, a)) && ReaderOk(StepWriter(sh, a), rd)
  {
    hide Encode;
    WriterKeepsShared(sh, a);
    var sh' := StepWriter(sh, a);
    assert Capacity(sh') == Capacity(sh) && sh.log <= sh'.log;
    assert NotOvertaken(sh', rd.cursor) ==> NotOvertaken(sh, rd.cursor);
  }

  lemma AcquireKeepsReader(sh: Sound, rd: Reader)
    requires ReaderOk(sh, rd)
    ensures ReaderOk(sh, StepAcquire(sh, rd))
  {
  }

  /** A complete copy of a slot that was never overtaken is the record itself. */
  lemma ClearCopyDecodes(wire: seq<byte>, m: Msg)
    requires |wire| == MSG_SIZE && m.Valid()
    requires forall i :: 0 <= i < MSG_SIZE ==> wire[i] == Encode(m)[i]
    ensures Decode(wire) == Ok(m)
  {
    hide Encode, Decode;
    DecodeEncode(m);
    assert wire == Encode(m);
  }

  lemma CopyKeepsReader(sh: Sound, rd: Reader, bytes: set<nat>)
    requires ReaderOk(sh, rd)
    ensures ReaderOk(sh, StepCopy(sh, rd, bytes))
  {
    hide Encode, Decode;
    if rd.pc.Copying? {
      var wire := Overlay(rd.pc.wire, sh.slots[rd.cursor % Capacity(sh)], bytes * rd.pc.todo);
      if rd.pc.todo - bytes == {} && NotOvertaken(sh, rd.cursor) {
        forall i | 0 <= i < MSG_SIZE
          ensures wire[i] == Encode(sh.log[rd.cursor])[i]
        {
          assert i in rd.pc.todo ==> i !in rd.pc.todo - bytes;
        }
        ClearCopyDecodes(wire, sh.log[rd.cursor]);
      }
    }
  }

  lemma StepKeepsInv(s: State, a: Action)
    requires Inv(s)
    ensures Inv(Step(s, a))
  {
    hide SharedOk, ReaderOk, StepWriter, StepAcquire, StepCopy;
    match a
    case Join(cursor) => NewReaderOk(s.sh, cursor);
    case Acquire(r) => if r < |s.readers| { AcquireKeepsReader(s.sh, s.readers[r]); }
    case Copy(r, bytes) => if r < |s.readers| { CopyKeepsReader(s.sh, s.readers[r], bytes); }
    case _ =>
      WriterKeepsShared(s.sh, a);
      forall r | 0 <= r < |s.readers|
        ensures ReaderOk(StepWriter(s.sh, a), s.readers[r])
      {
        WriterKeepsReader(s.sh, a, s.readers[r]);
      }
  }

  lemma NewReaderOk(sh: Shared, cursor: nat)
    ensures SharedOk(sh) ==> (cursor <= sh.wseq ==> ReaderOk(sh, Reader(cursor, Resting, [])))
  {
  }

  ghost function Run(capacity: pos, schedule: seq<Action>): (s: State)
    ensures Inv(s)
  {
    if schedule == [] then Init(capacity)
    else
      var before := Run(capacity, schedule[..|schedule| - 1]);
      StepKeepsInv(before, schedule[|schedule| - 1]);
      Step(before, schedule[|schedule| - 1])
  }

  // ---------------------------------------------------------------------------
  // What a reader sees
  // ---------------------------------------------------------------------------

  /** In every interleaving each reader's sequence numbers strictly increase, name records
      already published, and never pass the publish counter; and a record whose copy
      ended before the slot was overtaken is exactly the one published under that
      number. */
  lemma ReadersSeePublished(capacity: pos, schedule: seq<Action>, r: nat, i: nat)
    requires r < |Run(capacity, schedule).readers|
    requires i < |Run(capacity, schedule).readers[r].taken|
    ensures var s := Run(capacity, schedule);
            var t := s.readers[r].taken;
            && t[i].m.seqno == t[i].cursor < s.readers[r].cursor <= s.sh.wseq == |s.sh.log|
            && (forall j :: 0 <= j < i ==> t[j].m.seqno < t[i].m.seqno)
            && (t[i].clear ==> t[i].m == s.sh.log[t[i].cursor])
  {
    var s := Run(capacity, schedule);
    assert ReaderOk(s.sh, s.readers[r]);
  }

  /** A reader loses a record only to the writer: while the slot is not overtaken the
      copy always yields the record asked for. */
  lemma ClearCopyIsFresh(sh: Sound, rd: Reader, bytes: set<nat>)
    requires ReaderOk(sh, rd) && rd.pc.Copying? && rd.pc.todo <= bytes
    requires NotOvertaken(sh, rd.cursor)
    ensures StepCopy(sh, rd, bytes).cursor == rd.cursor + 1
    ensures StepCopy(sh, rd, bytes).taken == rd.taken + [Taken(rd.cursor, sh.log[rd.cursor], true)]
  {
    hide Encode, Decode;
    var wire := Overlay(rd.pc.wire, sh.slots[rd.cursor % Capacity(sh)], bytes * rd.pc.todo);
    ClearCopyDecodes(wire, sh.log[rd.cursor]);
  }

  /** A second load of the publish counter after the copy is enough to know: if it is
      still less than a lap ahead, the copy was clear. */
  lemma ReloadProvesClear(capacity: pos, schedule: seq<Action>, more: seq<Action>, n: nat)
    requires Run(capacity, schedule + more).sh.wseq < n + capacity
    ensures NotOvertaken(Run(capacity, schedule).sh, n)
  {
    CounterGrows(capacity, schedule, more);
  }

  lemma {:induction false} CounterGrows(capacity: pos, schedule: seq<Action>, more: seq<Action>)
    ensures Run(capacity, schedule).sh.wseq <= Run(capacity, schedule + more).sh.wseq
    ensures Capacity(Run(capacity, schedule).sh) == capacity
  {
    if more == [] {
      assert schedule + more == schedule;
      CapacityFixed(capacity, schedule);
    } else {
      CounterGrows(capacity, schedule, more[..|more| - 1]);
      assert (schedule + more)[..|schedule + more| - 1] == schedule + more[..|more| - 1];
    }
  }

  lemma {:induction false} CapacityFixed(capacity: pos, schedule: seq<Action>)
    ensures Capacity(Run(capacity, schedule).sh) == capacity
  {
    if schedule != [] {
      CapacityFixed(capacity, schedule[..|schedule| - 1]);
    }
  }

  // ---------------------------------------------------------------------------
  // From the caller's record to the reader's
  // ---------------------------------------------------------------------------

  /** `r` is `m` as it is published under a number: only the header and the number are new. */
  predicate Carries(r: Msg, m: Msg, number: nat) {
    && r.magic == MAGIC && r.nbytes == MSG_SIZE && r.seqno == number
    && r.kind == m.kind && r.side == m.side && r.tsNs == m.tsNs && r.traceId == m.traceId && r.spanId == m.spanId
    && r.pxE8 == m.pxE8 && r.qtyE8 == m.qtyE8 && r.symbol == m.symbol
  }

  /** The records the writer was called with, in order, the one being stored included. */
  ghost function Given(capacity: pos, schedule: seq<Action>): seq<Msg> {
    if schedule == [] then []
    else
      var front, a, sh := schedule[..|schedule| - 1], schedule[|schedule| - 1], Run(capacity, schedule[..|schedule| - 1]).sh;
      Given(capacity, front) + (if a.Begin? && sh.writer.Idle? && sh.wseq + 1 < U64 then [a.m] else [])
  }

  ghost predicate CarriesAll(sh: Shared, given: seq<Msg>) {
    && |given| == |sh.log| + (if sh.writer.Idle? then 0 else 1)
    && (forall n :: 0 <= n < |sh.log| ==> Carries(sh.log[n], given[n], n))
    && (sh.writer.Writing? ==> Carries(sh.writer.m, given[|sh.log|], |sh.log|))
  }

  lemma StepCarries(s: State, a: Action, given: seq<Msg>)
    requires Inv(s) && CarriesAll(s.sh, given)
    ensures CarriesAll(Step(s, a).sh, given + (if a.Begin? && s.sh.writer.Idle? && s.sh.wseq + 1 < U64 then [a.m] else []))
  {
    hide Encode, Overlay, StepCopy, StepAcquire;
  }

  lemma {:induction false} LogCarries(capacity: pos, schedule: seq<Action>)
    ensures CarriesAll(Run(capacity, schedule).sh, Given(capacity, schedule))
  {
    hide Inv, Step, CarriesAll;
    if schedule == [] {
      NothingGiven(capacity);
    } else {
      LogCarries(capacity, schedule[..|schedule| - 1]);
      StepCarries(Run(capacity, schedule[..|schedule| - 1]), schedule[|schedule| - 1], Given(capacity, schedule[..|schedule| - 1]));
    }
  }

  lemma NothingGiven(capacity: pos)
    ensures CarriesAll(Run(capacity, []).sh, Given(capacity, []))
  {
  }

  /** Over every run a record read before its slot was overtaken has the very fields the
      writer was called with: publishing changes the header and the number and nothing else. */
  lemma ReadersGetWhatWasGiven(capacity: pos, schedule: seq<Action>, r: nat, i: nat)
    requires r < |Run(capacity, schedule).readers|
    requires i < |Run(capacity, schedule).readers[r].taken|
    ensures var t, given := Run(capacity, schedule).readers[r].taken[i], Given(capacity, schedule);
            t.cursor < |given| && t.m.seqno == t.cursor
            && (t.clear ==>
                  && t.m.magic == MAGIC && t.m.nbytes == MSG_SIZE
                  && t.m.kind == given[t.cursor].kind && t.m.side == given[t.cursor].side && t.m.tsNs == given[t.cursor].tsNs
                  && t.m.traceId == given[t.cursor].traceId && t.m.spanId == given[t.cursor].spanId
                  && t.m.pxE8 == given[t.cursor].pxE8 && t.m.qtyE8 == given[t.cursor].qtyE8 && t.m.symbol == given[t.cursor].symbol)
  {
    hide Inv, Step;
    ReadersSeePublished(capacity, schedule, r, i);
    LogCarries(capacity, schedule);
  }

  /** One publish, nobody else scheduled: the caller's record is the next one in the log. */
  lemma PublishAlone(s: State, m: Msg)
    requires Inv(s) && s.sh.writer.Idle? && s.sh.wseq + 1 < U64
    ensures var a := Step(s, Begin(m));
            Inv(a) && Inv(Step(a, Store(ALL)))
            && var t := Step(Step(a, Store(ALL)), Release);
               && Inv(t) && t.sh.writer.Idle? && t.readers == s.readers && t.sh.wseq == s.sh.wseq + 1
               && t.sh.log[..s.sh.wseq] == s.sh.log && |t.sh.log| == s.sh.wseq + 1 && Carries(t.sh.log[s.sh.wseq], m, s.sh.wseq)
  {
    hide Encode;
    PublishOne(s, m);
    StepKeepsInv(Step(Step(s, Begin(m)), Store(ALL)), Release);
  }

  /** What one load of the counter decides. A reader that was lapped moves to the oldest
      record whose slot has not been reused, and takes nothing; one that was not starts
      copying the record at its cursor; one that has everything stays. */
  lemma AcquireDecides(sh: Sound, rd: Reader)
    requires rd.pc.Resting? && rd.cursor <= sh.wseq
    ensures var t := StepAcquire(sh, rd);
            && t.taken == rd.taken
            && (rd.cursor == sh.wseq ==> t == rd)
            && (t.pc.Copying? <==> rd.cursor < sh.wseq <= rd.cursor + Capacity(sh))
            && (t.pc.Copying? ==> t.cursor == rd.cursor && t.pc.written == sh.wseq && t.pc.todo == ALL)
            && (t.pc.Resting? && rd.cursor < sh.wseq ==>
                  rd.cursor < t.cursor <= sh.wseq && forall n :: 0 <= n < sh.wseq ==> (n >= t.cursor <==> StillThere(Capacity(sh), n, sh.wseq, false)))
  {
  }

  /** A finished copy that is not handed over moves the reader to the count it had loaded. */
  lemma StaleSkips(sh: Sound, rd: Reader, bytes: set<nat>)
    requires ReaderOk(sh, rd) && rd.pc.Copying? && rd.pc.todo <= bytes
    ensures var t := StepCopy(sh, rd, bytes);
            && t.pc.Resting?
            && (if t.taken == rd.taken then t.cursor == rd.pc.written else t.cursor == rd.cursor + 1 && t.taken[..|rd.taken|] == rd.taken)
  {
    hide Encode, Decode;
    assert rd.pc.todo - bytes == {};
  }

  /** A reader with something to read, the writer idle: two loads at most and one copy hand
      it the oldest record it can still have. */
  lemma ReadAlone(sh: Sound, rd: Reader)
    requires ReaderOk(sh, rd) && rd.pc.Resting? && rd.cursor < sh.wseq && sh.writer.Idle?
    ensures var first := StepAcquire(sh, rd);
            var second := if first.pc.Resting? then StepAcquire(sh, first) else first;
            var start := Max(rd.cursor, sh.wseq - Capacity(sh));
            && ReaderOk(sh, second) && second.pc.Copying? && second.pc.todo == ALL
            && StepCopy(sh, second, ALL) == Reader(start + 1, Resting, rd.taken + [Taken(start, sh.log[start], true)])
  {
    hide Encode, Decode, StepCopy;
    var first := StepAcquire(sh, rd);
    AcquireKeepsReader(sh, rd);
    AcquireKeepsReader(sh, first);
    var second := if first.pc.Resting? then StepAcquire(sh, first) else first;
    ClearCopyIsFresh(sh, second, ALL);
    StaleSkips(sh, second, ALL);
  }

  // ---------------------------------------------------------------------------
  // Where the sequence check is not enough
  // ---------------------------------------------------------------------------

  const FRONT: set<nat> := set i: nat | i < 56

  /** `older` with the size and symbol of `next`: what a copy cut at byte 56 decodes to. */
  function Torn(older: Msg, next: Msg): Msg {
    older.(qtyE8 := next.qtyE8, symbol := next.symbol)
  }

  lemma TornBytes(a: Msg, b: Msg)
    ensures forall i :: 0 <= i < 56 ==> Encode(Torn(a, b))[i] == Encode(a)[i]
    ensures forall i :: 56 <= i < MSG_SIZE ==> Encode(Torn(a, b))[i] == Encode(b)[i]
  {
    var front := ToLe(a.magic, 4) + ToLe(a.nbytes, 2) + [a.kind.Code()] + [a.side.Code()]
                 + ToLe(a.seqno, 8) + ToLe(a.tsNs, 8) + a.traceId + a.spanId + ToLe(AsU64(a.pxE8), 8);
    assert Encode(a) == front + ToLe(AsU64(a.qtyE8), 8) + a.symbol;
    assert Encode(Torn(a, b)) == front + ToLe(AsU64(b.qtyE8), 8) + b.symbol;
    EncodeSlices(b);
    assert forall i :: 56 <= i < 64 ==> Encode(b)[56..64][i - 56] == Encode(b)[i];
    assert forall i :: 64 <= i < 72 ==> Encode(b)[64..72][i - 64] == Encode(b)[i];
  }

  lemma Push(capacity: pos, schedule: seq<Action>, a: Action)
    ensures Run(capacity, schedule + [a]) == Step(Run(capacity, schedule), a)
  {
    assert (schedule + [a])[..|schedule|] == schedule;
  }

  /** Nothing but the writer's progress has changed: `count` more copies of a record. */
  ghost predicate Further(s: State, t: State, m: Msg, count: nat) {
    && t.readers == s.readers && t.sh.wseq == s.sh.wseq + count < U64 && t.sh.writer.Idle?
    && Capacity(t.sh) == Capacity(s.sh) && |s.sh.log| == s.sh.wseq && |t.sh.log| == t.sh.wseq
    && s.sh.log <= t.sh.log
    && forall i :: s.sh.wseq <= i < t.sh.wseq ==> t.sh.log[i] == Stamped(m, i)
  }

  lemma PublishOne(s: State, m: Msg)
    requires Inv(s) && s.sh.writer.Idle? && s.sh.wseq + 1 < U64
    ensures var a := Step(s, Begin(m));
            && Inv(a) && Inv(Step(a, Store(ALL)))
            && Further(s, Step(Step(a, Store(ALL)), Release), m, 1)
  {
    hide Encode;
    var a := Step(s, Begin(m));
    StepKeepsInv(s, Begin(m));
    StepKeepsInv(a, Store(ALL));
    assert ALL - ALL == {};
  }

  /** Publish the same record so many times after a schedule. */
  lemma {:induction false} PublishMany(capacity: pos, before: seq<Action>, m: Msg, count: nat) returns (schedule: seq<Action>)
    requires Run(capacity, before).sh.writer.Idle? && Run(capacity, before).sh.wseq + count < U64
    ensures Further(Run(capacity, before), Run(capacity, schedule), m, count)
  {
    hide Inv, SharedOk, Step;
    if count == 0 {
      schedule := before;
      LogLength(Run(capacity, before));
    } else {
      var front := PublishMany(capacity, before, m, count - 1);
      Push(capacity, front, Begin(m));
      Push(capacity, front + [Begin(m)], Store(ALL));
      Push(capacity, front + [Begin(m)] + [Store(ALL)], Release);
      PublishOne(Run(capacity, front), m);
      schedule := front + [Begin(m)] + [Store(ALL)] + [Release];
    }
  }

  lemma LogLength(s: State)
    ensures Inv(s) ==> |s.sh.log| == s.sh.wseq
  {
  }

  /** One reader has copied the first 56 bytes of record `n`. */
  ghost predicate HalfWay(s: State, n: nat, m: Msg) {
    && |s.readers| == 1 && s.sh.writer.Idle? && n < s.sh.wseq == |s.sh.log| < U64 && s.sh.log[n] == Stamped(m, n)
    && HalfCopied(s.readers[0], n, m)
  }

  ghost predicate HalfCopied(rd: Reader, n: nat, m: Msg)
    requires n < U64
  {
    && rd.cursor == n && rd.taken == [] && rd.pc.Copying? && rd.pc.todo == ALL - FRONT
    && |rd.pc.wire| == MSG_SIZE
    && forall i :: 0 <= i < 56 ==> rd.pc.wire[i] == Encode(Stamped(m, n))[i]
  }

  lemma StartCopy(s: State, n: nat, m: Msg)
    requires Inv(s) && s.sh.wseq == n + 1 && s.sh.writer.Idle? && s.readers == [] && s.sh.log[n] == Stamped(m, n)
    ensures var a := Step(s, Join(n));
            && Inv(a) && Inv(Step(a, Acquire(0)))
            && var t := Step(Step(a, Acquire(0)), Copy(0, FRONT));
               t.sh == s.sh && HalfWay(t, n, m)
  {
    hide Encode, Decode;
    var a := Step(s, Join(n));
    StepKeepsInv(s, Join(n));
    StepKeepsInv(a, Acquire(0));
    assert NotOvertaken(s.sh, n);
    assert 56 in ALL - FRONT;
    var rd := Step(a, Acquire(0)).readers[0];
    var wire := Overlay(rd.pc.wire, s.sh.slots[n % Capacity(s.sh)], FRONT * rd.pc.todo);
    assert forall i :: 0 <= i < 56 ==> i in FRONT * rd.pc.todo;
  }

  lemma ReachHalfWay(capacity: pos, n: nat, m: Msg, next: Msg) returns (schedule: seq<Action>)
    requires n + 1 < U64
    ensures var s := Run(capacity, schedule);
            s.sh.wseq == n + 1 && Capacity(s.sh) == capacity && HalfWay(s, n, m)
  {
    hide Inv, SharedOk, Step, HalfWay;
    Started(capacity);
    var a := PublishMany(capacity, [], next, n);
    var b := PublishMany(capacity, a, m, 1);
    Push(capacity, b, Join(n));
    Push(capacity, b + [Join(n)], Acquire(0));
    Push(capacity, b + [Join(n)] + [Acquire(0)], Copy(0, FRONT));
    StartCopy(Run(capacity, b), n, m);
    schedule := b + [Join(n)] + [Acquire(0)] + [Copy(0, FRONT)];
  }

  lemma Started(capacity: pos)
    ensures var s := Run(capacity, []);
            s.sh.wseq == 0 && s.sh.writer.Idle? && s.readers == [] && Capacity(s.sh) == capacity
  {
  }

  /** Whether the writer, at this progress, has not started on the record that reuses the
      slot of record `n`. */
  predicate StillThere(capacity: pos, n: nat, w: nat, writing: bool) {
    w < n + capacity || (w == n + capacity && !writing)
  }

  lemma SlotReused(sh: Shared, n: nat, next: Msg) returns (x: nat)
    requires SharedOk(sh) && n < sh.wseq && !NotOvertaken(sh, n)
    requires forall i :: n < i < sh.wseq ==> sh.log[i] == Stamped(next, i)
    requires sh.writer.Writing? ==> sh.writer.m == Stamped(next, sh.wseq) && sh.writer.todo == {}
    ensures x < U64 && sh.slots[n % Capacity(sh)] == Encode(Stamped(next, x))
  {
    hide Encode;
    var cap := Capacity(sh);
    if sh.writer.Writing? && sh.wseq % cap == n % cap {
      x := sh.wseq;
      assert sh.slots[n % cap] == Encode(sh.writer.m);
    } else {
      LastLap(n, sh.wseq, cap);
      x := n + (sh.wseq - 1 - n) / cap * cap;
      SameSlotAhead(x, sh.wseq, cap);
      assert NotOvertaken(sh, x);
    }
  }

  lemma SameSlotAhead(x: nat, w: nat, cap: nat)
    requires cap > 0 && x < w <= x + cap
    ensures w == x + cap ==> w % cap == x % cap
  {
    LapsKeepSlot(x, 1, cap);
  }

  /** The rest of a half-made copy comes from whatever the slot holds by then. */
  lemma FinishTorn(s: State, n: nat, m: Msg, next: Msg, x: nat)
    requires Inv(s) && |s.readers| == 1 && n < U64 && x < U64 && HalfCopied(s.readers[0], n, m)
    requires s.sh.slots[n % Capacity(s.sh)] == Encode(Stamped(next, x))
    ensures StepCopy(s.sh, s.readers[0], ALL).taken == [Taken(n, Torn(Stamped(m, n), next), NotOvertaken(s.sh, n))]
  {
    hide Encode, Decode;
    var rd := s.readers[0];
    var torn := Torn(Stamped(m, n), next);
    var wire := Overlay(rd.pc.wire, s.sh.slots[n % Capacity(s.sh)], ALL * rd.pc.todo);
    TornBytes(Stamped(m, n), Stamped(next, x));
    forall i | 0 <= i < MSG_SIZE
      ensures wire[i] == Encode(torn)[i]
    {
      assert i in ALL * rd.pc.todo <==> i >= 56;
    }
    ClearCopyDecodes(wire, torn);
    assert ALL - FRONT - ALL == {};
  }

  lemma BeginNext(s: State, next: Msg)
    requires Inv(s) && s.sh.writer.Idle? && s.sh.wseq + 1 < U64
    ensures var a := Step(s, Begin(next));
            && Inv(a)
            && var t := Step(a, Store(ALL));
               && t.readers == s.readers && t.sh.wseq == s.sh.wseq && t.sh.log == s.sh.log
               && Capacity(t.sh) == Capacity(s.sh)
               && t.sh.writer == Writing(Stamped(next, s.sh.wseq), {})
  {
    hide Encode;
    StepKeepsInv(s, Begin(next));
    assert ALL - ALL == {};
  }

  /** A state in which a reader is about to be handed something under number `n`. */
  ghost predicate AboutToTake(s: State, r: nat, bytes: set<nat>, n: nat, w: nat, writing: bool, x: Msg)
    requires Inv(s)
  {
    && s.sh.wseq == w && s.sh.writer.Writing? == writing && r < |s.readers|
    && s.readers[r].cursor == n && s.readers[r].pc.Copying? && s.readers[r].pc.todo <= bytes
    && ReaderOk(s.sh, s.readers[r])
    && StepCopy(s.sh, s.readers[r], bytes).taken == s.readers[r].taken + [Taken(n, x, NotOvertaken(s.sh, n))]
  }

  /** Whatever the record, the ring size and how far the writer has run on: once the slot is
      being reused a reader can be handed, as a fresh record, the front of the record it asked
      for with the size and symbol of another. */
  lemma TornRecordEscapes(capacity: pos, n: nat, w: nat, writing: bool, m: Msg, next: Msg) returns (schedule: seq<Action>)
    requires w + 1 < U64 && !StillThere(capacity, n, w, writing)
    ensures n < w && |Run(capacity, schedule).sh.log| == w && Run(capacity, schedule).sh.log[n] == Stamped(m, n)
    ensures AboutToTake(Run(capacity, schedule), 0, ALL, n, w, writing, Torn(Stamped(m, n), next))
  {
    hide Inv, SharedOk, Step, StepCopy, HalfCopied, ReaderOk;
    var half := ReachHalfWay(capacity, n, m, next);
    schedule := PublishMany(capacity, half, next, w - (n + 1));
    if writing {
      Push(capacity, schedule, Begin(next));
      Push(capacity, schedule + [Begin(next)], Store(ALL));
      BeginNext(Run(capacity, schedule), next);
      schedule := schedule + [Begin(next)] + [Store(ALL)];
    }
    Escapes(Run(capacity, schedule), n, m, next);
  }

  lemma Escapes(s: State, n: nat, m: Msg, next: Msg)
    requires Inv(s) && |s.readers| == 1 && n < s.sh.wseq < U64 && |s.sh.log| == s.sh.wseq && !NotOvertaken(s.sh, n)
    requires HalfCopied(s.readers[0], n, m)
    requires forall i :: n < i < s.sh.wseq ==> s.sh.log[i] == Stamped(next, i)
    requires s.sh.writer.Writing? ==> s.sh.writer.m == Stamped(next, s.sh.wseq) && s.sh.writer.todo == {}
    ensures AboutToTake(s, 0, ALL, n, s.sh.wseq, s.sh.writer.Writing?, Torn(Stamped(m, n), next))
  {
    hide SharedOk, ReaderOk, StepCopy, Encode;
    var x := SlotReused(s.sh, n, next);
    FinishTorn(s, n, m, next, x);
  }

  /** Some reader, in some run, is handed under number `n` something other than the record
      published under it, when its copy ends with the writer at this progress. */
  ghost predicate CanBeWrong(capacity: pos, n: nat, w: nat, writing: bool)
  {
    exists schedule: seq<Action>, r: nat, bytes: set<nat>, x: Msg ::
      AboutToTake(Run(capacity, schedule), r, bytes, n, w, writing, x) && WrongFor(Run(capacity, schedule).sh, n, x)
  }

  predicate WrongFor(sh: Shared, n: nat, x: Msg) {
    n < |sh.log| && sh.log[n] != x
  }

  lemma RightWhileThere(s: State, r: nat, bytes: set<nat>, n: nat, w: nat, writing: bool, x: Msg)
    requires Inv(s) && AboutToTake(s, r, bytes, n, w, writing, x) && StillThere(Capacity(s.sh), n, w, writing)
    ensures !WrongFor(s.sh, n, x)
  {
    hide StepCopy;
    ClearCopyIsFresh(s.sh, s.readers[r], bytes);
    var t := s.readers[r].taken;
    assert (t + [Taken(n, x, true)])[|t|] == Taken(n, x, true);
  }

  /** So the record handed over can be wrong if and only if the writer has started on the
      record that reuses the slot by the time the copy ends: the one check of the record's
      number rules out nothing else. */
  lemma WrongIff(capacity: pos, n: nat, w: nat, writing: bool)
    requires w + 1 < U64
    ensures CanBeWrong(capacity, n, w, writing) <==> !StillThere(capacity, n, w, writing)
  {
    hide AboutToTake, Inv;
    if !StillThere(capacity, n, w, writing) {
      var m := Msg(MAGIC, MSG_SIZE, Depth, Bid, 0, 0, seq(16, _ => 0), seq(8, _ => 0), 0, 1, seq(8, _ => 0));
      var next := m.(qtyE8 := 2);
      var schedule := TornRecordEscapes(capacity, n, w, writing, m, next);
      assert WrongFor(Run(capacity, schedule).sh, n, Torn(Stamped(m, n), next));
    } else {
      forall schedule: seq<Action>, r: nat, bytes: set<nat>, x: Msg |
        AboutToTake(Run(capacity, schedule), r, bytes, n, w, writing, x)
        ensures !WrongFor(Run(capacity, schedule).sh, n, x)
      {
        CapacityFixed(capacity, schedule);
        RightWhileThere(Run(capacity, schedule), r, bytes, n, w, writing, x);
      }
    }
  }

  // ---------------------------------------------------------------------------
  // Whole slots at once
  // ---------------------------------------------------------------------------

  /** Every slot store and every slot copy is a single step. */
  predicate WholeSlots(schedule: seq<Action>) {
    forall a :: a in schedule ==> (a.Store? || a.Copy? ==> a.bytes == ALL)
  }

  /** Slot `i` is all one record: number `n`, published or just stored. */
  ghost predicate Holds(sh: Sound, i: nat, n: nat)
    requires i < Capacity(sh)
  {
    && n % Capacity(sh) == i
    && (n < sh.wseq ==> sh.slots[i] == Encode(sh.log[n]))
    && (n >= sh.wseq ==> n == sh.wseq && sh.writer.Writing? && sh.slots[i] == Encode(sh.writer.m))
  }

  ghost predicate Occupied(sh: Sound, k: nat)
  {
    exists n: nat :: Holds(sh, k % Capacity(sh), n)
  }

  ghost predicate AllOccupied(sh: Sound)
  {
    forall k :: 0 <= k < sh.wseq ==> Occupied(sh, k)
  }

  predicate WholeWriter(sh: Shared) {
    sh.writer.Writing? ==> sh.writer.todo == ALL || sh.writer.todo == {}
  }

  ghost predicate NeverMixed(s: State)
    requires Inv(s)
  {
    && WholeWriter(s.sh)
    && AllOccupied(s.sh)
    && (forall r :: 0 <= r < |s.readers| ==> WholeReader(s.sh, s.readers[r]))
  }

  ghost predicate WholeReader(sh: Shared, rd: Reader) {
    && (rd.pc.Copying? ==> rd.pc.todo == ALL)
    && (forall i :: 0 <= i < |rd.taken| ==>
          rd.taken[i].cursor < |sh.log| && rd.taken[i].m == sh.log[rd.taken[i].cursor])
  }

  /** The writer's steps keep every written slot all one record's. */
  lemma WriterKeepsOccupied(sh: Sound, a: Action)
    requires WholeWriter(sh) && AllOccupied(sh) && (a.Store? ==> a.bytes == ALL)
    ensures SharedOk(StepWriter(sh, a)) && WholeWriter(StepWriter(sh, a)) && AllOccupied(StepWriter(sh, a))
  {
    hide Encode;
    WriterKeepsShared(sh, a);
    var sh' := StepWriter(sh, a);
    var cap := Capacity(sh);
    assert ALL - ALL == {};
    forall k | 0 <= k < sh'.wseq
      ensures Occupied(sh', k)
    {
      if a.Store? && sh.writer.Writing? && k % cap == sh.wseq % cap {
        StoredAll(sh);
        assert Holds(sh', k % cap, sh.wseq);
      } else if k == sh.wseq {
        assert NotOvertaken(sh', k);
        assert Holds(sh', k % cap, k);
      } else {
        assert Occupied(sh, k);
        var n: nat :| Holds(sh, k % cap, n);
        assert Holds(sh', k % cap, n);
      }
    }
  }

  lemma WriterKeepsWhole(sh: Sound, a: Action, rd: Reader)
    requires WholeReader(sh, rd)
    ensures WholeReader(StepWriter(sh, a), rd)
  {
    assert sh.log <= StepWriter(sh, a).log;
  }

  lemma StoredAll(sh: Shared)
    requires SharedOk(sh) && sh.writer.Writing? && (sh.writer.todo == ALL || sh.writer.todo == {})
    ensures StepWriter(sh, Store(ALL)).slots[sh.wseq % Capacity(sh)] == Encode(sh.writer.m)
  {
    hide Encode;
  }

  lemma WholeCopy(sh: Sound, rd: Reader)
    requires ReaderOk(sh, rd) && WholeReader(sh, rd) && rd.pc.Copying?
    requires Occupied(sh, rd.cursor)
    ensures WholeReader(sh, StepCopy(sh, rd, ALL))
  {
    hide Encode, Decode;
    var i := rd.cursor % Capacity(sh);
    var n: nat :| Holds(sh, i, n);
    var wire := Overlay(rd.pc.wire, sh.slots[i], ALL * rd.pc.todo);
    assert wire == sh.slots[i];
    DecodeEncode(if n < sh.wseq then sh.log[n] else sh.writer.m);
    assert ALL - ALL == {};
  }

  lemma WholeStep(s: State, a: Action)
    requires Inv(s) && NeverMixed(s) && (a.Store? || a.Copy? ==> a.bytes == ALL)
    ensures Inv(Step(s, a)) && NeverMixed(Step(s, a))
  {
    hide SharedOk, ReaderOk, WholeReader, StepCopy, StepWriter, StepAcquire, AllOccupied, WholeWriter;
    StepKeepsInv(s, a);
    match a
    case Join(cursor) => NewWholeReader(s.sh, cursor);
    case Acquire(r) => if r < |s.readers| { WholeAcquire(s.sh, s.readers[r]); }
    case Copy(r, bytes) => if r < |s.readers| { WholeCopyStep(s, r); }
    case _ =>
      WriterKeepsOccupied(s.sh, a);
      forall r | 0 <= r < |s.readers|
        ensures WholeReader(StepWriter(s.sh, a), s.readers[r])
      {
        WriterKeepsWhole(s.sh, a, s.readers[r]);
      }
  }

  lemma NewWholeReader(sh: Shared, cursor: nat)
    ensures WholeReader(sh, Reader(cursor, Resting, []))
  {
  }

  lemma WholeAcquire(sh: Shared, rd: Reader)
    requires WholeReader(sh, rd)
    ensures WholeReader(sh, StepAcquire(sh, rd))
  {
  }

  lemma WholeCopyStep(s: State, r: nat)
    requires Inv(s) && NeverMixed(s) && r < |s.readers|
    ensures WholeReader(s.sh, StepCopy(s.sh, s.readers[r], ALL))
  {
    assert ReaderOk(s.sh, s.readers[r]);
    if s.readers[r].pc.Copying? {
      WholeCopy(s.sh, s.readers[r]);
    }
  }

  /** When slots are stored and copied whole, every fresh record is exactly the one
      published under the reader's old cursor, however far the writer has run on. */
  lemma {:induction false} WholeSlotsAreExact(capacity: pos, schedule: seq<Action>)
    requires WholeSlots(schedule)
    ensures NeverMixed(Run(capacity, schedule))
    ensures forall r, i :: 0 <= r < |Run(capacity, schedule).readers| && 0 <= i < |Run(capacity, schedule).readers[r].taken| ==>
              var t := Run(capacity, schedule).readers[r].taken[i];
              t.cursor < |Run(capacity, schedule).sh.log| && t.m == Run(capacity, schedule).sh.log[t.cursor]
  {
    if schedule != [] {
      WholeSlotsAreExact(capacity, schedule[..|schedule| - 1]);
      WholeStep(Run(capacity, schedule[..|schedule| - 1]), schedule[|schedule| - 1]);
    }
    forall r | 0 <= r < |Run(capacity, schedule).readers|
      ensures WholeReader(Run(capacity, schedule).sh, Run(capacity, schedule).readers[r])
    {
    }
  }
}
