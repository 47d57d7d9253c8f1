/** The bounded queue between one producer and one consumer, as interleaved atomic
    steps. Every shared load, store, fetch-and-add and compare-and-exchange of `push`
    and `pop` is one step, and the payload is written and copied one word at a time.
    The memory is sequentially consistent and positions do not wrap. */
module Flow {
  import opened Arith

  type Word = int
  type Value = seq<Word>

  datatype Policy = DropOldest | DropNewest | Spin(spins: nat) | Credit

  datatype Pushed = Queued | Evicted | Dropped | NoCredit

  /** `width` is the number of words in a record; `weak` allows a
      compare-and-exchange to fail although the value matches. */
  datatype Config = Config(capacity: nat, width: nat, policy: Policy, weak: bool)

  datatype ProducerPc =
    | PIdle
    | PLoadCredit
    | PLoadHead
    | PLoadTail
    | PWriteWord
    | PStoreHead
    | PHighWater
    | PSpendCredit
    | PCountReused
    | PEvict
    | PCountEvicted
    | PCountDropped
    | PCountRefused

  datatype ConsumerPc =
    | CIdle
    | CLoadTail
    | CLoadHead
    | CSeqBefore
    | CCopyWord
    | CClaim

  datatype Shared = Shared(
    slots: seq<Value>,
    seqs: seq<nat>,
    head: nat,
    tail: nat,
    evicted: nat,
    dropped: nat,
    refused: nat,
    reused: nat,
    highWater: nat,
    credit: nat)

  /** The locals of one `push`: what it loaded, how many words it has written, and how
      often it went round its loop. */
  datatype Producer = Producer(
    pc: ProducerPc,
    value: Value,
    head: nat,
    tail: nat,
    words: nat,
    spinsLeft: nat,
    evicting: bool,
    loops: nat)

  /** The locals of one `pop`; `copied` holds the words copied so far. */
  datatype Consumer = Consumer(pc: ConsumerPc, tail: nat, copied: Value)

  datatype Taken = Taken(position: nat, value: Value)

  /** What happened so far: `accepted[p]` is the value accepted at position `p`,
      `taken` what `pop` returned, `offered` what each `push` was called with, `results`
      what each finished one returned, and `wraps` counts the credit counter's wraps past
      32 bits, upwards minus downwards. */
  datatype History = History(
    accepted: seq<Value>,
    taken: seq<Taken>,
    results: seq<Pushed>,
    offered: seq<Value>,
    granted: nat,
    wraps: int)

  datatype State = State(sh: Shared, p: Producer, c: Consumer, h: History)

  /** One scheduling decision. The value is used only when a push starts. */
  datatype Action =
    | ProducerStep(value: Value, spurious: bool)
    | ConsumerStep(spurious: bool)
    | Grant(credits: nat)

  /** The slots start uninitialised: any words at all. */
  function Init(cfg: Config, memory: seq<Value>): State {
    State(
      Shared(memory, seq(cfg.capacity, _ => 0), 0, 0, 0, 0, 0, 0, 0, 0),
      Producer(PIdle, [], 0, 0, 0, 0, false, 0),
      Consumer(CIdle, 0, []),
      History([], [], [], [], 0, 0))
  }

  ghost predicate ValidMemory(cfg: Config, memory: seq<Value>) {
    cfg.capacity > 0 && |memory| == cfg.capacity
    && forall i :: 0 <= i < |memory| ==> |memory[i]| == cfg.width
  }

  /** A queue of some kind and what its slots hold at first. */
  datatype Setup = Setup(cfg: Config, memory: seq<Value>)

  type Start = x: Setup | ValidMemory(x.cfg, x.memory) witness Setup(Config(1, 0, DropOldest, false), [[]])

  function Finish(s: State, r: Pushed): State {
    s.(p := s.p.(pc := PIdle), h := s.h.(results := s.h.results + [r]))
  }

  /** One step of `push`. */
  function StepProducer(cfg: Config, s: State, value: Value, spurious: bool): State
    requires cfg.capacity > 0 && |s.sh.slots| == |s.sh.seqs| == cfg.capacity
    requires s.p.pc.PWriteWord? ==>
               |s.p.value| == |s.sh.slots[s.p.head % cfg.capacity]|
  {
    var sh, p, h := s.sh, s.p, s.h;
    match p.pc
    case PIdle =>
      if |value| != cfg.width then s
      else
        var spins := match cfg.policy case Spin(n) => n case _ => 0;
        s.(p := Producer(if cfg.policy.Credit? then PLoadCredit else PLoadHead, value, 0, 0, 0, spins, false, 0),
           h := h.(offered := h.offered + [value]))
    case PLoadCredit =>
      s.(p := p.(pc := if sh.credit == 0 then PCountRefused else PLoadHead))
    case PLoadHead =>
      s.(p := p.(pc := PLoadTail, head := sh.head, loops := p.loops + 1))
    case PLoadTail =>
      var q := p.(tail := sh.tail, words := 0, evicting := false);
      if p.head - sh.tail < cfg.capacity then
        s.(p := q.(pc := PWriteWord))
      else (match cfg.policy
        case DropNewest => s.(p := q.(pc := PCountDropped))
        case Credit => s.(p := q.(pc := PCountRefused))
        case Spin(_) =>
          if p.spinsLeft == 0 then s.(p := q.(pc := PCountDropped))
          else s.(p := q.(pc := PLoadHead, spinsLeft := p.spinsLeft - 1))
        case DropOldest => s.(p := q.(pc := PCountReused)))
    case PWriteWord =>
      var i := p.head % cfg.capacity;
      if p.words < |p.value| then
        s.(sh := sh.(slots := sh.slots[i := sh.slots[i][p.words := p.value[p.words]]]),
           p := p.(words := p.words + 1))
      else
        s.(sh := sh.(seqs := sh.seqs[i := p.head + 1]), p := p.(pc := PStoreHead))
    case PStoreHead =>
      var s' := s.(sh := sh.(head := p.head + 1), h := h.(accepted := h.accepted + [p.value]));
      if p.evicting then Finish(s', Evicted) else s'.(p := p.(pc := PHighWater))
    case PHighWater =>
      var s' := s.(sh := sh.(highWater := Max(sh.highWater, p.head - p.tail + 1)));
      if cfg.policy.Credit? then s'.(p := p.(pc := PSpendCredit)) else Finish(s', Queued)
    case PSpendCredit =>
      if sh.credit > 0 then Finish(s.(sh := sh.(credit := sh.credit - 1)), Queued)
      else Finish(s.(sh := sh.(credit := U32 - 1), h := h.(wraps := h.wraps - 1)), Queued)
    case PCountReused =>
      s.(sh := sh.(reused := sh.reused + 1), p := p.(pc := PEvict))
    case PEvict =>
      if sh.tail == p.tail && !(spurious && cfg.weak) then
        s.(sh := sh.(tail := p.tail + 1), p := p.(pc := PCountEvicted, evicting := true))
      else
        s.(p := p.(pc := PLoadHead))
    case PCountEvicted =>
      s.(sh := sh.(evicted := sh.evicted + 1), p := p.(pc := PWriteWord))
    case PCountDropped =>
      Finish(s.(sh := sh.(dropped := sh.dropped + 1)), Dropped)
    case PCountRefused =>
      Finish(s.(sh := sh.(refused := sh.refused + 1)), NoCredit)
  }

  /** One step of `pop`. */
  function StepConsumer(cfg: Config, s: State, spurious: bool): State
    requires cfg.capacity > 0 && |s.sh.slots| == |s.sh.seqs| == cfg.capacity
    requires s.c.pc.CCopyWord? ==> cfg.width == |s.sh.slots[s.c.tail % cfg.capacity]|
  {
    var sh, c, h := s.sh, s.c, s.h;
    match c.pc
    case CIdle => s.(c := c.(pc := CLoadTail))
    case CLoadTail => s.(c := c.(pc := CLoadHead, tail := sh.tail, copied := []))
    case CLoadHead => s.(c := c.(pc := if c.tail == sh.head then CIdle else CSeqBefore))
    case CSeqBefore =>
      s.(c := c.(pc := if sh.seqs[c.tail % cfg.capacity] != c.tail + 1 then CLoadTail else CCopyWord))
    case CCopyWord =>
      var i := c.tail % cfg.capacity;
      if |c.copied| < cfg.width then
        s.(c := c.(copied := c.copied + [sh.slots[i][|c.copied|]]))
      else
        s.(c := c.(pc := if sh.seqs[i] != c.tail + 1 then CLoadTail else CClaim))
    case CClaim =>
      if sh.tail == c.tail && !(spurious && cfg.weak) then
        s.(sh := sh.(tail := c.tail + 1), c := c.(pc := CIdle),
           h := h.(taken := h.taken + [Taken(c.tail, c.copied)]))
      else
        s.(c := c.(pc := CLoadTail))
  }

  /** `grant` belongs to the consumer's thread, so it runs between pops. */
  function StepGrant(s: State, credits: nat): State {
    if !s.c.pc.CIdle? || credits >= U32 then s
    else
      var wraps := if s.sh.credit + credits < U32 then 0 else 1;
      s.(sh := s.sh.(credit := s.sh.credit + credits - wraps * U32),
         h := s.h.(granted := s.h.granted + credits, wraps := s.h.wraps + wraps))
  }

  function Step(cfg: Config, s: State, a: Action): State
    requires Inv(cfg, s)
  {
    match a
    case ProducerStep(value, spurious) => StepProducer(cfg, s, value, spurious)
    case ConsumerStep(spurious) => StepConsumer(cfg, s, spurious)
    case Grant(credits) => StepGrant(s, credits)
  }

  // ---------------------------------------------------------------------------
  // The invariant
  // ---------------------------------------------------------------------------

  /** The producer owns the slot of position `head` and is filling it. */
  predicate Filling(pc: ProducerPc) {
    pc.PWriteWord? || pc.PStoreHead?
  }

  predicate Shape(cfg: Config, s: State) {
    && cfg.capacity > 0
    && |s.sh.slots| == |s.sh.seqs| == cfg.capacity
    && (forall i :: 0 <= i < cfg.capacity ==> |s.sh.slots[i]| == cfg.width)
    && |s.h.accepted| == s.sh.head
    && (forall i :: 0 <= i < s.sh.head ==> |s.h.accepted[i]| == cfg.width)
    && s.sh.tail <= s.sh.head <= s.sh.tail + cfg.capacity
  }

  /** Every queued position's slot holds exactly the accepted value and its number. */
  predicate LiveSlots(cfg: Config, s: State)
    requires Shape(cfg, s)
  {
    forall i :: s.sh.tail <= i < s.sh.head ==>
      s.sh.slots[i % cfg.capacity] == s.h.accepted[i] && s.sh.seqs[i % cfg.capacity] == i + 1
  }

  predicate ProducerOk(cfg: Config, s: State)
    requires Shape(cfg, s)
  {
    var sh, p := s.sh, s.p;
    && (!p.pc.PIdle? ==> |p.value| == cfg.width)
    && ((p.pc.PLoadTail? || p.pc.PCountReused? || p.pc.PEvict? || p.pc.PCountEvicted?) || Filling(p.pc) ==> p.head == sh.head)
    && (p.pc.PHighWater? ==> sh.head == p.head + 1)
    && ((p.pc.PCountReused? || p.pc.PEvict?) ==>
          cfg.policy.DropOldest? && p.words == 0 && p.tail <= sh.tail && p.head == p.tail + cfg.capacity)
    && (p.pc.PCountEvicted? ==>
          cfg.policy.DropOldest? && p.evicting && p.words == 0 && p.tail < sh.tail && p.head == p.tail + cfg.capacity)
    && (p.pc.PHighWater? ==> !p.evicting)
    && (Filling(p.pc) || p.pc.PHighWater? ==>
          p.tail + (if p.evicting then 1 else 0) <= sh.tail
          && p.tail <= p.head
          && (if p.evicting then p.head == p.tail + cfg.capacity else p.head < p.tail + cfg.capacity))
    && (p.pc.PWriteWord? ==>
          p.words <= cfg.width && sh.slots[p.head % cfg.capacity][..p.words] == p.value[..p.words])
    && (p.pc.PStoreHead? ==>
          sh.slots[p.head % cfg.capacity] == p.value && sh.seqs[p.head % cfg.capacity] == p.head + 1)
    && (p.pc.PLoadCredit? || p.pc.PSpendCredit? || p.pc.PCountRefused? ==> cfg.policy.Credit?)
    && (p.pc.PCountDropped? ==> cfg.policy.DropNewest? || cfg.policy.Spin?)
    && (p.evicting && !p.pc.PIdle? ==> cfg.policy.DropOldest?)
  }

  /** If the position the consumer is copying is still unclaimed, every word copied
      so far is that position's. */
  predicate ConsumerOk(cfg: Config, s: State)
    requires Shape(cfg, s)
  {
    var c := s.c;
    && (!(c.pc.CIdle? || c.pc.CLoadTail?) ==> c.tail <= s.sh.tail)
    && ((c.pc.CSeqBefore? || c.pc.CCopyWord? || c.pc.CClaim?) ==> c.tail < s.sh.head)
    && ((c.pc.CLoadHead? || c.pc.CSeqBefore?) ==> c.copied == [])
    && (c.pc.CCopyWord? ==> |c.copied| <= cfg.width)
    && (c.pc.CClaim? ==> |c.copied| == cfg.width)
    && ((c.pc.CCopyWord? || c.pc.CClaim?) && c.tail == s.sh.tail ==>
          c.copied == s.h.accepted[c.tail][..|c.copied|])
  }

  predicate TakenOk(s: State) {
    && (forall i :: 0 <= i < |s.h.taken| ==>
          s.h.taken[i].position < s.sh.tail
          && s.h.taken[i].position < |s.h.accepted|
          && s.h.taken[i].value == s.h.accepted[s.h.taken[i].position])
    && (forall i, j :: 0 <= i < j < |s.h.taken| ==> s.h.taken[i].position < s.h.taken[j].position)
  }

  function Count(results: seq<Pushed>, r: Pushed): nat {
    if results == [] then 0
    else Count(results[..|results| - 1], r) + (if results[|results| - 1] == r then 1 else 0)
  }

  predicate Counters(s: State) {
    var sh, p, h := s.sh, s.p, s.h;
    && |h.offered| == |h.results| + (if p.pc.PIdle? then 0 else 1)
    && sh.dropped == Count(h.results, Dropped)
    && sh.refused == Count(h.results, NoCredit)
    && sh.head == Count(h.results, Queued) + Count(h.results, Evicted)
                  + (if p.pc.PHighWater? || p.pc.PSpendCredit? then 1 else 0)
    && sh.evicted == Count(h.results, Evicted) + (if p.evicting && Filling(p.pc) then 1 else 0)
    && sh.tail == |h.taken| + sh.evicted + (if p.pc.PCountEvicted? then 1 else 0)
  }

  /** The values whose pushes were accepted, in the order of the pushes. */
  function Kept(offered: seq<Value>, results: seq<Pushed>): seq<Value>
    requires |results| <= |offered|
  {
    if results == [] then []
    else
      var n := |results| - 1;
      Kept(offered, results[..n]) + (if results[n].Queued? || results[n].Evicted? then [offered[n]] else [])
  }

  /** A push stores the value it was called with. */
  predicate OfferedOk(s: State) {
    var p, h := s.p, s.h;
    && |h.offered| == |h.results| + (if p.pc.PIdle? then 0 else 1)
    && (!p.pc.PIdle? ==> p.value == h.offered[|h.results|])
    && h.accepted == Kept(h.offered, h.results) + (if p.pc.PHighWater? || p.pc.PSpendCredit? then [p.value] else [])
  }

  /** Which kinds of loss each policy can cause. */
  predicate LossOk(cfg: Config, s: State) {
    && (!cfg.policy.DropOldest? ==> s.sh.evicted == 0)
    && (cfg.policy.DropOldest? || cfg.policy.Credit? ==> s.sh.dropped == 0)
    && (!cfg.policy.Credit? ==> s.sh.refused == 0)
  }

  predicate HighWaterOk(cfg: Config, s: State)
    requires Shape(cfg, s)
  {
    var sh, p := s.sh, s.p;
    && sh.highWater <= cfg.capacity
    && (if p.pc.PHighWater?
        then sh.head - sh.tail <= Max(sh.highWater, p.head - p.tail + 1) && sh.head - sh.tail <= sh.highWater + 1
        else sh.head - sh.tail <= sh.highWater)
    && (p.evicting && (Filling(p.pc) || p.pc.PCountEvicted?) ==> sh.highWater == cfg.capacity)
  }

  /** Records accepted and paid for: the payment follows the head store. */
  function Paid(s: State): int {
    s.sh.head - (if (s.p.pc.PHighWater? || s.p.pc.PSpendCredit?) then 1 else 0)
  }

  predicate CreditOk(cfg: Config, s: State) {
    && s.sh.credit < U32
    && (cfg.policy.Credit? ==>
          && s.sh.credit + Paid(s) + U32 * s.h.wraps == s.h.granted
          && Paid(s) >= 0
          && (s.h.granted < U32 ==>
                s.h.wraps == 0
                && (!((s.p.pc.PIdle? || s.p.pc.PLoadCredit? || s.p.pc.PCountRefused?)) ==> s.sh.credit > 0)))
  }

  /** How far into its loop a push can be, by policy. */
  predicate LoopsOk(cfg: Config, s: State) {
    var p := s.p;
    match cfg.policy
    case DropNewest => p.loops <= 1 && (p.pc.PLoadHead? ==> p.loops == 0)
    case Credit => p.loops <= 1 && ((p.pc.PLoadCredit? || p.pc.PLoadHead?) ==> p.loops == 0)
    case Spin(n) =>
      && p.loops + p.spinsLeft <= n + (if p.pc.PLoadHead? then 0 else 1)
      && (!p.pc.PIdle? ==> p.loops + p.spinsLeft == n + (if p.pc.PLoadHead? then 0 else 1))
      && (p.pc.PCountDropped? ==> p.spinsLeft == 0)
    case DropOldest =>
      !cfg.weak ==>
        && p.loops <= 2
        && (p.pc.PLoadHead? ==>
              p.loops <= 1 && (p.loops == 1 ==> s.sh.head < s.sh.tail + cfg.capacity))
        && (p.pc.PLoadTail? && p.loops == 2 ==> s.sh.head < s.sh.tail + cfg.capacity)
        && ((p.pc.PCountReused? || p.pc.PEvict?) ==> p.loops <= 1)
  }

  predicate Inv(cfg: Config, s: State) {
    && Shape(cfg, s)
    && LiveSlots(cfg, s)
    && ProducerOk(cfg, s)
    && ConsumerOk(cfg, s)
    && TakenOk(s)
    && Counters(s)
    && OfferedOk(s)
    && LossOk(cfg, s)
    && HighWaterOk(cfg, s)
    && CreditOk(cfg, s)
    && LoopsOk(cfg, s)
  }

  lemma CountAppend(results: seq<Pushed>, last: Pushed, r: Pushed)
    ensures Count(results + [last], r) == Count(results, r) + (if last == r then 1 else 0)
  {
    assert (results + [last])[..|results|] == results;
  }

  lemma InitInv(start: Start)
    ensures Inv(start.cfg, Init(start.cfg, start.memory))
  {
  }

  lemma ProducerKeepsShape(cfg: Config, s: State, value: Value, spurious: bool)
    requires Shape(cfg, s) && ProducerOk(cfg, s)
    ensures Shape(cfg, StepProducer(cfg, s, value, spurious))
  {
  }

  /** The slot being filled is no queued position's slot. */
  lemma ProducerKeepsLiveSlots(cfg: Config, s: State, value: Value, spurious: bool)
    requires Shape(cfg, s) && ProducerOk(cfg, s) && LiveSlots(cfg, s)
    ensures Shape(cfg, StepProducer(cfg, s, value, spurious)) && LiveSlots(cfg, StepProducer(cfg, s, value, spurious))
  {
    ProducerKeepsShape(cfg, s, value, spurious);
    if Filling(s.p.pc) {
      forall i | s.sh.tail <= i < s.sh.head
        ensures i % cfg.capacity != s.sh.head % cfg.capacity
      {
        SlotsDistinct(s.sh.head, i, cfg.capacity);
      }
    }
  }

  lemma WriteKeepsProducer(cfg: Config, s: State, value: Value, spurious: bool)
    requires Shape(cfg, s) && ProducerOk(cfg, s) && s.p.pc.PWriteWord?
    ensures Shape(cfg, StepProducer(cfg, s, value, spurious)) && ProducerOk(cfg, StepProducer(cfg, s, value, spurious))
  {
    var slot := s.sh.slots[s.p.head % cfg.capacity];
    if s.p.words < cfg.width {
      var wider := slot[s.p.words := s.p.value[s.p.words]];
      assert wider[..s.p.words + 1] == wider[..s.p.words] + [s.p.value[s.p.words]];
      assert wider[..s.p.words] == slot[..s.p.words];
      assert s.p.value[..s.p.words + 1] == s.p.value[..s.p.words] + [s.p.value[s.p.words]];
    } else {
      assert slot == slot[..s.p.words] == s.p.value[..s.p.words] == s.p.value;
    }
  }

  lemma LoadKeepsProducer(cfg: Config, s: State, value: Value, spurious: bool)
    requires Shape(cfg, s) && ProducerOk(cfg, s) && (s.p.pc.PLoadTail? || s.p.pc.PEvict? || s.p.pc.PIdle?)
    ensures Shape(cfg, StepProducer(cfg, s, value, spurious)) && ProducerOk(cfg, StepProducer(cfg, s, value, spurious))
  {
  }

  lemma ProducerKeepsProducer(cfg: Config, s: State, value: Value, spurious: bool)
    requires Shape(cfg, s) && ProducerOk(cfg, s)
    ensures Shape(cfg, StepProducer(cfg, s, value, spurious)) && ProducerOk(cfg, StepProducer(cfg, s, value, spurious))
  {
    if s.p.pc.PWriteWord? {
      WriteKeepsProducer(cfg, s, value, spurious);
    } else if s.p.pc.PLoadTail? || s.p.pc.PEvict? || s.p.pc.PIdle? {
      LoadKeepsProducer(cfg, s, value, spurious);
    } else {
      ProducerKeepsShape(cfg, s, value, spurious);
    }
  }

  lemma ProducerKeepsConsumer(cfg: Config, s: State, value: Value, spurious: bool)
    requires Shape(cfg, s) && ProducerOk(cfg, s) && ConsumerOk(cfg, s)
    ensures Shape(cfg, StepProducer(cfg, s, value, spurious)) && ConsumerOk(cfg, StepProducer(cfg, s, value, spurious))
  {
    ProducerKeepsShape(cfg, s, value, spurious);
  }

  lemma ProducerKeepsTaken(cfg: Config, s: State, value: Value, spurious: bool)
    requires Shape(cfg, s) && ProducerOk(cfg, s) && TakenOk(s)
    ensures TakenOk(StepProducer(cfg, s, value, spurious))
  {
  }

  /** The steps after which `push` may return: each adds one to exactly one counter. */
  lemma ReturnKeepsCounters(cfg: Config, s: State, value: Value, spurious: bool)
    requires Shape(cfg, s) && ProducerOk(cfg, s) && Counters(s)
    requires s.p.pc.PStoreHead? || s.p.pc.PHighWater? || s.p.pc.PSpendCredit? || s.p.pc.PCountDropped? || s.p.pc.PCountRefused?
    ensures Counters(StepProducer(cfg, s, value, spurious))
  {
    hide Count;
    var r := match s.p.pc case PStoreHead => Evicted case PCountDropped => Dropped case PCountRefused => NoCredit case _ => Queued;
    CountAppend(s.h.results, r, Queued);
    CountAppend(s.h.results, r, Evicted);
    CountAppend(s.h.results, r, Dropped);
    CountAppend(s.h.results, r, NoCredit);
  }

  lemma ProducerKeepsCounters(cfg: Config, s: State, value: Value, spurious: bool)
    requires Shape(cfg, s) && ProducerOk(cfg, s) && Counters(s)
    ensures Counters(StepProducer(cfg, s, value, spurious))
  {
    hide Count;
    if s.p.pc.PStoreHead? || s.p.pc.PHighWater? || s.p.pc.PSpendCredit? || s.p.pc.PCountDropped? || s.p.pc.PCountRefused? {
      ReturnKeepsCounters(cfg, s, value, spurious);
    }
  }

  lemma {:induction false} KeptOfMore(offered: seq<Value>, value: Value, results: seq<Pushed>)
    requires |results| <= |offered|
    ensures Kept(offered + [value], results) == Kept(offered, results)
  {
    if results != [] {
      KeptOfMore(offered, value, results[..|results| - 1]);
    }
  }

  lemma KeptAppend(offered: seq<Value>, results: seq<Pushed>, r: Pushed)
    requires |results| < |offered|
    ensures Kept(offered, results + [r]) ==
            Kept(offered, results) + (if r.Queued? || r.Evicted? then [offered[|results|]] else [])
  {
    assert (results + [r])[..|results|] == results;
  }

  lemma ProducerKeepsOffered(cfg: Config, s: State, value: Value, spurious: bool)
    requires Shape(cfg, s) && ProducerOk(cfg, s) && OfferedOk(s)
    ensures OfferedOk(StepProducer(cfg, s, value, spurious))
  {
    hide Kept;
    if s.p.pc.PIdle? {
      KeptOfMore(s.h.offered, value, s.h.results);
    } else {
      KeptAppend(s.h.offered, s.h.results, Queued);
      KeptAppend(s.h.offered, s.h.results, Evicted);
      KeptAppend(s.h.offered, s.h.results, Dropped);
      KeptAppend(s.h.offered, s.h.results, NoCredit);
    }
  }

  lemma ProducerKeepsLoss(cfg: Config, s: State, value: Value, spurious: bool)
    requires Shape(cfg, s) && ProducerOk(cfg, s) && LossOk(cfg, s)
    ensures LossOk(cfg, StepProducer(cfg, s, value, spurious))
  {
  }

  lemma ProducerKeepsHighWater(cfg: Config, s: State, value: Value, spurious: bool)
    requires Shape(cfg, s) && ProducerOk(cfg, s) && HighWaterOk(cfg, s)
    ensures Shape(cfg, StepProducer(cfg, s, value, spurious)) && HighWaterOk(cfg, StepProducer(cfg, s, value, spurious))
  {
    ProducerKeepsShape(cfg, s, value, spurious);
  }

  lemma ProducerKeepsCredit(cfg: Config, s: State, value: Value, spurious: bool)
    requires Shape(cfg, s) && ProducerOk(cfg, s) && CreditOk(cfg, s)
    ensures CreditOk(cfg, StepProducer(cfg, s, value, spurious))
  {
  }

  lemma ProducerKeepsLoops(cfg: Config, s: State, value: Value, spurious: bool)
    requires Shape(cfg, s) && ProducerOk(cfg, s) && LoopsOk(cfg, s)
    ensures LoopsOk(cfg, StepProducer(cfg, s, value, spurious))
  {
  }

  lemma ProducerKeepsInv(cfg: Config, s: State, value: Value, spurious: bool)
    requires Inv(cfg, s)
    ensures Inv(cfg, StepProducer(cfg, s, value, spurious))
  {
    ProducerKeepsLiveSlots(cfg, s, value, spurious);
    ProducerKeepsProducer(cfg, s, value, spurious);
    ProducerKeepsConsumer(cfg, s, value, spurious);
    ProducerKeepsTaken(cfg, s, value, spurious);
    ProducerKeepsCounters(cfg, s, value, spurious);
    ProducerKeepsOffered(cfg, s, value, spurious);
    ProducerKeepsLoss(cfg, s, value, spurious);
    ProducerKeepsHighWater(cfg, s, value, spurious);
    ProducerKeepsCredit(cfg, s, value, spurious);
    ProducerKeepsLoops(cfg, s, value, spurious);
  }

  /** A successful claim means no eviction happened since the tail was loaded, so the
      words copied are one record's. */
  lemma ConsumerKeepsSafety(cfg: Config, s: State, spurious: bool)
    requires Shape(cfg, s) && LiveSlots(cfg, s) && ConsumerOk(cfg, s) && TakenOk(s)
    ensures Shape(cfg, StepConsumer(cfg, s, spurious))
    ensures LiveSlots(cfg, StepConsumer(cfg, s, spurious))
    ensures ConsumerOk(cfg, StepConsumer(cfg, s, spurious))
    ensures TakenOk(StepConsumer(cfg, s, spurious))
  {
  }

  lemma ConsumerKeepsProducer(cfg: Config, s: State, spurious: bool)
    requires Shape(cfg, s) && ProducerOk(cfg, s) && ConsumerOk(cfg, s) && LiveSlots(cfg, s)
    ensures Shape(cfg, StepConsumer(cfg, s, spurious)) && ProducerOk(cfg, StepConsumer(cfg, s, spurious))
  {
  }

  lemma ConsumerKeepsCounters(cfg: Config, s: State, spurious: bool)
    requires Shape(cfg, s) && ConsumerOk(cfg, s) && Counters(s) && LossOk(cfg, s) && HighWaterOk(cfg, s)
    requires CreditOk(cfg, s) && LoopsOk(cfg, s)
    ensures Shape(cfg, StepConsumer(cfg, s, spurious))
    ensures Counters(StepConsumer(cfg, s, spurious)) && LossOk(cfg, StepConsumer(cfg, s, spurious))
    ensures HighWaterOk(cfg, StepConsumer(cfg, s, spurious)) && CreditOk(cfg, StepConsumer(cfg, s, spurious))
    ensures LoopsOk(cfg, StepConsumer(cfg, s, spurious))
  {
    hide Count;
  }

  lemma ConsumerKeepsInv(cfg: Config, s: State, spurious: bool)
    requires Inv(cfg, s)
    ensures Inv(cfg, StepConsumer(cfg, s, spurious))
  {
    ConsumerKeepsSafety(cfg, s, spurious);
    ConsumerKeepsProducer(cfg, s, spurious);
    ConsumerKeepsCounters(cfg, s, spurious);
  }

  lemma GrantKeepsSafety(cfg: Config, s: State, credits: nat)
    requires Shape(cfg, s) && LiveSlots(cfg, s) && ProducerOk(cfg, s) && ConsumerOk(cfg, s) && TakenOk(s)
    ensures Shape(cfg, StepGrant(s, credits)) && LiveSlots(cfg, StepGrant(s, credits))
    ensures ProducerOk(cfg, StepGrant(s, credits)) && ConsumerOk(cfg, StepGrant(s, credits))
    ensures TakenOk(StepGrant(s, credits))
  {
  }

  lemma GrantKeepsCounters(cfg: Config, s: State, credits: nat)
    requires Shape(cfg, s) && Counters(s) && LossOk(cfg, s) && HighWaterOk(cfg, s) && CreditOk(cfg, s) && LoopsOk(cfg, s)
    ensures Shape(cfg, StepGrant(s, credits)) && Counters(StepGrant(s, credits)) && LossOk(cfg, StepGrant(s, credits))
    ensures HighWaterOk(cfg, StepGrant(s, credits)) && CreditOk(cfg, StepGrant(s, credits))
    ensures LoopsOk(cfg, StepGrant(s, credits))
  {
    hide Count;
  }

  lemma GrantKeepsInv(cfg: Config, s: State, credits: nat)
    requires Inv(cfg, s)
    ensures Inv(cfg, StepGrant(s, credits))
  {
    GrantKeepsSafety(cfg, s, credits);
    GrantKeepsCounters(cfg, s, credits);
  }

  // ---------------------------------------------------------------------------
  // Runs
  // ---------------------------------------------------------------------------

  lemma StepKeepsInv(cfg: Config, s: State, a: Action)
    requires Inv(cfg, s)
    ensures Inv(cfg, Step(cfg, s, a))
  {
    match a
    case ProducerStep(value, spurious) => ProducerKeepsInv(cfg, s, value, spurious);
    case ConsumerStep(spurious) => ConsumerKeepsInv(cfg, s, spurious);
    case Grant(credits) => GrantKeepsInv(cfg, s, credits);
  }

  /** The state after a schedule, last action last. */
  ghost function Run(start: Start, schedule: seq<Action>): (s: State)
    ensures Inv(start.cfg, s)
  {
    if schedule == [] then
      InitInv(start);
      Init(start.cfg, start.memory)
    else
      var before := Run(start, schedule[..|schedule| - 1]);
      StepKeepsInv(start.cfg, before, schedule[|schedule| - 1]);
      Step(start.cfg, before, schedule[|schedule| - 1])
  }

  /** Every value `pop` ever returned is the value accepted at that position, positions
      only grow, and so no mixture of two laps escapes. */
  lemma PoppedExactly(start: Start, schedule: seq<Action>)
    ensures var h := Run(start, schedule).h;
            && (forall i :: 0 <= i < |h.taken| ==>
                  h.taken[i].position < |h.accepted| && h.taken[i].value == h.accepted[h.taken[i].position])
            && (forall i, j :: 0 <= i < j < |h.taken| ==> h.taken[i].position < h.taken[j].position)
  {
    var s := Run(start, schedule);
    assert Inv(start.cfg, s);
  }

  /** What is in the queue: the slots from `tail` to `head`, in order. */
  function Queue(cfg: Config, s: State): seq<Value>
    requires Shape(cfg, s)
  {
    seq(s.sh.head - s.sh.tail, i requires 0 <= i => s.sh.slots[(s.sh.tail + i) % cfg.capacity])
  }

  /** The queue's contents are a contiguous suffix of everything accepted. */
  lemma QueueIsSuffix(start: Start, schedule: seq<Action>)
    ensures var s := Run(start, schedule);
            Queue(start.cfg, s) == s.h.accepted[s.sh.tail..] && |Queue(start.cfg, s)| <= start.cfg.capacity
  {
    var s := Run(start, schedule);
    assert LiveSlots(start.cfg, s);
    forall i | 0 <= i < s.sh.head - s.sh.tail
      ensures Queue(start.cfg, s)[i] == s.h.accepted[s.sh.tail..][i]
    {
      assert s.sh.slots[(s.sh.tail + i) % start.cfg.capacity] == s.h.accepted[s.sh.tail + i];
    }
  }

  /** With no push in flight, every push is accounted for, every accepted record was
      popped, evicted or is still queued, and the results add up to the counters. */
  lemma Conservation(start: Start, schedule: seq<Action>)
    requires Run(start, schedule).p.pc.PIdle?
    ensures var s := Run(start, schedule);
            && |s.h.offered| == s.sh.head + s.sh.dropped + s.sh.refused == |s.h.results|
            && s.sh.tail == |s.h.taken| + s.sh.evicted
            && |s.h.accepted| == |s.h.taken| + s.sh.evicted + |Queue(start.cfg, s)|
            && s.sh.evicted == Count(s.h.results, Evicted)
            && s.sh.dropped == Count(s.h.results, Dropped)
            && s.sh.refused == Count(s.h.results, NoCredit)
            && |Queue(start.cfg, s)| <= s.sh.highWater <= start.cfg.capacity
  {
    var s := Run(start, schedule);
    assert Inv(start.cfg, s);
    CountsAddUp(s.h.results);
  }

  lemma {:induction false} CountsAddUp(results: seq<Pushed>)
    ensures |results| == Count(results, Queued) + Count(results, Evicted) + Count(results, Dropped) + Count(results, NoCredit)
  {
    if results != [] {
      CountsAddUp(results[..|results| - 1]);
    }
  }

  /** The high-water mark bounds the occupancy at every instant except between the two
      stores of one push, when it can be one record behind. */
  lemma HighWaterBounds(start: Start, schedule: seq<Action>)
    ensures var s := Run(start, schedule);
            && s.sh.highWater <= start.cfg.capacity
            && |Queue(start.cfg, s)| <= s.sh.highWater + (if s.p.pc.PHighWater? then 1 else 0)
  {
    var s := Run(start, schedule);
    assert Inv(start.cfg, s);
  }

  /** Credit is conserved, counting the counter's wraps, and it never wraps while the
      total granted fits it. */
  lemma CreditConserved(start: Start, schedule: seq<Action>)
    requires start.cfg.policy.Credit?
    requires Run(start, schedule).p.pc.PIdle?
    ensures var s := Run(start, schedule);
            && s.sh.credit + |s.h.accepted| + U32 * s.h.wraps == s.h.granted
            && (s.h.granted < U32 ==> s.h.wraps == 0)
  {
    var s := Run(start, schedule);
    assert Paid(s) == |s.h.accepted|;
    assert CreditOk(start.cfg, s);
  }

  /** Only `DropOldest` ever loses a record it accepted, and it never refuses one. */
  lemma LossByPolicy(start: Start, schedule: seq<Action>)
    ensures var s := Run(start, schedule);
            && (!start.cfg.policy.DropOldest? ==> s.sh.evicted == 0)
            && (start.cfg.policy.DropOldest? ==> s.sh.dropped == 0 && s.sh.refused == 0)
            && (start.cfg.policy.Credit? <== s.sh.refused > 0)
  {
    var s := Run(start, schedule);
    assert Inv(start.cfg, s);
  }

  /** Under the three refusing policies the consumer reads every accepted record, in
      order, with none missing. */
  lemma LosslessFifo(start: Start, schedule: seq<Action>)
    requires !start.cfg.policy.DropOldest?
    ensures var h := Run(start, schedule).h;
            forall i :: 0 <= i < |h.taken| ==>
              h.taken[i].position == i && i < |h.accepted| && h.taken[i].value == h.accepted[i]
  {
    var s := Run(start, schedule);
    assert Inv(start.cfg, s);
    assert !s.p.pc.PCountEvicted?;
    forall i | 0 <= i < |s.h.taken|
      ensures s.h.taken[i].position == i
    {
      PositionsAtLeast(s, i);
      PositionsAtMost(s, i);
    }
  }

  lemma {:induction false} PositionsAtLeast(s: State, i: nat)
    requires TakenOk(s) && i < |s.h.taken|
    ensures s.h.taken[i].position >= i
  {
    if i > 0 {
      PositionsAtLeast(s, i - 1);
    }
  }

  lemma {:induction false} PositionsAtMost(s: State, i: nat)
    requires TakenOk(s) && i < |s.h.taken|
    ensures s.h.taken[i].position <= s.sh.tail - |s.h.taken| + i
    decreases |s.h.taken| - i
  {
    if i + 1 < |s.h.taken| {
      PositionsAtMost(s, i + 1);
    }
  }

  /** An eviction happens only when the queue is full at that very instant, and it
      removes exactly the oldest record. */
  lemma EvictsOnlyWhenFull(cfg: Config, s: State, value: Value, spurious: bool)
    requires Inv(cfg, s)
    requires StepProducer(cfg, s, value, spurious).sh.tail != s.sh.tail
    ensures cfg.policy.DropOldest? && s.sh.head - s.sh.tail == cfg.capacity
    ensures StepProducer(cfg, s, value, spurious).sh.tail == s.sh.tail + 1
  {
  }

  /** Loop iterations of one push: one for the refusing policies, the spin budget plus
      one for `Spin`, and two for `DropOldest` when compare-and-exchange is strong. */
  lemma PushIsBounded(start: Start, schedule: seq<Action>)
    ensures var loops := Run(start, schedule).p.loops;
            match start.cfg.policy
            case DropNewest => loops <= 1
            case Credit => loops <= 1
            case Spin(n) => loops <= n + 1
            case DropOldest => start.cfg.weak || loops <= 2
  {
    var s := Run(start, schedule);
    assert Inv(start.cfg, s);
  }

  /** Nobody makes `pop` retry but an eviction of the position it is reading (or a
      spurious failure): while that position is queued, the slot's own sequence
      number always matches. */
  lemma PopRetriesOnlyAfterEviction(cfg: Config, s: State, spurious: bool)
    requires Inv(cfg, s) && !(s.c.pc.CIdle? || s.c.pc.CLoadTail?)
    requires StepConsumer(cfg, s, spurious).c.pc.CLoadTail?
    ensures s.c.tail < s.sh.tail || (cfg.weak && spurious)
  {
  }
}
