/** The interleaved queue against an atomic one: which steps change what is queued, and what
    one whole `push` or `pop` comes to when the other thread stands still, wherever it was
    stopped. */
module QueueSteps {
  import opened Arith
  import opened Flow

  // ---------------------------------------------------------------------------
  // Every step
  // ---------------------------------------------------------------------------

  lemma QueueAt(cfg: Config, s: State, i: nat)
    requires Inv(cfg, s) && i < s.sh.head - s.sh.tail
    ensures |Queue(cfg, s)| == s.sh.head - s.sh.tail
    ensures Queue(cfg, s)[i] == s.h.accepted[s.sh.tail + i]
  {
    var p := s.sh.tail + i;
    assert s.sh.slots[p % cfg.capacity] == s.h.accepted[p];
  }

  lemma QueueIsAccepted(cfg: Config, s: State)
    requires Inv(cfg, s)
    ensures Queue(cfg, s) == s.h.accepted[s.sh.tail..]
  {
    forall i | 0 <= i < s.sh.head - s.sh.tail
      ensures Queue(cfg, s)[i] == s.h.accepted[s.sh.tail..][i]
    {
      QueueAt(cfg, s, i);
    }
  }

  /** The producer's head store appends the value its push was called with, its eviction
      takes the oldest record of a full queue, and no other step of it changes the queue. */
  lemma ProducerRefines(cfg: Config, s: State, value: Value, spurious: bool)
    requires Inv(cfg, s)
    ensures var t := Step(cfg, s, ProducerStep(value, spurious));
            && Inv(cfg, t) && t.c == s.c && t.h.taken == s.h.taken
            && (s.p.pc.PStoreHead? ==> Queue(cfg, t) == Queue(cfg, s) + [s.h.offered[|s.h.results|]])
            && (s.p.pc.PEvict? && t.p.pc.PCountEvicted? ==>
                  |Queue(cfg, s)| == cfg.capacity && Queue(cfg, t) == Queue(cfg, s)[1..])
            && (!s.p.pc.PStoreHead? && !(s.p.pc.PEvict? && t.p.pc.PCountEvicted?) ==> Queue(cfg, t) == Queue(cfg, s))
  {
    hide Inv, Queue, Step;
    StepKeepsInv(cfg, s, ProducerStep(value, spurious));
    QueueIsAccepted(cfg, s);
    QueueIsAccepted(cfg, Step(cfg, s, ProducerStep(value, spurious)));
    ProducerSlides(cfg, s, value, spurious);
  }

  lemma ProducerSlides(cfg: Config, s: State, value: Value, spurious: bool)
    requires Inv(cfg, s)
    ensures s.sh.tail <= |s.h.accepted| == s.sh.head
    ensures var t := Step(cfg, s, ProducerStep(value, spurious));
            && t.c == s.c && t.h.taken == s.h.taken && t.sh.tail <= |t.h.accepted|
            && (s.p.pc.PStoreHead? ==> t.h.accepted == s.h.accepted + [s.p.value] && t.sh.tail == s.sh.tail)
            && (!s.p.pc.PIdle? ==> |s.h.offered| == |s.h.results| + 1 && s.p.value == s.h.offered[|s.h.results|])
            && (s.p.pc.PEvict? && t.p.pc.PCountEvicted? ==> t.sh.tail == s.sh.tail + 1 && s.sh.head == s.sh.tail + cfg.capacity)
            && (!s.p.pc.PStoreHead? ==> t.h.accepted == s.h.accepted)
            && (!(s.p.pc.PEvict? && t.p.pc.PCountEvicted?) ==> t.sh.tail == s.sh.tail)
  {
  }

  /** A pop returns a record only by taking the oldest one out of the queue, and returns
      nothing only when the queue is empty at that very step; every other step of it leaves
      the queue and the history alone. */
  lemma ConsumerRefines(cfg: Config, s: State, spurious: bool)
    requires Inv(cfg, s)
    ensures var t := Step(cfg, s, ConsumerStep(spurious));
            && Inv(cfg, t) && t.p == s.p
            && (s.c.pc.CClaim? && t.c.pc.CIdle? ==>
                  && Queue(cfg, s) != [] && Queue(cfg, t) == Queue(cfg, s)[1..]
                  && t.h == s.h.(taken := s.h.taken + [Taken(s.sh.tail, Queue(cfg, s)[0])]))
            && (!(s.c.pc.CClaim? && t.c.pc.CIdle?) ==> Queue(cfg, t) == Queue(cfg, s) && t.h == s.h && t.sh == s.sh)
            && (t.c.pc.CIdle? ==> s.c.pc.CClaim? || (s.c.pc.CLoadHead? && Queue(cfg, s) == []))
            && (s.c.pc.CLoadHead? && s.c.tail == s.sh.tail && Queue(cfg, s) == [] ==> t.c.pc.CIdle?)
  {
    hide LiveSlots, ProducerOk, Counters, OfferedOk, LossOk, HighWaterOk, CreditOk, LoopsOk, Kept;
    StepKeepsInv(cfg, s, ConsumerStep(spurious));
    QueueIsAccepted(cfg, s);
    QueueIsAccepted(cfg, Step(cfg, s, ConsumerStep(spurious)));
  }

  /** A push refuses only when the queue is full at that very step, or its credit gone. */
  lemma RefusesOnlyWhenFull(cfg: Config, s: State, value: Value, spurious: bool)
    requires Inv(cfg, s)
    ensures var t := Step(cfg, s, ProducerStep(value, spurious));
            && (s.p.pc.PLoadTail? ==> (t.p.pc.PWriteWord? <==> |Queue(cfg, s)| < cfg.capacity))
            && (s.p.pc.PLoadCredit? ==> (t.p.pc.PCountRefused? <==> s.sh.credit == 0))
            && (t.p.pc.PCountRefused? ==>
                  cfg.policy.Credit? && ((s.p.pc.PLoadTail? && |Queue(cfg, s)| == cfg.capacity) || (s.p.pc.PLoadCredit? && s.sh.credit == 0)))
            && (t.p.pc.PCountDropped? ==> s.p.pc.PLoadTail? && |Queue(cfg, s)| == cfg.capacity)
            && (t.p.pc.PCountDropped? ==> cfg.policy.DropNewest? || (cfg.policy.Spin? && t.p.loops == cfg.policy.spins + 1))
  {
    hide LiveSlots, ConsumerOk, TakenOk, Counters, OfferedOk, HighWaterOk, CreditOk, Kept;
  }

  /** What a finished push reports: `Dropped` and `NoCredit` after such a refusal only, `Queued`
      and `Evicted` only with its value stored. */
  lemma PushReports(cfg: Config, s: State, value: Value, spurious: bool)
    requires Inv(cfg, s)
    ensures var t := Step(cfg, s, ProducerStep(value, spurious));
            && (t.h.results != s.h.results ==> t.p.pc.PIdle? && !s.p.pc.PIdle?)
            && (t.p.pc.PIdle? && !s.p.pc.PIdle? ==>
                  t.h.results == s.h.results + [if s.p.pc.PCountDropped? then Dropped
                                                else if s.p.pc.PCountRefused? then NoCredit
                                                else if s.p.pc.PStoreHead? then Evicted else Queued])
  {
    hide LiveSlots, ConsumerOk, TakenOk, Counters, OfferedOk, HighWaterOk, CreditOk, Kept;
  }

  /** Whatever the schedule, what is accepted is exactly the values of the pushes that said so,
      in the order of the pushes; the last may still be waiting to say so. */
  lemma AcceptedAreOffered(start: Start, schedule: seq<Action>)
    ensures var s := Run(start, schedule);
            && |s.h.results| <= |s.h.offered|
            && s.h.accepted == Kept(s.h.offered, s.h.results) + (if s.p.pc.PHighWater? || s.p.pc.PSpendCredit? then [s.h.offered[|s.h.results|]] else [])
  {
    hide Kept;
    var s := Run(start, schedule);
    assert Inv(start.cfg, s);
  }

  // ---------------------------------------------------------------------------
  // One pop, the producer standing still
  // ---------------------------------------------------------------------------

  /** The consumer's next `n` steps, with no spurious failure. */
  ghost function Pops(cfg: Config, s: State, n: nat): (t: State)
    requires Inv(cfg, s)
    ensures Inv(cfg, t)
    decreases n
  {
    hide Inv, Step;
    if n == 0 then s
    else
      StepKeepsInv(cfg, s, ConsumerStep(false));
      Pops(cfg, Step(cfg, s, ConsumerStep(false)), n - 1)
  }

  /** At most how many steps are left: a round that an eviction has already spoilt ends in
      one more, which nothing can spoil. */
  function PopLeft(cfg: Config, s: State): nat {
    var round :=
      match s.c.pc
      case CIdle => cfg.width + 6
      case CLoadTail => cfg.width + 5
      case CLoadHead => cfg.width + 4
      case CSeqBefore => cfg.width + 3
      case CCopyWord => Max(cfg.width - |s.c.copied|, 0) + 2
      case CClaim => 1;
    round + if s.c.pc.CIdle? || s.c.pc.CLoadTail? || s.c.tail == s.sh.tail then 0 else cfg.width + 5
  }

  /** Each step that does not return leaves fewer to go and changes nothing shared. */
  lemma PopProgress(cfg: Config, s: State)
    requires Inv(cfg, s)
    ensures var t := Step(cfg, s, ConsumerStep(false));
            !t.c.pc.CIdle? ==> PopLeft(cfg, t) < PopLeft(cfg, s)
  {
    hide ProducerOk, TakenOk, Counters, OfferedOk, LossOk, HighWaterOk, CreditOk, LoopsOk, Kept;
  }

  /** From any moment whatever, mid-pop or not, a pop that runs alone returns within a number
      of steps that depends only on the size of a record: with the oldest record if there is
      one, and with nothing exactly if the queue is empty. */
  lemma {:induction false} PopCompletes(cfg: Config, s: State) returns (n: nat)
    requires Inv(cfg, s)
    ensures 0 < n <= PopLeft(cfg, s) <= 2 * cfg.width + 9
    ensures var t := Pops(cfg, s, n);
            && t.c.pc.CIdle? && t.p == s.p
            && (if Queue(cfg, s) == [] then t.h == s.h && t.sh == s.sh
                else t.h == s.h.(taken := s.h.taken + [Taken(s.sh.tail, Queue(cfg, s)[0])]) && Queue(cfg, t) == Queue(cfg, s)[1..])
    decreases PopLeft(cfg, s)
  {
    hide Inv, Queue, Step;
    ConsumerRefines(cfg, s, false);
    PopProgress(cfg, s);
    PopLeftBound(cfg, s);
    var t := Step(cfg, s, ConsumerStep(false));
    if t.c.pc.CIdle? {
      n := 1;
      ClaimIsLast(cfg, s);
    } else {
      var m := PopCompletes(cfg, t);
      n := m + 1;
    }
  }

  lemma PopLeftBound(cfg: Config, s: State)
    ensures Inv(cfg, s) ==> 0 < PopLeft(cfg, s) <= 2 * cfg.width + 9
  {
  }

  lemma ClaimIsLast(cfg: Config, s: State)
    requires Inv(cfg, s)
    ensures Pops(cfg, s, 1) == Step(cfg, s, ConsumerStep(false))
  {
    hide Inv, Step;
    StepKeepsInv(cfg, s, ConsumerStep(false));
    assert Pops(cfg, Step(cfg, s, ConsumerStep(false)), 0) == Step(cfg, s, ConsumerStep(false));
  }

  // ---------------------------------------------------------------------------
  // One push, the consumer standing still
  // ---------------------------------------------------------------------------

  /** What a push leaves: its answer, the queue, the mark, the eviction attempts and the
      credit. */
  datatype Outcome = Outcome(result: Pushed, queue: seq<Value>, highWater: nat, reused: nat, credit: nat)

  /** What one more accepted record does to the credit. */
  function Spent(cfg: Config, s: State): nat {
    if !cfg.policy.Credit? then s.sh.credit else if s.sh.credit > 0 then s.sh.credit - 1 else U32 - 1
  }

  /** What a push comes to that looks at the queue now. */
  function OnLooking(cfg: Config, s: State, reused: nat): Outcome
    requires Inv(cfg, s)
  {
    var sh, q, v := s.sh, Queue(cfg, s), s.p.value;
    if |q| < cfg.capacity then Outcome(Queued, q + [v], Max(sh.highWater, |q| + 1), reused, Spent(cfg, s))
    else match cfg.policy
      case DropOldest => Outcome(Evicted, q[1..] + [v], sh.highWater, reused + 1, sh.credit)
      case Credit => Outcome(NoCredit, q, sh.highWater, reused, sh.credit)
      case _ => Outcome(Dropped, q, sh.highWater, reused, sh.credit)
  }

  /** What the push under way will come to. */
  function Expected(cfg: Config, s: State): Outcome
    requires Inv(cfg, s)
  {
    var sh, p, q, v := s.sh, s.p, Queue(cfg, s), s.p.value;
    var mark := Max(sh.highWater, p.head - p.tail + 1);
    match p.pc
    case PLoadCredit => if sh.credit == 0 then Outcome(NoCredit, q, sh.highWater, sh.reused, sh.credit) else OnLooking(cfg, s, sh.reused)
    case PWriteWord | PStoreHead =>
      if p.evicting then Outcome(Evicted, q + [v], sh.highWater, sh.reused, sh.credit)
      else Outcome(Queued, q + [v], mark, sh.reused, Spent(cfg, s))
    case PHighWater => Outcome(Queued, q, mark, sh.reused, Spent(cfg, s))
    case PSpendCredit => Outcome(Queued, q, sh.highWater, sh.reused, Spent(cfg, s))
    case PCountReused =>
      if p.tail == sh.tail && q != [] then Outcome(Evicted, q[1..] + [v], sh.highWater, sh.reused + 1, sh.credit)
      else OnLooking(cfg, s, sh.reused + 1)
    case PEvict =>
      if p.tail == sh.tail && q != [] then Outcome(Evicted, q[1..] + [v], sh.highWater, sh.reused, sh.credit)
      else OnLooking(cfg, s, sh.reused)
    case PCountEvicted => Outcome(Evicted, q + [v], sh.highWater, sh.reused, sh.credit)
    case PCountDropped => Outcome(Dropped, q, sh.highWater, sh.reused, sh.credit)
    case PCountRefused => Outcome(NoCredit, q, sh.highWater, sh.reused, sh.credit)
    case _ => OnLooking(cfg, s, sh.reused)
  }

  /** At most how many steps are left of a push under way. */
  function PushLeft(cfg: Config, s: State): nat {
    var p, look := s.p, cfg.width + 9 + 2 * s.p.spinsLeft;
    match p.pc
    case PIdle => 0
    case PLoadCredit => look + 1
    case PLoadHead => look
    case PLoadTail => look - 1
    case PWriteWord => Max(cfg.width - p.words, 0) + 4
    case PStoreHead => 3
    case PHighWater => 2
    case PSpendCredit => 1
    case PCountReused => cfg.width + 7 + (if p.tail == s.sh.tail then 0 else look)
    case PEvict => cfg.width + 6 + (if p.tail == s.sh.tail then 0 else look)
    case PCountEvicted => cfg.width + 5
    case PCountDropped => 1
    case PCountRefused => 1
  }

  lemma PushProgress(cfg: Config, s: State, value: Value)
    requires Inv(cfg, s) && !s.p.pc.PIdle?
    ensures var t := Step(cfg, s, ProducerStep(value, false));
            PushLeft(cfg, t) < PushLeft(cfg, s) <= 2 * cfg.width + 16 + 2 * s.p.spinsLeft && (t.p.pc.PIdle? <==> PushLeft(cfg, t) == 0)
  {
    hide LiveSlots, ConsumerOk, TakenOk, Counters, OfferedOk, LossOk, HighWaterOk, CreditOk, LoopsOk, Kept;
  }

  ghost predicate CameTo(cfg: Config, s: State, o: Outcome)
    requires Inv(cfg, s)
  {
    Queue(cfg, s) == o.queue && s.sh.highWater == o.highWater && s.sh.reused == o.reused && s.sh.credit == o.credit
  }

  /** Still looking for a slot, or evicting to get one. */
  predicate Looking(pc: ProducerPc) {
    pc.PLoadCredit? || pc.PLoadHead? || pc.PLoadTail? || pc.PCountReused? || pc.PEvict?
  }

  lemma LookingExpects(cfg: Config, s: State, value: Value)
    requires Inv(cfg, s) && Looking(s.p.pc)
    ensures var t := Step(cfg, s, ProducerStep(value, false));
            && Inv(cfg, t) && t.c == s.c && t.h.taken == s.h.taken && t.h.offered == s.h.offered && !t.p.pc.PIdle?
            && Expected(cfg, t) == Expected(cfg, s) && t.h.results == s.h.results
  {
    hide LiveSlots, ConsumerOk, TakenOk, Counters, OfferedOk, LossOk, HighWaterOk, CreditOk, LoopsOk, Kept, Queue;
    ProducerRefines(cfg, s, value, false);
    QueueLength(cfg, s);
    QueueLength(cfg, Step(cfg, s, ProducerStep(value, false)));
  }

  /** No step of a push changes what it will come to, and the last one brings it about. */
  lemma PushExpects(cfg: Config, s: State, value: Value)
    requires Inv(cfg, s) && !s.p.pc.PIdle?
    ensures var t := Step(cfg, s, ProducerStep(value, false));
            && Inv(cfg, t) && t.c == s.c && t.h.taken == s.h.taken && t.h.offered == s.h.offered
            && (if t.p.pc.PIdle? then CameTo(cfg, t, Expected(cfg, s)) && t.h.results == s.h.results + [Expected(cfg, s).result]
                else Expected(cfg, t) == Expected(cfg, s) && t.h.results == s.h.results)
  {
    hide LiveSlots, ConsumerOk, TakenOk, Counters, OfferedOk, LossOk, HighWaterOk, CreditOk, LoopsOk, Kept, Queue, OnLooking;
    if Looking(s.p.pc) {
      LookingExpects(cfg, s, value);
    } else {
      ProducerRefines(cfg, s, value, false);
      OfferedIs(s);
    }
  }

  lemma QueueLength(cfg: Config, s: State)
    requires Shape(cfg, s)
    ensures |Queue(cfg, s)| == s.sh.head - s.sh.tail
  {
  }

  lemma OfferedIs(s: State)
    requires OfferedOk(s) && !s.p.pc.PIdle?
    ensures |s.h.offered| == |s.h.results| + 1 && s.h.offered[|s.h.results|] == s.p.value
  {
  }

  /** The producer's next `n` steps, with no spurious failure. */
  ghost function Pushes(cfg: Config, s: State, value: Value, n: nat): (t: State)
    requires Inv(cfg, s)
    ensures Inv(cfg, t)
    decreases n
  {
    hide Inv, Step;
    if n == 0 then s
    else
      StepKeepsInv(cfg, s, ProducerStep(value, false));
      Pushes(cfg, Step(cfg, s, ProducerStep(value, false)), value, n - 1)
  }

  lemma OnePush(cfg: Config, s: State, value: Value)
    requires Inv(cfg, s)
    ensures Pushes(cfg, s, value, 1) == Step(cfg, s, ProducerStep(value, false))
  {
    hide Inv, Step;
    StepKeepsInv(cfg, s, ProducerStep(value, false));
    assert Pushes(cfg, Step(cfg, s, ProducerStep(value, false)), value, 0) == Step(cfg, s, ProducerStep(value, false));
  }

  /** From any moment of it a push that runs alone returns, and comes to what was expected. */
  lemma {:induction false} PushCompletes(cfg: Config, s: State, value: Value) returns (n: nat)
    requires Inv(cfg, s) && !s.p.pc.PIdle?
    ensures 0 < n <= PushLeft(cfg, s) <= 2 * cfg.width + 16 + 2 * s.p.spinsLeft
    ensures var t := Pushes(cfg, s, value, n);
            && t.p.pc.PIdle? && t.c == s.c && t.h.taken == s.h.taken && t.h.offered == s.h.offered
            && CameTo(cfg, t, Expected(cfg, s)) && t.h.results == s.h.results + [Expected(cfg, s).result]
    decreases PushLeft(cfg, s)
  {
    hide Inv, Queue, Step, Expected, CameTo, PushLeft;
    PushExpects(cfg, s, value);
    PushProgress(cfg, s, value);
    var t := Step(cfg, s, ProducerStep(value, false));
    if t.p.pc.PIdle? {
      n := 1;
      OnePush(cfg, s, value);
    } else {
      var m := PushCompletes(cfg, t, value);
      n := m + 1;
    }
  }

  /** What a push means when nothing interferes. With room the value goes to the end of the
      queue; without it the policy decides whether the oldest record or the new one is lost. */
  lemma PushAlone(cfg: Config, s: State, value: Value) returns (n: nat)
    requires Inv(cfg, s) && s.p.pc.PIdle? && |value| == cfg.width
    ensures n <= 2 * cfg.width + 17 + (if cfg.policy.Spin? then 2 * cfg.policy.spins else 0)
    ensures var t, q := Pushes(cfg, s, value, n), Queue(cfg, s);
            && t.p.pc.PIdle? && t.c == s.c && t.h.taken == s.h.taken && t.h.offered == s.h.offered + [value]
            && (if cfg.policy.Credit? && s.sh.credit == 0 then
                  t.h.results == s.h.results + [NoCredit] && Queue(cfg, t) == q && t.sh.credit == 0
                else if |q| < cfg.capacity then
                  && t.h.results == s.h.results + [Queued] && Queue(cfg, t) == q + [value]
                  && t.sh.highWater == Max(s.sh.highWater, |q| + 1)
                  && t.sh.credit == s.sh.credit - (if cfg.policy.Credit? then 1 else 0)
                else match cfg.policy
                  case DropOldest => t.h.results == s.h.results + [Evicted] && Queue(cfg, t) == q[1..] + [value]
                  case DropNewest => t.h.results == s.h.results + [Dropped] && Queue(cfg, t) == q
                  case Spin(_) => t.h.results == s.h.results + [Dropped] && Queue(cfg, t) == q
                  case Credit => t.h.results == s.h.results + [NoCredit] && Queue(cfg, t) == q && t.sh.credit == s.sh.credit)
            && t.sh.reused == s.sh.reused + (if cfg.policy.DropOldest? && |q| == cfg.capacity then 1 else 0)
            && (t.h.results[|s.h.results|].Queued? || t.sh.highWater == s.sh.highWater)
  {
    hide Inv, Queue, PushLeft, Expected, Step;
    PushStarts(cfg, s, value);
    QueueBound(cfg, s);
    var t := Step(cfg, s, ProducerStep(value, false));
    var m := PushCompletes(cfg, t, value);
    n := m + 1;
  }

  lemma QueueBound(cfg: Config, s: State)
    ensures Inv(cfg, s) ==> |Queue(cfg, s)| <= cfg.capacity
  {
  }

  lemma PushStarts(cfg: Config, s: State, value: Value)
    requires Inv(cfg, s) && s.p.pc.PIdle? && |value| == cfg.width
    ensures var t := Step(cfg, s, ProducerStep(value, false));
            && Inv(cfg, t) && !t.p.pc.PIdle? && t.p.value == value && t.sh == s.sh && t.c == s.c
            && t.h == s.h.(offered := s.h.offered + [value]) && Queue(cfg, t) == Queue(cfg, s)
            && t.p.spinsLeft == (match cfg.policy case Spin(n) => n case _ => 0)
            && Expected(cfg, t) == (if cfg.policy.Credit? && s.sh.credit == 0 then Outcome(NoCredit, Queue(cfg, s), s.sh.highWater, s.sh.reused, 0)
                                    else OnLooking(cfg, t, s.sh.reused))
  {
    hide LiveSlots, ConsumerOk, TakenOk, Counters, OfferedOk, LossOk, HighWaterOk, CreditOk, LoopsOk, Kept, Queue, OnLooking;
    ProducerRefines(cfg, s, value, false);
  }

  /** A grant between pops adds to the credit, wrapping at 32 bits, and does nothing else. */
  lemma GrantAdds(cfg: Config, s: State, credits: nat)
    requires Inv(cfg, s) && s.c.pc.CIdle? && credits < U32
    ensures var t := Step(cfg, s, Grant(credits));
            && t.sh == s.sh.(credit := (s.sh.credit + credits) % U32) && t.p == s.p && t.c == s.c
            && t.h.granted == s.h.granted + credits
  {
    hide LiveSlots, ProducerOk, ConsumerOk, TakenOk, Counters, OfferedOk, LossOk, HighWaterOk, LoopsOk;
  }

  // ---------------------------------------------------------------------------
  // The high-water mark
  // ---------------------------------------------------------------------------

  /** The most that was ever queued at once. */
  ghost function Peak(start: Start, schedule: seq<Action>): (most: nat)
    ensures |Queue(start.cfg, Run(start, schedule))| <= most
  {
    var now := |Queue(start.cfg, Run(start, schedule))|;
    if schedule == [] then now else Max(Peak(start, schedule[..|schedule| - 1]), now)
  }

  /** The mark, or the mark a push is about to set, is the peak or one above it. */
  predicate MarkOk(s: State, peak: nat) {
    && s.sh.highWater <= peak + 1
    && ((Filling(s.p.pc) || s.p.pc.PHighWater?) && !s.p.evicting ==> s.p.head - s.p.tail <= peak)
    && peak <= s.sh.highWater + (if s.p.pc.PHighWater? then 1 else 0)
    && (s.p.pc.PHighWater? ==> peak <= Max(s.sh.highWater, s.p.head - s.p.tail + 1))
  }

  lemma StepMarks(cfg: Config, s: State, a: Action, peak: nat)
    requires Inv(cfg, s) && MarkOk(s, peak) && |Queue(cfg, s)| <= peak
    ensures MarkOk(Step(cfg, s, a), peak)
  {
    hide LiveSlots, ConsumerOk, TakenOk, Counters, OfferedOk, LossOk, HighWaterOk, CreditOk, LoopsOk, Kept;
  }

  /** What is queued raises the peak no further than the mark. */
  lemma MarkCovers(cfg: Config, s: State, peak: nat)
    requires Inv(cfg, s) && MarkOk(s, peak)
    ensures MarkOk(s, Max(peak, |Queue(cfg, s)|))
  {
    hide LiveSlots, ConsumerOk, TakenOk, Counters, OfferedOk, LossOk, CreditOk, LoopsOk, Kept, Queue;
    QueueLength(cfg, s);
  }

  /** The mark is the most that was ever queued, to within the one record that a push is
      publishing: a record popped while its push is between two steps still counts. */
  lemma {:induction false} HighWaterIsPeak(start: Start, schedule: seq<Action>)
    ensures var s, peak := Run(start, schedule), Peak(start, schedule);
            && s.sh.highWater <= peak + 1 && peak <= s.sh.highWater + (if s.p.pc.PHighWater? then 1 else 0)
            && MarkOk(s, peak)
  {
    hide Step, Inv, Queue;
    if schedule == [] {
      MarkAtFirst(start);
    } else {
      var front, a := schedule[..|schedule| - 1], schedule[|schedule| - 1];
      HighWaterIsPeak(start, front);
      StepMarks(start.cfg, Run(start, front), a, Peak(start, front));
      MarkCovers(start.cfg, Run(start, schedule), Peak(start, front));
    }
  }

  lemma MarkAtFirst(start: Start)
    ensures Queue(start.cfg, Run(start, [])) == [] && MarkOk(Run(start, []), 0)
  {
  }
}
