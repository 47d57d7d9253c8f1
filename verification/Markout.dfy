/** Markouts: what the midpoint did after each execution, settled at fixed horizons from a
    ring of 64 pending observations per symbol. */
module Markout {
  import opened Arith
  import opened Codec
  import opened Fixed
  import opened Slippage

  const HORIZONS: nat := 3
  const PENDING_PER_SYMBOL: nat := 64

  /** One execution waiting for its horizons. `marks[h]` is the settled markout; the source
      keeps only whether it is there, one bit per horizon. */
  datatype Observation = Observation(at: u64, taker: Taker, px: i64, marks: seq<Option<i64>>, done: bool)

  type Pending = o: Observation | |o.marks| == HORIZONS witness Vacant

  datatype Acc = Acc(count: nat, sum: int, worst: int)

  /** What a symbol's executions have come to. `gone` are the observations that newer ones have overwritten, in
      the order of their executions; the source forgets them. */
  datatype Ledger = Ledger(executions: nat, markout: seq<Acc>, dropped: nat, pending: seq<Pending>, next: nat, gone: seq<Pending>)

  const NoMarks: seq<Option<i64>> := [None, None, None]
  const NoAcc: Acc := Acc(0, 0, 0)
  const Vacant: Observation := Observation(0, Buy, 0, NoMarks, true)

  type Horizon = h: nat | h < HORIZONS

  type Horizons = hs: seq<u64> | |hs| == HORIZONS witness [0, 0, 0]

  function Vacancies(n: nat): (ps: seq<Pending>)
    ensures |ps| == n && forall i :: 0 <= i < n ==> ps[i] == Vacant
  {
    seq(n, _ => Vacant)
  }

  function NoAccs(n: nat): (accs: seq<Acc>)
    ensures |accs| == n && forall i :: 0 <= i < n ==> accs[i] == NoAcc
  {
    seq(n, _ => NoAcc)
  }

  function NewLedger(): Ledger {
    Ledger(0, NoAccs(HORIZONS), 0, Vacancies(PENDING_PER_SYMBOL), 0, [])
  }

  function Elapsed(now: u64, at: u64): u64 {
    if now >= at then now - at else 0
  }

  predicate Complete(p: Pending) {
    forall h :: 0 <= h < HORIZONS ==> p.marks[h].Some?
  }

  predicate Due(hs: Horizons, p: Pending, h: Horizon, now: u64)
  {
    !p.done && p.marks[h].None? && Elapsed(now, p.at) >= hs[h]
  }

  /** The move since the execution, positive in the position's favour. */
  function Mark(p: Pending, mid: i64): i64 {
    DeltaBps(Adverse(p.taker, mid, p.px), p.px)
  }

  /** A mark is the move over the execution's price, and its sign says whom it favours: a
      buyer wants the midpoint to rise, a seller to fall. */
  lemma MarkFavoursTheTaker(p: Pending, mid: i64)
    requires p.px > 0
    ensures Fits(mid - p.px, p.px) ==>
              && Mark(p, mid) == Sign(p.taker) * Trunc((mid - p.px) * BPS, p.px)
              && (Sign(p.taker) * (mid - p.px) >= 0 ==> Mark(p, mid) >= 0)
              && (Sign(p.taker) * (mid - p.px) <= 0 ==> Mark(p, mid) <= 0)
  {
    hide Trunc, DeltaBps;
    if Fits(mid - p.px, p.px) {
      ExactBps(p.taker, mid - p.px, p.px);
      SignedTrunc(mid - p.px, p.px);
    }
  }

  function Credit(a: Acc, mark: i64): Acc {
    Acc(a.count + 1, a.sum + mark, Min(a.worst, mark))
  }

  function Settled(hs: Horizons, p: Pending, now: u64, mid: i64): (q: Pending) {
    var marks := seq(HORIZONS, h requires 0 <= h < HORIZONS => if Due(hs, p, h, now) then Some(Mark(p, mid)) else p.marks[h]);
    var q := p.(marks := marks);
    q.(done := p.done || Complete(q))
  }

  function AllSettled(hs: Horizons, ps: seq<Pending>, now: u64, mid: i64): (qs: seq<Pending>)
    ensures |qs| == |ps| && forall i :: 0 <= i < |ps| ==> qs[i] == Settled(hs, ps[i], now, mid)
  {
    if ps == [] then [] else AllSettled(hs, ps[..|ps| - 1], now, mid) + [Settled(hs, ps[|ps| - 1], now, mid)]
  }

  /** One horizon's accumulator after every due observation has been credited in order. */
  function CreditAll(hs: Horizons, a: Acc, ps: seq<Pending>, h: Horizon, now: u64, mid: i64): Acc
  {
    if ps == [] then a
    else
      var p, before := ps[|ps| - 1], CreditAll(hs, a, ps[..|ps| - 1], h, now, mid);
      if Due(hs, p, h, now) then Credit(before, Mark(p, mid)) else before
  }

  predicate ShapedLedger(l: Ledger) {
    && |l.markout| == HORIZONS && |l.pending| == PENDING_PER_SYMBOL
    && l.next < PENDING_PER_SYMBOL
  }

  function Resolved(hs: Horizons, l: Ledger, now: u64, mid: i64): (r: Ledger)
    requires ShapedLedger(l)
    ensures ShapedLedger(r)
  {
    l.(pending := AllSettled(hs, l.pending, now, mid),
       markout := seq(HORIZONS, h requires 0 <= h < HORIZONS => CreditAll(hs, l.markout[h], l.pending, h, now, mid)))
  }

  /** Queue an execution's observation over the oldest slot. */
  function Executed(l: Ledger, now: u64, e: Execution): (r: Ledger)
    requires ShapedLedger(l)
    ensures ShapedLedger(r)
  {
    var oldest := l.pending[l.next];
    Ledger(l.executions + 1, l.markout, l.dropped + (if oldest.done then 0 else 1),
           l.pending[l.next := Observation(now, e.taker, e.actionPx, NoMarks, false)],
           (l.next + 1) % PENDING_PER_SYMBOL,
           if l.executions >= PENDING_PER_SYMBOL then l.gone + [oldest] else l.gone)
  }

  datatype Op = Execute(now: u64, e: Execution) | Resolve(now: u64, mid: i64)

  function Step(hs: Horizons, l: Ledger, op: Op): (r: Ledger)
    requires ShapedLedger(l)
    ensures ShapedLedger(r)
  {
    match op
    case Execute(now, e) => Executed(l, now, e)
    case Resolve(now, mid) => Resolved(hs, l, now, mid)
  }

  function Run(hs: Horizons, ops: seq<Op>): (l: Ledger)
    ensures ShapedLedger(l)
  {
    if ops == [] then NewLedger() else Step(hs, Run(hs, ops[..|ops| - 1]), ops[|ops| - 1])
  }

  // ---------------------------------------------------------------------------
  // Tallies
  // ---------------------------------------------------------------------------

  function Merge(a: Acc, b: Acc): Acc {
    Acc(a.count + b.count, a.sum + b.sum, Min(a.worst, b.worst))
  }

  /** What the marks of some observations come to at one horizon. */
  function Tally(ps: seq<Pending>, h: Horizon): (a: Acc)
    ensures a.worst <= 0 && a.count <= |ps|
  {
    if ps == [] then NoAcc
    else
      var before := Tally(ps[..|ps| - 1], h);
      match ps[|ps| - 1].marks[h]
      case Some(mark) => Credit(before, mark)
      case None => before
  }

  lemma TallyAppend(ps: seq<Pending>, p: Pending, h: Horizon)
    ensures Tally(ps + [p], h) == match p.marks[h] case Some(mark) => Credit(Tally(ps, h), mark) case None => Tally(ps, h)
  {
    assert (ps + [p])[..|ps|] == ps;
  }

  lemma TallyOne(p: Pending, h: Horizon)
    ensures Tally([p], h) == match p.marks[h] case Some(mark) => Credit(NoAcc, mark) case None => NoAcc
  {
    TallyAppend([], p, h);
    assert [] + [p] == [p];
  }

  /** Replacing one observation swaps its mark for the other's. */
  lemma {:induction false} TallyReplace(ps: seq<Pending>, i: nat, q: Pending, h: Horizon)
    requires i < |ps|
    ensures Merge(Tally(ps[i := q], h), Tally([ps[i]], h)) == Merge(Tally(ps, h), Tally([q], h))
  {
    hide Tally;
    var front, p := ps[..|ps| - 1], ps[|ps| - 1];
    assert ps == front + [p];
    TallyAppend(front, p, h);
    TallyOne(ps[i], h);
    TallyOne(q, h);
    if i == |ps| - 1 {
      assert ps[i := q] == front + [q];
      TallyAppend(front, q, h);
    } else {
      assert ps[i := q] == front[i := q] + [p];
      TallyAppend(front[i := q], p, h);
      TallyReplace(front, i, q, h);
    }
  }

  lemma CreditAllAppend(hs: Horizons, a: Acc, ps: seq<Pending>, p: Pending, h: Horizon, now: u64, mid: i64)
    ensures CreditAll(hs, a, ps + [p], h, now, mid) ==
            if Due(hs, p, h, now) then Credit(CreditAll(hs, a, ps, h, now, mid), Mark(p, mid)) else CreditAll(hs, a, ps, h, now, mid)
    ensures AllSettled(hs, ps + [p], now, mid) == AllSettled(hs, ps, now, mid) + [Settled(hs, p, now, mid)]
  {
    assert (ps + [p])[..|ps|] == ps;
  }

  lemma SettledMark(hs: Horizons, p: Pending, h: Horizon, now: u64, mid: i64)
    ensures Settled(hs, p, now, mid).marks[h] == if Due(hs, p, h, now) then Some(Mark(p, mid)) else p.marks[h]
    ensures Due(hs, p, h, now) ==> p.marks[h] == None
  {
  }

  lemma CreditOne(hs: Horizons, a: Acc, b: Acc, front: seq<Pending>, p: Pending, h: Horizon, now: u64, mid: i64)
    requires CreditAll(hs, a, front, h, now, mid) == b
    ensures CreditAll(hs, a, front + [p], h, now, mid) == if Due(hs, p, h, now) then Credit(b, Mark(p, mid)) else b
    ensures AllSettled(hs, front + [p], now, mid) == AllSettled(hs, front, now, mid) + [Settled(hs, p, now, mid)]
  {
    CreditAllAppend(hs, a, front, p, h, now, mid);
  }

  /** Crediting what falls due keeps an accumulator equal to the tally of the marks. */
  lemma {:induction false} CreditKeepsTally(hs: Horizons, g: Acc, ps: seq<Pending>, h: Horizon, now: u64, mid: i64)
    requires g.worst <= 0
    ensures CreditAll(hs, Merge(g, Tally(ps, h)), ps, h, now, mid) == Merge(g, Tally(AllSettled(hs, ps, now, mid), h))
    decreases |ps|
  {
    hide *;
    if ps == [] {
      NothingToCredit(hs, g, h, now, mid);
    } else {
      var front, p := ps[..|ps| - 1], ps[|ps| - 1];
      assert ps == front + [p];
      var front', p' := AllSettled(hs, front, now, mid), Settled(hs, p, now, mid);
      var g' := if p.marks[h].Some? then Credit(g, p.marks[h].value) else g;
      CreditOrder(g, Tally(front, h), p.marks[h]);
      CreditOrder(g, Tally(front', h), p'.marks[h]);
      TallyAppend(front, p, h);
      TallyAppend(front', p', h);
      SettledMark(hs, p, h, now, mid);
      CreditKeepsTally(hs, g', front, h, now, mid);
      CreditOrder(g, Tally(front', h), p.marks[h]);
      CreditOne(hs, Merge(g', Tally(front, h)), Merge(g', Tally(front', h)), front, p, h, now, mid);
    }
  }

  lemma NothingToCredit(hs: Horizons, g: Acc, h: Horizon, now: u64, mid: i64)
    ensures g.worst <= 0 ==>
              CreditAll(hs, Merge(g, Tally([], h)), [], h, now, mid) == Merge(g, Tally(AllSettled(hs, [], now, mid), h))
  {
  }

  /** Where a mark is credited does not matter. */
  lemma CreditOrder(g: Acc, t: Acc, mark: Option<i64>)
    ensures mark.Some? ==> Merge(g, Credit(t, mark.value)) == Merge(Credit(g, mark.value), t) == Credit(Merge(g, t), mark.value)
    ensures mark.Some? && g.worst <= 0 ==> Credit(g, mark.value).worst <= 0
  {
  }

  // ---------------------------------------------------------------------------
  // What every ledger keeps
  // ---------------------------------------------------------------------------

  function Unfinished(ps: seq<Pending>): nat {
    if ps == [] then 0 else Unfinished(ps[..|ps| - 1]) + (if ps[|ps| - 1].done then 0 else 1)
  }

  /** Slots that an execution has used. */
  function Used(l: Ledger): nat {
    Min(l.executions, PENDING_PER_SYMBOL)
  }

  /** The ring is where the count of executions says it is, and slots hold real
      observations or have never been used. */
  predicate Placed(l: Ledger) {
    && ShapedLedger(l)
    && l.next == l.executions % PENDING_PER_SYMBOL
    && |l.gone| == Max(l.executions - PENDING_PER_SYMBOL, 0)
    && (forall s :: l.executions <= s < PENDING_PER_SYMBOL ==> l.pending[s] == Vacant)
  }

  predicate DoneMeansComplete(ps: seq<Pending>, n: nat) {
    forall i :: 0 <= i < n && i < |ps| ==> (ps[i].done <==> Complete(ps[i]))
  }

  predicate Tallied(l: Ledger) {
    ShapedLedger(l) && forall h :: 0 <= h < HORIZONS ==> l.markout[h] == Merge(Tally(l.gone, h), Tally(l.pending, h))
  }

  predicate Balanced(l: Ledger) {
    && Placed(l) && Tallied(l)
    && DoneMeansComplete(l.pending, Used(l)) && DoneMeansComplete(l.gone, |l.gone|)
    && l.dropped == Unfinished(l.gone)
  }

  /** The observation of execution `n`: still in the ring, or as it was when overwritten. */
  function Watch(l: Ledger, n: nat): Pending
    requires Placed(l) && n < l.executions
  {
    if n < |l.gone| then l.gone[n] else l.pending[n % PENDING_PER_SYMBOL]
  }

  lemma RingSlots(m: nat, n: nat)
    requires m < n < m + PENDING_PER_SYMBOL
    ensures m % PENDING_PER_SYMBOL != n % PENDING_PER_SYMBOL
    ensures (m + PENDING_PER_SYMBOL) % PENDING_PER_SYMBOL == m % PENDING_PER_SYMBOL
    ensures m < PENDING_PER_SYMBOL ==> m % PENDING_PER_SYMBOL == m
  {
  }

  lemma NextSlot(n: nat)
    ensures (n % PENDING_PER_SYMBOL + 1) % PENDING_PER_SYMBOL == (n + 1) % PENDING_PER_SYMBOL
    ensures n < PENDING_PER_SYMBOL ==> n % PENDING_PER_SYMBOL == n
    ensures n >= PENDING_PER_SYMBOL ==> n % PENDING_PER_SYMBOL == (n - PENDING_PER_SYMBOL) % PENDING_PER_SYMBOL
  {
  }

  lemma ExecutedPlaced(l: Ledger, now: u64, e: Execution)
    requires Placed(l)
    ensures Placed(Executed(l, now, e))
  {
    NextSlot(l.executions);
  }

  /** A new execution changes no observation but its own, and overwrites only the one 64
      executions older. */
  lemma ExecutedWatch(l: Ledger, now: u64, e: Execution, n: nat)
    requires Placed(l) && n <= l.executions
    ensures Placed(Executed(l, now, e))
    ensures Watch(Executed(l, now, e), n) ==
            if n == l.executions then Observation(now, e.taker, e.actionPx, NoMarks, false) else Watch(l, n)
  {
    ExecutedPlaced(l, now, e);
    NextSlot(l.executions);
    if n < l.executions && n >= |l.gone| && n + PENDING_PER_SYMBOL > l.executions {
      RingSlots(n, l.executions);
    }
  }

  lemma SettledVacant(hs: Horizons, now: u64, mid: i64)
    ensures Settled(hs, Vacant, now, mid) == Vacant
  {
    assert Settled(hs, Vacant, now, mid).marks == NoMarks;
  }

  lemma SettledDone(hs: Horizons, p: Pending, now: u64, mid: i64)
    requires p.done <==> Complete(p)
    ensures Settled(hs, p, now, mid).done <==> Complete(Settled(hs, p, now, mid))
    ensures p.done ==> Settled(hs, p, now, mid) == p
  {
    if p.done {
      assert Settled(hs, p, now, mid).marks == p.marks;
    }
  }

  lemma ResolvedPlaced(hs: Horizons, l: Ledger, now: u64, mid: i64)
    requires Placed(l)
    ensures Placed(Resolved(hs, l, now, mid))
    ensures forall n: nat :: n < l.executions ==>
              (Watch(Resolved(hs, l, now, mid), n) ==
               (if n < |l.gone| then Watch(l, n) else Settled(hs, Watch(l, n), now, mid)))
  {
    hide CreditAll, Settled;
    SettledVacant(hs, now, mid);
  }

  lemma ExecutedTallied(l: Ledger, now: u64, e: Execution)
    requires Placed(l) && Tallied(l)
    ensures Tallied(Executed(l, now, e))
  {
    hide Tally;
    var was := l.pending[l.next];
    var added := Observation(now, e.taker, e.actionPx, NoMarks, false);
    NextSlot(l.executions);
    forall h | 0 <= h < HORIZONS
      ensures Executed(l, now, e).markout[h] == Merge(Tally(Executed(l, now, e).gone, h), Tally(Executed(l, now, e).pending, h))
    {
      TallyReplace(l.pending, l.next, added, h);
      TallyOne(was, h);
      TallyOne(added, h);
      TallyAppend(l.gone, was, h);
    }
  }

  lemma ResolvedTallied(hs: Horizons, l: Ledger, now: u64, mid: i64)
    requires Tallied(l)
    ensures Tallied(Resolved(hs, l, now, mid))
  {
    hide Tally, CreditAll, AllSettled;
    forall h | 0 <= h < HORIZONS
      ensures Resolved(hs, l, now, mid).markout[h] ==
              Merge(Tally(Resolved(hs, l, now, mid).gone, h), Tally(Resolved(hs, l, now, mid).pending, h))
    {
      CreditKeepsTally(hs, Tally(l.gone, h), l.pending, h, now, mid);
    }
  }

  lemma UnfinishedAppend(ps: seq<Pending>, p: Pending)
    ensures Unfinished(ps + [p]) == Unfinished(ps) + (if p.done then 0 else 1)
  {
    assert (ps + [p])[..|ps|] == ps;
  }

  lemma StepBalanced(hs: Horizons, l: Ledger, op: Op)
    requires Balanced(l)
    ensures Balanced(Step(hs, l, op))
  {
    hide Tallied, Complete;
    match op
    case Execute(now, e) =>
      ExecutedPlaced(l, now, e);
      ExecutedTallied(l, now, e);
      ExecutedDone(l, now, e);
    case Resolve(now, mid) =>
      ResolvedPlaced(hs, l, now, mid);
      ResolvedTallied(hs, l, now, mid);
      ResolvedDone(hs, l, now, mid);
  }

  lemma ExecutedDone(l: Ledger, now: u64, e: Execution)
    requires Balanced(l)
    ensures var r := Executed(l, now, e);
            DoneMeansComplete(r.pending, Used(r)) && DoneMeansComplete(r.gone, |r.gone|) && r.dropped == Unfinished(r.gone)
  {
    hide Tallied, Complete, Unfinished;
    NextSlot(l.executions);
    UnfinishedAppend(l.gone, l.pending[l.next]);
    NewIsOpen(now, e);
  }

  lemma NewIsOpen(now: u64, e: Execution)
    ensures !Complete(Observation(now, e.taker, e.actionPx, NoMarks, false))
  {
    assert NoMarks[0].None?;
  }

  lemma ResolvedDone(hs: Horizons, l: Ledger, now: u64, mid: i64)
    requires Balanced(l)
    ensures var r := Resolved(hs, l, now, mid);
            DoneMeansComplete(r.pending, Used(r)) && r.gone == l.gone && r.dropped == l.dropped
  {
    hide Tallied, Settled, Complete, CreditAll;
    forall i | 0 <= i < Used(l)
      ensures Settled(hs, l.pending[i], now, mid).done <==> Complete(Settled(hs, l.pending[i], now, mid))
    {
      SettledDone(hs, l.pending[i], now, mid);
    }
  }

  // ---------------------------------------------------------------------------
  // Whole runs
  // ---------------------------------------------------------------------------

  lemma RunAppend(hs: Horizons, ops: seq<Op>, op: Op)
    ensures Run(hs, ops + [op]) == Step(hs, Run(hs, ops), op)
  {
    assert (ops + [op])[..|ops|] == ops;
  }

  lemma NewParts(h: Horizon)
    ensures ShapedLedger(NewLedger()) && NewLedger().gone == [] && NewLedger().pending == Vacancies(PENDING_PER_SYMBOL)
    ensures NewLedger().markout[h] == NoAcc && Merge(NoAcc, NoAcc) == NoAcc
  {
    hide Vacancies, NoAccs;
  }

  lemma NewTallied()
    ensures ShapedLedger(NewLedger()) && Tallied(NewLedger())
  {
    hide Tally, Vacancies, NoAccs;
    forall h | 0 <= h < HORIZONS
      ensures NewLedger().markout[h] == Merge(Tally(NewLedger().gone, h), Tally(NewLedger().pending, h))
    {
      NewParts(h);
      VacantTally(PENDING_PER_SYMBOL, h);
    }
  }

  lemma NewPlaced()
    ensures Placed(NewLedger()) && Used(NewLedger()) == 0
    ensures NewLedger().gone == [] && NewLedger().dropped == Unfinished([])
  {
    hide Vacancies;
  }

  lemma NewIsBalanced(hs: Horizons)
    ensures Run(hs, []) == NewLedger() && Balanced(NewLedger())
  {
    hide Tallied, Placed, NewLedger, Complete, Unfinished, Used;
    NewTallied();
    NewPlaced();
  }

  lemma {:induction false} VacantTally(n: nat, h: Horizon)
    ensures Tally(Vacancies(n), h) == Tally([], h) == NoAcc
  {
    hide Vacancies;
    if n == 0 {
      assert Vacancies(n) == [];
    } else {
      assert Vacancies(n)[..n - 1] == Vacancies(n - 1);
      VacantTally(n - 1, h);
    }
  }

  lemma {:induction false} RunBalanced(hs: Horizons, ops: seq<Op>)
    ensures Balanced(Run(hs, ops))
  {
    hide *;
    if ops == [] {
      NewIsBalanced(hs);
    } else {
      var front, op := ops[..|ops| - 1], ops[|ops| - 1];
      assert ops == front + [op];
      RunBalanced(hs, front);
      StepBalanced(hs, Run(hs, front), op);
      RunAppend(hs, front, op);
    }
  }

  /** Balanced ledgers are placed, and this is what that says about overwriting. */
  lemma OverwrittenByTheSixtyFourth(l: Ledger, n: nat)
    requires Balanced(l) && n < l.executions
    ensures Placed(l)
    ensures n < |l.gone| <==> l.executions > n + PENDING_PER_SYMBOL
    ensures n < |l.gone| ==> Watch(l, n) == l.gone[n]
  {
    hide Tallied, DoneMeansComplete;
  }

  function Unmarked(ps: seq<Pending>, h: Horizon): (n: nat)
    ensures n <= |ps|
  {
    if ps == [] then 0 else Unmarked(ps[..|ps| - 1], h) + (if ps[|ps| - 1].marks[h].None? then 1 else 0)
  }

  lemma {:induction false} MarkedOrNot(ps: seq<Pending>, h: Horizon)
    ensures Tally(ps, h).count + Unmarked(ps, h) == |ps|
  {
    if ps != [] {
      MarkedOrNot(ps[..|ps| - 1], h);
    }
  }

  lemma {:induction false} VacantUnmarked(ps: seq<Pending>, n: nat, h: Horizon)
    requires n <= |ps| && forall i :: n <= i < |ps| ==> ps[i] == Vacant
    ensures Unmarked(ps, h) == Unmarked(ps[..n], h) + |ps| - n
    decreases |ps|
  {
    if n == |ps| {
      assert ps[..n] == ps;
    } else {
      var front := ps[..|ps| - 1];
      assert front[..n] == ps[..n];
      VacantUnmarked(front, n, h);
    }
  }

  /** At every horizon, after any run, each execution is settled, still waiting in the ring
      or was overwritten before it settled; the settled ones are what the accumulator
      counts. Every overwritten observation that was unfinished is counted as dropped. */
  lemma Conservation(hs: Horizons, ops: seq<Op>, h: Horizon)
    ensures var l := Run(hs, ops);
            && l.executions == l.markout[h].count + Unmarked(l.pending[..Used(l)], h) + Unmarked(l.gone, h)
            && l.markout[h] == Merge(Tally(l.gone, h), Tally(l.pending, h))
            && l.dropped == Unfinished(l.gone)
  {
    hide Run, Tally, Unmarked, Unfinished, DoneMeansComplete;
    var l := Run(hs, ops);
    RunBalanced(hs, ops);
    MarkedOrNot(l.gone, h);
    MarkedOrNot(l.pending, h);
    VacantUnmarked(l.pending, Used(l), h);
  }

  /** What one step does to the observation of execution `n`. */
  lemma StepWatch(hs: Horizons, l: Ledger, op: Op, n: nat)
    requires Placed(l) && n < l.executions
    ensures Placed(Step(hs, l, op)) && n < Step(hs, l, op).executions
    ensures Watch(Step(hs, l, op), n) ==
            if op.Resolve? && n >= |l.gone| then Settled(hs, Watch(l, n), op.now, op.mid) else Watch(l, n)
  {
    hide Settled, Watch;
    match op
    case Execute(now, e) => ExecutedWatch(l, now, e, n);
    case Resolve(now, mid) => ResolvedPlaced(hs, l, now, mid);
  }

  lemma BalancedIsPlaced(l: Ledger)
    ensures Balanced(l) ==> Placed(l)
  {
  }

  /** Once settled a pair keeps its mark through any further run: it is never settled again
      and never lost. */
  lemma {:induction false} SettlesAtMostOnce(hs: Horizons, ops: seq<Op>, more: seq<Op>, n: nat, h: Horizon)
    requires n < Run(hs, ops).executions
    ensures Placed(Run(hs, ops)) && Placed(Run(hs, ops + more)) && n < Run(hs, ops + more).executions
    ensures Watch(Run(hs, ops), n).marks[h].Some? ==> Watch(Run(hs, ops + more), n).marks[h] == Watch(Run(hs, ops), n).marks[h]
  {
    hide *;
    RunBalanced(hs, ops);
    BalancedIsPlaced(Run(hs, ops));
    if more == [] {
      assert ops + more == ops;
    } else {
      var front, op := more[..|more| - 1], more[|more| - 1];
      assert ops + more == (ops + front) + [op];
      SettlesAtMostOnce(hs, ops, front, n, h);
      var l := Run(hs, ops + front);
      RunAppend(hs, ops + front, op);
      StepWatch(hs, l, op, n);
      if op.Resolve? {
        SettledMark(hs, Watch(l, n), h, op.now, op.mid);
      }
    }
  }

  /** The `i`th operation is a sweep, after execution `n`, by which horizon `h` had passed
      for it, and `mark` is the move it saw. */
  predicate SweptAt(hs: Horizons, ops: seq<Op>, p: Pending, n: nat, h: Horizon, mark: i64, i: nat)
    requires i < |ops|
  {
    && ops[i].Resolve? && n < Run(hs, ops[..i]).executions
    && Elapsed(ops[i].now, p.at) >= hs[h] && mark == Mark(p, ops[i].mid)
  }

  lemma SweptLater(hs: Horizons, ops: seq<Op>, op: Op, p: Pending, q: Pending, n: nat, h: Horizon, mark: i64)
    requires p.at == q.at && p.taker == q.taker && p.px == q.px
    requires exists i: nat :: i < |ops| && SweptAt(hs, ops, p, n, h, mark, i)
    ensures exists i: nat :: i < |ops + [op]| && SweptAt(hs, ops + [op], q, n, h, mark, i)
  {
    var i: nat :| i < |ops| && SweptAt(hs, ops, p, n, h, mark, i);
    assert (ops + [op])[..i] == ops[..i];
    assert SweptAt(hs, ops + [op], q, n, h, mark, i);
  }

  lemma SweptNow(hs: Horizons, ops: seq<Op>, op: Op, p: Pending, n: nat, h: Horizon)
    requires op.Resolve? && n < Run(hs, ops).executions && Elapsed(op.now, p.at) >= hs[h]
    ensures exists i: nat :: i < |ops + [op]| && SweptAt(hs, ops + [op], p, n, h, Mark(p, op.mid), i)
  {
    assert (ops + [op])[..|ops|] == ops;
    assert SweptAt(hs, ops + [op], p, n, h, Mark(p, op.mid), |ops|);
  }

  lemma SettledKeeps(hs: Horizons, p: Pending, now: u64, mid: i64)
    ensures var q := Settled(hs, p, now, mid); q.at == p.at && q.taker == p.taker && q.px == p.px
  {
  }

  lemma DueHasElapsed(hs: Horizons, p: Pending, h: Horizon, now: u64)
    ensures Due(hs, p, h, now) ==> Elapsed(now, p.at) >= hs[h]
  {
  }

  lemma FreshIsUnmarked(l: Ledger, now: u64, e: Execution, h: Horizon)
    requires Placed(l) && h < HORIZONS
    ensures Placed(Executed(l, now, e)) && Executed(l, now, e).executions == l.executions + 1
    ensures Watch(Executed(l, now, e), l.executions).marks[h].None?
  {
    hide Watch;
    ExecutedWatch(l, now, e, l.executions);
    assert NoMarks[h].None?;
  }

  lemma StepCounts(hs: Horizons, l: Ledger, op: Op)
    requires ShapedLedger(l)
    ensures Step(hs, l, op).executions == l.executions + (if op.Execute? then 1 else 0)
    ensures op.Execute? ==> Step(hs, l, op) == Executed(l, op.now, op.e)
  {
  }

  /** A mark is always the move seen by some sweep that came after the execution, and no
      earlier than its horizon. */
  lemma {:induction false} NeverEarly(hs: Horizons, ops: seq<Op>, n: nat, h: Horizon)
    requires n < Run(hs, ops).executions
    ensures Placed(Run(hs, ops))
    ensures var p := Watch(Run(hs, ops), n);
            p.marks[h].Some? ==> exists i: nat :: i < |ops| && SweptAt(hs, ops, p, n, h, p.marks[h].value, i)
  {
    hide *;
    RunBalanced(hs, ops);
    BalancedIsPlaced(Run(hs, ops));
    if ops == [] {
      NothingExecuted(hs);
    } else {
      var front, op := ops[..|ops| - 1], ops[|ops| - 1];
      assert ops == front + [op];
      var l := Run(hs, front);
      RunBalanced(hs, front);
      BalancedIsPlaced(l);
      PlacedIsShaped(l);
      RunAppend(hs, front, op);
      StepCounts(hs, l, op);
      if n == l.executions {
        FreshIsUnmarked(l, op.now, op.e, h);
      } else {
        NeverEarly(hs, front, n, h);
        NeverEarlyStep(hs, front, op, n, h);
      }
    }
  }

  lemma NothingExecuted(hs: Horizons)
    ensures Run(hs, []).executions == 0
  {
  }

  lemma PlacedIsShaped(l: Ledger)
    ensures Placed(l) ==> ShapedLedger(l)
  {
  }

  lemma NeverEarlyStep(hs: Horizons, front: seq<Op>, op: Op, n: nat, h: Horizon)
    requires Placed(Run(hs, front)) && n < Run(hs, front).executions
    requires var p := Watch(Run(hs, front), n);
             p.marks[h].Some? ==> exists i: nat :: i < |front| && SweptAt(hs, front, p, n, h, p.marks[h].value, i)
    ensures Placed(Run(hs, front + [op])) && n < Run(hs, front + [op]).executions
    ensures var q := Watch(Run(hs, front + [op]), n);
            q.marks[h].Some? ==> exists i: nat :: i < |front + [op]| && SweptAt(hs, front + [op], q, n, h, q.marks[h].value, i)
  {
    hide *;
    var l := Run(hs, front);
    var p := Watch(l, n);
    RunAppend(hs, front, op);
    StepWatch(hs, l, op, n);
    var q := Watch(Run(hs, front + [op]), n);
    if op.Resolve? {
      SettledKeeps(hs, p, op.now, op.mid);
      SettledMark(hs, p, h, op.now, op.mid);
    }
    if p.marks[h].Some? {
      SweptLater(hs, front, op, p, q, n, h, p.marks[h].value);
    } else if q.marks[h].Some? {
      DueHasElapsed(hs, p, h, op.now);
      SweptNow(hs, front, op, q, n, h);
      MarkIgnoresMarks(p, q, op.mid);
    }
  }

  lemma MarkIgnoresMarks(p: Pending, q: Pending, mid: i64)
    ensures p.taker == q.taker && p.px == q.px ==> Mark(p, mid) == Mark(q, mid)
  {
  }

  // ---------------------------------------------------------------------------
  // Which marks a sweep makes
  // ---------------------------------------------------------------------------

  /** The executions of a run, in order. */
  function Executions(ops: seq<Op>): (es: seq<Op>)
    ensures forall i :: 0 <= i < |es| ==> es[i].Execute?
  {
    if ops == [] then []
    else Executions(ops[..|ops| - 1]) + (if ops[|ops| - 1].Execute? then [ops[|ops| - 1]] else [])
  }

  lemma ExecutionsAppend(ops: seq<Op>, op: Op)
    ensures Executions(ops + [op]) == Executions(ops) + (if op.Execute? then [op] else [])
  {
    assert (ops + [op])[..|ops|] == ops;
  }

  /** The observation of execution `n` is of that execution: its time, its side, its price. */
  lemma {:induction false} WatchesItsExecution(hs: Horizons, ops: seq<Op>, n: nat)
    ensures Run(hs, ops).executions == |Executions(ops)| && Placed(Run(hs, ops))
    ensures n < |Executions(ops)| ==>
              var p, x := Watch(Run(hs, ops), n), Executions(ops)[n];
              p.at == x.now && p.taker == x.e.taker && p.px == x.e.actionPx
  {
    hide *;
    RunBalanced(hs, ops);
    BalancedIsPlaced(Run(hs, ops));
    if ops == [] {
      NothingExecuted(hs);
      NoExecutions();
    } else {
      var front, op := ops[..|ops| - 1], ops[|ops| - 1];
      assert ops == front + [op];
      WatchesItsExecution(hs, front, n);
      var l := Run(hs, front);
      PlacedIsShaped(l);
      RunAppend(hs, front, op);
      ExecutionsAppend(front, op);
      StepCounts(hs, l, op);
      if n == l.executions {
        if op.Execute? {
          ExecutedWatch(l, op.now, op.e, n);
        }
      } else if n < l.executions {
        StepWatch(hs, l, op, n);
        if op.Resolve? {
          SettledKeeps(hs, Watch(l, n), op.now, op.mid);
        }
      }
    }
  }

  lemma NoExecutions()
    ensures Executions([]) == []
  {
  }

  lemma WatchDone(l: Ledger, n: nat)
    requires Balanced(l) && n < l.executions
    ensures Watch(l, n).done <==> Complete(Watch(l, n))
  {
    hide Tallied, Complete, Unfinished;
  }

  lemma DueIs(hs: Horizons, p: Pending, h: Horizon, now: u64)
    requires p.done <==> Complete(p)
    ensures Due(hs, p, h, now) <==> p.marks[h].None? && (if now < p.at then hs[h] == 0 else now - p.at >= hs[h])
  {
  }

  /** Exactly which marks a sweep makes, after any run: execution `n` is marked at horizon `h`
      if it was before, or if fewer than 64 executions have come after it and the horizon has
      passed since; a new mark is the move to the midpoint, an old one stays what it was. */
  lemma SweepMarksIff(hs: Horizons, ops: seq<Op>, now: u64, mid: i64, n: nat, h: Horizon)
    requires n < |Executions(ops)|
    ensures var sweep := ops + [Resolve(now, mid)];
            && Placed(Run(hs, ops)) && Run(hs, ops).executions == |Executions(ops)|
            && Placed(Run(hs, sweep)) && Run(hs, sweep).executions == |Executions(ops)|
    ensures var x, before, after := Executions(ops)[n], Watch(Run(hs, ops), n).marks[h], Watch(Run(hs, ops + [Resolve(now, mid)]), n).marks[h];
            var passed := if now < x.now then hs[h] == 0 else now - x.now >= hs[h];
            && (after.Some? <==> before.Some? || (|Executions(ops)| <= n + 64 && passed))
            && (before.Some? ==> after == before)
            && (before.None? && after.Some? ==> after.value == DeltaBps(Adverse(x.e.taker, mid, x.e.actionPx), x.e.actionPx))
  {
    hide *;
    var l := Run(hs, ops);
    WatchesItsExecution(hs, ops, n);
    RunBalanced(hs, ops);
    OverwrittenByTheSixtyFourth(l, n);
    RunAppend(hs, ops, Resolve(now, mid));
    StepWatch(hs, l, Resolve(now, mid), n);
    PlacedIsShaped(l);
    StepCounts(hs, l, Resolve(now, mid));
    var p := Watch(l, n);
    WatchDone(l, n);
    SettledMark(hs, p, h, now, mid);
    DueIs(hs, p, h, now);
    MarkIs(p, mid);
    SixtyFour();
  }

  lemma MarkIs(p: Pending, mid: i64)
    ensures Mark(p, mid) == DeltaBps(Adverse(p.taker, mid, p.px), p.px)
  {
  }

  lemma SixtyFour()
    ensures PENDING_PER_SYMBOL == 64
  {
  }

  // ---------------------------------------------------------------------------
  // What the accumulators come to
  // ---------------------------------------------------------------------------

  /** The marks of some observations at one horizon. */
  function MarksOf(ps: seq<Pending>, h: Horizon): seq<i64> {
    if ps == [] then []
    else
      var mark := ps[|ps| - 1].marks[h];
      MarksOf(ps[..|ps| - 1], h) + (if mark.Some? then [mark.value] else [])
  }

  function SumOf(marks: seq<i64>): int {
    if marks == [] then 0 else SumOf(marks[..|marks| - 1]) + marks[|marks| - 1]
  }

  predicate Summarises(a: Acc, marks: seq<i64>) {
    && a.count == |marks| && a.sum == SumOf(marks)
    && a.worst <= 0 && (forall m :: m in marks ==> a.worst <= m) && (a.worst == 0 || a.worst in marks)
  }

  lemma SumAppend(marks: seq<i64>, mark: i64)
    ensures SumOf(marks + [mark]) == SumOf(marks) + mark
  {
    assert (marks + [mark])[..|marks|] == marks;
  }

  lemma {:induction false} SumConcat(a: seq<i64>, b: seq<i64>)
    ensures SumOf(a + b) == SumOf(a) + SumOf(b)
  {
    if b == [] {
      assert a + b == a;
    } else {
      assert (a + b)[..|a + b| - 1] == a + b[..|b| - 1];
      SumConcat(a, b[..|b| - 1]);
    }
  }

  lemma {:induction false} TallySummarises(ps: seq<Pending>, h: Horizon)
    ensures Summarises(Tally(ps, h), MarksOf(ps, h))
  {
    if ps != [] {
      var front, mark := ps[..|ps| - 1], ps[|ps| - 1].marks[h];
      TallySummarises(front, h);
      if mark.Some? {
        assert MarksOf(ps, h) == MarksOf(front, h) + [mark.value];
        SumAppend(MarksOf(front, h), mark.value);
      } else {
        assert MarksOf(ps, h) == MarksOf(front, h);
      }
    }
  }

  /** Over any run each horizon's accumulator counts the marks made so far, adds them up and
      keeps the worst of them, zero if none is negative. */
  lemma MarkoutSummarises(hs: Horizons, ops: seq<Op>, h: Horizon)
    ensures var l := Run(hs, ops);
            Summarises(l.markout[h], MarksOf(l.gone, h) + MarksOf(l.pending, h))
  {
    hide Run, Tally, MarksOf, SumOf, Unfinished, DoneMeansComplete;
    var l := Run(hs, ops);
    RunBalanced(hs, ops);
    TallySummarises(l.gone, h);
    TallySummarises(l.pending, h);
    SumConcat(MarksOf(l.gone, h), MarksOf(l.pending, h));
  }

  lemma {:induction false} UnfinishedCounts(ps: seq<Pending>)
    requires DoneMeansComplete(ps, |ps|)
    ensures Unfinished(ps) == |set i | 0 <= i < |ps| && HasGap(ps[i])|
  {
    hide Complete, HasGap;
    if ps != [] {
      var front := ps[..|ps| - 1];
      UnfinishedCounts(front);
      GapMeans(ps[|ps| - 1]);
      var a, b := set i | 0 <= i < |front| && HasGap(front[i]), set i | 0 <= i < |ps| && HasGap(ps[i]);
      assert forall i :: 0 <= i < |front| ==> front[i] == ps[i];
      assert b == a + (if HasGap(ps[|ps| - 1]) then {|ps| - 1} else {});
    }
  }

  lemma GapMeans(p: Pending)
    ensures HasGap(p) <==> !Complete(p)
  {
  }

  /** Some horizon was never settled. */
  predicate HasGap(p: Pending) {
    p.marks[0].None? || p.marks[1].None? || p.marks[2].None?
  }

  /** Over any run the dropped count is how many overwritten observations had a gap. */
  lemma DroppedHadGaps(hs: Horizons, ops: seq<Op>)
    ensures Run(hs, ops).dropped == |set n | 0 <= n < |Run(hs, ops).gone| && HasGap(Run(hs, ops).gone[n])|
  {
    hide Run, Tallied;
    RunBalanced(hs, ops);
    UnfinishedCounts(Run(hs, ops).gone);
  }

  // ---------------------------------------------------------------------------
  // One symbol and all of them
  // ---------------------------------------------------------------------------

  predicate NothingDue(hs: Horizons, ps: seq<Pending>, now: u64) {
    forall i, h :: 0 <= i < |ps| && 0 <= h < HORIZONS ==> !Due(hs, ps[i], h, now)
  }

  lemma {:induction false} NothingDueCredits(hs: Horizons, a: Acc, ps: seq<Pending>, h: Horizon, now: u64, mid: i64)
    requires NothingDue(hs, ps, now)
    ensures CreditAll(hs, a, ps, h, now, mid) == a
  {
    hide Due;
    if ps != [] {
      var front := ps[..|ps| - 1];
      forall i, k | 0 <= i < |front| && 0 <= k < HORIZONS
        ensures !Due(hs, front[i], k, now)
      {
        assert front[i] == ps[i];
      }
      NothingDueCredits(hs, a, front, h, now, mid);
    }
  }

  lemma NothingDueSettles(hs: Horizons, p: Pending, now: u64, mid: i64)
    requires (p.done <==> Complete(p)) || p == Vacant
    ensures Settled(hs, p, now, mid) == p <==> forall h :: 0 <= h < HORIZONS ==> !Due(hs, p, h, now)
  {
    var q := Settled(hs, p, now, mid);
    if forall h :: 0 <= h < HORIZONS ==> !Due(hs, p, h, now) {
      assert q.marks == p.marks;
    } else {
      var h :| 0 <= h < HORIZONS && Due(hs, p, h, now);
      assert q.marks[h].Some? && p.marks[h].None?;
    }
  }

  /** A sweep changes nothing exactly when nothing is due. */
  lemma SweepChangesIff(hs: Horizons, l: Ledger, now: u64, mid: i64)
    requires Balanced(l)
    ensures Resolved(hs, l, now, mid) == l <==> NothingDue(hs, l.pending, now)
  {
    hide Tallied, Settled, Complete, CreditAll, Due, Unfinished;
    forall i | 0 <= i < PENDING_PER_SYMBOL
      ensures Settled(hs, l.pending[i], now, mid) == l.pending[i] <==> forall h :: 0 <= h < HORIZONS ==> !Due(hs, l.pending[i], h, now)
    {
      NothingDueSettles(hs, l.pending[i], now, mid);
    }
    var r := Resolved(hs, l, now, mid);
    if NothingDue(hs, l.pending, now) {
      forall h | 0 <= h < HORIZONS
        ensures r.markout[h] == l.markout[h]
      {
        NothingDueCredits(hs, l.markout[h], l.pending, h, now, mid);
      }
      assert r.pending == l.pending && r.markout == l.markout;
    }
  }

  /** What settling one symbol does to its ledger: a midpoint of zero is taken as none. */
  function ResolvedAlone(hs: Horizons, l: Ledger, now: u64, mid: i64): Ledger
    requires ShapedLedger(l)
  {
    if mid == 0 then l else Resolved(hs, l, now, mid)
  }

  /** Settling one symbol and sweeping them all do the same to a ledger exactly when the
      midpoint is not zero or nothing is due. */
  lemma ResolvesAgreeIff(hs: Horizons, ops: seq<Op>, now: u64, mid: i64)
    ensures var l := Run(hs, ops);
            ResolvedAlone(hs, l, now, mid) == Resolved(hs, l, now, mid) <==> mid != 0 || NothingDue(hs, l.pending, now)
  {
    hide Run, Balanced, NothingDue;
    RunBalanced(hs, ops);
    SweepChangesIff(hs, Run(hs, ops), now, mid);
  }

  // ---------------------------------------------------------------------------
  // The ledgers in place
  // ---------------------------------------------------------------------------

  function Credits(accs: seq<Acc>): nat {
    if accs == [] then 0 else Credits(accs[..|accs| - 1]) + accs[|accs| - 1].count
  }

  lemma {:induction false} CreditsUpdate(accs: seq<Acc>, h: Horizon, a: Acc)
    requires h < |accs|
    ensures Credits(accs[h := a]) == Credits(accs) - accs[h].count + a.count
  {
    var front := accs[..|accs| - 1];
    if h == |accs| - 1 {
      assert accs[h := a][..|accs| - 1] == front;
    } else {
      assert accs[h := a][..|accs| - 1] == front[h := a];
      CreditsUpdate(front, h, a);
    }
  }

  lemma MarkInPlace(hs: Horizons, p: Pending, h: Horizon, now: u64, q: Pending)
    ensures q.done == p.done && q.at == p.at && q.marks[h] == p.marks[h] ==>
              (Due(hs, p, h, now) <==> Due(hs, q, h, now))
  {
  }

  /** An observation with each due horizon marked, and then finished if all are. */
  lemma SettledIs(hs: Horizons, p: Pending, now: u64, mid: i64, q: Pending)
    requires q.at == p.at && q.taker == p.taker && q.px == p.px
    requires forall h :: 0 <= h < HORIZONS ==> q.marks[h] == if Due(hs, p, h, now) then Some(Mark(p, mid)) else p.marks[h]
    requires q.done == (p.done || Complete(q))
    ensures q == Settled(hs, p, now, mid)
  {
    hide Due, Mark;
    assert q.marks == Settled(hs, p, now, mid).marks;
  }

  class SymbolLedger {
    var executions: nat
    var markout: seq<Acc>
    var dropped: nat
    const pending: array<Pending>
    var next: nat
    ghost var gone: seq<Pending>

    ghost predicate Valid()
      reads this, pending
    {
      ShapedLedger(Abstract())
    }

    ghost function Abstract(): Ledger
      reads this, pending
    {
      Ledger(executions, markout, dropped, pending[..], next, gone)
    }

    constructor ()
      ensures Valid() && Abstract() == NewLedger() && fresh(pending)
    {
      executions, dropped, next, gone := 0, 0, 0, [];
      markout := NoAccs(HORIZONS);
      pending := new Pending[PENDING_PER_SYMBOL](_ => Vacant);
      new;
      assert pending[..] == Vacancies(PENDING_PER_SYMBOL);
    }

    /** Queue an execution's observation in the slot after the last, wrapping. */
    method Queue(now: u64, e: Execution)
      requires Valid()
      modifies this, pending
      ensures Valid() && Abstract() == Executed(old(Abstract()), now, e)
    {
      executions := executions + 1;
      var index := next;
      if !pending[index].done {
        dropped := dropped + 1;
      }
      gone := if executions > PENDING_PER_SYMBOL then gone + [pending[index]] else gone;
      pending[index] := Observation(now, e.taker, e.actionPx, NoMarks, false);
      next := (index + 1) % PENDING_PER_SYMBOL;
    }

    /** Settle the due horizons of one slot. */
    method SettleSlot(hs: Horizons, i: nat, now: u64, mid: i64) returns (settled: nat)
      requires Valid() && i < PENDING_PER_SYMBOL
      modifies this`markout, pending
      ensures Valid() && pending[i] == Settled(hs, old(pending[i]), now, mid)
      ensures forall k :: 0 <= k < PENDING_PER_SYMBOL && k != i ==> pending[k] == old(pending[k])
      ensures forall h :: 0 <= h < HORIZONS ==>
                (markout[h] == (if Due(hs, old(pending[i]), h, now) then Credit(old(markout[h]), Mark(old(pending[i]), mid)) else old(markout[h])))
      ensures Credits(markout) == Credits(old(markout)) + settled
    {
      hide Due, Mark, Credits;
      var p: Pending := pending[i];
      ghost var was: Pending := p;
      settled := 0;
      if p.done {
        DoneIsNeverDue(hs, p, now, mid);
        return;
      }
      var h := 0;
      while h < HORIZONS
        modifies this`markout
        invariant h <= HORIZONS && |markout| == HORIZONS && |p.marks| == HORIZONS
        invariant p.at == was.at && p.taker == was.taker && p.px == was.px && !p.done
        invariant forall k :: 0 <= k < h ==> p.marks[k] == if Due(hs, was, k, now) then Some(Mark(was, mid)) else was.marks[k]
        invariant forall k :: h <= k < HORIZONS ==> p.marks[k] == was.marks[k]
        invariant forall k :: 0 <= k < h ==>
                    (markout[k] == (if Due(hs, was, k, now) then Credit(old(markout[k]), Mark(was, mid)) else old(markout[k])))
        invariant forall k :: h <= k < HORIZONS ==> markout[k] == old(markout[k])
        invariant Credits(markout) == Credits(old(markout)) + settled
      {
        MarkInPlace(hs, was, h, now, p);
        if Due(hs, p, h, now) {
          var mark := Mark(p, mid);
          MarkIgnoresMarks(was, p, mid);
          CreditsUpdate(markout, h, Credit(markout[h], mark));
          markout := markout[h := Credit(markout[h], mark)];
          p := p.(marks := p.marks[h := Some(mark)]);
          settled := settled + 1;
        }
        h := h + 1;
      }
      if Complete(p) {
        p := p.(done := true);
      }
      SettledIs(hs, was, now, mid, p);
      pending[i] := p;
    }

    /** One sweep: every slot in turn is settled where a horizon has passed. */
    method ResolveIn(hs: Horizons, now: u64, mid: i64) returns (settled: nat)
      requires Valid()
      modifies this`markout, pending
      ensures Valid() && Abstract() == Resolved(hs, old(Abstract()), now, mid)
      ensures Credits(markout) == Credits(old(markout)) + settled
    {
      hide Due, Mark, Credits, CreditAll, AllSettled, Settled;
      ghost var was: seq<Pending> := pending[..];
      settled := 0;
      NothingCredited(hs, markout, now, mid);
      var i := 0;
      while i < PENDING_PER_SYMBOL
        invariant i <= PENDING_PER_SYMBOL && Valid()
        invariant forall k :: 0 <= k < i ==> pending[k] == Settled(hs, was[k], now, mid)
        invariant forall k :: i <= k < PENDING_PER_SYMBOL ==> pending[k] == was[k]
        invariant forall h :: 0 <= h < HORIZONS ==> markout[h] == CreditAll(hs, old(markout[h]), was[..i], h, now, mid)
        invariant Credits(markout) == Credits(old(markout)) + settled
      {
        var more := SettleSlot(hs, i, now, mid);
        settled := settled + more;
        assert was[..i + 1] == was[..i] + [was[i]];
        forall h | 0 <= h < HORIZONS
          ensures markout[h] == CreditAll(hs, old(markout[h]), was[..i + 1], h, now, mid)
        {
          CreditAllAppend(hs, old(markout[h]), was[..i], was[i], h, now, mid);
        }
        i := i + 1;
      }
      assert was[..PENDING_PER_SYMBOL] == was;
      assert pending[..] == AllSettled(hs, was, now, mid);
    }
  }

  lemma DoneIsNeverDue(hs: Horizons, p: Pending, now: u64, mid: i64)
    requires p.done
    ensures Settled(hs, p, now, mid) == p && forall h :: 0 <= h < HORIZONS ==> !Due(hs, p, h, now)
  {
    assert Settled(hs, p, now, mid).marks == p.marks;
  }

  lemma NothingCredited(hs: Horizons, accs: seq<Acc>, now: u64, mid: i64)
    ensures |accs| == HORIZONS ==>
              (forall h :: 0 <= h < HORIZONS ==> CreditAll(hs, accs[h], [], h, now, mid) == accs[h])
  {
  }

  function TotalCredits(all: seq<Ledger>): nat {
    if all == [] then 0 else TotalCredits(all[..|all| - 1]) + Credits(all[|all| - 1].markout)
  }

  lemma {:induction false} TotalUpdate(all: seq<Ledger>, i: nat, l: Ledger)
    requires i < |all|
    ensures TotalCredits(all[i := l]) == TotalCredits(all) - Credits(all[i].markout) + Credits(l.markout)
  {
    var front := all[..|all| - 1];
    if i == |all| - 1 {
      assert all[i := l][..|all| - 1] == front;
    } else {
      assert all[i := l][..|all| - 1] == front[i := l];
      TotalUpdate(front, i, l);
    }
  }

  class SlippageLedger {
    const ledgers: seq<SymbolLedger>
    const horizons: Horizons
    const enabled: bool

    ghost predicate Separate() {
      forall i, j :: 0 <= i < j < |ledgers| ==> ledgers[i] != ledgers[j] && ledgers[i].pending != ledgers[j].pending
    }

    ghost function Objects(): set<object> {
      (set i | 0 <= i < |ledgers| :: ledgers[i]) + (set i | 0 <= i < |ledgers| :: ledgers[i].pending)
    }

    ghost predicate Valid()
      reads Objects()
    {
      Separate() && forall i :: 0 <= i < |ledgers| ==> ledgers[i].Valid()
    }

    ghost function LedgerOf(i: nat): Ledger
      requires i < |ledgers|
      reads Objects()
    {
      ledgers[i].Abstract()
    }

    ghost function Ledgers(): (all: seq<Ledger>)
      reads Objects()
      ensures |all| == |ledgers| && forall i :: 0 <= i < |ledgers| ==> all[i] == LedgerOf(i)
    {
      seq(|ledgers|, i requires 0 <= i < |ledgers| reads Objects() => LedgerOf(i))
    }

    constructor (symbols: nat, horizons: Horizons, enabled: bool)
      ensures Valid() && |ledgers| == Max(symbols, 1) && fresh(Objects())
      ensures this.horizons == horizons && this.enabled == enabled
      ensures forall i :: 0 <= i < |ledgers| ==> LedgerOf(i) == NewLedger()
    {
      hide ShapedLedger, NewLedger;
      var all: seq<SymbolLedger> := [];
      while |all| < Max(symbols, 1)
        invariant |all| <= Max(symbols, 1)
        invariant forall i :: 0 <= i < |all| ==> fresh(all[i]) && fresh(all[i].pending) && allocated(all[i].pending)
        invariant forall i :: 0 <= i < |all| ==> all[i].Valid() && all[i].Abstract() == NewLedger()
        invariant forall i, j :: 0 <= i < j < |all| ==> all[i] != all[j] && all[i].pending != all[j].pending
      {
        var one := new SymbolLedger();
        all := all + [one];
      }
      ledgers := all;
      this.horizons := horizons;
      this.enabled := enabled;
    }

    /** The execution's cost, with its observation queued; nothing is kept when disabled, and a
        symbol there is no room for is reported. */
    method Record(id: nat, now: u64, e: Execution) returns (cost: Option<Cost>)
      requires Valid()
      modifies Objects()
      ensures Valid()
      ensures cost == if enabled && id >= |ledgers| then None else Some(Decompose(e))
      ensures forall i :: 0 <= i < |ledgers| ==>
                (LedgerOf(i) == (if enabled && i == id then Executed(old(LedgerOf(i)), now, e) else old(LedgerOf(i))))
    {
      hide ShapedLedger, Executed, Decompose;
      if !enabled {
        return Some(Decompose(e));
      }
      if id >= |ledgers| {
        return None;
      }
      ledgers[id].Queue(now, e);
      cost := Some(Decompose(e));
    }

    /** Sweep one ledger and leave every other as it was. */
    method ResolveOne(id: nat, now: u64, mid: i64) returns (settled: nat)
      requires Valid() && id < |ledgers|
      modifies Objects()
      ensures Valid()
      ensures Ledgers() == old(Ledgers())[id := Resolved(horizons, old(Ledgers())[id], now, mid)]
      ensures settled == TotalCredits(Ledgers()) - TotalCredits(old(Ledgers()))
    {
      hide ShapedLedger, Resolved, Credits, TotalCredits;
      settled := ledgers[id].ResolveIn(horizons, now, mid);
      TotalUpdate(old(Ledgers()), id, LedgerOf(id));
      assert Ledgers() == old(Ledgers())[id := LedgerOf(id)];
    }

    /** Settle one symbol's observations against its midpoint; a midpoint of zero settles
        nothing. */
    method Resolve(id: nat, now: u64, mid: i64) returns (settled: nat)
      requires Valid()
      modifies Objects()
      ensures Valid()
      ensures Ledgers() == if enabled && id < |ledgers|
                           then old(Ledgers())[id := ResolvedAlone(horizons, old(Ledgers())[id], now, mid)] else old(Ledgers())
      ensures settled == TotalCredits(Ledgers()) - TotalCredits(old(Ledgers()))
    {
      hide ShapedLedger, Resolved, TotalCredits;
      if !enabled || mid == 0 || id >= |ledgers| {
        assert id < |ledgers| ==> Ledgers()[id := Ledgers()[id]] == Ledgers();
        return 0;
      }
      settled := ResolveOne(id, now, mid);
    }

    /** Settle every symbol that has a midpoint; unlike `Resolve` it takes a midpoint of
        zero as one. */
    method ResolveAll(now: u64, midOf: nat -> Option<i64>) returns (settled: nat)
      requires Valid()
      modifies Objects()
      ensures Valid()
      ensures forall i :: 0 <= i < |ledgers| ==>
                (Ledgers()[i] == (if enabled && midOf(i).Some? then Resolved(horizons, old(Ledgers())[i], now, midOf(i).value) else old(Ledgers())[i]))
      ensures settled == TotalCredits(Ledgers()) - TotalCredits(old(Ledgers()))
    {
      hide ShapedLedger, Resolved, TotalCredits, Ledgers, Separate;
      settled := 0;
      if !enabled {
        return;
      }
      var index := 0;
      while index < |ledgers|
        invariant index <= |ledgers| && Valid()
        invariant forall i :: 0 <= i < index ==>
                    (Ledgers()[i] == (if midOf(i).Some? then Resolved(horizons, old(Ledgers())[i], now, midOf(i).value) else old(Ledgers())[i]))
        invariant forall i :: index <= i < |ledgers| ==> Ledgers()[i] == old(Ledgers())[i]
        invariant settled == TotalCredits(Ledgers()) - TotalCredits(old(Ledgers()))
      {
        var mid := midOf(index);
        if mid.Some? {
          var more := ResolveOne(index, now, mid.value);
          settled := settled + more;
        }
        index := index + 1;
      }
    }
  }
}
