/** The single writer of the market-data cache: symbols to books through shards, the two
    flat lanes that shadow the best prices, and the counters. The specification keeps one
    flat list of books by symbol id and knows nothing about shards. */
module Publisher {
  import opened Arith
  import opened Codec
  import opened Symbols
  import opened Fixed
  import B = Book
  import S = Side

  datatype Stats = Stats(published: nat, applied: nat, ignored: nat, unknownSymbol: nat,
                         wrongSide: nat, overflow: nat, crossed: nat)

  datatype Outcome = Ignored | UnknownSymbol | WrongSide | Took(applied: B.Applied)

  const NoStats: Stats := Stats(0, 0, 0, 0, 0, 0, 0)

  /** Grow a list to `n` entries. */
  function Padded<T>(s: seq<T>, n: nat, x: T): (r: seq<T>)
    ensures |r| == Max(|s|, n) && s <= r
    ensures forall i :: |s| <= i < |r| ==> r[i] == x
  {
    if n <= |s| then s else s + seq(n - |s|, _ => x)
  }

  // ---------------------------------------------------------------------------
  // The specification: one list of books
  // ---------------------------------------------------------------------------

  /** `touched[id]` says that a record has reached the book of `id`. */
  datatype FlatState = FlatState(numbering: Numbering, books: seq<B.BookState>, touched: seq<bool>, stats: Stats)

  predicate Shaped(f: FlatState) {
    |f.books| == |f.touched| == |f.numbering.symbols|
  }

  type Flat = f: FlatState | Shaped(f) witness FlatState(NewNumbering(0), [], [], NoStats)

  function New(capacity: nat): (f: Flat)
  {
    FlatState(NewNumbering(capacity), [], [], NoStats)
  }

  function Intern(f: Flat, s: Symbol): (r: (Flat, Interned))
    ensures r.1.Id? ==> r.1.id < |r.0.books|
    ensures r.1.Full? ==> r.0 == f
  {
    var (n, answer) := Issue(f.numbering, s);
    var size := |n.symbols|;
    (f.(numbering := n, books := Padded(f.books, size, B.EmptyBook), touched := Padded(f.touched, size, false)), answer)
  }

  function Count(s: Stats, a: B.Applied, b: B.BookState): Stats {
    s.(applied := s.applied + 1,
       overflow := s.overflow + (if a.Overflow? then 1 else 0),
       crossed := s.crossed + (if B.Crossed(b) then 1 else 0))
  }

  function Publish(depth: nat, f: Flat, m: Msg): (r: (Flat, Outcome))
  {
    var s := f.stats.(published := f.stats.published + 1);
    if !m.AffectsBook() then (f.(stats := s.(ignored := s.ignored + 1)), Ignored)
    else
      var (g, answer) := Intern(f.(stats := s), m.symbol);
      if answer.Full? then (g.(stats := s.(unknownSymbol := s.unknownSymbol + 1)), UnknownSymbol)
      else
        var id := answer.id;
        var (b, a) := B.Apply(depth, g.books[id], m);
        var h := g.(books := g.books[id := b], touched := g.touched[id := true]);
        if a.WrongSide? then (h.(stats := s.(wrongSide := s.wrongSide + 1)), WrongSide)
        else (h.(stats := Count(s, a, b)), Took(a))
  }

  datatype Op = Register(symbol: Symbol) | Record(m: Msg)

  function Step(depth: nat, f: Flat, op: Op): (g: Flat)
  {
    match op
    case Register(s) => Intern(f, s).0
    case Record(m) => Publish(depth, f, m).0
  }

  function RunOps(depth: nat, capacity: nat, ops: seq<Op>): (f: Flat)
  {
    if ops == [] then New(capacity)
    else Step(depth, RunOps(depth, capacity, ops[..|ops| - 1]), ops[|ops| - 1])
  }

  lemma RunOpsAppend(depth: nat, capacity: nat, ops: seq<Op>, op: Op)
    ensures RunOps(depth, capacity, ops + [op]) == Step(depth, RunOps(depth, capacity, ops), op)
  {
    assert (ops + [op])[..|ops|] == ops;
  }

  // ---------------------------------------------------------------------------
  // What a run does to one symbol
  // ---------------------------------------------------------------------------

  /** The records of one symbol, in order. */
  function Of(ops: seq<Op>, s: Symbol): seq<Msg> {
    if ops == [] then []
    else
      var op := ops[|ops| - 1];
      Of(ops[..|ops| - 1], s) + (if op.Record? && op.m.symbol == s then [op.m] else [])
  }

  lemma OfAppend(ops: seq<Op>, op: Op, s: Symbol)
    ensures Of(ops + [op], s) == Of(ops, s) + (if op.Record? && op.m.symbol == s then [op.m] else [])
  {
    assert (ops + [op])[..|ops|] == ops;
  }

  /** No symbol will ever be issued again. */
  predicate Stuck(n: Numbering) {
    |n.symbols| == n.capacity && n.capacity >= CEILING
  }

  /** `book` is what `f` holds for `s`, or would hold if it still had room. */
  predicate Holds(f: Flat, s: Symbol, book: B.BookState)
  {
    match Find(f.numbering.symbols, s)
    case Some(i) => f.books[i] == book
    case None => Stuck(f.numbering) || book == B.EmptyBook
  }

  lemma InternHolds(f: Flat, wanted: Symbol, s: Symbol, book: B.BookState)
    requires Symbols.Sound(f.numbering) && Holds(f, s, book)
    ensures Symbols.Sound(Intern(f, wanted).0.numbering)
    ensures Holds(Intern(f, wanted).0, s, book)
    ensures Intern(f, wanted).1.Id? ==> Find(Intern(f, wanted).0.numbering.symbols, wanted) == Some(Intern(f, wanted).1.id)
  {
    hide B.Apply, Padded;
    var n, n' := f.numbering, Issue(f.numbering, wanted).0;
    IssueIsSound(n, wanted);
    if Find(n.symbols, s).Some? {
      FindUnique(n'.symbols, s, Find(n.symbols, s).value);
    } else if Find(n'.symbols, s).Some? {
      FindUnique(n'.symbols, s, |n.symbols|);
    }
    if Intern(f, wanted).1.Id? {
      FindUnique(n'.symbols, wanted, Intern(f, wanted).1.id);
    }
  }

  /** A record changes only its own symbol's book, and that one by `Apply`. */
  lemma PublishHolds(depth: nat, f: Flat, m: Msg, s: Symbol, book: B.BookState)
    requires Symbols.Sound(f.numbering) && Holds(f, s, book)
    ensures Symbols.Sound(Publish(depth, f, m).0.numbering)
    ensures Holds(Publish(depth, f, m).0, s, if m.symbol == s then B.Apply(depth, book, m).0 else book)
  {
    hide Issue, Find;
    InternHolds(f, m.symbol, s, book);
    if m.AffectsBook() {
      hide B.Apply;
      IssueAnswers(f.numbering, m.symbol, []);
    }
  }

  lemma RunOpsSound(depth: nat, capacity: nat)
    ensures Symbols.Sound(New(capacity).numbering) && RunOps(depth, capacity, []) == New(capacity)
    ensures forall s :: Of([], s) == [] && Holds(New(capacity), s, B.Run(depth, []))
  {
  }

  /** After any run, and whatever the other symbols did in between, a known symbol's book is
      the run of that symbol's own records from an empty book. A symbol that is not known
      has lost records only if the table is full for good. */
  lemma {:induction false} BookIsItsOwnRecords(depth: nat, capacity: nat, ops: seq<Op>, s: Symbol)
    ensures Symbols.Sound(RunOps(depth, capacity, ops).numbering)
    ensures Holds(RunOps(depth, capacity, ops), s, B.Run(depth, Of(ops, s)))
  {
    hide *;
    if ops == [] {
      RunOpsSound(depth, capacity);
    } else {
      var front, op := ops[..|ops| - 1], ops[|ops| - 1];
      assert ops == front + [op];
      BookIsItsOwnRecords(depth, capacity, front, s);
      RunOpsAppend(depth, capacity, front, op);
      OfAppend(front, op, s);
      assert Of(front, s) + [] == Of(front, s);
      StepHolds(depth, RunOps(depth, capacity, front), op, s, Of(front, s));
    }
  }

  lemma StepHolds(depth: nat, f: Flat, op: Op, s: Symbol, msgs: seq<Msg>)
    requires Symbols.Sound(f.numbering) && Holds(f, s, B.Run(depth, msgs))
    ensures Symbols.Sound(Step(depth, f, op).numbering)
    ensures Holds(Step(depth, f, op), s,
                  B.Run(depth, msgs + (if op.Record? && op.m.symbol == s then [op.m] else [])))
  {
    hide Intern, Publish, Holds, B.Apply;
    assert msgs + [] == msgs;
    match op
    case Register(wanted) =>
      InternHolds(f, wanted, s, B.Run(depth, msgs));
    case Record(m) =>
      PublishHolds(depth, f, m, s, B.Run(depth, msgs));
      B.RunAppend(depth, B.EmptyBook, msgs, m);
  }

  // ---------------------------------------------------------------------------
  // Counters
  // ---------------------------------------------------------------------------

  function Records(ops: seq<Op>): nat {
    if ops == [] then 0
    else Records(ops[..|ops| - 1]) + (if ops[|ops| - 1].Record? then 1 else 0)
  }

  function AppliedTotal(books: seq<B.BookState>): nat {
    if books == [] then 0 else AppliedTotal(books[..|books| - 1]) + books[|books| - 1].applied
  }

  ghost predicate Balanced(f: Flat) {
    var s := f.stats;
    && s.published == s.applied + s.ignored + s.unknownSymbol + s.wrongSide
    && s.overflow <= s.applied && s.crossed <= s.applied
    && s.applied == AppliedTotal(f.books)
  }

  lemma {:induction false} AppliedUpdate(books: seq<B.BookState>, id: nat, b: B.BookState)
    requires id < |books|
    ensures AppliedTotal(books[id := b]) == AppliedTotal(books) - books[id].applied + b.applied
  {
    var front := books[..|books| - 1];
    var books' := books[id := b];
    if id == |books| - 1 {
      assert books'[..|books| - 1] == front;
    } else {
      assert books'[..|books| - 1] == front[id := b];
      AppliedUpdate(front, id, b);
    }
  }

  lemma {:induction false} AppliedPadded(books: seq<B.BookState>, n: nat)
    ensures AppliedTotal(Padded(books, n, B.EmptyBook)) == AppliedTotal(books)
    decreases n
  {
    hide Padded, AppliedTotal;
    PadOne(books, n);
    if n > |books| {
      AppliedPadded(books, n - 1);
      AppliedAppend(Padded(books, n - 1, B.EmptyBook), B.EmptyBook);
    }
  }

  lemma PadOne(books: seq<B.BookState>, n: nat)
    ensures Padded(books, n, B.EmptyBook) ==
            if n > |books| then Padded(books, n - 1, B.EmptyBook) + [B.EmptyBook] else books
  {
  }

  lemma AppliedAppend(books: seq<B.BookState>, b: B.BookState)
    ensures AppliedTotal(books + [b]) == AppliedTotal(books) + b.applied
  {
    assert (books + [b])[..|books|] == books;
  }

  lemma StepBalanced(depth: nat, f: Flat, op: Op)
    requires Balanced(f)
    ensures Balanced(Step(depth, f, op))
    ensures Step(depth, f, op).stats.published == f.stats.published + (if op.Record? then 1 else 0)
  {
    hide Issue, Padded, AppliedTotal;
    var wanted := if op.Register? then op.symbol else op.m.symbol;
    AppliedPadded(f.books, |Issue(f.numbering, wanted).0.symbols|);
    var g, answer := Intern(f, wanted).0, Intern(f, wanted).1;
    if op.Record? && op.m.AffectsBook() && answer.Id? {
      AppliedUpdate(g.books, answer.id, B.Apply(depth, g.books[answer.id], op.m).0);
      ApplyCounts(depth, g.books[answer.id], op.m);
      hide B.Apply;
    }
  }

  /** What becomes of each record, and which counters say so. */
  lemma PublishAnswers(depth: nat, f: Flat, m: Msg)
    requires Symbols.Sound(f.numbering)
    ensures var (g, outcome) := Publish(depth, f, m);
            var s, n := f.stats.(published := f.stats.published + 1), f.numbering;
            if m.kind.Heartbeat? || m.kind.Cmd? then
              outcome == Ignored && g == f.(stats := s.(ignored := s.ignored + 1))
            else if m.symbol !in n.symbols && |n.symbols| == n.capacity && n.capacity >= 1048576 then
              outcome == UnknownSymbol && g == f.(stats := s.(unknownSymbol := s.unknownSymbol + 1))
            else
              exists id: nat :: && id < |g.books| && g.numbering.symbols[id] == m.symbol && g.touched[id]
                                && Published(depth, if id < |f.books| then f.books[id] else B.EmptyBook, m, s, g.books[id], g.stats, outcome)
  {
    hide B.Apply, B.Crossed, Issue, Padded;
    Symbols.IssueAnswers(f.numbering, m.symbol, []);
    FullKeeps(f, m.symbol);
    if m.AffectsBook() && !Intern(f, m.symbol).1.Full? {
      InternFinds(f, m.symbol);
      Reaches(depth, f, m);
      assert Publish(depth, f, m).0.numbering.symbols[Intern(f, m.symbol).1.id] == m.symbol;
    }
  }

  lemma FullKeeps(f: Flat, s: Symbol)
    ensures Intern(f, s).1 == Issue(f.numbering, s).1
    ensures Intern(f, s).1.Full? ==> Intern(f, s).0 == f
  {
  }

  lemma Reaches(depth: nat, f: Flat, m: Msg)
    requires m.AffectsBook() && Intern(f, m.symbol).1.Id?
    ensures var (g, outcome) := Publish(depth, f, m);
            var h, id := Intern(f, m.symbol).0, Intern(f, m.symbol).1.id;
            && id < |g.books| && g.numbering == h.numbering && g.touched[id]
            && Published(depth, h.books[id], m, f.stats.(published := f.stats.published + 1), g.books[id], g.stats, outcome)
  {
    hide B.Apply, B.Crossed, Issue, Padded;
    var h, id := Intern(f, m.symbol).0, Intern(f, m.symbol).1.id;
    AnswerIs(depth, h.books[id], m);
    CrossedIs(B.Apply(depth, h.books[id], m).0);
  }

  /** A record that reached a book: refused for naming both sides, or applied to it. */
  ghost predicate Published(depth: nat, before: B.BookState, m: Msg, s: Stats, after: B.BookState, t: Stats, outcome: Outcome) {
    if m.side.Both? then
      outcome == WrongSide && after == before && t == s.(wrongSide := s.wrongSide + 1)
    else
      && (after, if outcome.Took? then outcome.applied else B.Ignored) == B.Apply(depth, before, m) && outcome.Took?
      && t == s.(applied := s.applied + 1, overflow := s.overflow + (if outcome.applied.Overflow? then 1 else 0),
                 crossed := s.crossed + (if after.bids != [] && after.asks != [] && after.bids[0].px >= after.asks[0].px then 1 else 0))
  }

  lemma InternFinds(f: Flat, s: Symbol)
    requires Symbols.Sound(f.numbering) && Intern(f, s).1.Id?
    ensures var (g, answer) := Intern(f, s);
            && answer.id < |g.books| && g.numbering.symbols[answer.id] == s && f.numbering.symbols <= g.numbering.symbols
            && g.books[answer.id] == (if answer.id < |f.books| then f.books[answer.id] else B.EmptyBook)
  {
  }

  lemma AnswerIs(depth: nat, b: B.BookState, m: Msg)
    requires m.AffectsBook()
    ensures m.side.Both? ==> B.Apply(depth, b, m) == (b, B.WrongSide)
    ensures !m.side.Both? ==> !B.Apply(depth, b, m).1.WrongSide? && !B.Apply(depth, b, m).1.Ignored?
  {
  }

  lemma CrossedIs(b: B.BookState)
    ensures B.Crossed(b) <==> b.bids != [] && b.asks != [] && b.bids[0].px >= b.asks[0].px
  {
  }

  lemma ApplyCounts(depth: nat, b: B.BookState, m: Msg)
    requires m.AffectsBook()
    ensures B.Apply(depth, b, m).0.applied == b.applied + (if B.Apply(depth, b, m).1.WrongSide? then 0 else 1)
    ensures !B.Apply(depth, b, m).1.Ignored?
  {
  }

  /** Every record published is counted in exactly one of four ways, and the applied ones
      are the sum over all books of what each applied. */
  lemma {:induction false} CountersAddUp(depth: nat, capacity: nat, ops: seq<Op>)
    ensures Balanced(RunOps(depth, capacity, ops))
    ensures RunOps(depth, capacity, ops).stats.published == Records(ops)
  {
    if ops != [] {
      hide Step, Balanced;
      var front, op := ops[..|ops| - 1], ops[|ops| - 1];
      CountersAddUp(depth, capacity, front);
      StepBalanced(depth, RunOps(depth, capacity, front), op);
    }
  }

  // ---------------------------------------------------------------------------
  // Shards
  // ---------------------------------------------------------------------------

  type Shards = s: seq<seq<B.BookState>> | |s| > 0 witness [[]]

  function ShardOf(n: pos, id: nat): (shard: nat)
    ensures shard < n
  {
    id % n
  }

  function SlotOf(n: pos, id: nat): nat {
    id / n
  }

  /** Whether the shard of `id` has grown as far as its slot. */
  predicate Reached(shards: Shards, id: nat)
  {
    SlotOf(|shards|, id) < |shards[ShardOf(|shards|, id)]|
  }

  /** What row `r` holds in slot `t`. */
  function Cell(shards: Shards, r: nat, t: nat): B.BookState
    requires r < |shards|
  {
    if t < |shards[r]| then shards[r][t] else B.EmptyBook
  }

  function At(shards: Shards, id: nat): B.BookState
  {
    Cell(shards, ShardOf(|shards|, id), SlotOf(|shards|, id))
  }

  function Flatten(shards: Shards, n: nat): (books: seq<B.BookState>)
    ensures |books| == n
  {
    seq(n, id requires 0 <= id < n => At(shards, id))
  }

  function Store(shards: Shards, id: nat, b: B.BookState): (r: seq<seq<B.BookState>>)
    ensures |r| == |shards|
  {
    var shard, slot := ShardOf(|shards|, id), SlotOf(|shards|, id);
    shards[shard := Padded(shards[shard], slot + 1, B.EmptyBook)[slot := b]]
  }

  /** A later record has grown the shard past `id`. */
  ghost predicate Behind(touched: seq<bool>, n: pos, id: nat)
  {
    exists j :: id <= j < |touched| && ShardOf(n, j) == ShardOf(n, id) && touched[j]
  }

  /** Within one shard slots come in the order of the ids. */
  lemma SlotOrder(n: pos, id: nat, k: nat)
    ensures ShardOf(n, id) == ShardOf(n, k) ==> (SlotOf(n, id) <= SlotOf(n, k) <==> id <= k)
  {
    if id % n == k % n {
      assert id == n * (id / n) + id % n;
      assert k == n * (k / n) + k % n;
      CancelFactor(id / n, k / n, n);
    }
  }

  /** Growing a row to hold a slot, and filling the slot. */
  lemma CellUpdate(shards: Shards, row: nat, slot: nat, b: B.BookState, r: nat, t: nat)
    requires row < |shards| && r < |shards|
    ensures var shards' := shards[row := Padded(shards[row], slot + 1, B.EmptyBook)[slot := b]];
            && Cell(shards', r, t) == (if r == row && t == slot then b else Cell(shards, r, t))
            && (t < |shards'[r]| <==> t < |shards[r]| || (r == row && t <= slot))
  {
  }

  /** One slot holds one symbol: storing a book changes that id and no other, whatever the
      number of shards. */
  lemma StoreIsUpdate(shards: Shards, id: nat, b: B.BookState, k: nat)
    ensures At(Store(shards, id, b), k) == if k == id then b else At(shards, k)
    ensures Reached(Store(shards, id, b), k) <==>
            Reached(shards, k) || (ShardOf(|shards|, k) == ShardOf(|shards|, id) && k <= id)
  {
    hide Padded, Cell, ShardOf, SlotOf;
    var n := |shards|;
    CellUpdate(shards, ShardOf(n, id), SlotOf(n, id), b, ShardOf(n, k), SlotOf(n, k));
    SlotOrder(n, k, id);
    SlotOrder(n, id, k);
  }

  lemma OpenBehind(touched: seq<bool>, n: pos, id: nat, k: nat)
    requires id < |touched|
    ensures Behind(touched[id := true], n, k) <==> Behind(touched, n, k) || (ShardOf(n, k) == ShardOf(n, id) && k <= id)
  {
    var touched' := touched[id := true];
    if Behind(touched, n, k) {
      var j :| k <= j < |touched| && ShardOf(n, j) == ShardOf(n, k) && touched[j];
      assert touched'[j];
    }
    if ShardOf(n, k) == ShardOf(n, id) && k <= id {
      assert touched'[id];
    }
  }

  lemma PadBehind(touched: seq<bool>, size: nat, n: pos, k: nat)
    ensures Behind(Padded(touched, size, false), n, k) <==> Behind(touched, n, k)
  {
    var touched' := Padded(touched, size, false);
    if Behind(touched, n, k) {
      var j :| k <= j < |touched| && ShardOf(n, j) == ShardOf(n, k) && touched[j];
      assert touched'[j];
    }
  }

  /** Whether asking for a symbol's book finds one is the only thing the shard count
      changes: it does not change it for any count if and only if the symbol has had a
      record or no later symbol has. */
  lemma VisibilityDependsOnShards(touched: seq<bool>, id: nat)
    requires id < |touched|
    ensures (forall n: nat :: n > 0 ==> (Behind(touched, n, id) <==> touched[id])) <==>
            (touched[id] || forall j :: id < j < |touched| ==> !touched[j])
  {
    if touched[id] {
      forall n: nat | n > 0
        ensures Behind(touched, n, id)
      {
        assert touched[id] && ShardOf(n, id) == ShardOf(n, id);
      }
    } else if j :| id < j < |touched| && touched[j] {
      assert ShardOf(1, j) == ShardOf(1, id);
      assert Behind(touched, 1, id);
    }
  }

  /** A run where it shows: one symbol is registered ahead of its first record, another gets
      one. With one shard the first symbol's book is found, with two it is not. */
  lemma ShardCountShows(depth: nat, capacity: nat, a: Symbol, m: Msg)
    requires m.AffectsBook() && m.symbol != a
    ensures var f := RunOps(depth, capacity, [Register(a), Record(m)]);
            f.numbering.symbols == [a, m.symbol] && Behind(f.touched, 1, 0) && !Behind(f.touched, 2, 0)
  {
    hide B.Apply, Step, Behind;
    var first, f := RunOps(depth, capacity, [Register(a)]), RunOps(depth, capacity, [Register(a), Record(m)]);
    RunOpsAppend(depth, capacity, [], Register(a));
    RunOpsAppend(depth, capacity, [Register(a)], Record(m));
    assert [] + [Register(a)] == [Register(a)] && [Register(a)] + [Record(m)] == [Register(a), Record(m)];
    RegisterFirst(capacity, a, depth);
    RecordSecond(depth, first, m, a);
    SecondTouched(f.touched);
  }

  lemma RegisterFirst(capacity: nat, a: Symbol, depth: nat)
    ensures var f := Step(depth, New(capacity), Register(a));
            f.numbering == Numbering([a], Max(capacity, 1)) && f.touched == [false]
  {
  }

  lemma RecordSecond(depth: nat, f: Flat, m: Msg, a: Symbol)
    requires m.AffectsBook() && m.symbol != a
    requires f.numbering.symbols == [a] && 1 <= f.numbering.capacity && f.touched == [false]
    ensures Step(depth, f, Record(m)).numbering.symbols == [a, m.symbol]
    ensures Step(depth, f, Record(m)).touched == [false, true]
  {
    hide B.Apply;
    assert Find([a], m.symbol) == None;
  }

  lemma SecondTouched(touched: seq<bool>)
    requires touched == [false, true]
    ensures Behind(touched, 1, 0) && !Behind(touched, 2, 0)
  {
    assert touched[1] && ShardOf(1, 1) == ShardOf(1, 0);
  }

  // ---------------------------------------------------------------------------
  // The lanes
  // ---------------------------------------------------------------------------

  /** The best price of a side, zero when it is empty. */
  function BestPx(l: seq<S.Level>): i64 {
    if l == [] then 0 else l[0].px
  }

  /** The midpoint that the lanes give: zero unless both are priced. */
  function LaneMid(bid: i64, ask: i64): i64 {
    if bid != 0 && ask != 0 then Mid(bid, ask) else 0
  }

  function LaneMidOf(b: B.BookState): i64 {
    LaneMid(BestPx(b.bids), BestPx(b.asks))
  }

  function BookMidOrZero(b: B.BookState): i64 {
    match B.MidOf(b) case Some(mid) => mid case None => 0
  }

  /** The lanes give the book's own midpoint, or zero without one, exactly when the book
      does not have a best price of zero on one of two present sides and a midpoint other
      than zero. */
  lemma LanesAgreeIff(b: B.BookState)
    ensures LaneMidOf(b) == BookMidOrZero(b) <==>
            !(b.bids != [] && b.asks != [] && (b.bids[0].px == 0 || b.asks[0].px == 0) && Mid(b.bids[0].px, b.asks[0].px) != 0)
    ensures LaneMidOf(b) == if b.bids != [] && b.asks != [] && b.bids[0].px != 0 && b.asks[0].px != 0
                            then Mid(b.bids[0].px, b.asks[0].px) else 0
  {
    hide Mid;
  }

  ghost predicate PositiveSide(l: seq<S.Level>) {
    forall i :: 0 <= i < |l| ==> l[i].px > 0
  }

  ghost predicate Positive(b: B.BookState) {
    PositiveSide(b.bids) && PositiveSide(b.asks)
  }

  lemma PositiveBounded(isBid: bool, cap: nat, l: seq<S.Level>, e: S.Event)
    requires PositiveSide(l) && (e.Update? && e.qty != 0 ==> e.px > 0)
    ensures PositiveSide(S.Bounded(isBid, cap, l, e))
  {
    hide S.Place, S.Better, S.Insert, S.Without;
    if e.Update? && l != [] {
      var at := S.Place(isBid, l, e.px);
      PositiveWithout(l, at);
      PositiveInsert(l[..|l| - 1], at, S.Level(e.px, e.qty));
    }
    if e.Update? {
      PositiveInsert(l, S.Place(isBid, l, e.px), S.Level(e.px, e.qty));
    }
  }

  lemma PositiveInsert(l: seq<S.Level>, at: nat, level: S.Level)
    ensures PositiveSide(l) && level.px > 0 && at <= |l| ==> PositiveSide(S.Insert(l, at, level))
  {
  }

  lemma PositiveWithout(l: seq<S.Level>, at: nat)
    ensures PositiveSide(l) && at < |l| ==> PositiveSide(S.Without(l, at))
  {
  }

  lemma {:induction false} PositiveRun(depth: nat, msgs: seq<Msg>)
    requires forall m :: m in msgs && m.kind.Depth? && m.qtyE8 != 0 ==> m.pxE8 > 0
    ensures Positive(B.Run(depth, msgs))
  {
    if msgs != [] {
      hide S.Bounded, PositiveSide;
      var front, m := msgs[..|msgs| - 1], msgs[|msgs| - 1];
      PositiveRun(depth, front);
      var b := B.Run(depth, front);
      if m.AffectsBook() {
        PositiveBounded(true, depth, b.bids, B.EventOf(m));
        PositiveBounded(false, depth, b.asks, B.EventOf(m));
      }
    }
    assert PositiveSide([]);
  }

  /** For any run whose sizes come with positive prices, the lane midpoint of every known
      symbol is its book's midpoint, or zero when one side is missing. */
  lemma LanesAgreeOnPositiveRuns(depth: nat, capacity: nat, ops: seq<Op>, id: nat)
    requires id < |RunOps(depth, capacity, ops).books|
    requires forall m :: m in Of(ops, RunOps(depth, capacity, ops).numbering.symbols[id]) && m.kind.Depth? && m.qtyE8 != 0 ==> m.pxE8 > 0
    ensures var b := RunOps(depth, capacity, ops).books[id]; LaneMidOf(b) == BookMidOrZero(b)
  {
    hide RunOps, Of, B.RunFrom, Find, Mid;
    var f := RunOps(depth, capacity, ops);
    var s := f.numbering.symbols[id];
    BookIsItsOwnRecords(depth, capacity, ops, s);
    FindUnique(f.numbering.symbols, s, id);
    PositiveRun(depth, Of(ops, s));
    LanesAgreeIff(f.books[id]);
  }

  // ---------------------------------------------------------------------------
  // The publisher in place
  // ---------------------------------------------------------------------------

  /** Shards reach exactly as far as their records have taken them. */
  ghost predicate Layout(shards: seq<seq<B.BookState>>, touched: seq<bool>) {
    |shards| > 0 && forall k: nat :: Reached(shards, k) <==> Behind(touched, |shards|, k)
  }

  ghost predicate Lanes(bids: seq<i64>, asks: seq<i64>, books: seq<B.BookState>) {
    && |bids| == |asks| >= |books|
    && (forall i :: 0 <= i < |books| ==> bids[i] == BestPx(books[i].bids) && asks[i] == BestPx(books[i].asks))
    && (forall i :: |books| <= i < |bids| ==> bids[i] == asks[i] == 0)
  }

  lemma FlattenStore(shards: Shards, touched: seq<bool>, id: nat, b: B.BookState)
    requires Layout(shards, touched) && id < |touched|
    ensures Layout(Store(shards, id, b), touched[id := true])
    ensures Flatten(Store(shards, id, b), |touched|) == Flatten(shards, |touched|)[id := b]
  {
    hide Store, At, Reached, Behind;
    forall k: nat
      ensures Reached(Store(shards, id, b), k) <==> Behind(touched[id := true], |shards|, k)
      ensures At(Store(shards, id, b), k) == if k == id then b else At(shards, k)
    {
      StoreIsUpdate(shards, id, b, k);
      OpenBehind(touched, |shards|, id, k);
    }
  }

  lemma FlattenPadded(shards: seq<seq<B.BookState>>, touched: seq<bool>, n: nat)
    requires Layout(shards, touched) && n >= |touched|
    ensures Layout(shards, Padded(touched, n, false))
    ensures Flatten(shards, n) == Padded(Flatten(shards, |touched|), n, B.EmptyBook)
  {
    hide Padded;
    forall k: nat
      ensures Reached(shards, k) <==> Behind(Padded(touched, n, false), |shards|, k)
    {
      hide Reached, Behind;
      PadBehind(touched, n, |shards|, k);
    }
    forall k: nat | k >= |touched|
      ensures At(shards, k) == B.EmptyBook
    {
      assert !Behind(touched, |shards|, k);
    }
  }

  class Publisher {
    const symbols: SymbolTable
    const depth: nat
    var shards: seq<seq<B.BookState>>
    var bestBid: seq<i64>
    var bestAsk: seq<i64>
    var stats: Stats
    /** The symbols that a record has reached. */
    ghost var touched: seq<bool>

    ghost predicate Valid()
      reads this, symbols, symbols.index
    {
      && symbols.Valid()
      && |touched| == |symbols.slots|
      && Layout(shards, touched)
      && Lanes(bestBid, bestAsk, Flatten(shards, |touched|))
    }

    ghost function Abstract(): (f: Flat)
      requires Valid()
      reads this, symbols, symbols.index
    {
      FlatState(symbols.Abstract(), Flatten(shards, |touched|), touched, stats)
    }

    constructor (shards: nat, capacity: nat, depth: nat, hash: Symbol -> nat)
      ensures Valid() && Abstract() == New(capacity)
      ensures |this.shards| == PowerOfTwoAtLeast(Max(shards, 1), 1) && this.depth == Max(depth, 1)
      ensures fresh(symbols) && fresh(symbols.index)
    {
      hide PowerOfTwoAtLeast;
      symbols := new SymbolTable(capacity, hash);
      this.depth := Max(depth, 1);
      this.shards := seq(PowerOfTwoAtLeast(Max(shards, 1), 1), _ => []);
      bestBid, bestAsk := seq(Max(capacity, 1), _ => 0), seq(Max(capacity, 1), _ => 0);
      stats, touched := NoStats, [];
      new;
      assert forall k: nat :: k / |this.shards| >= 0 && !Behind([], |this.shards|, k);
    }

    /** Make the lanes long enough for `index`. */
    method EnsureTouchCapacity(index: nat)
      requires |bestBid| == |bestAsk|
      modifies this`bestBid, this`bestAsk
      ensures |bestBid| == |bestAsk| > index
      ensures bestBid == Padded(old(bestBid), |bestBid|, 0) && bestAsk == Padded(old(bestAsk), |bestAsk|, 0)
    {
      hide PowerOfTwoAtLeast;
      if index >= |bestBid| {
        var growTo := PowerOfTwoAtLeast(index + 1, 1);
        bestBid := Padded(bestBid, growTo, 0);
        bestAsk := Padded(bestAsk, growTo, 0);
      }
    }

    /** Issue a symbol an id ahead of its first record. */
    method InternSymbol(s: Symbol) returns (r: Interned)
      requires Valid()
      modifies this`bestBid, this`bestAsk, this`touched, symbols, symbols.index
      ensures Valid() && (symbols.index == old(symbols.index) || fresh(symbols.index))
      ensures (Abstract(), r) == Intern(old(Abstract()), s)
    {
      hide Issue, Layout, Flatten, Behind, Padded, Find, SymbolTable.Valid;
      ghost var before := Abstract();
      r := symbols.Intern(s);
      IssueSizes(before.numbering, s);
      if r.Id? {
        EnsureTouchCapacity(r.id);
      }
      FlattenPadded(shards, touched, |symbols.slots|);
      LanesPadded(old(bestBid), old(bestAsk), before.books, |bestBid|, |symbols.slots|);
      touched := Padded(touched, |symbols.slots|, false);
    }

    /** Apply a record to the book of a known symbol and refresh its place in the lanes. */
    method ApplyAt(id: nat, m: Msg) returns (b: B.BookState, a: B.Applied)
      requires Valid() && id < |touched|
      modifies this`shards, this`bestBid, this`bestAsk, this`touched
      ensures Valid() && |shards| == |old(shards)|
      ensures (b, a) == B.Apply(depth, old(Abstract()).books[id], m)
      ensures var g := old(Abstract());
              Abstract() == g.(books := g.books[id := b], touched := g.touched[id := true])
    {
      hide Layout, Flatten, Padded, SymbolTable.Valid, B.Apply, BestPx, Lanes;
      FlattenAt(shards, touched, id);
      var shard, slot := ShardOf(|shards|, id), SlotOf(|shards|, id);
      var books := Padded(shards[shard], slot + 1, B.EmptyBook);
      var after := B.Apply(depth, books[slot], m);
      b, a := after.0, after.1;
      FlattenStore(shards, touched, id, b);
      LanesUpdate(bestBid, bestAsk, Flatten(shards, |touched|), id, b);
      LanesCover(bestBid, bestAsk, Flatten(shards, |touched|));
      shards := shards[shard := books[slot := b]];
      bestBid := bestBid[id := BestPx(b.bids)];
      bestAsk := bestAsk[id := BestPx(b.asks)];
      touched := touched[id := true];
    }

    /** One record through symbols, books, lanes and counters. */
    method PublishRecord(m: Msg) returns (outcome: Outcome)
      requires Valid()
      modifies this, symbols, symbols.index
      ensures Valid() && (symbols.index == old(symbols.index) || fresh(symbols.index))
      ensures (Abstract(), outcome) == Publish(depth, old(Abstract()), m)
      ensures |shards| == |old(shards)|
    {
      hide Layout, Lanes, Flatten, Padded, Intern, SymbolTable.Valid, B.Apply, B.Crossed;
      stats := stats.(published := stats.published + 1);
      if !m.AffectsBook() {
        stats := stats.(ignored := stats.ignored + 1);
        return Ignored;
      }
      var answer := InternSymbol(m.symbol);
      if answer.Full? {
        stats := stats.(unknownSymbol := stats.unknownSymbol + 1);
        return UnknownSymbol;
      }
      var b, a := ApplyAt(answer.id, m);
      if a.WrongSide? {
        stats := stats.(wrongSide := stats.wrongSide + 1);
        return WrongSide;
      }
      if a.Overflow? {
        stats := stats.(overflow := stats.overflow + 1);
      }
      stats := stats.(applied := stats.applied + 1);
      if B.Crossed(b) {
        stats := stats.(crossed := stats.crossed + 1);
      }
      outcome := Took(a);
    }

    /** One symbol's book, found through the shards. */
    method BookOf(id: nat) returns (book: Option<B.BookState>)
      requires Valid()
      ensures book.Some? <==> Behind(touched, |shards|, id)
      ensures id < |touched| ==> Abstract().books[id] == if book.Some? then book.value else B.EmptyBook
    {
      hide Behind;
      FlattenIndex(shards, |touched|, id);
      book := if Reached(shards, id) then Some(Cell(shards, ShardOf(|shards|, id), SlotOf(|shards|, id))) else None;
    }

    method MidE8(id: nat) returns (mid: Option<i64>)
      requires Valid() && id < |touched|
      ensures mid == B.MidOf(Abstract().books[id])
    {
      hide Behind, Mid, Flatten;
      var book := BookOf(id);
      mid := if book.Some? then B.MidOf(book.value) else None;
    }

    /** Write every symbol's midpoint from the lanes. */
    method MidsInto(out: array<i64>) returns (written: nat)
      requires Valid()
      modifies out
      ensures Valid() && Abstract() == old(Abstract())
      ensures written == Min(|touched|, out.Length)
      ensures forall i :: 0 <= i < written ==> out[i] == LaneMidOf(Abstract().books[i])
      ensures forall i :: written <= i < out.Length ==> out[i] == old(out[i])
    {
      hide Mid, Layout, SymbolTable.Valid;
      written := Min(|symbols.slots|, out.Length);
      var i := 0;
      while i < written
        invariant i <= written
        invariant forall k :: 0 <= k < i ==> out[k] == LaneMid(bestBid[k], bestAsk[k])
        invariant forall k :: i <= k < out.Length ==> out[k] == old(out[k])
      {
        out[i] := LaneMid(bestBid[i], bestAsk[i]);
        i := i + 1;
      }
    }

    /** The touch of one symbol, absent unless both sides are priced. */
    method Touch(index: nat) returns (t: Option<(i64, i64)>)
      requires Valid()
      ensures t.Some? <==>
                && index < |touched| && Abstract().books[index].bids != [] && Abstract().books[index].asks != []
                && Abstract().books[index].bids[0].px != 0 && Abstract().books[index].asks[0].px != 0
      ensures t.Some? ==> t.value == (Abstract().books[index].bids[0].px, Abstract().books[index].asks[0].px)
    {
      hide Layout, SymbolTable.Valid, Flatten;
      if index >= |bestBid| || bestBid[index] == 0 || bestAsk[index] == 0 {
        return None;
      }
      t := Some((bestBid[index], bestAsk[index]));
    }
  }

  /** Put a new publisher through a run of operations. Whatever the number of shards and
      whatever the hash, the books, the ids and the counters come out the same. */
  method RunPublisher(shards: nat, capacity: nat, depth: nat, hash: Symbol -> nat, ops: seq<Op>) returns (p: Publisher)
    ensures p.Valid() && p.Abstract() == RunOps(Max(depth, 1), capacity, ops)
  {
    hide Publish, Intern, Layout, Lanes, Flatten, SymbolTable.Valid, PowerOfTwoAtLeast;
    p := new Publisher(shards, capacity, depth, hash);
    var i := 0;
    assert ops[..0] == [];
    while i < |ops|
      invariant i <= |ops| && p.Valid() && p.depth == Max(depth, 1)
      invariant fresh(p) && fresh(p.symbols) && fresh(p.symbols.index)
      invariant p.Abstract() == RunOps(Max(depth, 1), capacity, ops[..i])
    {
      assert ops[..i + 1] == ops[..i] + [ops[i]];
      RunOpsAppend(Max(depth, 1), capacity, ops[..i], ops[i]);
      match ops[i] {
        case Register(s) => var _ := p.InternSymbol(s);
        case Record(m) => var _ := p.PublishRecord(m);
      }
      i := i + 1;
    }
    assert ops[..i] == ops;
  }

  lemma IssueSizes(n: Numbering, s: Symbol)
    ensures |n.symbols| <= |Issue(n, s).0.symbols|
    ensures Issue(n, s).1.Id? ==> Issue(n, s).1.id + 1 >= |Issue(n, s).0.symbols| || Issue(n, s).0 == n
    ensures Issue(n, s).1.Full? ==> Issue(n, s).0 == n
  {
  }

  lemma FlattenIndex(shards: Shards, n: nat, id: nat)
    ensures id < n ==> Flatten(shards, n)[id] == At(shards, id)
  {
  }

  lemma FlattenAt(shards: seq<seq<B.BookState>>, touched: seq<bool>, id: nat)
    requires Layout(shards, touched) && id < |touched|
    ensures |shards| > 0 && ShardOf(|shards|, id) < |shards|
    ensures Flatten(shards, |touched|)[id] == Padded(shards[ShardOf(|shards|, id)], SlotOf(|shards|, id) + 1, B.EmptyBook)[SlotOf(|shards|, id)]
  {
  }

  lemma LanesPadded(bids: seq<i64>, asks: seq<i64>, books: seq<B.BookState>, lanes: nat, n: nat)
    requires Lanes(bids, asks, books) && lanes >= n && lanes >= |bids|
    ensures Lanes(Padded(bids, lanes, 0), Padded(asks, lanes, 0), Padded(books, n, B.EmptyBook))
  {
  }

  lemma LanesCover(bids: seq<i64>, asks: seq<i64>, books: seq<B.BookState>)
    ensures Lanes(bids, asks, books) ==> |bids| == |asks| >= |books|
  {
  }

  lemma LanesUpdate(bids: seq<i64>, asks: seq<i64>, books: seq<B.BookState>, id: nat, b: B.BookState)
    requires Lanes(bids, asks, books) && id < |books|
    ensures Lanes(bids[id := BestPx(b.bids)], asks[id := BestPx(b.asks)], books[id := b])
  {
  }

  /** The obvious kernel: every known symbol's midpoint through its book, zero without one. */
  method BaselineMids(publisher: Publisher, out: array<i64>) returns (n: nat)
    requires publisher.Valid()
    modifies out
    ensures publisher.Valid() && publisher.Abstract() == old(publisher.Abstract())
    ensures n == Min(|publisher.touched|, out.Length)
    ensures forall i :: 0 <= i < n ==> out[i] == BookMidOrZero(publisher.Abstract().books[i])
    ensures forall i :: n <= i < out.Length ==> out[i] == old(out[i])
  {
    hide B.MidOf, Layout, Lanes, Flatten, SymbolTable.Valid;
    n := 0;
    while n < |publisher.symbols.slots| && n < out.Length
      invariant n <= Min(|publisher.touched|, out.Length)
      invariant publisher.Valid() && publisher.Abstract() == old(publisher.Abstract())
      invariant forall k :: 0 <= k < n ==> out[k] == BookMidOrZero(publisher.Abstract().books[k])
      invariant forall k :: n <= k < out.Length ==> out[k] == old(out[k])
    {
      var mid := publisher.MidE8(n);
      out[n] := match mid case Some(m) => m case None => 0;
      n := n + 1;
    }
  }
}
