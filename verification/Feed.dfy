/** The feed adapter's picture protocol: each side of a depth picture is a reset followed
    by that side's levels. Numbers in a picture are decimal; a quote is packed by
    multiplying by 1e8 and cutting the fraction. */
module Feed {
  import opened Arith
  import opened Codec
  import opened Side
  import opened Book

  datatype Quote = Quote(px: real, qty: real)

  /** A side that is absent from the picture is left alone; a present one, even empty, is
      replaced. */
  datatype Picture = Picture(bids: Option<seq<Quote>>, asks: Option<seq<Quote>>)

  /** Cut towards zero. */
  function Cut(x: real): int {
    if x >= 0.0 then x.Floor else -(-x).Floor
  }

  function Packed(x: real): int {
    Cut(x * 100_000_000.0)
  }

  /** A quote can be packed when both numbers fit 64 bits; packing another one raises. */
  predicate Packable(q: Quote) {
    IsI64(Packed(q.px)) && IsI64(Packed(q.qty))
  }

  function PackMsg(side: Codec.Side, px: i64, qty: i64, symbol: Symbol, kind: MsgType): Msg {
    Msg(MAGIC, MSG_SIZE, kind, side, 0, 0, seq(16, _ => 0), seq(8, _ => 0), px, qty, symbol)
  }

  /** The records of one side's quotes; `None` when one cannot be packed. */
  function QuoteMsgs(side: Codec.Side, quotes: seq<Quote>, symbol: Symbol): Option<seq<Msg>> {
    if quotes == [] then Some([])
    else
      var front, q := QuoteMsgs(side, quotes[..|quotes| - 1], symbol), quotes[|quotes| - 1];
      if front.None? then None
      else if q.qty == 0.0 then front
      else if !Packable(q) then None
      else Some(front.value + [PackMsg(side, Packed(q.px), Packed(q.qty), symbol, Depth)])
  }

  function SideMsgs(side: Codec.Side, quotes: Option<seq<Quote>>, symbol: Symbol): Option<seq<Msg>> {
    if quotes.None? then Some([])
    else
      var rest := QuoteMsgs(side, quotes.value, symbol);
      if rest.None? then None else Some([PackMsg(side, 0, 0, symbol, DepthReset)] + rest.value)
  }

  function PictureMsgs(p: Picture, symbol: Symbol): Option<seq<Msg>> {
    var bids, asks := SideMsgs(Bid, p.bids, symbol), SideMsgs(Ask, p.asks, symbol);
    if bids.None? || asks.None? then None else Some(bids.value + asks.value)
  }

  /** Turn one picture into records, side by side. */
  method ParseDepth5(p: Picture, symbol: Symbol) returns (out: Option<seq<Msg>>)
    ensures out == PictureMsgs(p, symbol)
  {
    var bids := ParseSide(Bid, p.bids, symbol);
    if bids.None? {
      return None;
    }
    var asks := ParseSide(Ask, p.asks, symbol);
    if asks.None? {
      return None;
    }
    out := Some(bids.value + asks.value);
  }

  method ParseSide(side: Codec.Side, quotes: Option<seq<Quote>>, symbol: Symbol) returns (out: Option<seq<Msg>>)
    ensures out == SideMsgs(side, quotes, symbol)
  {
    hide Packed, Packable, PackMsg;
    if quotes.None? {
      return Some([]);
    }
    var levels := quotes.value;
    var reset := [PackMsg(side, 0, 0, symbol, DepthReset)];
    var msgs: seq<Msg> := [];
    var i := 0;
    while i < |levels|
      invariant i <= |levels| && QuoteMsgs(side, levels[..i], symbol) == Some(msgs)
    {
      var q := levels[i];
      assert levels[..i + 1][..i] == levels[..i];
      if q.qty != 0.0 {
        if !Packable(q) {
          NeverPacked(side, levels, symbol, i + 1);
          return None;
        }
        PackableFits(q);
        msgs := msgs + [PackMsg(side, Packed(q.px), Packed(q.qty), symbol, Depth)];
      }
      i := i + 1;
    }
    assert levels[..i] == levels;
    out := Some(reset + msgs);
  }

  lemma PackableFits(q: Quote)
    ensures Packable(q) ==> IsI64(Packed(q.px)) && IsI64(Packed(q.qty))
  {
  }

  lemma {:induction false} NeverPacked(side: Codec.Side, quotes: seq<Quote>, symbol: Symbol, k: nat)
    requires k <= |quotes| && QuoteMsgs(side, quotes[..k], symbol).None?
    ensures QuoteMsgs(side, quotes, symbol).None?
  {
    if k == |quotes| {
      assert quotes[..k] == quotes;
    } else {
      assert quotes[..|quotes| - 1][..k] == quotes[..k];
      NeverPacked(side, quotes[..|quotes| - 1], symbol, k);
    }
  }

  // ---------------------------------------------------------------------------
  // What the records say
  // ---------------------------------------------------------------------------

  /** `n` is `x` in units of 1e-8, the rest cut towards zero. */
  predicate InUnits(x: real, n: int) {
    if x >= 0.0 then n as real <= x * 100_000_000.0 < n as real + 1.0
    else n as real - 1.0 < x * 100_000_000.0 <= n as real
  }

  predicate UnitsFit(x: real) {
    -9_223_372_036_854_775_809.0 < x * 100_000_000.0 < 9_223_372_036_854_775_808.0
  }

  lemma PackedInUnits(x: real)
    ensures InUnits(x, Packed(x))
    ensures IsI64(Packed(x)) <==> UnitsFit(x)
  {
  }

  /** The quotes with a size, in order. */
  function Sized(quotes: seq<Quote>): seq<Quote> {
    if quotes == [] then []
    else Sized(quotes[..|quotes| - 1]) + (if quotes[|quotes| - 1].qty != 0.0 then [quotes[|quotes| - 1]] else [])
  }

  /** A record as the adapter makes them: right header, nothing that is not its to set. */
  predicate Made(m: Msg, kind: MsgType, side: Codec.Side, symbol: Symbol) {
    && m.magic == MAGIC && m.nbytes == MSG_SIZE && m.kind == kind && m.side == side && m.symbol == symbol
    && m.seqno == 0 && m.tsNs == 0 && m.traceId == seq(16, _ => 0) && m.spanId == seq(8, _ => 0)
  }

  /** A side's quotes become one update each, zero sizes skipped, the numbers in units of
      1e-8; there is none exactly when some number with a size does not fit. */
  lemma {:induction false} QuoteRecords(side: Codec.Side, quotes: seq<Quote>, symbol: Symbol)
    ensures var out := QuoteMsgs(side, quotes, symbol);
            && (out.Some? <==> forall q :: q in quotes && q.qty != 0.0 ==> UnitsFit(q.px) && UnitsFit(q.qty))
            && (out.Some? ==>
                  && |out.value| == |Sized(quotes)|
                  && forall i :: 0 <= i < |out.value| ==>
                       && Made(out.value[i], Depth, side, symbol)
                       && InUnits(Sized(quotes)[i].px, out.value[i].pxE8) && InUnits(Sized(quotes)[i].qty, out.value[i].qtyE8))
  {
    hide Packed, InUnits, UnitsFit;
    if quotes != [] {
      var front, q := quotes[..|quotes| - 1], quotes[|quotes| - 1];
      assert quotes == front + [q];
      QuoteRecords(side, front, symbol);
      PackedInUnits(q.px);
      PackedInUnits(q.qty);
      assert forall x :: x in quotes <==> x in front || x == q;
    }
  }

  /** A picture becomes, for each side it has, a reset and then that side's updates, bids
      first; none at all when a number does not fit. */
  lemma PictureRecords(p: Picture, symbol: Symbol)
    ensures var out := PictureMsgs(p, symbol);
            var bids := if p.bids.None? then Some([]) else QuoteMsgs(Bid, p.bids.value, symbol);
            var asks := if p.asks.None? then Some([]) else QuoteMsgs(Ask, p.asks.value, symbol);
            && (out.Some? <==> bids.Some? && asks.Some?)
            && (out.Some? ==>
                  exists b, a :: && out.value == (if p.bids.Some? then [b] + bids.value else []) + (if p.asks.Some? then [a] + asks.value else [])
                                 && Made(b, DepthReset, Bid, symbol) && Made(a, DepthReset, Ask, symbol)
                                 && b.pxE8 == b.qtyE8 == a.pxE8 == a.qtyE8 == 0)
  {
    hide QuoteMsgs;
    var b, a := PackMsg(Bid, 0, 0, symbol, DepthReset), PackMsg(Ask, 0, 0, symbol, DepthReset);
    assert Made(b, DepthReset, Bid, symbol) && Made(a, DepthReset, Ask, symbol);
    if PictureMsgs(p, symbol).Some? {
      assert PictureMsgs(p, symbol).value ==
             (if p.bids.Some? then [b] + QuoteMsgs(Bid, p.bids.value, symbol).value else [])
             + (if p.asks.Some? then [a] + QuoteMsgs(Ask, p.asks.value, symbol).value else []);
    }
  }

  // ---------------------------------------------------------------------------
  // Self-healing
  // ---------------------------------------------------------------------------

  /** What a picture's side says: each price with its last nonzero size. */
  function Says(quotes: seq<Quote>): map<i64, i64>
    requires forall q :: q in quotes && q.qty != 0.0 ==> Packable(q)
  {
    if quotes == [] then map[]
    else
      var front, q := Says(quotes[..|quotes| - 1]), quotes[|quotes| - 1];
      if q.qty == 0.0 then front
      else
        assert q in quotes;
        PackableFits(q);
        front[Packed(q.px) := Packed(q.qty)]
  }

  /** No nonzero size is too small for eight decimals. */
  predicate NoDust(quotes: seq<Quote>) {
    forall q :: q in quotes && q.qty != 0.0 ==> Packable(q) && Packed(q.qty) != 0
  }

  lemma {:induction false} EventsOfConcat(a: seq<Msg>, b: seq<Msg>, side: Codec.Side)
    ensures SideEvents(a + b, side) == SideEvents(a, side) + SideEvents(b, side)
  {
    if b == [] {
      assert a + b == a;
    } else {
      assert (a + b)[..|a + b| - 1] == a + b[..|b| - 1];
      EventsOfConcat(a, b[..|b| - 1], side);
    }
  }

  /** A side's quotes reach only that side, delete nothing, and build exactly what the
      picture says. */
  lemma {:induction false} QuotesBuild(side: Codec.Side, quotes: seq<Quote>, symbol: Symbol)
    requires NoDust(quotes)
    ensures QuoteMsgs(side, quotes, symbol).Some?
    ensures var msgs := QuoteMsgs(side, quotes, symbol).value;
            && NoDeletes(SideEvents(msgs, side))
            && UnboundedRun(map[], SideEvents(msgs, side)) == Says(quotes)
            && forall other :: other != side ==> SideEvents(msgs, other) == []
  {
    if quotes != [] {
      var front, q := quotes[..|quotes| - 1], quotes[|quotes| - 1];
      QuotesBuild(side, front, symbol);
      if q.qty != 0.0 {
        assert q in quotes;
        PackableFits(q);
        var before := QuoteMsgs(side, front, symbol).value;
        var m := PackMsg(side, Packed(q.px), Packed(q.qty), symbol, Depth);
        AppendQuote(before, m, side);
        assert QuoteMsgs(side, quotes, symbol) == Some(before + [m]);
      }
    }
  }

  lemma AppendEvent(before: seq<Msg>, m: Msg, side: Codec.Side)
    requires m.kind.Depth? && m.side == side
    ensures NoDeletes(SideEvents(before + [m], side)) <==> m.qtyE8 != 0 && NoDeletes(SideEvents(before, side))
  {
    EventsOfAppend(before, m, side);
    var events := SideEvents(before, side);
    assert (events + [EventOf(m)])[..|events|] == events;
  }

  /** The quotes of a side that can be packed delete something exactly when a nonzero size
      among them is too small for eight decimals. */
  lemma {:induction false} DeletesIffDust(side: Codec.Side, quotes: seq<Quote>, symbol: Symbol)
    requires AllPackable(quotes)
    ensures QuoteMsgs(side, quotes, symbol).Some?
    ensures NoDeletes(SideEvents(QuoteMsgs(side, quotes, symbol).value, side)) <==> NoDust(quotes)
  {
    hide Packed, NoDeletes, SideEvents;
    if quotes == [] {
      NothingDeletes(side);
    } else {
      var front, q := quotes[..|quotes| - 1], quotes[|quotes| - 1];
      assert quotes == front + [q];
      DeletesIffDust(side, front, symbol);
      DustOfLast(front, q);
      if q.qty != 0.0 {
        assert q in quotes;
        PackableFits(q);
        AppendEvent(QuoteMsgs(side, front, symbol).value, PackMsg(side, Packed(q.px), Packed(q.qty), symbol, Depth), side);
      }
    }
  }

  lemma NothingDeletes(side: Codec.Side)
    ensures NoDeletes(SideEvents([], side)) && NoDust([])
  {
  }

  lemma DustOfLast(front: seq<Quote>, q: Quote)
    requires forall o :: o in front + [q] && o.qty != 0.0 ==> Packable(o)
    ensures NoDust(front + [q]) <==> NoDust(front) && (q.qty == 0.0 || Packed(q.qty) != 0)
  {
    assert q in front + [q] && forall o :: o in front ==> o in front + [q];
  }

  lemma AppendQuote(before: seq<Msg>, m: Msg, side: Codec.Side)
    requires m.kind.Depth? && m.side == side && m.qtyE8 != 0 && NoDeletes(SideEvents(before, side))
    ensures NoDeletes(SideEvents(before + [m], side))
    ensures UnboundedRun(map[], SideEvents(before + [m], side)) ==
            UnboundedRun(map[], SideEvents(before, side))[m.pxE8 := m.qtyE8]
    ensures forall other :: other != side ==> SideEvents(before + [m], other) == SideEvents(before, other)
  {
    forall other
      ensures SideEvents(before + [m], other) == SideEvents(before, other) + (if other == side then [EventOf(m)] else [])
    {
      EventsOfAppend(before, m, other);
    }
    var events := SideEvents(before, side);
    assert (events + [EventOf(m)])[..|events|] == events;
  }

  predicate AllPackable(quotes: seq<Quote>) {
    forall q :: q in quotes && q.qty != 0.0 ==> Packable(q)
  }

  lemma AppendedQuote(before: seq<Msg>, m: Msg, side: Codec.Side)
    requires m.kind.Depth? && m.side == side
    ensures SideEvents(before + [m], side) == SideEvents(before, side) + [Update(m.pxE8, m.qtyE8)]
    ensures forall other :: other != side ==> SideEvents(before + [m], other) == SideEvents(before, other)
  {
    forall other
      ensures SideEvents(before + [m], other) == SideEvents(before, other) + (if other == side then [Update(m.pxE8, m.qtyE8)] else [])
    {
      EventsOfAppend(before, m, other);
    }
  }

  lemma NoQuotes(side: Codec.Side, symbol: Symbol)
    ensures QuoteMsgs(side, [], symbol) == Some([]) && AllPackable([])
    ensures forall other :: SideEvents([], other) == []
    ensures Latest([]) == Says([]) == map[]
  {
  }

  lemma LatestAppend(events: seq<Event>, px: i64, qty: i64)
    ensures Latest(events + [Update(px, qty)]) == Latest(events)[px := qty]
  {
    assert (events + [Update(px, qty)])[..|events|] == events;
  }

  /** Dust or not, a side's records name what its quotes say, and build that less the prices
      left at zero. */
  lemma {:induction false} QuotesBuildLive(side: Codec.Side, quotes: seq<Quote>, symbol: Symbol)
    requires AllPackable(quotes)
    ensures QuoteMsgs(side, quotes, symbol).Some?
    ensures var msgs := QuoteMsgs(side, quotes, symbol).value;
            && Latest(SideEvents(msgs, side)) == Says(quotes)
            && UnboundedRun(map[], SideEvents(msgs, side)) == Live(Says(quotes))
            && forall other :: other != side ==> SideEvents(msgs, other) == []
  {
    hide Packed, SideEvents, UnboundedRun, Live, Latest;
    if quotes == [] {
      NoQuotes(side, symbol);
    } else {
      var front, q := quotes[..|quotes| - 1], quotes[|quotes| - 1];
      QuotesBuildLive(side, front, symbol);
      if q.qty != 0.0 {
        assert q in quotes;
        PackableFits(q);
        var before := QuoteMsgs(side, front, symbol).value;
        var m := PackMsg(side, Packed(q.px), Packed(q.qty), symbol, Depth);
        AppendedQuote(before, m, side);
        LatestAppend(SideEvents(before, side), m.pxE8, m.qtyE8);
        assert QuoteMsgs(side, quotes, symbol) == Some(before + [m]);
      }
    }
    UnboundedIsLive(SideEvents(QuoteMsgs(side, quotes, symbol).value, side));
  }

  /** None of the best `depth` prices a side quotes ends with a size too small for eight
      decimals. */
  ghost predicate NoDustOnTop(isBid: bool, depth: nat, quotes: seq<Quote>)
    requires AllPackable(quotes)
  {
    AllSized(Top(isBid, Says(quotes), depth))
  }

  lemma HealsSideIff(isBid: bool, depth: nat, before: seq<Level>, quotes: seq<Quote>, events: seq<Event>)
    requires AllPackable(quotes) && Latest(events) == Says(quotes)
    ensures BoundedRun(isBid, depth, before, [Reset] + events) == Top(isBid, Says(quotes), depth) <==>
            NoDustOnTop(isBid, depth, quotes)
  {
    hide BoundedRun, Top, Latest, Says;
    ResetHeals(isBid, depth, before, [], events);
    assert [] + [Reset] + events == [Reset] + events;
    ShowsBestIff(isBid, depth, events);
  }

  /** The events a present side sends to its own side of the book. */
  lemma SideSends(side: Codec.Side, quotes: seq<Quote>, symbol: Symbol)
    requires AllPackable(quotes) && !side.Both?
    ensures SideMsgs(side, Some(quotes), symbol).Some? && QuoteMsgs(side, quotes, symbol).Some?
    ensures var msgs := SideMsgs(side, Some(quotes), symbol).value;
            && SideEvents(msgs, side) == [Reset] + SideEvents(QuoteMsgs(side, quotes, symbol).value, side)
            && forall other :: other != side ==> SideEvents(msgs, other) == []
  {
    hide SideEvents, Packable, Packed, PackMsg, QuoteMsgs;
    QuotesBuildLive(side, quotes, symbol);
    var reset := PackMsg(side, 0, 0, symbol, DepthReset);
    var rest := QuoteMsgs(side, quotes, symbol).value;
    forall other
      ensures SideEvents([reset] + rest, other) == (if other == side then [Reset] else []) + SideEvents(rest, other)
    {
      EventsOfConcat([reset], rest, other);
      ResetEvents(side, symbol, other);
    }
  }

  lemma ResetEvents(side: Codec.Side, symbol: Symbol, other: Codec.Side)
    requires !side.Both?
    ensures SideEvents([PackMsg(side, 0, 0, symbol, DepthReset)], other) == if other == side then [Reset] else []
  {
    var reset := PackMsg(side, 0, 0, symbol, DepthReset);
    EventsOfAppend([], reset, other);
    assert [] + [reset] == [reset];
  }

  lemma DustFree(quotes: seq<Quote>)
    ensures NoDust(quotes) ==> AllPackable(quotes)
  {
  }

  lemma HealsSide(isBid: bool, depth: nat, before: seq<Level>, quotes: seq<Quote>, events: seq<Event>)
    requires NoDust(quotes) && NoDeletes(events) && UnboundedRun(map[], events) == Says(quotes)
    ensures BoundedRun(isBid, depth, before, [Reset] + events) == Top(isBid, Says(quotes), depth)
  {
    ResetHeals(isBid, depth, before, [], events);
    assert [] + [Reset] + events == [Reset] + events;
    BestOfReference(isBid, depth, events);
  }

  /** From any book whatever, one complete picture leaves each side the best `depth` of
      the picture's own levels, the last duplicate winning; no old price survives. */
  lemma PictureHeals(depth: nat, before: BookState, p: Picture, symbol: Symbol)
    requires p.bids.Some? && p.asks.Some? && NoDust(p.bids.value) && NoDust(p.asks.value)
    ensures PictureMsgs(p, symbol).Some?
    ensures var after := RunFrom(depth, before, PictureMsgs(p, symbol).value);
            && after.bids == Top(true, Says(p.bids.value), depth)
            && after.asks == Top(false, Says(p.asks.value), depth)
  {
    hide *;
    var bids, asks := p.bids.value, p.asks.value;
    DustFree(bids);
    DustFree(asks);
    SideSends(Bid, bids, symbol);
    SideSends(Ask, asks, symbol);
    QuotesBuild(Bid, bids, symbol);
    QuotesBuild(Ask, asks, symbol);
    var a, b := SideMsgs(Bid, p.bids, symbol).value, SideMsgs(Ask, p.asks, symbol).value;
    PictureIsBoth(p, symbol);
    EventsOfConcat(a, b, Bid);
    EventsOfConcat(a, b, Ask);
    SidesAreIndependent(depth, before, a + b);
    assert p.bids == Some(bids) && p.asks == Some(asks);
    assert SideEvents(a, Bid) + [] == SideEvents(a, Bid) && [] + SideEvents(b, Ask) == SideEvents(b, Ask);
    HealsSide(true, depth, before.bids, bids, SideEvents(QuoteMsgs(Bid, bids, symbol).value, Bid));
    HealsSide(false, depth, before.asks, asks, SideEvents(QuoteMsgs(Ask, asks, symbol).value, Ask));
  }

  lemma PictureIsBoth(p: Picture, symbol: Symbol)
    requires SideMsgs(Bid, p.bids, symbol).Some? && SideMsgs(Ask, p.asks, symbol).Some?
    ensures PictureMsgs(p, symbol) == Some(SideMsgs(Bid, p.bids, symbol).value + SideMsgs(Ask, p.asks, symbol).value)
  {
  }

  /** From any book whatever, one complete picture leaves a side the best `depth` of the
      picture's own levels if and only if none of those ends with a size too small for eight
      decimals. */
  lemma PictureHealsIff(depth: nat, before: BookState, p: Picture, symbol: Symbol)
    requires p.bids.Some? && p.asks.Some? && AllPackable(p.bids.value) && AllPackable(p.asks.value)
    ensures PictureMsgs(p, symbol).Some?
    ensures var after := RunFrom(depth, before, PictureMsgs(p, symbol).value);
            && (after.bids == Top(true, Says(p.bids.value), depth) <==> NoDustOnTop(true, depth, p.bids.value))
            && (after.asks == Top(false, Says(p.asks.value), depth) <==> NoDustOnTop(false, depth, p.asks.value))
  {
    hide *;
    var bids, asks := p.bids.value, p.asks.value;
    SideSends(Bid, bids, symbol);
    SideSends(Ask, asks, symbol);
    QuotesBuildLive(Bid, bids, symbol);
    QuotesBuildLive(Ask, asks, symbol);
    assert p.bids == Some(bids) && p.asks == Some(asks);
    var a, b := SideMsgs(Bid, p.bids, symbol).value, SideMsgs(Ask, p.asks, symbol).value;
    PictureIsBoth(p, symbol);
    EventsOfConcat(a, b, Bid);
    EventsOfConcat(a, b, Ask);
    SidesAreIndependent(depth, before, a + b);
    assert SideEvents(a, Bid) + [] == SideEvents(a, Bid) && [] + SideEvents(b, Ask) == SideEvents(b, Ask);
    HealsSideIff(true, depth, before.bids, bids, SideEvents(QuoteMsgs(Bid, bids, symbol).value, Bid));
    HealsSideIff(false, depth, before.asks, asks, SideEvents(QuoteMsgs(Ask, asks, symbol).value, Ask));
  }

  /** Every price a healed side shows is one the picture quoted. */
  lemma {:induction false} SaysOnlyQuoted(quotes: seq<Quote>, p: i64)
    requires NoDust(quotes) && p in Says(quotes)
    ensures exists q :: q in quotes && q.qty != 0.0 && Packed(q.px) == p
  {
    var front, q := quotes[..|quotes| - 1], quotes[|quotes| - 1];
    if q.qty != 0.0 && Packed(q.px) == p {
      assert q in quotes;
    } else {
      SaysOnlyQuoted(front, p);
    }
  }

  /** Dust is the exception the condition names: a nonzero size below 1e-8 passes the
      adapter's zero test, packs to zero, and deletes the price it was meant to set. */
  lemma DustDeletes(depth: nat, before: BookState, px: real, dust: real, symbol: Symbol)
    requires depth > 0 && IsI64(Packed(px)) && 0.0 < dust < 0.00000001
    ensures PictureMsgs(Picture(Some([Quote(px, 1.0), Quote(px, dust)]), None), symbol).Some?
    ensures RunFrom(depth, before, PictureMsgs(Picture(Some([Quote(px, 1.0), Quote(px, dust)]), None), symbol).value).bids == []
  {
    var a, b := Quote(px, 1.0), Quote(px, dust);
    var x: i64 := Packed(px);
    assert Packed(1.0) == 100_000_000 && Packed(dust) == 0;
    var reset := PackMsg(Bid, 0, 0, symbol, DepthReset);
    var set_, gone := PackMsg(Bid, x, 100_000_000, symbol, Depth), PackMsg(Bid, x, 0, symbol, Depth);
    assert [a, b][..1] == [a] && [a][..0] == [];
    assert QuoteMsgs(Bid, [], symbol) == Some([]);
    assert QuoteMsgs(Bid, [a], symbol) == Some([] + [set_]);
    assert QuoteMsgs(Bid, [a, b], symbol) == Some([] + [set_] + [gone]);
    var msgs := PictureMsgs(Picture(Some([a, b]), None), symbol).value;
    assert msgs == [reset, set_, gone];
    assert msgs[..2] == [reset, set_] && msgs[..2][..1] == [reset] && msgs[..2][..1][..0] == [];
    assert RunFrom(depth, before, [reset]).bids == [];
    assert RunFrom(depth, before, [reset, set_]).bids == [Level(x, 100_000_000)];
  }
}
