/** One symbol's book: two bounded sides, and the unbounded reference book it must agree
    with. */
module Book {
  import opened Arith
  import opened Codec
  import opened Side
  import opened Fixed
  import L = Levels

  datatype BookState = BookState(bids: seq<Level>, asks: seq<Level>, lastSeq: u64, applied: nat)

  datatype Applied = Ignored | WrongSide | Cleared(side: Codec.Side) | Changed(side: Codec.Side) | Overflow(side: Codec.Side)

  const EmptyBook: BookState := BookState([], [], 0, 0)

  /** What a book-changing record does to the side it names. */
  function EventOf(m: Msg): Event {
    if m.kind.DepthReset? then Reset else Update(m.pxE8, m.qtyE8)
  }

  /** The update that a full side refuses: a new price worse than everything it holds. */
  predicate Refused(isBid: bool, depth: nat, l: seq<Level>, m: Msg) {
    m.kind.Depth? && m.qtyE8 != 0 && |l| == depth && Place(isBid, l, m.pxE8) == |l|
  }

  /** The whole state machine of one book. */
  function Apply(depth: nat, b: BookState, m: Msg): (BookState, Applied) {
    if !m.AffectsBook() then (b, Ignored)
    else if m.side.Both? then (b, WrongSide)
    else
      var isBid := m.side.Bid?;
      var l := if isBid then b.bids else b.asks;
      var l' := Bounded(isBid, depth, l, EventOf(m));
      var b' := (if isBid then b.(bids := l') else b.(asks := l')).(applied := b.applied + 1);
      if m.kind.DepthReset? then (b', Cleared(m.side))
      else (b'.(lastSeq := m.seqno), if Refused(isBid, depth, l, m) then Overflow(m.side) else Changed(m.side))
  }

  /** A run of records from any book. */
  function RunFrom(depth: nat, start: BookState, msgs: seq<Msg>): BookState {
    if msgs == [] then start
    else Apply(depth, RunFrom(depth, start, msgs[..|msgs| - 1]), msgs[|msgs| - 1]).0
  }

  function Run(depth: nat, msgs: seq<Msg>): BookState {
    RunFrom(depth, EmptyBook, msgs)
  }

  function MidOf(b: BookState): Option<i64> {
    if b.bids == [] || b.asks == [] then None else Some(Mid(b.bids[0].px, b.asks[0].px))
  }

  predicate Crossed(b: BookState) {
    b.bids != [] && b.asks != [] && b.bids[0].px >= b.asks[0].px
  }

  predicate Sound(depth: nat, b: BookState) {
    Sorted(true, b.bids) && Sorted(false, b.asks) && |b.bids| <= depth && |b.asks| <= depth
  }

  // ---------------------------------------------------------------------------
  // The book in place
  // ---------------------------------------------------------------------------

  class Book {
    const bids: L.Levels
    const asks: L.Levels
    var lastSeq: u64
    var applied: nat
    const depth: nat

    ghost predicate Valid()
      reads this, bids, asks, bids.px, bids.qty, asks.px, asks.qty
    {
      && bids != asks && {bids.px, bids.qty} !! {asks.px, asks.qty}
      && bids.Valid() && asks.Valid() && bids.isBid && !asks.isBid
      && depth > 0 && bids.Capacity() == asks.Capacity() == depth
    }

    ghost function Abstract(): BookState
      requires Valid()
      reads this, bids, asks, bids.px, bids.qty, asks.px, asks.qty
    {
      BookState(bids.Contents(), asks.Contents(), lastSeq, applied)
    }

    constructor (depth: nat)
      ensures Valid() && Abstract() == EmptyBook && this.depth == Max(depth, 1)
      ensures fresh({bids, asks, bids.px, bids.qty, asks.px, asks.qty})
    {
      bids := new L.Levels(depth, true);
      asks := new L.Levels(depth, false);
      lastSeq, applied := 0, 0;
      this.depth := Max(depth, 1);
    }

    /** The record's effect on its side, with what became of it. */
    method ApplyRecord(m: Msg) returns (r: Applied)
      requires Valid()
      modifies this, bids, asks, bids.px, bids.qty, asks.px, asks.qty
      ensures Valid()
      ensures (Abstract(), r) == Apply(depth, old(Abstract()), m)
    {
      hide Place, Sorted, Upsert, Erase, HasPrice, Better;
      if !m.AffectsBook() {
        return Ignored;
      }
      if m.side.Both? {
        return WrongSide;
      }
      var side := if m.side.Bid? then bids else asks;
      applied := applied + 1;
      if m.kind.DepthReset? {
        side.Clear();
        return Cleared(m.side);
      }
      r := Changed(m.side);
      if m.qtyE8 == 0 {
        var _ := side.EraseLevel(m.pxE8);
      } else {
        var isNew := side.UpsertLevel(m.pxE8, m.qtyE8);
        if isNew.None? {
          r := Overflow(m.side);
        }
      }
      lastSeq := m.seqno;
    }

    method MidE8() returns (mid: Option<i64>)
      requires Valid()
      ensures mid == MidOf(Abstract())
      ensures mid.Some? <==> Abstract().bids != [] && Abstract().asks != []
      ensures mid.Some? ==> mid.value == Mid(Abstract().bids[0].px, Abstract().asks[0].px)
    {
      var bid := bids.Best();
      var ask := asks.Best();
      mid := if bid.Some? && ask.Some? then Some(Mid(bid.value.px, ask.value.px)) else None;
    }
  }

  // ---------------------------------------------------------------------------
  // The reference
  // ---------------------------------------------------------------------------

  datatype Reference = Reference(bids: map<i64, i64>, asks: map<i64, i64>, lastSeq: u64)

  const EmptyReference: Reference := Reference(map[], map[], 0)

  /** The unbounded book: any side but `Bid` is the ask side. */
  function ApplyReference(r: Reference, m: Msg): Reference {
    if !m.AffectsBook() then r
    else
      var r' := if m.side.Bid? then r.(bids := Unbounded(r.bids, EventOf(m)))
                else r.(asks := Unbounded(r.asks, EventOf(m)));
      if m.kind.DepthReset? then r' else r'.(lastSeq := m.seqno)
  }

  /** What each record does to the reference: a reset empties a side, a size of zero takes a
      price away, any other sets it; records that change no book change nothing. */
  lemma ReferenceAnswers(r: Reference, m: Msg)
    ensures var t := ApplyReference(r, m);
            var before, after := if m.side.Bid? then r.bids else r.asks, if m.side.Bid? then t.bids else t.asks;
            if m.kind.Heartbeat? || m.kind.Cmd? then t == r
            else
              && (if m.side.Bid? then t.asks == r.asks else t.bids == r.bids)
              && (if m.kind.DepthReset? then after == map[] && t.lastSeq == r.lastSeq
                  else t.lastSeq == m.seqno && after == if m.qtyE8 == 0 then before - {m.pxE8} else before[m.pxE8 := m.qtyE8])
  {
  }

  function RunReference(msgs: seq<Msg>): Reference {
    if msgs == [] then EmptyReference
    else ApplyReference(RunReference(msgs[..|msgs| - 1]), msgs[|msgs| - 1])
  }

  /** The updates a run of records makes to one side. */
  function SideEvents(msgs: seq<Msg>, side: Codec.Side): seq<Event> {
    if msgs == [] then []
    else
      var m := msgs[|msgs| - 1];
      SideEvents(msgs[..|msgs| - 1], side) + (if m.AffectsBook() && m.side == side then [EventOf(m)] else [])
  }

  predicate OneSided(msgs: seq<Msg>) {
    forall m :: m in msgs && m.AffectsBook() ==> !m.side.Both?
  }

  lemma ExtendBounded(isBid: bool, depth: nat, start: seq<Level>, events: seq<Event>, e: Event)
    ensures BoundedRun(isBid, depth, start, events + [e]) == Bounded(isBid, depth, BoundedRun(isBid, depth, start, events), e)
  {
    assert (events + [e])[..|events|] == events;
  }

  lemma ExtendUnbounded(events: seq<Event>, e: Event)
    ensures UnboundedRun(map[], events + [e]) == Unbounded(UnboundedRun(map[], events), e)
  {
    assert (events + [e])[..|events|] == events;
  }

  lemma ApplySides(depth: nat, b: BookState, m: Msg)
    ensures Apply(depth, b, m).0.bids ==
            if m.AffectsBook() && m.side.Bid? then Bounded(true, depth, b.bids, EventOf(m)) else b.bids
    ensures Apply(depth, b, m).0.asks ==
            if m.AffectsBook() && m.side.Ask? then Bounded(false, depth, b.asks, EventOf(m)) else b.asks
  {
    hide Bounded;
  }

  lemma EventsOfAppend(msgs: seq<Msg>, m: Msg, side: Codec.Side)
    ensures SideEvents(msgs + [m], side) ==
            SideEvents(msgs, side) + (if m.AffectsBook() && m.side == side then [EventOf(m)] else [])
  {
    assert (msgs + [m])[..|msgs|] == msgs;
  }

  lemma RunAppend(depth: nat, start: BookState, msgs: seq<Msg>, m: Msg)
    ensures RunFrom(depth, start, msgs + [m]) == Apply(depth, RunFrom(depth, start, msgs), m).0
  {
    assert (msgs + [m])[..|msgs|] == msgs;
  }

  lemma NothingYet(depth: nat, start: BookState)
    ensures RunFrom(depth, start, []) == start && SideEvents([], Bid) == [] && SideEvents([], Ask) == []
    ensures BoundedRun(true, depth, start.bids, []) == start.bids
    ensures BoundedRun(false, depth, start.asks, []) == start.asks
  {
  }

  /** Each side of a book sees only its own records. */
  lemma {:induction false} SidesAreIndependent(depth: nat, start: BookState, msgs: seq<Msg>)
    ensures RunFrom(depth, start, msgs).bids == BoundedRun(true, depth, start.bids, SideEvents(msgs, Bid))
    ensures RunFrom(depth, start, msgs).asks == BoundedRun(false, depth, start.asks, SideEvents(msgs, Ask))
  {
    hide *;
    if msgs == [] {
      NothingYet(depth, start);
    } else {
      var front, m := msgs[..|msgs| - 1], msgs[|msgs| - 1];
      assert msgs == front + [m];
      SidesAreIndependent(depth, start, front);
      RunAppend(depth, start, front, m);
      ApplySides(depth, RunFrom(depth, start, front), m);
      EventsOfAppend(front, m, Bid);
      EventsOfAppend(front, m, Ask);
      ExtendBounded(true, depth, start.bids, SideEvents(front, Bid), EventOf(m));
      ExtendBounded(false, depth, start.asks, SideEvents(front, Ask), EventOf(m));
      assert SideEvents(front, Bid) + [] == SideEvents(front, Bid);
      assert SideEvents(front, Ask) + [] == SideEvents(front, Ask);
    }
  }

  lemma RunReferenceAppend(msgs: seq<Msg>, m: Msg)
    ensures RunReference(msgs + [m]) == ApplyReference(RunReference(msgs), m)
  {
    assert (msgs + [m])[..|msgs|] == msgs;
  }

  lemma NothingInReference(depth: nat)
    ensures RunReference([]) == EmptyReference && Run(depth, []) == EmptyBook
    ensures SideEvents([], Bid) == [] && SideEvents([], Ask) == []
    ensures UnboundedRun(map[], []) == map[]
    ensures EmptyReference.lastSeq == EmptyBook.lastSeq && EmptyReference.bids == EmptyReference.asks == map[]
  {
  }

  /** One record changes the same side and the same sequence number in both books. */
  lemma ApplyReferenceSides(depth: nat, r: Reference, b: BookState, m: Msg)
    requires m.AffectsBook() ==> !m.side.Both?
    requires r.lastSeq == b.lastSeq
    ensures ApplyReference(r, m).bids ==
            if m.AffectsBook() && m.side == Bid then Unbounded(r.bids, EventOf(m)) else r.bids
    ensures ApplyReference(r, m).asks ==
            if m.AffectsBook() && m.side == Ask then Unbounded(r.asks, EventOf(m)) else r.asks
    ensures ApplyReference(r, m).lastSeq == Apply(depth, b, m).0.lastSeq
  {
    hide Unbounded, Bounded;
  }

  lemma RunIsRunFrom(depth: nat, msgs: seq<Msg>)
    ensures Run(depth, msgs) == RunFrom(depth, EmptyBook, msgs)
  {
  }

  lemma OneSidedFront(front: seq<Msg>, m: Msg)
    requires OneSided(front + [m])
    ensures OneSided(front) && (m.AffectsBook() ==> !m.side.Both?)
  {
    assert forall x :: x in front ==> x in front + [m];
    assert m in front + [m];
  }

  /** So does each side of the reference, as long as no record names both. */
  lemma {:induction false} ReferenceSides(depth: nat, msgs: seq<Msg>)
    requires OneSided(msgs)
    ensures RunReference(msgs).bids == UnboundedRun(map[], SideEvents(msgs, Bid))
    ensures RunReference(msgs).asks == UnboundedRun(map[], SideEvents(msgs, Ask))
    ensures RunReference(msgs).lastSeq == Run(depth, msgs).lastSeq
  {
    hide *;
    if msgs == [] {
      NothingInReference(depth);
    } else {
      var front, m := msgs[..|msgs| - 1], msgs[|msgs| - 1];
      assert msgs == front + [m];
      OneSidedFront(front, m);
      ReferenceSides(depth, front);
      RunReferenceAppend(front, m);
      RunIsRunFrom(depth, front);
      RunIsRunFrom(depth, msgs);
      RunAppend(depth, EmptyBook, front, m);
      ApplyReferenceSides(depth, RunReference(front), Run(depth, front), m);
      EventsOfAppend(front, m, Bid);
      EventsOfAppend(front, m, Ask);
      ExtendUnbounded(SideEvents(front, Bid), EventOf(m));
      ExtendUnbounded(SideEvents(front, Ask), EventOf(m));
      assert SideEvents(front, Bid) + [] == SideEvents(front, Bid);
      assert SideEvents(front, Ask) + [] == SideEvents(front, Ask);
    }
  }

  /** For records that name one side, whatever their order: the two books always carry the
      same last sequence number; every bounded level is in the reference with its size;
      a side with no delete since its last reset is the best `depth` prices of the
      reference; and a side that never outgrows `depth` is the reference exactly. */
  lemma MatchesReference(depth: nat, msgs: seq<Msg>)
    requires OneSided(msgs)
    ensures var b, r := Run(depth, msgs), RunReference(msgs);
            var bidEvents, askEvents := SideEvents(msgs, Bid), SideEvents(msgs, Ask);
            && b.lastSeq == r.lastSeq && |b.bids| <= depth && |b.asks| <= depth
            && (forall i, j :: 0 <= i < j < |b.bids| ==> b.bids[i].px > b.bids[j].px)
            && (forall i, j :: 0 <= i < j < |b.asks| ==> b.asks[i].px < b.asks[j].px)
            && Inside(b.bids, r.bids) && Inside(b.asks, r.asks)
            && (NoDeletes(bidEvents) ==> b.bids == Top(true, r.bids, depth))
            && (NoDeletes(askEvents) ==> b.asks == Top(false, r.asks, depth))
            && (NeverOver(depth, bidEvents) ==> b.bids == Top(true, r.bids, |r.bids|))
            && (NeverOver(depth, askEvents) ==> b.asks == Top(false, r.asks, |r.asks|))
  {
    hide BoundedRun, UnboundedRun, RunFrom, RunReference, SideEvents, Top;
    var bidEvents, askEvents := SideEvents(msgs, Bid), SideEvents(msgs, Ask);
    SidesAreIndependent(depth, EmptyBook, msgs);
    ReferenceSides(depth, msgs);
    AlwaysInside(true, depth, bidEvents);
    AlwaysInside(false, depth, askEvents);
    if NoDeletes(bidEvents) { BestOfReference(true, depth, bidEvents); }
    if NoDeletes(askEvents) { BestOfReference(false, depth, askEvents); }
    if NeverOver(depth, bidEvents) { AgreesFully(true, depth, bidEvents); }
    if NeverOver(depth, askEvents) { AgreesFully(false, depth, askEvents); }
  }

  /** A price update that names both sides tells the two implementations apart: one
      refuses it, the other takes it as an ask. */
  lemma BothSidesDiffer(depth: nat, msgs: seq<Msg>, m: Msg)
    requires m.kind.Depth? && m.side.Both? && m.qtyE8 != 0
    ensures Run(depth, msgs + [m]) == Run(depth, msgs)
    ensures RunReference(msgs + [m]).asks == RunReference(msgs).asks[m.pxE8 := m.qtyE8]
  {
    assert (msgs + [m])[..|msgs|] == msgs;
  }

  /** The state machine keeps both sides sorted and within depth, whatever arrives. */
  lemma ApplyKeepsSound(depth: nat, b: BookState, m: Msg)
    requires Sound(depth, b)
    ensures Sound(depth, Apply(depth, b, m).0)
  {
    hide Sorted, Place, Upsert, Erase;
    if m.AffectsBook() && !m.side.Both? {
      var isBid := m.side.Bid?;
      var l := if isBid then b.bids else b.asks;
      SortedEmpty(isBid);
      if m.qtyE8 == 0 {
        EraseSorted(isBid, l, m.pxE8);
      } else {
        UpsertSorted(isBid, depth, l, m.pxE8, m.qtyE8);
      }
    }
  }

  /** What each record does to a book, and what it answers. Only levels of the named side
      change; a price update is refused as an overflow exactly when the side is full of better
      prices. */
  lemma ApplyAnswers(depth: nat, b: BookState, m: Msg)
    requires Sound(depth, b)
    ensures var (t, r) := Apply(depth, b, m);
            var l, l' := if m.side.Bid? then b.bids else b.asks, if m.side.Bid? then t.bids else t.asks;
            var full := |l| == depth && forall x :: x in l ==> if m.side.Bid? then x.px > m.pxE8 else x.px < m.pxE8;
            if m.kind.Heartbeat? || m.kind.Cmd? then t == b && r == Ignored
            else if m.side.Both? then t == b && r == WrongSide
            else
              && t.applied == b.applied + 1
              && (if m.side.Bid? then t.asks == b.asks else t.bids == b.bids)
              && (if m.kind.DepthReset? then l' == [] && t.lastSeq == b.lastSeq && r == Cleared(m.side)
                  else
                    && t.lastSeq == m.seqno
                    && (if m.qtyE8 == 0 then r == Changed(m.side) && forall x :: x in l' <==> x in l && x.px != m.pxE8
                        else if full then r == Overflow(m.side) && l' == l
                        else
                          && r == Changed(m.side)
                          && (if HasPrice(l, m.pxE8) || |l| < depth
                              then forall x :: x in l' <==> x == Level(m.pxE8, m.qtyE8) || (x in l && x.px != m.pxE8)
                              else l != [] && forall x :: x in l' <==> x == Level(m.pxE8, m.qtyE8) || x in l[..|l| - 1])))
  {
    hide Sorted, Place, Upsert, Erase, HasPrice;
    var isBid := m.side.Bid?;
    var l := if isBid then b.bids else b.asks;
    UpsertMembers(isBid, depth, l, m.pxE8, m.qtyE8);
    EraseMembers(isBid, l, m.pxE8);
    RefusedIff(isBid, depth, l, m.pxE8);
  }

  lemma RefusedIff(isBid: bool, depth: nat, l: seq<Level>, p: i64)
    requires Sorted(isBid, l)
    ensures Place(isBid, l, p) == |l| <==> forall x :: x in l ==> Better(isBid, x.px, p)
    ensures Place(isBid, l, p) == |l| ==> !HasPrice(l, p) && (l != [] ==> !Better(isBid, p, l[|l| - 1].px))
    ensures Place(isBid, l, p) < |l| && !HasPrice(l, p) ==> Better(isBid, p, l[|l| - 1].px)
  {
    var at := Place(isBid, l, p);
    if at < |l| {
      assert l[at] in l;
      if !HasPrice(l, p) {
        WorseThanAt(isBid, l, at, p);
      }
    }
  }

  lemma SortedEmpty(isBid: bool)
    ensures Sorted(isBid, [])
  {
  }
}
