/** One side of a book as values: the bounded, sorted list that the flat arrays hold, the
    unbounded price-to-size map of the reference book, and how the two relate over any
    run of updates. */
module Side {
  import opened Arith
  import opened Codec

  datatype Level = Level(px: i64, qty: i64)

  /** What one record does to one side. A zero size deletes the price. */
  datatype Event = Reset | Update(px: i64, qty: i64)

  /** `p` sorts strictly before `q`: higher for bids, lower for asks. */
  predicate Better(isBid: bool, p: i64, q: i64) {
    if isBid then p > q else p < q
  }

  predicate Sorted(isBid: bool, l: seq<Level>) {
    forall i, j :: 0 <= i < j < |l| ==> Better(isBid, l[i].px, l[j].px)
  }

  predicate HasPrice(l: seq<Level>, p: i64) {
    exists i :: 0 <= i < |l| && l[i].px == p
  }

  // ---------------------------------------------------------------------------
  // The bounded side
  // ---------------------------------------------------------------------------

  /** The first index whose price is not strictly better than `p`. */
  function Place(isBid: bool, l: seq<Level>, p: i64): (at: nat)
    ensures at <= |l|
    ensures forall i :: 0 <= i < at ==> Better(isBid, l[i].px, p)
    ensures at < |l| ==> !Better(isBid, l[at].px, p)
  {
    if l == [] || !Better(isBid, l[0].px, p) then 0 else 1 + Place(isBid, l[1..], p)
  }

  predicate Present(isBid: bool, l: seq<Level>, p: i64) {
    Place(isBid, l, p) < |l| && l[Place(isBid, l, p)].px == p
  }

  function Insert(l: seq<Level>, at: nat, level: Level): seq<Level>
    requires at <= |l|
  {
    l[..at] + [level] + l[at..]
  }

  /** Insert or replace, dropping the worst level of a full side. */
  function Upsert(isBid: bool, cap: nat, l: seq<Level>, p: i64, q: i64): seq<Level> {
    var at := Place(isBid, l, p);
    if Present(isBid, l, p) then l[at := Level(p, q)]
    else if |l| < cap then Insert(l, at, Level(p, q))
    else if at >= |l| then l
    else Insert(l[..|l| - 1], at, Level(p, q))
  }

  /** A row taken out of a side. */
  function Without(l: seq<Level>, at: nat): seq<Level>
    requires at < |l|
  {
    l[..at] + l[at + 1..]
  }

  function Erase(isBid: bool, l: seq<Level>, p: i64): seq<Level> {
    var at := Place(isBid, l, p);
    if Present(isBid, l, p) then Without(l, at) else l
  }

  function Bounded(isBid: bool, cap: nat, l: seq<Level>, e: Event): seq<Level> {
    match e
    case Reset => []
    case Update(p, q) => if q == 0 then Erase(isBid, l, p) else Upsert(isBid, cap, l, p, q)
  }

  function BoundedRun(isBid: bool, cap: nat, start: seq<Level>, events: seq<Event>): seq<Level> {
    if events == [] then start
    else Bounded(isBid, cap, BoundedRun(isBid, cap, start, events[..|events| - 1]), events[|events| - 1])
  }

  // ---------------------------------------------------------------------------
  // The unbounded reference
  // ---------------------------------------------------------------------------

  function Unbounded(m: map<i64, i64>, e: Event): map<i64, i64> {
    match e
    case Reset => map[]
    case Update(p, q) => if q == 0 then m - {p} else m[p := q]
  }

  function UnboundedRun(start: map<i64, i64>, events: seq<Event>): map<i64, i64> {
    if events == [] then start
    else Unbounded(UnboundedRun(start, events[..|events| - 1]), events[|events| - 1])
  }

  predicate IsBestPrice(isBid: bool, m: map<i64, i64>, p: i64) {
    p in m && forall q :: q in m && q != p ==> Better(isBid, p, q)
  }

  lemma {:induction false} BestOfKeys(isBid: bool, keys: set<i64>) returns (p: i64)
    requires keys != {}
    ensures p in keys && forall q :: q in keys && q != p ==> Better(isBid, p, q)
  {
    var k :| k in keys;
    p := k;
    if keys - {k} != {} {
      var r := BestOfKeys(isBid, keys - {k});
      p := if Better(isBid, k, r) then k else r;
    }
    assert forall q :: q in keys && q != k ==> q in keys - {k};
  }

  lemma BestExists(isBid: bool, m: map<i64, i64>)
    requires m != map[]
    ensures exists p :: IsBestPrice(isBid, m, p)
  {
    assert m.Keys != {};
    var p := BestOfKeys(isBid, m.Keys);
    assert IsBestPrice(isBid, m, p);
  }

  ghost function BestPrice(isBid: bool, m: map<i64, i64>): (p: i64)
    requires m != map[]
    ensures IsBestPrice(isBid, m, p)
  {
    BestExists(isBid, m);
    var p :| IsBestPrice(isBid, m, p);
    p
  }

  /** The reference book's first `n` rows: walk the map from its best price. */
  ghost function Top(isBid: bool, m: map<i64, i64>, n: nat): seq<Level> {
    if n == 0 || m == map[] then []
    else
      var p := BestPrice(isBid, m);
      [Level(p, m[p])] + Top(isBid, m - {p}, n - 1)
  }

  // ---------------------------------------------------------------------------
  // The best `cap` entries
  // ---------------------------------------------------------------------------

  /** Every level of `l` is in the map with its size. */
  predicate Inside(l: seq<Level>, m: map<i64, i64>) {
    forall i :: 0 <= i < |l| ==> l[i].px in m && m[l[i].px] == l[i].qty
  }

  /** `l` lists the best `cap` entries of `m`: what is missing is worse than all of it, and
      nothing is missing unless it is full. */
  predicate IsBest(isBid: bool, l: seq<Level>, m: map<i64, i64>, cap: nat) {
    && Sorted(isBid, l)
    && Inside(l, m)
    && |l| <= cap
    && forall p :: p in m && !HasPrice(l, p) ==>
         |l| == cap && forall i :: 0 <= i < |l| ==> Better(isBid, l[i].px, p)
  }

  lemma {:induction false} PlaceOf(isBid: bool, l: seq<Level>, i: nat)
    requires Sorted(isBid, l) && i < |l|
    ensures Place(isBid, l, l[i].px) == i
  {
    if i > 0 {
      assert Better(isBid, l[0].px, l[i].px);
      PlaceOf(isBid, l[1..], i - 1);
    }
  }

  /** In a sorted side the scan finds a price exactly when it is there. */
  lemma PresentIffHas(isBid: bool, l: seq<Level>, p: i64)
    requires Sorted(isBid, l)
    ensures Present(isBid, l, p) <==> HasPrice(l, p)
  {
    if HasPrice(l, p) {
      var i :| 0 <= i < |l| && l[i].px == p;
      PlaceOf(isBid, l, i);
    }
  }

  lemma InsertSorted(isBid: bool, l: seq<Level>, at: nat, level: Level)
    requires Sorted(isBid, l) && at <= |l|
    requires forall i :: 0 <= i < at ==> Better(isBid, l[i].px, level.px)
    requires at < |l| ==> Better(isBid, level.px, l[at].px)
    ensures Sorted(isBid, Insert(l, at, level))
  {
    var u := Insert(l, at, level);
    assert forall i :: 0 <= i < |u| ==> u[i] == if i < at then l[i] else if i == at then level else l[i - 1];
    assert forall j :: at < j < |l| ==> Better(isBid, l[at].px, l[j].px);
  }

  lemma UpsertSorted(isBid: bool, cap: nat, l: seq<Level>, p: i64, q: i64)
    requires Sorted(isBid, l) && |l| <= cap
    ensures Sorted(isBid, Upsert(isBid, cap, l, p, q)) && |Upsert(isBid, cap, l, p, q)| <= cap
  {
    hide Place, Insert;
    var at := Place(isBid, l, p);
    if Present(isBid, l, p) {
    } else if |l| < cap {
      InsertSorted(isBid, l, at, Level(p, q));
      InsertLength(l, at, Level(p, q));
    } else if at < |l| {
      InsertSorted(isBid, l[..|l| - 1], at, Level(p, q));
      InsertLength(l[..|l| - 1], at, Level(p, q));
    }
  }

  lemma InsertLength(l: seq<Level>, at: nat, level: Level)
    ensures at <= |l| ==> |Insert(l, at, level)| == |l| + 1
  {
  }

  lemma WithoutSorted(isBid: bool, l: seq<Level>, at: nat)
    requires Sorted(isBid, l) && at < |l|
    ensures Sorted(isBid, Without(l, at)) && !HasPrice(Without(l, at), l[at].px)
  {
    var e := Without(l, at);
    assert forall i :: 0 <= i < |e| ==> e[i] == if i < at then l[i] else l[i + 1];
  }

  lemma WithoutHas(l: seq<Level>, at: nat, x: i64)
    requires at < |l| && x != l[at].px
    ensures HasPrice(Without(l, at), x) <==> HasPrice(l, x)
  {
    var e := Without(l, at);
    if HasPrice(l, x) {
      var i :| 0 <= i < |l| && l[i].px == x;
      assert if i < at then e[i].px == x else e[i - 1].px == x;
    }
  }

  lemma EraseSorted(isBid: bool, l: seq<Level>, p: i64)
    requires Sorted(isBid, l)
    ensures Sorted(isBid, Erase(isBid, l, p)) && |Erase(isBid, l, p)| <= |l|
    ensures !HasPrice(Erase(isBid, l, p), p)
    ensures forall x :: x != p ==> (HasPrice(Erase(isBid, l, p), x) <==> HasPrice(l, x))
  {
    hide Sorted, HasPrice, Better;
    PresentIffHas(isBid, l, p);
    var at := Place(isBid, l, p);
    if Present(isBid, l, p) {
      WithoutSorted(isBid, l, at);
      forall x | x != p
        ensures HasPrice(Without(l, at), x) <==> HasPrice(l, x)
      {
        WithoutHas(l, at, x);
      }
    }
  }

  /** The bounded list of best entries is the reference's first rows. */
  lemma {:induction false} BestIsTop(isBid: bool, l: seq<Level>, m: map<i64, i64>, cap: nat)
    requires IsBest(isBid, l, m, cap)
    ensures l == Top(isBid, m, cap)
  {
    hide IsBest, IsBestPrice;
    if cap > 0 && m != map[] {
      var p := BestPrice(isBid, m);
      FirstIsBest(isBid, l, m, cap);
      RestIsBest(isBid, l, m, cap);
      BestIsTop(isBid, l[1..], m - {p}, cap - 1);
      assert l == [l[0]] + l[1..];
    } else {
      ListsNothing(isBid, l, m, cap);
    }
  }

  lemma ListsNothing(isBid: bool, l: seq<Level>, m: map<i64, i64>, cap: nat)
    requires IsBest(isBid, l, m, cap) && (cap == 0 || m == map[])
    ensures l == []
  {
    if l != [] {
      ListsSomething(l, m);
    }
  }

  lemma ListsSomething(l: seq<Level>, m: map<i64, i64>)
    requires l != [] && Inside(l, m)
    ensures m != map[]
  {
    assert l[0].px in m;
  }

  lemma BestNotEmpty(isBid: bool, l: seq<Level>, m: map<i64, i64>, cap: nat)
    requires IsBest(isBid, l, m, cap) && cap > 0 && m != map[]
    ensures l != []
  {
    var p := BestPrice(isBid, m);
    assert !HasPrice(l, p) ==> |l| == cap;
  }

  lemma FirstIsBest(isBid: bool, l: seq<Level>, m: map<i64, i64>, cap: nat)
    requires IsBest(isBid, l, m, cap) && cap > 0 && m != map[]
    ensures l != [] && l[0] == Level(BestPrice(isBid, m), m[BestPrice(isBid, m)])
  {
    var p := BestPrice(isBid, m);
    BestNotEmpty(isBid, l, m, cap);
    assert l[0].px == p || Better(isBid, p, l[0].px);
    assert HasPrice(l, p);
    var i :| 0 <= i < |l| && l[i].px == p;
    assert i > 0 ==> Better(isBid, l[0].px, l[i].px);
  }

  lemma RestIsBest(isBid: bool, l: seq<Level>, m: map<i64, i64>, cap: nat)
    requires IsBest(isBid, l, m, cap) && l != []
    ensures IsBest(isBid, l[1..], m - {l[0].px}, cap - 1)
  {
    forall p | p in m - {l[0].px} && !HasPrice(l[1..], p)
      ensures !HasPrice(l, p)
    {
      forall i | 0 <= i < |l|
        ensures l[i].px != p
      {
        assert i > 0 ==> l[1..][i - 1].px != p;
      }
    }
  }

  /** The reference's first rows are its best entries, so the two descriptions agree. */
  lemma {:induction false} TopIsBest(isBid: bool, m: map<i64, i64>, cap: nat)
    ensures IsBest(isBid, Top(isBid, m, cap), m, cap)
  {
    if cap > 0 && m != map[] {
      var p := BestPrice(isBid, m);
      TopIsBest(isBid, m - {p}, cap - 1);
      ConsIsBest(isBid, m, p, cap, Top(isBid, m - {p}, cap - 1));
    }
  }

  lemma ConsSorted(isBid: bool, m: map<i64, i64>, p: i64, rest: seq<Level>)
    requires IsBestPrice(isBid, m, p) && Sorted(isBid, rest) && Inside(rest, m - {p})
    ensures Sorted(isBid, [Level(p, m[p])] + rest) && Inside([Level(p, m[p])] + rest, m)
  {
    var l := [Level(p, m[p])] + rest;
    assert forall i :: 0 < i < |l| ==> l[i] == rest[i - 1];
    assert forall i :: 0 <= i < |rest| ==> rest[i].px in m - {p};
  }

  lemma ConsHas(head: Level, rest: seq<Level>, q: i64)
    requires !HasPrice([head] + rest, q)
    ensures head.px != q && !HasPrice(rest, q)
  {
    var l := [head] + rest;
    assert l[0].px != q;
    forall i | 0 <= i < |rest|
      ensures rest[i].px != q
    {
      assert l[i + 1].px != q;
    }
  }

  lemma ConsIsBest(isBid: bool, m: map<i64, i64>, p: i64, cap: nat, rest: seq<Level>)
    requires cap > 0 && IsBestPrice(isBid, m, p) && IsBest(isBid, rest, m - {p}, cap - 1)
    ensures IsBest(isBid, [Level(p, m[p])] + rest, m, cap)
  {
    hide Sorted, Inside, HasPrice;
    var l := [Level(p, m[p])] + rest;
    ConsSorted(isBid, m, p, rest);
    forall q | q in m && !HasPrice(l, q)
      ensures |l| == cap && forall i :: 0 <= i < |l| ==> Better(isBid, l[i].px, q)
    {
      ConsHas(Level(p, m[p]), rest, q);
      assert q in m - {p};
    }
  }

  // ---------------------------------------------------------------------------
  // One update
  // ---------------------------------------------------------------------------

  lemma InsertHas(l: seq<Level>, at: nat, level: Level, x: i64)
    requires at <= |l| && HasPrice(l, x)
    ensures HasPrice(Insert(l, at, level), x)
  {
    var i :| 0 <= i < |l| && l[i].px == x;
    var u := Insert(l, at, level);
    assert if i < at then u[i] == l[i] else u[i + 1] == l[i];
  }

  lemma UpsertHas(isBid: bool, cap: nat, l: seq<Level>, p: i64, q: i64, x: i64)
    requires Sorted(isBid, l) && HasPrice(l, x) && x != p
    requires |l| < cap || Present(isBid, l, p) || x != l[|l| - 1].px
    ensures HasPrice(Upsert(isBid, cap, l, p, q), x)
  {
    hide Place, Insert, Sorted;
    var i :| 0 <= i < |l| && l[i].px == x;
    var u, at := Upsert(isBid, cap, l, p, q), Place(isBid, l, p);
    if Present(isBid, l, p) {
      assert u[i].px == x;
    } else if |l| < cap {
      InsertHas(l, at, Level(p, q), x);
    } else if at < |l| {
      assert l[..|l| - 1][i].px == x;
      InsertHas(l[..|l| - 1], at, Level(p, q), x);
    }
  }

  lemma GetsIn(isBid: bool, cap: nat, l: seq<Level>, p: i64, q: i64)
    requires Present(isBid, l, p) || |l| < cap || Place(isBid, l, p) < |l|
    ensures HasPrice(Upsert(isBid, cap, l, p, q), p)
  {
    assert Upsert(isBid, cap, l, p, q)[Place(isBid, l, p)].px == p;
  }

  /** An upsert loses a price only to a full side of better ones. */
  lemma Loses(isBid: bool, cap: nat, l: seq<Level>, p: i64, q: i64, x: i64)
    requires Sorted(isBid, l) && |l| <= cap && (x == p || HasPrice(l, x))
    requires !HasPrice(Upsert(isBid, cap, l, p, q), x)
    ensures var u := Upsert(isBid, cap, l, p, q);
            |u| == cap && forall i :: 0 <= i < |u| ==> Better(isBid, u[i].px, x)
  {
    hide Insert;
    PresentIffHas(isBid, l, p);
    if x == p {
      if Present(isBid, l, p) || |l| < cap || Place(isBid, l, p) < |l| {
        GetsIn(isBid, cap, l, p, q);
      }
    } else if |l| < cap || Present(isBid, l, p) || x != l[|l| - 1].px {
      UpsertHas(isBid, cap, l, p, q, x);
    } else {
      LosesLast(isBid, cap, l, p, q);
    }
  }

  lemma LosesLast(isBid: bool, cap: nat, l: seq<Level>, p: i64, q: i64)
    requires Sorted(isBid, l) && |l| == cap > 0 && Place(isBid, l, p) < |l| && !Present(isBid, l, p)
    ensures var u := Upsert(isBid, cap, l, p, q);
            |u| == cap && forall i :: 0 <= i < |u| ==> Better(isBid, u[i].px, l[|l| - 1].px)
  {
    var front, last := l[..|l| - 1], l[|l| - 1].px;
    assert forall i :: 0 <= i < |front| ==> Better(isBid, front[i].px, last);
    assert Better(isBid, p, last);
    InsertAbove(isBid, front, Place(isBid, l, p), Level(p, q), last);
  }

  lemma InsertAbove(isBid: bool, l: seq<Level>, at: nat, level: Level, x: i64)
    requires at <= |l| && Better(isBid, level.px, x) && forall i :: 0 <= i < |l| ==> Better(isBid, l[i].px, x)
    ensures |Insert(l, at, level)| == |l| + 1
    ensures forall i :: 0 <= i < |l| + 1 ==> Better(isBid, Insert(l, at, level)[i].px, x)
  {
  }

  /** A full side of prices better than `x` stays one. */
  lemma StaysAbove(isBid: bool, cap: nat, l: seq<Level>, p: i64, q: i64, x: i64)
    requires |l| == cap && forall i :: 0 <= i < |l| ==> Better(isBid, l[i].px, x)
    ensures var u := Upsert(isBid, cap, l, p, q);
            |u| == cap && forall i :: 0 <= i < |u| ==> Better(isBid, u[i].px, x)
  {
    var u, at := Upsert(isBid, cap, l, p, q), Place(isBid, l, p);
    if !Present(isBid, l, p) && at < |l| {
      assert Better(isBid, p, l[at].px);
      assert forall i :: 0 <= i < |u| ==> u[i].px == if i < at then l[i].px else if i == at then p else l[i - 1].px;
    }
  }

  /** An insert or replace keeps the bounded side the best of the map. */
  lemma UpsertKeepsBest(isBid: bool, cap: nat, l: seq<Level>, m: map<i64, i64>, p: i64, q: i64)
    requires IsBest(isBid, l, m, cap)
    ensures IsBest(isBid, Upsert(isBid, cap, l, p, q), m[p := q], cap)
  {
    hide Upsert, Sorted, Better;
    var u, m' := Upsert(isBid, cap, l, p, q), m[p := q];
    UpsertSorted(isBid, cap, l, p, q);
    UpsertInside(isBid, cap, l, m, p, q);
    forall x | x in m' && !HasPrice(u, x)
      ensures |u| == cap && forall i :: 0 <= i < |u| ==> Better(isBid, u[i].px, x)
    {
      if x == p || HasPrice(l, x) {
        Loses(isBid, cap, l, p, q, x);
      } else {
        StaysAbove(isBid, cap, l, p, q, x);
      }
    }
  }

  lemma UpsertInside(isBid: bool, cap: nat, l: seq<Level>, m: map<i64, i64>, p: i64, q: i64)
    requires Sorted(isBid, l) && Inside(l, m)
    ensures Inside(Upsert(isBid, cap, l, p, q), m[p := q])
  {
    PresentIffHas(isBid, l, p);
    var at := Place(isBid, l, p);
    if Present(isBid, l, p) {
      assert forall i :: 0 <= i < |l| && i != at ==> l[i].px != p;
    }
  }

  /** A delete keeps the bounded side the best of the map exactly when the price was not
      listed or the map had no more entries than the side holds: an evicted level never
      comes back. */
  lemma EraseKeepsBestIff(isBid: bool, cap: nat, l: seq<Level>, m: map<i64, i64>, p: i64)
    requires IsBest(isBid, l, m, cap)
    ensures IsBest(isBid, Erase(isBid, l, p), m - {p}, cap) <==> !HasPrice(l, p) || |m| <= cap
  {
    hide Place, Erase, Sorted, Present;
    var e := Erase(isBid, l, p);
    EraseSorted(isBid, l, p);
    EraseInside(isBid, l, m, p);
    ListedAll(isBid, l, m, cap);
    if HasPrice(l, p) {
      EraseShrinks(isBid, l, p);
      if |m| > cap {
        var x :| x in m && !HasPrice(l, x);
        assert x in m - {p} && !HasPrice(e, x);
      } else {
        assert forall x :: x in m - {p} ==> HasPrice(e, x);
      }
    } else {
      assert m - {p} == m || p in m;
      EraseAbsent(isBid, l, p);
    }
  }

  lemma EraseShrinks(isBid: bool, l: seq<Level>, p: i64)
    requires Sorted(isBid, l) && HasPrice(l, p)
    ensures |Erase(isBid, l, p)| == |l| - 1
  {
    PresentIffHas(isBid, l, p);
  }

  lemma EraseAbsent(isBid: bool, l: seq<Level>, p: i64)
    requires Sorted(isBid, l) && !HasPrice(l, p)
    ensures Erase(isBid, l, p) == l
  {
    PresentIffHas(isBid, l, p);
  }

  /** The side lists the whole map exactly when the map fits it. */
  lemma ListedAll(isBid: bool, l: seq<Level>, m: map<i64, i64>, cap: nat)
    requires IsBest(isBid, l, m, cap)
    ensures |m| <= cap <==> forall x :: x in m ==> HasPrice(l, x)
  {
    PricesDistinct(isBid, l);
    var prices := set i | 0 <= i < |l| :: l[i].px;
    assert prices <= m.Keys;
    assert forall x :: HasPrice(l, x) <==> x in prices;
    if forall x :: x in m ==> HasPrice(l, x) {
      forall x | x in m
        ensures x in prices
      {
        assert HasPrice(l, x);
      }
      assert prices == m.Keys;
    } else {
      var x :| x in m && !HasPrice(l, x);
      assert x in m.Keys - prices;
      SmallerSet(prices, m.Keys);
    }
  }

  lemma {:induction false} PricesDistinct(isBid: bool, l: seq<Level>)
    requires Sorted(isBid, l)
    ensures |set i | 0 <= i < |l| :: l[i].px| == |l|
  {
    if l != [] {
      var front := l[..|l| - 1];
      PricesDistinct(isBid, front);
      var a, b := set i | 0 <= i < |l| :: l[i].px, set i | 0 <= i < |front| :: front[i].px;
      assert forall i :: 0 <= i < |front| ==> front[i].px == l[i].px;
      assert a == b + {l[|l| - 1].px};
    }
  }

  lemma SmallerSet(a: set<i64>, b: set<i64>)
    requires a < b
    ensures |a| < |b|
  {
    assert b == a + (b - a);
    assert b - a != {};
  }

  /** Which levels an insert or replace leaves. A full side takes a new price only if it is
      better than its worst one, which then goes. */
  lemma UpsertMembers(isBid: bool, cap: nat, l: seq<Level>, p: i64, q: i64)
    requires Sorted(isBid, l) && |l| <= cap
    ensures var u := Upsert(isBid, cap, l, p, q);
            if HasPrice(l, p) || |l| < cap then forall x :: x in u <==> x == Level(p, q) || (x in l && x.px != p)
            else if l != [] && Better(isBid, p, l[|l| - 1].px) then forall x :: x in u <==> x == Level(p, q) || x in l[..|l| - 1]
            else u == l
  {
    hide Sorted;
    PresentIffHas(isBid, l, p);
    var at := Place(isBid, l, p);
    if Present(isBid, l, p) {
      ReplaceMembers(isBid, l, at, q);
    } else if |l| < cap {
      InsertMembers(l, at, Level(p, q));
      NotListed(l, p);
    } else if at < |l| {
      InsertMembers(l[..|l| - 1], at, Level(p, q));
      WorseThanAt(isBid, l, at, p);
    }
  }

  lemma InsertMembers(l: seq<Level>, at: nat, level: Level)
    requires at <= |l|
    ensures forall x :: x in Insert(l, at, level) <==> x == level || x in l
  {
    assert l == l[..at] + l[at..];
  }

  lemma NotListed(l: seq<Level>, p: i64)
    requires !HasPrice(l, p)
    ensures forall x :: x in l ==> x.px != p
  {
  }

  lemma WorseThanAt(isBid: bool, l: seq<Level>, at: nat, p: i64)
    requires Sorted(isBid, l) && at < |l| && Better(isBid, p, l[at].px)
    ensures Better(isBid, p, l[|l| - 1].px)
  {
    assert at < |l| - 1 ==> Better(isBid, l[at].px, l[|l| - 1].px);
  }

  lemma ReplaceMembers(isBid: bool, l: seq<Level>, at: nat, q: i64)
    requires Sorted(isBid, l) && at < |l|
    ensures forall x :: x in l[at := Level(l[at].px, q)] <==> x == Level(l[at].px, q) || (x in l && x.px != l[at].px)
  {
    var u := l[at := Level(l[at].px, q)];
    assert u[at] == Level(l[at].px, q);
    assert forall i :: 0 <= i < |l| && i != at ==> u[i] == l[i] && l[i].px != l[at].px;
  }

  /** Which levels a delete leaves. */
  lemma EraseMembers(isBid: bool, l: seq<Level>, p: i64)
    requires Sorted(isBid, l)
    ensures forall x :: x in Erase(isBid, l, p) <==> x in l && x.px != p
  {
    hide Sorted;
    PresentIffHas(isBid, l, p);
    if Present(isBid, l, p) {
      WithoutMembers(isBid, l, Place(isBid, l, p));
    } else {
      NotListed(l, p);
    }
  }

  lemma WithoutMembers(isBid: bool, l: seq<Level>, at: nat)
    requires Sorted(isBid, l) && at < |l|
    ensures forall x :: x in Without(l, at) <==> x in l && x.px != l[at].px
  {
    var e := Without(l, at);
    assert forall i :: 0 <= i < |e| ==> e[i] == if i < at then l[i] else l[i + 1];
    assert forall i :: 0 <= i < |l| && i != at ==> l[i].px != l[at].px && l[i] == e[if i < at then i else i - 1];
  }

  // ---------------------------------------------------------------------------
  // Runs
  // ---------------------------------------------------------------------------

  /** The updates since the last reset delete nothing. */
  predicate NoDeletes(events: seq<Event>) {
    events == [] || events[|events| - 1].Reset?
    || (events[|events| - 1].qty != 0 && NoDeletes(events[..|events| - 1]))
  }

  /** With no delete since the last reset the bounded side is the best `cap` prices of the
      unbounded book, however many evictions happened. */
  lemma {:induction false} BestOfReference(isBid: bool, cap: nat, events: seq<Event>)
    requires NoDeletes(events)
    ensures IsBest(isBid, BoundedRun(isBid, cap, [], events), UnboundedRun(map[], events), cap)
    ensures BoundedRun(isBid, cap, [], events) == Top(isBid, UnboundedRun(map[], events), cap)
  {
    if events != [] && !events[|events| - 1].Reset? {
      var front, last := events[..|events| - 1], events[|events| - 1];
      BestOfReference(isBid, cap, front);
      UpsertKeepsBest(isBid, cap, BoundedRun(isBid, cap, [], front), UnboundedRun(map[], front), last.px, last.qty);
    }
    BestIsTop(isBid, BoundedRun(isBid, cap, [], events), UnboundedRun(map[], events), cap);
  }

  /** Over every run, deletes included, each bounded level is in the unbounded book with
      the same size, in order. */
  lemma {:induction false} AlwaysInside(isBid: bool, cap: nat, events: seq<Event>)
    ensures var l := BoundedRun(isBid, cap, [], events);
            Sorted(isBid, l) && |l| <= cap && Inside(l, UnboundedRun(map[], events))
  {
    if events != [] && events[|events| - 1].Update? {
      var front, last := events[..|events| - 1], events[|events| - 1];
      var l, m := BoundedRun(isBid, cap, [], front), UnboundedRun(map[], front);
      AlwaysInside(isBid, cap, front);
      if last.qty == 0 {
        EraseSorted(isBid, l, last.px);
        EraseInside(isBid, l, m, last.px);
      } else {
        UpsertSorted(isBid, cap, l, last.px, last.qty);
        UpsertInside(isBid, cap, l, m, last.px, last.qty);
      }
    }
  }

  lemma EraseInside(isBid: bool, l: seq<Level>, m: map<i64, i64>, p: i64)
    requires Sorted(isBid, l) && Inside(l, m)
    ensures Inside(Erase(isBid, l, p), m - {p})
  {
    PresentIffHas(isBid, l, p);
    var e, at := Erase(isBid, l, p), Place(isBid, l, p);
    assert forall i :: 0 <= i < |e| ==> e[i] == (if Present(isBid, l, p) && i >= at then l[i + 1] else l[i]);
    EraseSorted(isBid, l, p);
    assert forall i :: 0 <= i < |e| ==> HasPrice(e, e[i].px);
  }

  /** At no moment since the last reset did the unbounded book hold more than `cap`. */
  predicate NeverOver(cap: nat, events: seq<Event>) {
    |UnboundedRun(map[], events)| <= cap
    && (events == [] || events[|events| - 1].Reset? || NeverOver(cap, events[..|events| - 1]))
  }

  /** While the side never has more live prices than it holds, the two books agree on
      every price, deletes included. */
  lemma {:induction false} AgreesFully(isBid: bool, cap: nat, events: seq<Event>)
    requires NeverOver(cap, events)
    ensures var l, m := BoundedRun(isBid, cap, [], events), UnboundedRun(map[], events);
            IsBest(isBid, l, m, cap) && (forall p :: p in m <==> HasPrice(l, p)) && l == Top(isBid, m, |m|)
  {
    var l, m := BoundedRun(isBid, cap, [], events), UnboundedRun(map[], events);
    if events != [] && !events[|events| - 1].Reset? {
      var front, last := events[..|events| - 1], events[|events| - 1];
      AgreesFully(isBid, cap, front);
      if last.qty == 0 {
        EraseKeepsBestIff(isBid, cap, BoundedRun(isBid, cap, [], front), UnboundedRun(map[], front), last.px);
      } else {
        UpsertKeepsBest(isBid, cap, BoundedRun(isBid, cap, [], front), UnboundedRun(map[], front), last.px, last.qty);
      }
    }
    ListedAll(isBid, l, m, cap);
    assert forall p :: HasPrice(l, p) ==> p in m;
    SameLength(isBid, l, m);
    BestIsTop(isBid, l, m, |m|);
  }

  lemma SameLength(isBid: bool, l: seq<Level>, m: map<i64, i64>)
    requires Sorted(isBid, l) && forall p :: p in m <==> HasPrice(l, p)
    ensures |l| == |m|
  {
    PricesDistinct(isBid, l);
    var prices := set i | 0 <= i < |l| :: l[i].px;
    forall p | p in m
      ensures p in prices
    {
      var i :| 0 <= i < |l| && l[i].px == p;
    }
    forall p | p in prices
      ensures p in m
    {
      assert HasPrice(l, p);
    }
    assert prices == m.Keys;
  }

  // ---------------------------------------------------------------------------
  // Runs with deletes
  // ---------------------------------------------------------------------------

  /** Every price named since the last reset with its last size, zero if it was deleted. */
  function Latest(events: seq<Event>): map<i64, i64> {
    if events == [] then map[]
    else
      match events[|events| - 1]
      case Reset => map[]
      case Update(p, q) => Latest(events[..|events| - 1])[p := q]
  }

  function Live(m: map<i64, i64>): map<i64, i64> {
    map p | p in m && m[p] != 0 :: m[p]
  }

  lemma {:induction false} UnboundedIsLive(events: seq<Event>)
    ensures UnboundedRun(map[], events) == Live(Latest(events))
  {
    if events != [] {
      UnboundedIsLive(events[..|events| - 1]);
    }
  }

  function Above(isBid: bool, m: map<i64, i64>, p: i64): set<i64> {
    set q | q in m && Better(isBid, q, p)
  }

  predicate AllSized(l: seq<Level>) {
    forall i :: 0 <= i < |l| ==> l[i].qty != 0
  }

  /** `l` lists only live entries of `m`, and every live one with fewer than `cap` prices
      above it, live or not. */
  predicate ShowsBest(isBid: bool, l: seq<Level>, m: map<i64, i64>, cap: nat) {
    && Sorted(isBid, l) && |l| <= cap && Inside(l, m)
    && AllSized(l)
    && forall p :: p in m && m[p] != 0 && |Above(isBid, m, p)| < cap ==> HasPrice(l, p)
  }

  lemma SubsetSize(a: set<i64>, b: set<i64>)
    requires a <= b
    ensures |a| <= |b|
  {
    if a != b {
      SmallerSet(a, b);
    }
  }

  lemma AboveGrows(isBid: bool, m: map<i64, i64>, p: i64, q: i64, x: i64)
    ensures |Above(isBid, m, x)| <= |Above(isBid, m[p := q], x)|
  {
    SubsetSize(Above(isBid, m, x), Above(isBid, m[p := q], x));
  }

  /** A side all better than a price has its own size above the price. */
  lemma CrowdedOut(isBid: bool, l: seq<Level>, m: map<i64, i64>, p: i64)
    requires Sorted(isBid, l) && Inside(l, m) && forall i :: 0 <= i < |l| ==> Better(isBid, l[i].px, p)
    ensures |Above(isBid, m, p)| >= |l|
  {
    PricesDistinct(isBid, l);
    SubsetSize(set i | 0 <= i < |l| :: l[i].px, Above(isBid, m, p));
  }

  lemma UpsertShowsBest(isBid: bool, cap: nat, l: seq<Level>, m: map<i64, i64>, p: i64, q: i64)
    requires ShowsBest(isBid, l, m, cap) && q != 0
    ensures ShowsBest(isBid, Upsert(isBid, cap, l, p, q), m[p := q], cap)
  {
    hide Upsert, Above, Sorted, Better;
    var u, m' := Upsert(isBid, cap, l, p, q), m[p := q];
    UpsertSorted(isBid, cap, l, p, q);
    UpsertInside(isBid, cap, l, m, p, q);
    forall x | x in m' && m'[x] != 0 && |Above(isBid, m', x)| < cap
      ensures HasPrice(u, x)
    {
      AboveGrows(isBid, m, p, q, x);
      if !HasPrice(u, x) {
        Loses(isBid, cap, l, p, q, x);
        CrowdedOut(isBid, u, m', x);
      }
    }
    UpsertLive(isBid, cap, l, p, q);
  }

  lemma UpsertLive(isBid: bool, cap: nat, l: seq<Level>, p: i64, q: i64)
    requires q != 0 && AllSized(l)
    ensures AllSized(Upsert(isBid, cap, l, p, q))
  {
  }

  lemma EraseLive(isBid: bool, l: seq<Level>, p: i64)
    requires AllSized(l)
    ensures AllSized(Erase(isBid, l, p))
  {
  }

  lemma EraseShowsBest(isBid: bool, cap: nat, l: seq<Level>, m: map<i64, i64>, p: i64)
    requires ShowsBest(isBid, l, m, cap)
    ensures ShowsBest(isBid, Erase(isBid, l, p), m[p := 0], cap)
  {
    hide Erase, Above, Sorted, Better;
    var e := Erase(isBid, l, p);
    EraseSorted(isBid, l, p);
    EraseInside(isBid, l, m, p);
    EraseLive(isBid, l, p);
    forall x | x in m && |Above(isBid, m[p := 0], x)| < cap
      ensures |Above(isBid, m, x)| < cap
    {
      AboveGrows(isBid, m, p, 0, x);
    }
    assert forall i :: 0 <= i < |e| ==> HasPrice(e, e[i].px);
  }

  /** Over every run, deletes included, a side shows only live prices, and every live one with
      fewer than `cap` prices named above it since the last reset. */
  lemma {:induction false} AlwaysShowsBest(isBid: bool, cap: nat, events: seq<Event>)
    ensures ShowsBest(isBid, BoundedRun(isBid, cap, [], events), Latest(events), cap)
  {
    hide ShowsBest, Erase, Upsert;
    if events == [] || events[|events| - 1].Reset? {
      NothingShown(isBid, cap);
    } else {
      var front, last := events[..|events| - 1], events[|events| - 1];
      AlwaysShowsBest(isBid, cap, front);
      if last.qty == 0 {
        EraseShowsBest(isBid, cap, BoundedRun(isBid, cap, [], front), Latest(front), last.px);
      } else {
        UpsertShowsBest(isBid, cap, BoundedRun(isBid, cap, [], front), Latest(front), last.px, last.qty);
      }
    }
  }

  lemma NothingShown(isBid: bool, cap: nat)
    ensures ShowsBest(isBid, [], map[], cap)
  {
  }

  /** Only the rows before it are above a row of the best. */
  lemma AboveRow(isBid: bool, t: seq<Level>, m: map<i64, i64>, cap: nat, i: nat)
    requires IsBest(isBid, t, m, cap) && i < |t|
    ensures |Above(isBid, m, t[i].px)| <= i
  {
    var front := t[..i];
    PricesDistinct(isBid, front);
    forall q | q in Above(isBid, m, t[i].px)
      ensures HasPrice(front, q)
    {
      assert HasPrice(t, q);
      var j :| 0 <= j < |t| && t[j].px == q;
      assert j > i ==> Better(isBid, t[i].px, t[j].px);
      assert front[j].px == q;
    }
    SubsetSize(Above(isBid, m, t[i].px), set j | 0 <= j < |front| :: front[j].px);
  }

  /** A side that shows every row of the best is the best. */
  lemma ShowsAll(isBid: bool, l: seq<Level>, t: seq<Level>, m: map<i64, i64>, cap: nat)
    requires IsBest(isBid, t, m, cap) && Sorted(isBid, l) && |l| <= cap && Inside(l, m)
    requires forall i :: 0 <= i < |t| ==> HasPrice(l, t[i].px)
    ensures IsBest(isBid, l, m, cap)
  {
    PricesDistinct(isBid, l);
    PricesDistinct(isBid, t);
    var a, b := set i | 0 <= i < |t| :: t[i].px, set i | 0 <= i < |l| :: l[i].px;
    forall p | p in a
      ensures p in b
    {
      assert HasPrice(l, p);
    }
    SubsetSize(a, b);
    forall p | p in m && !HasPrice(l, p)
      ensures |l| == cap && forall i :: 0 <= i < |l| ==> Better(isBid, l[i].px, p)
    {
      assert !HasPrice(t, p);
      if a != b {
        SmallerSet(a, b);
      }
      forall i | 0 <= i < |l|
        ensures Better(isBid, l[i].px, p)
      {
        assert l[i].px in a;
      }
    }
  }

  /** Over every run the side is the best `cap` of the prices named since the last reset, at
      their last sizes, if and only if none of those best ones was last deleted. */
  lemma ShowsBestIff(isBid: bool, cap: nat, events: seq<Event>)
    ensures var l, t := BoundedRun(isBid, cap, [], events), Top(isBid, Latest(events), cap);
            l == t <==> AllSized(t)
  {
    hide BoundedRun, Latest, Top, IsBest, Above;
    var l, m := BoundedRun(isBid, cap, [], events), Latest(events);
    var t := Top(isBid, m, cap);
    AlwaysShowsBest(isBid, cap, events);
    TopIsBest(isBid, m, cap);
    BestInside(isBid, t, m, cap);
    if AllSized(t) {
      forall i | 0 <= i < |t|
        ensures HasPrice(l, t[i].px)
      {
        AboveRow(isBid, t, m, cap, i);
      }
      ShowsAll(isBid, l, t, m, cap);
      BestIsTop(isBid, l, m, cap);
    }
  }

  lemma BestInside(isBid: bool, t: seq<Level>, m: map<i64, i64>, cap: nat)
    requires IsBest(isBid, t, m, cap)
    ensures |t| <= cap && forall i :: 0 <= i < |t| ==> t[i].px in m && m[t[i].px] == t[i].qty
  {
  }

  /** A side's contents depend only on what arrived since its last reset: whatever was
      there before, it heals. */
  lemma {:induction false} ResetHeals(isBid: bool, cap: nat, before: seq<Level>, prior: seq<Event>, later: seq<Event>)
    ensures BoundedRun(isBid, cap, before, prior + [Reset] + later) == BoundedRun(isBid, cap, [], later)
  {
    hide Upsert, Erase;
    var all := prior + [Reset] + later;
    if later == [] {
      assert all[|all| - 1] == Reset;
    } else {
      assert all[..|all| - 1] == prior + [Reset] + later[..|later| - 1];
      ResetHeals(isBid, cap, before, prior, later[..|later| - 1]);
    }
  }
}
