/** Wire symbols become dense ids: an open-addressing table with linear probing that
    refines an injective numbering. The hash is any function of the symbol. */
module Symbols {
  import opened Arith
  import opened Codec

  const CEILING: nat := 1048576

  datatype Interned = Id(id: nat) | Full(capacity: nat)

  // ---------------------------------------------------------------------------
  // The numbering the table stands for
  // ---------------------------------------------------------------------------

  /** The symbols in the order of their ids, and how many may be issued before growing. */
  datatype Numbering = Numbering(symbols: seq<Symbol>, capacity: nat)

  ghost predicate Injective(symbols: seq<Symbol>) {
    forall i, j :: 0 <= i < j < |symbols| ==> symbols[i] != symbols[j]
  }

  /** The first position of `s`, the only one when the numbering is injective. */
  function Find(symbols: seq<Symbol>, s: Symbol): (id: Option<nat>)
    ensures id.Some? ==> id.value < |symbols| && symbols[id.value] == s
    ensures id.None? <==> s !in symbols
  {
    if symbols == [] then None
    else if symbols[0] == s then Some(0)
    else match Find(symbols[1..], s) case Some(i) => Some(i + 1) case None => None
  }

  lemma {:induction false} FindUnique(symbols: seq<Symbol>, s: Symbol, i: nat)
    requires Injective(symbols) && i < |symbols| && symbols[i] == s
    ensures Find(symbols, s) == Some(i)
  {
    if i > 0 {
      assert symbols[0] != symbols[i];
      assert symbols[1..][i - 1] == s;
      FindUnique(symbols[1..], s, i - 1);
    }
  }

  function Issue(n: Numbering, s: Symbol): (Numbering, Interned) {
    match Find(n.symbols, s)
    case Some(i) => (n, Id(i))
    case None =>
      if |n.symbols| < n.capacity then (n.(symbols := n.symbols + [s]), Id(|n.symbols|))
      else if n.capacity >= CEILING then (n, Full(n.capacity))
      else (Numbering(n.symbols + [s], n.capacity * 2), Id(|n.symbols|))
  }

  function NewNumbering(capacity: nat): Numbering {
    Numbering([], Max(capacity, 1))
  }

  function IssueAll(n: Numbering, wanted: seq<Symbol>): Numbering {
    if wanted == [] then n
    else Issue(IssueAll(n, wanted[..|wanted| - 1]), wanted[|wanted| - 1]).0
  }

  ghost predicate Sound(n: Numbering) {
    Injective(n.symbols) && |n.symbols| <= n.capacity && n.capacity > 0
  }

  type SoundNumbering = n: Numbering | Sound(n) ghost witness Numbering([], 1)

  lemma IssueIsSound(n: SoundNumbering, s: Symbol)
    ensures Sound(Issue(n, s).0)
    ensures n.symbols <= Issue(n, s).0.symbols
  {
  }

  /** Over any run of interning, ids are dense, distinct symbols have distinct ids, and an
      id once issued keeps its symbol through every later call, growth included. */
  lemma {:induction false} RunIsStable(n: SoundNumbering, wanted: seq<Symbol>)
    ensures Sound(IssueAll(n, wanted))
    ensures n.symbols <= IssueAll(n, wanted).symbols
    ensures forall i :: 0 <= i < |n.symbols| ==>
              Find(IssueAll(n, wanted).symbols, n.symbols[i]) == Some(i)
  {
    if wanted != [] {
      var front := wanted[..|wanted| - 1];
      RunIsStable(n, front);
      IssueIsSound(IssueAll(n, front), wanted[|wanted| - 1]);
    }
    forall i | 0 <= i < |n.symbols|
      ensures Find(IssueAll(n, wanted).symbols, n.symbols[i]) == Some(i)
    {
      FindUnique(IssueAll(n, wanted).symbols, n.symbols[i], i);
    }
  }

  /** Interning answers the id it will answer for ever after; it refuses exactly a new
      symbol that finds the table full at the ceiling, and then changes nothing. */
  lemma IssueAnswers(n: SoundNumbering, s: Symbol, later: seq<Symbol>)
    ensures var (n', r) := Issue(n, s);
            && (r.Full? <==> s !in n.symbols && |n.symbols| == n.capacity && n.capacity >= CEILING)
            && (r.Full? ==> n' == n)
            && (r.Id? ==> Find(IssueAll(n', later).symbols, s) == Some(r.id))
            && (s in n.symbols ==> n' == n && r.Id?)
            && (r.Id? && s !in n.symbols ==>
                  && r.id == |n.symbols| && n'.symbols == n.symbols + [s]
                  && n'.capacity == (if |n.symbols| < n.capacity then n.capacity else 2 * n.capacity))
  {
    var (n', r) := Issue(n, s);
    IssueIsSound(n, s);
    RunIsStable(n', later);
  }

  // ---------------------------------------------------------------------------
  // The table
  // ---------------------------------------------------------------------------

  /** `b` is met when walking upwards and round from `from`, before `to`. */
  predicate Between(from: nat, b: nat, to: nat) {
    if from <= to then from <= b < to else from <= b || b < to
  }

  function Distance(from: nat, to: nat, n: nat): nat
    requires from < n && to < n
  {
    if from <= to then to - from else to + n - from
  }

  function Home(hash: Symbol -> nat, s: Symbol, n: nat): (b: nat)
    requires n > 0
    ensures b < n
  {
    hash(s) % n
  }

  /** No empty bucket from `from` round to just before `to`. */
  ghost predicate Reachable(index: seq<nat>, from: nat, to: nat) {
    forall b :: 0 <= b < |index| && Between(from, b, to) ==> index[b] != 0
  }

  /** The first `n` ids, and nothing else, are in the index, id `i` in bucket `at[i]`, each
      reachable from its symbol's home bucket without crossing an empty one. */
  ghost predicate Placed(hash: Symbol -> nat, slots: seq<Symbol>, index: seq<nat>, at: seq<nat>, n: nat) {
    && n == |at| <= |slots|
    && |index| > 0
    && (forall i :: 0 <= i < n ==> at[i] < |index| && index[at[i]] == i + 1)
    && (forall b :: 0 <= b < |index| && index[b] != 0 ==> index[b] <= n && at[index[b] - 1] == b)
    && (forall i :: 0 <= i < n ==> Reachable(index, Home(hash, slots[i], |index|), at[i]))
  }

  /** One step of a probe that has not met the empty bucket. */
  lemma NextBucket(home: nat, bucket: nat, empty: nat, n: nat)
    requires home < n && bucket < n && empty < n && bucket != empty
    ensures (bucket + 1) % n < n
    ensures Distance((bucket + 1) % n, empty, n) == Distance(bucket, empty, n) - 1
    ensures forall b :: 0 <= b < n && Between(home, b, (bucket + 1) % n) ==> Between(home, b, bucket) || b == bucket
  {
    if bucket + 1 == n {
      assert (bucket + 1) % n == 0;
    } else {
      assert (bucket + 1) % n == bucket + 1;
    }
  }

  lemma NoneBetween(home: nat)
    ensures forall b: nat :: !Between(home, b, home)
  {
  }

  function Without(s: seq<nat>, x: nat): (r: seq<nat>)
    ensures |r| <= |s| && (x in s ==> |r| < |s|)
    ensures forall y :: y in r <==> y in s && y != x
  {
    if s == [] then [] else (if s[0] == x then [] else [s[0]]) + Without(s[1..], x)
  }

  /** A list of fewer than `n` numbers misses one below `n`. */
  lemma {:induction false} Pigeonhole(taken: seq<nat>, n: nat) returns (free: nat)
    requires |taken| < n
    ensures free < n && free !in taken
    decreases n
  {
    if n - 1 !in taken {
      free := n - 1;
    } else {
      free := Pigeonhole(Without(taken, n - 1), n - 1);
    }
  }

  /** With fewer ids than buckets some bucket is empty, so probing stops. */
  lemma SomeBucketEmpty(hash: Symbol -> nat, slots: seq<Symbol>, index: seq<nat>, at: seq<nat>) returns (empty: nat)
    requires Placed(hash, slots, index, at, |at|) && |at| < |index|
    ensures empty < |index| && index[empty] == 0
  {
    empty := Pigeonhole(at, |index|);
  }

  /** Putting the next id in the first empty bucket from its symbol's home keeps the
      whole index sound: filling a bucket cuts nobody's path. */
  lemma InsertKeepsPlaced(hash: Symbol -> nat, slots: seq<Symbol>, index: seq<nat>, at: seq<nat>, bucket: nat)
    requires Placed(hash, slots, index, at, |at|) && |at| < |slots|
    requires bucket < |index| && index[bucket] == 0
    requires Reachable(index, Home(hash, slots[|at|], |index|), bucket)
    ensures Placed(hash, slots, index[bucket := |at| + 1], at + [bucket], |at| + 1)
  {
    var index', at' := index[bucket := |at| + 1], at + [bucket];
    forall i | 0 <= i < |at'|
      ensures Reachable(index', Home(hash, slots[i], |index|), at'[i])
    {
      assert i < |at| ==> Reachable(index, Home(hash, slots[i], |index|), at[i]);
    }
  }

  /** An empty bucket met before the symbol says that it is not in the table. */
  lemma NotThere(hash: Symbol -> nat, slots: seq<Symbol>, index: seq<nat>, at: seq<nat>, s: Symbol, bucket: nat)
    requires Placed(hash, slots, index, at, |slots|) && bucket < |index| && index[bucket] == 0
    requires forall b :: 0 <= b < |index| && Between(Home(hash, s, |index|), b, bucket) ==>
               index[b] == 0 || slots[index[b] - 1] != s
    ensures s !in slots
  {
    forall i | 0 <= i < |slots|
      ensures slots[i] != s
    {
      assert Reachable(index, Home(hash, slots[i], |index|), at[i]);
      assert index[at[i]] == i + 1;
    }
  }

  function PowerOfTwoAtLeast(n: nat, p: nat): (q: nat)
    requires p > 0
    ensures q >= n && q >= p
    decreases n - p
  {
    if p >= n then p else PowerOfTwoAtLeast(n, 2 * p)
  }

  function Pow2(k: nat): (p: nat)
    ensures p > 0
  {
    if k == 0 then 1 else 2 * Pow2(k - 1)
  }

  /** The rounding up gives a power of two, and the next one down would be too small. */
  lemma {:induction false} RoundsToPowerOfTwo(n: nat, j: nat) returns (k: nat)
    requires j == 0 || Pow2(j - 1) < n
    ensures PowerOfTwoAtLeast(n, Pow2(j)) == Pow2(k) >= n && (k == 0 || Pow2(k - 1) < n)
    decreases n - Pow2(j)
  {
    if Pow2(j) >= n {
      k := j;
    } else {
      k := RoundsToPowerOfTwo(n, j + 1);
    }
  }

  class SymbolTable {
    const hash: Symbol -> nat
    var slots: seq<Symbol>
    /** `index[b]` is an id plus one, or zero for an empty bucket. */
    var index: array<nat>
    var capacity: nat
    /** The bucket each id was put in. */
    ghost var at: seq<nat>

    ghost predicate Valid()
      reads this, index
    {
      && Sound(Abstract())
      && index.Length >= 2 * capacity
      && Placed(hash, slots, index[..], at, |slots|)
    }

    ghost function Abstract(): Numbering
      reads this
    {
      Numbering(slots, capacity)
    }

    constructor (capacity: nat, hash: Symbol -> nat)
      ensures Valid() && Abstract() == NewNumbering(capacity) && fresh(index) && this.hash == hash
      ensures slots == [] && this.capacity == (if capacity == 0 then 1 else capacity) && index.Length >= 2 * this.capacity
    {
      this.hash := hash;
      this.capacity := Max(capacity, 1);
      slots, at := [], [];
      index := new nat[PowerOfTwoAtLeast(Max(capacity, 1) * 2, 1)](_ => 0);
    }

    /** Probe from the symbol's home bucket until the symbol or an empty bucket. */
    method Lookup(s: Symbol) returns (id: Option<nat>)
      requires Valid()
      ensures id == Find(slots, s)
    {
      hide Distance, Between, Find, Injective, Home, Reachable;
      var n := index.Length;
      var bucket: nat := Home(hash, s, n);
      ghost var empty := SomeBucketEmpty(hash, slots, index[..], at);
      NoneBetween(bucket);
      while true
        invariant bucket < n
        invariant forall b :: 0 <= b < n && Between(Home(hash, s, n), b, bucket) ==>
                    index[..][b] == 0 || slots[index[..][b] - 1] != s
        decreases Distance(bucket, empty, n)
      {
        var entry := index[bucket];
        if entry == 0 {
          NotThere(hash, slots, index[..], at, s, bucket);
          return None;
        }
        if slots[entry - 1] == s {
          FindUnique(slots, s, entry - 1);
          return Some(entry - 1);
        }
        NextBucket(Home(hash, s, n), bucket, empty, n);
        bucket := (bucket + 1) % n;
      }
    }

    /** Place the next id in the first empty bucket from its symbol's home. */
    method InsertBucket(id: nat)
      requires Placed(hash, slots, index[..], at, id) && id < |slots| && id < index.Length
      modifies index, this`at
      ensures Placed(hash, slots, index[..], at, id + 1)
    {
      hide Distance, Between, Placed;
      var n := index.Length;
      var bucket: nat := Home(hash, slots[id], n);
      PlacedCounts(hash, slots, index[..], at, id);
      ghost var empty := SomeBucketEmpty(hash, slots, index[..], at);
      NoneBetween(bucket);
      while index[bucket] != 0
        modifies {}
        invariant Placed(hash, slots, index[..], at, id)
        invariant bucket < n && Reachable(index[..], Home(hash, slots[id], n), bucket)
        decreases Distance(bucket, empty, n)
      {
        NextBucket(Home(hash, slots[id], n), bucket, empty, n);
        bucket := (bucket + 1) % n;
      }
      InsertKeepsPlaced(hash, slots, index[..], at, bucket);
      ghost var before: seq<nat> := index[..];
      index[bucket] := id + 1;
      ghost var after: seq<nat> := before[bucket := id + 1];
      assert index[..] == after;
      at := at + [bucket];
    }

    /** Double the table and place every id again; refused at the ceiling. */
    method Grow() returns (ok: bool)
      requires Valid() && |slots| == capacity
      modifies this`capacity, this`index, this`at
      ensures Valid() && slots == old(slots)
      ensures ok == (old(capacity) < CEILING)
      ensures ok ==> capacity == 2 * old(capacity) && fresh(index)
      ensures !ok ==> capacity == old(capacity) && index == old(index)
    {
      if capacity >= CEILING {
        return false;
      }
      capacity := capacity * 2;
      index := new nat[PowerOfTwoAtLeast(capacity * 2, 1)](_ => 0);
      at := [];
      var id := 0;
      while id < |slots|
        modifies index, this`at
        invariant id <= |slots| && index.Length >= 2 * capacity
        invariant Placed(hash, slots, index[..], at, id)
      {
        InsertBucket(id);
        id := id + 1;
      }
      ok := true;
    }

    /** Issue the symbol's id, a new one the first time it is seen. */
    method Intern(s: Symbol) returns (r: Interned)
      requires Valid()
      modifies this, index
      ensures Valid() && (index == old(index) || fresh(index))
      ensures (Abstract(), r) == Issue(old(Abstract()), s)
    {
      hide Find, Placed, Injective;
      IssueIsSound(Abstract(), s);
      var known := Lookup(s);
      if known.Some? {
        return Id(known.value);
      }
      if |slots| == capacity {
        var ok := Grow();
        if !ok {
          return Full(capacity);
        }
      }
      var id := |slots|;
      PlacedCounts(hash, slots, index[..], at, id);
      WiderSlots(hash, slots, index[..], at, s);
      slots := slots + [s];
      InsertBucket(id);
      r := Id(id);
    }
  }

  lemma PlacedCounts(hash: Symbol -> nat, slots: seq<Symbol>, index: seq<nat>, at: seq<nat>, n: nat)
    ensures Placed(hash, slots, index, at, n) ==> |at| == n
  {
  }

  lemma WiderSlots(hash: Symbol -> nat, slots: seq<Symbol>, index: seq<nat>, at: seq<nat>, s: Symbol)
    requires Placed(hash, slots, index, at, |slots|)
    ensures Placed(hash, slots + [s], index, at, |slots|)
  {
  }
}
