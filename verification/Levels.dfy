/** One side of a book in two flat arrays, kept sorted in place. */
module Levels {
  import opened Arith
  import opened Codec
  import opened Side
  import opened DepthWalk

  class Levels {
    var px: array<i64>
    var qty: array<i64>
    var len: nat
    var overflowed: nat
    const isBid: bool

    ghost predicate Valid()
      reads this, px, qty
    {
      && px != qty && px.Length == qty.Length > 0
      && len <= px.Length
      && Sorted(isBid, Contents())
    }

    ghost predicate Shaped()
      reads this
    {
      px != qty && px.Length == qty.Length > 0 && len <= px.Length
    }

    ghost function Contents(): seq<Level>
      requires Shaped()
      reads this, px, qty
    {
      Zip(px[..len], qty[..len])
    }

    function Capacity(): nat
      reads this
    {
      px.Length
    }

    constructor (capacity: nat, isBid: bool)
      ensures Valid() && fresh(px) && fresh(qty) && Contents() == []
      ensures Capacity() == Max(capacity, 1) && this.isBid == isBid && overflowed == 0
    {
      this.isBid := isBid;
      px := new i64[Max(capacity, 1)](_ => 0);
      qty := new i64[Max(capacity, 1)](_ => 0);
      len, overflowed := 0, 0;
    }

    method Clear()
      requires Valid()
      modifies this`len
      ensures Valid() && Contents() == []
    {
      len := 0;
    }

    /** Scan for the first price that is not strictly better. */
    method Locate(price: i64) returns (at: nat, present: bool)
      requires Valid()
      ensures at == Place(isBid, Contents(), price) && present == Present(isBid, Contents(), price)
    {
      at := 0;
      while at < len
        invariant at <= len
        invariant Place(isBid, Contents(), price) == at + Place(isBid, Contents()[at..], price)
      {
        if px[at] == price {
          return at, true;
        }
        if Better(isBid, price, px[at]) {
          return at, false;
        }
        assert Contents()[at..][1..] == Contents()[at + 1..];
        at := at + 1;
      }
      present := false;
    }

    /** Open a hole at `at` by shifting the levels up to `end`. */
    method ShiftRight(at: nat, end: nat)
      requires Shaped() && at <= end < px.Length
      modifies px, qty
      ensures forall i :: 0 <= i < px.Length ==> px[i] == if at < i <= end then old(px[i - 1]) else old(px[i])
      ensures forall i :: 0 <= i < px.Length ==> qty[i] == if at < i <= end then old(qty[i - 1]) else old(qty[i])
    {
      forall i | at <= i < end {
        px[i + 1] := px[i];
      }
      forall i | at <= i < end {
        qty[i + 1] := qty[i];
      }
    }

    /** Make room at `at` in the first `end` levels and put one there. */
    method InsertAt(at: nat, end: nat, price: i64, size: i64)
      requires Shaped() && at <= end < px.Length
      modifies px, qty
      ensures Zip(px[..end + 1], qty[..end + 1]) == Insert(old(Zip(px[..end], qty[..end])), at, Level(price, size))
    {
      ghost var before := Zip(px[..end], qty[..end]);
      ShiftRight(at, end);
      px[at] := price;
      qty[at] := size;
      ghost var after, want := Zip(px[..end + 1], qty[..end + 1]), Insert(before, at, Level(price, size));
      assert forall i :: 0 <= i < end + 1 ==> after[i] == want[i];
    }

    /** Close the hole at `at` in the first `end` levels. */
    method RemoveAt(at: nat, end: nat)
      requires Shaped() && at < end <= px.Length
      modifies px, qty
      ensures var before := old(Zip(px[..end], qty[..end]));
              Zip(px[..end - 1], qty[..end - 1]) == before[..at] + before[at + 1..]
    {
      ghost var before := Zip(px[..end], qty[..end]);
      forall i | at + 1 <= i < end {
        px[i - 1] := px[i];
      }
      forall i | at + 1 <= i < end {
        qty[i - 1] := qty[i];
      }
      ghost var after, want := Zip(px[..end - 1], qty[..end - 1]), before[..at] + before[at + 1..];
      assert forall i :: 0 <= i < end - 1 ==> after[i] == want[i];
    }

    /** Insert or replace a level. `None` when the side was full and the level worse than
        every level present. */
    method UpsertLevel(price: i64, size: i64) returns (isNew: Option<bool>)
      requires Valid()
      modifies this`len, this`overflowed, px, qty
      ensures Valid() && Contents() == Upsert(isBid, Capacity(), old(Contents()), price, size)
      ensures isNew == if old(Present(isBid, Contents(), price)) then Some(false)
                       else if old(len == px.Length && Place(isBid, Contents(), price) == len) then None
                       else Some(true)
      ensures overflowed == old(overflowed) +
                (if old(len == px.Length && !Present(isBid, Contents(), price)) then 1 else 0)
    {
      hide Place, Sorted, Insert, Zip, HasPrice, Better;
      ghost var before := Contents();
      UpsertSorted(isBid, px.Length, before, price, size);
      var at, present := Locate(price);
      if present {
        ghost var sizes: seq<i64> := qty[..len];
        ReplaceZip(px[..len], sizes, at, size);
        qty[at] := size;
        assert qty[..len] == sizes[at := size];
        return Some(false);
      }
      if len == px.Length {
        overflowed := overflowed + 1;
        if at >= len {
          return None;
        }
        ZipFront(px, qty, len);
        InsertAt(at, len - 1, price, size);
        return Some(true);
      }
      InsertAt(at, len, price, size);
      len := len + 1;
      return Some(true);
    }

    /** Remove a level, shifting the tail left over the hole. */
    method EraseLevel(price: i64) returns (found: bool)
      requires Valid()
      modifies this`len, px, qty
      ensures Valid() && Contents() == Erase(isBid, old(Contents()), price)
      ensures found == old(Present(isBid, Contents(), price))
    {
      hide Place, Sorted, Zip;
      ghost var before := Contents();
      EraseSorted(isBid, before, price);
      var at, present := Locate(price);
      if !present {
        return false;
      }
      RemoveAt(at, len);
      len := len - 1;
      found := true;
    }

    method Best() returns (best: Option<Level>)
      requires Valid()
      ensures best == BestOf(Contents())
    {
      if len == 0 {
        return None;
      }
      best := Some(Level(px[0], qty[0]));
    }

    /** Copy the best levels out, as many as were asked for, exist and fit. */
    method CopyTop(n: nat, out: array<Level>) returns (take: nat)
      requires Valid()
      modifies out
      ensures take == Min(Min(n, len), out.Length)
      ensures out[..take] == Contents()[..take] && out[take..] == old(out[take..])
      ensures Valid() && Contents() == old(Contents())
    {
      take := Min(Min(n, len), out.Length);
      var i := 0;
      while i < take
        invariant i <= take && Valid() && Contents() == old(Contents())
        invariant forall k :: 0 <= k < i ==> out[k] == Contents()[k]
        invariant forall k :: i <= k < out.Length ==> out[k] == old(out[k])
      {
        out[i] := Level(px[i], qty[i]);
        i := i + 1;
      }
    }

    /** Running totals of the best sizes, wrapping as 64-bit sums do. */
    method Cumulative(n: nat, out: array<i64>) returns (take: nat)
      requires Valid() && out != px && out != qty
      modifies out
      ensures take == Min(Min(n, len), out.Length)
      ensures Valid() && Contents() == old(Contents())
      ensures forall i :: 0 <= i < take ==> out[i] == Wrap(Available(Contents(), i + 1))
      ensures forall i :: 0 <= i < take ==> out[i] == if i == 0 then Contents()[0].qty else Wrap(out[i - 1] + Contents()[i].qty)
      ensures forall i :: take <= i < out.Length ==> out[i] == old(out[i])
    {
      hide Wrap, Sorted;
      take := Min(Min(n, len), out.Length);
      var running: i64 := 0;
      var i := 0;
      ghost var l := Contents();
      WrapIdentity(0);
      while i < take
        invariant i <= take && Valid() && Contents() == l
        invariant running == Wrap(Available(l, i))
        invariant forall k :: 0 <= k < i ==> out[k] == Wrap(Available(l, k + 1))
        invariant i > 0 ==> running == out[i - 1]
        invariant forall k :: 0 <= k < i ==> out[k] == if k == 0 then l[0].qty else Wrap(out[k - 1] + l[k].qty)
        invariant forall k :: i <= k < out.Length ==> out[k] == old(out[k])
      {
        WrapAdd(Available(l, i), qty[i]);
        WrapIdentity(qty[i]);
        running := Wrap(running + qty[i]);
        out[i] := running;
        i := i + 1;
      }
    }

    /** Take a size from the best levels. */
    method TakeSize(size: i64) returns (fill: Option<Fill>)
      requires Valid()
      ensures fill == TakeFrom(Contents(), size)
    {
      hide Wrap, Trunc, Sorted, Clamp;
      if len == 0 || size <= 0 {
        return None;
      }
      var filled: i64, notional: i64, i := 0, 0, 0;
      ghost var l := Contents();
      while i < len
        invariant i <= len && filled == Filled(l, size, i) && notional == Notional(l, size, i)
        invariant Used(l, size, 0) == Used(l, size, i)
      {
        if filled >= size {
          break;
        }
        var want := Wrap(size - filled);
        var take := if want <= qty[i] then want else qty[i];
        var price: int := px[i];
        var product := Trunc(price * take, E8);
        notional := Clamp(notional + Clamp(product));
        filled := Wrap(filled + take);
        i := i + 1;
      }
      if filled == 0 {
        return None;
      }
      fill := Some(Fill(size, filled, notional, i, px[0], Trunc(Clamp(notional * E8), filled)));
    }
  }

  function Zip(px: seq<i64>, qty: seq<i64>): (l: seq<Level>)
    requires |px| == |qty|
    ensures |l| == |px|
  {
    seq(|px|, i requires 0 <= i < |px| => Level(px[i], qty[i]))
  }

  function BestOf(l: seq<Level>): Option<Level> {
    if l == [] then None else Some(l[0])
  }

  lemma ZipFront(px: array<i64>, qty: array<i64>, n: nat)
    requires 0 < n <= px.Length == qty.Length
    ensures Zip(px[..n - 1], qty[..n - 1]) == Zip(px[..n], qty[..n])[..n - 1]
  {
  }

  lemma ReplaceZip(px: seq<i64>, qty: seq<i64>, at: nat, size: i64)
    requires |px| == |qty| && at < |px|
    ensures Zip(px, qty[at := size]) == Zip(px, qty)[at := Level(px[at], size)]
    ensures Zip(px, qty)[at].px == px[at]
  {
  }
}
