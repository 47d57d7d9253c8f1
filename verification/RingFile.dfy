/** The ring seen by one thread at a time: publishing, and reading while the writer is
    idle. */
module RingFile {
  import opened Arith
  import opened Codec
  import opened RingProtocol

  datatype Consumed = Fresh | Empty | Resynchronised | Stale

  class Ring {
    var slots: array<seq<byte>>
    var wseq: nat
    /** Every record published, by number, and what `Publish` was called with. */
    ghost var log: seq<Msg>
    ghost var given: seq<Msg>

    ghost predicate Valid()
      reads this, slots
    {
      && slots.Length > 0
      && |log| == |given| == wseq < U64
      && (forall n :: 0 <= n < wseq ==> Carries(log[n], given[n], n))
      && (forall i :: 0 <= i < slots.Length ==> |slots[i]| == MSG_SIZE)
      && (forall n :: 0 <= n < wseq < n + slots.Length + 1 ==> slots[n % slots.Length] == Encode(log[n]))
    }

    constructor (capacity: nat)
      requires capacity > 0
      ensures Valid() && log == [] && given == [] && slots.Length == capacity && fresh(slots)
    {
      slots := new seq<byte>[capacity](_ => seq(MSG_SIZE, _ => 0));
      wseq, log, given := 0, [], [];
    }

    /** Assign the next number, fill the slot, publish. */
    method Publish(m: Msg) returns (number: nat)
      requires Valid() && wseq + 1 < U64
      modifies this, slots
      ensures Valid() && slots == old(slots)
      ensures number == old(wseq) == |old(log)| && wseq == number + 1 && given == old(given) + [m]
      ensures |log| == number + 1 && log[..number] == old(log)
      ensures log[number].magic == MAGIC && log[number].nbytes == MSG_SIZE && log[number].seqno == number
      ensures log[number].kind == m.kind && log[number].side == m.side && log[number].tsNs == m.tsNs
      ensures log[number].traceId == m.traceId && log[number].spanId == m.spanId
      ensures log[number].pxE8 == m.pxE8 && log[number].qtyE8 == m.qtyE8 && log[number].symbol == m.symbol
    {
      number := wseq;
      var stamped := Stamped(m, number);
      slots[number % slots.Length] := Encode(stamped);
      wseq := number + 1;
      log, given := log + [stamped], given + [m];
      forall n | 0 <= n < number && number < n + slots.Length
        ensures n % slots.Length != number % slots.Length
      {
        SlotsDistinct(number, n, slots.Length);
      }
    }

    /** How many published records a reader at `cursor` has not taken. */
    function Lag(cursor: nat): (lag: nat)
      reads this
      ensures cursor <= wseq ==> lag == wseq - cursor
      ensures cursor > wseq ==> lag == 0
    {
      if cursor >= wseq then 0 else wseq - cursor
    }

    /** The stamp of record `number`: there exactly while the ring still holds it. */
    method TimestampAt(number: nat) returns (stamp: Option<u64>)
      requires Valid()
      ensures stamp == if number < wseq <= number + slots.Length then Some(log[number].tsNs) else None
    {
      if number >= wseq {
        return None;
      }
      var i := number % slots.Length;
      var found := SeqAndStamp(slots[i]);
      LatestOf(number);
      var n := HolderOf(number);
      StampOfEncoded(log[n]);
      if found.Some? && found.value.0 == number {
        stamp := Some(found.value.1);
      } else {
        stamp := None;
      }
    }

    /** The newest record in the slot that record `number` was written to. */
    ghost function HolderOf(number: nat): nat
      requires Valid() && number < wseq
      reads this, slots
    {
      number + (wseq - 1 - number) / slots.Length * slots.Length
    }

    lemma LatestOf(number: nat)
      requires Valid() && number < wseq
      ensures number <= HolderOf(number) < wseq <= HolderOf(number) + slots.Length
      ensures slots[number % slots.Length] == Encode(log[HolderOf(number)])
      ensures wseq <= number + slots.Length <==> HolderOf(number) == number
    {
      LastLap(number, wseq, slots.Length);
      var n := HolderOf(number);
      assert n < wseq < n + slots.Length + 1;
    }

    /** Read the record at `cursor`. With the writer idle a reader within one lap always
        gets it, one further behind moves to the oldest record still there, and no slot
        is ever stale. */
    method Consume(cursor: nat, m: Msg) returns (next: nat, out: Msg, result: Consumed)
      requires Valid()
      ensures cursor >= wseq ==> result == Empty && next == cursor && out == m
      ensures cursor < wseq && wseq - cursor > slots.Length ==>
                result == Resynchronised && next == wseq - slots.Length && out == m
      ensures cursor < wseq && wseq - cursor <= slots.Length ==>
                result == Fresh && next == cursor + 1 && out == log[cursor]
      ensures result == Fresh ==>
                && cursor < |given| && out.seqno == cursor
                && out.kind == given[cursor].kind && out.side == given[cursor].side && out.tsNs == given[cursor].tsNs
                && out.traceId == given[cursor].traceId && out.spanId == given[cursor].spanId
                && out.pxE8 == given[cursor].pxE8 && out.qtyE8 == given[cursor].qtyE8 && out.symbol == given[cursor].symbol
    {
      if cursor >= wseq {
        return cursor, m, Empty;
      }
      if wseq - cursor > slots.Length {
        return wseq - slots.Length, m, Resynchronised;
      }
      var wire := slots[cursor % slots.Length];
      DecodeEncode(log[cursor]);
      match Decode(wire) {
        case Ok(found) =>
          if found.seqno == cursor {
            return cursor + 1, found, Fresh;
          }
          return wseq, m, Stale;
        case Err(_) =>
          return wseq, m, Stale;
      }
    }

    /** Where a reader at `cursor` starts: at its cursor, or at the oldest record still
        in the ring. */
    function Oldest(cursor: nat): nat
      reads this, slots
    {
      if cursor < wseq && wseq - cursor > slots.Length then wseq - slots.Length else cursor
    }

    lemma OldestIs(cursor: nat)
      requires Valid()
      ensures Oldest(cursor) == if cursor < wseq && wseq - cursor > slots.Length then wseq - slots.Length else cursor
      ensures Lag(Oldest(cursor)) == if Oldest(cursor) >= wseq then 0 else wseq - Oldest(cursor)
      ensures |log| == wseq && slots.Length > 0
    {
    }

    /** A reader's lag is the records it has lost to being lapped plus those it can still
        take; it has lost some exactly when the lag exceeds the ring. */
    lemma LagIsLostPlusHeld(cursor: nat)
      requires Valid() && cursor <= wseq
      ensures cursor <= Oldest(cursor) <= wseq && Lag(cursor) == |log[cursor..]|
      ensures Lag(cursor) == |log[cursor..Oldest(cursor)]| + |log[Oldest(cursor)..]|
      ensures |log[Oldest(cursor)..]| == Lag(Oldest(cursor)) <= slots.Length
      ensures Oldest(cursor) > cursor <==> Lag(cursor) > slots.Length
    {
    }

    /** Draining with the writer idle fills `out` with exactly the records from the
        oldest one left, in order and without a gap, and leaves the rest of `out`. */
    method ConsumeBatch(cursor: nat, out: array<Msg>) returns (next: nat, n: nat)
      requires Valid()
      modifies out
      ensures Valid()
      ensures n == Min(out.Length, Lag(Oldest(cursor)))
      ensures forall i :: 0 <= i < n ==> out[i] == log[Oldest(cursor) + i]
      ensures forall i :: n <= i < out.Length ==> out[i] == old(out[i])
      ensures next == (if out.Length == 0 then cursor else Oldest(cursor) + n)
    {
      hide Valid, Oldest, Lag;
      OldestIs(cursor);
      next, n := cursor, 0;
      ghost var start, ready := Oldest(cursor), Lag(Oldest(cursor));
      while n < out.Length
        invariant Valid() && n <= out.Length && n <= ready
        invariant if out.Length > 0 && next != cursor then next == start + n else n == 0 && next == cursor
        invariant forall i :: 0 <= i < n ==> out[i] == log[start + i]
        invariant forall i :: n <= i < out.Length ==> out[i] == old(out[i])
        decreases wseq - next
      {
        var found, result;
        next, found, result := Consume(next, out[n]);
        match result {
          case Fresh =>
            out[n] := found;
            n := n + 1;
          case Resynchronised =>
          case _ => break;
        }
      }
    }
  }

  lemma StampOfEncoded(m: Msg)
    requires m.Valid()
    ensures SeqAndStamp(Encode(m)) == Some((m.seqno, m.tsNs))
  {
    hide Encode;
    DecodeEncode(m);
    StampAgreesWithDecode(Encode(m));
  }
}
