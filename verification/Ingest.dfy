/** One connection of the feed daemon: bytes arrive in arbitrary pieces, whole records
    leave. A socket read is any non-empty piece of at most 64 KiB. */
module Ingest {
  import opened Arith
  import opened Codec
  import opened Framing

  const READ_BUFFER: nat := 65536
  const DECODE_BATCH: nat := 64
  const PENDING_LIMIT: nat := 1048576

  /** What a connection has done so far. `cleared` counts how often the oversized
      buffer was dropped. */
  datatype State = State(
    pending: seq<byte>,
    sent: seq<Msg>,
    accepted: nat,
    invalid: nat,
    bytes: nat,
    cleared: nat)

  const Fresh: State := State([], [], 0, 0, 0, 0)

  predicate Readable(pieces: seq<seq<byte>>) {
    forall i :: 0 <= i < |pieces| ==> 0 < |pieces[i]| <= READ_BUFFER
  }

  function Concat(pieces: seq<seq<byte>>): seq<byte> {
    if pieces == [] then [] else Concat(pieces[..|pieces| - 1]) + pieces[|pieces| - 1]
  }

  /** The records one turn of the read loop sends out of the buffered bytes. */
  function Emits(buf: seq<byte>): (msgs: seq<Msg>)
    ensures |msgs| <= StreamRecords(buf)
  {
    StreamRecordsDiffers(buf);
    DecodeAllLength(buf[..StreamRecords(buf) * MSG_SIZE]);
    DecodeAll(buf[..StreamRecords(buf) * MSG_SIZE])
  }

  /** The bytes that stay buffered. */
  function Keeps(buf: seq<byte>): seq<byte> {
    StreamRecordsDiffers(buf);
    buf[StreamRecords(buf) * MSG_SIZE..]
  }

  /** One turn of the read loop. */
  function Pass(c: State, chunk: seq<byte>): State {
    var buf := c.pending + chunk;
    var msgs, rest := Emits(buf), Keeps(buf);
    State(
      if |rest| > PENDING_LIMIT then [] else rest,
      c.sent + msgs,
      c.accepted + |msgs|,
      c.invalid + StreamRecords(buf) - |msgs|,
      c.bytes + |chunk|,
      c.cleared + if |rest| > PENDING_LIMIT then 1 else 0)
  }

  function ServeAll(pieces: seq<seq<byte>>): State {
    if pieces == [] then Fresh
    else Pass(ServeAll(pieces[..|pieces| - 1]), pieces[|pieces| - 1])
  }

  lemma Append(pieces: seq<seq<byte>>, last: seq<byte>)
    ensures ServeAll(pieces + [last]) == Pass(ServeAll(pieces), last)
    ensures Concat(pieces + [last]) == Concat(pieces) + last
  {
    assert (pieces + [last])[..|pieces|] == pieces;
  }

  class Connection {
    var pending: seq<byte>
    var sent: seq<Msg>
    var accepted: nat
    var invalid: nat
    var bytes: nat
    var out: array<Msg>
    ghost var cleared: nat

    ghost predicate Valid()
      reads this
    {
      out.Length == DECODE_BATCH
    }

    ghost function Abstract(): State
      reads this
    {
      State(pending, sent, accepted, invalid, bytes, cleared)
    }

    constructor (filler: Msg)
      ensures Valid() && fresh(out) && Abstract() == Fresh
    {
      pending, sent, accepted, invalid, bytes, cleared := [], [], 0, 0, 0, 0;
      out := new Msg[DECODE_BATCH](_ => filler);
    }

    /** Decode one batch of at most 64 spans and hand its records to the publisher. */
    method SendBatch(chunk: seq<byte>)
      requires Valid() && Whole(chunk) <= DECODE_BATCH
      modifies this`sent, this`accepted, this`invalid, out
      ensures Valid() && sent == old(sent) + DecodeAll(chunk)
      ensures accepted == old(accepted) + |DecodeAll(chunk)|
      ensures invalid == old(invalid) + Whole(chunk) - |DecodeAll(chunk)|
    {
      var stats := DecodeBatch(chunk, out);
      invalid := invalid + stats.skipped;
      var i := 0;
      while i < stats.decoded
        invariant i <= stats.decoded && Valid()
        invariant sent == old(sent) + out[..i] && accepted == old(accepted) + i
        invariant out[..stats.decoded] == DecodeAll(chunk)
        invariant invalid == old(invalid) + stats.skipped
      {
        sent := sent + [out[i]];
        accepted := accepted + 1;
        i := i + 1;
      }
    }

    /** Send a run of whole spans, one batch at a time. */
    method SendBody(buf: seq<byte>, whole: nat)
      requires Valid() && whole == StreamRecords(buf)
      modifies this`sent, this`accepted, this`invalid, out
      ensures Valid() && sent == old(sent) + Emits(buf)
      ensures accepted == old(accepted) + |Emits(buf)|
      ensures invalid == old(invalid) + whole - |Emits(buf)|
    {
      hide DecodeAll, StreamRecords;
      StreamRecordsDiffers(buf);
      var body := buf[..whole * MSG_SIZE];
      var done := 0;
      ghost var got := [];
      assert body[..0] == [];
      DecodeAllEmpty();
      while done < whole
        invariant done <= whole && Valid()
        invariant got == DecodeAll(body[..done * MSG_SIZE])
        invariant sent == old(sent) + got && accepted == old(accepted) + |got|
        invariant invalid == old(invalid) + done - |got|
      {
        var next := Min(done + DECODE_BATCH, whole);
        var piece := body[done * MSG_SIZE..next * MSG_SIZE];
        DecodeAllRange(body, done, next);
        SendBatch(piece);
        got := got + DecodeAll(piece);
        done := next;
      }
      assert body[..whole * MSG_SIZE] == body;
    }

    /** What the loop does with the bytes one read returned. */
    method Receive(chunk: seq<byte>)
      requires Valid()
      modifies this, out
      ensures Valid() && out == old(out)
      ensures Abstract() == Pass(old(Abstract()), chunk)
    {
      hide DecodeAll, StreamRecords, Emits;
      bytes := bytes + |chunk|;
      pending := pending + chunk;
      var whole := CountStreamRecords(pending);
      StreamRecordsDiffers(pending);
      SendBody(pending, whole);
      pending := pending[whole * MSG_SIZE..];
      if |pending| > PENDING_LIMIT {
        pending := [];
        cleared := cleared + 1;
      }
    }

    method Serve(pieces: seq<seq<byte>>)
      requires Valid() && Abstract() == Fresh && Readable(pieces)
      modifies this, out
      ensures Valid() && Abstract() == ServeAll(pieces)
    {
      var i := 0;
      while i < |pieces|
        invariant i <= |pieces| && Valid() && out == old(out)
        invariant Abstract() == ServeAll(pieces[..i])
      {
        Receive(pieces[i]);
        i := i + 1;
        assert pieces[..i][..i - 1] == pieces[..i - 1];
      }
      assert pieces[..i] == pieces;
    }
  }

  // ---------------------------------------------------------------------------
  // What is sent
  // ---------------------------------------------------------------------------

  /** Everything the connection has is a front part of the stream, cut at a record
      boundary and already handled, followed by the bytes still pending. */
  ghost predicate Handled(c: State, stream: seq<byte>, k: nat) {
    && k * MSG_SIZE + |c.pending| == |stream|
    && c.pending == stream[k * MSG_SIZE..]
    && c.sent == DecodeAll(stream[..k * MSG_SIZE])
    && c.accepted == |c.sent|
    && c.accepted + c.invalid == k
    && c.bytes == |stream|
    && c.cleared == 0
  }

  lemma NothingYet()
    ensures ServeAll([]) == Fresh && Concat([]) == [] && Handled(Fresh, [], 0)
  {
  }

  /** Cutting the stream plus a chunk at a record boundary. */
  lemma CutAt(stream: seq<byte>, k: nat, chunk: seq<byte>, whole: nat)
    requires k * MSG_SIZE <= |stream| && whole * MSG_SIZE <= |stream[k * MSG_SIZE..] + chunk|
    ensures var all, buf := stream + chunk, stream[k * MSG_SIZE..] + chunk;
            && all[..(k + whole) * MSG_SIZE] == stream[..k * MSG_SIZE] + buf[..whole * MSG_SIZE]
            && all[(k + whole) * MSG_SIZE..] == buf[whole * MSG_SIZE..]
  {
  }

  lemma EmitsExtends(stream: seq<byte>, k: nat, chunk: seq<byte>)
    requires k * MSG_SIZE <= |stream|
    ensures var buf := stream[k * MSG_SIZE..] + chunk;
            var n := k + StreamRecords(buf);
            && n * MSG_SIZE <= |stream + chunk|
            && DecodeAll((stream + chunk)[..n * MSG_SIZE]) == DecodeAll(stream[..k * MSG_SIZE]) + Emits(buf)
            && (stream + chunk)[n * MSG_SIZE..] == Keeps(buf)
  {
    hide DecodeAll, StreamRecords;
    var buf := stream[k * MSG_SIZE..] + chunk;
    StreamRecordsDiffers(buf);
    CutAt(stream, k, chunk, StreamRecords(buf));
    DecodeAllConcat(stream[..k * MSG_SIZE], k, buf[..StreamRecords(buf) * MSG_SIZE]);
  }

  lemma PassHandles(c: State, stream: seq<byte>, k: nat, chunk: seq<byte>)
    requires Handled(c, stream, k) && Pass(c, chunk).cleared == 0
    ensures Handled(Pass(c, chunk), stream + chunk, k + StreamRecords(c.pending + chunk))
  {
    hide DecodeAll, StreamRecords, Emits, Keeps;
    EmitsExtends(stream, k, chunk);
  }

  lemma ClearsAddUp(c: State, chunk: seq<byte>)
    ensures Pass(c, chunk).cleared >= c.cleared
  {
  }

  /** Every run counts what it sends and every byte it reads, whatever it drops. */
  lemma {:induction false} AlwaysCounted(pieces: seq<seq<byte>>)
    ensures ServeAll(pieces).accepted == |ServeAll(pieces).sent|
    ensures ServeAll(pieces).bytes == |Concat(pieces)|
  {
    if pieces != [] {
      hide Emits, Keeps;
      AlwaysCounted(pieces[..|pieces| - 1]);
    }
  }

  lemma HeadersOfRest(stream: seq<byte>, chunk: seq<byte>, k: nat)
    requires AllHeadersOk(stream + chunk) && k * MSG_SIZE <= |stream|
    ensures AllHeadersOk(stream[k * MSG_SIZE..] + chunk)
    ensures k + Whole(stream[k * MSG_SIZE..] + chunk) == Whole(stream + chunk)
  {
    var all, rest := stream + chunk, stream[k * MSG_SIZE..] + chunk;
    assert rest == all[k * MSG_SIZE..];
    forall i | 0 <= i < Whole(rest)
      ensures HeaderOk(Frame(rest, i))
    {
      assert Frame(rest, i) == Frame(all, k + i);
    }
  }

  lemma HeadersOfFront(stream: seq<byte>, chunk: seq<byte>)
    requires AllHeadersOk(stream + chunk)
    ensures AllHeadersOk(stream)
  {
    forall i | 0 <= i < Whole(stream)
      ensures HeaderOk(Frame(stream, i))
    {
      assert Frame(stream, i) == Frame(stream + chunk, i);
    }
  }

  /** When every header in the stream is right, every whole span is handled by the end
      of the pass that completed it. */
  lemma {:induction false} CleanStream(pieces: seq<seq<byte>>)
    requires AllHeadersOk(Concat(pieces))
    ensures Handled(ServeAll(pieces), Concat(pieces), Whole(Concat(pieces)))
  {
    hide *;
    if pieces == [] {
      NothingYet();
      NothingWhole();
    } else {
      var front, last := pieces[..|pieces| - 1], pieces[|pieces| - 1];
      assert pieces == front + [last];
      Append(front, last);
      HeadersOfFront(Concat(front), last);
      CleanStream(front);
      CleanPass(ServeAll(front), Concat(front), last);
    }
  }

  lemma NothingWhole()
    ensures Whole([]) == 0
  {
  }

  lemma CleanPass(c: State, stream: seq<byte>, chunk: seq<byte>)
    requires Handled(c, stream, Whole(stream)) && AllHeadersOk(stream + chunk)
    ensures Handled(Pass(c, chunk), stream + chunk, Whole(stream + chunk))
  {
    hide DecodeAll, StreamRecords, AllHeadersOk, Frame, Emits;
    HeadersOfRest(stream, chunk, Whole(stream));
    StreamRecordsAllOk(c.pending + chunk);
    PassHandles(c, stream, Whole(stream), chunk);
  }

  /** The records of all whole spans of `stream`, bad ones skipped. */
  function RecordsOf(stream: seq<byte>): seq<Msg> {
    DecodeAll(stream[..Whole(stream) * MSG_SIZE])
  }

  /** On a clean stream less than one record is ever pending. */
  lemma CleanPending(pieces: seq<seq<byte>>)
    requires AllHeadersOk(Concat(pieces))
    ensures |ServeAll(pieces).pending| < MSG_SIZE && ServeAll(pieces).cleared == 0
    ensures ServeAll(pieces).sent == RecordsOf(Concat(pieces))
  {
    CleanStream(pieces);
  }

  /** `c` is where `d` is, after having sent `before` and dropped `drops` buffers. */
  ghost predicate Ahead(c: State, d: State, before: seq<Msg>, drops: nat) {
    c.pending == d.pending && c.sent == before + d.sent && c.cleared == drops + d.cleared
  }

  lemma PassStaysAhead(c: State, d: State, before: seq<Msg>, drops: nat, chunk: seq<byte>)
    requires Ahead(c, d, before, drops)
    ensures Ahead(Pass(c, chunk), Pass(d, chunk), before, drops)
  {
    var msgs := Emits(d.pending + chunk);
    assert (before + d.sent) + msgs == before + (d.sent + msgs);
  }

  /** Whenever nothing is pending, in particular just after the oversized buffer was
      dropped, the connection goes on exactly as a new one would. */
  lemma {:induction false} RestartsWhenEmpty(a: seq<seq<byte>>, b: seq<seq<byte>>)
    requires ServeAll(a).pending == []
    ensures Ahead(ServeAll(a + b), ServeAll(b), ServeAll(a).sent, ServeAll(a).cleared)
  {
    if b == [] {
      assert a + b == a;
    } else {
      var front, last := b[..|b| - 1], b[|b| - 1];
      RestartsWhenEmpty(a, front);
      PassStaysAhead(ServeAll(a + front), ServeAll(front), ServeAll(a).sent, ServeAll(a).cleared, last);
      assert (a + b)[..|a + b| - 1] == a + front;
    }
  }

  // ---------------------------------------------------------------------------
  // What dropping the buffer does
  // ---------------------------------------------------------------------------

  function Zeros(n: nat): seq<byte> {
    seq(n, _ => 0)
  }

  lemma {:induction false} BadHeadersDecodeNothing(buf: seq<byte>)
    requires forall i :: 0 <= i < Whole(buf) ==> !HeaderOk(Frame(buf, i))
    ensures DecodeAll(buf) == []
  {
    if |buf| >= MSG_SIZE {
      var rest := buf[MSG_SIZE..];
      assert Frame(buf, 0) == buf[..MSG_SIZE];
      forall i | 0 <= i < Whole(rest)
        ensures !HeaderOk(Frame(rest, i))
      {
        assert Frame(rest, i) == Frame(buf, i + 1);
      }
      BadHeadersDecodeNothing(rest);
    }
  }

  /** A span that starts with a zero byte has no valid header. */
  lemma ZeroIsBad(span: seq<byte>)
    requires |span| >= MSG_SIZE && span[0] == 0
    ensures !HeaderOk(span)
  {
    HeaderIsSixBytes(span);
    assert span[..6][0] == 0;
  }

  /** Every whole span of `buf` starts with a zero byte. */
  lemma ZeroStartsAreBad(buf: seq<byte>)
    requires forall i :: 0 <= i < Whole(buf) ==> Frame(buf, i)[0] == 0
    ensures StreamRecords(buf) == 0 && DecodeAll(buf) == []
  {
    forall i | 0 <= i < Whole(buf)
      ensures !HeaderOk(Frame(buf, i))
    {
      ZeroIsBad(Frame(buf, i));
    }
    ValidPrefixExact(buf);
    if Whole(buf) > 0 {
      assert !HeaderOk(Frame(buf, 0));
    }
    BadHeadersDecodeNothing(buf);
  }

  lemma GoodSpan(m: Msg)
    requires m.Valid()
    ensures HeaderOk(Encode(m)) && DecodeAll(Encode(m)) == [m]
  {
    DecodeEncode(m);
    assert Encode(m)[..MSG_SIZE] == Encode(m) && Encode(m)[MSG_SIZE..] == [];
  }

  lemma {:induction false} ZerosPile(k: nat)
    requires k <= 17
    ensures var pieces := seq(k, _ => Zeros(READ_BUFFER));
            && Concat(pieces) == Zeros(k * READ_BUFFER)
            && ServeAll(pieces).sent == []
            && ServeAll(pieces).pending == (if k == 17 then [] else Zeros(k * READ_BUFFER))
            && ServeAll(pieces).cleared == (if k == 17 then 1 else 0)
  {
    hide StreamRecords, DecodeAll, Emits, Keeps;
    if k > 0 {
      ZerosPile(k - 1);
      var pieces := seq(k, _ => Zeros(READ_BUFFER));
      assert pieces[..k - 1] == seq(k - 1, _ => Zeros(READ_BUFFER));
      assert Zeros((k - 1) * READ_BUFFER) + Zeros(READ_BUFFER) == Zeros(k * READ_BUFFER);
      ZerosWait(k * READ_BUFFER);
    }
  }

  lemma ZerosWait(n: nat)
    ensures StreamRecords(Zeros(n)) == 0 && Emits(Zeros(n)) == [] && Keeps(Zeros(n)) == Zeros(n)
  {
    ZeroStartsAreBad(Zeros(n));
    assert Zeros(n)[..0] == [];
  }

  /** Dropping the oversized buffer loses the framing: after seventeen full reads of
      zeros a good record is sent although no whole-record front part of the stream
      holds one. */
  lemma DropLosesFraming(m: Msg) returns (pieces: seq<seq<byte>>)
    requires m.Valid()
    ensures Readable(pieces) && ServeAll(pieces).cleared == 1 && ServeAll(pieces).sent == [m]
    ensures forall k :: 0 <= k <= Whole(Concat(pieces)) ==> DecodeAll(Concat(pieces)[..k * MSG_SIZE]) == []
  {
    var zeros := seq(17, _ => Zeros(READ_BUFFER));
    pieces := zeros + [Encode(m)];
    ZerosPile(17);
    Append(zeros, Encode(m));
    SingleGood(m);
    assert ServeAll(pieces).sent == [] + [m];
    ZerosHideGood(Zeros(17 * READ_BUFFER), Encode(m));
  }

  lemma ZerosHideGood(zeros: seq<byte>, good: seq<byte>)
    requires zeros == Zeros(17 * READ_BUFFER) && |good| == MSG_SIZE
    ensures forall k :: 0 <= k <= Whole(zeros + good) ==> DecodeAll((zeros + good)[..k * MSG_SIZE]) == []
  {
    forall k | 0 <= k <= Whole(zeros + good)
      ensures DecodeAll((zeros + good)[..k * MSG_SIZE]) == []
    {
      ZeroStartsAreBad((zeros + good)[..k * MSG_SIZE]);
    }
  }

  lemma SingleGood(m: Msg)
    requires m.Valid()
    ensures Emits([] + Encode(m)) == [m] && Keeps([] + Encode(m)) == []
  {
    GoodSpan(m);
    assert [] + Encode(m) == Encode(m) && Frame(Encode(m), 0) == Encode(m);
    assert Encode(m)[..MSG_SIZE] == Encode(m) && Encode(m)[MSG_SIZE..] == [];
  }
}
