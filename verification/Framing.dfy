/** Whole records in a byte buffer: counting them, checking their headers and decoding
    them in batches. */
module Framing {
  import opened Arith
  import opened Codec

  /** How many whole 72-byte spans `buf` holds. */
  function Whole(buf: seq<byte>): nat {
    |buf| / MSG_SIZE
  }

  function Frame(buf: seq<byte>, i: nat): seq<byte>
    requires (i + 1) * MSG_SIZE <= |buf|
  {
    buf[i * MSG_SIZE..(i + 1) * MSG_SIZE]
  }

  /** The records of every whole span that decodes, in order. */
  function DecodeAll(buf: seq<byte>): seq<Msg> {
    if |buf| < MSG_SIZE then []
    else DecodeOne(buf[..MSG_SIZE]) + DecodeAll(buf[MSG_SIZE..])
  }

  function DecodeOne(span: seq<byte>): seq<Msg> {
    match Decode(span) case Ok(m) => [m] case Err(_) => []
  }

  /** The longest run of whole spans with a valid header at the front of `buf`. */
  function ValidPrefix(buf: seq<byte>): nat {
    if |buf| < MSG_SIZE || !HeaderOk(buf[..MSG_SIZE]) then 0
    else 1 + ValidPrefix(buf[MSG_SIZE..])
  }

  function StreamRecords(buf: seq<byte>): nat {
    var whole := Whole(buf);
    if whole == 0 then 0
    else if HeaderOk(Frame(buf, whole - 1)) then whole
    else ValidPrefix(buf)
  }

  predicate AllHeadersOk(buf: seq<byte>) {
    forall i :: 0 <= i < Whole(buf) ==> HeaderOk(Frame(buf, i))
  }

  lemma DecodeAllEmpty()
    ensures DecodeAll([]) == []
  {
  }

  lemma {:induction false} DecodeAllConcat(a: seq<byte>, k: nat, b: seq<byte>)
    requires |a| == k * MSG_SIZE
    ensures DecodeAll(a + b) == DecodeAll(a) + DecodeAll(b)
  {
    if k == 0 {
      assert a + b == b;
    } else {
      assert (a + b)[..MSG_SIZE] == a[..MSG_SIZE];
      assert (a + b)[MSG_SIZE..] == a[MSG_SIZE..] + b;
      DecodeAllConcat(a[MSG_SIZE..], k - 1, b);
    }
  }

  /** What one span decodes to: the record whose encoding it is, or nothing; and fewer bytes
      than a span to nothing. With `DecodeAllConcat` this is all of `DecodeAll`. */
  lemma OneSpan(b: seq<byte>)
    ensures |b| < MSG_SIZE ==> DecodeAll(b) == []
    ensures |b| == MSG_SIZE ==> (DecodeAll(b) != [] <==> Decode(b).Ok?)
    ensures |b| == MSG_SIZE && DecodeAll(b) != [] ==>
              |DecodeAll(b)| == 1 && DecodeAll(b)[0].Valid() && Encode(DecodeAll(b)[0]) == b
  {
    hide Encode, Decode;
    if |b| == MSG_SIZE {
      assert b[..MSG_SIZE] == b && b[MSG_SIZE..] == [];
      if Decode(b).Ok? {
        EncodeOfDecode(b);
      }
    }
  }

  /** One more whole span decodes to at most one more record. */
  lemma DecodeAllExtend(buf: seq<byte>, i: nat)
    requires (i + 1) * MSG_SIZE <= |buf|
    ensures DecodeAll(buf[..(i + 1) * MSG_SIZE]) == DecodeAll(buf[..i * MSG_SIZE]) + DecodeOne(Frame(buf, i))
  {
    var a, f := buf[..i * MSG_SIZE], Frame(buf, i);
    assert buf[..(i + 1) * MSG_SIZE] == a + f;
    DecodeAllConcat(a, i, f);
    assert f[..MSG_SIZE] == f && f[MSG_SIZE..] == [];
    assert DecodeAll(f) == DecodeOne(f);
  }

  lemma DecodeAllRange(buf: seq<byte>, i: nat, j: nat)
    requires i <= j && j * MSG_SIZE <= |buf|
    ensures DecodeAll(buf[..j * MSG_SIZE]) == DecodeAll(buf[..i * MSG_SIZE]) + DecodeAll(buf[i * MSG_SIZE..j * MSG_SIZE])
    ensures Whole(buf[i * MSG_SIZE..j * MSG_SIZE]) == j - i
  {
    var a, b := buf[..i * MSG_SIZE], buf[i * MSG_SIZE..j * MSG_SIZE];
    DecodeAllConcat(a, i, b);
    assert buf[..j * MSG_SIZE] == a + b;
  }

  lemma {:induction false} DecodeAllLength(buf: seq<byte>)
    ensures |DecodeAll(buf)| <= Whole(buf)
  {
    if |buf| >= MSG_SIZE {
      DecodeAllLength(buf[MSG_SIZE..]);
    }
  }

  lemma DecodeAllSplit(buf: seq<byte>, k: nat)
    requires k * MSG_SIZE <= |buf|
    ensures DecodeAll(buf) == DecodeAll(buf[..k * MSG_SIZE]) + DecodeAll(buf[k * MSG_SIZE..])
  {
    var a, b := buf[..k * MSG_SIZE], buf[k * MSG_SIZE..];
    DecodeAllConcat(a, k, b);
    assert buf == a + b;
  }

  lemma NextFrame(buf: seq<byte>, i: nat)
    requires 1 <= i < Whole(buf)
    ensures Frame(buf, i) == Frame(buf[MSG_SIZE..], i - 1)
  {
  }

  /** The prefix count is exactly the index of the first bad header. */
  lemma {:induction false} ValidPrefixExact(buf: seq<byte>)
    ensures ValidPrefix(buf) <= Whole(buf)
    ensures forall i :: 0 <= i < ValidPrefix(buf) ==> HeaderOk(Frame(buf, i))
    ensures ValidPrefix(buf) < Whole(buf) ==> !HeaderOk(Frame(buf, ValidPrefix(buf)))
  {
    hide HeaderOk;
    if |buf| >= MSG_SIZE {
      var rest := buf[MSG_SIZE..];
      assert Frame(buf, 0) == buf[..MSG_SIZE];
      if HeaderOk(buf[..MSG_SIZE]) {
        ValidPrefixExact(rest);
        forall i | 1 <= i < Whole(buf)
          ensures Frame(buf, i) == Frame(rest, i - 1)
        {
          NextFrame(buf, i);
        }
      }
    }
  }

  /** On a buffer whose headers are all right the constant-time count and the scan
      agree, and both count every whole record. */
  lemma StreamRecordsAllOk(buf: seq<byte>)
    requires AllHeadersOk(buf)
    ensures StreamRecords(buf) == ValidPrefix(buf) == Whole(buf)
  {
    ValidPrefixExact(buf);
  }

  /** The two counts differ exactly when a bad header hides behind a good last one. */
  lemma StreamRecordsDiffers(buf: seq<byte>)
    ensures ValidPrefix(buf) <= StreamRecords(buf) <= Whole(buf)
    ensures StreamRecords(buf) != ValidPrefix(buf) <==>
            Whole(buf) > 0 && HeaderOk(Frame(buf, Whole(buf) - 1)) && !AllHeadersOk(buf)
  {
    ValidPrefixExact(buf);
  }

  /** Scan for the first bad header. */
  method ValidPrefixLen(buf: seq<byte>) returns (count: nat)
    ensures count <= Whole(buf)
    ensures forall i :: 0 <= i < count ==> HeaderOk(Frame(buf, i))
    ensures count < Whole(buf) ==> !HeaderOk(Frame(buf, count))
    ensures count == ValidPrefix(buf)
  {
    count := 0;
    while (count + 1) * MSG_SIZE <= |buf|
      invariant count <= Whole(buf)
      invariant forall i :: 0 <= i < count ==> HeaderOk(Frame(buf, i))
    {
      if !HeaderOk(Frame(buf, count)) {
        break;
      }
      count := count + 1;
    }
    ValidPrefixExact(buf);
  }

  /** In constant time when the last header is right: then every whole span counts, and
      otherwise those before the first bad header. Either way the span after the ones counted,
      if it is whole, is a bad one. */
  method CountStreamRecords(buf: seq<byte>) returns (count: nat)
    ensures count == StreamRecords(buf)
    ensures ValidPrefix(buf) <= count <= Whole(buf)
    ensures count < Whole(buf) ==> !HeaderOk(Frame(buf, count)) && !HeaderOk(Frame(buf, Whole(buf) - 1))
    ensures count == Whole(buf) || forall i :: 0 <= i < count ==> HeaderOk(Frame(buf, i))
    ensures Whole(buf) > 0 && HeaderOk(Frame(buf, Whole(buf) - 1)) ==> count == Whole(buf)
  {
    StreamRecordsDiffers(buf);
    ValidPrefixExact(buf);
    var whole := |buf| / MSG_SIZE;
    if whole == 0 {
      return 0;
    }
    if HeaderOk(Frame(buf, whole - 1)) {
      return whole;
    }
    count := ValidPrefixLen(buf);
  }

  datatype BatchStats = BatchStats(records: nat, decoded: nat, skipped: nat)

  /** What a full output buffer keeps of a longer run of records. */
  function Fit(all: seq<Msg>, room: nat): (fitting: seq<Msg>)
    ensures |fitting| == Min(|all|, room) && fitting <= all
  {
    if |all| <= room then all else all[..room]
  }

  lemma FitPrefix(buf: seq<byte>, k: nat, room: nat)
    requires k * MSG_SIZE <= |buf|
    requires |DecodeAll(buf[..k * MSG_SIZE])| <= room
    requires k < Whole(buf) ==> |DecodeAll(buf[..k * MSG_SIZE])| == room
    ensures Fit(DecodeAll(buf), room) == DecodeAll(buf[..k * MSG_SIZE])
  {
    DecodeAllSplit(buf, k);
    if k == Whole(buf) {
      assert DecodeAll(buf[k * MSG_SIZE..]) == [];
    }
  }

  /** An output buffer with room for every whole span is never the limit. */
  lemma RoomForAll(buf: seq<byte>, k: nat, room: nat)
    requires k <= Whole(buf) <= room
    requires k < Whole(buf) ==> |DecodeAll(buf[..k * MSG_SIZE])| == room
    ensures k == Whole(buf)
    ensures Fit(DecodeAll(buf), room) == DecodeAll(buf)
  {
    DecodeAllLength(buf[..k * MSG_SIZE]);
    DecodeAllLength(buf);
  }

  /** The records of the whole spans, packed at the front of `out` as far as they fit; spans
      that do not decode are only counted. */
  method DecodeBatch(buf: seq<byte>, out: array<Msg>) returns (stats: BatchStats)
    modifies out
    ensures stats.records <= Whole(buf) && stats.decoded <= out.Length
    ensures stats.decoded + stats.skipped == stats.records
    ensures out[..stats.decoded] == DecodeAll(buf[..stats.records * MSG_SIZE])
    ensures out[..stats.decoded] == Fit(DecodeAll(buf), out.Length)
    ensures out[stats.decoded..] == old(out[stats.decoded..])
    ensures stats.decoded == Min(|DecodeAll(buf)|, out.Length)
    ensures stats.records == Whole(buf) || stats.decoded == out.Length
    ensures Whole(buf) <= out.Length ==> stats.records == Whole(buf) && out[..stats.decoded] == DecodeAll(buf)
  {
    var written, i, skipped := 0, 0, 0;
    hide Decode, Fit;
    ghost var got := [];
    assert buf[..0] == [];
    while i < |buf| / MSG_SIZE
      invariant i <= Whole(buf) && written <= out.Length && written + skipped == i
      invariant got == DecodeAll(buf[..i * MSG_SIZE]) && out[..written] == got
      invariant out[written..] == old(out[..])[written..]
    {
      if written >= out.Length {
        break;
      }
      DecodeAllExtend(buf, i);
      got := got + DecodeOne(Frame(buf, i));
      match Decode(Frame(buf, i)) {
        case Ok(m) =>
          ghost var before := out[..];
          out[written] := m;
          assert out[..written] == before[..written];
          assert out[written + 1..] == before[written..][1..];
          written := written + 1;
        case Err(_) =>
          skipped := skipped + 1;
      }
      i := i + 1;
    }
    stats := BatchStats(i, written, skipped);
    FitPrefix(buf, i, out.Length);
    if Whole(buf) <= out.Length {
      RoomForAll(buf, i, out.Length);
    }
  }

  /** The obvious decoder that the batch form is measured against: one index, stepping
      a whole record at a time. It writes the same records. */
  method BaselineDecode(buf: seq<byte>, out: array<Msg>) returns (n: nat)
    modifies out
    ensures n == Min(|DecodeAll(buf)|, out.Length) && out[..n] == DecodeAll(buf)[..n]
    ensures out[n..] == old(out[n..])
  {
    n := 0;
    var i := 0;
    ghost var k := 0;
    assert buf[..0] == [];
    while i + MSG_SIZE <= |buf| && n < out.Length
      invariant i == k * MSG_SIZE && k <= Whole(buf) && n <= out.Length
      invariant out[..n] == DecodeAll(buf[..k * MSG_SIZE])
      invariant out[n..] == old(out[..])[n..]
    {
      DecodeAllExtend(buf, k);
      match Decode(buf[i..i + MSG_SIZE]) {
        case Ok(m) =>
          ghost var before := out[..];
          out[n] := m;
          assert out[..n] == before[..n];
          assert out[n + 1..] == before[n..][1..];
          n := n + 1;
        case Err(_) =>
      }
      i := i + MSG_SIZE;
      k := k + 1;
    }
    FitPrefix(buf, k, out.Length);
  }
}
