/** The 72-byte record and its byte layout, shared by the socket reader, the ring and
    the log. */
module Codec {
  import opened Arith

  type byte = b: int | 0 <= b < 256
  type u16 = x: int | 0 <= x < 0x1_0000
  type u32 = x: int | 0 <= x < U32
  type u64 = x: int | 0 <= x < U64
  type i64 = x: int | I64_MIN <= x <= I64_MAX

  const MSG_SIZE: nat := 72
  const MAGIC: u32 := 0x4F42_4C42

  type Symbol = s: seq<byte> | |s| == 8 witness [0, 0, 0, 0, 0, 0, 0, 0]
  type SpanId = s: seq<byte> | |s| == 8 witness [0, 0, 0, 0, 0, 0, 0, 0]
  type TraceId = s: seq<byte> | |s| == 16 witness [0, 0, 0, 0, 0, 0, 0, 0, 0, 0, 0, 0, 0, 0, 0, 0]

  datatype MsgType = Depth | Heartbeat | Cmd | DepthReset {
    function Code(): byte {
      match this case Depth => 1 case Heartbeat => 2 case Cmd => 3 case DepthReset => 4
    }
  }

  datatype Side = Bid | Ask | Both {
    function Code(): byte {
      match this case Bid => 0 case Ask => 1 case Both => 2
    }
  }

  datatype Msg = Msg(
    magic: u32,
    nbytes: u16,
    kind: MsgType,
    side: Side,
    seqno: u64,
    tsNs: u64,
    traceId: TraceId,
    spanId: SpanId,
    pxE8: i64,
    qtyE8: i64,
    symbol: Symbol)
  {
    /** The two field checks every reader makes. */
    predicate Valid() {
      magic == MAGIC && nbytes == MSG_SIZE
    }

    predicate AffectsBook() {
      kind.Depth? || kind.DepthReset?
    }
  }

  datatype WireError = BadLength | BadMagic | BadDeclaredLength | UnknownKind | UnknownSide

  datatype Result<+T> = Ok(value: T) | Err(error: WireError)

  datatype Option<+T> = None | Some(value: T)

  // ---------------------------------------------------------------------------
  // Little-endian integers
  // ---------------------------------------------------------------------------

  function Pow256(k: nat): nat {
    if k == 0 then 1 else 256 * Pow256(k - 1)
  }

  function ToLe(x: nat, k: nat): (b: seq<byte>)
    ensures |b| == k
    decreases k, x
  {
    if k == 0 then [] else [x % 256] + ToLe(x / 256, k - 1)
  }

  function FromLe(b: seq<byte>): nat {
    if b == [] then 0 else b[0] + 256 * FromLe(b[1..])
  }

  lemma {:induction false} FromLeToLe(x: nat, k: nat)
    requires x < Pow256(k)
    ensures FromLe(ToLe(x, k)) == x
  {
    if k > 0 {
      FromLeToLe(x / 256, k - 1);
      assert ToLe(x, k)[1..] == ToLe(x / 256, k - 1);
    }
  }

  lemma {:induction false} ToLeFromLe(b: seq<byte>)
    ensures ToLe(FromLe(b), |b|) == b
    ensures FromLe(b) < Pow256(|b|)
  {
    if b != [] {
      ToLeFromLe(b[1..]);
      assert b == [b[0]] + b[1..];
    }
  }

  lemma Widths()
    ensures Pow256(2) == 0x1_0000 && Pow256(4) == U32 && Pow256(8) == U64
  {
    assert Pow256(4) == 256 * (256 * Pow256(2));
    assert Pow256(6) == 256 * (256 * Pow256(4));
    assert Pow256(8) == 256 * (256 * Pow256(6));
  }

  /** Two's complement: the cast between the signed and the unsigned 64-bit type. */
  function AsU64(x: i64): u64 {
    if x < 0 then x + U64 else x
  }

  function AsI64(x: u64): i64 {
    if x > I64_MAX then x - U64 else x
  }

  // ---------------------------------------------------------------------------
  // The record
  // ---------------------------------------------------------------------------

  function Encode(m: Msg): (wire: seq<byte>)
    ensures |wire| == MSG_SIZE
  {
    ToLe(m.magic, 4) + ToLe(m.nbytes, 2) + [m.kind.Code()] + [m.side.Code()]
    + ToLe(m.seqno, 8) + ToLe(m.tsNs, 8) + m.traceId + m.spanId
    + ToLe(AsU64(m.pxE8), 8) + ToLe(AsU64(m.qtyE8), 8) + m.symbol
  }

  /** Append-style copy of `src` at `off`, keeping what is already there. */
  method CopyInto(out: array<byte>, off: nat, src: seq<byte>)
    requires off + |src| <= out.Length
    modifies out
    ensures out[..off + |src|] == old(out[..off]) + src
  {
    forall i | 0 <= i < |src| {
      out[off + i] := src[i];
    }
    assert forall i :: 0 <= i < off ==> out[i] == old(out[i]);
  }

  /** Fill a 72-byte array field by field at the layout's fixed offsets. */
  method EncodeWire(m: Msg) returns (out: array<byte>)
    ensures fresh(out) && out[..] == Encode(m)
  {
    out := new byte[MSG_SIZE](_ => 0);
    CopyInto(out, 0, ToLe(m.magic, 4));
    assert out[..4] == ToLe(m.magic, 4);
    CopyInto(out, 4, ToLe(m.nbytes, 2));
    CopyInto(out, 6, [m.kind.Code()]);
    CopyInto(out, 7, [m.side.Code()]);
    CopyInto(out, 8, ToLe(m.seqno, 8));
    CopyInto(out, 16, ToLe(m.tsNs, 8));
    CopyInto(out, 24, m.traceId);
    CopyInto(out, 40, m.spanId);
    CopyInto(out, 48, ToLe(AsU64(m.pxE8), 8));
    CopyInto(out, 56, ToLe(AsU64(m.qtyE8), 8));
    CopyInto(out, 64, m.symbol);
    assert out[..] == out[..72];
  }

  function U16At(b: seq<byte>, off: nat): u16
    requires off + 2 <= |b|
  {
    ToLeFromLe(b[off..off + 2]);
    Widths();
    FromLe(b[off..off + 2])
  }

  function U32At(b: seq<byte>, off: nat): u32
    requires off + 4 <= |b|
  {
    ToLeFromLe(b[off..off + 4]);
    Widths();
    FromLe(b[off..off + 4])
  }

  function U64At(b: seq<byte>, off: nat): u64
    requires off + 8 <= |b|
  {
    ToLeFromLe(b[off..off + 8]);
    Widths();
    FromLe(b[off..off + 8])
  }

  function KindOf(code: byte): Option<MsgType> {
    match code
    case 1 => Some(Depth)
    case 2 => Some(Heartbeat)
    case 3 => Some(Cmd)
    case 4 => Some(DepthReset)
    case _ => None
  }

  function SideOf(code: byte): Option<Side> {
    match code
    case 0 => Some(Bid)
    case 1 => Some(Ask)
    case 2 => Some(Both)
    case _ => None
  }

  function Decode(b: seq<byte>): Result<Msg> {
    if |b| != MSG_SIZE then Err(BadLength)
    else if U32At(b, 0) != MAGIC then Err(BadMagic)
    else if U16At(b, 4) != MSG_SIZE then Err(BadDeclaredLength)
    else if KindOf(b[6]).None? then Err(UnknownKind)
    else if SideOf(b[7]).None? then Err(UnknownSide)
    else Ok(Fields(b))
  }

  function Fields(b: seq<byte>): Msg
    requires |b| == MSG_SIZE && KindOf(b[6]).Some? && SideOf(b[7]).Some?
  {
    Msg(U32At(b, 0), U16At(b, 4), KindOf(b[6]).value, SideOf(b[7]).value,
        U64At(b, 8), U64At(b, 16), b[24..40], b[40..48],
        AsI64(U64At(b, 48)), AsI64(U64At(b, 56)), b[64..72])
  }

  /** The header check alone: magic and declared length. */
  predicate HeaderOk(b: seq<byte>)
    requires |b| >= MSG_SIZE
  {
    U32At(b, 0) == MAGIC && U16At(b, 4) == MSG_SIZE
  }

  function SeqAndStamp(b: seq<byte>): Option<(u64, u64)> {
    if |b| < MSG_SIZE || !HeaderOk(b) then None else Some((U64At(b, 8), U64At(b, 16)))
  }

  lemma EncodeSlices(m: Msg)
    ensures var w := Encode(m);
            && w[0..4] == ToLe(m.magic, 4) && w[4..6] == ToLe(m.nbytes, 2)
            && w[6] == m.kind.Code() && w[7] == m.side.Code()
            && w[8..16] == ToLe(m.seqno, 8) && w[16..24] == ToLe(m.tsNs, 8)
            && w[24..40] == m.traceId && w[40..48] == m.spanId
            && w[48..56] == ToLe(AsU64(m.pxE8), 8) && w[56..64] == ToLe(AsU64(m.qtyE8), 8)
            && w[64..72] == m.symbol
  {
  }

  lemma U64AtToLe(w: seq<byte>, off: nat, x: u64)
    requires off + 8 <= |w| && w[off..off + 8] == ToLe(x, 8)
    ensures U64At(w, off) == x
  {
    Widths();
    FromLeToLe(x, 8);
  }

  lemma U32AtToLe(w: seq<byte>, off: nat, x: u32)
    requires off + 4 <= |w| && w[off..off + 4] == ToLe(x, 4)
    ensures U32At(w, off) == x
  {
    Widths();
    FromLeToLe(x, 4);
  }

  lemma U16AtToLe(w: seq<byte>, off: nat, x: u16)
    requires off + 2 <= |w| && w[off..off + 2] == ToLe(x, 2)
    ensures U16At(w, off) == x
  {
    Widths();
    FromLeToLe(x, 2);
  }

  /** Reading back each field of an encoded record. */
  lemma EncodedFields(m: Msg)
    ensures var w := Encode(m);
            && U32At(w, 0) == m.magic && U16At(w, 4) == m.nbytes
            && KindOf(w[6]) == Some(m.kind) && SideOf(w[7]) == Some(m.side)
            && Fields(w) == m
  {
    var w := Encode(m);
    EncodeSlices(m);
    hide Encode, U16At, U32At, U64At, ToLe;
    U32AtToLe(w, 0, m.magic);
    U16AtToLe(w, 4, m.nbytes);
    U64AtToLe(w, 8, m.seqno);
    U64AtToLe(w, 16, m.tsNs);
    U64AtToLe(w, 48, AsU64(m.pxE8));
    U64AtToLe(w, 56, AsU64(m.qtyE8));
  }

  /** A record survives the wire exactly when its two header fields are right. */
  lemma DecodeEncode(m: Msg)
    ensures m.Valid() ==> Decode(Encode(m)) == Ok(m)
    ensures m.magic != MAGIC ==> Decode(Encode(m)) == Err(BadMagic)
    ensures m.magic == MAGIC && m.nbytes != MSG_SIZE ==> Decode(Encode(m)) == Err(BadDeclaredLength)
  {
    EncodedFields(m);
  }

  lemma U64Piece(b: seq<byte>, off: nat)
    requires off + 8 <= |b|
    ensures ToLe(U64At(b, off), 8) == b[off..off + 8]
  {
    ToLeFromLe(b[off..off + 8]);
  }

  lemma I64Piece(b: seq<byte>, off: nat)
    requires off + 8 <= |b|
    ensures ToLe(AsU64(AsI64(U64At(b, off))), 8) == b[off..off + 8]
  {
    U64Piece(b, off);
    assert AsU64(AsI64(U64At(b, off))) == U64At(b, off);
  }

  lemma HeaderPiece(b: seq<byte>)
    requires |b| == MSG_SIZE
    ensures ToLe(U32At(b, 0), 4) == b[0..4] && ToLe(U16At(b, 4), 2) == b[4..6]
  {
    ToLeFromLe(b[0..4]);
    ToLeFromLe(b[4..6]);
  }

  lemma DecodedPieces(b: seq<byte>, m: Msg)
    requires |b| == MSG_SIZE && KindOf(b[6]).Some? && SideOf(b[7]).Some? && m == Fields(b)
    ensures ToLe(m.magic, 4) == b[0..4] && ToLe(m.nbytes, 2) == b[4..6]
    ensures m.kind.Code() == b[6] && m.side.Code() == b[7]
    ensures ToLe(m.seqno, 8) == b[8..16] && ToLe(m.tsNs, 8) == b[16..24]
    ensures m.traceId == b[24..40] && m.spanId == b[40..48] && m.symbol == b[64..72]
    ensures ToLe(AsU64(m.pxE8), 8) == b[48..56] && ToLe(AsU64(m.qtyE8), 8) == b[56..64]
  {
    HeaderPiece(b);
    U64Piece(b, 8);
    U64Piece(b, 16);
    I64Piece(b, 48);
    I64Piece(b, 56);
  }

  /** Every byte of a span that decodes is determined by the record it decodes to. */
  lemma EncodeOfDecode(b: seq<byte>)
    requires Decode(b).Ok?
    ensures Decode(b).value.Valid() && Encode(Decode(b).value) == b
  {
    var m := Fields(b);
    DecodedPieces(b, m);
    EncodeSlices(m);
    SamePieces(Encode(m), b);
  }

  lemma SamePieces(v: seq<byte>, w: seq<byte>)
    requires |v| == |w| == MSG_SIZE
    requires v[0..4] == w[0..4] && v[4..6] == w[4..6] && v[6] == w[6] && v[7] == w[7]
    requires v[8..16] == w[8..16] && v[16..24] == w[16..24] && v[24..40] == w[24..40] && v[40..48] == w[40..48]
    requires v[48..56] == w[48..56] && v[56..64] == w[56..64] && v[64..72] == w[64..72]
    ensures v == w
  {
    assert forall s: seq<byte> | |s| == MSG_SIZE ::
        s == s[0..4] + s[4..6] + [s[6]] + [s[7]] + s[8..16] + s[16..24] + s[24..40] + s[40..48] + s[48..56] + s[56..64] + s[64..72];
  }

  /** The header check compares six bytes. */
  lemma HeaderIsSixBytes(b: seq<byte>)
    requires |b| >= MSG_SIZE
    ensures HeaderOk(b) <==> b[..6] == [0x42, 0x4C, 0x42, 0x4F, 72, 0]
  {
    var h := [0x42, 0x4C, 0x42, 0x4F, 72, 0];
    MagicBytes();
    ToLeFromLe(b[0..4]);
    ToLeFromLe(b[4..6]);
    assert h[0..4] == [0x42, 0x4C, 0x42, 0x4F] && h[4..6] == [72, 0];
    assert b[..6] == b[0..4] + b[4..6];
    assert b[..6] == h ==> b[..6][0..4] == b[0..4] && b[..6][4..6] == b[4..6];
  }

  /** Which spans decode, byte by byte. */
  lemma DecodesIffValidSpan(b: seq<byte>)
    ensures Decode(b).Ok? <==>
            |b| == MSG_SIZE && b[..6] == [0x42, 0x4C, 0x42, 0x4F, 72, 0] && 1 <= b[6] <= 4 && b[7] <= 2
  {
    if |b| == MSG_SIZE {
      HeaderIsSixBytes(b);
    }
  }

  lemma MagicBytes()
    ensures ToLe(MAGIC, 4) == [0x42, 0x4C, 0x42, 0x4F] && FromLe([0x42, 0x4C, 0x42, 0x4F]) == MAGIC
    ensures ToLe(72, 2) == [72, 0] && FromLe([72, 0]) == 72
  {
    assert ToLe(MAGIC, 4) == [0x42] + ToLe(0x4F424C, 3);
    assert ToLe(0x4F424C, 3) == [0x4C] + ToLe(0x4F42, 2);
    FromLeToLe(MAGIC, 4);
    Widths();
    FromLeToLe(72, 2);
  }

  /** The short form agrees with the full decode wherever the full decode succeeds. */
  lemma StampAgreesWithDecode(b: seq<byte>)
    requires Decode(b).Ok?
    ensures SeqAndStamp(b) == Some((Decode(b).value.seqno, Decode(b).value.tsNs))
  {
  }

  // ---------------------------------------------------------------------------
  // The layout, byte by byte
  // ---------------------------------------------------------------------------

  function ByteAt(b: seq<byte>, i: nat): int
    requires i < |b|
  {
    b[i]
  }

  /** Two, four and eight bytes from `off` on, the lowest first. */
  function Two(b: seq<byte>, off: nat): int
    requires off + 2 <= |b|
  {
    ByteAt(b, off) + 0x100 * ByteAt(b, off + 1)
  }

  function Four(b: seq<byte>, off: nat): int
    requires off + 4 <= |b|
  {
    Two(b, off) + 0x1_0000 * Two(b, off + 2)
  }

  function Eight(b: seq<byte>, off: nat): int
    requires off + 8 <= |b|
  {
    Four(b, off) + 0x1_0000_0000 * Four(b, off + 4)
  }

  lemma FromLeStep(b: seq<byte>, i: nat, j: nat)
    requires i < j <= |b|
    ensures FromLe(b[i..j]) == b[i] + 256 * FromLe(b[i + 1..j])
  {
    assert b[i..j][1..] == b[i + 1..j];
  }

  lemma EightIs(b: seq<byte>, off: nat)
    requires off + 8 <= |b|
    ensures U64At(b, off) == Eight(b, off)
  {
    hide FromLe;
    var end := off + 8;
    FromLeStep(b, off, end);
    FromLeStep(b, off + 1, end);
    FromLeStep(b, off + 2, end);
    FromLeStep(b, off + 3, end);
    FromLeStep(b, off + 4, end);
    FromLeStep(b, off + 5, end);
    FromLeStep(b, off + 6, end);
    FromLeStep(b, off + 7, end);
    NoBytes(b, end);
  }

  lemma NoBytes(b: seq<byte>, end: nat)
    requires end <= |b|
    ensures FromLe(b[end..end]) == 0
  {
  }

  /** What each byte of an encoded record is: the documented offsets, widths, order of bytes
      and codes. */
  lemma WireLayout(m: Msg)
    ensures var w := Encode(m);
            && Four(w, 0) == m.magic
            && Two(w, 4) == m.nbytes
            && w[6] == (match m.kind case Depth => 1 case Heartbeat => 2 case Cmd => 3 case DepthReset => 4)
            && w[7] == (match m.side case Bid => 0 case Ask => 1 case Both => 2)
            && Eight(w, 8) == m.seqno && Eight(w, 16) == m.tsNs
            && w[24..40] == m.traceId && w[40..48] == m.spanId
            && Eight(w, 48) == (if m.pxE8 < 0 then m.pxE8 + 0x1_0000_0000_0000_0000 else m.pxE8)
            && Eight(w, 56) == (if m.qtyE8 < 0 then m.qtyE8 + 0x1_0000_0000_0000_0000 else m.qtyE8)
            && w[64..72] == m.symbol
  {
    hide Encode, U64At, U32At, U16At, ToLe, Eight, Four, Two;
    var w := Encode(m);
    EncodeSlices(m);
    U64AtToLe(w, 8, m.seqno);
    U64AtToLe(w, 16, m.tsNs);
    U64AtToLe(w, 48, AsU64(m.pxE8));
    U64AtToLe(w, 56, AsU64(m.qtyE8));
    U32AtToLe(w, 0, m.magic);
    U16AtToLe(w, 4, m.nbytes);
    EightIs(w, 8);
    EightIs(w, 16);
    EightIs(w, 48);
    EightIs(w, 56);
    HeadIs(w);
  }

  lemma HeadIs(w: seq<byte>)
    requires |w| >= MSG_SIZE
    ensures U32At(w, 0) == Four(w, 0)
    ensures U16At(w, 4) == Two(w, 4)
  {
    hide FromLe;
    FromLeStep(w, 0, 4);
    FromLeStep(w, 1, 4);
    FromLeStep(w, 2, 4);
    FromLeStep(w, 3, 4);
    NoBytes(w, 4);
    FromLeStep(w, 4, 6);
    FromLeStep(w, 5, 6);
    NoBytes(w, 6);
  }

  /** Which spans are refused, and with which error; what a good one says is `WireLayout` of
      the record, whose encoding it is. */
  lemma DecodeAnswers(b: seq<byte>)
    ensures match Decode(b)
            case Err(BadLength) => |b| != MSG_SIZE
            case Err(BadMagic) => |b| == MSG_SIZE && b[..4] != [0x42, 0x4C, 0x42, 0x4F]
            case Err(BadDeclaredLength) => |b| == MSG_SIZE && b[..4] == [0x42, 0x4C, 0x42, 0x4F] && b[4..6] != [72, 0]
            case Err(UnknownKind) => |b| == MSG_SIZE && b[..6] == [0x42, 0x4C, 0x42, 0x4F, 72, 0] && !(1 <= b[6] <= 4)
            case Err(UnknownSide) => |b| == MSG_SIZE && b[..6] == [0x42, 0x4C, 0x42, 0x4F, 72, 0] && 1 <= b[6] <= 4 && b[7] > 2
            case Ok(m) => Encode(m) == b
  {
    hide Encode, FromLe, Four, Two;
    if |b| == MSG_SIZE {
      HeadIs(b);
      MagicIs(b);
      assert b[..4] == [b[0], b[1], b[2], b[3]] && b[4..6] == [b[4], b[5]] && b[..6] == b[..4] + b[4..6];
    }
    if Decode(b).Ok? {
      EncodeOfDecode(b);
    }
  }

  lemma MagicIs(b: seq<byte>)
    requires |b| >= MSG_SIZE
    ensures Four(b, 0) == MAGIC <==>
            b[0] == 0x42 && b[1] == 0x4C && b[2] == 0x42 && b[3] == 0x4F
    ensures Two(b, 4) == 72 <==> b[4] == 72 && b[5] == 0
  {
  }

  /** The short form: the number and the stamp of any span whose six header bytes are right. */
  lemma SeqAndStampIs(b: seq<byte>)
    ensures SeqAndStamp(b).Some? <==> |b| >= MSG_SIZE && b[..6] == [0x42, 0x4C, 0x42, 0x4F, 72, 0]
    ensures SeqAndStamp(b).Some? ==> SeqAndStamp(b).value.0 == Eight(b, 8) && SeqAndStamp(b).value.1 == Eight(b, 16)
  {
    hide U64At;
    if |b| >= MSG_SIZE {
      HeaderIsSixBytes(b);
      EightIs(b, 8);
      EightIs(b, 16);
    }
  }
}
