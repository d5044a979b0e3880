/** Wire frames (packages/protocol/src/frame.ts). */
module Frame {
  import opened Bytes
  import opened Text
  import opened Wrappers

  const PROTOCOL_VERSION: byte := 1
  const HEADER_SIZE := 20
  const MAX_FRAME_PAYLOAD := 65535
  const MAX_ERROR_DETAIL := 256
  const STREAM_CLOSE := 0x24
  const ERROR_FRAME := 0x30

  predicate IsFrameType(t: int)
  {
    1 <= t <= 7 || 0x10 <= t <= 0x15 || 0x20 <= t <= 0x25 || t == ERROR_FRAME
  }

  /** The highest flag word a type may carry; the allowed bits are the low ones. */
  function MaxFlags(t: int): nat { if t == STREAM_CLOSE then 3 else 0 }

  /** `flags & ~allowed` is zero; bitwise operators see only the low 32 bits. */
  predicate FlagsAllowed(t: int, flags: nat) { flags % 0x1_0000_0000 <= MaxFlags(t) }

  /** What a caller asks to encode: any integers. */
  datatype Options = Options(frameType: int, flags: int, circuitId: int, streamId: int, payload: Bytes)

  datatype WireFrame = WireFrame(frameType: byte, flags: nat, circuitId: nat, streamId: nat, payload: Bytes)

  predicate Encodable(o: Options)
  {
    && IsFrameType(o.frameType) && |o.payload| <= MAX_FRAME_PAYLOAD
    && o.flags >= 0 && FlagsAllowed(o.frameType, o.flags)
    && 0 <= o.circuitId < 0x1_0000_0000_0000_0000 && 0 <= o.streamId < 0x1_0000_0000
  }

  function Header(t: byte, flags: nat, circuitId: nat, streamId: nat, length: nat): (h: Bytes)
    ensures |h| == HEADER_SIZE
  {
    [PROTOCOL_VERSION, t] + BigEndian(flags, 2) + BigEndian(circuitId, 8) + BigEndian(streamId, 4)
      + BigEndian(length, 4)
  }

  function EncodeSpec(o: Options): (r: Result<Bytes>)
  {
    if Encodable(o) then Ok(Header(o.frameType, o.flags, o.circuitId, o.streamId, |o.payload|) + o.payload) else Err
  }

  datatype Decoded = Frame(frame: WireFrame) | UnsupportedVersion | Violation

  function DecodeFrame(data: Bytes): (r: Decoded)
  {
    if |data| < HEADER_SIZE then Violation
    else if data[0] != PROTOCOL_VERSION then UnsupportedVersion
    else if !IsFrameType(data[1]) then Violation
    else
      var flags := FromBigEndian(data[2..4]);
      var length := FromBigEndian(data[16..20]);
      if !FlagsAllowed(data[1], flags) then Violation
      else if length > MAX_FRAME_PAYLOAD then Violation
      else if |data| != HEADER_SIZE + length then Violation
      else Frame(WireFrame(data[1], flags, FromBigEndian(data[4..12]), FromBigEndian(data[12..16]), data[20..]))
  }

  // ---------------------------------------------------------------------
  // Exact inverses
  // ---------------------------------------------------------------------

  lemma HeaderFields(t: byte, flags: nat, circuitId: nat, streamId: nat, length: nat, payload: Bytes)
    ensures var b := Header(t, flags, circuitId, streamId, length) + payload;
            && b[0] == PROTOCOL_VERSION && b[1] == t && b[2..4] == BigEndian(flags, 2)
            && b[4..12] == BigEndian(circuitId, 8)
            && b[12..16] == BigEndian(streamId, 4) && b[16..20] == BigEndian(length, 4) && b[20..] == payload
  {
    hide BigEndian;
  }

  /** A 16-bit store of a flag word keeps what the mask let through. */
  lemma FlagsStored(t: int, flags: nat)
    requires FlagsAllowed(t, flags)
    ensures FromBigEndian(BigEndian(flags, 2)) == flags % 0x1_0000_0000
  {
    var low, high := flags % 0x1_0000_0000, flags / 0x1_0000_0000;
    TwoBytes(flags);
    LowBytes(flags, high, low);
    FromTwo((flags / 256) % 256, flags % 256);
  }

  lemma TwoBytes(v: nat)
    ensures BigEndian(v, 2) == [(v / 256) % 256, v % 256]
  {
    assert BigEndian(v / 256 / 256, 0) == [];
    assert BigEndian(v / 256, 1) == [(v / 256) % 256];
  }

  lemma LowBytes(v: nat, high: nat, low: nat)
    requires v == high * 0x1_0000_0000 + low && low < 256
    ensures v % 256 == low && (v / 256) % 256 == 0
  {
    assert v == (high * 0x100_0000) * 256 + low;
    assert v / 256 == high * 0x100_0000 == (high * 0x1_0000) * 256;
  }

  lemma FromTwo(a: byte, b: byte)
    ensures FromBigEndian([a, b]) == a * 256 + b
  {
    assert [a, b][..1] == [a] && [a][..0] == [];
    assert FromBigEndian([a]) == a by { assert FromBigEndian([]) == 0; }
  }

  /** What was encoded decodes to the frame asked for, with the low 32 bits of its flag word. */
  lemma DecodesWhatWasEncoded(o: Options)
    requires Encodable(o)
    ensures DecodeFrame(EncodeSpec(o).value)
         == Frame(WireFrame(o.frameType, o.flags % 0x1_0000_0000, o.circuitId, o.streamId, o.payload))
  {
    HeaderFields(o.frameType, o.flags, o.circuitId, o.streamId, |o.payload|, o.payload);
    hide Header, BigEndian, FromBigEndian;
    Widths();
    FlagsStored(o.frameType, o.flags);
    BigEndianRoundTrip(o.circuitId, 8);
    BigEndianRoundTrip(o.streamId, 4);
    BigEndianRoundTrip(|o.payload|, 4);
  }

  /**
   So the round trip is exact if and only if the flag word fits in 32 bits: larger
   multiples of 2^32 pass the mask unseen.
   */
  lemma FrameRoundTripIff(o: Options)
    requires Encodable(o)
    ensures DecodeFrame(EncodeSpec(o).value)
            == Frame(WireFrame(o.frameType, o.flags, o.circuitId, o.streamId, o.payload))
       <==> o.flags < 0x1_0000_0000
  {
    DecodesWhatWasEncoded(o);
  }

  lemma LargeFlagsCounterexample()
    ensures var o := Options(5, 0x1_0000_0000, 0, 0, []);
            Encodable(o) && DecodeFrame(EncodeSpec(o).value) == Frame(WireFrame(5, 0, 0, 0, []))
  {
    DecodesWhatWasEncoded(Options(5, 0x1_0000_0000, 0, 0, []));
  }

  function OptionsOf(f: WireFrame): Options { Options(f.frameType, f.flags, f.circuitId, f.streamId, f.payload) }

  /** Any accepted bytes are the encoding of the frame they decode to. */
  lemma EncodesWhatWasDecoded(data: Bytes)
    requires DecodeFrame(data).Frame?
    ensures EncodeSpec(OptionsOf(DecodeFrame(data).frame)) == Ok(data)
  {
    var f := DecodeFrame(data).frame;
    Widths();
    BigEndianOnto(data[2..4]);
    BigEndianOnto(data[4..12]);
    BigEndianOnto(data[12..16]);
    BigEndianOnto(data[16..20]);
    hide BigEndian, FromBigEndian;
    SplitFrame(data);
  }

  lemma SplitFrame(data: Bytes)
    requires |data| >= HEADER_SIZE
    ensures data == [data[0], data[1]] + data[2..4] + data[4..12] + data[12..16] + data[16..20] + data[20..]
  {
  }

  // ---------------------------------------------------------------------
  // Filling the buffer
  // ---------------------------------------------------------------------

  /** `setUint16`, `setUint32` and `setBigUint64`, big-endian. */
  method Put(a: array<byte>, at: nat, width: nat, value: nat)
    requires at + width <= a.Length
    modifies a
    ensures a[at..at + width] == BigEndian(value, width)
    ensures forall i | 0 <= i < a.Length && !(at <= i < at + width) :: a[i] == old(a[i])
  {
    var v, i := value, width;
    while i > 0
      invariant 0 <= i <= width
      invariant BigEndian(value, width) == BigEndian(v, i) + a[at + i..at + width]
      invariant forall j | 0 <= j < a.Length && !(at <= j < at + width) :: a[j] == old(a[j])
    {
      ghost var done := a[at + i..at + width];
      i := i - 1;
      a[at + i] := v % 256;
      assert a[at + i..at + width] == [v % 256] + done;
      v := v / 256;
    }
  }

  method EncodeFrame(o: Options) returns (r: Result<Bytes>)
    ensures r == EncodeSpec(o)
  {
    hide BigEndian, FlagsAllowed;
    if !Encodable(o) {
      return Err;
    }
    var frame := new byte[HEADER_SIZE + |o.payload|](_ => 0);
    frame[0], frame[1] := PROTOCOL_VERSION, o.frameType;
    Put(frame, 2, 2, o.flags);
    ghost var s1 := frame[..4];
    assert s1 == [PROTOCOL_VERSION, o.frameType] + BigEndian(o.flags, 2);
    Put(frame, 4, 8, o.circuitId);
    ghost var s2 := frame[..12];
    assert s2 == s1 + BigEndian(o.circuitId, 8);
    Put(frame, 12, 4, o.streamId);
    ghost var s3 := frame[..16];
    assert s3 == s2 + BigEndian(o.streamId, 4);
    Put(frame, 16, 4, |o.payload|);
    ghost var s4 := frame[..20];
    assert s4 == s3 + BigEndian(|o.payload|, 4);
    forall i | 0 <= i < |o.payload| {
      frame[HEADER_SIZE + i] := o.payload[i];
    }
    assert frame[..] == s4 + o.payload;
    r := Ok(frame[..]);
  }

  // ---------------------------------------------------------------------
  // ERROR payloads
  // ---------------------------------------------------------------------

  datatype WireError = WireError(code: nat, scope: byte, detail: Bytes)

  function DecodeError(payload: Bytes): (r: Result<WireError>)
  {
    if |payload| < 3 || |payload| > 3 + MAX_ERROR_DETAIL then Err
    else Ok(WireError(FromBigEndian(payload[..2]), payload[2], payload[3..]))
  }

  const BYTE_ORDER_MARK: Scalar := 0xFEFF

  function WithoutMark(cs: seq<Scalar>): seq<Scalar> { if cs != [] && cs[0] == BYTE_ORDER_MARK then cs[1..] else cs }

  /** A lenient text decoder reads well-formed UTF-8 as its characters, but for a leading byte order mark. */
  ghost predicate Lenient(decode: Bytes -> JsString)
  {
    forall cs: seq<Scalar> :: decode(EncodeScalars(cs)) == Units(WithoutMark(cs))
  }

  /** The longest prefix of the detail's bytes, of at most 256, that ends on a character boundary. */
  ghost predicate Shortened(detail: JsString, text: Bytes)
  {
    && text <= Utf8(detail) && |text| <= MAX_ERROR_DETAIL && IsBoundary(Scalars(detail), |text|)
    && forall p: nat | |text| < p <= MAX_ERROR_DETAIL && p <= |Utf8(detail)| :: !IsBoundary(Scalars(detail), p)
  }

  /** The receiver reads the first `k` characters of the detail, for some `k`, and never half of one. */
  lemma DetailRead(detail: JsString, text: Bytes, decode: Bytes -> JsString) returns (k: nat)
    requires Lenient(decode) && Shortened(detail, text)
    ensures k <= |Scalars(detail)| && text == EncodeScalars(Scalars(detail)[..k])
    ensures decode(text) == Units(WithoutMark(Scalars(detail)[..k]))
    ensures k == |Scalars(detail)| <==> |Utf8(detail)| <= MAX_ERROR_DETAIL
  {
    var cs := Scalars(detail);
    k :| 0 <= k <= |cs| && |EncodeScalars(cs[..k])| == |text|;
    PrefixEncoding(cs, k);
    assert cs[..|cs|] == cs;
    assert IsBoundary(cs, |EncodeScalars(cs)|);
    assert Utf8(detail)[..|text|] == text;
    if |Utf8(detail)| <= MAX_ERROR_DETAIL {
      EncodeScalarsInjective(cs, cs[..k]);
    }
  }

  /**
   The receiver reads exactly the detail sent if and only if it fits in 256
   bytes, has no lone surrogate and does not begin with a byte order mark.
   */
  lemma DetailReadIff(detail: JsString, text: Bytes, decode: Bytes -> JsString)
    requires Lenient(decode) && Shortened(detail, text)
    ensures decode(text) == detail
       <==> |Utf8(detail)| <= MAX_ERROR_DETAIL && WellFormed(detail) && !(detail != [] && detail[0] == BYTE_ORDER_MARK)
  {
    var k := DetailRead(detail, text, decode);
    var cs := Scalars(detail);
    var read := WithoutMark(cs[..k]);
    hide Utf8, IsBoundary, EncodeScalars, Shortened;
    ScalarsOfUnits(read);
    assert cs[..|cs|] == cs;
    if WellFormed(detail) {
      UnitsOfScalars(detail);
      if detail != [] && detail[0] == BYTE_ORDER_MARK {
        assert cs[0] == BYTE_ORDER_MARK;
      }
    }
  }

  /**
   `encodeError`: the receiver always accepts it, reads the same code and scope,
   and gets the longest prefix of the detail of at most 256 bytes that ends on a
   character boundary.
   */
  method EncodeError(code: nat, scope: byte, detail: JsString, circuitId: nat, streamId: nat)
    returns (r: Bytes, ghost text: Bytes)
    requires code < 0x1_0000 && circuitId < 0x1_0000_0000_0000_0000 && streamId < 0x1_0000_0000
    ensures Shortened(detail, text)
    ensures DecodeFrame(r).Frame? && DecodeFrame(r).frame.frameType == ERROR_FRAME
            && DecodeFrame(r).frame.circuitId == circuitId
            && DecodeFrame(r).frame.streamId == streamId
            && DecodeError(DecodeFrame(r).frame.payload) == Ok(WireError(code, scope, text))
  {
    hide Utf8, IsBoundary, DecodeFrame, BigEndian, FromBigEndian;
    var bytes := TruncateUtf8(detail, MAX_ERROR_DETAIL);
    text := bytes;
    var payload := BigEndian(code, 2) + [scope] + bytes;
    assert payload[..2] == BigEndian(code, 2) && payload[3..] == bytes;
    Widths();
    BigEndianRoundTrip(code, 2);
    var o := Options(ERROR_FRAME, 0, circuitId, streamId, payload);
    DecodesWhatWasEncoded(o);
    var encoded := EncodeFrame(o);
    r := encoded.value;
  }
}
