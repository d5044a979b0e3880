/** Payloads of the single-hop overlay (packages/protocol/src/overlay.ts). */
module Overlay {
  import opened Bytes
  import opened Text
  import opened Wrappers
  import Scope

  const HANDSHAKE_MESSAGE_SIZE := 48
  const MAX_STREAM_DATA := 65535 - 25 - 1

  // ---------------------------------------------------------------------
  // CIRCUIT_CREATE
  // ---------------------------------------------------------------------

  const BOM: Bytes := [0xEF, 0xBB, 0xBF]

  function StripBom(b: Bytes): Bytes { if BOM <= b then b[3..] else b }

  /** A fatal UTF-8 text decoder: `None` where it throws. */
  type TextDecoder = Bytes -> Option<JsString>

  /** It inverts the encoder after dropping one leading byte order mark, and accepts nothing else. */
  ghost predicate DecodesUtf8(decode: TextDecoder)
  {
    && (forall b: Bytes, s: JsString :: WellFormed(s) && StripBom(b) == Utf8(s) ==> decode(b) == Some(s))
    && (forall b: Bytes :: decode(b).Some? ==> WellFormed(decode(b).value) && StripBom(b) == Utf8(decode(b).value))
  }

  function EncodeCircuitCreate(name: JsString, message1: Bytes): (r: Result<Bytes>)
  {
    if !Scope.IsValidScope(name) || |message1| != HANDSHAKE_MESSAGE_SIZE then Err
    else
      var nameBytes := Utf8(name);
      Ok([|nameBytes| % 256] + nameBytes + message1)
  }

  function DecodeCircuitCreate(payload: Bytes, decode: TextDecoder): (r: Result<(JsString, Bytes)>)
  {
    if |payload| < 2 + HANDSHAKE_MESSAGE_SIZE then Err
    else
      var n := payload[0];
      if n == 0 || |payload| != 1 + n + HANDSHAKE_MESSAGE_SIZE then Err
      else
        var name := decode(payload[1..1 + n]);
        if name.None? || !Scope.IsValidScope(name.value) then Err else Ok((name.value, payload[1 + n..]))
  }

  /** A canonical name is sent as its own characters, one byte each. */
  lemma NameBytes(name: JsString)
    requires Scope.IsValidScope(name)
    ensures WellFormed(name) && 0 < |Utf8(name)| == |name| <= 253 && !(BOM <= Utf8(name))
  {
    Scope.ScopeAscii(name);
    AsciiUtf8(name);
  }

  lemma CreateRoundTrip(name: JsString, message1: Bytes, decode: TextDecoder)
    requires DecodesUtf8(decode) && EncodeCircuitCreate(name, message1).Ok?
    ensures DecodeCircuitCreate(EncodeCircuitCreate(name, message1).value, decode) == Ok((name, message1))
  {
    NameBytes(name);
    hide Utf8, Scope.IsValidScope, WellFormed;
    var n := Utf8(name);
    var payload := EncodeCircuitCreate(name, message1).value;
    assert payload == [|n|] + n + message1;
    assert payload[1..1 + |n|] == n && payload[1 + |n|..] == message1;
    assert StripBom(n) == Utf8(name);
  }

  /**
   Accepted bytes re-encode to themselves if and only if the routing name does
   not begin with a byte order mark, which the decoder drops.
   */
  lemma CreateCanonicalIff(payload: Bytes, decode: TextDecoder)
    requires DecodesUtf8(decode) && DecodeCircuitCreate(payload, decode).Ok?
    ensures var (name, message1) := DecodeCircuitCreate(payload, decode).value;
            EncodeCircuitCreate(name, message1) == Ok(payload) <==> !(BOM <= payload[1..1 + payload[0]])
  {
    var n := payload[0];
    var raw := payload[1..1 + n];
    var (name, message1) := DecodeCircuitCreate(payload, decode).value;
    NameBytes(name);
    hide Utf8, Scope.IsValidScope, WellFormed;
    assert StripBom(raw) == Utf8(name);
    if BOM <= raw {
      assert |Utf8(name)| == |raw| - 3;
      assert |[|Utf8(name)| % 256] + Utf8(name) + message1| < |payload|;
    } else {
      assert payload == [n] + raw + message1;
    }
  }

  /** Such bytes are accepted: the same name with and without the mark. */
  lemma CreateNotCanonical(name: JsString, message1: Bytes, decode: TextDecoder)
    requires DecodesUtf8(decode) && EncodeCircuitCreate(name, message1).Ok? && |name| <= 252
    ensures var n := BOM + Utf8(name);
            DecodeCircuitCreate([|n| % 256] + n + message1, decode) == Ok((name, message1))
  {
    NameBytes(name);
    hide Utf8, Scope.IsValidScope, WellFormed;
    var n := BOM + Utf8(name);
    var payload := [|n| % 256] + n + message1;
    assert payload == [|n|] + n + message1;
    assert payload[1..1 + |n|] == n && payload[1 + |n|..] == message1;
    assert StripBom(n) == Utf8(name);
  }

  // ---------------------------------------------------------------------
  // CIRCUIT_DESTROY and HELLO_ACK
  // ---------------------------------------------------------------------

  function EncodeDestroy(reason: int): (r: Result<Bytes>)
  {
    if 0 <= reason < 0x1_0000 then Ok(BigEndian(reason, 2)) else Err
  }

  function DecodeDestroy(payload: Bytes): (r: Result<nat>)
  {
    if |payload| != 2 then Err else Ok(FromBigEndian(payload))
  }

  /** Both directions: a reason in range survives, and any accepted payload is its own encoding. */
  lemma DestroyInverse(reason: int, payload: Bytes)
    ensures EncodeDestroy(reason).Ok? ==> DecodeDestroy(EncodeDestroy(reason).value) == Ok(reason)
    ensures DecodeDestroy(payload).Ok? ==> EncodeDestroy(DecodeDestroy(payload).value) == Ok(payload)
  {
    hide BigEndian, FromBigEndian;
    Widths();
    if 0 <= reason < 0x1_0000 {
      BigEndianRoundTrip(reason, 2);
    }
    BigEndianOnto(payload);
  }

  function EncodeRelayHelloAck(relayKey: Bytes, signature: Bytes): (r: Result<Bytes>)
  {
    if |relayKey| != 32 || |signature| != 64 then Err else Ok(relayKey + signature)
  }

  function DecodeRelayHelloAck(payload: Bytes): (r: Result<(Bytes, Bytes)>)
  {
    if |payload| != 96 then Err else Ok((payload[..32], payload[32..]))
  }

  lemma HelloAckInverse(relayKey: Bytes, signature: Bytes, payload: Bytes)
    ensures EncodeRelayHelloAck(relayKey, signature).Ok? ==>
              DecodeRelayHelloAck(EncodeRelayHelloAck(relayKey, signature).value) == Ok((relayKey, signature))
    ensures DecodeRelayHelloAck(payload).Ok? ==>
              var (k, s) := DecodeRelayHelloAck(payload).value; EncodeRelayHelloAck(k, s) == Ok(payload)
  {
    if |payload| == 96 {
      assert payload[..32] + payload[32..] == payload;
    }
    if |relayKey| == 32 {
      assert (relayKey + signature)[..32] == relayKey && (relayKey + signature)[32..] == signature;
    }
  }

  // ---------------------------------------------------------------------
  // Stream messages
  // ---------------------------------------------------------------------

  datatype StreamMessage =
    | Open(port: int) | Opened | Data(data: Bytes) | Reset(code: int) | WindowCredit(credit: int) | Fin

  function EncodeStreamMessage(m: StreamMessage): (r: Result<Bytes>)
  {
    match m
    case Open(port) => if 1 <= port < 0x1_0000 then Ok([1] + BigEndian(port, 2)) else Err
    case Opened => Ok([2])
    case Data(data) => if 0 < |data| <= MAX_STREAM_DATA then Ok([3] + data) else Err
    case Reset(code) => if 0 <= code < 0x1_0000 then Ok([4] + BigEndian(code, 2)) else Err
    case WindowCredit(credit) => if 1 <= credit < 0x1_0000_0000 then Ok([5] + BigEndian(credit, 4)) else Err
    case Fin => Ok([6])
  }

  function DecodeStreamMessage(b: Bytes): (r: Result<StreamMessage>)
  {
    if |b| == 0 then Err
    else if b[0] == 1 then if |b| != 3 || FromBigEndian(b[1..]) == 0 then Err else Ok(Open(FromBigEndian(b[1..])))
    else if b[0] == 2 then if |b| != 1 then Err else Ok(Opened)
    else if b[0] == 3 then if |b| < 2 then Err else Ok(Data(b[1..]))
    else if b[0] == 4 then if |b| != 3 then Err else Ok(Reset(FromBigEndian(b[1..])))
    else if b[0] == 5 then
      if |b| != 5 || FromBigEndian(b[1..]) == 0 then Err
      else Ok(WindowCredit(FromBigEndian(b[1..])))
    else if b[0] == 6 then if |b| != 1 then Err else Ok(Fin)
    else Err
  }

  /** The type byte on the wire, by message. */
  function TagOf(m: StreamMessage): byte
  {
    if m.Open? then 1 else if m.Opened? then 2 else if m.Data? then 3 else if m.Reset? then 4
    else if m.WindowCredit? then 5 else 6
  }

  /** The fixed width of what follows the type byte, for all but DATA. */
  function WidthOf(m: StreamMessage): nat
    requires !m.Data?
  {
    if m.Open? || m.Reset? then 2 else if m.WindowCredit? then 4 else 0
  }

  /** Bytes are read as `m` if and only if they are its type byte, then its number at its width or its data. */
  lemma StreamReadIff(b: Bytes, m: StreamMessage)
    ensures DecodeStreamMessage(b) == Ok(m)
       <==> && b != [] && b[0] == TagOf(m)
            && (m.Data? ==> m.data != [] && b[1..] == m.data)
            && (!m.Data? ==> |b| == 1 + WidthOf(m))
            && (m.Open? ==> m.port == FromBigEndian(b[1..]) > 0)
            && (m.Reset? ==> m.code == FromBigEndian(b[1..]))
            && (m.WindowCredit? ==> m.credit == FromBigEndian(b[1..]) > 0)
  {
    hide FromBigEndian;
  }

  lemma StreamRoundTrip(m: StreamMessage)
    requires EncodeStreamMessage(m).Ok?
    ensures DecodeStreamMessage(EncodeStreamMessage(m).value) == Ok(m)
  {
    hide BigEndian, FromBigEndian;
    Widths();
    var b := EncodeStreamMessage(m).value;
    match m
    case Open(port) =>
      BigEndianRoundTrip(port, 2);
      assert b[1..] == BigEndian(port, 2);
    case Data(data) => assert b[1..] == data;
    case Reset(code) =>
      BigEndianRoundTrip(code, 2);
      assert b[1..] == BigEndian(code, 2);
    case WindowCredit(credit) =>
      BigEndianRoundTrip(credit, 4);
      assert b[1..] == BigEndian(credit, 4);
    case Opened =>
    case Fin =>
  }

  /** Accepted bytes re-encode to themselves if and only if they are not DATA beyond the largest chunk. */
  lemma StreamCanonicalIff(b: Bytes)
    requires DecodeStreamMessage(b).Ok?
    ensures EncodeStreamMessage(DecodeStreamMessage(b).value) == Ok(b) <==> (b[0] == 3 ==> |b| <= 1 + MAX_STREAM_DATA)
  {
    hide BigEndian, FromBigEndian;
    Widths();
    BigEndianOnto(b[1..]);
    assert b == [b[0]] + b[1..];
    assert |b| == 1 ==> b == [b[0]];
    assert b[0] == 3 && |b| > 1 + MAX_STREAM_DATA ==> EncodeStreamMessage(Data(b[1..])) == Err;
  }
}
