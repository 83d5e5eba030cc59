/** The EAP packet codec (section 4 of RFC 3748). A packet's wire form is code, identifier, a two-byte
    length that counts the whole packet, a type byte for requests and responses only, and the data. */
module EapCodec {
  import opened Base

  const CODE_REQUEST: byte := 1
  const CODE_RESPONSE: byte := 2
  const CODE_SUCCESS: byte := 3
  const CODE_FAILURE: byte := 4
  const MAX_EAP_SIZE := 65535

  datatype Packet = Packet(code: byte, id: byte, length: nat, typ: byte, data: bytes)

  datatype ParseError = InvalidPacket | UnexpectedLength

  predicate ValidCode(code: byte) { CODE_REQUEST <= code <= CODE_FAILURE }

  predicate HasType(code: byte) { code == CODE_REQUEST || code == CODE_RESPONSE }

  function Header(code: byte): nat { if HasType(code) then 5 else 4 }

  function Uint16(hi: byte, lo: byte): nat { 256 * (hi as int) + lo as int }

  function Parse(data: bytes): Result<Packet, ParseError> {
    if |data| < 4 then Failure(InvalidPacket)
    else
      var length := Uint16(data[2], data[3]);
      if length != |data| then Failure(UnexpectedLength)
      else if length > MAX_EAP_SIZE then Failure(InvalidPacket)
      else if !ValidCode(data[0]) then Failure(InvalidPacket)
      else if HasType(data[0]) then
        if |data| < 5 then Failure(InvalidPacket)
        else Success(Packet(data[0], data[1], length, data[4], data[5..]))
      else Success(Packet(data[0], data[1], length, 0, data[4..]))
  }

  /** The length Encode writes: header plus data, cut off at the 16-bit maximum. */
  function WireLength(p: Packet): nat { Min(Header(p.code) + |p.data|, MAX_EAP_SIZE) }

  function Encoding(p: Packet): bytes {
    var length := WireLength(p);
    [p.code, p.id, length / 256, length % 256]
    + (if HasType(p.code) then [p.typ] else [])
    + p.data[..length - Header(p.code)]
  }

  method Encode(p: Packet) returns (wire: bytes)
    ensures wire == Encoding(p)
  {
    var length := 4;
    if p.code == CODE_REQUEST || p.code == CODE_RESPONSE {
      length := length + 1;
    }
    var start := length;
    length := length + |p.data|;
    if length > MAX_EAP_SIZE {
      length := MAX_EAP_SIZE;
    }
    var buf := new byte[length](_ => 0);
    buf[0], buf[1], buf[2], buf[3] := p.code, p.id, length / 256, length % 256;
    if start == 5 {
      buf[4] := p.typ;
    }
    assert buf[..start] == [p.code, p.id, length / 256, length % 256] + if start == 5 then [p.typ] else [];
    CopyInto(buf, start, p.data);
    wire := buf[..];
  }

  /** The wire format byte by byte, as section 4 of RFC 3748 has it: a byte string is a packet exactly when its third and
      fourth byte give its length and its first is Request (1) or Response (2), which carry a type byte, or Success (3)
      or Failure (4), which do not. Anything else is refused, a wrong length first. */
  lemma ParseIff(data: bytes)
    ensures Parse(data).Success?
            <==> && |data| >= 4 && 256 * (data[2] as int) + data[3] as int == |data|
                 && ((1 <= data[0] <= 2 && |data| >= 5) || 3 <= data[0] <= 4)
    ensures Parse(data).Success? ==>
              var p := Parse(data).value;
              && (p.code, p.id, p.length) == (data[0], data[1], |data|)
              && (1 <= data[0] <= 2 ==> p.typ == data[4] && p.data == data[5..])
              && (3 <= data[0] <= 4 ==> p.typ == 0 && p.data == data[4..])
    ensures Parse(data) == Failure(UnexpectedLength) <==> |data| >= 4 && 256 * (data[2] as int) + data[3] as int != |data|
  {
  }

  /** Parsing an encoded packet gives it back, with its data cut to what fits and its length set; only an
      unknown code is refused. */
  lemma ParseEncoding(p: Packet)
    ensures ValidCode(p.code) ==>
              Parse(Encoding(p)) == Success(Packet(p.code, p.id, WireLength(p), if HasType(p.code) then p.typ else 0,
                                                   p.data[..WireLength(p) - Header(p.code)]))
    ensures !ValidCode(p.code) ==> Parse(Encoding(p)) == Failure(InvalidPacket)
  {
    var wire, length := Encoding(p), WireLength(p);
    assert |wire| == length && Uint16(wire[2], wire[3]) == length;
    assert wire[Header(p.code)..] == p.data[..length - Header(p.code)];
  }

  /** The data survives the round trip exactly when the packet fits in 65535 bytes. */
  lemma RoundTripIffFits(p: Packet)
    requires ValidCode(p.code)
    ensures (Parse(Encoding(p)).Success? && Parse(Encoding(p)).value.data == p.data)
            <==> Header(p.code) + |p.data| <= MAX_EAP_SIZE
  {
    ParseEncoding(p);
    if Header(p.code) + |p.data| > MAX_EAP_SIZE {
      assert |p.data[..WireLength(p) - Header(p.code)]| < |p.data|;
    }
  }

  /** Every byte string that parses is the encoding of what it parses to. */
  lemma EncodingOfParse(wire: bytes)
    requires Parse(wire).Success?
    ensures Encoding(Parse(wire).value) == wire
  {
    var p := Parse(wire).value;
    assert WireLength(p) == |wire|;
    assert p.data[..|wire| - Header(p.code)] == wire[Header(p.code)..];
    assert wire == wire[..4] + wire[4..];
  }
}
