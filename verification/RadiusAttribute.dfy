/** The RADIUS attribute codec (section 5 of RFC 2865), EAP-Message chunking (section 3.1 of RFC 3579), and
    the scanner that reads the State attribute straight from a packet. An attribute is a type byte, a
    length byte that counts the whole attribute, and a value. */
module RadiusAttribute {
  import opened Base

  const ATTR_STATE: byte := 24
  const ATTR_EAP_MESSAGE: byte := 79
  const HEADER_SIZE := 20
  const MAX_VALUE := 253

  datatype Attr = Attr(typ: byte, value: bytes)

  datatype DecodeError = Truncated | InvalidLength | ExtendsBeyondData

  // ---- Decoding ----

  /** `data` starts with a whole attribute. */
  predicate HeadOk(data: bytes) { |data| >= 2 && 2 <= data[1] <= |data| }

  /** The attributes that can be read one after the other from the front of `data`... */
  function Prefix(data: bytes): seq<Attr> {
    if HeadOk(data) then [Attr(data[0], data[2..data[1]])] + Prefix(data[data[1]..]) else []
  }

  /** ...and the bytes where that stops. */
  function Rest(data: bytes): bytes {
    if HeadOk(data) then Rest(data[data[1]..]) else data
  }

  function ErrorAt(rest: bytes): DecodeError {
    if |rest| < 2 then Truncated else if rest[1] < 2 then InvalidLength else ExtendsBeyondData
  }

  function Decoded(data: bytes): Result<seq<Attr>, DecodeError> {
    if Rest(data) == [] then Success(Prefix(data)) else Failure(ErrorAt(Rest(data)))
  }

  lemma ReadAt(data: bytes, offset: nat)
    requires offset + 2 <= |data| && data[offset + 1] >= 2 && offset + data[offset + 1] <= |data|
    ensures var end := offset + data[offset + 1];
            && Prefix(data[offset..]) == [Attr(data[offset], data[offset + 2..end])] + Prefix(data[end..])
            && Rest(data[offset..]) == Rest(data[end..])
  {
    var tail, len := data[offset..], data[offset + 1];
    assert data[offset + 2..offset + len] == tail[2..len] && data[offset + len..] == tail[len..];
  }

  lemma StuckAt(data: bytes, offset: nat)
    requires offset < |data| && !HeadOk(data[offset..])
    ensures Rest(data[offset..]) == data[offset..] != []
  {
  }

  method DecodeAttributes(data: bytes) returns (r: Result<seq<Attr>, DecodeError>)
    ensures r == Decoded(data)
  {
    hide Prefix, Rest;
    var attrs, offset := [], 0;
    assert data[0..] == data;
    while offset < |data|
      invariant 0 <= offset <= |data|
      invariant Prefix(data) == attrs + Prefix(data[offset..]) && Rest(data) == Rest(data[offset..])
    {
      if offset + 2 > |data| {
        StuckAt(data, offset);
        return Failure(Truncated);
      }
      var attrType, attrLen := data[offset], data[offset + 1];
      if attrLen < 2 {
        StuckAt(data, offset);
        return Failure(InvalidLength);
      }
      if offset + attrLen > |data| {
        StuckAt(data, offset);
        return Failure(ExtendsBeyondData);
      }
      ReadAt(data, offset);
      Assoc(attrs, [Attr(attrType, data[offset + 2..offset + attrLen])], Prefix(data[offset + attrLen..]));
      attrs := attrs + [Attr(attrType, data[offset + 2..offset + attrLen])];
      offset := offset + attrLen;
    }
    NothingLeft(data[offset..]);
    assert attrs + [] == attrs;
    return Success(attrs);
  }

  lemma NothingLeft(data: bytes)
    requires data == []
    ensures Prefix(data) == [] && Rest(data) == []
  {
  }

  // ---- Encoding ----

  predicate Fits(attrs: seq<Attr>) { forall i | 0 <= i < |attrs| :: |attrs[i].value| <= MAX_VALUE }

  /** The wire form of one attribute; the length byte keeps only the low eight bits. */
  function Wire(a: Attr): bytes { [a.typ, (2 + |a.value|) % 256] + a.value }

  function Encoded(attrs: seq<Attr>): bytes {
    if attrs == [] then [] else Encoded(attrs[..|attrs| - 1]) + Wire(attrs[|attrs| - 1])
  }

  method EncodeAttributes(attrs: seq<Attr>) returns (wire: bytes)
    ensures wire == Encoded(attrs)
  {
    wire := [];
    for i := 0 to |attrs|
      invariant wire == Encoded(attrs[..i])
    {
      assert attrs[..i + 1][..i] == attrs[..i];
      var attrLen := 2 + |attrs[i].value|;
      var buf := new byte[attrLen](_ => 0);
      buf[0], buf[1] := attrs[i].typ, attrLen % 256;
      CopyInto(buf, 2, attrs[i].value);
      assert buf[..] == Wire(attrs[i]);
      wire := wire + buf[..];
    }
    assert attrs[..|attrs|] == attrs;
  }

  lemma {:induction false} EncodedAppend(a: seq<Attr>, b: seq<Attr>)
    ensures Encoded(a + b) == Encoded(a) + Encoded(b)
  {
    hide Wire;
    if b == [] {
      assert a + b == a;
    } else {
      var init := b[..|b| - 1];
      EncodedAppend(a, init);
      assert (a + b)[..|a + b| - 1] == a + init && (a + b)[|a + b| - 1] == b[|b| - 1];
      Assoc(Encoded(a), Encoded(init), Wire(b[|b| - 1]));
    }
  }

  lemma EncodedOne(a: Attr)
    ensures Encoded([a]) == Wire(a)
  {
    assert Encoded([a]) == Encoded([]) + Wire(a);
  }

  // ---- The two directions ----

  lemma HeadIsWire(data: bytes)
    requires HeadOk(data)
    ensures data == Wire(Attr(data[0], data[2..data[1]])) + data[data[1]..]
  {
  }

  lemma ReadOne(a: Attr, tail: bytes)
    requires |a.value| <= MAX_VALUE
    ensures Prefix(Wire(a) + tail) == [a] + Prefix(tail) && Rest(Wire(a) + tail) == Rest(tail)
  {
    var data := Wire(a) + tail;
    assert data[2..data[1]] == a.value && data[data[1]..] == tail;
  }

  /** Any byte string is the encoding of its readable attributes followed by the rest. */
  lemma {:induction false} PrefixAndRest(data: bytes)
    ensures Encoded(Prefix(data)) + Rest(data) == data
  {
    if HeadOk(data) {
      var first, tail := Attr(data[0], data[2..data[1]]), data[data[1]..];
      PrefixAndRest(tail);
      assert Prefix(data) == [first] + Prefix(tail) && Rest(data) == Rest(tail);
      HeadIsWire(data);
      hide Prefix, Rest, Encoded, Wire;
      EncodedAppend([first], Prefix(tail));
      EncodedOne(first);
      Assoc(Wire(first), Encoded(Prefix(tail)), Rest(tail));
    }
  }

  lemma {:induction false} PrefixFits(data: bytes)
    ensures Fits(Prefix(data)) && !HeadOk(Rest(data))
  {
    if HeadOk(data) {
      PrefixFits(data[data[1]..]);
      assert |data[2..data[1]]| <= MAX_VALUE;
    }
  }

  /** Encoding inverts decoding on every input that decodes. */
  lemma EncodeInvertsDecode(data: bytes)
    requires Decoded(data).Success?
    ensures Encoded(Decoded(data).value) == data
  {
    PrefixAndRest(data);
  }

  /** Reading continues behind attributes that fit. */
  lemma {:induction false} PrefixOfEncoded(attrs: seq<Attr>, tail: bytes)
    requires Fits(attrs)
    ensures Prefix(Encoded(attrs) + tail) == attrs + Prefix(tail)
    ensures Rest(Encoded(attrs) + tail) == Rest(tail)
  {
    hide Wire, Prefix, Rest;
    if attrs == [] {
      assert Encoded(attrs) + tail == tail && attrs + Prefix(tail) == Prefix(tail);
    } else {
      var init, last := attrs[..|attrs| - 1], attrs[|attrs| - 1];
      PrefixOfEncoded(init, Wire(last) + tail);
      ReadOne(last, tail);
      assert Encoded(attrs) + tail == Encoded(init) + (Wire(last) + tail);
      assert init + ([last] + Prefix(tail)) == attrs + Prefix(tail);
    }
  }

  /** Decoding inverts encoding if and only if every value is at most 253 bytes long. */
  lemma DecodeInvertsEncodeIff(attrs: seq<Attr>)
    ensures Decoded(Encoded(attrs)) == Success(attrs) <==> Fits(attrs)
  {
    if Fits(attrs) {
      PrefixOfEncoded(attrs, []);
      assert Encoded(attrs) + [] == Encoded(attrs) && attrs + [] == attrs;
    } else {
      PrefixFits(Encoded(attrs));
    }
  }

  // ---- Looking attributes up ----

  /** The place of the first attribute of a type, or the number of attributes when there is none. */
  function IndexOf(attrs: seq<Attr>, typ: byte): (k: nat)
    ensures k <= |attrs| && (forall j | 0 <= j < k :: attrs[j].typ != typ)
    ensures k < |attrs| ==> attrs[k].typ == typ
  {
    if attrs == [] || attrs[0].typ == typ then 0 else 1 + IndexOf(attrs[1..], typ)
  }

  method GetAttribute(attrs: seq<Attr>, typ: byte) returns (r: Option<Attr>)
    ensures r == if IndexOf(attrs, typ) < |attrs| then Some(attrs[IndexOf(attrs, typ)]) else None
  {
    for i := 0 to |attrs|
      invariant i <= IndexOf(attrs, typ)
    {
      if attrs[i].typ == typ {
        return Some(attrs[i]);
      }
    }
    return None;
  }

  /** The values of all attributes of a type, in order. */
  function ValuesOf(attrs: seq<Attr>, typ: byte): seq<bytes> {
    if attrs == [] then []
    else
      var last := attrs[|attrs| - 1];
      ValuesOf(attrs[..|attrs| - 1], typ) + if last.typ == typ then [last.value] else []
  }

  // ---- EAP messages carried in attributes ----

  method FragmentEAPMessage(payload: bytes, maxSize: int) returns (frags: seq<bytes>)
    requires maxSize >= 1 || |payload| <= maxSize || payload == []
    ensures maxSize >= 1 || |payload| <= maxSize ==> frags == Chunks(payload, maxSize)
    ensures maxSize < 0 ==> frags == []
  {
    if |payload| <= maxSize {
      return [payload];
    }
    hide Chunks, ChunksLeft;
    ghost var parts, k, cut := if payload == [] then [] else Chunks(payload, maxSize), 0, 0;
    frags := [];
    var i := 0;
    if payload != [] { NothingCut(payload, maxSize); }
    while i < |payload|
      invariant 0 <= i && cut == (if i < |payload| then i else |payload|)
      invariant k <= |parts| && frags == parts[..k]
      invariant payload != [] ==> parts[k..] == ChunksLeft(payload, maxSize, cut)
      invariant cut == |payload| ==> k == |parts|
    {
      var end := i + maxSize;
      if end > |payload| {
        end := |payload|;
      }
      CutOne(payload, maxSize, i, k);
      AllCut(payload, maxSize, end);
      frags := frags + [payload[i..end]];
      i := i + maxSize;
      k, cut := k + 1, end;
    }
  }

  method AssembleEAPMessage(attrs: seq<Attr>) returns (payload: bytes)
    ensures payload == Concat(ValuesOf(attrs, ATTR_EAP_MESSAGE))
  {
    payload := [];
    for i := 0 to |attrs|
      invariant payload == Concat(ValuesOf(attrs[..i], ATTR_EAP_MESSAGE))
    {
      assert attrs[..i + 1][..i] == attrs[..i];
      if attrs[i].typ == ATTR_EAP_MESSAGE {
        ConcatAppend(ValuesOf(attrs[..i], ATTR_EAP_MESSAGE), [attrs[i].value]);
        assert Concat([attrs[i].value]) == Concat([]) + attrs[i].value;
        payload := payload + attrs[i].value;
      } else {
        assert ValuesOf(attrs[..i], ATTR_EAP_MESSAGE) + [] == ValuesOf(attrs[..i], ATTR_EAP_MESSAGE);
      }
    }
    assert attrs[..|attrs|] == attrs;
  }

  lemma {:induction false} ValueInside(attrs: seq<Attr>, typ: byte, k: nat)
    requires k < |ValuesOf(attrs, typ)|
    ensures exists i | 0 <= i < |attrs| :: attrs[i].typ == typ && attrs[i].value == ValuesOf(attrs, typ)[k]
  {
    var init := attrs[..|attrs| - 1];
    if k < |ValuesOf(init, typ)| {
      ValueInside(init, typ, k);
      var i :| 0 <= i < |init| && init[i].typ == typ && init[i].value == ValuesOf(init, typ)[k];
      assert attrs[i].typ == typ;
    } else {
      assert attrs[|attrs| - 1].typ == typ;
    }
  }

  lemma {:induction false} ValueListed(attrs: seq<Attr>, typ: byte, i: nat)
    requires i < |attrs| && attrs[i].typ == typ
    ensures attrs[i].value in ValuesOf(attrs, typ)
  {
    if i < |attrs| - 1 {
      ValueListed(attrs[..|attrs| - 1], typ, i);
    }
  }

  /** An EAP payload chunked into EAP-Message attributes, in order and mixed with any other attributes that
      fit, comes back from the wire: the attributes decode to themselves if and only if no chunk is longer
      than 253 bytes, and the EAP-Message values then join up to the payload. */
  /** How many attributes of a type a list holds. */
  function CountOf(attrs: seq<Attr>, typ: byte): nat {
    if attrs == [] then 0 else CountOf(attrs[..|attrs| - 1], typ) + if attrs[|attrs| - 1].typ == typ then 1 else 0
  }

  /** The values of a type are those of its attributes, all of them and in their order: the k-th attribute of the type
      gives the k-th value. */
  lemma {:induction false} ValuesInOrder(attrs: seq<Attr>, typ: byte, i: nat)
    requires i < |attrs| && attrs[i].typ == typ
    ensures |ValuesOf(attrs, typ)| == CountOf(attrs, typ) && CountOf(attrs[..i], typ) < CountOf(attrs, typ)
    ensures ValuesOf(attrs, typ)[CountOf(attrs[..i], typ)] == attrs[i].value
  {
    var n := |attrs| - 1;
    ValuesCount(attrs, typ);
    ValuesCount(attrs[..n], typ);
    if i < n {
      ValuesInOrder(attrs[..n], typ, i);
      assert attrs[..n][..i] == attrs[..i];
    }
  }

  lemma {:induction false} ValuesCount(attrs: seq<Attr>, typ: byte)
    ensures |ValuesOf(attrs, typ)| == CountOf(attrs, typ)
  {
    if attrs != [] { ValuesCount(attrs[..|attrs| - 1], typ); }
  }

  lemma {:induction false} ValuesAppend(a: seq<Attr>, b: seq<Attr>, typ: byte)
    ensures ValuesOf(a + b, typ) == ValuesOf(a, typ) + ValuesOf(b, typ)
  {
    if b == [] {
      assert a + b == a;
    } else {
      var n := |b| - 1;
      ValuesAppend(a, b[..n], typ);
      assert (a + b)[..|a| + n] == a + b[..n] && (a + b)[|a| + n] == b[n];
    }
  }

  /** One EAP-Message attribute for each chunk. */
  function Wrapped(parts: seq<bytes>): seq<Attr> {
    seq(|parts|, i requires 0 <= i < |parts| => Attr(ATTR_EAP_MESSAGE, parts[i]))
  }

  lemma {:induction false} ValuesOfWrapped(parts: seq<bytes>)
    ensures ValuesOf(Wrapped(parts), ATTR_EAP_MESSAGE) == parts
  {
    if parts != [] {
      var n := |parts| - 1;
      ValuesOfWrapped(parts[..n]);
      assert Wrapped(parts)[..n] == Wrapped(parts[..n]);
      assert parts == parts[..n] + [parts[n]];
    }
  }

  /** The whole way: chunks of at most 253 bytes, wrapped between any other attributes that fit, encoded, decoded and
      reassembled, give the payload back. */
  lemma EapMessageRoundTrip(payload: bytes, maxSize: int, before: seq<Attr>, after: seq<Attr>)
    requires 1 <= maxSize <= MAX_VALUE && Fits(before) && Fits(after)
    requires ValuesOf(before, ATTR_EAP_MESSAGE) == [] && ValuesOf(after, ATTR_EAP_MESSAGE) == []
    ensures var attrs := before + Wrapped(Chunks(payload, maxSize)) + after;
            && Decoded(Encoded(attrs)) == Success(attrs)
            && Concat(ValuesOf(attrs, ATTR_EAP_MESSAGE)) == payload
  {
    hide *;
    var parts := Chunks(payload, maxSize);
    ChunksJoin(payload, maxSize);
    ValuesAround(before, parts, after);
    FitsAround(before, parts, after);
    DecodeInvertsEncodeIff(before + Wrapped(parts) + after);
  }

  lemma ValuesAround(before: seq<Attr>, parts: seq<bytes>, after: seq<Attr>)
    requires ValuesOf(before, ATTR_EAP_MESSAGE) == [] && ValuesOf(after, ATTR_EAP_MESSAGE) == []
    ensures ValuesOf(before + Wrapped(parts) + after, ATTR_EAP_MESSAGE) == parts
  {
    hide *;
    ValuesAppend(before + Wrapped(parts), after, ATTR_EAP_MESSAGE);
    ValuesAppend(before, Wrapped(parts), ATTR_EAP_MESSAGE);
    ValuesOfWrapped(parts);
    assert [] + parts + [] == parts;
  }

  lemma FitsAround(before: seq<Attr>, parts: seq<bytes>, after: seq<Attr>)
    requires Fits(before) && Fits(after) && forall i | 0 <= i < |parts| :: |parts[i]| <= MAX_VALUE
    ensures Fits(before + Wrapped(parts) + after)
  {
  }

  lemma EapOverRadius(payload: bytes, maxSize: int, attrs: seq<Attr>)
    requires maxSize >= 1 || |payload| <= maxSize
    requires ValuesOf(attrs, ATTR_EAP_MESSAGE) == Chunks(payload, maxSize)
    requires forall i | 0 <= i < |attrs| :: attrs[i].typ != ATTR_EAP_MESSAGE ==> |attrs[i].value| <= MAX_VALUE
    ensures Decoded(Encoded(attrs)) == Success(attrs) <==> Min(maxSize, |payload|) <= MAX_VALUE
    ensures Concat(ValuesOf(attrs, ATTR_EAP_MESSAGE)) == payload
  {
    hide *;
    DecodeInvertsEncodeIff(attrs);
    ChunksJoin(payload, maxSize);
    if Min(maxSize, |payload|) <= MAX_VALUE {
      SmallChunksFit(payload, maxSize, attrs);
    } else {
      LargeChunkDoesNot(payload, maxSize, attrs);
    }
  }

  lemma SmallChunksFit(payload: bytes, maxSize: int, attrs: seq<Attr>)
    requires (maxSize >= 1 || |payload| <= maxSize) && Min(maxSize, |payload|) <= MAX_VALUE
    requires ValuesOf(attrs, ATTR_EAP_MESSAGE) == Chunks(payload, maxSize)
    requires forall i | 0 <= i < |attrs| :: attrs[i].typ != ATTR_EAP_MESSAGE ==> |attrs[i].value| <= MAX_VALUE
    ensures Fits(attrs)
  {
    hide ValuesOf, Chunks;
    var parts := Chunks(payload, maxSize);
    forall i | 0 <= i < |attrs| ensures |attrs[i].value| <= MAX_VALUE {
      if attrs[i].typ == ATTR_EAP_MESSAGE {
        ValueListed(attrs, ATTR_EAP_MESSAGE, i);
        var k :| 0 <= k < |parts| && parts[k] == attrs[i].value;
        ChunkBound(payload, maxSize, k);
      }
    }
  }

  lemma LargeChunkDoesNot(payload: bytes, maxSize: int, attrs: seq<Attr>)
    requires (maxSize >= 1 || |payload| <= maxSize) && Min(maxSize, |payload|) > MAX_VALUE
    requires ValuesOf(attrs, ATTR_EAP_MESSAGE) == Chunks(payload, maxSize)
    ensures !Fits(attrs)
  {
    ChunksUnfold(payload, maxSize);
    hide ValuesOf, Chunks;
    ValueInside(attrs, ATTR_EAP_MESSAGE, 0);
  }

  lemma {:induction false} ChunkBound(payload: bytes, size: int, k: nat)
    requires size >= 1 || |payload| <= size
    requires k < |Chunks(payload, size)|
    ensures |Chunks(payload, size)[k]| <= Min(size, |payload|)
    decreases |payload|
  {
    if |payload| > size && k > 0 {
      ChunkBound(payload[size..], size, k - 1);
    }
  }

  // ---- Reading State from a packet ----

  function FirstValue(attrs: seq<Attr>, typ: byte): bytes {
    if IndexOf(attrs, typ) < |attrs| then attrs[IndexOf(attrs, typ)].value else []
  }

  lemma FirstValueSkips(first: Attr, attrs: seq<Attr>, typ: byte)
    ensures FirstValue([first] + attrs, typ) == if first.typ == typ then first.value else FirstValue(attrs, typ)
  {
    assert ([first] + attrs)[1..] == attrs;
  }

  /** The first State value among the attributes that can be read from `pos` on. */
  ghost function StateFrom(raw: bytes, pos: nat): bytes
    requires pos <= |raw|
  {
    FirstValue(Prefix(raw[pos..]), ATTR_STATE)
  }

  lemma StateStep(raw: bytes, pos: nat)
    requires pos + 2 <= |raw| && raw[pos + 1] >= 2 && pos + raw[pos + 1] <= |raw|
    ensures var end := pos + raw[pos + 1];
            StateFrom(raw, pos) == if raw[pos] == ATTR_STATE then raw[pos + 2..end] else StateFrom(raw, end)
  {
    var end := pos + raw[pos + 1];
    ReadAt(raw, pos);
    hide Prefix, FirstValue;
    FirstValueSkips(Attr(raw[pos], raw[pos + 2..end]), Prefix(raw[end..]), ATTR_STATE);
  }

  lemma NothingReadable(raw: bytes, pos: nat)
    requires pos <= |raw| && (pos + 2 > |raw| || raw[pos + 1] < 2 || pos + raw[pos + 1] > |raw|)
    ensures StateFrom(raw, pos) == []
  {
  }

  /** extractSessionID, on any packet whatever, is the value of the first State attribute among those that
      can be read from its attribute area, and empty when there is none. */
  method ExtractSessionID(raw: bytes) returns (id: bytes)
    ensures |raw| < HEADER_SIZE ==> id == []
    ensures |raw| >= HEADER_SIZE ==> id == FirstValue(Prefix(raw[HEADER_SIZE..]), ATTR_STATE)
  {
    if |raw| < HEADER_SIZE {
      return [];
    }
    ghost var all := FirstValue(Prefix(raw[HEADER_SIZE..]), ATTR_STATE);
    assert StateFrom(raw, HEADER_SIZE) == all;
    hide StateFrom, Prefix, FirstValue;
    var pos := HEADER_SIZE;
    while pos + 2 <= |raw|
      invariant HEADER_SIZE <= pos <= |raw| && StateFrom(raw, pos) == all
      decreases |raw| - pos
    {
      var attrType, attrLen := raw[pos], raw[pos + 1];
      if attrLen < 2 || pos + attrLen > |raw| {
        break;
      }
      StateStep(raw, pos);
      if attrType == ATTR_STATE {
        return raw[pos + 2..pos + attrLen];
      }
      pos := pos + attrLen;
    }
    NothingReadable(raw, pos);
    return [];
  }
}
