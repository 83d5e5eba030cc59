/** The Message-Authenticator attribute (section 3.2 of RFC 3579): finding it in a packet, zeroing, computing,
    verifying, adding and removing it. HMAC-MD5 is an arbitrary function with 16-byte values. */
module RadiusMessageAuth {
  import opened Base
  import opened RadiusAttribute

  const ATTR_MESSAGE_AUTHENTICATOR: byte := 80

  type Mac = f: (bytes, bytes) -> bytes | forall k, d :: |f(k, d)| == 16 witness ((k, d) => seq(16, _ => 0))

  // ---- Finding it ----

  /** Where a walk over `area` first meets a Message-Authenticator header, or -1. Unlike decoding, the walk
      does not ask whether that attribute lies inside the area. */
  function Scan(area: bytes): int {
    if |area| < 2 || area[1] < 2 then -1
    else if area[0] == ATTR_MESSAGE_AUTHENTICATOR then 0
    else if area[1] > |area| then -1
    else
      var r := Scan(area[area[1]..]);
      if r < 0 then -1 else area[1] + r
  }

  function FindFrom(packet: bytes, offset: nat): int {
    if offset > |packet| then -1
    else
      var r := Scan(packet[offset..]);
      if r < 0 then -1 else offset + r
  }

  function Find(packet: bytes): int { FindFrom(packet, HEADER_SIZE) }

  lemma {:induction false} ScanRange(area: bytes)
    ensures Scan(area) == -1 || (0 <= Scan(area) && Scan(area) + 2 <= |area| && area[Scan(area)] == ATTR_MESSAGE_AUTHENTICATOR)
  {
    if |area| >= 2 && 2 <= area[1] <= |area| {
      ScanRange(area[area[1]..]);
    }
  }

  lemma FindRange(packet: bytes)
    ensures Find(packet) == -1
            || (HEADER_SIZE <= Find(packet) && Find(packet) + 2 <= |packet|
                && packet[Find(packet)] == ATTR_MESSAGE_AUTHENTICATOR)
  {
    if |packet| >= HEADER_SIZE { ScanRange(packet[HEADER_SIZE..]); }
  }

  lemma FindFromSkips(packet: bytes, offset: nat)
    requires offset + 1 < |packet| && packet[offset + 1] >= 2 && packet[offset] != ATTR_MESSAGE_AUTHENTICATOR
    ensures FindFrom(packet, offset) == FindFrom(packet, offset + packet[offset + 1])
  {
    var area, len := packet[offset..], packet[offset + 1];
    if offset + len <= |packet| {
      assert packet[offset + len..] == area[len..];
    }
  }

  method FindMessageAuthenticator(packet: bytes) returns (at: int)
    ensures at == Find(packet)
  {
    var offset := HEADER_SIZE;
    while offset + 1 < |packet|
      invariant HEADER_SIZE <= offset && FindFrom(packet, offset) == Find(packet)
      decreases |packet| - offset
    {
      var attrType, attrLen := packet[offset], packet[offset + 1];
      if attrLen < 2 {
        break;
      }
      if attrType == ATTR_MESSAGE_AUTHENTICATOR {
        return offset;
      }
      FindFromSkips(packet, offset);
      offset := offset + attrLen;
    }
    return -1;
  }

  /** Looking for a Message-Authenticator in decoded attributes and, failing that, in the header at the front of
      what could not be decoded. */
  function Lookup(attrs: seq<Attr>, rest: bytes): int {
    var k := IndexOf(attrs, ATTR_MESSAGE_AUTHENTICATOR);
    if k < |attrs| then |Encoded(attrs[..k])|
    else if |rest| >= 2 && rest[1] >= 2 && rest[0] == ATTR_MESSAGE_AUTHENTICATOR then |Encoded(attrs)|
    else -1
  }

  lemma LookupBehind(first: Attr, more: seq<Attr>, rest: bytes)
    requires first.typ != ATTR_MESSAGE_AUTHENTICATOR
    ensures Lookup([first] + more, rest) == if Lookup(more, rest) < 0 then -1 else |Wire(first)| + Lookup(more, rest)
  {
    var attrs, k := [first] + more, IndexOf(more, ATTR_MESSAGE_AUTHENTICATOR);
    hide IndexOf, Encoded, Wire;
    IndexBehind(first, more);
    EncodedBehind(first, more[..k]);
    EncodedBehind(first, more);
    assert attrs[..1 + k] == [first] + more[..k];
  }

  lemma IndexBehind(first: Attr, more: seq<Attr>)
    requires first.typ != ATTR_MESSAGE_AUTHENTICATOR
    ensures IndexOf([first] + more, ATTR_MESSAGE_AUTHENTICATOR) == 1 + IndexOf(more, ATTR_MESSAGE_AUTHENTICATOR)
  {
    assert ([first] + more)[1..] == more;
  }

  /** On any area whatever: the walk stops at the first readable Message-Authenticator, failing that at one
      whose header is all that is left to read, and otherwise finds nothing. On an area that decodes, -1
      therefore means exactly that it holds none. */
  lemma {:induction false} ScanIsLookup(area: bytes)
    ensures Scan(area) == Lookup(Prefix(area), Rest(area))
  {
    if HeadOk(area) {
      var first, tail := Attr(area[0], area[2..area[1]]), area[area[1]..];
      assert Prefix(area) == [first] + Prefix(tail) && Rest(area) == Rest(tail);
      if first.typ == ATTR_MESSAGE_AUTHENTICATOR {
        assert Prefix(area)[..0] == [];
      } else {
        ScanIsLookup(tail);
        LookupBehind(first, Prefix(tail), Rest(tail));
        assert |Wire(first)| == area[1];
        hide Prefix, Rest, Lookup, Wire;
      }
    }
  }

  lemma EncodedBehind(first: Attr, attrs: seq<Attr>)
    ensures |Encoded([first] + attrs)| == |Wire(first)| + |Encoded(attrs)|
  {
    EncodedAppend([first], attrs);
    EncodedOne(first);
  }

  /** FindMessageAuthenticator agrees with decode-then-lookup on every packet whose attribute area decodes. */
  lemma FindIsLookup(packet: bytes)
    requires |packet| >= HEADER_SIZE && Decoded(packet[HEADER_SIZE..]).Success?
    ensures var attrs := Decoded(packet[HEADER_SIZE..]).value;
            var k := IndexOf(attrs, ATTR_MESSAGE_AUTHENTICATOR);
            Find(packet) == if k < |attrs| then HEADER_SIZE + |Encoded(attrs[..k])| else -1
  {
    ScanIsLookup(packet[HEADER_SIZE..]);
  }

  /** What the walk finds depends only on the bytes up to the header it stops at. */
  lemma {:induction false} ScanSamePrefix(a: bytes, b: bytes)
    requires Scan(a) >= 0 && Scan(a) + 2 <= |a| && Scan(a) + 2 <= |b| && a[..Scan(a) + 2] == b[..Scan(a) + 2]
    ensures Scan(b) == Scan(a)
  {
    var n := Scan(a) + 2;
    assert a[0] == a[..n][0] == b[..n][0] == b[0] && a[1] == a[..n][1] == b[..n][1] == b[1];
    if a[0] != ATTR_MESSAGE_AUTHENTICATOR {
      var len := a[1];
      ScanRange(a[len..]);
      assert a[len..][..n - len] == a[..n][len..] == b[..n][len..] == b[len..][..n - len];
      ScanSamePrefix(a[len..], b[len..]);
    }
  }

  lemma FindSamePrefix(p: bytes, q: bytes)
    requires Find(p) >= 0 && Find(p) + 2 <= |p| && Find(p) + 2 <= |q| && p[..Find(p) + 2] == q[..Find(p) + 2]
    ensures Find(q) == Find(p)
  {
    var a, b := p[HEADER_SIZE..], q[HEADER_SIZE..];
    ScanRange(a);
    var n := Find(p) + 2;
    assert a[..Scan(a) + 2] == p[..n][HEADER_SIZE..] == q[..n][HEADER_SIZE..] == b[..Scan(a) + 2];
    ScanSamePrefix(a, b);
  }

  // ---- Zeroing, computing, verifying, adding ----

  function Zeros(n: nat): bytes { seq(n, _ => 0) }

  /** The packet with up to sixteen bytes behind a header overwritten by `value`. */
  function Patched(packet: bytes, at: nat, value: bytes): bytes
    requires at + 2 <= |packet| && at + 2 + |value| <= |packet|
  {
    packet[..at + 2] + value + packet[at + 2 + |value|..]
  }

  function Zeroed(packet: bytes): bytes {
    var at := Find(packet);
    if at < 0 || at + 2 > |packet| then packet else Patched(packet, at, Zeros(Min(16, |packet| - at - 2)))
  }

  /** The sixteen value bytes lie inside the packet. */
  predicate Complete(packet: bytes) { Find(packet) >= 0 && Find(packet) + 18 <= |packet| }

  function Computed(mac: Mac, packet: bytes, secret: bytes): bytes { mac(secret, Zeroed(packet)) }

  predicate Verified(mac: Mac, packet: bytes, secret: bytes) {
    Complete(packet) && packet[Find(packet) + 2..Find(packet) + 18] == Computed(mac, packet, secret)
  }

  /** Adding is defined unless a Message-Authenticator header is cut short, where the source panics. */
  function Added(mac: Mac, packet: bytes, secret: bytes): bytes
    requires Find(packet) >= 0 ==> Complete(packet)
  {
    if Find(packet) >= 0 then Patched(packet, Find(packet), Computed(mac, packet, secret))
    else packet + [ATTR_MESSAGE_AUTHENTICATOR, 18] + mac(secret, packet)
  }

  /** Removing is defined unless the attribute's length byte points past the packet, where the source panics. */
  function Removed(packet: bytes): Option<bytes> {
    var at := Find(packet);
    if at < 0 then Some(packet)
    else if at + 1 < |packet| && at + packet[at + 1] <= |packet| then Some(packet[..at] + packet[at + packet[at + 1]..])
    else None
  }

  /** Zeroing clears exactly the value bytes behind the header that is found, as many of the sixteen as there are. */
  lemma ZeroedExactly(packet: bytes)
    ensures |Zeroed(packet)| == |packet|
    ensures forall i | 0 <= i < |packet| ::
              Zeroed(packet)[i] == if Find(packet) >= 0 && Find(packet) + 2 <= i < Find(packet) + 18 then 0 else packet[i]
  {
    FindRange(packet);
    hide Find;
  }

  method ZeroMessageAuthenticator(packet: bytes) returns (zeroed: bytes)
    ensures zeroed == Zeroed(packet)
  {
    var result := new byte[|packet|](i requires 0 <= i < |packet| => packet[i]);
    assert result[..] == packet;
    var at := FindMessageAuthenticator(packet);
    if at < 0 {
      return result[..];
    }
    FindRange(packet);
    var i := at + 2;
    while i < at + 18 && i < result.Length
      invariant at + 2 <= i <= at + 18 && i <= result.Length
      invariant forall j | 0 <= j < result.Length :: result[j] == if at + 2 <= j < i then 0 else packet[j]
    {
      result[i] := 0;
      i := i + 1;
    }
    zeroed := result[..];
  }

  method ComputeMessageAuthenticator(mac: Mac, packet: bytes, secret: bytes) returns (ma: bytes)
    ensures ma == Computed(mac, packet, secret)
  {
    var zeroed := ZeroMessageAuthenticator(packet);
    ma := mac(secret, zeroed);
  }

  method VerifyMessageAuthenticator(mac: Mac, packet: bytes, secret: bytes) returns (ok: bool)
    ensures ok == Verified(mac, packet, secret)
  {
    var at := FindMessageAuthenticator(packet);
    if at < 0 {
      return false;
    }
    if at + 18 > |packet| {
      return false;
    }
    var stored := packet[at + 2..at + 18];
    var expected := mac(secret, Patched(packet, at, Zeros(16)));
    for i := 0 to 16
      invariant forall j | 0 <= j < i :: stored[j] == expected[j]
    {
      if stored[i] != expected[i] {
        return false;
      }
    }
    return true;
  }

  lemma PatchedTwice(packet: bytes, at: nat, first: bytes, second: bytes)
    requires |first| == 16 == |second| && at + 18 <= |packet|
    ensures Patched(Patched(packet, at, first), at, second) == Patched(packet, at, second)
  {
    var p := Patched(packet, at, first);
    assert p[..at + 2] == packet[..at + 2] && p[at + 18..] == packet[at + 18..];
  }

  method Overwrite(buf: array<byte>, at: nat, value: bytes)
    requires |value| == 16 && at + 18 <= buf.Length
    modifies buf
    ensures buf[..] == Patched(old(buf[..]), at, value)
  {
    CopyInto(buf, at + 2, value);
  }

  method AddMessageAuthenticator(mac: Mac, packet: bytes, secret: bytes) returns (out: bytes)
    requires Find(packet) >= 0 ==> Complete(packet)
    ensures out == Added(mac, packet, secret)
  {
    var at := FindMessageAuthenticator(packet);
    if at >= 0 {
      var result := new byte[|packet|](i requires 0 <= i < |packet| => packet[i]);
      assert result[..] == packet;
      hide Find, Patched;
      Overwrite(result, at, Zeros(16));
      var ma := mac(secret, result[..]);
      Overwrite(result, at, ma);
      PatchedTwice(packet, at, Zeros(16), ma);
      return result[..];
    }
    return packet + [ATTR_MESSAGE_AUTHENTICATOR, 18] + mac(secret, packet);
  }

  method RemoveMessageAuthenticator(packet: bytes) returns (out: bytes)
    requires Removed(packet).Some?
    ensures Some(out) == Removed(packet)
  {
    var at := FindMessageAuthenticator(packet);
    if at < 0 {
      return packet;
    }
    var attrLen := packet[at + 1];
    return packet[..at] + packet[at + attrLen..];
  }

  // ---- What the operations promise each other ----

  lemma PatchedKeepsPlace(packet: bytes, value: bytes)
    requires Complete(packet) && |value| == 16
    ensures var q := Patched(packet, Find(packet), value);
            && |q| == |packet| && Find(q) == Find(packet)
            && q[Find(packet) + 2..Find(packet) + 18] == value && Zeroed(q) == Zeroed(packet)
  {
    var q, at := Patched(packet, Find(packet), value), Find(packet);
    assert q[..at + 2] == packet[..at + 2];
    FindSamePrefix(packet, q);
  }

  /** Adding to a packet that holds a complete Message-Authenticator changes nothing but its sixteen value
      bytes, makes the packet verify, and does nothing more when repeated. */
  lemma AddThenVerify(mac: Mac, packet: bytes, secret: bytes)
    requires Complete(packet)
    ensures var q := Added(mac, packet, secret);
            && |q| == |packet|
            && (forall i | 0 <= i < |packet| && !(Find(packet) + 2 <= i < Find(packet) + 18) :: q[i] == packet[i])
            && Complete(q) && Verified(mac, q, secret)
            && Added(mac, q, secret) == q
  {
    PatchedKeepsPlace(packet, Computed(mac, packet, secret));
  }

  /** Verify holds exactly when the stored value is complete and equals ComputeMessageAuthenticator; adding
      leaves a packet alone exactly when it already verifies. */
  lemma VerifyIff(mac: Mac, packet: bytes, secret: bytes)
    requires Complete(packet)
    ensures Verified(mac, packet, secret) <==> Added(mac, packet, secret) == packet
  {
    var at := Find(packet);
    PatchedKeepsPlace(packet, Computed(mac, packet, secret));
    assert packet == packet[..at + 2] + packet[at + 2..at + 18] + packet[at + 18..];
  }

  lemma EncodedThree(before: seq<Attr>, a: Attr, after: seq<Attr>)
    ensures Encoded(before + [a] + after) == Encoded(before) + Wire(a) + Encoded(after)
  {
    hide Encoded, Wire;
    EncodedAppend(before + [a], after);
    EncodedAppend(before, [a]);
    EncodedOne(a);
  }

  lemma EncodedAround(attrs: seq<Attr>, k: nat)
    requires k < |attrs|
    ensures Encoded(attrs) == Encoded(attrs[..k]) + Wire(attrs[k]) + Encoded(attrs[k + 1..])
  {
    hide Encoded, Wire;
    Around(attrs, k);
    EncodedThree(attrs[..k], attrs[k], attrs[k + 1..]);
  }

  lemma FindInEncoded(head: bytes, attrs: seq<Attr>)
    requires |head| == HEADER_SIZE && Fits(attrs)
    ensures var k := IndexOf(attrs, ATTR_MESSAGE_AUTHENTICATOR);
            Find(head + Encoded(attrs)) == if k < |attrs| then HEADER_SIZE + |Encoded(attrs[..k])| else -1
  {
    DecodeInvertsEncodeIff(attrs);
    hide Encoded, Prefix, Rest;
    assert (head + Encoded(attrs))[HEADER_SIZE..] == Encoded(attrs);
    FindIsLookup(head + Encoded(attrs));
  }

  lemma Regroup(a: bytes, b: bytes, c: bytes, d: bytes)
    ensures a + (b + c + d) == (a + b) + c + d && a + (b + d) == (a + b) + d
  {
  }

  lemma RemovedMiddle(front: bytes, a: Attr, back: bytes)
    requires Find(front + Wire(a) + back) == |front| && |a.value| <= MAX_VALUE
    ensures Removed(front + Wire(a) + back) == Some(front + back)
  {
    hide Find;
    var packet := front + Wire(a) + back;
    assert packet[|front| + 1] == 2 + |a.value|;
    assert packet[..|front|] == front && packet[|front| + |Wire(a)|..] == back;
  }

  /** On a packet made of attributes that fit, Remove takes the first Message-Authenticator out of the list... */
  lemma RemoveDropsAttribute(head: bytes, attrs: seq<Attr>, k: nat)
    requires |head| == HEADER_SIZE && Fits(attrs) && k == IndexOf(attrs, ATTR_MESSAGE_AUTHENTICATOR) < |attrs|
    ensures Removed(head + Encoded(attrs)) == Some(head + Encoded(attrs[..k] + attrs[k + 1..]))
  {
    FindInEncoded(head, attrs);
    EncodedAround(attrs, k);
    EncodedAppend(attrs[..k], attrs[k + 1..]);
    hide Encoded, Find, IndexOf, Removed, Wire;
    Regroup(head, Encoded(attrs[..k]), Wire(attrs[k]), Encoded(attrs[k + 1..]));
    RemovedMiddle(head + Encoded(attrs[..k]), attrs[k], Encoded(attrs[k + 1..]));
  }

  lemma AddedMiddle(mac: Mac, front: bytes, a: Attr, back: bytes, secret: bytes)
    requires a.typ == ATTR_MESSAGE_AUTHENTICATOR && |a.value| == 16 && Find(front + Wire(a) + back) == |front|
    ensures var packet := front + Wire(a) + back;
            && Complete(packet)
            && Added(mac, packet, secret) == front + Wire(a.(value := Computed(mac, packet, secret))) + back
  {
    hide Find, Zeroed;
    var packet := front + Wire(a) + back;
    assert packet[..|front| + 2] == front + [ATTR_MESSAGE_AUTHENTICATOR, 18];
    assert packet[|front| + 18..] == back;
  }

  /** ...and Add, when its value is sixteen bytes long, replaces that value; all other attributes stay. */
  lemma AddReplacesAttribute(mac: Mac, head: bytes, attrs: seq<Attr>, k: nat, secret: bytes)
    requires |head| == HEADER_SIZE && Fits(attrs) && k == IndexOf(attrs, ATTR_MESSAGE_AUTHENTICATOR) < |attrs|
    requires |attrs[k].value| == 16
    ensures var packet := head + Encoded(attrs);
            && Complete(packet)
            && Added(mac, packet, secret)
               == head + Encoded(attrs[k := Attr(ATTR_MESSAGE_AUTHENTICATOR, Computed(mac, packet, secret))])
  {
    var packet := head + Encoded(attrs);
    var patched := attrs[k := Attr(ATTR_MESSAGE_AUTHENTICATOR, Computed(mac, packet, secret))];
    FindInEncoded(head, attrs);
    EncodedAround(attrs, k);
    EncodedAround(patched, k);
    assert patched[..k] == attrs[..k] && patched[k + 1..] == attrs[k + 1..];
    hide Encoded, Find, IndexOf, Added, Wire, Computed;
    Regroup(head, Encoded(attrs[..k]), Wire(attrs[k]), Encoded(attrs[k + 1..]));
    Regroup(head, Encoded(attrs[..k]), Wire(patched[k]), Encoded(attrs[k + 1..]));
    AddedMiddle(mac, head + Encoded(attrs[..k]), attrs[k], Encoded(attrs[k + 1..]), secret);
  }

  /** Behind an area with no Message-Authenticator, the walk gets to the end exactly when the area decodes. */
  lemma {:induction false} ScanAppended(area: bytes, ma: bytes)
    requires Scan(area) == -1 && |ma| >= 2 && ma[0] == ATTR_MESSAGE_AUTHENTICATOR && ma[1] >= 2
    ensures Scan(area + ma) == |area| <==> Rest(area) == []
  {
    if |area| >= 2 && 2 <= area[1] <= |area| {
      var tail := area[area[1]..];
      ScanRange(tail);
      ScanAppended(tail, ma);
      assert (area + ma)[area[1]..] == tail + ma;
      ScanRange(tail + ma);
    } else if area == [] {
      assert area + ma == ma;
    }
  }

  /** On a packet without a Message-Authenticator, Remove undoes Add if and only if the packet is whole, that
      is, its attribute area decodes. */
  lemma RemoveUndoesAddIff(mac: Mac, packet: bytes, secret: bytes)
    requires Find(packet) == -1
    ensures Removed(Added(mac, packet, secret)) == Some(packet)
            <==> |packet| >= HEADER_SIZE && Decoded(packet[HEADER_SIZE..]).Success?
  {
    var ma := [ATTR_MESSAGE_AUTHENTICATOR, 18] + mac(secret, packet);
    var q := packet + ma;
    Assoc(packet, [ATTR_MESSAGE_AUTHENTICATOR, 18], mac(secret, packet));
    if |packet| >= HEADER_SIZE && Decoded(packet[HEADER_SIZE..]).Success? {
      FoundAppended(packet, ma);
      hide Find;
      assert q[..|packet|] + q[|q|..] == packet;
    }
    if Removed(q) == Some(packet) {
      RemovedAtEnd(packet, ma);
      ScanRange(packet[HEADER_SIZE..]);
      ScanAppended(packet[HEADER_SIZE..], ma);
      assert q[HEADER_SIZE..] == packet[HEADER_SIZE..] + ma;
    }
  }

  lemma NotFoundEarlier(packet: bytes, ma: bytes)
    requires Find(packet) == -1
    ensures Find(packet + ma) == -1 || Find(packet + ma) + 2 > |packet|
  {
    var q := packet + ma;
    FindRange(q);
    if 0 <= Find(q) && Find(q) + 2 <= |packet| {
      assert q[..Find(q) + 2] == packet[..Find(q) + 2];
      FindSamePrefix(q, packet);
    }
  }

  /** If removing takes off exactly the appended attribute, it was found there. */
  lemma RemovedAtEnd(packet: bytes, ma: bytes)
    requires Find(packet) == -1 && |ma| == 18 && ma[0] == ATTR_MESSAGE_AUTHENTICATOR
    requires Removed(packet + ma) == Some(packet)
    ensures |packet| >= HEADER_SIZE && Find(packet + ma) == |packet|
  {
    var q := packet + ma;
    var at := Find(q);
    FindRange(q);
    NotFoundEarlier(packet, ma);
    assert at >= 0 && q[at + 1] == 18 && at <= |packet|;
    assert q[|packet|] == ma[0];
  }

  /** A Message-Authenticator appended by Add covers the packet without itself. Behind a packet that decodes the new
      packet verifies if and only if the two hashes happen to agree... */
  lemma AppendedVerifiesIff(mac: Mac, packet: bytes, secret: bytes)
    requires |packet| >= HEADER_SIZE && Decoded(packet[HEADER_SIZE..]).Success? && Find(packet) == -1
    ensures Verified(mac, Added(mac, packet, secret), secret)
            <==> mac(secret, packet) == mac(secret, packet + [ATTR_MESSAGE_AUTHENTICATOR, 18] + Zeros(16))
  {
    var head, ma := [ATTR_MESSAGE_AUTHENTICATOR, 18], mac(secret, packet);
    FoundAppended(packet, head + ma);
    hide Find, Scan, Decoded;
    Assoc(packet, head, ma);
    var q := packet + (head + ma);
    assert q[|packet| + 2..|packet| + 18] == ma;
    assert q[..|packet| + 2] == packet + head && q[|packet| + 18..] == [];
    assert Zeroed(q) == packet + head + Zeros(16);
  }

  /** All that cannot be decoded is one byte, the type of a Message-Authenticator. */
  predicate LoneType(packet: bytes) {
    |packet| >= HEADER_SIZE && Rest(packet[HEADER_SIZE..]) == [ATTR_MESSAGE_AUTHENTICATOR]
  }

  /** Behind such an area the walk takes the lone byte and the appended type for a header. */
  lemma {:induction false} ScanOneEarly(area: bytes, ma: bytes)
    requires Scan(area) == -1 && |ma| == 18 && ma[0] == ATTR_MESSAGE_AUTHENTICATOR && ma[1] == 18
    ensures Scan(area + ma) == |area| - 1 <==> Rest(area) == [ATTR_MESSAGE_AUTHENTICATOR]
  {
    if |area| >= 2 && 2 <= area[1] <= |area| {
      var tail := area[area[1]..];
      ScanRange(tail);
      ScanOneEarly(tail, ma);
      assert (area + ma)[area[1]..] == tail + ma;
      ScanRange(tail + ma);
    } else if area == [] {
      assert area + ma == ma;
    } else if |area| >= 2 && area[1] > |area| && area[1] <= |area + ma| {
      ScanRange((area + ma)[area[1]..]);
    }
  }

  /** Where Verify can find a complete value behind a packet that had no Message-Authenticator. */
  lemma AppendedPlaces(packet: bytes, ma: bytes)
    requires Find(packet) == -1 && |ma| == 18 && ma[0] == ATTR_MESSAGE_AUTHENTICATOR && ma[1] == 18
    ensures var at := Find(packet + ma);
            && (at == |packet| <==> |packet| >= HEADER_SIZE && Rest(packet[HEADER_SIZE..]) == [])
            && (0 <= at == |packet| - 1 <==> LoneType(packet))
            && (Complete(packet + ma) ==> at in {|packet| - 1, |packet|})
  {
    NotFoundEarlier(packet, ma);
    FindRange(packet + ma);
    if |packet| >= HEADER_SIZE {
      var area := packet[HEADER_SIZE..];
      ScanRange(area);
      ScanAppended(area, ma);
      ScanOneEarly(area, ma);
      ScanRange(area + ma);
      assert (packet + ma)[HEADER_SIZE..] == area + ma;
    }
    hide Scan, Rest;
  }

  lemma EarlyVerifiesIff(mac: Mac, packet: bytes, secret: bytes)
    requires Find(packet) == -1 && LoneType(packet)
    ensures var m := mac(secret, packet);
            Verified(mac, Added(mac, packet, secret), secret)
            <==> [18] + m[..15] == mac(secret, packet + [ATTR_MESSAGE_AUTHENTICATOR] + Zeros(16) + m[15..])
  {
    var head, m := [ATTR_MESSAGE_AUTHENTICATOR, 18], mac(secret, packet);
    AppendedPlaces(packet, head + m);
    hide Find, LoneType;
    Assoc(packet, head, m);
    var q, n := packet + (head + m), |packet|;
    assert q[n + 1..n + 17] == [18] + m[..15];
    assert q[..n + 1] == packet + [ATTR_MESSAGE_AUTHENTICATOR] && q[n + 17..] == m[15..];
    assert Zeroed(q) == packet + [ATTR_MESSAGE_AUTHENTICATOR] + Zeros(16) + m[15..];
  }

  /** ...and in general: behind any packet without a Message-Authenticator the appended one verifies if and only if
      the packet decodes and the hashes agree, or all that does not decode is a lone type byte 80 and the value,
      read one byte early, agrees with its own hash. */
  lemma AppendedVerifiesExactly(mac: Mac, packet: bytes, secret: bytes)
    requires Find(packet) == -1
    ensures var m := mac(secret, packet);
            Verified(mac, Added(mac, packet, secret), secret)
            <==> || (|packet| >= HEADER_SIZE && Decoded(packet[HEADER_SIZE..]).Success?
                     && m == mac(secret, packet + [ATTR_MESSAGE_AUTHENTICATOR, 18] + Zeros(16)))
                 || (LoneType(packet)
                     && [18] + m[..15] == mac(secret, packet + [ATTR_MESSAGE_AUTHENTICATOR] + Zeros(16) + m[15..]))
  {
    var head, m := [ATTR_MESSAGE_AUTHENTICATOR, 18], mac(secret, packet);
    AppendedPlaces(packet, head + m);
    Assoc(packet, head, m);
    if |packet| >= HEADER_SIZE && Decoded(packet[HEADER_SIZE..]).Success? {
      AppendedVerifiesIff(mac, packet, secret);
    } else if LoneType(packet) {
      EarlyVerifiesIff(mac, packet, secret);
    }
    hide Find, Rest;
  }

  /** Behind a packet that decodes and has none, an appended Message-Authenticator is found where it was put. */
  lemma FoundAppended(packet: bytes, ma: bytes)
    requires |packet| >= HEADER_SIZE && Decoded(packet[HEADER_SIZE..]).Success? && Find(packet) == -1
    requires |ma| >= 2 && ma[0] == ATTR_MESSAGE_AUTHENTICATOR && ma[1] >= 2
    ensures Find(packet + ma) == |packet|
  {
    var area := packet[HEADER_SIZE..];
    ScanRange(area);
    ScanAppended(area, ma);
    hide Scan, Rest, Prefix;
    assert (packet + ma)[HEADER_SIZE..] == area + ma;
  }

  /** ...which a hash that tells the two lengths apart never does. */
  lemma AppendedNeedNotVerify(packet: bytes, secret: bytes) returns (mac: Mac)
    requires Find(packet) == -1
    ensures !Verified(mac, Added(mac, packet, secret), secret)
  {
    mac := (k: bytes, d: bytes) => seq(16, _ => |d| % 256);
    AppendedVerifiesExactly(mac, packet, secret);
    hide Verified, Added, Decoded, Find, LoneType;
    var m := mac(secret, packet);
    var longer := packet + [ATTR_MESSAGE_AUTHENTICATOR, 18] + Zeros(16);
    var shifted := packet + [ATTR_MESSAGE_AUTHENTICATOR] + Zeros(16) + m[15..];
    LengthByteDiffers(|packet|);
    assert |longer| == |packet| + 18 == |shifted|;
    assert m[0] == |packet| % 256 && mac(secret, longer)[0] == |longer| % 256;
    assert ([18] + m[..15])[1] == |packet| % 256 && mac(secret, shifted)[1] == |shifted| % 256;
  }

  lemma LengthByteDiffers(n: nat)
    ensures n % 256 != (n + 18) % 256
  {
  }
}
