/** client/audio/nat.py: STUN requests and responses, against RFC 5389 sections 6, 15, 15.1, 15.2. */
module Stun {
  import opened Bytes
  import opened Text

  const HEADER_LEN := 20
  const TID_LEN := 12
  const MAGIC_COOKIE := 0x2112_A442
  const MAGIC_TOP := MAGIC_COOKIE / 0x1_0000
  const BINDING_REQUEST := 0x0001
  const MAPPED_ADDRESS := 0x0001
  const XOR_MAPPED_ADDRESS := 0x0020
  const IPV4 := 1
  const IPV6 := 2

  /** The octets inet_ntoa and inet_ntop print, and the port. */
  datatype Address = Address(ip: seq<byte>, port: nat)

  // ---------------------------------------------------------------- exclusive or

  /** a ^ b */
  function Xor(a: nat, b: nat): nat {
    if a == 0 && b == 0 then 0 else 2 * Xor(a / 2, b / 2) + (a % 2 + b % 2) % 2
  }

  lemma XorStep(a: nat, b: nat)
    ensures Xor(a, b) / 2 == Xor(a / 2, b / 2)
    ensures Xor(a, b) % 2 == (a % 2 + b % 2) % 2
  {
  }

  lemma SameBits(x: nat, y: nat)
    requires x / 2 == y / 2 && x % 2 == y % 2
    ensures x == y
  {
  }

  lemma LowBitTwice(a: nat, b: nat, x: nat, y: nat)
    requires x % 2 == (a % 2 + b % 2) % 2 && y % 2 == (x % 2 + b % 2) % 2
    ensures y % 2 == a % 2
  {
  }

  lemma {:induction false} XorTwice(a: nat, b: nat)
    ensures Xor(Xor(a, b), b) == a
    decreases a + b
  {
    if a + b > 0 {
      var x := Xor(a, b);
      var y := Xor(x, b);
      XorTwice(a / 2, b / 2);
      XorStep(a, b);
      XorStep(x, b);
      LowBitTwice(a, b, x, y);
      SameBits(y, a);
    }
  }

  function Pow2(k: nat): nat {
    if k == 0 then 1 else 2 * Pow2(k - 1)
  }

  lemma {:induction false} XorBound(a: nat, b: nat, bits: nat)
    requires a < Pow2(bits) && b < Pow2(bits)
    ensures Xor(a, b) < Pow2(bits)
  {
    if bits == 0 {
      assert Xor(0, 0) == 0;
    } else if a != 0 || b != 0 {
      XorBound(a / 2, b / 2, bits - 1);
    }
  }

  lemma BitWidths()
    ensures Pow2(8) == 0x100 && Pow2(16) == 0x1_0000
  {
    assert Pow2(4) == 16 && Pow2(12) == 0x1000;
  }

  function XorByte(a: byte, b: byte): byte {
    BitWidths();
    XorBound(a, b, 8);
    Xor(a, b)
  }

  /** bytes(a ^ b for a, b in zip(xs, ys)) */
  function XorBytes(xs: seq<byte>, ys: seq<byte>): (zs: seq<byte>)
    ensures |zs| == if |xs| <= |ys| then |xs| else |ys|
  {
    seq(if |xs| <= |ys| then |xs| else |ys|,
        i requires 0 <= i < |xs| && i < |ys| => XorByte(xs[i], ys[i]))
  }

  lemma XorBytesTwice(xs: seq<byte>, mask: seq<byte>)
    requires |xs| <= |mask|
    ensures XorBytes(XorBytes(xs, mask), mask) == xs
  {
    forall i | 0 <= i < |xs|
      ensures XorBytes(XorBytes(xs, mask), mask)[i] == xs[i]
    {
      XorTwice(xs[i], mask[i]);
    }
  }

  // ---------------------------------------------------------------- decoding

  function Mask(tid: seq<byte>): seq<byte> {
    BigEndian(MAGIC_COOKIE, 4) + tid
  }

  function DecodeXorMapped(attr: seq<byte>, tid: seq<byte>): Option<Address> {
    if |attr| < 8 then None
    else
      var port := Xor(FromBigEndian(attr[2..4]), MAGIC_TOP);
      if attr[1] == IPV4 then Some(Address(XorBytes(attr[4..8], BigEndian(MAGIC_COOKIE, 4)), port))
      else if attr[1] == IPV6 && |attr| >= 20 then Some(Address(XorBytes(attr[4..20], Mask(tid)), port))
      else None
  }

  function DecodeMapped(attr: seq<byte>): Option<Address> {
    if |attr| < 8 then None
    else
      var port := FromBigEndian(attr[2..4]);
      if attr[1] == IPV4 then Some(Address(attr[4..8], port))
      else if attr[1] == IPV6 && |attr| >= 20 then Some(Address(attr[4..20], port))
      else None
  }

  predicate IsAddressKind(kind: nat) {
    kind == XOR_MAPPED_ADDRESS || kind == MAPPED_ADDRESS
  }

  function DecodeAddress(kind: nat, value: seq<byte>, tid: seq<byte>): Option<Address>
    requires IsAddressKind(kind)
  {
    if kind == XOR_MAPPED_ADDRESS then DecodeXorMapped(value, tid) else DecodeMapped(value)
  }

  /** A Python slice data[from : to]: cut off at the end of the data. */
  function Slice(data: seq<byte>, from: nat, to: nat): seq<byte>
    requires from <= to
  {
    if |data| <= from then [] else if |data| <= to then data[from..] else data[from..to]
  }

  function PaddedLength(n: nat): nat {
    n + (4 - n % 4) % 4
  }

  /** The attribute loop, from `offset` on. */
  function Walk(data: seq<byte>, tid: seq<byte>, offset: nat, end: nat): Option<Address>
    decreases |data| - offset
  {
    if offset + 4 <= end && offset + 4 <= |data| then
      var kind := FromBigEndian(data[offset..offset + 2]);
      var length := FromBigEndian(data[offset + 2..offset + 4]);
      if IsAddressKind(kind) then
        DecodeAddress(kind, Slice(data, offset + 4, offset + 4 + length), tid)
      else
        Walk(data, tid, offset + 4 + PaddedLength(length), end)
    else None
  }

  /** Where the attributes end, if the header is in order. */
  function BodyEnd(data: seq<byte>, tid: seq<byte>): Option<nat> {
    if |data| < HEADER_LEN then None
    else if FromBigEndian(data[4..8]) != MAGIC_COOKIE then None
    else if data[8..20] != tid then None
    else Some(HEADER_LEN + FromBigEndian(data[2..4]))
  }

  function Parse(data: seq<byte>, tid: seq<byte>): Option<Address> {
    match BodyEnd(data, tid)
    case None => None
    case Some(end) => Walk(data, tid, HEADER_LEN, end)
  }

  /** _parse_xor_mapped_address, on every byte string. */
  method ParseXorMappedAddress(data: seq<byte>, tid: seq<byte>) returns (found: Option<Address>)
    ensures found == Parse(data, tid)
  {
    if |data| < HEADER_LEN {
      return None;
    }
    var length, magic := FromBigEndian(data[2..4]), FromBigEndian(data[4..8]);
    if magic != MAGIC_COOKIE || data[8..20] != tid {
      return None;
    }
    var offset: nat, end: nat := HEADER_LEN, HEADER_LEN + length;
    assert BodyEnd(data, tid) == Some(end);
    ghost var answer := Walk(data, tid, offset, end);
    while offset + 4 <= end && offset + 4 <= |data|
      invariant Walk(data, tid, offset, end) == answer == Parse(data, tid)
      decreases |data| - offset
    {
      var kind := FromBigEndian(data[offset..offset + 2]);
      var size := FromBigEndian(data[offset + 2..offset + 4]);
      var value := Slice(data, offset + 4, offset + 4 + size);
      offset := offset + 4 + PaddedLength(size);
      if kind == XOR_MAPPED_ADDRESS {
        return DecodeXorMapped(value, tid);
      }
      if kind == MAPPED_ADDRESS {
        return DecodeMapped(value);
      }
    }
    return None;
  }

  /** _build_binding_request; None is its ValueError. */
  function BuildBindingRequest(tid: seq<byte>): Option<seq<byte>> {
    if |tid| != TID_LEN then None
    else Some(BigEndian(BINDING_REQUEST, 2) + BigEndian(0, 2) + BigEndian(MAGIC_COOKIE, 4) + tid)
  }

  // ---------------------------------------------------------------- encoding, from RFC 5389

  /** Section 15: type, length of the value before padding, value, padding of any content. */
  datatype Attribute = Attribute(kind: nat, value: seq<byte>, padding: seq<byte>) {
    predicate Valid() {
      kind < 0x1_0000 && |value| < 0x1_0000 && |padding| < 4 && (|value| + |padding|) % 4 == 0
    }

    function Encode(): seq<byte> {
      BigEndian(kind, 2) + BigEndian(|value|, 2) + value + padding
    }
  }

  function EncodeAll(attrs: seq<Attribute>): seq<byte> {
    if |attrs| == 0 then [] else attrs[0].Encode() + EncodeAll(attrs[1..])
  }

  /** Section 6. */
  function Encode(kind: nat, tid: seq<byte>, attrs: seq<Attribute>): seq<byte> {
    BigEndian(kind, 2) + BigEndian(|EncodeAll(attrs)|, 2) + BigEndian(0x2112_A442, 4) + tid + EncodeAll(attrs)
  }

  ghost predicate AllValid(attrs: seq<Attribute>) {
    forall i :: 0 <= i < |attrs| ==> attrs[i].Valid()
  }

  ghost predicate Sendable(attrs: seq<Attribute>) {
    AllValid(attrs) && |EncodeAll(attrs)| < 0x1_0000
  }

  predicate ValidAddress(addr: Address) {
    (|addr.ip| == 4 || |addr.ip| == 16) && addr.port < 0x1_0000
  }

  function Family(addr: Address): byte {
    if |addr.ip| == 4 then 0x01 else 0x02
  }

  /** Section 15.1. */
  function MappedValue(reserved: byte, addr: Address): seq<byte> {
    [reserved, Family(addr)] + BigEndian(addr.port, 2) + addr.ip
  }

  /** Section 15.2. */
  function XorMappedValue(reserved: byte, addr: Address, tid: seq<byte>): seq<byte> {
    [reserved, Family(addr)] + BigEndian(Xor(addr.port, 0x2112), 2)
    + XorBytes(addr.ip, BigEndian(0x2112_A442, 4) + tid)
  }

  /** What the message says: the address of its first address attribute. */
  function FirstAddress(attrs: seq<Attribute>, tid: seq<byte>): Option<Address> {
    if |attrs| == 0 then None
    else if IsAddressKind(attrs[0].kind) then DecodeAddress(attrs[0].kind, attrs[0].value, tid)
    else FirstAddress(attrs[1..], tid)
  }

  // ---------------------------------------------------------------- parsing inverts encoding

  lemma Read16(n: nat)
    requires n < 0x1_0000
    ensures FromBigEndian(BigEndian(n, 2)) == n
  {
    Widths();
    BigEndianRoundTrip(n, 2);
  }

  lemma PaddingAgrees(a: Attribute)
    requires a.Valid()
    ensures PaddedLength(|a.value|) == |a.value| + |a.padding|
    ensures |a.Encode()| == 4 + PaddedLength(|a.value|)
  {
  }

  /** The four parts of an encoding, in a copy of it that may end after the second. */
  lemma Cut(d: seq<byte>, tail: seq<byte>, x: seq<byte>, y: seq<byte>, v: seq<byte>, rest: seq<byte>)
    requires |x| == |y| == 2 && |d| >= 4 && d + tail == x + y + (v + rest)
    ensures d[..2] == x && d[2..4] == y
    ensures |d| < 4 + |v| ==> d[4..] <= v
    ensures |d| >= 4 + |v| ==> d[4..4 + |v|] == v
    ensures tail == [] ==> |d| >= 4 + |v|
  {
    var all := x + y + (v + rest);
    assert d == all[..|d|] && all[4..] == v + rest;
    assert all[..2] == x && all[2..4] == y;
    assert |d| + |tail| == |d + tail| == |all| == 4 + |v| + |rest|;
    assert d[4..] == (v + rest)[..|d| - 4];
    if |d| < 4 + |v| {
      assert d[4..] == v[..|d| - 4];
    } else {
      assert d[4..4 + |v|] == (v + rest)[..|v|] == v;
    }
  }

  lemma SliceFrom(data: seq<byte>, offset: nat, n: nat)
    requires offset + 4 <= |data|
    ensures Slice(data, offset + 4, offset + 4 + n)
         == if |data[offset..]| < 4 + n then data[offset..][4..] else data[offset..][4..4 + n]
  {
    assert data[offset..][4..] == data[offset + 4..];
    if |data| >= offset + 4 + n {
      assert data[offset..][4..4 + n] == data[offset + 4..offset + 4 + n];
    }
  }

  /** The parts of one encoded attribute at `offset`, in data that may end inside its value. */
  lemma ReadAttribute(data: seq<byte>, offset: nat, a: Attribute, rest: seq<byte>, tail: seq<byte>)
    requires a.Valid() && offset + 4 <= |data|
    requires data[offset..] + tail == a.Encode() + rest
    ensures FromBigEndian(data[offset..offset + 2]) == a.kind
    ensures FromBigEndian(data[offset + 2..offset + 4]) == |a.value|
    ensures Slice(data, offset + 4, offset + 4 + |a.value|) <= a.value
    ensures tail == [] ==> Slice(data, offset + 4, offset + 4 + |a.value|) == a.value
  {
    var d, x, y := data[offset..], BigEndian(a.kind, 2), BigEndian(|a.value|, 2);
    assert a.Encode() + rest == x + y + (a.value + (a.padding + rest));
    Cut(d, tail, x, y, a.value, a.padding + rest);
    assert data[offset..offset + 2] == d[..2] && data[offset + 2..offset + 4] == d[2..4];
    Read16(a.kind);
    Read16(|a.value|);
    SliceFrom(data, offset, |a.value|);
  }

  lemma DropHead<T>(d: seq<T>, tail: seq<T>, head: seq<T>, more: seq<T>)
    requires d + tail == head + more && |head| <= |d|
    ensures d[|head|..] + tail == more
  {
    assert d[|head|..] + tail == (d + tail)[|head|..];
  }

  /** An attribute that is not an address is stepped over, padding and all. */
  lemma SkipOne(data: seq<byte>, tid: seq<byte>, offset: nat, end: nat, b: Attribute, more: seq<byte>, tail: seq<byte>)
    requires b.Valid() && !IsAddressKind(b.kind) && offset + 4 <= |data| && offset + 4 <= end
    requires data[offset..] + tail == b.Encode() + more
    ensures Walk(data, tid, offset, end) == Walk(data, tid, offset + |b.Encode()|, end)
    ensures offset + |b.Encode()| <= |data| ==> data[offset + |b.Encode()|..] + tail == more
  {
    ReadAttribute(data, offset, b, more, tail);
    PaddingAgrees(b);
    if offset + |b.Encode()| <= |data| {
      DropHead(data[offset..], tail, b.Encode(), more);
      assert data[offset..][|b.Encode()|..] == data[offset + |b.Encode()|..];
    }
  }

  /** An address attribute ends the loop; of its value, what the data still holds is decoded. */
  lemma StopAtAddress(data: seq<byte>, tid: seq<byte>, offset: nat, end: nat,
                      a: Attribute, more: seq<byte>, tail: seq<byte>)
    returns (cut: seq<byte>)
    requires a.Valid() && IsAddressKind(a.kind) && offset + 4 <= |data| && offset + 4 <= end
    requires data[offset..] + tail == a.Encode() + more
    ensures Walk(data, tid, offset, end) == DecodeAddress(a.kind, cut, tid)
    ensures cut <= a.value && (tail == [] ==> cut == a.value)
  {
    ReadAttribute(data, offset, a, more, tail);
    cut := Slice(data, offset + 4, offset + 4 + |a.value|);
  }

  lemma EncodeFirst(attrs: seq<Attribute>, rest: seq<byte>)
    requires |attrs| > 0
    ensures EncodeAll(attrs) + rest == attrs[0].Encode() + (EncodeAll(attrs[1..]) + rest)
    ensures |EncodeAll(attrs)| == |attrs[0].Encode()| + |EncodeAll(attrs[1..])|
  {
  }

  lemma {:induction false} WalkReadsAll(data: seq<byte>, tid: seq<byte>, offset: nat,
                                        attrs: seq<Attribute>, trailing: seq<byte>)
    requires AllValid(attrs) && offset <= |data| && data[offset..] + [] == EncodeAll(attrs) + trailing
    ensures Walk(data, tid, offset, offset + |EncodeAll(attrs)|) == FirstAddress(attrs, tid)
    decreases |attrs|
  {
    if |attrs| > 0 {
      var a, more, end := attrs[0], EncodeAll(attrs[1..]) + trailing, offset + |EncodeAll(attrs)|;
      EncodeFirst(attrs, trailing);
      PaddingAgrees(a);
      if IsAddressKind(a.kind) {
        var cut := StopAtAddress(data, tid, offset, end, a, more, []);
      } else {
        SkipOne(data, tid, offset, end, a, more, []);
        WalkReadsAll(data, tid, offset + |a.Encode()|, attrs[1..], trailing);
      }
    }
  }

  lemma Header(a: seq<byte>, b: seq<byte>, c: seq<byte>, d: seq<byte>, body: seq<byte>, rest: seq<byte>)
    requires |a| == |b| == 2 && |c| == 4 && |d| == 12
    ensures (a + b + c + d + body + rest)[2..4] == b
    ensures (a + b + c + d + body + rest)[4..8] == c
    ensures (a + b + c + d + body + rest)[8..20] == d
    ensures (a + b + c + d + body + rest)[HEADER_LEN..] == body + rest
  {
  }

  /** The parser reads the header of an encoded message and comes to its attributes. */
  lemma ParseHeader(kind: nat, tid: seq<byte>, attrs: seq<Attribute>, rest: seq<byte>, other: seq<byte>)
    requires |tid| == 12 && |EncodeAll(attrs)| < 0x1_0000
    ensures (Encode(kind, tid, attrs) + rest)[HEADER_LEN..] == EncodeAll(attrs) + rest
    ensures BodyEnd(Encode(kind, tid, attrs) + rest, other)
         == if other != tid then None else Some(HEADER_LEN + |EncodeAll(attrs)|)
  {
    var size, width := |EncodeAll(attrs)|, 4;
    var cookie := BigEndian(MAGIC_COOKIE, width);
    Header(BigEndian(kind, 2), BigEndian(size, 2), cookie, tid, EncodeAll(attrs), rest);
    Read16(size);
    Widths();
    BigEndianRoundTrip(MAGIC_COOKIE, width);
  }

  /** Every message built to the standard parses to the address of its first address attribute,
      whatever its type, its other attributes and the bytes that follow it. */
  lemma ParseInvertsEncode(kind: nat, tid: seq<byte>, attrs: seq<Attribute>, trailing: seq<byte>)
    requires |tid| == 12 && Sendable(attrs)
    ensures Parse(Encode(kind, tid, attrs) + trailing, tid) == FirstAddress(attrs, tid)
  {
    var data := Encode(kind, tid, attrs) + trailing;
    ParseHeader(kind, tid, attrs, trailing, tid);
    assert data[HEADER_LEN..] + [] == data[HEADER_LEN..];
    WalkReadsAll(data, tid, HEADER_LEN, attrs, trailing);
  }

  lemma DecodeMappedValue(reserved: byte, addr: Address)
    requires ValidAddress(addr)
    ensures DecodeMapped(MappedValue(reserved, addr)) == Some(addr)
  {
    var v := MappedValue(reserved, addr);
    assert v[2..4] == BigEndian(addr.port, 2);
    assert v[4..] == addr.ip;
    Read16(addr.port);
    assert |addr.ip| == 4 ==> v[4..8] == addr.ip;
    assert |addr.ip| == 16 ==> v[4..20] == addr.ip;
  }

  lemma DecodeXorMappedValue(reserved: byte, addr: Address, tid: seq<byte>)
    requires ValidAddress(addr) && |tid| == 12
    ensures DecodeXorMapped(XorMappedValue(reserved, addr, tid), tid) == Some(addr)
  {
    var v := XorMappedValue(reserved, addr, tid);
    var mask := BigEndian(MAGIC_COOKIE, 4) + tid;
    var x := Xor(addr.port, MAGIC_TOP);
    BitWidths();
    XorBound(addr.port, MAGIC_TOP, 16);
    assert v[2..4] == BigEndian(x, 2);
    Read16(x);
    XorTwice(addr.port, MAGIC_TOP);
    var ip := XorBytes(addr.ip, mask);
    assert v[4..] == ip;
    XorBytesTwice(addr.ip, mask);
    if |addr.ip| == 4 {
      assert v[4..8] == ip;
      assert XorBytes(ip, BigEndian(MAGIC_COOKIE, 4)) == XorBytes(ip, mask);
    } else {
      assert v[4..20] == ip;
    }
  }

  ghost predicate NoAddress(attrs: seq<Attribute>) {
    forall i :: 0 <= i < |attrs| ==> !IsAddressKind(attrs[i].kind)
  }

  lemma {:induction false} FirstAfter(before: seq<Attribute>, a: Attribute, after: seq<Attribute>, tid: seq<byte>)
    requires NoAddress(before) && IsAddressKind(a.kind)
    ensures FirstAddress(before + [a] + after, tid) == DecodeAddress(a.kind, a.value, tid)
    decreases |before|
  {
    var all := before + [a] + after;
    if |before| > 0 {
      assert all[0] == before[0] && all[1..] == before[1..] + [a] + after;
      FirstAfter(before[1..], a, after, tid);
    }
  }

  /** An attribute that carries `addr` as section 15.1 or section 15.2 says. */
  predicate Carries(a: Attribute, addr: Address, tid: seq<byte>) {
    || (a.kind == 0x0001 && exists reserved: byte :: a.value == MappedValue(reserved, addr))
    || (a.kind == 0x0020 && exists reserved: byte :: a.value == XorMappedValue(reserved, addr, tid))
  }

  lemma CarriedIsDecoded(a: Attribute, addr: Address, tid: seq<byte>)
    requires |tid| == 12 && ValidAddress(addr) && Carries(a, addr, tid)
    ensures DecodeAddress(a.kind, a.value, tid) == Some(addr)
  {
    if a.kind == MAPPED_ADDRESS {
      var reserved: byte :| a.value == MappedValue(reserved, addr);
      DecodeMappedValue(reserved, addr);
    } else {
      var reserved: byte :| a.value == XorMappedValue(reserved, addr, tid);
      DecodeXorMappedValue(reserved, addr, tid);
    }
  }

  /** The round trip: whatever comes before and after it, the first address attribute is what the
      parser returns. */
  lemma AddressRoundTrip(kind: nat, tid: seq<byte>, before: seq<Attribute>, a: Attribute, after: seq<Attribute>,
                         addr: Address, trailing: seq<byte>)
    requires |tid| == 12 && ValidAddress(addr) && Carries(a, addr, tid)
    requires NoAddress(before) && Sendable(before + [a] + after)
    ensures Parse(Encode(kind, tid, before + [a] + after) + trailing, tid) == Some(addr)
  {
    ParseInvertsEncode(kind, tid, before + [a] + after, trailing);
    FirstAfter(before, a, after, tid);
    CarriedIsDecoded(a, addr, tid);
  }

  // ---------------------------------------------------------------- any bytes at all

  lemma DecodesValid(kind: nat, value: seq<byte>, tid: seq<byte>)
    requires IsAddressKind(kind) && |tid| == 12
    ensures DecodeAddress(kind, value, tid).Some? ==> ValidAddress(DecodeAddress(kind, value, tid).value)
  {
    if |value| >= 8 {
      NetworkOrder(value[2..4]);
      BitWidths();
      XorBound(FromBigEndian(value[2..4]), MAGIC_TOP, 16);
    }
  }

  lemma {:induction false} WalksValid(data: seq<byte>, tid: seq<byte>, offset: nat, end: nat)
    requires |tid| == 12
    ensures Walk(data, tid, offset, end).Some? ==> ValidAddress(Walk(data, tid, offset, end).value)
    decreases |data| - offset
  {
    if offset + 4 <= end && offset + 4 <= |data| {
      var kind := FromBigEndian(data[offset..offset + 2]);
      var length := FromBigEndian(data[offset + 2..offset + 4]);
      if IsAddressKind(kind) {
        DecodesValid(kind, Slice(data, offset + 4, offset + 4 + length), tid);
      } else {
        WalksValid(data, tid, offset + 4 + PaddedLength(length), end);
      }
    }
  }

  /** Whatever bytes arrive: without the magic cookie and the transaction ID of the request there is
      no answer, and an answer is an address with four or sixteen octets and a 16-bit port. */
  lemma ForeignIsIgnored(data: seq<byte>, tid: seq<byte>)
    requires |tid| == 12 && Parse(data, tid).Some?
    ensures |data| >= 20 && Word(data[4], data[5], data[6], data[7]) == 0x2112_A442 && data[8..20] == tid
    ensures ValidAddress(Parse(data, tid).value)
  {
    NetworkOrder(data[4..8]);
    WalksValid(data, tid, HEADER_LEN, BodyEnd(data, tid).value);
  }

  // ---------------------------------------------------------------- messages cut short

  lemma ValueShape(a: Attribute, addr: Address, tid: seq<byte>)
    requires |tid| == 12 && ValidAddress(addr) && Carries(a, addr, tid)
    ensures |a.value| == 4 + |addr.ip| && a.value[1] == Family(addr)
  {
  }

  predicate NotWrong(read: Option<Address>, addr: Address) {
    read == None || read == Some(addr)
  }

  /** No part of the attribute's value decodes to a wrong address. */
  ghost predicate CutsSafely(a: Attribute, addr: Address, tid: seq<byte>) {
    IsAddressKind(a.kind) && forall cut :: cut <= a.value ==> NotWrong(DecodeAddress(a.kind, cut, tid), addr)
  }

  lemma CutValue(a: Attribute, cut: seq<byte>, addr: Address, tid: seq<byte>)
    requires |tid| == 12 && ValidAddress(addr) && Carries(a, addr, tid) && cut <= a.value
    ensures NotWrong(DecodeAddress(a.kind, cut, tid), addr)
  {
    CarriedIsDecoded(a, addr, tid);
    ValueShape(a, addr, tid);
    if |cut| == |a.value| {
      assert cut == a.value;
    } else {
      assert |cut| >= 8 ==> cut[1] == a.value[1];
    }
  }

  lemma CarrierCutsSafely(a: Attribute, addr: Address, tid: seq<byte>)
    requires |tid| == 12 && ValidAddress(addr) && Carries(a, addr, tid)
    ensures CutsSafely(a, addr, tid)
  {
    forall cut | cut <= a.value
      ensures NotWrong(DecodeAddress(a.kind, cut, tid), addr)
    {
      CutValue(a, cut, addr, tid);
    }
  }

  lemma {:induction false} WalkCut(data: seq<byte>, tail: seq<byte>, tid: seq<byte>, offset: nat, end: nat,
                                   before: seq<Attribute>, a: Attribute, rest: seq<byte>, addr: Address)
    requires CutsSafely(a, addr, tid) && a.Valid() && NoAddress(before) && AllValid(before)
    requires offset <= |data| ==> data[offset..] + tail == EncodeAll(before) + (a.Encode() + rest)
    ensures NotWrong(Walk(data, tid, offset, end), addr)
    decreases |before|
  {
    if offset + 4 <= end && offset + 4 <= |data| {
      if |before| == 0 {
        assert data[offset..] + tail == a.Encode() + rest;
        var cut := StopAtAddress(data, tid, offset, end, a, rest, tail);
        assert NotWrong(DecodeAddress(a.kind, cut, tid), addr);
      } else {
        var b := before[0];
        var more := EncodeAll(before[1..]) + (a.Encode() + rest);
        EncodeFirst(before, a.Encode() + rest);
        SkipOne(data, tid, offset, end, b, more, tail);
        WalkCut(data, tail, tid, offset + |b.Encode()|, end, before[1..], a, rest, addr);
      }
    }
  }

  lemma {:induction false} EncodeAllAppend(xs: seq<Attribute>, ys: seq<Attribute>)
    ensures EncodeAll(xs + ys) == EncodeAll(xs) + EncodeAll(ys)
    decreases |xs|
  {
    if |xs| == 0 {
      assert xs + ys == ys;
    } else {
      assert (xs + ys)[0] == xs[0] && (xs + ys)[1..] == xs[1..] + ys;
      EncodeAllAppend(xs[1..], ys);
    }
  }

  lemma BodyParts(before: seq<Attribute>, a: Attribute, after: seq<Attribute>)
    ensures EncodeAll(before + [a] + after) == EncodeAll(before) + (a.Encode() + EncodeAll(after))
  {
    EncodeAllAppend(before, [a] + after);
    assert before + ([a] + after) == before + [a] + after;
    assert ([a] + after)[1..] == after;
  }

  lemma CutAfterHeader(whole: seq<byte>, k: nat, tid: seq<byte>)
    requires HEADER_LEN <= k <= |whole|
    ensures BodyEnd(whole[..k], tid) == BodyEnd(whole, tid)
    ensures whole[..k][HEADER_LEN..] + whole[k..] == whole[HEADER_LEN..]
  {
    assert whole[..k][2..4] == whole[2..4] && whole[..k][4..8] == whole[4..8] && whole[..k][8..20] == whole[8..20];
  }

  lemma PartsValid(before: seq<Attribute>, a: Attribute, after: seq<Attribute>)
    requires AllValid(before + [a] + after)
    ensures AllValid(before) && a.Valid()
  {
    var attrs := before + [a] + after;
    assert attrs[|before|] == a && forall i :: 0 <= i < |before| ==> before[i] == attrs[i];
  }

  /** A response cut short anywhere never yields a wrong address. */
  lemma CutMessageIsSafe(kind: nat, tid: seq<byte>, before: seq<Attribute>, a: Attribute, after: seq<Attribute>,
                         addr: Address, k: nat)
    requires |tid| == 12 && ValidAddress(addr) && Carries(a, addr, tid)
    requires NoAddress(before) && Sendable(before + [a] + after)
    requires k <= |Encode(kind, tid, before + [a] + after)|
    ensures NotWrong(Parse(Encode(kind, tid, before + [a] + after)[..k], tid), addr)
  {
    var attrs := before + [a] + after;
    var whole := Encode(kind, tid, attrs);
    if k >= HEADER_LEN {
      ParseHeader(kind, tid, attrs, [], tid);
      assert whole + [] == whole;
      CutAfterHeader(whole, k, tid);
      BodyParts(before, a, after);
      PartsValid(before, a, after);
      CarrierCutsSafely(a, addr, tid);
      var body := EncodeAll(before) + (a.Encode() + EncodeAll(after));
      assert body + [] == body;
      WalkCut(whole[..k], whole[k..], tid, HEADER_LEN, HEADER_LEN + |body|, before, a, EncodeAll(after), addr);
    }
  }

  /** The request is the standard's empty Binding message, and holds no address. */
  lemma RequestIsEncoded(tid: seq<byte>)
    ensures BuildBindingRequest(tid).Some? <==> |tid| == 12
    ensures |tid| == 12 ==>
              && BuildBindingRequest(tid) == Some(Encode(0x0001, tid, []))
              && Parse(BuildBindingRequest(tid).value, tid) == None
  {
    if |tid| == 12 {
      var none: seq<Attribute> := [];
      var head := BigEndian(BINDING_REQUEST, 2) + BigEndian(0, 2) + BigEndian(MAGIC_COOKIE, 4) + tid;
      assert EncodeAll(none) == [];
      assert Encode(BINDING_REQUEST, tid, none) == head + [] == head;
      ParseInvertsEncode(BINDING_REQUEST, tid, none, []);
    }
  }
}
