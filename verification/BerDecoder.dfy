/** A reader of BER as X.690 defines it, written from the standard and not from the encoder. */
module BerDecoder {
  import opened Common
  import opened Bits
  import opened Oids
  import opened Values

  /** One element: its identifier octet, its content, and what follows it. */
  datatype Element = Element(tag: Byte, content: Bytes, rest: Bytes)

  datatype LengthField = LengthField(length: nat, rest: Bytes)

  /** Section 8.1.3: a definite length, short or long form; the indefinite form and the reserved
      octet 0xFF are refused. */
  function DecodeLength(b: Bytes): (r: Option<LengthField>)
    ensures r.Some? ==> |r.value.rest| < |b|
  {
    if b == [] then None
    else if b[0] < 0x80 then Some(LengthField(b[0], b[1..]))
    else
      var k := b[0] - 0x80;
      if k == 0 || k == 127 || |b| < 1 + k then None
      else Some(LengthField(Number(b[1..1 + k], 256), b[1 + k..]))
  }

  /** Section 8.1: identifier octet (low-tag-number form), length, content. */
  function DecodeElement(b: Bytes): (r: Option<Element>)
    ensures r.Some? ==> |r.value.rest| < |b|
  {
    if b == [] || b[0] % 32 == 31 then None else
    var field :- DecodeLength(b[1..]);
    if |field.rest| < field.length then None
    else Some(Element(b[0], field.rest[..field.length], field.rest[field.length..]))
  }

  /** Section 8.3: two's complement in one or more octets. */
  function DecodeInt(c: Bytes): Option<int> {
    if c == [] then None
    else if c[0] >= 128 then Some(Number(c, 256) - Pow2(8 * |c|))
    else Some(Number(c, 256))
  }

  /** Section 8.3.2: the first nine bits are neither all zero nor all one. */
  predicate ShortestInt(c: Bytes) {
    |c| <= 1 || !((c[0] == 0 && c[1] < 128) || (c[0] == 255 && c[1] >= 128))
  }

  datatype SubId = SubId(sub: nat, rest: Bytes)

  /** Section 8.19.2: base-128 digits, bit 8 set on all but the last. */
  function DecodeSub(b: Bytes, acc: nat): (r: Option<SubId>)
    ensures r.Some? ==> |r.value.rest| < |b|
  {
    if b == [] then None
    else if b[0] < 128 then Some(SubId(acc * 128 + b[0], b[1..]))
    else DecodeSub(b[1..], acc * 128 + (b[0] - 128))
  }

  /** The leading octet of a sub-identifier is never 0x80. */
  function DecodeSubs(b: Bytes): Option<seq<nat>>
    decreases |b|
  {
    if b == [] then Some([])
    else if b[0] == 0x80 then None
    else
      var first :- DecodeSub(b, 0);
      var others :- DecodeSubs(first.rest);
      Some([first.sub] + others)
  }

  /** Section 8.19.4: the first sub-identifier is X * 40 + Y, with X at most 2. */
  function SplitFirst(sub: nat): Oid {
    var x := Min(sub / 40, 2);
    [x, sub - 40 * x]
  }

  function DecodeOid(c: Bytes): Option<Oid> {
    var subs :- DecodeSubs(c);
    if subs == [] then None else Some(SplitFirst(subs[0]) + subs[1..])
  }

  /** The value of a varbind, by its tag (RFC 2578 section 7.1 and X.690). */
  function DecodeValue(tag: Byte, c: Bytes): Option<Value> {
    match tag
    case 0x02 => var n :- DecodeInt(c); Some(Integer(n))
    case 0x04 => Some(OctetString(c))
    case 0x06 => var oid :- DecodeOid(c); Some(ObjectId(oid))
    case 0x40 => Some(IpAddress(c))
    case 0x41 => var n :- DecodeInt(c); Some(Counter32(n))
    case 0x42 => var n :- DecodeInt(c); Some(Gauge32(n))
    case 0x43 => var n :- DecodeInt(c); Some(TimeTicks(n))
    case 0x44 => Some(Opaque(c))
    case 0x46 => var n :- DecodeInt(c); Some(Counter64(n))
    case _ => None
  }

  datatype Decoded = Decoded(vb: Binding, rest: Bytes)

  /** VarBind ::= SEQUENCE { name, value } */
  function DecodeVarbind(b: Bytes): (r: Option<Decoded>)
    ensures r.Some? ==> |r.value.rest| < |b|
  {
    var outer :- DecodeElement(b);
    if outer.tag != 0x30 then None else
    var name :- DecodeElement(outer.content);
    if name.tag != 0x06 then None else
    var oid :- DecodeOid(name.content);
    var val :- DecodeElement(name.rest);
    if val.rest != [] then None else
    var v :- DecodeValue(val.tag, val.content);
    Some(Decoded(Bound(oid, v), outer.rest))
  }

  /** A varbind list fills its octets completely. */
  function DecodeVarbinds(b: Bytes): Option<seq<Binding>>
    decreases |b|
  {
    if b == [] then Some([]) else
    var first :- DecodeVarbind(b);
    var others :- DecodeVarbinds(first.rest);
    Some([first.vb] + others)
  }
}
