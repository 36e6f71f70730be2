/** Sizes predicted without encoding, and the proof that they are the encoder's. */
module Sizes {
  import opened Common
  import opened Bits
  import opened Oids
  import opened Values
  import opened Wire

  /** Identifier octet, length field and content. */
  function TlvLen(contentLen: nat): nat {
    if contentLen < 0x80 then 2 + contentLen else 2 + (BitLength(contentLen) + 7) / 8 + contentLen
  }

  function SubLen(sub: nat): nat {
    if sub < 0x80 then 1 else (BitLength(sub) + 6) / 7
  }

  function SubsLen(subs: seq<nat>): nat {
    if subs == [] then 0 else SubLen(subs[0]) + SubsLen(subs[1..])
  }

  function OidContentLen(oid: Oid): nat {
    if |oid| < 2 then 1 else SubsLen(SubIds(oid))
  }

  function IntContentLen(v: int): nat {
    BitLengthOf(v) / 8 + 1
  }

  function ValueContentLen(v: Value): nat {
    match v
    case OctetString(b) => |b|
    case IpAddress(b) => |b|
    case Opaque(b) => |b|
    case Counter64(n) => IntContentLen(n)
    case Counter32(n) => IntContentLen(n)
    case Gauge32(n) => IntContentLen(n)
    case TimeTicks(n) => IntContentLen(n)
    case ObjectId(oid) => OidContentLen(oid)
    case Integer(n) => IntContentLen(n)
  }

  function VarbindSize(name: Oid, val: Value): nat {
    TlvLen(TlvLen(OidContentLen(name)) + TlvLen(ValueContentLen(val)))
  }

  function VarbindSizes(oids: seq<Oid>, vals: seq<Value>): (sizes: seq<nat>)
    requires |oids| == |vals|
    ensures |sizes| == |oids|
  {
    seq(|oids|, i requires 0 <= i < |oids| => VarbindSize(oids[i], vals[i]))
  }

  /** The accumulating loop over the sub-identifiers. */
  method ComputeOidContentLen(oid: Oid) returns (total: nat)
    ensures total == OidContentLen(oid)
    ensures |oid| < 2 ==> total == 1
  {
    if |oid| < 2 {
      return 1;
    }
    var subs := SubIds(oid);
    total := 0;
    for k := 0 to |subs|
      invariant total + SubsLen(subs[k..]) == OidContentLen(oid)
    {
      assert subs[k..][1..] == subs[k + 1..];
      total := total + if subs[k] < 0x80 then 1 else (BitLength(subs[k]) + 6) / 7;
    }
  }

  /** One size per row, when the snapshot is built. */
  method PrecomputeSizes(oids: seq<Oid>, vals: seq<Value>) returns (sizes: seq<nat>)
    requires |oids| == |vals|
    ensures sizes == VarbindSizes(oids, vals)
  {
    sizes := [];
    for k := 0 to |oids|
      invariant |sizes| == k
      invariant forall i :: 0 <= i < k ==> sizes[i] == VarbindSize(oids[i], vals[i])
    {
      var nameLen := ComputeOidContentLen(oids[k]);
      var inner := TlvLen(nameLen) + TlvLen(ValueContentLen(vals[k]));
      sizes := sizes + [TlvLen(inner)];
    }
  }

  lemma TlvLenIsExact(tag: Byte, content: Bytes)
    requires |content| <= MAX_BYTES
    ensures TlvLen(|content|) == |Tlv(tag, content)|
  {
    LengthOctetsFit(|content|);
  }

  lemma SubLenIsExact(sub: nat)
    ensures SubLen(sub) == |SubBytes(sub)|
  {
    SeptetCount(sub);
  }

  lemma {:induction false} SubsLenIsExact(subs: seq<nat>)
    ensures SubsLen(subs) == |SubsBytes(subs)|
  {
    if subs != [] {
      SubLenIsExact(subs[0]);
      SubsLenIsExact(subs[1..]);
    }
  }

  /** The predicted size of a varbind is the length of its encoding, for every varbind that the
      encoder does not refuse. */
  lemma SizeIsExact(vb: Binding)
    requires Encodable(vb)
    ensures VarbindSize(vb.name, vb.val) == |EncodeVarbind(vb)|
  {
    SubsLenIsExact(SubIds(vb.name));
    if vb.val.ObjectId? {
      SubsLenIsExact(SubIds(vb.val.oid));
    }
    assert ValueContentLen(vb.val) == |ValueContent(vb.val)|;
    TlvLenIsExact(TAG_OID, OidContent(vb.name));
    TlvLenIsExact(Tag(vb.val), ValueContent(vb.val));
    TlvLenIsExact(TAG_SEQUENCE, VarbindContent(vb));
  }

  /** Precomputed sizes are the lengths of the precomputed encodings, row by row. */
  lemma SizesAreWireLengths(vbs: seq<Binding>, oids: seq<Oid>, vals: seq<Value>)
    requires |oids| == |vals| == |vbs|
    requires forall i :: 0 <= i < |vbs| ==> Encodable(vbs[i]) && vbs[i] == Bound(oids[i], vals[i])
    ensures forall i :: 0 <= i < |vbs| ==> VarbindSizes(oids, vals)[i] == |PrecomputeWire(vbs)[i]|
  {
    forall i | 0 <= i < |vbs| ensures VarbindSizes(oids, vals)[i] == |PrecomputeWire(vbs)[i]| {
      SizeIsExact(vbs[i]);
    }
  }
}
