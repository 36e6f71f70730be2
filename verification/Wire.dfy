/** The hand-written BER encoder: lengths, integers, OIDs, values and varbinds. */
module Wire {
  import opened Common
  import opened Bits
  import opened Oids
  import opened Values

  const TAG_INTEGER: Byte := 0x02
  const TAG_OCTET_STRING: Byte := 0x04
  const TAG_OID: Byte := 0x06
  const TAG_SEQUENCE: Byte := 0x30
  const TAG_IPADDRESS: Byte := 0x40
  const TAG_COUNTER32: Byte := 0x41
  const TAG_GAUGE32: Byte := 0x42
  const TAG_TIMETICKS: Byte := 0x43
  const TAG_OPAQUE: Byte := 0x44
  const TAG_COUNTER64: Byte := 0x46

  /** No Python bytes object is longer than this (sys.maxsize of a 64-bit build). */
  const MAX_BYTES: nat := 0x7FFF_FFFF_FFFF_FFFF

  // ------------------------------------------------------------ lengths and TLVs

  /** How many octets the long form spends on a length. */
  function LengthOctets(n: nat): nat {
    (BitLength(n) + 7) / 8
  }

  lemma LengthOctetsFit(n: nat)
    ensures n < Pow2(8 * LengthOctets(n))
    ensures n <= MAX_BYTES ==> LengthOctets(n) <= 8
    ensures n < 0x1_0000_0000 ==> LengthOctets(n) <= 4
    ensures n < 0x1_0000 ==> LengthOctets(n) <= 2
  {
    BitLengthIsLeast(n, BitLength(n));
    Pow2Monotone(BitLength(n), 8 * LengthOctets(n));
    Pow2Values();
    Pow2Of64();
    BitLengthIsLeast(n, 16);
    BitLengthIsLeast(n, 32);
    BitLengthIsLeast(n, 64);
  }

  /** A definite length (X.690 section 8.1.3), in one octet when that suffices. */
  function EncodeLength(n: nat): Bytes
    requires n <= MAX_BYTES
  {
    if n < 0x80 then [n] else
    LengthOctetsFit(n);
    [0x80 + LengthOctets(n)] + ToBytes(n, LengthOctets(n))
  }

  function Tlv(tag: Byte, content: Bytes): Bytes
    requires |content| <= MAX_BYTES
  {
    [tag] + EncodeLength(|content|) + content
  }

  // -------------------------------------------------------------------- integers

  /** The number of content octets spent on an integer. */
  function IntOctets(v: int): nat {
    BitLengthOf(v) / 8 + 1
  }

  /** The octets chosen always hold the number: to_bytes never overflows. */
  lemma IntFits(v: int)
    ensures 0 - Pow2(8 * IntOctets(v) - 1) < v < Pow2(8 * IntOctets(v) - 1)
  {
    var m := if v < 0 then -v else v;
    BitLengthIsLeast(m, BitLength(m));
    Pow2Monotone(BitLength(m), 8 * IntOctets(v) - 1);
  }

  /** Two's complement in IntOctets(v) octets. */
  function IntContent(v: int): (c: Bytes)
    ensures |c| == IntOctets(v)
  {
    IntFits(v);
    ToBytes(if v < 0 then v + Pow2(8 * IntOctets(v)) else v, IntOctets(v))
  }

  // ------------------------------------------------------------------------ OIDs

  /** The sub-identifiers as encoded: the first two arcs share one. */
  function SubIds(oid: Oid): seq<nat>
    requires |oid| >= 2
  {
    [oid[0] * 40 + oid[1]] + oid[2..]
  }

  /** Base-128 digits with the continuation bit on all but the last. */
  function Continued(ds: seq<nat>): (b: Bytes)
    requires forall i :: 0 <= i < |ds| ==> ds[i] < 128
    ensures |b| == |ds|
  {
    if |ds| <= 1 then ds else [0x80 + ds[0]] + Continued(ds[1..])
  }

  lemma {:induction false} ContinuedAt(ds: seq<nat>, i: nat)
    requires (forall j :: 0 <= j < |ds| ==> ds[j] < 128) && i < |ds|
    ensures Continued(ds)[i] == if i < |ds| - 1 then 0x80 + ds[i] else ds[i]
  {
    if i > 0 {
      ContinuedAt(ds[1..], i - 1);
    }
  }

  function SubBytes(sub: nat): Bytes {
    if sub < 0x80 then [sub] else Continued(Septets(sub))
  }

  function SubsBytes(subs: seq<nat>): Bytes {
    if subs == [] then [] else SubBytes(subs[0]) + SubsBytes(subs[1..])
  }

  lemma SubsBytesFrom(before: Bytes, subs: seq<nat>, k: nat)
    requires k < |subs|
    ensures before + SubsBytes(subs[k..]) == before + SubBytes(subs[k]) + SubsBytes(subs[k + 1..])
  {
    assert subs[k..][1..] == subs[k + 1..];
    var first, rest := SubBytes(subs[k]), SubsBytes(subs[k + 1..]);
    assert before + (first + rest) == before + first + rest;
  }

  function OidContent(oid: Oid): Bytes
    requires |oid| >= 2
  {
    SubsBytes(SubIds(oid))
  }

  function Reverse(s: seq<nat>): (r: seq<nat>)
    ensures |r| == |s|
  {
    if s == [] then [] else Reverse(s[1..]) + [s[0]]
  }

  lemma {:induction false} ReverseSnoc(s: seq<nat>, x: nat)
    ensures Reverse(s + [x]) == [x] + Reverse(s)
  {
    if s != [] {
      ReverseSnoc(s[1..], x);
      assert (s + [x])[1..] == s[1..] + [x];
    }
  }

  /** Splits a sub-identifier into its base-128 digits, least significant first, then reverses. */
  method Chunks(sub0: nat) returns (chunks: seq<nat>)
    ensures chunks == Septets(sub0)
  {
    chunks := [];
    var sub := sub0;
    while sub != 0
      invariant Septets(sub) + Reverse(chunks) == Septets(sub0)
      decreases sub
    {
      ReverseSnoc(chunks, sub % 128);
      assert Septets(sub) + Reverse(chunks) == Septets(sub / 128) + ([sub % 128] + Reverse(chunks));
      chunks := chunks + [sub % 128];
      sub := sub / 128;
    }
    chunks := Reverse(chunks);
  }

  /** Appends one sub-identifier of 128 or more: all chunks but the last carry the continuation bit. */
  method AppendChunks(before: Bytes, sub: nat) returns (out: Bytes)
    requires sub >= 0x80
    ensures out == before + SubBytes(sub)
  {
    out := before;
    var chunks := Chunks(sub);
    ghost var all := Continued(chunks);
    for c := 0 to |chunks| - 1
      invariant out == before + all[..c]
    {
      ContinuedAt(chunks, c);
      out := out + [0x80 + chunks[c]];
    }
    ContinuedAt(chunks, |chunks| - 1);
    out := out + [chunks[|chunks| - 1]];
  }

  /** The encoder of OID content; an OID of fewer than two arcs is an error. */
  method EncodeOidContent(oid: Oid) returns (r: Option<Bytes>)
    ensures r == if |oid| < 2 then None else Some(OidContent(oid))
  {
    if |oid| < 2 {
      return None;
    }
    var subs := SubIds(oid);
    var out: Bytes := [];
    for k := 0 to |subs|
      invariant out + SubsBytes(subs[k..]) == OidContent(oid)
    {
      ghost var before := out;
      if subs[k] < 0x80 {
        out := out + [subs[k]];
      } else {
        out := AppendChunks(out, subs[k]);
      }
      assert out == before + SubBytes(subs[k]);
      SubsBytesFrom(before, subs, k);
    }
    assert subs[|subs|..] == [] && out + [] == out;
    return Some(out);
  }

  // -------------------------------------------------------------- values, varbinds

  function Tag(v: Value): Byte {
    match v
    case Counter64(_) => TAG_COUNTER64
    case Counter32(_) => TAG_COUNTER32
    case Gauge32(_) => TAG_GAUGE32
    case TimeTicks(_) => TAG_TIMETICKS
    case IpAddress(_) => TAG_IPADDRESS
    case Opaque(_) => TAG_OPAQUE
    case ObjectId(_) => TAG_OID
    case OctetString(_) => TAG_OCTET_STRING
    case Integer(_) => TAG_INTEGER
  }

  /** A value the encoder does not refuse. */
  predicate EncodableValue(v: Value) {
    v.ObjectId? ==> |v.oid| >= 2
  }

  function ValueContent(v: Value): Bytes
    requires EncodableValue(v)
  {
    match v
    case Counter64(n) => IntContent(n)
    case Counter32(n) => IntContent(n)
    case Gauge32(n) => IntContent(n)
    case TimeTicks(n) => IntContent(n)
    case IpAddress(b) => b
    case Opaque(b) => b
    case ObjectId(oid) => OidContent(oid)
    case OctetString(b) => b
    case Integer(n) => IntContent(n)
  }

  /** A varbind the encoder does not refuse, and whose encoding is a possible bytes object: the
      two headers inside the SEQUENCE take at most 20 octets. */
  predicate Encodable(vb: Binding) {
    && |vb.name| >= 2
    && EncodableValue(vb.val)
    && |OidContent(vb.name)| + |ValueContent(vb.val)| + 20 <= MAX_BYTES
  }

  lemma TlvLength(tag: Byte, content: Bytes)
    requires |content| <= MAX_BYTES
    ensures |Tlv(tag, content)| <= |content| + 10
  {
    LengthOctetsFit(|content|);
  }

  /** The inside of a varbind's SEQUENCE. */
  function VarbindContent(vb: Binding): (b: Bytes)
    requires Encodable(vb)
    ensures |b| <= MAX_BYTES
  {
    TlvLength(TAG_OID, OidContent(vb.name));
    TlvLength(Tag(vb.val), ValueContent(vb.val));
    Tlv(TAG_OID, OidContent(vb.name)) + Tlv(Tag(vb.val), ValueContent(vb.val))
  }

  function EncodeVarbind(vb: Binding): Bytes
    requires Encodable(vb)
  {
    Tlv(TAG_SEQUENCE, VarbindContent(vb))
  }

  /** Two arcs are all the encoder asks of an OID: every such varbind with contents of up to 2^62 octets is
      encoded, and no other kind is. The headers take at most 30 octets. */
  lemma TwoArcsSuffice(vb: Binding)
    ensures if |vb.name| < 2 || (vb.val.ObjectId? && |vb.val.oid| < 2) then !Encodable(vb)
            else
              var contents := |OidContent(vb.name)| + |ValueContent(vb.val)|;
              && (contents <= 0x4000_0000_0000_0000 ==> Encodable(vb))
              && (Encodable(vb) ==> |EncodeVarbind(vb)| <= contents + 30)
  {
    hide OidContent, ValueContent, Tlv;
    if Encodable(vb) {
      TlvLength(TAG_OID, OidContent(vb.name));
      TlvLength(Tag(vb.val), ValueContent(vb.val));
      TlvLength(TAG_SEQUENCE, VarbindContent(vb));
    }
  }

  /** Every varbind of a snapshot, encoded when the snapshot is built. */
  function PrecomputeWire(vbs: seq<Binding>): (wire: seq<Bytes>)
    requires forall i :: 0 <= i < |vbs| ==> Encodable(vbs[i])
    ensures |wire| == |vbs|
  {
    seq(|vbs|, i requires 0 <= i < |vbs| => EncodeVarbind(vbs[i]))
  }

  function Join(parts: seq<Bytes>): Bytes {
    if parts == [] then [] else parts[0] + Join(parts[1..])
  }
}
