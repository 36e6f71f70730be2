/** The decoder undoes the encoder: per element, per varbind and for whole varbind lists. */
module WireRoundTrip {
  import opened Common
  import opened Bits
  import opened Oids
  import opened Values
  import opened Wire
  import opened BerDecoder

  // -------------------------------------------------------------------- elements

  lemma LengthRoundTrip(n: nat, tail: Bytes)
    requires n <= MAX_BYTES
    ensures DecodeLength(EncodeLength(n) + tail) == Some(LengthField(n, tail))
  {
    var b := EncodeLength(n) + tail;
    if n < 0x80 {
      assert b[1..] == tail;
    } else {
      LengthOctetsFit(n);
      var k := LengthOctets(n);
      BitLengthIsLeast(n, 0);
      assert k > 0;
      assert b[1..1 + k] == ToBytes(n, k) && b[1 + k..] == tail;
      BytesDenote(n, k);
    }
  }

  /** An encoded element is read back whatever follows it. */
  lemma ElementRoundTrip(tag: Byte, content: Bytes, tail: Bytes)
    requires |content| <= MAX_BYTES && tag % 32 != 31
    ensures DecodeElement(Tlv(tag, content) + tail) == Some(Element(tag, content, tail))
  {
    var b := Tlv(tag, content) + tail;
    assert b[1..] == EncodeLength(|content|) + (content + tail);
    LengthRoundTrip(|content|, content + tail);
    assert (content + tail)[..|content|] == content && (content + tail)[|content|..] == tail;
  }

  // -------------------------------------------------------------------- integers

  lemma Doubles(n: nat)
    requires n >= 1
    ensures Pow2(8 * n) == 2 * Pow2(8 * n - 1)
  {
  }

  /** Every integer, of either sign, is read back. */
  lemma IntRoundTrip(v: int)
    ensures DecodeInt(IntContent(v)) == Some(v)
  {
    var n := IntOctets(v);
    IntFits(v);
    Doubles(n);
    var u := if v < 0 then v + Pow2(8 * n) else v;
    assert u < Pow2(8 * n) && (u >= Pow2(8 * n - 1) <==> v < 0);
    TopBit(u, n);
    BytesDenote(u, n);
  }

  /** The two leading octets, as ranges of the number they lead. */
  lemma {:induction false} TopTwoOctets(u: nat, n: nat)
    requires n >= 2 && u < Pow2(8 * n)
    ensures (ToBytes(u, n)[0] == 0 && ToBytes(u, n)[1] < 128) <==> u < Pow2(8 * n - 9)
    ensures (ToBytes(u, n)[0] == 255 && ToBytes(u, n)[1] >= 128) <==> u >= Pow2(8 * n) - Pow2(8 * n - 9)
    decreases n
  {
    Pow2Step8(8 * n - 8);
    if n == 2 {
      assert Pow2(8) == 256 && Pow2(7) == 128;
      assert ToBytes(u / 256, 1) == ToBytes(u / 256 / 256, 0) + [u / 256 % 256];
    } else {
      TopTwoOctets(u / 256, n - 1);
      Pow2Step8(8 * n - 17);
      var p, q := Pow2(8 * n - 8), Pow2(8 * n - 17);
      assert u / 256 < q <==> u < 256 * q;
      assert u / 256 >= p - q <==> u >= 256 * (p - q);
    }
  }

  /** With two or more octets, the only redundant encoding is that of -2^(8(n-1)-1). */
  lemma RedundantInt(v: int)
    requires IntOctets(v) >= 2
    ensures ShortestInt(IntContent(v)) <==> v != 0 - Pow2(8 * (IntOctets(v) - 1) - 1)
  {
    var n := IntOctets(v);
    IntFits(v);
    Doubles(n);
    var m := if v < 0 then -v else v;
    var u := if v < 0 then v + Pow2(8 * n) else v;
    Pow2Monotone(8 * n - 9, 8 * n - 1);
    assert m >= Pow2(8 * n - 9) by { BitLengthIsLeast(m, 8 * n - 9); }
    TopTwoOctets(u, n);
  }

  lemma BoundaryOctets(k: nat)
    requires k >= 1
    ensures IntOctets(0 - Pow2(8 * k - 1)) == k + 1
  {
    Doubles(k);
    BitLengthIsLeast(Pow2(8 * k - 1), 8 * k - 1);
    BitLengthIsLeast(Pow2(8 * k - 1), 8 * k);
  }

  /** The encoder's integers are the shortest X.690 allows, except at the negative boundaries
      -2^(8k-1), where one redundant octet is spent. */
  lemma IntIsShortestIff(v: int)
    ensures ShortestInt(IntContent(v)) <==> forall k: nat :: k >= 1 ==> v != 0 - Pow2(8 * k - 1)
  {
    forall k: nat | k >= 1 && v == 0 - Pow2(8 * k - 1) ensures IntOctets(v) == k + 1 {
      BoundaryOctets(k);
    }
    if IntOctets(v) >= 2 {
      RedundantInt(v);
    }
  }

  /** A concrete such integer: -128 is encoded in the octets FF 80, where 80 would do. */
  lemma MinusOneTwentyEight()
    ensures IntContent(-128) == [0xFF, 0x80] && DecodeInt([0x80]) == Some(-128)
  {
    Pow2Values();
    assert IntOctets(-128) == 2 by { BitLengthIsLeast(128, 8); BitLengthIsLeast(128, 7); }
    assert ToBytes(0xFF80, 2) == ToBytes(0xFF, 1) + [0x80];
    assert ToBytes(0xFF, 1) == ToBytes(0, 0) + [0xFF];
    assert [0x80][..0] == [];
  }

  // ------------------------------------------------------------------------ OIDs

  /** Base-128 digits read from the front, starting from `acc`. */
  function Accumulate(acc: nat, ds: seq<nat>): nat
    decreases |ds|
  {
    if ds == [] then acc else Accumulate(acc * 128 + ds[0], ds[1..])
  }

  lemma {:induction false} AccumulateSnoc(acc: nat, ds: seq<nat>, d: nat)
    ensures Accumulate(acc, ds + [d]) == Accumulate(acc, ds) * 128 + d
    decreases |ds|
  {
    if ds == [] {
      assert ([d])[1..] == [];
    } else {
      AccumulateSnoc(acc * 128 + ds[0], ds[1..], d);
      assert (ds + [d])[1..] == ds[1..] + [d];
    }
  }

  lemma {:induction false} AccumulateSeptets(n: nat)
    ensures Accumulate(0, Septets(n)) == n
  {
    if n > 0 {
      AccumulateSeptets(n / 128);
      AccumulateSnoc(0, Septets(n / 128), n % 128);
    }
  }

  lemma {:induction false} ContinuedRoundTrip(ds: seq<nat>, acc: nat, tail: Bytes)
    requires ds != [] && forall i :: 0 <= i < |ds| ==> ds[i] < 128
    ensures DecodeSub(Continued(ds) + tail, acc) == Some(SubId(Accumulate(acc, ds), tail))
    decreases |ds|
  {
    var b := Continued(ds) + tail;
    if |ds| == 1 {
      assert b[1..] == tail && ds[1..] == [];
    } else {
      assert b[1..] == Continued(ds[1..]) + tail;
      ContinuedRoundTrip(ds[1..], acc * 128 + ds[0], tail);
    }
  }

  lemma SubRoundTrip(sub: nat, tail: Bytes)
    ensures SubBytes(sub) != [] && SubBytes(sub)[0] != 0x80
    ensures DecodeSub(SubBytes(sub) + tail, 0) == Some(SubId(sub, tail))
  {
    if sub < 0x80 {
      assert ([sub] + tail)[1..] == tail;
    } else {
      AccumulateSeptets(sub);
      ContinuedRoundTrip(Septets(sub), 0, tail);
      ContinuedAt(Septets(sub), 0);
    }
  }

  lemma {:induction false} SubsRoundTrip(subs: seq<nat>)
    ensures DecodeSubs(SubsBytes(subs)) == Some(subs)
    decreases |subs|
  {
    if subs != [] {
      SubRoundTrip(subs[0], SubsBytes(subs[1..]));
      SubsRoundTrip(subs[1..]);
      assert [subs[0]] + subs[1..] == subs;
    }
  }

  /** Arcs that X.690 section 8.19.4 can express: the first at most 2, the second below 40 when
      the first is 0 or 1. */
  predicate ValidArcs(oid: Oid) {
    |oid| >= 2 && oid[0] <= 2 && (oid[0] < 2 ==> oid[1] < 40)
  }

  /** An OID as the decoder sees it. */
  function Normal(oid: Oid): Oid
    requires |oid| >= 2
  {
    SplitFirst(oid[0] * 40 + oid[1]) + oid[2..]
  }

  /** The decoder recovers the OID exactly when its arcs are valid. */
  lemma OidRoundTripIff(oid: Oid)
    requires |oid| >= 2
    ensures DecodeOid(OidContent(oid)) == Some(Normal(oid))
    ensures Normal(oid) == oid <==> ValidArcs(oid)
  {
    SubsRoundTrip(SubIds(oid));
    assert SubIds(oid)[1..] == oid[2..];
    var n := Normal(oid);
    assert oid == [oid[0], oid[1]] + oid[2..];
    if n == oid {
      assert n[0] == oid[0] && n[1] == oid[1];
    }
  }

  // -------------------------------------------------------------------- varbinds

  predicate Recoverable(vb: Binding) {
    Encodable(vb) && ValidArcs(vb.name) && (vb.val.ObjectId? ==> ValidArcs(vb.val.oid))
  }

  /** A varbind as the decoder sees it. */
  function NormalBinding(vb: Binding): Binding
    requires Encodable(vb)
  {
    Bound(Normal(vb.name), if vb.val.ObjectId? then ObjectId(Normal(vb.val.oid)) else vb.val)
  }

  lemma ValueRoundTrip(v: Value)
    requires EncodableValue(v)
    ensures DecodeValue(Tag(v), ValueContent(v)) ==
            Some(if v.ObjectId? then ObjectId(Normal(v.oid)) else v)
  {
    hide IntContent, OidContent, DecodeInt, DecodeOid, Normal;
    match v
    case Counter64(n) => IntRoundTrip(n);
    case Counter32(n) => IntRoundTrip(n);
    case Gauge32(n) => IntRoundTrip(n);
    case TimeTicks(n) => IntRoundTrip(n);
    case ObjectId(oid) => OidRoundTripIff(oid);
    case Integer(n) => IntRoundTrip(n);
    case _ =>
  }

  lemma VarbindRoundTrip(vb: Binding, tail: Bytes)
    requires Encodable(vb)
    ensures DecodeVarbind(EncodeVarbind(vb) + tail) == Some(Decoded(NormalBinding(vb), tail))
    ensures NormalBinding(vb) == vb <==> Recoverable(vb)
  {
    hide DecodeElement, DecodeOid, DecodeValue, OidContent, ValueContent, Normal;
    var content := VarbindContent(vb);
    var nameBytes, valBytes := OidContent(vb.name), ValueContent(vb.val);
    ElementRoundTrip(TAG_SEQUENCE, content, tail);
    ElementRoundTrip(TAG_OID, nameBytes, Tlv(Tag(vb.val), valBytes));
    OidRoundTripIff(vb.name);
    assert Tlv(Tag(vb.val), valBytes) + [] == Tlv(Tag(vb.val), valBytes);
    ElementRoundTrip(Tag(vb.val), valBytes, []);
    ValueRoundTrip(vb.val);
    if vb.val.ObjectId? {
      OidRoundTripIff(vb.val.oid);
    }
  }

  predicate AllEncodable(vbs: seq<Binding>) {
    forall i :: 0 <= i < |vbs| ==> Encodable(vbs[i])
  }

  function EncodeAll(vbs: seq<Binding>): Bytes
    requires AllEncodable(vbs)
  {
    Join(PrecomputeWire(vbs))
  }

  function NormalAll(vbs: seq<Binding>): (all: seq<Binding>)
    requires AllEncodable(vbs)
    ensures |all| == |vbs| && forall i :: 0 <= i < |vbs| ==> all[i] == NormalBinding(vbs[i])
  {
    if vbs == [] then [] else [NormalBinding(vbs[0])] + NormalAll(vbs[1..])
  }

  lemma EncodeAllCons(vb: Binding, vbs: seq<Binding>)
    requires Encodable(vb) && AllEncodable(vbs)
    ensures EncodeAll([vb] + vbs) == EncodeVarbind(vb) + EncodeAll(vbs)
  {
    assert PrecomputeWire([vb] + vbs)[1..] == PrecomputeWire(vbs);
  }

  /** Decoding the concatenated encodings gives the list back, each OID as X.690 splits it. */
  lemma {:induction false} VarbindsDecode(vbs: seq<Binding>)
    requires AllEncodable(vbs)
    ensures DecodeVarbinds(EncodeAll(vbs)) == Some(NormalAll(vbs))
    decreases |vbs|
  {
    if vbs != [] {
      var vb, rest := vbs[0], vbs[1..];
      assert vbs == [vb] + rest;
      EncodeAllCons(vb, rest);
      VarbindRoundTrip(vb, EncodeAll(rest));
      VarbindsDecode(rest);
    }
  }

  /** The original list comes back exactly when every OID in it has valid arcs. */
  lemma VarbindsRoundTripIff(vbs: seq<Binding>)
    requires AllEncodable(vbs)
    ensures DecodeVarbinds(EncodeAll(vbs)) == Some(vbs) <==> forall i :: 0 <= i < |vbs| ==> Recoverable(vbs[i])
  {
    VarbindsDecode(vbs);
    forall i | 0 <= i < |vbs| ensures NormalBinding(vbs[i]) == vbs[i] <==> Recoverable(vbs[i]) {
      VarbindRoundTrip(vbs[i], []);
    }
    var all := NormalAll(vbs);
    if all == vbs {
      forall i | 0 <= i < |vbs| ensures Recoverable(vbs[i]) {
        assert all[i] == vbs[i];
      }
    }
  }

  /** Self-delimiting: no two varbinds encode so that one begins the other. */
  lemma VarbindIsPrefixFree(a: Binding, b: Binding, x: Bytes, y: Bytes)
    requires Recoverable(a) && Recoverable(b)
    requires EncodeVarbind(a) + x == EncodeVarbind(b) + y
    ensures a == b && x == y
  {
    VarbindRoundTrip(a, x);
    VarbindRoundTrip(b, y);
  }

  /** Injective on lists. */
  lemma EncodeAllIsInjective(a: seq<Binding>, b: seq<Binding>)
    requires AllEncodable(a) && (forall i :: 0 <= i < |a| ==> Recoverable(a[i]))
    requires AllEncodable(b) && (forall i :: 0 <= i < |b| ==> Recoverable(b[i]))
    requires EncodeAll(a) == EncodeAll(b)
    ensures a == b
  {
    VarbindsRoundTripIff(a);
    VarbindsRoundTripIff(b);
  }
}
