/** A whole response message, assembled from varbinds that were encoded in advance. */
module Response {
  import opened Common
  import opened Bits
  import opened Oids
  import opened Values
  import opened Wire
  import opened BerDecoder
  import opened WireRoundTrip
  import opened Sizes
  import opened Mib

  const MAX_RESPONSE := 1400
  const BUDGET := 1400 - 120
  const TAG_RESPONSE: Byte := 0xA2

  function IntTlv(v: int): Bytes
    requires IntOctets(v) <= MAX_BYTES
  {
    Tlv(TAG_INTEGER, IntContent(v))
  }

  /** What an SNMPv2c response says: its community, request id and varbinds, without an error. */
  datatype Message = Message(version: int, community: Bytes, requestId: int, errorStatus: int, errorIndex: int,
                             varbinds: seq<Binding>)

  /** The request id is an Integer32 (RFC 3416 section 3). */
  predicate IsInteger32(v: int) {
    -0x8000_0000 <= v < 0x8000_0000
  }

  lemma SmallInt(v: int)
    requires IsInteger32(v)
    ensures IntOctets(v) <= 5
  {
    BitLengthIsLeast(if v < 0 then -v else v, 32);
    Pow2Values();
  }

  /** A message whose encoding is a possible bytes object. */
  predicate Buildable(community: Bytes, requestId: int, body: Bytes) {
    IsInteger32(requestId) && |community| + |body| + 100 <= MAX_BYTES
  }

  function PduContent(requestId: int, body: Bytes): (b: Bytes)
    requires IsInteger32(requestId) && |body| + 100 <= MAX_BYTES
    ensures |b| <= |body| + 45
  {
    SmallInt(requestId);
    TlvLength(TAG_INTEGER, IntContent(requestId));
    TlvLength(TAG_INTEGER, IntContent(0));
    TlvLength(TAG_SEQUENCE, body);
    IntTlv(requestId) + (IntTlv(0) + (IntTlv(0) + Tlv(TAG_SEQUENCE, body)))
  }

  function MessageContent(community: Bytes, requestId: int, body: Bytes): (b: Bytes)
    requires Buildable(community, requestId, body)
    ensures |b| <= |community| + |body| + 76
  {
    TlvLength(TAG_INTEGER, IntContent(1));
    TlvLength(TAG_OCTET_STRING, community);
    TlvLength(TAG_RESPONSE, PduContent(requestId, body));
    IntTlv(1) + (Tlv(TAG_OCTET_STRING, community) + Tlv(TAG_RESPONSE, PduContent(requestId, body)))
  }

  function MessageBytes(community: Bytes, requestId: int, body: Bytes): Bytes
    requires Buildable(community, requestId, body)
  {
    Tlv(TAG_SEQUENCE, MessageContent(community, requestId, body))
  }

  // -------------------------------------------------------------------- the method

  /** Rows as the wire path sees them: every row readable, its size the length of its encoding. */
  predicate OnWire(s: Snapshot, wire: seq<Bytes>) {
    && |s.oids| == |s.vals| == |s.sizes| == |wire|
    && forall i :: 0 <= i < |wire| ==> s.sizes[i] == |wire[i]|
  }

  function Parts(wire: seq<Bytes>, ks: seq<nat>): (parts: seq<Bytes>)
    requires forall a :: 0 <= a < |ks| ==> ks[a] < |wire|
    ensures |parts| == |ks|
  {
    seq(|ks|, i requires 0 <= i < |ks| => wire[ks[i]])
  }

  /** The rows of the response: the slice's rows for a view that lets everything be read. */
  function Chosen(s: Snapshot, start: Oid, maxRepetitions: int): (ks: seq<nat>)
    requires s.Aligned()
    ensures InRange(s, ks)
  {
    Take(s, ReadAll, After(s, start), Min(maxRepetitions, 25), 0, BUDGET, true)
  }

  lemma PartsSnoc(wire: seq<Bytes>, ks: seq<nat>, i: nat)
    requires (forall a :: 0 <= a < |ks| ==> ks[a] < |wire|) && i < |wire|
    ensures Parts(wire, ks + [i]) == Parts(wire, ks) + [wire[i]]
  {
  }

  /** The loop that collects encoded varbinds under the byte budget. */
  method CollectParts(s: Snapshot, wire: seq<Bytes>, maxRepetitions: int, start: Oid) returns (parts: seq<Bytes>)
    requires OnWire(s, wire)
    ensures parts == Parts(wire, Chosen(s, start, maxRepetitions))
  {
    hide Take, BisectRight;
    var maxrep := Min(maxRepetitions, 25);
    var i := BisectRight(s.oids, start, 0, |s.oids|);
    var used: nat := 0;
    ghost var ks: seq<nat> := [];
    parts := [];
    var end := Min(i + maxrep, |s.oids|);
    while i < end
      invariant i == After(s, start) + |ks| <= |s.oids|
      invariant InRange(s, ks) && parts == Parts(wire, ks)
      invariant ks + Take(s, ReadAll, i, maxrep - |ks|, used, BUDGET, parts == []) == Chosen(s, start, maxRepetitions)
      decreases end - i
    {
      var w := wire[i];
      if parts != [] && used + |w| > BUDGET {
        TakeStops(s, ReadAll, i, maxrep - |ks|, used, BUDGET, false);
        break;
      }
      TakeStep(s, ReadAll, ks, i, maxrep - |ks|, used, BUDGET, parts == []);
      PartsSnoc(wire, ks, i);
      used := used + |w|;
      parts := parts + [w];
      ks := ks + [i];
      i := i + 1;
    }
    if i >= end {
      TakeStops(s, ReadAll, i, maxrep - |ks|, used, BUDGET, parts == []);
    }
    assert ks + [] == ks;
  }

  lemma Associate(a: Bytes, b: Bytes, c: Bytes, d: Bytes)
    ensures a + b + c + d == a + (b + (c + d))
    ensures a + b + c == a + (b + c)
  {
  }

  /** Concatenates the message around the joined varbinds. */
  method Assemble(parts: seq<Bytes>, community: Bytes, requestId: int) returns (rsp: Bytes)
    requires Buildable(community, requestId, Join(parts))
    ensures rsp == MessageBytes(community, requestId, Join(parts))
  {
    SmallInt(requestId);
    var vbl := Tlv(TAG_SEQUENCE, Join(parts));
    var pdu := IntTlv(requestId) + IntTlv(0) + IntTlv(0) + vbl;
    assert pdu == PduContent(requestId, Join(parts)) by { Associate(IntTlv(requestId), IntTlv(0), IntTlv(0), vbl); }
    var rpdu := Tlv(TAG_RESPONSE, pdu);
    var content := IntTlv(1) + Tlv(TAG_OCTET_STRING, community) + rpdu;
    assert content == MessageContent(community, requestId, Join(parts)) by {
      Associate(IntTlv(1), Tlv(TAG_OCTET_STRING, community), rpdu, []);
    }
    rsp := Tlv(TAG_SEQUENCE, content);
  }

  /** The request path: bisect, collect, and concatenate the message around the varbinds. */
  method HandleFullWire(
    s: Snapshot, wire: seq<Bytes>, community: Bytes, requestId: int, maxRepetitions: int, start: Oid)
    returns (rsp: Bytes)
    requires OnWire(s, wire)
    requires Buildable(community, requestId, Join(Parts(wire, Chosen(s, start, maxRepetitions))))
    ensures rsp == MessageBytes(community, requestId, Join(Parts(wire, Chosen(s, start, maxRepetitions))))
  {
    var parts := CollectParts(s, wire, maxRepetitions, start);
    rsp := Assemble(parts, community, requestId);
  }

  // -------------------------------------------------------------------- its size

  lemma {:induction false} PartsUse(s: Snapshot, wire: seq<Bytes>, ks: seq<nat>)
    requires OnWire(s, wire) && InRange(s, ks)
    ensures |Join(Parts(wire, ks))| == Used(s, ks)
  {
    if ks != [] {
      PartsUse(s, wire, ks[1..]);
      assert Parts(wire, ks)[1..] == Parts(wire, ks[1..]);
    }
  }

  /** The varbinds use at most the budget, or there is exactly one of them. */
  lemma VarbindsFitOrSingle(s: Snapshot, wire: seq<Bytes>, start: Oid, maxRepetitions: int)
    requires OnWire(s, wire) && s.Valid()
    ensures |Join(Parts(wire, Chosen(s, start, maxRepetitions)))| <= 1280 || |Chosen(s, start, maxRepetitions)| == 1
  {
    PartsUse(s, wire, Chosen(s, start, maxRepetitions));
    if maxRepetitions >= 1 {
      TakenFits(s, ReadAll, start, Min(maxRepetitions, 25), BUDGET);
    }
  }

  /** The length of the message, from the lengths of what varies in it. */
  lemma MessageLength(community: Bytes, requestId: int, body: Bytes)
    requires Buildable(community, requestId, body)
    ensures var pdu := TlvLen(IntOctets(requestId)) + 6 + TlvLen(|body|);
            |MessageBytes(community, requestId, body)| == TlvLen(3 + TlvLen(|community|) + TlvLen(pdu))
  {
    SmallInt(requestId);
    TlvLenIsExact(TAG_INTEGER, IntContent(requestId));
    TlvLenIsExact(TAG_INTEGER, IntContent(0));
    TlvLenIsExact(TAG_INTEGER, IntContent(1));
    TlvLenIsExact(TAG_SEQUENCE, body);
    TlvLenIsExact(TAG_RESPONSE, PduContent(requestId, body));
    TlvLenIsExact(TAG_OCTET_STRING, community);
    TlvLenIsExact(TAG_SEQUENCE, MessageContent(community, requestId, body));
  }

  lemma TlvLenBounds(n: nat)
    ensures n < 0x80 ==> TlvLen(n) == n + 2
    ensures 0x100 <= n < 0x10000 ==> TlvLen(n) == n + 4
    ensures n + 2 <= TlvLen(n)
    ensures n < 0x10000 ==> TlvLen(n) <= n + 4
  {
    Pow2Values();
    BitLengthIsLeast(n, 8);
    BitLengthIsLeast(n, 16);
  }

  /** While the varbinds stay within the budget, a 32-bit request id and a community of at most 90
      octets keep the whole message within 1400 octets. */
  lemma ResponseFits(community: Bytes, requestId: int, body: Bytes)
    requires IsInteger32(requestId) && |community| <= 90 && |body| <= 1280
    ensures |MessageBytes(community, requestId, body)| <= 1400
  {
    SmallInt(requestId);
    MessageLength(community, requestId, body);
    TlvLenBounds(|community|);
    TlvLenBounds(IntOctets(requestId));
    TlvLenBounds(|body|);
    var pdu := TlvLen(IntOctets(requestId)) + 6 + TlvLen(|body|);
    TlvLenBounds(pdu);
    TlvLenBounds(3 + TlvLen(|community|) + TlvLen(pdu));
  }

  /** The bound of 90 octets is tight: with a full budget and a five-octet request id, the message
      stays within 1400 octets exactly when the community has at most 90. */
  lemma NinetyIsTight(community: Bytes, requestId: int, body: Bytes)
    requires Buildable(community, requestId, body) && |body| == 1280 && IntOctets(requestId) == 5
    ensures |MessageBytes(community, requestId, body)| <= 1400 <==> |community| <= 90
  {
    MessageLength(community, requestId, body);
    TlvLenBounds(5);
    TlvLenBounds(|body|);
    var pdu := TlvLen(5) + 6 + TlvLen(|body|);
    TlvLenBounds(pdu);
    TlvLenBounds(|community|);
    TlvLenBounds(3 + TlvLen(|community|) + TlvLen(pdu));
  }

  // ---------------------------------------------------------- what a manager reads

  datatype IntAnd = IntAnd(value: int, rest: Bytes)

  function ReadInt(b: Bytes): Option<IntAnd> {
    var e :- DecodeElement(b);
    if e.tag != 0x02 then None else
    var v :- DecodeInt(e.content);
    Some(IntAnd(v, e.rest))
  }

  datatype Errors = Errors(status: int, index: int, list: Bytes)

  /** The content of a varbind list that ends the PDU. */
  function DecodeList(b: Bytes): Option<Bytes> {
    var list :- DecodeElement(b);
    if list.tag != 0x30 || list.rest != [] then None else Some(list.content)
  }

  function DecodeErrors(b: Bytes): Option<Errors> {
    var status :- ReadInt(b);
    var index :- ReadInt(status.rest);
    var list :- DecodeList(index.rest);
    Some(Errors(status.value, index.value, list))
  }

  datatype Pdu = Pdu(requestId: int, errors: Errors)

  function DecodePdu(b: Bytes): Option<Pdu> {
    var requestId :- ReadInt(b);
    var errors :- DecodeErrors(requestId.rest);
    Some(Pdu(requestId.value, errors))
  }

  /** Reads an SNMPv2c response (RFC 1901 section 3, RFC 3416 section 3). */
  function DecodeMessage(b: Bytes): Option<Message> {
    var outer :- DecodeElement(b);
    if outer.tag != 0x30 || outer.rest != [] then None else
    var version :- ReadInt(outer.content);
    var community :- DecodeElement(version.rest);
    if community.tag != 0x04 then None else
    var element :- DecodeElement(community.rest);
    if element.tag != 0xA2 || element.rest != [] then None else
    var pdu :- DecodePdu(element.content);
    var vbs :- DecodeVarbinds(pdu.errors.list);
    Some(Message(version.value, community.content, pdu.requestId, pdu.errors.status, pdu.errors.index, vbs))
  }

  lemma ReadIntBack(v: int, tail: Bytes)
    requires IntOctets(v) <= MAX_BYTES
    ensures ReadInt(IntTlv(v) + tail) == Some(IntAnd(v, tail))
  {
    ElementRoundTrip(TAG_INTEGER, IntContent(v), tail);
    IntRoundTrip(v);
  }

  lemma ElementAlone(tag: Byte, content: Bytes)
    requires |content| <= MAX_BYTES && tag % 32 != 31
    ensures DecodeElement(Tlv(tag, content)) == Some(Element(tag, content, []))
  {
    ElementRoundTrip(tag, content, []);
    assert Tlv(tag, content) + [] == Tlv(tag, content);
  }

  lemma ErrorsRoundTrip(status: int, index: int, body: Bytes)
    requires |body| <= MAX_BYTES
    requires IntOctets(status) <= 5 && IntOctets(index) <= 5
    ensures DecodeErrors(IntTlv(status) + (IntTlv(index) + Tlv(TAG_SEQUENCE, body))) ==
            Some(Errors(status, index, body))
  {
    var list := Tlv(TAG_SEQUENCE, body);
    assert DecodeList(list) == Some(body) by { ElementAlone(TAG_SEQUENCE, body); }
    ReadIntBack(status, IntTlv(index) + list);
    ReadIntBack(index, list);
    hide ReadInt, DecodeList, IntTlv;
  }

  lemma PduRoundTrip(requestId: int, body: Bytes)
    requires IsInteger32(requestId) && |body| + 100 <= MAX_BYTES
    ensures DecodePdu(PduContent(requestId, body)) == Some(Pdu(requestId, Errors(0, 0, body)))
  {
    SmallInt(requestId);
    ErrorsRoundTrip(0, 0, body);
    ReadIntBack(requestId, IntTlv(0) + (IntTlv(0) + Tlv(TAG_SEQUENCE, body)));
  }

  /** Reading the message back gives the community, the request id, no error, and the varbinds. */
  lemma MessageRoundTrip(community: Bytes, requestId: int, body: Bytes, vbs: seq<Binding>)
    requires Buildable(community, requestId, body) && DecodeVarbinds(body) == Some(vbs)
    ensures DecodeMessage(MessageBytes(community, requestId, body)) == Some(Message(1, community, requestId, 0, 0, vbs))
  {
    var pdu := PduContent(requestId, body);
    ElementAlone(TAG_SEQUENCE, MessageContent(community, requestId, body));
    ReadIntBack(1, Tlv(TAG_OCTET_STRING, community) + Tlv(TAG_RESPONSE, pdu));
    ElementRoundTrip(TAG_OCTET_STRING, community, Tlv(TAG_RESPONSE, pdu));
    ElementAlone(TAG_RESPONSE, pdu);
    PduRoundTrip(requestId, body);
  }

  /** Around the same content, the reader takes no other tags than a message's and a response's, and
      nothing behind either. */
  lemma OnlyResponsesAreRead(outer: Byte, inner: Byte, community: Bytes, pdu: Bytes, behind: Bytes, after: Bytes)
    requires outer % 32 != 31 && inner % 32 != 31 && |community| + |pdu| + |behind| + 100 <= MAX_BYTES
    requires outer != 0x30 || inner != 0xA2 || behind != [] || after != []
    ensures var content := IntTlv(1) + (Tlv(0x04, community) + (Tlv(inner, pdu) + behind));
            |content| <= MAX_BYTES && DecodeMessage(Tlv(outer, content) + after) == None
  {
    var rest := Tlv(inner, pdu) + behind;
    var content := IntTlv(1) + (Tlv(0x04, community) + rest);
    SmallInt(1);
    TlvLength(inner, pdu);
    TlvLength(0x04, community);
    ElementRoundTrip(outer, content, after);
    ReadIntBack(1, Tlv(0x04, community) + rest);
    ElementRoundTrip(0x04, community, rest);
    ElementRoundTrip(inner, pdu, behind);
    hide Tlv, IntTlv, DecodeElement, ReadInt, DecodePdu;
  }

  /** Nor does it read a list of varbinds, or a varbind, under any other tag than a SEQUENCE's. */
  lemma OnlySequencesAreRead(tag: Byte, content: Bytes, behind: Bytes)
    requires tag % 32 != 31 && tag != 0x30 && |content| <= MAX_BYTES
    ensures DecodeList(Tlv(tag, content) + behind) == None && DecodeVarbind(Tlv(tag, content) + behind) == None
    ensures behind != [] ==> DecodeList(Tlv(TAG_SEQUENCE, content) + behind) == None
  {
    ElementRoundTrip(tag, content, behind);
    ElementRoundTrip(TAG_SEQUENCE, content, behind);
  }

  /** With the wire bytes precomputed from the snapshot's own rows, a manager that decodes the
      response reads exactly the rows chosen: the precomputed bytes cannot drift from the values they
      were made from. */
  lemma ManagerReadsTheRows(
    s: Snapshot, wire: seq<Bytes>, all: seq<Binding>, community: Bytes, requestId: int, maxRepetitions: int, start: Oid)
    requires |all| == |s.oids| && AllEncodable(all) && wire == PrecomputeWire(all) && OnWire(s, wire) && s.Valid()
    requires forall i :: 0 <= i < |all| ==> Recoverable(all[i]) && all[i] == s.Row(i)
    requires Buildable(community, requestId, Join(Parts(wire, Chosen(s, start, maxRepetitions))))
    ensures DecodeMessage(MessageBytes(community, requestId, Join(Parts(wire, Chosen(s, start, maxRepetitions))))) ==
            Some(Message(1, community, requestId, 0, 0, Rows(s, Chosen(s, start, maxRepetitions))))
  {
    var ks := Chosen(s, start, maxRepetitions);
    var vbs := Rows(s, ks);
    forall i | 0 <= i < |vbs| ensures Recoverable(vbs[i]) && vbs[i] == all[ks[i]] {
    }
    assert PrecomputeWire(vbs) == Parts(wire, ks);
    VarbindsRoundTripIff(vbs);
    MessageRoundTrip(community, requestId, Join(Parts(wire, ks)), vbs);
  }

  /** The rows chosen are the slice exactly when there is one to choose; otherwise the slice says
      endOfMibView and there are no rows. */
  lemma ChosenIsSliceIff(s: Snapshot, start: Oid, maxRepetitions: int)
    requires s.Valid()
    ensures Rows(s, Chosen(s, start, maxRepetitions)) == Slice(s, ReadAll, start, Min(maxRepetitions, 25), 1280) <==>
            maxRepetitions >= 1 && exists i :: 0 <= i < |s.oids| && Lt(start, s.oids[i])
  {
    var count := Min(maxRepetitions, 25);
    var ks := Chosen(s, start, maxRepetitions);
    SliceEndsIff(s, ReadAll, start, count, BUDGET);
    if ks != [] {
      assert Slice(s, ReadAll, start, count, BUDGET)[0] == s.Row(ks[0]);
    }
    if exists i :: 0 <= i < |s.oids| && Lt(start, s.oids[i]) {
      var i :| 0 <= i < |s.oids| && Lt(start, s.oids[i]);
      assert s.Permits(ReadAll, i);
    }
  }

  /** What a manager decodes is the slice of the snapshot exactly when a repetition was asked for and
      some row lies above the start: at the end of the view the message holds an empty list where the
      slice holds endOfMibView. */
  lemma DecodedIsSliceIff(
    s: Snapshot, wire: seq<Bytes>, all: seq<Binding>, community: Bytes, requestId: int, maxRepetitions: int, start: Oid)
    requires |all| == |s.oids| && AllEncodable(all) && wire == PrecomputeWire(all) && OnWire(s, wire) && s.Valid()
    requires forall i :: 0 <= i < |all| ==> Recoverable(all[i]) && all[i] == s.Row(i)
    requires Buildable(community, requestId, Join(Parts(wire, Chosen(s, start, maxRepetitions))))
    ensures var m := DecodeMessage(
              MessageBytes(community, requestId, Join(Parts(wire, Chosen(s, start, maxRepetitions)))));
            && m.Some?
            && (m.value.varbinds == Slice(s, ReadAll, start, Min(maxRepetitions, 25), 1280) <==>
                maxRepetitions >= 1 && exists i :: 0 <= i < |s.oids| && Lt(start, s.oids[i]))
  {
    hide DecodeMessage, MessageBytes, Slice, Chosen, PrecomputeWire;
    ManagerReadsTheRows(s, wire, all, community, requestId, maxRepetitions, start);
    ChosenIsSliceIff(s, start, maxRepetitions);
  }

  /** A concrete input: on an empty snapshot no rows are chosen, and the slice is endOfMibView. */
  lemma EmptyListAtTheEnd()
    ensures var s := Snapshot([], [], []);
            Rows(s, Chosen(s, [1], 10)) == [] && Slice(s, ReadAll, [1], 10, 1280) == [EndOfMibView([1])]
  {
  }

  lemma TakenFits(s: Snapshot, ac: Access, name: Oid, count: int, bytes: int)
    requires s.Valid() && count >= 1
    ensures var taken := Take(s, ac, After(s, name), count, 0, bytes, true);
            Used(s, taken) <= bytes || |taken| <= 1
  {
    var taken := Take(s, ac, After(s, name), count, 0, bytes, true);
    SliceIsLongestRun(s, ac, name, count, bytes, 0);
    SliceIsLongestRun(s, ac, name, count, bytes, |taken|);
    assert PermittedFrom(s, ac, After(s, name))[..|taken|] == taken;
  }

  /** The deployed slice, sized by prediction: what it answers encodes to at most the byte budget,
      or is a single varbind. */
  lemma PredictedSliceFits(oids: seq<Oid>, vals: seq<Value>, ac: Access, name: Oid, count: int, bytes: int)
    requires |oids| == |vals| && StrictlySorted(oids) && count >= 1
    requires forall i :: 0 <= i < |oids| ==> Encodable(Bound(oids[i], vals[i]))
    ensures var s := Snapshot(oids, vals, VarbindSizes(oids, vals));
            var taken := Take(s, ac, After(s, name), count, 0, bytes, true);
            && AllEncodable(Rows(s, taken))
            && (|EncodeAll(Rows(s, taken))| <= bytes || |taken| <= 1)
  {
    var s := Snapshot(oids, vals, VarbindSizes(oids, vals));
    var all := seq(|oids|, i requires 0 <= i < |oids| => s.Row(i));
    var wire := PrecomputeWire(all);
    SizesAreWireLengths(all, oids, vals);
    var taken := Take(s, ac, After(s, name), count, 0, bytes, true);
    assert PrecomputeWire(Rows(s, taken)) == Parts(wire, taken);
    PartsUse(s, wire, taken);
    TakenFits(s, ac, name, count, bytes);
  }
}
