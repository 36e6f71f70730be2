/** The WNODE_ALL_DATA parser: every offset, length and count comes from the buffer itself. */
module Wnode {
  import opened Common

  const MAX_NAME_CHARS := 128
  const FIXED_INSTANCE_SIZE := 0x200

  datatype Span = Span(offset: nat, length: nat)

  datatype Instance = Instance(index: nat, data: Bytes, name: string)

  /** Decoding UTF-16 and sanitising it for SNMP. */
  type Text = Bytes -> string

  /** The size the buffer claims, as far as it is held and plausible. */
  function Limit(raw: Bytes): (limit: nat)
    requires |raw| >= 64
    ensures 64 <= limit <= |raw|
  {
    if U32(raw, 0) >= 64 then Min(U32(raw, 0), |raw|) else |raw|
  }

  predicate InBounds(span: Span, limit: nat) {
    span.offset + span.length <= limit
  }

  // ------------------------------------------------------------------------- spans

  /** Instances of one size, one after the other, until one would pass the limit. */
  function FixedSpans(dataOff: nat, size: nat, limit: nat, count: nat): seq<Span>
    decreases count
  {
    if count == 0 || dataOff + size > limit then []
    else [Span(dataOff, size)] + FixedSpans(dataOff + size, size, limit, count - 1)
  }

  /** Entry i of the offset-and-length table. */
  function EntryAt(raw: Bytes, i: nat): Span
    requires 60 + i * 8 + 8 <= |raw|
  {
    Span(U32(raw, 60 + i * 8), U32(raw, 60 + i * 8 + 4))
  }

  predicate GoodEntry(e: Span, limit: nat) {
    e.length > 0 && e.length <= limit && InBounds(e, limit)
  }

  /** The entries of the table worth keeping, in order. */
  function Kept(raw: Bytes, count: nat, limit: nat): (ks: seq<nat>)
    requires 60 + count * 8 <= |raw|
    ensures forall a :: 0 <= a < |ks| ==> ks[a] < count
  {
    if count == 0 then [] else
    var front := Kept(raw, count - 1, limit);
    if GoodEntry(EntryAt(raw, count - 1), limit) then front + [count - 1] else front
  }

  function VariableSpans(raw: Bytes, count: nat, limit: nat): (spans: seq<Span>)
    requires 60 + count * 8 <= |raw|
    ensures |spans| == |Kept(raw, count, limit)|
  {
    var ks := Kept(raw, count, limit);
    seq(|ks|, a requires 0 <= a < |ks| => EntryAt(raw, ks[a]))
  }

  /** How many entries are considered: no more than asked for, and no more than the table holds. */
  function TableCount(raw: Bytes, maxInstances: int): (count: nat)
    requires |raw| >= 64
    ensures 60 + count * 8 <= Limit(raw)
    ensures count <= Max(maxInstances, 0)
  {
    var count := Max(Min(U32(raw, 52), maxInstances), 0);
    if 60 + count * 8 > Limit(raw) then Max(0, (Limit(raw) - 60) / 8) else count
  }

  predicate IsFixed(raw: Bytes)
    requires |raw| >= 64
  {
    (U32(raw, 44) / FIXED_INSTANCE_SIZE) % 2 == 1
  }

  function Spans(raw: Bytes, maxInstances: int): seq<Span>
    requires |raw| >= 64
  {
    if U32(raw, 52) == 0 then []
    else if IsFixed(raw) then
      var size := U32(raw, 60);
      if 0 < size <= Limit(raw) then
        FixedSpans(U32(raw, 48), size, Limit(raw), Max(Min(U32(raw, 52), maxInstances), 0))
      else []
    else VariableSpans(raw, TableCount(raw, maxInstances), Limit(raw))
  }

  // ------------------------------------------------------------------------- names

  /** The name that slot i of the name table points at; empty when any step is implausible. */
  function NameAt(raw: Bytes, nameOff: nat, i: nat, limit: nat, text: Text): string
    requires limit <= |raw| && nameOff + i * 4 + 4 <= limit
  {
    var off := U32(raw, nameOff + i * 4);
    if !(0 < off < limit) || off + 2 > limit then ""
    else
      var nbytes := U16(raw, off);
      if nbytes == 0 || nbytes > MAX_NAME_CHARS * 2 || off + 2 + nbytes > limit then ""
      else text(raw[off + 2..off + 2 + nbytes])
  }

  /** Whether a name table for n instances lies within the limit. */
  predicate HasNames(nameOff: nat, n: nat, limit: nat) {
    0 < nameOff < limit && n > 0 && nameOff + n * 4 <= limit
  }

  method ParseInstanceNames(raw: Bytes, nameOff: nat, count: nat, limit: nat, text: Text) returns (names: seq<string>)
    requires limit <= |raw|
    ensures |names| == if HasNames(nameOff, count, limit) then count else 0
    ensures forall i :: 0 <= i < |names| ==>
              nameOff + i * 4 + 4 <= limit && names[i] == NameAt(raw, nameOff, i, limit, text)
  {
    names := [];
    if !(0 < nameOff < limit) || count <= 0 {
      return;
    }
    if nameOff + count * 4 > limit {
      return;
    }
    for i := 0 to count
      invariant |names| == i
      invariant forall j :: 0 <= j < i ==>
                  nameOff + j * 4 + 4 <= limit && names[j] == NameAt(raw, nameOff, j, limit, text)
    {
      var off := U32(raw, nameOff + i * 4);
      if !(0 < off < limit) || off + 2 > limit {
        names := names + [""];
        continue;
      }
      var nbytes := U16(raw, off);
      if nbytes == 0 || nbytes > MAX_NAME_CHARS * 2 || off + 2 + nbytes > limit {
        names := names + [""];
        continue;
      }
      names := names + [text(raw[off + 2..off + 2 + nbytes])];
    }
  }

  /** The name given to instance k when n instances are returned. */
  function NameOf(raw: Bytes, k: nat, n: nat, text: Text): string
    requires |raw| >= 64 && k < n
  {
    if HasNames(U32(raw, 56), n, Limit(raw)) then NameAt(raw, U32(raw, 56), k, Limit(raw), text) else ""
  }

  // --------------------------------------------------------------------- the parser

  method CollectFixed(raw: Bytes, maxInstances: int) returns (spans: seq<Span>)
    requires |raw| >= 64 && U32(raw, 52) != 0 && IsFixed(raw)
    ensures spans == Spans(raw, maxInstances)
  {
    var limit, dataOff := Limit(raw), U32(raw, 48);
    var count := Max(Min(U32(raw, 52), maxInstances), 0);
    var size := U32(raw, 60);
    spans := [];
    if !(0 < size <= limit) {
      return;
    }
    for i := 0 to count
      invariant spans + FixedSpans(dataOff + i * size, size, limit, count - i) ==
                FixedSpans(dataOff, size, limit, count)
    {
      var off := dataOff + i * size;
      Multiples(size, i);
      if off + size > limit {
        break;
      }
      ghost var rest := FixedSpans(off + size, size, limit, count - i - 1);
      assert spans + ([Span(off, size)] + rest) == (spans + [Span(off, size)]) + rest;
      spans := spans + [Span(off, size)];
    }
    assert spans + [] == spans;
  }

  method CollectVariable(raw: Bytes, maxInstances: int) returns (spans: seq<Span>)
    requires |raw| >= 64 && U32(raw, 52) != 0 && !IsFixed(raw)
    ensures spans == Spans(raw, maxInstances)
  {
    var limit, count := Limit(raw), TableCount(raw, maxInstances);
    spans := [];
    for i := 0 to count
      invariant spans == VariableSpans(raw, i, limit)
    {
      var e := EntryAt(raw, i);
      if e.length == 0 || e.length > limit || e.offset + e.length > limit {
        continue;
      }
      spans := spans + [e];
    }
  }

  /** The instance made of span k: its bytes, and the name of slot k of the name table. */
  function InstanceOf(raw: Bytes, spans: seq<Span>, k: nat, text: Text): Instance
    requires |raw| >= 64 && k < |spans| && InBounds(spans[k], |raw|)
  {
    Instance(k, raw[spans[k].offset..spans[k].offset + spans[k].length], NameOf(raw, k, |spans|, text))
  }

  predicate AllInBounds(spans: seq<Span>, limit: nat) {
    forall k :: 0 <= k < |spans| ==> InBounds(spans[k], limit)
  }

  method BuildInstances(raw: Bytes, spans: seq<Span>, text: Text) returns (out: seq<Instance>)
    requires |raw| >= 64 && AllInBounds(spans, |raw|)
    ensures |out| == |spans|
    ensures forall k :: 0 <= k < |out| ==> out[k] == InstanceOf(raw, spans, k, text)
  {
    var names := ParseInstanceNames(raw, U32(raw, 56), |spans|, Limit(raw), text);
    out := [];
    for k := 0 to |spans|
      invariant |out| == k
      invariant forall j :: 0 <= j < k ==> out[j] == InstanceOf(raw, spans, j, text)
    {
      var name := if k < |names| then names[k] else "";
      assert name == NameOf(raw, k, |spans|, text);
      out := out + [Instance(k, raw[spans[k].offset..spans[k].offset + spans[k].length], name)];
    }
  }

  // --------------------------------------------------------------------- what it keeps

  lemma Multiples(size: nat, i: nat)
    ensures (i + 1) * size == size + i * size && i * size >= 0
    ensures i > 0 ==> size + (i - 1) * size == i * size
  {
  }

  /** In fixed mode the spans are the longest in-bounds prefix: span i is there exactly when it is
      among those asked for and ends within the limit. */
  lemma {:induction false} FixedIsLongestPrefix(dataOff: nat, size: nat, limit: nat, count: nat, i: nat)
    ensures i < |FixedSpans(dataOff, size, limit, count)| <==> i < count && dataOff + (i + 1) * size <= limit
    ensures i < |FixedSpans(dataOff, size, limit, count)| ==>
              FixedSpans(dataOff, size, limit, count)[i] == Span(dataOff + i * size, size)
    decreases count
  {
    if count > 0 && dataOff + size <= limit {
      if i > 0 {
        FixedIsLongestPrefix(dataOff + size, size, limit, count - 1, i - 1);
        Multiples(size, i);
      }
    } else if count > 0 {
      Multiples(size, i);
    }
  }

  /** In variable mode the spans are exactly the good entries, in the order of the table. */
  lemma {:induction false} KeptAreTheGoodEntries(raw: Bytes, count: nat, limit: nat)
    requires 60 + count * 8 <= |raw|
    ensures forall i :: 0 <= i < count ==> (i in Kept(raw, count, limit) <==> GoodEntry(EntryAt(raw, i), limit))
    ensures forall a, b :: 0 <= a < b < |Kept(raw, count, limit)| ==>
              Kept(raw, count, limit)[a] < Kept(raw, count, limit)[b]
  {
    if count > 0 {
      KeptAreTheGoodEntries(raw, count - 1, limit);
      var front := Kept(raw, count - 1, limit);
      assert count - 1 !in front;
    }
  }

  /** Whatever the buffer says, every span lies inside it, and there are no more than asked for. */
  lemma SpansAreInBounds(raw: Bytes, maxInstances: int)
    requires |raw| >= 64
    ensures AllInBounds(Spans(raw, maxInstances), Limit(raw))
    ensures |Spans(raw, maxInstances)| <= Max(maxInstances, 0)
  {
    var spans := Spans(raw, maxInstances);
    var limit := Limit(raw);
    if spans != [] {
      if IsFixed(raw) {
        var size, count := U32(raw, 60), Max(Min(U32(raw, 52), maxInstances), 0);
        forall k | 0 <= k < |spans| ensures InBounds(spans[k], limit) && k < count {
          FixedIsLongestPrefix(U32(raw, 48), size, limit, count, k);
          assert U32(raw, 48) + k * size + size == U32(raw, 48) + (k + 1) * size;
        }
        var last := |spans| - 1;
        assert InBounds(spans[last], limit) && last < count;
      } else {
        var count := TableCount(raw, maxInstances);
        KeptAreTheGoodEntries(raw, count, limit);
        KeptFit(raw, count, limit);
        var ks := Kept(raw, count, limit);
        forall k | 0 <= k < |spans| ensures InBounds(spans[k], limit) {
          assert ks[k] in ks;
        }
      }
    }
  }

  lemma {:induction false} KeptFit(raw: Bytes, count: nat, limit: nat)
    requires 60 + count * 8 <= |raw|
    ensures |Kept(raw, count, limit)| <= count
  {
    if count > 0 {
      KeptFit(raw, count - 1, limit);
    }
  }

  /** Names go by position among the instances kept, while the name table goes by entry. So instance
      k carries the name of its own entry's slot exactly when no entry up to it was skipped; after a
      skipped entry every instance carries the name of an earlier slot. */
  lemma {:induction false} NamesMatchEntriesIff(raw: Bytes, count: nat, limit: nat, k: nat)
    requires 60 + count * 8 <= |raw| && k < |Kept(raw, count, limit)|
    ensures Kept(raw, count, limit)[k] >= k
    ensures Kept(raw, count, limit)[k] == k <==>
            forall i :: 0 <= i <= k ==> i < count && GoodEntry(EntryAt(raw, i), limit)
    decreases k
  {
    KeptAreTheGoodEntries(raw, count, limit);
    var ks := Kept(raw, count, limit);
    if k > 0 {
      NamesMatchEntriesIff(raw, count, limit, k - 1);
    }
    if ks[k] == k {
      assert ks[k] in ks;
    } else if k == 0 || ks[k - 1] == k - 1 {
      forall a | 0 <= a < |ks| ensures ks[a] != k {
        if a + 1 < k {
          assert ks[a] < ks[k - 1];
        } else if a > k {
          assert ks[k] < ks[a];
        }
      }
      assert k !in ks;
    }
  }

  // -------------------------------------------------------- the result, field by field

  /** The size that bounds everything: the one at byte 0 as far as it is plausible and held. */
  function Bound(raw: Bytes): (limit: nat)
    requires |raw| >= 64
    ensures 64 <= limit <= |raw|
  {
    if U32(raw, 0) < 64 || U32(raw, 0) > |raw| then |raw| else U32(raw, 0)
  }

  /** Instance k is there exactly when it is among the n blocks of this size from this offset on that end
      within the limit; and then it holds block k. */
  ghost predicate IsBlock(raw: Bytes, off: nat, size: nat, n: int, limit: nat, out: seq<Instance>, k: nat) {
    var start := off + k * size;
    && (k < |out| <==> 0 < size <= limit && k < n && start + size <= limit)
    && (k < |out| ==> 0 <= start && start + size <= |raw| &&
                      out[k].index == k && out[k].data == raw[start..start + size])
  }

  /** With flag 0x200 at byte 44 set: the instances are the blocks of the size at byte 60, from the offset
      at byte 48 on, as many as are announced at byte 52, were asked for, and end within the bound. */
  ghost predicate FixedResult(raw: Bytes, maxInstances: int, out: seq<Instance>)
    requires |raw| >= 64
  {
    forall k: nat ::
      IsBlock(raw, U32(raw, 48), U32(raw, 60), Min(U32(raw, 52), maxInstances), Bound(raw), out, k)
  }

  /** Without that flag: the announced entries of eight bytes each from byte 60 on, as many as were asked
      for and fit the bound, give one instance each, in order, if they are not empty and end within it. */
  ghost predicate TableResult(raw: Bytes, maxInstances: int, out: seq<Instance>)
    requires |raw| >= 64
  {
    exists ks: seq<nat> :: TableRows(raw, maxInstances, out, ks)
  }

  ghost predicate TableRows(raw: Bytes, maxInstances: int, out: seq<Instance>, ks: seq<nat>)
    requires |raw| >= 64
  {
    && |ks| == |out| && (forall a, b :: 0 <= a < b < |ks| ==> ks[a] < ks[b])
    && (forall i: nat :: i in ks <==> IsRow(raw, maxInstances, i))
    && forall a :: 0 <= a < |ks| ==> HoldsRow(raw, maxInstances, out[a], a, ks[a])
  }

  /** The instance is the a-th one, and holds the bytes of row i. */
  ghost predicate HoldsRow(raw: Bytes, maxInstances: int, instance: Instance, a: nat, i: nat)
    requires |raw| >= 64
  {
    && IsRow(raw, maxInstances, i) && instance.index == a
    && var off, length := U32(raw, 60 + 8 * i), U32(raw, 64 + 8 * i);
       instance.data == raw[off..off + length]
  }

  predicate IsRow(raw: Bytes, maxInstances: int, i: nat)
    requires |raw| >= 64
  {
    && i < U32(raw, 52) && i < maxInstances && 68 + 8 * i <= Bound(raw)
    && U32(raw, 64 + 8 * i) > 0 && U32(raw, 60 + 8 * i) + U32(raw, 64 + 8 * i) <= Bound(raw)
  }

  /** The name of instance k of n: the counted string that slot k of the table at the offset at byte 56
      points to; none when the table, the string or its count of at most 256 bytes is out of bounds. */
  ghost predicate NamedBy(raw: Bytes, k: nat, n: nat, text: Text, name: string)
    requires |raw| >= 64 && k < n
  {
    var table, limit := U32(raw, 56), Bound(raw);
    if table == 0 || table >= limit || table + 4 * n > limit then name == "" else
    var at := U32(raw, table + 4 * k);
    if at == 0 || at + 2 > limit then name == "" else
    var count := U16(raw, at);
    if count == 0 || count > 256 || at + 2 + count > limit then name == ""
    else name == text(raw[at + 2..at + 2 + count])
  }

  ghost predicate AllNamed(raw: Bytes, text: Text, out: seq<Instance>)
    requires |raw| >= 64
  {
    forall k :: 0 <= k < |out| ==> NamedBy(raw, k, |out|, text, out[k].name)
  }

  lemma NameIsNamed(raw: Bytes, k: nat, n: nat, text: Text)
    requires |raw| >= 64 && k < n
    ensures NamedBy(raw, k, n, text, NameOf(raw, k, n, text))
  {
    assert U32(raw, 56) + 4 * n == U32(raw, 56) + n * 4 && U32(raw, 56) + 4 * k == U32(raw, 56) + k * 4;
    hide U32, U16;
  }

  ghost predicate Built(raw: Bytes, spans: seq<Span>, text: Text, out: seq<Instance>)
    requires |raw| >= 64
  {
    && AllInBounds(spans, |raw|) && |out| == |spans|
    && forall k :: 0 <= k < |out| ==> out[k] == InstanceOf(raw, spans, k, text)
  }

  /** What the header fields have to do with the spans of a fixed-size buffer. */
  lemma FixedFields(raw: Bytes, maxInstances: int)
    requires |raw| >= 64 && IsFixed(raw)
    ensures var off, size, n := U32(raw, 48), U32(raw, 60), Min(U32(raw, 52), maxInstances);
            Spans(raw, maxInstances) ==
              if 0 < size <= Bound(raw) then FixedSpans(off, size, Bound(raw), Max(n, 0)) else []
  {
    hide U32;
  }

  lemma FixedIsBlock(
    raw: Bytes, off: nat, size: nat, n: int, limit: nat, spans: seq<Span>, text: Text, out: seq<Instance>, k: nat)
    requires |raw| >= 64 && Built(raw, spans, text, out)
    requires spans == if 0 < size <= limit then FixedSpans(off, size, limit, Max(n, 0)) else []
    ensures IsBlock(raw, off, size, n, limit, out, k)
  {
    hide U32, U16, FixedSpans, NameOf;
    Multiples(size, k);
    FixedIsLongestPrefix(off, size, limit, Max(n, 0), k);
  }

  lemma FixedIsResult(raw: Bytes, maxInstances: int, text: Text, out: seq<Instance>)
    requires |raw| >= 64 && IsFixed(raw) && Built(raw, Spans(raw, maxInstances), text, out)
    ensures FixedResult(raw, maxInstances, out)
  {
    FixedFields(raw, maxInstances);
    hide U32, U16, Spans, FixedSpans, Bound, Built, IsBlock;
    var off, size, n := U32(raw, 48), U32(raw, 60), Min(U32(raw, 52), maxInstances);
    forall k: nat ensures IsBlock(raw, off, size, n, Bound(raw), out, k) {
      FixedIsBlock(raw, off, size, n, Bound(raw), Spans(raw, maxInstances), text, out, k);
    }
  }

  lemma RowIsHeld(raw: Bytes, maxInstances: int, spans: seq<Span>, text: Text, out: seq<Instance>, a: nat, i: nat)
    requires |raw| >= 64 && Built(raw, spans, text, out) && a < |out|
    requires IsRow(raw, maxInstances, i) && spans[a] == EntryAt(raw, i)
    ensures HoldsRow(raw, maxInstances, out[a], a, i)
  {
    hide U32, U16, NameOf;
  }

  lemma TableIsResult(raw: Bytes, maxInstances: int, text: Text, out: seq<Instance>)
    requires |raw| >= 64 && !IsFixed(raw) && Built(raw, Spans(raw, maxInstances), text, out)
    ensures TableResult(raw, maxInstances, out)
  {
    var limit, count, spans := Limit(raw), TableCount(raw, maxInstances), Spans(raw, maxInstances);
    if U32(raw, 52) == 0 {
      var none: seq<nat> := [];
      assert TableRows(raw, maxInstances, out, none);
    } else {
      var ks := Kept(raw, count, limit);
      KeptAreTheGoodEntries(raw, count, limit);
      assert spans == VariableSpans(raw, count, limit);
      hide U32, U16, IsRow, HoldsRow, Kept, NameOf, TableCount, Limit, IsFixed, Spans, InstanceOf;
      forall i: nat ensures i in ks <==> IsRow(raw, maxInstances, i) {
        RowIsGoodEntry(raw, maxInstances, i);
      }
      forall a | 0 <= a < |ks| ensures HoldsRow(raw, maxInstances, out[a], a, ks[a]) {
        assert ks[a] in ks;
        RowIsHeld(raw, maxInstances, spans, text, out, a, ks[a]);
      }
      assert TableRows(raw, maxInstances, out, ks);
    }
  }

  lemma RowIsGoodEntry(raw: Bytes, maxInstances: int, i: nat)
    requires |raw| >= 64
    ensures i < TableCount(raw, maxInstances) <==>
            i < U32(raw, 52) && i < maxInstances && 68 + 8 * i <= Bound(raw)
    ensures IsRow(raw, maxInstances, i) <==>
            i < TableCount(raw, maxInstances) && GoodEntry(EntryAt(raw, i), Limit(raw))
  {
    hide U32;
  }

  /** The parser. It is total: every read is proved to lie inside the buffer. */
  method ParseWnode(raw: Bytes, maxInstances: int, text: Text) returns (out: seq<Instance>)
    ensures |raw| < 64 ==> out == []
    ensures |raw| >= 64 ==> Built(raw, Spans(raw, maxInstances), text, out)
    ensures |raw| >= 64 && (U32(raw, 44) / 0x200) % 2 == 1 ==> FixedResult(raw, maxInstances, out)
    ensures |raw| >= 64 && (U32(raw, 44) / 0x200) % 2 == 0 ==> TableResult(raw, maxInstances, out)
    ensures |raw| >= 64 ==> AllNamed(raw, text, out)
  {
    if |raw| < 64 {
      return [];
    }
    var spans: seq<Span> := [];
    if U32(raw, 52) == 0 {
      out := [];
    } else {
      if IsFixed(raw) {
        spans := CollectFixed(raw, maxInstances);
      } else {
        spans := CollectVariable(raw, maxInstances);
      }
      SpansAreInBounds(raw, maxInstances);
      out := BuildInstances(raw, spans, text);
    }
    ParsedIsResult(raw, maxInstances, text, out);
  }

  lemma ParsedIsResult(raw: Bytes, maxInstances: int, text: Text, out: seq<Instance>)
    requires |raw| >= 64 && Built(raw, Spans(raw, maxInstances), text, out)
    ensures (U32(raw, 44) / 0x200) % 2 == 1 ==> FixedResult(raw, maxInstances, out)
    ensures (U32(raw, 44) / 0x200) % 2 == 0 ==> TableResult(raw, maxInstances, out)
    ensures AllNamed(raw, text, out)
  {
    hide U32, U16, Built, FixedResult, TableResult, NamedBy;
    if IsFixed(raw) {
      FixedIsResult(raw, maxInstances, text, out);
    } else {
      TableIsResult(raw, maxInstances, text, out);
    }
    AllAreNamed(raw, Spans(raw, maxInstances), text, out);
  }

  lemma AllAreNamed(raw: Bytes, spans: seq<Span>, text: Text, out: seq<Instance>)
    requires |raw| >= 64 && Built(raw, spans, text, out)
    ensures AllNamed(raw, text, out)
  {
    hide NamedBy, NameOf;
    forall k | 0 <= k < |out| ensures NamedBy(raw, k, |out|, text, out[k].name) {
      NameIsNamed(raw, k, |out|, text);
    }
  }

  /** Where instance k of a table of entries comes from: its bytes from entry Kept[k], its name from slot
      k of the name table. These are one and the same position exactly when no entry up to it was
      skipped. */
  lemma NameSlotIsEntryIff(raw: Bytes, maxInstances: int, k: nat, text: Text)
    requires |raw| >= 64 && U32(raw, 52) != 0 && !IsFixed(raw) && k < |Spans(raw, maxInstances)|
    ensures AllInBounds(Spans(raw, maxInstances), |raw|)
    ensures var limit, count := Limit(raw), TableCount(raw, maxInstances);
            var ks := Kept(raw, count, limit);
            var e, instance := EntryAt(raw, ks[k]), InstanceOf(raw, Spans(raw, maxInstances), k, text);
            && e.offset + e.length <= |raw| && instance.data == raw[e.offset..e.offset + e.length]
            && (HasNames(U32(raw, 56), |ks|, limit) ==> instance.name == NameAt(raw, U32(raw, 56), k, limit, text))
            && (!HasNames(U32(raw, 56), |ks|, limit) ==> instance.name == "")
            && (ks[k] == k <==> forall i :: 0 <= i <= k ==> i < count && GoodEntry(EntryAt(raw, i), limit))
  {
    SpansAreInBounds(raw, maxInstances);
    NamesMatchEntriesIff(raw, TableCount(raw, maxInstances), Limit(raw), k);
  }

  /** Two entries, the first of them empty, and a name table whose slots hold the UTF-16 of A and B. */
  function ShiftedByte(i: nat): Byte {
    match i
    case 52 => 2
    case 56 => 76
    case 72 => 1
    case 76 => 84
    case 80 => 88
    case 84 => 2
    case 86 => 65
    case 88 => 2
    case 90 => 66
    case _ => 0
  }

  function ShiftedNames(): (raw: Bytes)
    ensures |raw| == 92
  {
    seq(92, i requires 0 <= i < 92 => ShiftedByte(i))
  }

  lemma ShiftedWord(pos: nat, low: Byte)
    requires pos + 4 <= 92 && ShiftedByte(pos) == low
    requires ShiftedByte(pos + 1) == 0 && ShiftedByte(pos + 2) == 0 && ShiftedByte(pos + 3) == 0
    ensures U32(ShiftedNames(), pos) == low
  {
    hide ShiftedByte;
    var raw := ShiftedNames();
    assert raw[pos] == low && raw[pos + 1] == raw[pos + 2] == raw[pos + 3] == 0;
  }

  lemma ShiftedLimit()
    ensures Limit(ShiftedNames()) == 92
  {
    ShiftedWord(0, 0);
  }

  lemma ShiftedCount()
    ensures U32(ShiftedNames(), 52) == 2
  {
    ShiftedWord(52, 2);
  }

  lemma ShiftedIsVariable()
    ensures !IsFixed(ShiftedNames())
  {
    ShiftedWord(44, 0);
  }

  lemma ShiftedFirst()
    ensures EntryAt(ShiftedNames(), 0) == Span(0, 0)
  {
    ShiftedWord(60, 0);
    ShiftedWord(64, 0);
  }

  lemma ShiftedSecond()
    ensures EntryAt(ShiftedNames(), 1) == Span(0, 1)
  {
    ShiftedWord(68, 0);
    ShiftedWord(72, 1);
  }

  lemma ShiftedTable()
    ensures U32(ShiftedNames(), 56) == 76
  {
    ShiftedWord(56, 76);
  }

  lemma ShiftedSlot0(text: Text)
    ensures NameAt(ShiftedNames(), 76, 0, 92, text) == text([65, 0])
  {
    var raw := ShiftedNames();
    ShiftedWord(76, 84);
    assert U16(raw, 84) == 2;
    assert raw[86..88] == [65, 0];
  }

  lemma ShiftedSlot1(text: Text)
    ensures NameAt(ShiftedNames(), 76, 1, 92, text) == text([66, 0])
  {
    var raw := ShiftedNames();
    ShiftedWord(80, 88);
    assert U16(raw, 88) == 2;
    assert raw[90..92] == [66, 0];
  }

  lemma ShiftedSpans()
    ensures Kept(ShiftedNames(), 2, 92) == [1] && Spans(ShiftedNames(), 8) == [Span(0, 1)]
  {
    var raw := ShiftedNames();
    ShiftedLimit();
    ShiftedCount();
    ShiftedIsVariable();
    ShiftedFirst();
    ShiftedSecond();
    hide ShiftedNames, U32, U16, EntryAt, Limit, IsFixed;
    assert Kept(raw, 0, 92) == [] && Kept(raw, 1, 92) == [];
    assert TableCount(raw, 8) == 2;
  }

  /** A concrete buffer: the only instance kept is entry 1, its name slot holds B, and it is called A. */
  lemma SkippedEntryShiftsNames(text: Text)
    ensures var raw := ShiftedNames();
            && Kept(raw, 2, 92) == [1] && Spans(raw, 8) == [Span(0, 1)]
            && InstanceOf(raw, Spans(raw, 8), 0, text) == Instance(0, [0], text([65, 0]))
            && NameAt(raw, 76, 1, 92, text) == text([66, 0])
  {
    hide ShiftedNames, Spans, Kept, NameOf, NameAt, InstanceOf;
    ShiftedSpans();
    ShiftedName(text);
    ShiftedSlot1(text);
    ShiftedData();
    OneInstance(ShiftedNames(), Spans(ShiftedNames(), 8), text);
  }

  lemma ShiftedData()
    ensures ShiftedNames()[0..1] == [0]
  {
    assert ShiftedNames()[0] == 0;
  }

  lemma OneInstance(raw: Bytes, spans: seq<Span>, text: Text)
    requires |raw| >= 64 && spans == [Span(0, 1)] && raw[0..1] == [0]
    ensures InstanceOf(raw, spans, 0, text) == Instance(0, [0], NameOf(raw, 0, 1, text))
  {
    hide NameOf;
  }

  lemma ShiftedName(text: Text)
    ensures NameOf(ShiftedNames(), 0, 1, text) == text([65, 0])
  {
    ShiftedLimit();
    ShiftedTable();
    ShiftedSlot0(text);
    hide ShiftedNames, U32, Limit, NameAt;
  }
}
