/** The raw SMBIOS table: a parser whose every length comes from firmware. */
module Smbios {
  import opened Common

  const MAX_STRUCTURES := 4096
  const END_OF_TABLE: Byte := 127

  /** A structure: `data` is the header and the formatted area, as they stand in the table. */
  datatype Structure = Structure(stype: Byte, handle: nat, data: Bytes, strings: seq<Bytes>)

  datatype Area = Area(strings: seq<Bytes>, next: nat)

  /** The string area that begins at `start`, read from `pos` on. */
  function Scan(blob: Bytes, start: nat, pos: nat): Area
    requires start <= pos
    decreases |blob| - pos
  {
    if pos >= |blob| then Area([], |blob|)
    else if blob[pos] != 0 then Scan(blob, start, pos + 1)
    else if pos == start then Area([], pos + 2)
    else if pos + 1 < |blob| && blob[pos + 1] == 0 then Area([blob[start..pos]], pos + 2)
    else
      var rest := Scan(blob, pos + 1, pos + 1);
      Area([blob[start..pos]] + rest.strings, rest.next)
  }

  /** The scanning loop. */
  method Strings(blob: Bytes, pos0: nat) returns (out: seq<Bytes>, next: nat)
    ensures Area(out, next) == Scan(blob, pos0, pos0)
  {
    var pos: nat, start: nat := pos0, pos0;
    out := [];
    while pos < |blob|
      invariant start <= pos
      invariant out != [] && pos == start < |blob| ==> blob[pos] != 0
      invariant Scan(blob, pos0, pos0) ==
                Area(out + Scan(blob, start, pos).strings, Scan(blob, start, pos).next)
      decreases |blob| - pos
    {
      if blob[pos] == 0 {
        if pos == start {
          assert out + [] == out;
          return out, pos + 2;
        }
        ghost var s := blob[start..pos];
        ghost var rest := Scan(blob, pos + 1, pos + 1);
        assert out + ([s] + rest.strings) == (out + [s]) + rest.strings;
        out := out + [blob[start..pos]];
        start := pos + 1;
        if start < |blob| && blob[start] == 0 {
          return out, start + 1;
        }
      }
      pos := pos + 1;
    }
    assert out + [] == out;
    return out, |blob|;
  }

  /** The table inside the response: the declared length when it fits, else all the bytes. */
  function Table(blob: Bytes): Bytes
    requires |blob| >= 8
  {
    var length := U32(blob, 4);
    if length != 0 && 8 + length <= |blob| then blob[8..8 + length] else blob[8..]
  }

  function StructureAt(data: Bytes, pos: nat): Structure
    requires pos + 4 <= |data|
  {
    Structure(data[pos], U16(data, pos + 2), data[pos..Min(pos + data[pos + 1], Max(pos, |data|))],
              Scan(data, pos + data[pos + 1], pos + data[pos + 1]).strings)
  }

  function NextAt(data: Bytes, pos: nat): nat
    requires pos + 4 <= |data|
  {
    Scan(data, pos + data[pos + 1], pos + data[pos + 1]).next
  }

  /** The structures from `pos` on, at most `room` of them. */
  function ParseFrom(data: Bytes, pos: nat, room: nat): seq<Structure>
    decreases room
  {
    if pos + 4 > |data| || room == 0 || data[pos + 1] < 4 then []
    else if data[pos] == END_OF_TABLE || NextAt(data, pos) <= pos then [StructureAt(data, pos)]
    else [StructureAt(data, pos)] + ParseFrom(data, NextAt(data, pos), room - 1)
  }

  /** One iteration: a structure moves from what is still to be parsed to what was parsed. */
  lemma ParseStep(out: seq<Structure>, data: Bytes, pos: nat, room: nat)
    requires pos + 4 <= |data| && room > 0 && data[pos + 1] >= 4
    ensures out + ParseFrom(data, pos, room) ==
            if data[pos] == END_OF_TABLE || NextAt(data, pos) <= pos then out + [StructureAt(data, pos)]
            else (out + [StructureAt(data, pos)]) + ParseFrom(data, NextAt(data, pos), room - 1)
  {
  }

  lemma ParseStops(data: Bytes, pos: nat, room: nat)
    requires pos + 4 > |data| || room == 0 || data[pos + 1] < 4
    ensures ParseFrom(data, pos, room) == []
  {
  }

  function Parsed(blob: Bytes): seq<Structure> {
    if |blob| < 8 then [] else ParseFrom(Table(blob), 0, MAX_STRUCTURES)
  }

  /** One structure: header, formatted area, strings. */
  method ReadStructure(data: Bytes, pos: nat) returns (s: Structure, next: nat)
    requires pos + 4 <= |data|
    ensures s == StructureAt(data, pos) && next == NextAt(data, pos) && s.stype == data[pos]
  {
    var stype, slen, handle := data[pos], data[pos + 1], U16(data, pos + 2);
    var formatted := data[pos..Min(pos + slen, |data|)];
    var strings: seq<Bytes>;
    strings, next := Strings(data, pos + slen);
    s := Structure(stype, handle, formatted, strings);
  }

  /** The parser. It is total: whatever the bytes, it reads inside them and stops. */
  method ParseSmbios(blob: Bytes) returns (out: seq<Structure>)
    ensures out == Parsed(blob)
    ensures |out| <= 4096
  {
    hide StructureAt, NextAt, ParseFrom;
    out := [];
    if |blob| < 8 {
      return;
    }
    var data := Table(blob);
    var pos: nat := 0;
    while pos + 4 <= |data| && |out| < MAX_STRUCTURES
      invariant 0 <= pos && |out| <= MAX_STRUCTURES
      invariant out + ParseFrom(data, pos, MAX_STRUCTURES - |out|) == Parsed(blob)
      decreases MAX_STRUCTURES - |out|
    {
      if data[pos + 1] < 4 {
        ParseStops(data, pos, MAX_STRUCTURES - |out|);
        break;
      }
      var s, next := ReadStructure(data, pos);
      ParseStep(out, data, pos, MAX_STRUCTURES - |out|);
      out := out + [s];
      if s.stype == END_OF_TABLE {
        return;
      }
      if next <= pos {
        return;
      }
      pos := next;
    }
    ParseStops(data, pos, MAX_STRUCTURES - |out|);
    assert out + [] == out;
  }

  // ------------------------------------------------------------------- progress

  lemma {:induction false} ScanMovesOn(blob: Bytes, start: nat, pos: nat)
    requires start <= pos
    ensures pos < |blob| ==> Scan(blob, start, pos).next >= pos + 1
    ensures pos >= |blob| ==> Scan(blob, start, pos).next == |blob|
    decreases |blob| - pos
  {
    if pos < |blob| {
      if blob[pos] != 0 {
        ScanMovesOn(blob, start, pos + 1);
      } else if pos != start && !(pos + 1 < |blob| && blob[pos + 1] == 0) {
        ScanMovesOn(blob, pos + 1, pos + 1);
      }
    }
  }

  /** On arbitrary bytes every accepted structure moves the parser on by at least its header. */
  lemma AdvancesByHeader(data: Bytes, pos: nat)
    requires pos + 4 <= |data| && data[pos + 1] >= 4
    ensures NextAt(data, pos) >= pos + 4
  {
    ScanMovesOn(data, pos + data[pos + 1], pos + data[pos + 1]);
  }

  /** The same walk without the guard against standing still. */
  function WithoutGuard(data: Bytes, pos: nat, room: nat): seq<Structure>
    decreases room
  {
    if pos + 4 > |data| || room == 0 || data[pos + 1] < 4 then []
    else if data[pos] == END_OF_TABLE then [StructureAt(data, pos)]
    else [StructureAt(data, pos)] + WithoutGuard(data, NextAt(data, pos), room - 1)
  }

  /** The guard is never what stops the parser. */
  lemma {:induction false} GuardNeverStops(data: Bytes, pos: nat, room: nat)
    ensures ParseFrom(data, pos, room) == WithoutGuard(data, pos, room)
    decreases room
  {
    if pos + 4 <= |data| && room > 0 && data[pos + 1] >= 4 {
      AdvancesByHeader(data, pos);
      GuardNeverStops(data, NextAt(data, pos), room - 1);
    }
  }

  /** The work is bounded by the bytes as well as by the ceiling: four bytes a structure. */
  lemma {:induction false} FourBytesEach(data: Bytes, pos: nat, room: nat)
    requires pos <= |data|
    ensures 4 * |ParseFrom(data, pos, room)| <= |data| - pos
    decreases room
  {
    if pos + 4 <= |data| && room > 0 && data[pos + 1] >= 4 {
      AdvancesByHeader(data, pos);
      if NextAt(data, pos) <= |data| {
        FourBytesEach(data, NextAt(data, pos), room - 1);
      }
    }
  }

  // ------------------------------------------------------------------- round trip

  /** A string that can stand in a string area. */
  predicate PrintableString(s: Bytes) {
    s != [] && 0 !in s
  }

  /** A structure in the documented layout: a consistent header, and printable strings. */
  predicate Printable(s: Structure) {
    && 4 <= |s.data| <= 255
    && s.data[0] == s.stype && s.data[1] == |s.data| && U16(s.data, 2) == s.handle
    && forall i :: 0 <= i < |s.strings| ==> PrintableString(s.strings[i])
  }

  /** Each string with its terminator. */
  function Terminated(strings: seq<Bytes>): Bytes {
    if strings == [] then [] else strings[0] + [0] + Terminated(strings[1..])
  }

  function PrintStrings(strings: seq<Bytes>): Bytes {
    if strings == [] then [0, 0] else Terminated(strings) + [0]
  }

  function Print(structures: seq<Structure>): Bytes {
    if structures == [] then [] else structures[0].data + PrintStrings(structures[0].strings) + Print(structures[1..])
  }

  /** The bytes x stand in b at p. */
  predicate At(b: Bytes, p: nat, x: Bytes) {
    p + |x| <= |b| && b[p..p + |x|] == x
  }

  lemma AtSplits(b: Bytes, p: nat, x: Bytes, y: Bytes)
    ensures At(b, p, x + y) <==> At(b, p, x) && At(b, p + |x|, y)
  {
    if p + |x + y| <= |b| {
      var z := b[p..p + |x + y|];
      assert z[..|x|] == b[p..p + |x|] && z[|x|..] == b[p + |x|..p + |x| + |y|];
      assert z == z[..|x|] + z[|x|..];
      assert (x + y)[..|x|] == x && (x + y)[|x|..] == y;
    }
  }

  /** Scanning over bytes that are not NUL. */
  lemma {:induction false} ScanOver(b: Bytes, start: nat, pos: nat, end: nat)
    requires start <= pos <= end <= |b| && forall i :: pos <= i < end ==> b[i] != 0
    ensures Scan(b, start, pos) == Scan(b, start, end)
    decreases end - pos
  {
    if pos < end {
      ScanOver(b, start, pos + 1, end);
    }
  }

  lemma AtIndex(b: Bytes, p: nat, x: Bytes, i: nat)
    requires At(b, p, x) && i < |x|
    ensures b[p + i] == x[i]
  {
    assert b[p..p + |x|][i] == x[i];
  }

  lemma PrintStringsCons(strings: seq<Bytes>)
    requires strings != []
    ensures PrintStrings(strings) ==
            strings[0] + ([0] + if strings[1..] == [] then [0] else PrintStrings(strings[1..]))
  {
    if strings[1..] == [] {
      assert Terminated(strings[1..]) == [];
    }
  }

  /** One string, its terminator, and what follows. */
  lemma StringScans(b: Bytes, p: nat, s: Bytes, tail: Bytes)
    requires PrintableString(s) && tail != [] && At(b, p, s + ([0] + tail))
    ensures var q := p + |s| + 1;
            At(b, q, tail) &&
            Scan(b, p, p) ==
              if tail[0] == 0 then Area([s], q + 1) else Area([s] + Scan(b, q, q).strings, Scan(b, q, q).next)
  {
    AtSplits(b, p, s, [0] + tail);
    AtSplits(b, p + |s|, [0], tail);
    forall i | p <= i < p + |s| ensures b[i] != 0 {
      AtIndex(b, p, s, i - p);
    }
    ScanOver(b, p, p, p + |s|);
    AtIndex(b, p + |s|, [0], 0);
    AtIndex(b, p + |s| + 1, tail, 0);
  }

  lemma PrintedFirst(strings: seq<Bytes>)
    requires strings != [] && PrintableString(strings[0])
    ensures PrintStrings(strings) != [] && PrintStrings(strings)[0] != 0
  {
    PrintStringsCons(strings);
    assert strings[0][0] in strings[0];
  }

  /** A printed string area scans back to its strings and ends where the next structure begins. */
  lemma {:induction false} StringsScanBack(b: Bytes, p: nat, strings: seq<Bytes>)
    requires strings != [] && forall i :: 0 <= i < |strings| ==> PrintableString(strings[i])
    requires At(b, p, PrintStrings(strings))
    ensures Scan(b, p, p) == Area(strings, p + |PrintStrings(strings)|)
    decreases |strings|
  {
    hide Scan, At, PrintableString;
    var s, others := strings[0], strings[1..];
    PrintStringsCons(strings);
    if others == [] {
      StringScans(b, p, s, [0]);
      assert strings == [s];
    } else {
      PrintedFirst(others);
      StringScans(b, p, s, PrintStrings(others));
      StringsScanBack(b, p + |s| + 1, others);
      assert strings == [s] + others;
    }
  }

  /** A printed structure is read back, and the parser stands behind it. */
  lemma StructureParsesBack(b: Bytes, p: nat, s: Structure)
    requires Printable(s) && At(b, p, s.data + PrintStrings(s.strings))
    ensures p + 4 <= |b| && b[p + 1] >= 4 && b[p] == s.stype
    ensures StructureAt(b, p) == s && NextAt(b, p) == p + |s.data + PrintStrings(s.strings)|
  {
    AtSplits(b, p, s.data, PrintStrings(s.strings));
    AtIndex(b, p, s.data, 0);
    AtIndex(b, p, s.data, 1);
    AtIndex(b, p, s.data, 2);
    AtIndex(b, p, s.data, 3);
    var q := p + |s.data|;
    if s.strings == [] {
      AtIndex(b, q, PrintStrings(s.strings), 0);
    } else {
      StringsScanBack(b, q, s.strings);
    }
  }

  /** The structures up to and including the first end-of-table, at most `room` of them. */
  function UpToEnd(structures: seq<Structure>, room: nat): seq<Structure>
    decreases room
  {
    if structures == [] || room == 0 then []
    else if structures[0].stype == 127 then [structures[0]]
    else [structures[0]] + UpToEnd(structures[1..], room - 1)
  }

  lemma FirstParsesBack(b: Bytes, p: nat, structures: seq<Structure>)
    requires structures != [] && Printable(structures[0]) && Ends(b, p, structures)
    ensures p + 4 <= |b| && b[p + 1] >= 4 && b[p] == structures[0].stype && StructureAt(b, p) == structures[0]
    ensures p < NextAt(b, p) && Ends(b, NextAt(b, p), structures[1..])
  {
    var s := structures[0];
    AtSplits(b, p, s.data + PrintStrings(s.strings), Print(structures[1..]));
    StructureParsesBack(b, p, s);
  }

  /** The bytes end, from p on, with the printed structures. */
  predicate Ends(b: Bytes, p: nat, structures: seq<Structure>) {
    At(b, p, Print(structures)) && p + |Print(structures)| == |b|
  }

  lemma NothingLeft(b: Bytes, p: nat)
    requires Ends(b, p, [])
    ensures p == |b|
  {
  }

  predicate AllPrintable(structures: seq<Structure>) {
    structures == [] || (Printable(structures[0]) && AllPrintable(structures[1..]))
  }

  lemma {:induction false} TableParsesBack(b: Bytes, p: nat, structures: seq<Structure>, room: nat)
    requires AllPrintable(structures) && Ends(b, p, structures)
    ensures ParseFrom(b, p, room) == UpToEnd(structures, room)
    decreases room
  {
    hide StructureAt, NextAt, Ends, Print, Printable;
    if structures == [] {
      NothingLeft(b, p);
    } else if room > 0 {
      FirstParsesBack(b, p, structures);
      if structures[0].stype != END_OF_TABLE {
        TableParsesBack(b, NextAt(b, p), structures[1..], room - 1);
      }
    }
  }

  /** Printed structures parse back exactly, up to and including the first end-of-table and cut at
      the ceiling; bytes after the declared table are ignored. */
  lemma PrintParse(blob: Bytes, structures: seq<Structure>)
    requires AllPrintable(structures)
    requires |blob| >= 8 && At(blob, 8, Print(structures))
    requires U32(blob, 4) == |Print(structures)|
    requires structures != [] || |blob| == 8
    ensures Parsed(blob) == UpToEnd(structures, 4096)
  {
    var table := Print(structures);
    if structures != [] {
      assert |structures[0].data| >= 4;
    }
    assert Table(blob) == table;
    assert table[0..|table|] == table;
    TableParsesBack(table, 0, structures, MAX_STRUCTURES);
  }

  /** An empty table has a declared length of 0, which the parser takes for an absent one: it then
      reads on behind it, and finds nothing exactly when no header follows. */
  lemma EmptyTableIff(blob: Bytes)
    requires |blob| >= 8 && U32(blob, 4) == 0
    ensures Parsed(blob) == [] <==> |blob| < 12 || blob[9] < 4
  {
    assert Table(blob) == blob[8..];
  }

  /** A concrete such table: four bytes behind it are parsed as a structure. */
  lemma EmptyTableReadsOn()
    ensures Parsed([0, 0, 0, 0, 0, 0, 0, 0, 1, 4, 0, 0]) == [Structure(1, 0, [1, 4, 0, 0], [])]
  {
    var blob: Bytes := [0, 0, 0, 0, 0, 0, 0, 0, 1, 4, 0, 0];
    var data: Bytes := [1, 4, 0, 0];
    assert U32(blob, 4) == 0;
    assert Table(blob) == data;
    assert Scan(data, 4, 4) == Area([], 4);
    assert StructureAt(data, 0) == Structure(1, 0, data, []) by { assert data[0..4] == data; }
    assert ParseFrom(data, 4, MAX_STRUCTURES - 1) == [];
  }

  /** A declared length that is absent, or longer than what is held, is ignored: printed structures that
      fill the response parse back all the same. */
  lemma PrintParseUndeclared(blob: Bytes, structures: seq<Structure>)
    requires AllPrintable(structures)
    requires |blob| >= 8 && blob[8..] == Print(structures)
    requires U32(blob, 4) == 0 || U32(blob, 4) > |blob| - 8
    ensures Parsed(blob) == UpToEnd(structures, 4096)
  {
    assert Table(blob) == blob[8..];
    assert blob[8..][0..|blob[8..]|] == blob[8..];
    TableParsesBack(blob[8..], 0, structures, MAX_STRUCTURES);
  }

  /** A string without its terminator is dropped, and ends the table. */
  lemma {:induction false} UnterminatedIsDropped(blob: Bytes, start: nat, pos: nat)
    requires start <= pos && forall i :: pos <= i < |blob| ==> blob[i] != 0
    ensures Scan(blob, start, pos) == Area([], |blob|)
    decreases |blob| - pos
  {
    if pos < |blob| {
      UnterminatedIsDropped(blob, start, pos + 1);
    }
  }

  /** A structure whose declared header runs past the table is kept with what is there, without strings,
      and is the last. */
  lemma OverlongHeaderIsCut(data: Bytes, pos: nat, room: nat)
    requires room > 0 && pos + 4 <= |data| <= pos + data[pos + 1] && data[pos + 1] >= 4
    ensures ParseFrom(data, pos, room) == [Structure(data[pos], U16(data, pos + 2), data[pos..], [])]
  {
    assert NextAt(data, pos) == |data|;
    assert data[pos..Min(pos + data[pos + 1], Max(pos, |data|))] == data[pos..];
    assert data[pos] == END_OF_TABLE || ParseFrom(data, |data|, room - 1) == [];
  }
}
