/** GETBULK as the command responders answer it. */
module Bulk {
  import opened Common
  import opened Oids
  import opened Values
  import opened Mib
  import opened Controllers
  import opened Wire
  import opened Sizes

  const MAX_RESPONSE_BYTES := 1400
  const PROTOTYPE_RESERVE := 120
  const DEPLOYED_RESERVE := 240
  const MAX_REPETITIONS_CAP := 25

  /** One GETNEXT for each name. */
  function NextAll(s: Snapshot, ac: Access, names: seq<Oid>): (answers: seq<VarBind>)
    requires s.Aligned()
    ensures |answers| == |names|
  {
    seq(|names|, i requires 0 <= i < |names| => Next(s, ac, names[i]))
  }

  /** m rounds of GETNEXTs, each round from the names the one before answered with. */
  function Rounds(s: Snapshot, ac: Access, names: seq<Oid>, m: nat): seq<VarBind>
    requires s.Aligned()
    decreases m
  {
    if m == 0 then [] else
    var got := NextAll(s, ac, names);
    got + Rounds(s, ac, NamesOf(got), m - 1)
  }

  /** Where entry j of round i stands when every round holds r entries: i * r + j. */
  function At(i: nat, j: nat, r: nat): nat {
    if i == 0 then j else r + At(i - 1, j, r)
  }

  lemma {:induction false} AtIsProduct(i: nat, j: nat, r: nat)
    ensures At(i, j, r) == i * r + j
  {
    if i > 0 {
      AtIsProduct(i - 1, j, r);
    }
  }

  /** RFC 3416 section 4.2.3: the answers are m rounds, and entry j of round i is the (i + 1)-th
      successor of repeater j. */
  ghost predicate Interleaves(s: Snapshot, ac: Access, repeaters: seq<Oid>, m: nat, answers: seq<VarBind>)
    requires s.Aligned()
  {
    && |answers| == At(m, 0, |repeaters|)
    && forall i: nat, j: nat :: i < m && j < |repeaters| ==>
         && At(i, j, |repeaters|) < |answers|
         && answers[At(i, j, |repeaters|)] == Chain(s, ac, repeaters[j], m)[i]
  }

  lemma {:induction false} RoundsLength(s: Snapshot, ac: Access, names: seq<Oid>, m: nat)
    requires s.Aligned()
    ensures |Rounds(s, ac, names, m)| == At(m, 0, |names|)
    decreases m
  {
    if m > 0 {
      RoundsLength(s, ac, NamesOf(NextAll(s, ac, names)), m - 1);
    }
  }

  lemma {:induction false} RoundsEntry(s: Snapshot, ac: Access, names: seq<Oid>, m: nat, i: nat, j: nat)
    requires s.Aligned() && i < m && j < |names|
    ensures At(i, j, |names|) < |Rounds(s, ac, names, m)|
    ensures Rounds(s, ac, names, m)[At(i, j, |names|)] == Chain(s, ac, names[j], m)[i]
    decreases m
  {
    hide Next;
    var got := NextAll(s, ac, names);
    var rest := Rounds(s, ac, NamesOf(got), m - 1);
    assert Rounds(s, ac, names, m) == got + rest;
    if i > 0 {
      RoundsEntry(s, ac, NamesOf(got), m - 1, i - 1, j);
      assert (got + rest)[|names| + At(i - 1, j, |names|)] == rest[At(i - 1, j, |names|)];
    }
  }

  lemma RoundsInterleave(s: Snapshot, ac: Access, names: seq<Oid>, m: nat)
    requires s.Aligned()
    ensures Interleaves(s, ac, names, m, Rounds(s, ac, names, m))
  {
    RoundsLength(s, ac, names, m);
    forall i: nat, j: nat | i < m && j < |names|
      ensures At(i, j, |names|) < |Rounds(s, ac, names, m)|
      ensures Rounds(s, ac, names, m)[At(i, j, |names|)] == Chain(s, ac, names[j], m)[i]
    {
      RoundsEntry(s, ac, names, m, i, j);
    }
  }

  lemma SomeRounds(m: nat, r: nat)
    ensures At(m, 0, r) == 0 <==> m == 0 || r == 0
  {
    AtIsProduct(m, 0, r);
  }

  /** No repetitions, or no repeaters: no rounds. */
  lemma NoRounds(s: Snapshot, ac: Access, names: seq<Oid>, m: nat)
    requires s.Aligned() && (m == 0 || names == [])
    ensures Rounds(s, ac, names, m) == []
  {
    RoundsLength(s, ac, names, m);
    SomeRounds(m, |names|);
  }

  /** The repetition loop. Its byte budget is compared but never spent, so it cannot stop the loop. */
  method Repeat(instrum: SliceableSnapshotController, front: seq<VarBind>, repeaters: seq<Oid>, m0: nat, ac: Access)
    returns (rsp: seq<VarBind>)
    requires instrum.Valid()
    ensures rsp == front + Rounds(instrum.snapshot, ac, repeaters, m0)
  {
    ghost var s := instrum.snapshot;
    var r, m, current := |repeaters|, m0, repeaters;
    var budget := MAX_RESPONSE_BYTES - PROTOTYPE_RESERVE;
    rsp := front;
    while m > 0 && r > 0 && budget > 0
      invariant 0 <= m && |current| == r
      invariant rsp + Rounds(s, ac, current, m) == front + Rounds(s, ac, repeaters, m0)
      decreases m
    {
      var got := instrum.ReadNextVariables(current, ac);
      assert got == NextAll(s, ac, current);
      assert rsp + (got + Rounds(s, ac, NamesOf(got), m - 1)) == (rsp + got) + Rounds(s, ac, NamesOf(got), m - 1);
      rsp := rsp + got;
      assert rsp[|rsp| - r..] == got;
      current := NamesOf(rsp[|rsp| - r..]);
      m := m - 1;
    }
    NoRounds(s, ac, current, m);
    assert rsp + [] == rsp;
  }

  /** What the responder answers when it does not take the slice path. */
  function Interleaved(s: Snapshot, ac: Access, names: seq<Oid>, n: nat, m: nat): seq<VarBind>
    requires s.Aligned() && n <= |names|
  {
    NextAll(s, ac, names[..n]) + Rounds(s, ac, names[n..], m)
  }

  lemma InterleavedAnswers(s: Snapshot, ac: Access, names: seq<Oid>, n: nat, m: nat)
    requires s.Aligned() && n <= |names|
    ensures var rsp := Interleaved(s, ac, names, n, m);
            && n <= |rsp| && (forall j :: 0 <= j < n ==> rsp[j] == Next(s, ac, names[j]))
            && Interleaves(s, ac, names[n..], m, rsp[n..])
            && (rsp == [] <==> n == 0 && (m == 0 || names == []))
  {
    var rsp := Interleaved(s, ac, names, n, m);
    assert rsp[n..] == Rounds(s, ac, names[n..], m);
    RoundsInterleave(s, ac, names[n..], m);
    SomeRounds(m, |names| - n);
    RoundsLength(s, ac, names[n..], m);
    hide Next, Interleaves, Rounds, At;
  }

  /** The prototype's responder. An empty result means that no response is sent. */
  method HandleBulk(instrum: SliceableSnapshotController, nonRepeaters: int, maxRepetitions: int,
                    names: seq<Oid>, ac: Access)
    returns (rsp: seq<VarBind>)
    requires instrum.Valid()
    ensures var n := Min(Max(nonRepeaters, 0), |names|);
            var m := Min(Max(maxRepetitions, 0), 25);
            var s := instrum.snapshot;
            if n == 0 && |names| == 1 then
              rsp == Slice(s, ac, names[0], m, 1280)
            else
              && n <= |rsp| && (forall j :: 0 <= j < n ==> rsp[j] == Next(s, ac, names[j]))
              && Interleaves(s, ac, names[n..], m, rsp[n..])
    ensures rsp == [] <==>
            names == [] || (|names| > 1 && nonRepeaters <= 0 && maxRepetitions <= 0)
  {
    hide Rounds, Interleaves, Next;
    var requested := Max(nonRepeaters, 0);
    var n := Min(requested, |names|);
    var r := Max(|names| - n, 0);
    var m := Min(Max(maxRepetitions, 0), MAX_REPETITIONS_CAP);
    if n == 0 && r == 1 {
      rsp := instrum.ReadNextSlice(names[0], m, MAX_RESPONSE_BYTES - PROTOTYPE_RESERVE, ac);
    } else {
      rsp := [];
      if n > 0 {
        rsp := instrum.ReadNextVariables(names[..n], ac);
      }
      assert rsp == NextAll(instrum.snapshot, ac, names[..n]);
      var repeaters := if r > 0 then names[|names| - r..] else [];
      assert repeaters == names[n..];
      rsp := Repeat(instrum, rsp, repeaters, m, ac);
      InterleavedAnswers(instrum.snapshot, ac, names, n, m);
    }
  }

  /** The deployed responder: one repeater alone takes the slice; every other request is left to
      the library (None). */
  method HandleCappedBulk(instrum: SnapshotController, nonRepeaters: int, maxRepetitions: int,
                          names: seq<Oid>, ac: Access)
    returns (rsp: Option<seq<VarBind>>)
    requires instrum.Valid()
    ensures rsp.Some? <==> |names| == 1 && nonRepeaters <= 0
    ensures rsp.Some? ==>
              rsp.value == Slice(instrum.Snap(), ac, names[0], Min(Max(maxRepetitions, 0), 25), 1160)
  {
    var requested := Max(nonRepeaters, 0);
    var n := Min(requested, |names|);
    var r := Max(|names| - n, 0);
    var m := Min(Max(maxRepetitions, 0), MAX_REPETITIONS_CAP);
    if n == 0 && r == 1 {
      var answer := instrum.ReadNextSlice(names[0], m, MAX_RESPONSE_BYTES - DEPLOYED_RESERVE, ac);
      return Some(answer);
    }
    return None;
  }

  // ------------------------------------------------------------------ the byte budget

  /** The encoded size of a varbind; an exception takes two octets in place of a value. */
  function AnswerSize(v: VarBind): nat {
    match v
    case Bound(name, val) => VarbindSize(name, val)
    case _ => TlvLen(TlvLen(OidContentLen(v.name)) + 2)
  }

  function AnswersSize(answers: seq<VarBind>): nat {
    if answers == [] then 0 else AnswerSize(answers[0]) + AnswersSize(answers[1..])
  }

  /** For answers that carry values this is the length of their encodings, one after the other. */
  lemma {:induction false} AnswersSizeIsWireLength(answers: seq<Binding>)
    requires forall i :: 0 <= i < |answers| ==> Encodable(answers[i])
    ensures AnswersSize(answers) == |Join(PrecomputeWire(answers))|
  {
    if answers != [] {
      SizeIsExact(answers[0]);
      AnswersSizeIsWireLength(answers[1..]);
      assert PrecomputeWire(answers)[1..] == PrecomputeWire(answers[1..]);
    }
  }

  /** A snapshot of one row with a string of 1300 octets, asked for by name [1] again and again. */
  lemma LongRow(names: nat) returns (s: Snapshot, asked: seq<Oid>)
    ensures s.Valid() && |asked| == names && forall i :: 0 <= i < names ==> asked[i] == [1]
    ensures Next(s, ReadAll, [1]).Bound? && AnswerSize(Next(s, ReadAll, [1])) > 1280
  {
    var val := OctetString(seq(1300, _ => 65));
    asked := seq(names, _ => [1]);
    s := Snapshot([[1, 3]], [val], []);
    OneRow(s, val);
    SizeExceedsContent([1, 3], val);
  }

  lemma OneRow(s: Snapshot, val: Value)
    requires s == Snapshot([[1, 3]], [val], [])
    ensures s.Valid() && Next(s, ReadAll, [1]) == Bound([1, 3], val)
  {
    assert Lt([1], [1, 3]) by { assert [1, 3][1..] == [3] && [1][1..] == []; }
    AfterIsBorder(s, [1]);
  }

  lemma SizeExceedsContent(name: Oid, val: Value)
    ensures VarbindSize(name, val) > ValueContentLen(val)
  {
  }

  lemma InterleavedLength(s: Snapshot, ac: Access, names: seq<Oid>, n: nat, m: nat)
    requires s.Aligned() && n <= |names|
    ensures |Interleaved(s, ac, names, n, m)| == n + m * (|names| - n)
  {
    RoundsLength(s, ac, names[n..], m);
    AtIsProduct(m, 0, |names| - n);
  }

  /** The interleaved responses stay within the budget, or hold a single varbind, for every snapshot and
      every names asked, exactly when there is at most one varbind to answer: nothing truncates them. */
  lemma InterleavedFitsIff(n: nat, r: nat, m: nat)
    ensures (forall s: Snapshot, names: seq<Oid> | s.Valid() && |names| == n + r ::
               var answers := Interleaved(s, ReadAll, names, n, m);
               AnswersSize(answers) <= 1280 || |answers| <= 1) <==>
            n + m * r <= 1
  {
    if n + m * r <= 1 {
      forall s: Snapshot, names: seq<Oid> | s.Valid() && |names| == n + r
        ensures |Interleaved(s, ReadAll, names, n, m)| <= 1
      {
        InterleavedLength(s, ReadAll, names, n, m);
      }
    } else {
      var s, names := LongRow(n + r);
      InterleavedLength(s, ReadAll, names, n, m);
      var answers := Interleaved(s, ReadAll, names, n, m);
      FirstIsLong(s, names, n, m);
      assert AnswersSize(answers) >= AnswerSize(answers[0]);
    }
  }

  lemma FirstIsLong(s: Snapshot, names: seq<Oid>, n: nat, m: nat)
    requires s.Aligned() && n <= |names| && forall i :: 0 <= i < |names| ==> names[i] == [1]
    requires Interleaved(s, ReadAll, names, n, m) != []
    ensures Interleaved(s, ReadAll, names, n, m)[0] == Next(s, ReadAll, [1])
  {
    hide Next;
    if n > 0 {
      assert NextAll(s, ReadAll, names[..n])[0] == Next(s, ReadAll, names[0]);
    } else if m > 0 && names != [] {
      assert names[n..] == names && names[..n] == [];
      var got := NextAll(s, ReadAll, names);
      assert Rounds(s, ReadAll, names, m) == got + Rounds(s, ReadAll, NamesOf(got), m - 1);
    } else {
      NoRounds(s, ReadAll, names[n..], m);
    }
  }
}
