/** The two controllers: the deployed one, and the prototype that also filters GET and GETNEXT. */
module Controllers {
  import opened Oids
  import opened Values
  import opened Mib
  import opened Sizes

  /** What GET answers for a name that is, or is not, an instance of the snapshot. */
  ghost predicate AnswersGet(s: Snapshot, ac: Access, name: Oid, answer: VarBind)
    requires s.Aligned()
  {
    if name in s.oids then
      exists i :: 0 <= i < |s.oids| && s.oids[i] == name &&
        answer == if s.Permits(ac, i) then s.Row(i) else NoSuchObject(name)
    else answer == NoSuchInstance(name)
  }

  /** bisect_left finds a name exactly when the snapshot holds it. */
  lemma LeftFinds(s: Snapshot, name: Oid)
    requires s.Valid()
    ensures var i := BisectLeft(s.oids, name, 0, |s.oids|);
            name in s.oids <==> i < |s.oids| && s.oids[i] == name
  {
    BisectLeftIsBorder(s.oids, name, 0, |s.oids|);
    if name in s.oids {
      var k :| 0 <= k < |s.oids| && s.oids[k] == name;
      LtIrreflexive(name);
    }
  }

  /** GET by cases: the row of a name the snapshot holds, unless the view denies it; else
      noSuchInstance. */
  lemma GetByCases(s: Snapshot, ac: Access, name: Oid, answer: VarBind, i: nat)
    requires s.Valid()
    ensures i < |s.oids| && s.oids[i] == name ==>
              (AnswersGet(s, ac, name, answer) <==>
               answer == if ac(name, s.vals[i]) then Bound(name, s.vals[i]) else NoSuchObject(name))
    ensures name !in s.oids ==> (AnswersGet(s, ac, name, answer) <==> answer == NoSuchInstance(name))
  {
    if i < |s.oids| && s.oids[i] == name {
      LtIrreflexive(name);
      assert forall k :: 0 <= k < |s.oids| && s.oids[k] == name ==> k == i;
    }
  }

  /** The controller the service runs. Its arrays are replaced whole, between requests. */
  class SnapshotController {
    var oids: seq<Oid>
    var vals: seq<Value>

    ghost predicate Valid()
      reads this
    {
      |vals| == |oids| && StrictlySorted(oids)
    }

    ghost function Snap(): (s: Snapshot)
      requires Valid()
      reads this
      ensures s.Valid()
    {
      Snapshot(oids, vals, VarbindSizes(oids, vals))
    }

    constructor (oids: seq<Oid>, vals: seq<Value>)
      requires |vals| == |oids| && StrictlySorted(oids)
      ensures Valid() && Snap() == Snapshot(oids, vals, VarbindSizes(oids, vals))
    {
      this.oids, this.vals := oids, vals;
    }

    /** The handover of a rebuilt snapshot. */
    method Swap(newOids: seq<Oid>, newVals: seq<Value>)
      requires |newVals| == |newOids| && StrictlySorted(newOids)
      modifies this
      ensures Valid() && Snap() == Snapshot(newOids, newVals, VarbindSizes(newOids, newVals))
    {
      oids, vals := newOids, newVals;
    }

    /** GET: no access function is consulted here. */
    method ReadVariables(names: seq<Oid>) returns (out: seq<VarBind>)
      requires Valid()
      ensures |out| == |names|
      ensures forall j :: 0 <= j < |names| ==> AnswersGet(Snap(), ReadAll, names[j], out[j])
    {
      out := [];
      for j := 0 to |names|
        invariant |out| == j
        invariant forall k :: 0 <= k < j ==> AnswersGet(Snap(), ReadAll, names[k], out[k])
      {
        var i := BisectLeft(oids, names[j], 0, |oids|);
        LeftFinds(Snap(), names[j]);
        if i < |oids| && oids[i] == names[j] {
          out := out + [Bound(names[j], vals[i])];
          assert Snap().Row(i) == out[j];
        } else {
          out := out + [NoSuchInstance(names[j])];
        }
      }
    }

    /** GETNEXT: no access function is consulted here. */
    method ReadNextVariables(names: seq<Oid>) returns (out: seq<VarBind>)
      requires Valid()
      ensures |out| == |names|
      ensures forall j :: 0 <= j < |names| ==> out[j] == Next(Snap(), ReadAll, names[j])
    {
      out := [];
      for j := 0 to |names|
        invariant |out| == j
        invariant forall k :: 0 <= k < j ==> out[k] == Next(Snap(), ReadAll, names[k])
      {
        var i := BisectRight(oids, names[j], 0, |oids|);
        out := out + [if i < |oids| then Bound(oids[i], vals[i]) else EndOfMibView(names[j])];
      }
    }

    /** One GETBULK slice, sized by prediction. */
    method ReadNextSlice(name: Oid, maxCount: int, maxBytes: int, ac: Access) returns (out: seq<VarBind>)
      requires Valid()
      ensures out == Slice(Snap(), ac, name, maxCount, maxBytes)
    {
      ghost var s := Snap();
      var n := |oids|;
      var i := BisectRight(oids, name, 0, n);
      out := [];
      var used: nat := 0;
      ghost var ks: seq<nat> := [];
      while i < n && |out| < maxCount
        invariant i <= n == |s.oids| && s == Snap()
        invariant InRange(s, ks) && out == Rows(s, ks)
        invariant ks + Take(s, ac, i, maxCount - |out|, used, maxBytes, out == []) ==
                  Take(s, ac, After(s, name), maxCount, 0, maxBytes, true)
        decreases n - i
      {
        if !ac(oids[i], vals[i]) {
          i := i + 1;
          continue;
        }
        var size := VarbindSize(oids[i], vals[i]);
        if out != [] && used + size > maxBytes {
          TakeStops(s, ac, i, maxCount - |out|, used, maxBytes, false);
          break;
        }
        TakeStep(s, ac, ks, i, maxCount - |out|, used, maxBytes, out == []);
        used := used + size;
        out := out + [Bound(oids[i], vals[i])];
        ks := ks + [i];
        i := i + 1;
      }
      assert ks + [] == ks;
      if out == [] {
        out := [EndOfMibView(name)];
      }
    }
  }

  /** GETBULK and GETNEXT of the deployed controller answer alike exactly when the next row of the
      array is readable: GETNEXT does not skip rows, the slice does. */
  lemma DeployedNextAgreesIff(s: Snapshot, ac: Access, name: Oid)
    requires s.Valid()
    ensures Slice(s, ac, name, 1, 0) == [Next(s, ReadAll, name)] <==>
            After(s, name) == |s.oids| || s.Permits(ac, After(s, name))
  {
    SliceIsChain(s, ac, name, 1, 0);
    AfterIsBorder(s, name);
    var i := After(s, name);
    SliceIsLongestRun(s, ac, name, 1, 0, 0);
    TakeIsCut(s, ac, i, 1, 0, 0, true);
    var k := FirstPermitted(s, ac, i);
    assert Chain(s, ac, name, 1) == [Next(s, ac, name)];
    if i < |s.oids| && !s.Permits(ac, i) && k < |s.oids| {
      assert Lt(s.oids[i], s.oids[k]);
      LtIrreflexive(s.oids[i]);
    }
  }

  /** A concrete input: with row [1] denied, GETNEXT answers it and GETBULK passes over it. */
  lemma DeployedNextIgnoresAccess()
    ensures var s := Snapshot([[1], [2]], [Integer(7), Integer(8)], []);
            var ac: Access := (oid, val) => oid != [1];
            && s.Valid()
            && Next(s, ReadAll, []) == Bound([1], Integer(7))
            && Slice(s, ac, [], 1, 1160) == [Bound([2], Integer(8))]
  {
    var s := Snapshot([[1], [2]], [Integer(7), Integer(8)], []);
    assert Lt([1], [2]) && Lt([], [1]);
    AfterIsBorder(s, []);
  }

  /** The prototype's controller: one immutable snapshot value, sizes optional, and the access
      function applied to GET and along GETNEXT as well. */
  class SliceableSnapshotController {
    var snapshot: Snapshot

    ghost predicate Valid()
      reads this
    {
      snapshot.Valid()
    }

    constructor (snapshot: Snapshot)
      requires snapshot.Valid()
      ensures Valid() && this.snapshot == snapshot
    {
      this.snapshot := snapshot;
    }

    method ReadVariables(names: seq<Oid>, ac: Access) returns (out: seq<VarBind>)
      requires Valid()
      ensures |out| == |names|
      ensures forall j :: 0 <= j < |names| ==> AnswersGet(snapshot, ac, names[j], out[j])
    {
      var snap := snapshot;
      out := [];
      for j := 0 to |names|
        invariant |out| == j
        invariant forall k :: 0 <= k < j ==> AnswersGet(snap, ac, names[k], out[k])
      {
        var i := BisectLeft(snap.oids, names[j], 0, |snap.oids|);
        LeftFinds(snap, names[j]);
        if i < |snap.oids| && snap.oids[i] == names[j] {
          if !ac(names[j], snap.vals[i]) {
            out := out + [NoSuchObject(names[j])];
          } else {
            out := out + [snap.Row(i)];
          }
        } else {
          out := out + [NoSuchInstance(names[j])];
        }
      }
    }

    method ReadNextVariables(names: seq<Oid>, ac: Access) returns (out: seq<VarBind>)
      requires Valid()
      ensures |out| == |names|
      ensures forall j :: 0 <= j < |names| ==> out[j] == Next(snapshot, ac, names[j])
    {
      var snap := snapshot;
      var n := |snap.oids|;
      out := [];
      for j := 0 to |names|
        invariant |out| == j
        invariant forall k :: 0 <= k < j ==> out[k] == Next(snap, ac, names[k])
      {
        var i := BisectRight(snap.oids, names[j], 0, n);
        while i < n && !ac(snap.oids[i], snap.vals[i])
          invariant i <= n
          invariant FirstPermitted(snap, ac, i) == FirstPermitted(snap, ac, After(snap, names[j]))
        {
          i := i + 1;
        }
        out := out + [if i < n then snap.Row(i) else EndOfMibView(names[j])];
      }
    }

    method ReadNextSlice(name: Oid, maxCount: int, maxBytes: int, ac: Access) returns (out: seq<VarBind>)
      requires Valid()
      ensures out == Slice(snapshot, ac, name, maxCount, maxBytes)
    {
      var s := snapshot;
      var n := |s.oids|;
      var i := BisectRight(s.oids, name, 0, n);
      out := [];
      var used: nat := 0;
      ghost var ks: seq<nat> := [];
      while i < n && |out| < maxCount
        invariant i <= n
        invariant InRange(s, ks) && out == Rows(s, ks)
        invariant ks + Take(s, ac, i, maxCount - |out|, used, maxBytes, out == []) ==
                  Take(s, ac, After(s, name), maxCount, 0, maxBytes, true)
        decreases n - i
      {
        if !ac(s.oids[i], s.vals[i]) {
          i := i + 1;
          continue;
        }
        var size := if s.sizes != [] then s.sizes[i] else 64;
        if out != [] && used + size > maxBytes {
          TakeStops(s, ac, i, maxCount - |out|, used, maxBytes, false);
          break;
        }
        TakeStep(s, ac, ks, i, maxCount - |out|, used, maxBytes, out == []);
        used := used + size;
        out := out + [s.Row(i)];
        ks := ks + [i];
        i := i + 1;
      }
      assert ks + [] == ks;
      if out == [] {
        out := [EndOfMibView(name)];
      }
    }
  }
}
