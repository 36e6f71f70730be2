/** The save pattern of the three state files: temporary file, fsync, keep a .bak, atomic replace;
    and the load that falls back to the .bak. A crash may come between any two steps. */
module AtomicStore {
  import opened Common

  /** A file on disk. Damaged stands for whatever cannot be parsed or decrypted. */
  datatype File<T> = Missing | Damaged | Holds(value: T)

  datatype Disk<T> = Disk(main: File<T>, bak: File<T>, tmp: File<T>)

  const COMMITTED := 4

  /** The disk after the first `steps` steps of saving `v`: the temporary file is opened, written
      and flushed; the current file becomes the .bak, unless that rename fails; the temporary file
      becomes the current one. */
  function AfterSteps<T>(d: Disk<T>, v: T, steps: nat, bakOk: bool): Disk<T> {
    if steps == 0 then d
    else if steps == 1 then d.(tmp := Damaged)
    else
      var written := d.(tmp := Holds(v));
      if steps == 2 then written
      else
        var moved := if d.main.Missing? || !bakOk then written else Disk(Missing, d.main, Holds(v));
        if steps == 3 then moved else Disk(Holds(v), moved.bak, Missing)
  }

  /** What a file yields to a reader that may find its contents unusable. */
  function Read<T, R>(f: File<T>, read: T -> Option<R>): Option<R> {
    match f
    case Holds(v) => read(v)
    case _ => None
  }

  /** The load: the current file, else the .bak. */
  function Load<T, R>(d: Disk<T>, read: T -> Option<R>): Option<R> {
    var r := Read(d.main, read);
    if r.Some? then r else Read(d.bak, read)
  }

  class StateFile<T> {
    var disk: Disk<T>

    constructor (disk: Disk<T>)
      ensures this.disk == disk
    {
      this.disk := disk;
    }

    /** Saves `v`, or dies after `steps` steps of doing so. */
    method Save(v: T, steps: nat, bakOk: bool) returns (committed: bool)
      modifies this
      ensures disk == AfterSteps(old(disk), v, steps, bakOk)
      ensures committed == (steps >= COMMITTED)
    {
      if steps == 0 { return false; }
      disk := disk.(tmp := Damaged);
      if steps == 1 { return false; }
      disk := disk.(tmp := Holds(v));
      if steps == 2 { return false; }
      if !disk.main.Missing? && bakOk {
        disk := disk.(bak := disk.main, main := Missing);
      }
      if steps == 3 { return false; }
      disk := disk.(main := disk.tmp, tmp := Missing);
      return true;
    }

    /** Tries the current file, then the .bak. */
    method LoadState<R>(read: T -> Option<R>) returns (r: Option<R>)
      ensures r == Load(disk, read)
    {
      var candidates := [disk.main, disk.bak];
      for i := 0 to |candidates|
        invariant forall j :: 0 <= j < i ==> Read(candidates[j], read) == None
      {
        if candidates[i].Holds? {
          r := read(candidates[i].value);
          if r.Some? {
            assert i == 1 ==> Read(candidates[0], read) == None;
            return r;
          }
        }
      }
      assert Read(candidates[0], read) == None && Read(candidates[1], read) == None;
      return None;
    }
  }

  /** The current file is absent or usable; it is not a damaged one. */
  predicate Clean<T, R>(d: Disk<T>, read: T -> Option<R>) {
    d.main.Missing? || Read(d.main, read).Some?
  }

  /** A save is atomic: before its last step a load still gives the old value, after it the new one.
      The disk stays clean throughout, so this holds again for whatever comes after a crash. */
  lemma SaveIsAtomic<T, R>(d: Disk<T>, v: T, steps: nat, bakOk: bool, read: T -> Option<R>)
    requires Clean(d, read) && read(v).Some?
    ensures Load(AfterSteps(d, v, steps, bakOk), read) == if steps >= COMMITTED then read(v) else Load(d, read)
    ensures Clean(AfterSteps(d, v, steps, bakOk), read)
  {
  }

  datatype Attempt<T> = Attempt(value: T, steps: nat, bakOk: bool)

  function AfterAttempts<T>(d: Disk<T>, saves: seq<Attempt<T>>): Disk<T>
    decreases |saves|
  {
    if saves == [] then d
    else AfterAttempts(AfterSteps(d, saves[0].value, saves[0].steps, saves[0].bakOk), saves[1..])
  }

  /** The value committed last, or what was there before any of the saves. */
  function LastCommitted<T, R>(before: Option<R>, saves: seq<Attempt<T>>, read: T -> Option<R>): Option<R> {
    if saves == [] then before
    else
      var last := saves[|saves| - 1];
      if last.steps >= COMMITTED then read(last.value) else LastCommitted(before, saves[..|saves| - 1], read)
  }

  lemma {:induction false} CommittedFirst<T, R>(before: Option<R>, saves: seq<Attempt<T>>, read: T -> Option<R>)
    requires saves != []
    ensures LastCommitted(before, saves, read) ==
            LastCommitted(if saves[0].steps >= COMMITTED then read(saves[0].value) else before, saves[1..], read)
    decreases |saves|
  {
    var n := |saves| - 1;
    if n > 0 && saves[n].steps < COMMITTED {
      CommittedFirst(before, saves[..n], read);
      assert saves[..n][1..] == saves[1..][..n - 1];
    }
  }

  /** Over any sequence of saves, each of them cut off at any step or completed, a load gives the
      value committed last; so never nothing once something was committed. */
  lemma {:induction false} CrashesLoseNothing<T, R>(d: Disk<T>, saves: seq<Attempt<T>>, read: T -> Option<R>)
    requires Clean(d, read) && forall i :: 0 <= i < |saves| ==> read(saves[i].value).Some?
    ensures Clean(AfterAttempts(d, saves), read)
    ensures Load(AfterAttempts(d, saves), read) == LastCommitted(Load(d, read), saves, read)
    decreases |saves|
  {
    if saves != [] {
      var s := saves[0];
      SaveIsAtomic(d, s.value, s.steps, s.bakOk, read);
      CrashesLoseNothing(AfterSteps(d, s.value, s.steps, s.bakOk), saves[1..], read);
      CommittedFirst(Load(d, read), saves, read);
    }
  }

  /** After a completed save, if only the current file is then damaged or lost, a load gives the
      value that was current before that save. */
  lemma BackupServes<T, R>(d: Disk<T>, v: T, damage: File<T>, read: T -> Option<R>)
    requires Read(d.main, read).Some? && Read(damage, read) == None
    ensures Load(AfterSteps(d, v, COMMITTED, true).(main := damage), read) == Read(d.main, read)
  {
  }

  /** Saving over a damaged current file moves the damage over the .bak. A crash is harmless at
      every step, whatever happens to the .bak rename, exactly when the disk is clean or held
      nothing usable to begin with. */
  lemma CrashIsHarmlessIff<T, R>(d: Disk<T>, v: T, read: T -> Option<R>)
    requires read(v).Some?
    ensures (forall steps: nat, bakOk ::
               Load(AfterSteps(d, v, steps, bakOk), read) == if steps >= COMMITTED then read(v) else Load(d, read)) <==>
            Clean(d, read) || Load(d, read) == None
  {
    if Clean(d, read) {
      forall steps: nat, bakOk: bool
        ensures Load(AfterSteps(d, v, steps, bakOk), read) == if steps >= COMMITTED then read(v) else Load(d, read)
      {
        SaveIsAtomic(d, v, steps, bakOk, read);
      }
    } else if Load(d, read).Some? {
      assert Load(AfterSteps(d, v, 3, true), read) == None;
    }
  }

  lemma {:induction false} NothingToLose<T, R>(d: Disk<T>, saves: seq<Attempt<T>>, read: T -> Option<R>)
    requires Load(d, read) == None && forall i :: 0 <= i < |saves| ==> read(saves[i].value).Some?
    ensures Load(AfterAttempts(d, saves), read) == LastCommitted(None, saves, read)
    decreases |saves|
  {
    if saves != [] {
      var s := saves[0];
      var next := AfterSteps(d, s.value, s.steps, s.bakOk);
      CommittedFirst(None, saves, read);
      if s.steps >= COMMITTED {
        CrashesLoseNothing(next, saves[1..], read);
      } else {
        NothingToLose(next, saves[1..], read);
      }
    }
  }

  /** Over all sequences of saves, cut off at any step or completed: a load gives the value committed
      last, or what was there before, exactly when the disk is clean or held nothing usable. */
  lemma CrashesLoseNothingIff<T, R>(d: Disk<T>, v: T, read: T -> Option<R>)
    requires read(v).Some?
    ensures (forall saves: seq<Attempt<T>> | (forall i :: 0 <= i < |saves| ==> read(saves[i].value).Some?) ::
               Load(AfterAttempts(d, saves), read) == LastCommitted(Load(d, read), saves, read)) <==>
            Clean(d, read) || Load(d, read) == None
  {
    if Clean(d, read) || Load(d, read) == None {
      forall saves: seq<Attempt<T>> | forall i :: 0 <= i < |saves| ==> read(saves[i].value).Some?
        ensures Load(AfterAttempts(d, saves), read) == LastCommitted(Load(d, read), saves, read)
      {
        if Clean(d, read) {
          CrashesLoseNothing(d, saves, read);
        } else {
          NothingToLose(d, saves, read);
        }
      }
    } else {
      var saves := [Attempt(v, COMMITTED - 1, true)];
      assert saves[1..] == [] && saves[..0] == [];
      assert AfterAttempts(d, saves) == AfterSteps(d, v, COMMITTED - 1, true);
      assert LastCommitted(Load(d, read), saves, read) == Load(d, read);
    }
  }

  /** A concrete such crash: the current file is damaged, the .bak holds 1, and a save of 2 dies before
      its last step. */
  lemma CrashLosesBackup()
    ensures var d: Disk<int> := Disk(Damaged, Holds(1), Missing);
            && Load(d, v => Some(v)) == Some(1)
            && Load(AfterSteps(d, 2, 3, true), v => Some(v)) == None
  {
  }
}
