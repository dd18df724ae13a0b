/** Which remote cluster owns which cluster UUID (pkg/controllers/multicluster/uuid_mutex.go). */
module UUIDMutexes {
  import opened Wrappers

  type UUID = string

  datatype Mutex = Mutex(owner: map<UUID, string>, latest: map<string, UUID>)

  /** Every latest UUID is a UUID its cluster owns. */
  ghost predicate MutexInv(m: Mutex)
  {
    && "" !in m.owner
    && forall n :: n in m.latest ==> m.latest[n] in m.owner && m.owner[m.latest[n]] == n
  }

  /** The result says whether the lock is new; taking a UUID of another cluster is an error. */
  function Lock(m: Mutex, u: UUID, name: string): (Mutex, Result<bool>)
  {
    if |u| == 0 then (m, Err)
    else if u in m.owner then
      if m.owner[u] == name then (m.(latest := m.latest[name := u]), Ok(false)) else (m, Err)
    else (Mutex(m.owner[u := name], m.latest[name := u]), Ok(true))
  }

  function Unlock(m: Mutex, u: UUID): (Mutex, bool)
  {
    if u in m.owner then
      var name := m.owner[u];
      var latest := if name in m.latest && m.latest[name] == u then m.latest - {name} else m.latest;
      (Mutex(m.owner - {u}, latest), true)
    else (m, false)
  }

  ghost function Owned(m: Mutex, name: string): set<UUID>
  {
    set u | u in m.owner && m.owner[u] == name
  }

  /** Locking never takes a UUID away from a cluster: it fails exactly for the empty UUID and for a UUID of another
      cluster, and otherwise makes the UUID the latest one of its owner. */
  lemma {:induction false} LockSpec(m: Mutex, u: UUID, name: string)
    requires MutexInv(m)
    ensures var (m', r) := Lock(m, u, name);
            && MutexInv(m')
            && (r.Err? <==> u == "" || (u in m.owner && m.owner[u] != name))
            && (r.Err? ==> m' == m)
            && (r.Ok? ==> m'.latest == m.latest[name := u] && m'.owner == m.owner[u := name])
            && (r == Ok(true) ==> u !in m.owner) && (r == Ok(false) ==> u in m.owner)
            && (forall v :: v in m.owner ==> v in m'.owner && m'.owner[v] == m.owner[v])
  {}

  /** Unlocking removes exactly that UUID; the latest entry of its owner goes exactly if it named that UUID. */
  lemma {:induction false} UnlockSpec(m: Mutex, u: UUID)
    requires MutexInv(m)
    ensures var (m', r) := Unlock(m, u);
            && MutexInv(m') && (r <==> u in m.owner)
            && m'.owner == m.owner - {u}
            && (forall n :: n in m'.latest <==> n in m.latest && m.latest[n] != u)
            && (forall n :: n in m'.latest ==> m'.latest[n] == m.latest[n])
  {
    var (m', r) := Unlock(m, u);
    forall n | n in m.latest && m.latest[n] == u ensures u in m.owner && m.owner[u] == n {}
  }

  /** Unlocking undoes a new lock exactly when the cluster had no latest UUID before: an older one is not restored. */
  lemma {:induction false} UnlockUndoesLock(m: Mutex, u: UUID, name: string)
    requires MutexInv(m) && Lock(m, u, name).1 == Ok(true)
    ensures Unlock(Lock(m, u, name).0, u) == (m, true) <==> name !in m.latest
  {
    var m' := Lock(m, u, name).0;
    assert m'.owner - {u} == m.owner;
    if name !in m.latest { assert m'.latest - {name} == m.latest; }
  }

  /** A cluster whose latest UUID is "a" has no latest UUID after locking and unlocking "b". */
  lemma {:induction false} UnlockForgetsLatest()
    ensures var m := Mutex(map["a" := "c"], map["c" := "a"]);
            && MutexInv(m) && Lock(m, "b", "c").1 == Ok(true)
            && Unlock(Lock(m, "b", "c").0, "b").0 == Mutex(map["a" := "c"], map[])
  {
    var m' := Lock(Mutex(map["a" := "c"], map["c" := "a"]), "b", "c").0;
    assert m'.owner - {"b"} == map["a" := "c"] && m'.latest - {"c"} == map[];
  }

  // ---- Runs of locks and unlocks ----

  datatype Call = LockCall(u: UUID, name: string) | UnlockCall(u: UUID)

  function Apply(m: Mutex, c: Call): Mutex
  {
    match c
    case LockCall(u, name) => Lock(m, u, name).0
    case UnlockCall(u) => Unlock(m, u).0
  }

  function After(m: Mutex, cs: seq<Call>): Mutex
  {
    if cs == [] then m else Apply(After(m, cs[..|cs| - 1]), cs[|cs| - 1])
  }

  lemma {:induction false} AfterKeepsInv(m: Mutex, cs: seq<Call>)
    requires MutexInv(m)
    ensures MutexInv(After(m, cs))
  {
    if cs != [] {
      AfterKeepsInv(m, cs[..|cs| - 1]);
      var before := After(m, cs[..|cs| - 1]);
      match cs[|cs| - 1]
      case LockCall(u, name) => LockSpec(before, u, name);
      case UnlockCall(u) => UnlockSpec(before, u);
    }
  }

  /** Call `i` locks the UUID for the cluster, successfully. */
  ghost predicate Locks(m: Mutex, cs: seq<Call>, i: nat, u: UUID, name: string)
  {
    i < |cs| && cs[i] == LockCall(u, name) && Lock(After(m, cs[..i]), u, name).1.Ok?
  }

  /** Call `j` makes `u` no longer the latest UUID of the cluster: it unlocks `u`, or locks another UUID for the
      cluster. */
  ghost predicate Supersedes(m: Mutex, cs: seq<Call>, j: nat, u: UUID, name: string)
  {
    j < |cs| && (cs[j] == UnlockCall(u) || (cs[j].LockCall? && cs[j].u != u && Locks(m, cs, j, cs[j].u, name)))
  }

  ghost predicate LastLock(m: Mutex, cs: seq<Call>, i: nat, u: UUID, name: string)
  {
    Locks(m, cs, i, u, name) && forall j :: i < j < |cs| ==> !Supersedes(m, cs, j, u, name)
  }

  ghost predicate IsLatest(m: Mutex, name: string, u: UUID)
  {
    name in m.latest && m.latest[name] == u
  }

  /** After any calls on a new mutex, GetLatestUUID answers the UUID the cluster locked last, unless that UUID was
      unlocked since. */
  lemma {:induction false} LatestIsLastLock(cs: seq<Call>, name: string, u: UUID)
    ensures var m := Mutex(map[], map[]); IsLatest(After(m, cs), name, u) <==>
            exists i: nat :: LastLock(m, cs, i, u, name)
  {
    var m := Mutex(map[], map[]);
    if cs != [] {
      var n := |cs| - 1;
      var init := cs[..n];
      LatestIsLastLock(init, name, u);
      AfterKeepsInv(m, init);
      LastCall(m, cs, name, u);
      if IsLatest(After(m, init), name, u) {
        var i: nat :| LastLock(m, init, i, u, name);
        LastLockExtends(m, cs, i, u, name);
      }
      if i: nat :| LastLock(m, cs, i, u, name) {
        if i < n { LastLockExtends(m, cs, i, u, name); }
      }
      if Locks(m, cs, n, u, name) { assert LastLock(m, cs, n, u, name); }
    }
  }

  /** What the last call does to the latest UUID. */
  lemma {:induction false} LastCall(m: Mutex, cs: seq<Call>, name: string, u: UUID)
    requires cs != [] && MutexInv(After(m, cs[..|cs| - 1]))
    ensures IsLatest(After(m, cs), name, u) <==>
            Locks(m, cs, |cs| - 1, u, name)
                || (IsLatest(After(m, cs[..|cs| - 1]), name, u) && !Supersedes(m, cs, |cs| - 1, u, name))
  {
    var before := After(m, cs[..|cs| - 1]);
    match cs[|cs| - 1]
    case LockCall(v, n) => LockSpec(before, v, n);
    case UnlockCall(v) => UnlockSpec(before, v);
  }

  /** An earlier last lock stays the last lock exactly when the last call does not supersede it. */
  lemma {:induction false} LastLockExtends(m: Mutex, cs: seq<Call>, i: nat, u: UUID, name: string)
    requires cs != [] && i < |cs| - 1
    ensures LastLock(m, cs, i, u, name) <==>
            LastLock(m, cs[..|cs| - 1], i, u, name) && !Supersedes(m, cs, |cs| - 1, u, name)
  {
    var init := cs[..|cs| - 1];
    forall j: nat | j < |init| ensures cs[..j] == init[..j] && cs[j] == init[j] {}
    forall j: nat | j < |init| ensures Supersedes(m, cs, j, u, name) <==> Supersedes(m, init, j, u, name) {}
  }

  class UUIDMutex {
    var idNameMap: map<UUID, string>
    var nameLatestIDMap: map<string, UUID>

    ghost function State(): Mutex
      reads this
    {
      Mutex(idNameMap, nameLatestIDMap)
    }

    constructor ()
      ensures State() == Mutex(map[], map[]) && MutexInv(State())
    {
      idNameMap, nameLatestIDMap := map[], map[];
    }

    method TryLock(u: UUID, name: string) returns (r: Result<bool>)
      modifies this
      ensures (State(), r) == Lock(old(State()), u, name)
    {
      if |u| == 0 {
        return Err;
      }
      if u in idNameMap {
        if idNameMap[u] == name {
          nameLatestIDMap := nameLatestIDMap[name := u];
          return Ok(false);
        }
        return Err;
      }
      idNameMap := idNameMap[u := name];
      nameLatestIDMap := nameLatestIDMap[name := u];
      return Ok(true);
    }

    method Release(u: UUID) returns (r: bool)
      modifies this
      ensures (State(), r) == Unlock(old(State()), u)
    {
      if u in idNameMap {
        var name := idNameMap[u];
        idNameMap := idNameMap - {u};
        if name in nameLatestIDMap && nameLatestIDMap[name] == u {
          nameLatestIDMap := nameLatestIDMap - {name};
        }
        return true;
      }
      return false;
    }

    method GetLatestUUID(name: string) returns (r: Option<UUID>)
      ensures r == if name in State().latest then Some(State().latest[name]) else None
    {
      r := if name in nameLatestIDMap then Some(nameLatestIDMap[name]) else None;
    }

    /** All UUIDs of the cluster, each once, in any order. */
    method GetUUIDs(name: string) returns (us: seq<UUID>)
      ensures forall i, j :: 0 <= i < j < |us| ==> us[i] != us[j]
      ensures (set u | u in us) == Owned(State(), name)
    {
      us := [];
      var todo := idNameMap.Keys;
      while todo != {}
        invariant todo <= idNameMap.Keys
        invariant forall i, j :: 0 <= i < j < |us| ==> us[i] != us[j]
        invariant forall u :: u in us <==> u in idNameMap && u !in todo && idNameMap[u] == name
      {
        var u :| u in todo;
        todo := todo - {u};
        if idNameMap[u] == name {
          us := us + [u];
        }
      }
    }
  }
}
