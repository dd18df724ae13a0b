/** A reconcile or a status check that nothing interferes with
    (pkg/controllers/multicluster/remotecluster_controller.go and remoteclusterstatus_checker.go). */
module LoneReconciles {
  import opened Wrappers
  import opened UUIDMutexes
  import opened DaemonHubs
  import opened Multicluster

  function Alone(s: State, name: string, snapshot: seq<UUID>, k: nat): State
    decreases k
  {
    if k == 0 then s else Alone(AdvanceStep(s, name, snapshot), name, snapshot, k - 1)
  }

  lemma {:induction false} AloneAdds(s: State, name: string, snapshot: seq<UUID>, j: nat, k: nat)
    ensures Alone(s, name, snapshot, j + k) == Alone(Alone(s, name, snapshot, j), name, snapshot, k)
    decreases j
  {
    if j > 0 {
      AloneAdds(AdvanceStep(s, name, snapshot), name, snapshot, j - 1, k);
    }
  }

  /** `t` is `s` with every UUID of `gone` unlocked and its daemon stopped and unregistered. */
  ghost predicate Recycled(s: State, t: State, gone: set<UUID>)
  {
    && Inv(t)
    && t.mutex.owner == s.mutex.owner - gone
    && t.hub.registered == s.hub.registered - gone
    && t.next == s.next
  }

  lemma {:induction false} RecycleOne(s: State, name: string, snapshot: seq<UUID>) returns (k: nat)
    requires Inv(s) && At(s, name).Recycling? && At(s, name).queue != []
    ensures var t := Alone(s, name, snapshot, k);
            Recycled(s, t, {At(s, name).queue[0]}) && At(t, name) == Recycling(At(s, name).queue[1..], At(s, name).keep)
  {
    var s1 := AdvanceStep(s, name, snapshot);
    AdvanceKeeps(s, name, snapshot);
    var killed := s1;
    if s1.reconciles[name].OrphanFound? {
      var s2 := AdvanceStep(s1, name, snapshot);
      AdvanceKeeps(s1, name, snapshot);
      killed := AdvanceStep(s2, name, snapshot);
      AdvanceKeeps(s2, name, snapshot);
      k := 4;
      AloneFour(s, name, snapshot);
    } else {
      k := 2;
      AloneAdds(s, name, snapshot, 1, 1);
    }
    assert ReconcileInv(killed, name, killed.reconciles[name]);
    UnlockSpec(killed.mutex, At(s, name).queue[0]);
    AdvanceKeeps(killed, name, snapshot);
  }

  lemma {:induction false} AloneFour(s: State, name: string, snapshot: seq<UUID>)
    ensures Alone(s, name, snapshot, 4) ==
            AdvanceStep(AdvanceStep(AdvanceStep(AdvanceStep(s, name, snapshot), name, snapshot), name, snapshot),
                        name, snapshot)
  {
    AloneAdds(s, name, snapshot, 2, 2);
  }

  lemma {:induction false} RecycledTwice(s: State, mid: State, t: State, queue: seq<UUID>)
    requires queue != [] && Recycled(s, mid, {queue[0]}) && Recycled(mid, t, set u | u in queue[1..])
    ensures Recycled(s, t, set u | u in queue)
  {
    assert queue == [queue[0]] + queue[1..];
    assert (set u | u in queue) == {queue[0]} + (set u | u in queue[1..]);
  }

  lemma {:induction false} RecycleNone(s: State)
    requires Inv(s)
    ensures Recycled(s, s, set u | u in [])
  {
    assert (set u: UUID | u in []) == {};
  }

  lemma {:induction false} RecycleAll(s: State, name: string, snapshot: seq<UUID>) returns (k: nat)
    requires Inv(s) && At(s, name).Recycling?
    ensures var t := Alone(s, name, snapshot, k);
            Recycled(s, t, set u | u in At(s, name).queue) && At(t, name) == Recycling([], At(s, name).keep)
    decreases |At(s, name).queue|
  {
    var queue := At(s, name).queue;
    if queue == [] {
      k := 0;
      RecycleNone(s);
    } else {
      var j := RecycleOne(s, name, snapshot);
      var mid := Alone(s, name, snapshot, j);
      var rest := RecycleAll(mid, name, snapshot);
      k := j + rest;
      AloneAdds(s, name, snapshot, j, rest);
      RecycledTwice(s, mid, Alone(mid, name, snapshot, rest), queue);
    }
  }

  lemma {:induction false} KillGuarded(s: State, name: string, snapshot: seq<UUID>) returns (k: nat)
    requires Inv(s) && At(s, name).Guarding?
    ensures var t := Alone(s, name, snapshot, k);
            && Inv(t) && At(t, name) == GuardKilled(At(s, name).latest) && t.mutex == s.mutex && t.next == s.next
            && t.hub.registered == s.hub.registered - {At(s, name).latest}
  {
    var s1 := AdvanceStep(s, name, snapshot);
    AdvanceKeeps(s, name, snapshot);
    if s1.reconciles[name].GuardFound? {
      var s2 := AdvanceStep(s1, name, snapshot);
      AdvanceKeeps(s1, name, snapshot);
      AdvanceKeeps(s2, name, snapshot);
      k := 3;
      AloneAdds(s, name, snapshot, 1, 2);
      AloneAdds(s1, name, snapshot, 1, 1);
    } else {
      k := 1;
    }
  }

  /** Guarding a UUID replaces whatever was registered under it by the new daemon, which does not run yet. */
  lemma {:induction false} GuardAlone(s: State, name: string, snapshot: seq<UUID>) returns (k: nat)
    requires Inv(s) && At(s, name).Guarding?
    ensures var t := Alone(s, name, snapshot, k);
            && Inv(t) && At(t, name).Idle? && t.mutex == s.mutex
            && t.hub.registered == s.hub.registered[At(s, name).latest := s.next]
            && s.next !in t.hub.running && t.registrar[At(s, name).latest] == name
  {
    var j := KillGuarded(s, name, snapshot);
    var killed := Alone(s, name, snapshot, j);
    AdvanceKeeps(killed, name, snapshot);
    assert killed.next !in killed.hub.running;
    k := j + 1;
    AloneAdds(s, name, snapshot, j, 1);
  }

  /** A reconcile of a cluster that is going away, when nothing interferes, ends with none of the cluster's UUIDs locked
      and none of its daemons registered, and with everything of other clusters as it was. */
  lemma {:induction false} GoneAlone(s: State, name: string, snapshot: seq<UUID>) returns (k: nat)
    requires Inv(s) && At(s, name).Fetched? && (At(s, name).gone || At(s, name).status == "")
    requires Lists(snapshot, s.mutex, name)
    ensures var t := Alone(s, name, snapshot, k);
            At(t, name).Idle? && Recycled(s, t, Owned(s.mutex, name))
  {
    var s1 := AdvanceStep(s, name, snapshot);
    AdvanceKeeps(s, name, snapshot);
    var j := RecycleAll(s1, name, snapshot);
    var s2 := Alone(s1, name, snapshot, j);
    AdvanceKeeps(s2, name, snapshot);
    AloneAdds(s1, name, snapshot, j, 1);
    assert Alone(s2, name, snapshot, 1) == AdvanceStep(s2, name, snapshot);
    k := 1 + (j + 1);
    AloneAdds(s, name, snapshot, 1, j + 1);
    assert (set u | u in snapshot) == Owned(s.mutex, name);
  }

  /** A reconcile of a live cluster whose status is the latest UUID, when nothing interferes, ends with that UUID as the
      only one the cluster holds and with a new daemon, not yet running, registered under it. */
  lemma {:induction false} LiveAlone(s: State, name: string, snapshot: seq<UUID>) returns (k: nat)
    requires Inv(s) && At(s, name).Fetched? && !At(s, name).gone && At(s, name).status != ""
    requires name in s.mutex.latest && s.mutex.latest[name] == At(s, name).status && Lists(snapshot, s.mutex, name)
    ensures var t := Alone(s, name, snapshot, k); var u := At(s, name).status;
            && Inv(t) && At(t, name).Idle?
            && t.mutex.owner == s.mutex.owner - (Owned(s.mutex, name) - {u})
            && t.hub.registered == (s.hub.registered - Owned(s.mutex, name))[u := s.next]
            && s.next !in t.hub.running && t.registrar[u] == name
  {
    var u := At(s, name).status;
    var s2 := StartAlone(s, name, snapshot);
    var g := DrainAlone(s2, name, snapshot);
    k := 2 + g;
    AloneAdds(s, name, snapshot, 2, g);
    OrphansOf(s.mutex, name, snapshot, u);
    RegisteredAfter(s.hub.registered, Owned(s.mutex, name), u, s.next);
  }

  /** The first two calls of a live reconcile line up every other UUID of the cluster. */
  lemma {:induction false} StartAlone(s: State, name: string, snapshot: seq<UUID>) returns (t: State)
    requires Inv(s) && At(s, name).Fetched? && !At(s, name).gone && At(s, name).status != ""
    requires name in s.mutex.latest && s.mutex.latest[name] == At(s, name).status && Lists(snapshot, s.mutex, name)
    ensures t == Alone(s, name, snapshot, 2) && Inv(t)
    ensures t == Goto(s, name, Recycling(Without(snapshot, At(s, name).status), Some(At(s, name).status)))
  {
    var s1 := AdvanceStep(s, name, snapshot);
    AdvanceKeeps(s, name, snapshot);
    t := AdvanceStep(s1, name, snapshot);
    AdvanceKeeps(s1, name, snapshot);
    AloneAdds(s, name, snapshot, 1, 1);
    assert s.reconciles[name := Matched(At(s, name).status)][name := At(t, name)] == s.reconciles[name := At(t, name)];
  }

  lemma {:induction false} DrainAlone(s: State, name: string, snapshot: seq<UUID>) returns (k: nat)
    requires Inv(s) && At(s, name).Recycling? && At(s, name).keep.Some?
    ensures var t := Alone(s, name, snapshot, k);
            var u := At(s, name).keep.value;
            var gone := set v | v in At(s, name).queue;
            && Inv(t) && At(t, name).Idle? && t.mutex.owner == s.mutex.owner - gone
            && t.hub.registered == (s.hub.registered - gone)[u := s.next]
            && s.next !in t.hub.running && t.registrar[u] == name
  {
    var j := RecycleAll(s, name, snapshot);
    var g := FinishAlone(Alone(s, name, snapshot, j), name, snapshot);
    k := j + g;
    AloneAdds(s, name, snapshot, j, g);
  }

  lemma {:induction false} FinishAlone(s: State, name: string, snapshot: seq<UUID>) returns (k: nat)
    requires Inv(s) && At(s, name).Recycling? && At(s, name).queue == [] && At(s, name).keep.Some?
    ensures var t := Alone(s, name, snapshot, k); var u := At(s, name).keep.value;
            && Inv(t) && At(t, name).Idle? && t.mutex == s.mutex
            && t.hub.registered == s.hub.registered[u := s.next]
            && s.next !in t.hub.running && t.registrar[u] == name
  {
    var s1 := AdvanceStep(s, name, snapshot);
    AdvanceKeeps(s, name, snapshot);
    var g := GuardAlone(s1, name, snapshot);
    k := 1 + g;
  }

  lemma {:induction false} OrphansOf(m: Mutex, name: string, us: seq<UUID>, keep: UUID)
    requires Lists(us, m, name)
    ensures (set u | u in Without(us, keep)) == Owned(m, name) - {keep}
  {
    WithoutMeans(us, keep);
  }

  lemma {:induction false} RegisteredAfter(m: map<UUID, DaemonRef>, gone: set<UUID>, u: UUID, d: DaemonRef)
    ensures (m - (gone - {u}))[u := d] == (m - gone)[u := d]
  {}

  /** What the next call of the reconcile asks for is refused: the status is out of date, the daemon at hand is no
      longer registered or runs again. */
  ghost predicate Refused(s: State, name: string)
  {
    match At(s, name)
    case Fetched(gone, status) => !gone && status != "" && !UUIDMutexes.IsLatest(s.mutex, name, status)
    case OrphanFound(queue, _) => queue != [] && queue[0] !in s.hub.registered
    case OrphanStopped(queue, _) => queue != [] && RunsAgain(s.hub, queue[0])
    case GuardFound(u) => u !in s.hub.registered
    case GuardStopped(u) => RunsAgain(s.hub, u)
    case _ => false
  }

  ghost predicate RunsAgain(h: Hub<DaemonRef>, u: UUID)
  {
    u in h.registered && h.registered[u] in h.running
  }

  /** A refused call ends the reconcile and changes nothing else: no lock, no daemon, no registration. */
  lemma {:induction false} RefusedEnds(s: State, name: string, snapshot: seq<UUID>)
    requires Inv(s) && Refused(s, name)
    ensures AdvanceStep(s, name, snapshot) == s.(reconciles := s.reconciles[name := Idle])
  {
    assert Listed(s.registrar, s.hub) == s.registrar;
  }

  /** A reconcile ends by a refused call, after its last orphan, by registering the new daemon, or by an abort. */
  lemma {:induction false} EndsIff(s: State, name: string, snapshot: seq<UUID>)
    requires Inv(s) && Enabled(s, Advance(name, snapshot)) && !At(s, name).Idle?
    ensures At(AdvanceStep(s, name, snapshot), name).Idle? <==>
            Refused(s, name) || At(s, name).GuardKilled? || At(s, name) == Recycling([], None)
  {
    assert ReconcileInv(s, name, At(s, name));
  }

  /** Locks and status checks leave every reconcile where it stands; a fetch, a call or an abort moves its own only. */
  lemma {:induction false} OthersStand(s: State, e: Event, name: string)
    requires (e.Fetch? || e.Advance? || e.Abort?) ==> e.name != name
    ensures At(Step(s, e), name) == At(s, name)
  {}

  /** A fetch begins a reconcile where none is going on, an abort ends it, and neither touches locks or daemons. */
  lemma {:induction false} FetchAndAbort(s: State, name: string, gone: bool, status: UUID)
    ensures At(Step(s, Abort(name)), name).Idle? && Step(s, Abort(name)).(reconciles := s.reconciles) == s
    ensures var t := Step(s, Fetch(name, gone, status));
            && t.(reconciles := s.reconciles) == s
            && (At(s, name).Idle? ==> At(t, name) == Fetched(gone, status)) && (!At(s, name).Idle? ==> t == s)
  {}

  /** The checker, between looking a daemon up and acting on it, changes nothing but its own place, and it will run or
      stop the daemon it looked up exactly if that daemon's state contradicts what it found. */
  lemma {:induction false} CheckerDecides(s: State, id: UUID, ready: bool)
    requires s.checker.Waiting?
    ensures var t := Step(s, Check(id));
            && t.(checker := s.checker) == s
            && t.checker == if id in s.hub.registered then Got(id, s.hub.registered[id]) else Waiting
    ensures forall d :: var t := Step(s.(checker := Got(id, d)), Decide(ready));
                        && t.(checker := s.checker) == s
                        && (t.checker == WillRun(id) <==> ready && d !in s.hub.running)
                        && (t.checker == WillStop(id) <==> !ready && d in s.hub.running)
                        && (t.checker == Waiting <==> (ready <==> d in s.hub.running))
  {}

  /** One status check, when nothing interferes: the registered daemon runs afterwards exactly when the cluster was
      found ready, and no other daemon changes. */
  lemma {:induction false} CheckAlone(s: State, id: UUID, ready: bool)
    requires Inv(s) && s.checker.Waiting? && id in s.hub.registered
    ensures var t := Run(s, [Check(id), Decide(ready), Act]); var d := s.hub.registered[id];
            && t.checker.Waiting? && t.hub.registered == s.hub.registered
            && t.hub.running == if ready then s.hub.running + {d} else s.hub.running - {d}
  {
    var s1 := Step(s, Check(id));
    var s2 := Step(s1, Decide(ready));
    RunThree(s, Check(id), Decide(ready), Act);
  }
}
