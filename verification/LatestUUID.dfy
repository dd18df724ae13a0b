/** What happens to the latest UUID of a cluster while its reconcile recycles orphans
    (pkg/controllers/multicluster/remotecluster_controller.go). */
module LatestUUIDs {
  import opened Wrappers
  import opened UUIDMutexes
  import opened DaemonHubs
  import opened Multicluster

  /** A step takes the latest UUID of a cluster away exactly when the cluster's own reconcile unlocks it as an
      orphan. */
  lemma {:induction false} LatestLostIff(s: State, e: Event, name: string)
    requires Inv(s) && Enabled(s, e) && name in s.mutex.latest
    ensures name !in Step(s, e).mutex.latest <==>
            && e.Advance? && e.name == name && At(s, name).OrphanKilled?
            && At(s, name).queue[..1] == [s.mutex.latest[name]]
  {
    match e {
      case LockUUID(n, uuid) => LockSpec(s.mutex, uuid, n);
      case Advance(n, _) =>
        var pc := At(s, n);
        assert ReconcileInv(s, n, pc);
        if pc.OrphanKilled? { UnlockSpec(s.mutex, pc.queue[0]); }
      case _ =>
    }
  }

  /** The reconcile runs for the UUID it found to be the latest, or has ended. */
  ghost predicate RunsFor(pc: Reconcile, k: UUID)
  {
    match pc
    case Idle => true
    case Fetched(_, _) => false
    case Matched(u) => u == k
    case Recycling(_, keep) => keep == Some(k)
    case OrphanFound(_, keep) => keep == Some(k)
    case OrphanStopped(_, keep) => keep == Some(k)
    case OrphanKilled(_, keep) => keep == Some(k)
    case Guarding(u) => u == k
    case GuardFound(u) => u == k
    case GuardStopped(u) => u == k
    case GuardKilled(u) => u == k
  }

  ghost predicate LatestHeld(s: State, name: string, k: UUID)
  {
    UUIDMutexes.IsLatest(s.mutex, name, k) && RunsFor(At(s, name), k)
  }

  /** No other UUID is locked for the cluster, and no further reconcile of it begins. */
  predicate Undisturbed(e: Event, name: string, k: UUID)
  {
    !(e.LockUUID? && e.name == name && e.uuid != k) && !(e.Fetch? && e.name == name)
  }

  lemma {:induction false} LatestHeldStep(s: State, e: Event, name: string, k: UUID)
    requires Inv(s) && Enabled(s, e) && LatestHeld(s, name, k) && Undisturbed(e, name, k)
    ensures LatestHeld(Step(s, e), name, k)
  {
    LatestKept(s, e, name, k);
    StillRunsFor(s, e, name, k);
  }

  lemma {:induction false} StillRunsFor(s: State, e: Event, name: string, k: UUID)
    requires RunsFor(At(s, name), k) && Undisturbed(e, name, k)
    ensures RunsFor(At(Step(s, e), name), k)
  {}

  lemma {:induction false} LatestKept(s: State, e: Event, name: string, k: UUID)
    requires Inv(s) && Enabled(s, e) && LatestHeld(s, name, k) && Undisturbed(e, name, k)
    ensures UUIDMutexes.IsLatest(Step(s, e).mutex, name, k)
  {
    match e {
      case LockUUID(n, uuid) => LockSpec(s.mutex, uuid, n);
      case Advance(n, _) =>
        var pc := At(s, n);
        assert ReconcileInv(s, n, pc);
        if pc.OrphanKilled? { UnlockSpec(s.mutex, pc.queue[0]); }
      case _ =>
    }
  }

  /** From the moment a reconcile finds its status to be the latest UUID until it ends, the cluster keeps that latest
      UUID, unless another UUID is locked for the cluster meanwhile. */
  lemma {:induction false} LatestSurvives(s: State, es: seq<Event>, name: string, k: UUID)
    requires Inv(s) && Possible(s, es) && LatestHeld(s, name, k)
    requires forall i :: 0 <= i < |es| ==> Undisturbed(es[i], name, k)
    ensures LatestHeld(Run(s, es), name, k)
    decreases es
  {
    if es != [] {
      StepKeepsInv(s, es[0]);
      LatestHeldStep(s, es[0], name, k);
      LatestSurvives(Step(s, es[0]), es[1..], name, k);
    }
  }

  // ---- The UUID a reconcile was fetched with ----

  /** The reconcile was fetched for a live cluster with this status, or has ended. */
  ghost predicate FetchedFor(pc: Reconcile, k: UUID)
  {
    pc == Fetched(false, k) || RunsFor(pc, k)
  }

  lemma {:induction false} StillFetchedFor(s: State, e: Event, name: string, k: UUID)
    requires FetchedFor(At(s, name), k) && k != "" && !(e.Fetch? && e.name == name)
    ensures FetchedFor(At(Step(s, e), name), k)
  {}

  lemma {:induction false} OwnStatusStep(s: State, e: Event, name: string, k: UUID)
    requires Inv(s) && Enabled(s, e) && FetchedFor(At(s, name), k) && OwnedBy(s.mutex, k, name)
    ensures OwnedBy(Step(s, e).mutex, k, name)
  {
    if !OwnedBy(Step(s, e).mutex, k, name) {
      UnlockedByOwner(s, e, k, name);
    }
  }

  /** A reconcile of a live cluster never unlocks the UUID it was fetched with: whoever else locks, unlocks or aborts
      meanwhile, the cluster keeps that UUID until the next reconcile of the cluster begins. */
  lemma {:induction false} OwnStatusKept(s: State, es: seq<Event>, name: string, k: UUID)
    requires Inv(s) && Possible(s, es) && FetchedFor(At(s, name), k) && k != "" && OwnedBy(s.mutex, k, name)
    requires forall i :: 0 <= i < |es| ==> !(es[i].Fetch? && es[i].name == name)
    ensures OwnedBy(Run(s, es).mutex, k, name) && FetchedFor(At(Run(s, es), name), k)
    decreases es
  {
    if es != [] {
      StepKeepsInv(s, es[0]);
      OwnStatusStep(s, es[0], name, k);
      StillFetchedFor(s, es[0], name, k);
      OwnStatusKept(Step(s, es[0]), es[1..], name, k);
    }
  }

  /** From the start of the controllers: the cluster holds its status UUID when a live reconcile fetches it, so it holds
      it at every later point before its next reconcile begins. */
  lemma {:induction false} StatusKeptFromTheStart(s: State, es: seq<Event>, i: nat, name: string, k: UUID)
    requires Init(s) && Possible(s, es) && i < |es| && es[i] == Fetch(name, false, k) && k != ""
    requires At(Run(s, es[..i]), name).Idle? && OwnedBy(Run(s, es[..i]).mutex, k, name)
    requires forall j :: i < j < |es| ==> !(es[j].Fetch? && es[j].name == name)
    ensures OwnedBy(Run(s, es).mutex, k, name)
  {
    InitHasInv(s);
    RunSplit(s, es, i);
    EveryRunIsSafe(s, es[..i]);
    var t := Run(s, es[..i]);
    assert es[i..][0] == es[i] && es[i..][1..] == es[i + 1..];
    StepKeepsInv(t, es[i]);
    OwnStatusKept(Step(t, es[i]), es[i + 1..], name, k);
  }

  /** From the start of the controllers: a cluster that goes back to an earlier UUID while its reconcile recycles that
      UUID ends with the other UUID locked and no latest one. */
  lemma {:induction false} LatestLost()
    ensures var s := State(Mutex(map[], map[]), Hub(map[], {}), map[], map[], Waiting, 0);
            var es := ToRecycling("c", "u1", "u2") + BackToEarlier("c", "u2");
            && Init(s) && Possible(s, es)
            && "c" !in Run(s, es).mutex.latest && OwnedBy(Run(s, es).mutex, "u1", "c")
            && "u2" !in Run(s, es).mutex.owner
  {
    var s := State(Mutex(map[], map[]), Hub(map[], {}), map[], map[], Waiting, 0);
    ReachesRecycling(s, "c", "u1", "u2");
    var t := Run(s, ToRecycling("c", "u1", "u2"));
    InitHasInv(s);
    EveryRunIsSafe(s, ToRecycling("c", "u1", "u2"));
    LatestLostFrom(t, "c", "u1", "u2");
    RunConcat(s, ToRecycling("c", "u1", "u2"), BackToEarlier("c", "u2"));
  }

  /** The cluster locks two UUIDs, and its reconcile finds the second one to be the latest and the first one an
      orphan. */
  function ToRecycling(name: string, latest: UUID, earlier: UUID): seq<Event>
  {
    [LockUUID(name, earlier), LockUUID(name, latest), Fetch(name, false, latest)]
    + [Advance(name, [latest, earlier]), Advance(name, [latest, earlier])]
  }

  /** The cluster locks the earlier UUID again, and its reconcile recycles it. */
  function BackToEarlier(name: string, earlier: UUID): seq<Event>
  {
    [LockUUID(name, earlier), Advance(name, []), Advance(name, [])]
  }

  lemma {:induction false} ReachesRecycling(s: State, name: string, latest: UUID, earlier: UUID)
    requires s == State(Mutex(map[], map[]), Hub(map[], {}), map[], map[], Waiting, 0)
    requires latest != "" && earlier != "" && latest != earlier
    ensures Possible(s, ToRecycling(name, latest, earlier))
    ensures var t := Run(s, ToRecycling(name, latest, earlier));
            At(t, name) == Recycling([earlier], Some(latest)) && earlier !in t.hub.registered
  {
    var first := [LockUUID(name, earlier), LockUUID(name, latest), Fetch(name, false, latest)];
    var us := [latest, earlier];
    var s3 := Step(Step(Step(s, first[0]), first[1]), first[2]);
    assert s3.mutex == Mutex(map[earlier := name, latest := name], map[name := latest]);
    assert At(s3, name) == Fetched(false, latest) && s3.hub == s.hub;
    RunThree(s, first[0], first[1], first[2]);
    PossibleThree(s, first[0], first[1], first[2]);
    TwoAdvances(s3, name, latest, earlier);
    RunConcat(s, first, [Advance(name, us), Advance(name, us)]);
  }

  lemma {:induction false} TwoAdvances(s: State, name: string, latest: UUID, earlier: UUID)
    requires s.mutex == Mutex(map[earlier := name, latest := name], map[name := latest])
    requires At(s, name) == Fetched(false, latest) && latest != "" && latest != earlier
    ensures var es := [Advance(name, [latest, earlier]), Advance(name, [latest, earlier])];
            && Possible(s, es) && Run(s, es).hub == s.hub
            && At(Run(s, es), name) == Recycling([earlier], Some(latest))
  {
    var us := [latest, earlier];
    var e := Advance(name, us);
    assert Lists(us, s.mutex, name);
    var s1 := Step(s, e);
    assert s1 == Goto(s, name, Matched(latest));
    assert us[1..] == [earlier] && [earlier][1..] == [];
    assert Without([earlier], latest) == [earlier] && Without(us, latest) == [earlier];
    RunTwo(s, e, e);
  }

  lemma {:induction false} LatestLostFrom(s: State, name: string, u1: UUID, u2: UUID)
    requires Inv(s) && At(s, name) == Recycling([u2], Some(u1)) && u2 !in s.hub.registered
    ensures var es := BackToEarlier(name, u2);
            && Possible(s, es)
            && name !in Run(s, es).mutex.latest && OwnedBy(Run(s, es).mutex, u1, name) && u2 !in Run(s, es).mutex.owner
  {
    var e1, e2 := LockUUID(name, u2), Advance(name, []);
    assert ReconcileInv(s, name, At(s, name));
    assert OwnedBy(s.mutex, [u2][0], name) && u1 !in [u2];
    var s1 := Step(s, e1);
    LockSpec(s.mutex, u2, name);
    LockKeeps(s, name, u2);
    assert s1.mutex.latest[name] == u2;
    var s2 := Step(s1, e2);
    assert At(s2, name) == OrphanKilled([u2], Some(u1)) && s2.mutex == s1.mutex;
    UnlockSpec(s2.mutex, u2);
    RunThree(s, e1, e2, e2);
    PossibleThree(s, e1, e2, e2);
  }
}
