/** The interleaving of RemoteCluster reconciles, UUID locks and status checks
    (pkg/controllers/multicluster/remotecluster_controller.go, remoteclusteruuid_controller.go and
    remoteclusterstatus_checker.go).

    Each lock-protected call of the mutex or the hub is one atomic step.  Reconciles of one cluster are serial;
    reconciles of different clusters, lock calls and the checker interleave freely. */
module Multicluster {
  import opened Wrappers
  import opened UUIDMutexes
  import opened DaemonHubs

  /** Daemon objects are numbered in the order of their construction. */
  type DaemonRef = nat

  /** Where the reconcile of one cluster stands.  `queue` holds the orphan UUIDs still to be recycled, the one at hand
      first; `keep` is the latest UUID, absent when the cluster is going away. */
  datatype Reconcile =
    | Idle
    | Fetched(gone: bool, status: UUID)
    | Matched(latest: UUID)
    | Recycling(queue: seq<UUID>, keep: Option<UUID>)
    | OrphanFound(queue: seq<UUID>, keep: Option<UUID>)
    | OrphanStopped(queue: seq<UUID>, keep: Option<UUID>)
    | OrphanKilled(queue: seq<UUID>, keep: Option<UUID>)
    | Guarding(latest: UUID)
    | GuardFound(latest: UUID)
    | GuardStopped(latest: UUID)
    | GuardKilled(latest: UUID)

  /** Where the status checker stands. */
  datatype Checker =
    | Waiting
    | Got(id: UUID, daemon: DaemonRef)
    | WillRun(id: UUID)
    | WillStop(id: UUID)

  datatype State = State(mutex: Mutex, hub: Hub<DaemonRef>, registrar: map<UUID, string>,
                         reconciles: map<string, Reconcile>, checker: Checker, next: DaemonRef)

  function At(s: State, name: string): Reconcile
  {
    if name in s.reconciles then s.reconciles[name] else Idle
  }

  function Goto(s: State, name: string, pc: Reconcile): State
  {
    s.(reconciles := s.reconciles[name := pc])
  }

  /** What happens next. */
  datatype Event =
    | LockUUID(name: string, uuid: UUID)
    | Fetch(name: string, gone: bool, status: UUID)
    | Advance(name: string, snapshot: seq<UUID>)
    | Abort(name: string)
    | Check(id: UUID)
    | Decide(ready: bool)
    | Act

  // ---- Steps ----

  /** `us` lists the UUIDs of the cluster, each once: what GetUUIDs may return. */
  ghost predicate Lists(us: seq<UUID>, m: Mutex, name: string)
  {
    && (forall i, j :: 0 <= i < j < |us| ==> us[i] != us[j])
    && (forall u :: u in us <==> u in m.owner && m.owner[u] == name)
  }

  function Without(us: seq<UUID>, keep: UUID): seq<UUID>
  {
    if us == [] then []
    else (if us[0] == keep then [] else [us[0]]) + Without(us[1..], keep)
  }

  /** One call of the reconcile of `name`. */
  function AdvanceStep(s: State, name: string, snapshot: seq<UUID>): State
  {
    match At(s, name)
    case Idle => s
    case Fetched(gone, status) =>
      if gone || |status| == 0 then Goto(s, name, Recycling(snapshot, None))
      else if name in s.mutex.latest && s.mutex.latest[name] == status then Goto(s, name, Matched(status))
      else Goto(s, name, Idle)
    case Matched(latest) => Goto(s, name, Recycling(Without(snapshot, latest), Some(latest)))
    case Recycling(queue, keep) =>
      if queue == [] then Goto(s, name, if keep.Some? then Guarding(keep.value) else Idle)
      else Goto(s, name, if queue[0] in s.hub.registered then OrphanFound(queue, keep) else OrphanKilled(queue, keep))
    case OrphanFound(queue, keep) =>
      if queue == [] then s
      else
        var (hub, ok) := Stop(s.hub, queue[0]);
        Goto(s.(hub := hub), name, if ok then OrphanStopped(queue, keep) else Idle)
    case OrphanStopped(queue, keep) =>
      if queue == [] then s
      else
        var (hub, ok) := Unregister(s.hub, queue[0]);
        Goto(s.(hub := hub, registrar := Listed(s.registrar, hub)), name,
             if ok then OrphanKilled(queue, keep) else Idle)
    case OrphanKilled(queue, keep) =>
      if queue == [] then s
      else Goto(s.(mutex := Unlock(s.mutex, queue[0]).0), name, Recycling(queue[1..], keep))
    case Guarding(latest) =>
      Goto(s, name, if latest in s.hub.registered then GuardFound(latest) else GuardKilled(latest))
    case GuardFound(latest) =>
      var (hub, ok) := Stop(s.hub, latest);
      Goto(s.(hub := hub), name, if ok then GuardStopped(latest) else Idle)
    case GuardStopped(latest) =>
      var (hub, ok) := Unregister(s.hub, latest);
      Goto(s.(hub := hub, registrar := Listed(s.registrar, hub)), name, if ok then GuardKilled(latest) else Idle)
    case GuardKilled(latest) =>
      var (hub, ok) := Register(s.hub, latest, s.next, false);
      Goto(s.(hub := hub, registrar := if ok then s.registrar[latest := name] else s.registrar, next := s.next + 1),
           name, Idle)
  }

  /** The registrar of every ID that is still registered. */
  function Listed(registrar: map<UUID, string>, hub: Hub<DaemonRef>): map<UUID, string>
  {
    map u | u in registrar && u in hub.registered :: registrar[u]
  }

  function DecideStep(s: State, ready: bool): State
  {
    if !s.checker.Got? then s
    else
      var running := s.checker.daemon in s.hub.running;
      s.(checker := if ready && !running then WillRun(s.checker.id)
                    else if !ready && running then WillStop(s.checker.id)
                    else Waiting)
  }

  function ActStep(s: State): State
  {
    match s.checker
    case WillRun(id) => s.(hub := Start(s.hub, id).0, checker := Waiting)
    case WillStop(id) => s.(hub := Stop(s.hub, id).0, checker := Waiting)
    case _ => s
  }

  function Step(s: State, e: Event): State
  {
    match e
    case LockUUID(name, uuid) => s.(mutex := Lock(s.mutex, uuid, name).0)
    case Fetch(name, gone, status) => if At(s, name).Idle? then Goto(s, name, Fetched(gone, status)) else s
    case Advance(name, snapshot) => AdvanceStep(s, name, snapshot)
    case Abort(name) => Goto(s, name, Idle)
    case Check(id) =>
      if s.checker.Waiting? && id in s.hub.registered then s.(checker := Got(id, s.hub.registered[id])) else s
    case Decide(ready) => DecideStep(s, ready)
    case Act => ActStep(s)
  }

  /** A snapshot, where one is taken, is what the mutex answers at that moment. */
  ghost predicate Enabled(s: State, e: Event)
  {
    e.Advance? && (At(s, e.name).Fetched? || At(s, e.name).Matched?) ==> Lists(e.snapshot, s.mutex, e.name)
  }

  // ---- The invariant ----

  ghost predicate OwnedBy(m: Mutex, u: UUID, name: string)
  {
    u in m.owner && m.owner[u] == name
  }

  /** What the reconcile of `name` may rely on between its calls. */
  ghost predicate ReconcileInv(s: State, name: string, pc: Reconcile)
  {
    match pc
    case Idle => true
    case Fetched(_, _) => true
    case Matched(u) => OwnedBy(s.mutex, u, name)
    case Recycling(queue, keep) => QueueInv(s.mutex, name, queue, keep)
    case OrphanFound(queue, keep) => queue != [] && QueueInv(s.mutex, name, queue, keep)
    case OrphanStopped(queue, keep) => queue != [] && QueueInv(s.mutex, name, queue, keep)
    case OrphanKilled(queue, keep) =>
      queue != [] && QueueInv(s.mutex, name, queue, keep) && queue[0] !in s.hub.registered
    case Guarding(u) => OwnedBy(s.mutex, u, name)
    case GuardFound(u) => OwnedBy(s.mutex, u, name)
    case GuardStopped(u) => OwnedBy(s.mutex, u, name)
    case GuardKilled(u) => OwnedBy(s.mutex, u, name) && u !in s.hub.registered
  }

  ghost predicate QueueInv(m: Mutex, name: string, queue: seq<UUID>, keep: Option<UUID>)
  {
    && (forall i, j :: 0 <= i < j < |queue| ==> queue[i] != queue[j])
    && (forall i :: 0 <= i < |queue| ==> OwnedBy(m, queue[i], name))
    && (keep.Some? ==> OwnedBy(m, keep.value, name) && keep.value !in queue)
  }

  /** The part of the invariant that is not about who stands where. */
  ghost predicate CoreInv(s: State)
  {
    && MutexInv(s.mutex)
    && HubInv(s.hub)
    && (forall u :: u in s.hub.registered ==> s.hub.registered[u] < s.next)
    && s.registrar.Keys == s.hub.registered.Keys
    && (forall u :: u in s.hub.registered ==> OwnedBy(s.mutex, u, s.registrar[u]))
  }

  ghost predicate NotRunning(h: Hub<DaemonRef>, id: UUID)
  {
    id in h.registered ==> h.registered[id] !in h.running
  }

  /** Only the checker runs daemons: what it is about to run does not run already, even if the daemon was replaced
      meanwhile. */
  ghost predicate CheckerInv(s: State)
  {
    match s.checker
    case Got(id, d) => (id in s.hub.registered && s.hub.registered[id] == d) || NotRunning(s.hub, id)
    case WillRun(id) => NotRunning(s.hub, id)
    case _ => true
  }

  ghost predicate Inv(s: State)
  {
    CoreInv(s) && CheckerInv(s) && forall n :: n in s.reconciles ==> ReconcileInv(s, n, s.reconciles[n])
  }

  ghost predicate Init(s: State)
  {
    && MutexInv(s.mutex) && s.hub == Hub(map[], {}) && s.registrar == map[] && s.reconciles == map[]
    && s.checker == Waiting
  }

  // ---- Every step keeps the invariant ----

  /** What a call made for `name` does to everyone else: no UUID of another cluster is unlocked, and only UUIDs of
      `name` become registered. */
  ghost predicate Frame(s: State, s': State, name: string)
  {
    && (forall u, n :: n != name && OwnedBy(s.mutex, u, n) ==> OwnedBy(s'.mutex, u, n))
    && (forall u :: u in s'.hub.registered && u !in s.hub.registered ==> OwnedBy(s.mutex, u, name))
  }

  /** Hub changes that start nothing: every registered daemon was registered under the same ID or does not run. */
  ghost predicate StartsNothing(s: State, s': State)
  {
    && s'.hub.running <= s.hub.running && s'.checker == s.checker
    && forall u :: u in s'.hub.registered && !NotRunning(s'.hub, u) ==>
                     u in s.hub.registered && s.hub.registered[u] == s'.hub.registered[u]
  }

  lemma {:induction false} CheckerKeeps(s: State, s': State)
    requires CheckerInv(s) && StartsNothing(s, s')
    ensures CheckerInv(s')
  {}

  lemma {:induction false} OthersKeep(s: State, s': State, name: string, n: string, pc: Reconcile)
    requires ReconcileInv(s, n, pc) && n != name && Frame(s, s', name)
    ensures ReconcileInv(s', n, pc)
  {}

  lemma {:induction false} CombineInv(s: State, s': State, name: string, pc: Reconcile)
    requires Inv(s) && Frame(s, s', name) && CoreInv(s') && StartsNothing(s, s')
    requires s'.reconciles == s.reconciles[name := pc] && ReconcileInv(s', name, pc)
    ensures Inv(s')
  {
    CheckerKeeps(s, s');
    forall n | n in s'.reconciles ensures ReconcileInv(s', n, s'.reconciles[n]) {
      if n != name {
        OthersKeep(s, s', name, n, s.reconciles[n]);
      }
    }
  }

  lemma {:induction false} HubKeeps(h: Hub<DaemonRef>, id: UUID, next: DaemonRef)
    requires HubInv(h) && forall u :: u in h.registered ==> h.registered[u] < next
    ensures HubInv(Register(h, id, next, false).0) && HubInv(Unregister(h, id).0)
    ensures HubInv(Start(h, id).0) && HubInv(Stop(h, id).0)
    ensures next !in h.running
  {
    RunningStayRegistered(h, id, next, false);
    SecondIDIff(h, id, next, false);
  }

  /** Filtering keeps the order and drops exactly `keep`. */
  lemma {:induction false} WithoutMeans(us: seq<UUID>, keep: UUID)
    requires forall i, j :: 0 <= i < j < |us| ==> us[i] != us[j]
    ensures forall u :: u in Without(us, keep) <==> u in us && u != keep
    ensures forall i, j :: 0 <= i < j < |Without(us, keep)| ==> Without(us, keep)[i] != Without(us, keep)[j]
  {
    if us != [] {
      WithoutMeans(us[1..], keep);
      assert us == [us[0]] + us[1..];
      assert us[0] !in us[1..];
    }
  }

  lemma {:induction false} SnapshotQueue(m: Mutex, name: string, us: seq<UUID>, keep: Option<UUID>)
    requires Lists(us, m, name) && (keep.Some? ==> OwnedBy(m, keep.value, name))
    ensures QueueInv(m, name, if keep.Some? then Without(us, keep.value) else us, keep)
  {
    if keep.Some? {
      WithoutMeans(us, keep.value);
    }
  }

  lemma {:induction false} StopKeeps(s: State, name: string, u: UUID, pc: Reconcile, pc': Reconcile)
    requires Inv(s) && At(s, name) == pc && pc' != pc
    requires (pc.OrphanFound? && pc.queue != [] && u == pc.queue[0] && pc' == OrphanStopped(pc.queue, pc.keep))
          || (pc.GuardFound? && u == pc.latest && pc' == GuardStopped(u)) || pc'.Idle?
    ensures Inv(Goto(s.(hub := Stop(s.hub, u).0), name, pc'))
  {
    HubKeeps(s.hub, u, s.next);
    CombineInv(s, Goto(s.(hub := Stop(s.hub, u).0), name, pc'), name, pc');
  }

  lemma {:induction false} UnregisterKeeps(s: State, name: string, u: UUID, pc': Reconcile)
    requires Inv(s)
    requires var s' := s.(hub := Unregister(s.hub, u).0, registrar := Listed(s.registrar, Unregister(s.hub, u).0));
             ReconcileInv(s', name, pc')
    ensures var s' := s.(hub := Unregister(s.hub, u).0, registrar := Listed(s.registrar, Unregister(s.hub, u).0));
            Inv(Goto(s', name, pc'))
  {
    HubKeeps(s.hub, u, s.next);
    var s' := s.(hub := Unregister(s.hub, u).0, registrar := Listed(s.registrar, Unregister(s.hub, u).0));
    CombineInv(s, Goto(s', name, pc'), name, pc');
  }

  lemma {:induction false} UnlockKeeps(s: State, name: string, queue: seq<UUID>, keep: Option<UUID>)
    requires Inv(s) && queue != [] && QueueInv(s.mutex, name, queue, keep) && queue[0] !in s.hub.registered
    ensures Inv(Goto(s.(mutex := Unlock(s.mutex, queue[0]).0), name, Recycling(queue[1..], keep)))
  {
    UnlockSpec(s.mutex, queue[0]);
    var s' := Goto(s.(mutex := Unlock(s.mutex, queue[0]).0), name, Recycling(queue[1..], keep));
    forall i | 0 <= i < |queue[1..]| ensures OwnedBy(s'.mutex, queue[1..][i], name) {
      assert queue[1..][i] == queue[i + 1] && OwnedBy(s.mutex, queue[i + 1], name);
    }
    CombineInv(s, s', name, Recycling(queue[1..], keep));
  }

  lemma {:induction false} RegisterKeeps(s: State, name: string, u: UUID)
    requires Inv(s) && OwnedBy(s.mutex, u, name) && u !in s.hub.registered
    ensures Inv(Registered(s, name, u))
  {
    HubKeeps(s.hub, u, s.next);
    CombineInv(s, Registered(s, name, u), name, Idle);
  }

  function Registered(s: State, name: string, u: UUID): State
  {
    Goto(s.(hub := Register(s.hub, u, s.next, false).0, registrar := s.registrar[u := name], next := s.next + 1),
         name, Idle)
  }

  lemma {:induction false} JumpKeeps(s: State, name: string, pc': Reconcile)
    requires Inv(s) && ReconcileInv(s, name, pc')
    ensures Inv(Goto(s, name, pc'))
  {
    CombineInv(s, Goto(s, name, pc'), name, pc');
  }

  lemma {:induction false} AdvanceKeeps(s: State, name: string, snapshot: seq<UUID>)
    requires Inv(s) && Enabled(s, Advance(name, snapshot))
    ensures Inv(AdvanceStep(s, name, snapshot))
  {
    var pc := At(s, name);
    assert ReconcileInv(s, name, pc);
    match pc
    case Idle =>
    case Fetched(gone, status) =>
      if gone || |status| == 0 {
        SnapshotQueue(s.mutex, name, snapshot, None);
        JumpKeeps(s, name, Recycling(snapshot, None));
      }
      else if name in s.mutex.latest && s.mutex.latest[name] == status { JumpKeeps(s, name, Matched(status)); }
      else { JumpKeeps(s, name, Idle); }
    case Matched(latest) =>
      SnapshotQueue(s.mutex, name, snapshot, Some(latest));
      JumpKeeps(s, name, Recycling(Without(snapshot, latest), Some(latest)));
    case Recycling(queue, keep) =>
      if queue == [] { JumpKeeps(s, name, if keep.Some? then Guarding(keep.value) else Idle); }
      else {
        JumpKeeps(s, name,
                  if queue[0] in s.hub.registered then OrphanFound(queue, keep) else OrphanKilled(queue, keep));
      }
    case OrphanFound(queue, keep) =>
      StopKeeps(s, name, queue[0], pc, if Stop(s.hub, queue[0]).1 then OrphanStopped(queue, keep) else Idle);
    case OrphanStopped(queue, keep) =>
      UnregisterKeeps(s, name, queue[0], if Unregister(s.hub, queue[0]).1 then OrphanKilled(queue, keep) else Idle);
    case OrphanKilled(queue, keep) => UnlockKeeps(s, name, queue, keep);
    case Guarding(latest) =>
      JumpKeeps(s, name, if latest in s.hub.registered then GuardFound(latest) else GuardKilled(latest));
    case GuardFound(latest) =>
      StopKeeps(s, name, latest, pc, if Stop(s.hub, latest).1 then GuardStopped(latest) else Idle);
    case GuardStopped(latest) =>
      UnregisterKeeps(s, name, latest, if Unregister(s.hub, latest).1 then GuardKilled(latest) else Idle);
    case GuardKilled(latest) => RegisterKeeps(s, name, latest);
  }

  lemma {:induction false} SameReconciles(s: State, s': State)
    requires Inv(s) && CoreInv(s') && CheckerInv(s') && s'.reconciles == s.reconciles
    requires forall u, n :: OwnedBy(s.mutex, u, n) ==> OwnedBy(s'.mutex, u, n)
    requires s'.hub.registered == s.hub.registered
    ensures Inv(s')
  {
    forall n | n in s'.reconciles ensures ReconcileInv(s', n, s'.reconciles[n]) {
      OthersKeep(s, s', n + "x", n, s.reconciles[n]);
    }
  }

  lemma {:induction false} LockKeeps(s: State, name: string, uuid: UUID)
    requires Inv(s)
    ensures Inv(s.(mutex := Lock(s.mutex, uuid, name).0))
  {
    LockSpec(s.mutex, uuid, name);
    SameReconciles(s, s.(mutex := Lock(s.mutex, uuid, name).0));
  }

  lemma {:induction false} ActKeeps(s: State)
    requires Inv(s)
    ensures Inv(ActStep(s))
  {
    if s.checker.WillRun? || s.checker.WillStop? { HubKeeps(s.hub, s.checker.id, s.next); }
    SameReconciles(s, ActStep(s));
  }

  lemma {:induction false} StepKeepsInv(s: State, e: Event)
    requires Inv(s) && Enabled(s, e)
    ensures Inv(Step(s, e))
  {
    match e
    case LockUUID(name, uuid) => LockKeeps(s, name, uuid);
    case Fetch(name, gone, status) => if At(s, name).Idle? { JumpKeeps(s, name, Fetched(gone, status)); }
    case Advance(name, snapshot) => AdvanceKeeps(s, name, snapshot);
    case Abort(name) => JumpKeeps(s, name, Idle);
    case Check(id) => SameReconciles(s, Step(s, e));
    case Decide(ready) => SameReconciles(s, Step(s, e));
    case Act => ActKeeps(s);
  }

  // ---- Runs ----

  function Run(s: State, es: seq<Event>): State
    decreases es
  {
    if es == [] then s else Run(Step(s, es[0]), es[1..])
  }

  ghost predicate Possible(s: State, es: seq<Event>)
    decreases es
  {
    es == [] || (Enabled(s, es[0]) && Possible(Step(s, es[0]), es[1..]))
  }

  ghost predicate SameDaemon(h: Hub<DaemonRef>, u: UUID, v: UUID)
  {
    u in h.registered && v in h.registered && h.registered[u] == h.registered[v]
  }

  /** However reconciles, locks and checks interleave: every running daemon is registered, every registered ID is locked
      by the cluster whose reconcile registered it, no daemon is registered twice, every latest UUID is owned by its
      cluster, and the checker never runs a daemon that runs already. */
  lemma {:induction false} EveryRunIsSafe(s: State, es: seq<Event>)
    requires Inv(s) && Possible(s, es)
    ensures var t := Run(s, es);
            && Inv(t)
            && (forall d :: d in t.hub.running ==> exists u :: u in t.hub.registered && t.hub.registered[u] == d)
            && (forall u :: u in t.hub.registered ==> u in t.mutex.owner && t.mutex.owner[u] == t.registrar[u])
            && (forall u, v :: SameDaemon(t.hub, u, v) ==> u == v)
            && (forall n :: n in t.mutex.latest ==> t.mutex.latest[n] in t.mutex.owner
                                                    && t.mutex.owner[t.mutex.latest[n]] == n)
            && (t.checker.WillRun? && t.checker.id in t.hub.registered ==> Start(t.hub, t.checker.id).1)
    decreases es
  {
    if es != [] {
      StepKeepsInv(s, es[0]);
      EveryRunIsSafe(Step(s, es[0]), es[1..]);
    }
  }

  lemma {:induction false} InitHasInv(s: State)
    requires Init(s)
    ensures Inv(s)
  {}

  /** A step takes a lock away only in the recycling loop of the owner's own reconcile, after the UUID's daemon was
      stopped and unregistered. */
  lemma {:induction false} UnlockedByOwner(s: State, e: Event, u: UUID, owner: string)
    requires Inv(s) && Enabled(s, e) && OwnedBy(s.mutex, u, owner) && !OwnedBy(Step(s, e).mutex, u, owner)
    ensures e.Advance? && e.name == owner && At(s, owner).OrphanKilled? && At(s, owner).queue[..1] == [u]
    ensures u !in Step(s, e).mutex.owner && u !in Step(s, e).hub.registered
  {
    match e {
      case LockUUID(name, uuid) => LockSpec(s.mutex, uuid, name);
      case Advance(name, _) =>
        var pc := At(s, name);
        assert ReconcileInv(s, name, pc);
        if pc.OrphanKilled? { UnlockSpec(s.mutex, pc.queue[0]); }
      case _ =>
    }
  }

  /** `u` is handed over somewhere in the run: at that point no one owns it and nothing is registered under it. */
  ghost predicate FreedDuring(s: State, es: seq<Event>, u: UUID)
    decreases es
  {
    (u !in s.mutex.owner && u !in s.hub.registered) || (es != [] && FreedDuring(Step(s, es[0]), es[1..], u))
  }

  /** Two clusters never share a UUID: when its owner differs between two points of a run, it was free, with no daemon
      registered, in between. */
  lemma {:induction false} HandOver(s: State, es: seq<Event>, u: UUID, a: string, b: string)
    requires Inv(s) && Possible(s, es) && OwnedBy(s.mutex, u, a) && OwnedBy(Run(s, es).mutex, u, b) && a != b
    ensures FreedDuring(s, es, u)
    decreases es
  {
    if es != [] {
      StepKeepsInv(s, es[0]);
      if OwnedBy(Step(s, es[0]).mutex, u, a) {
        HandOver(Step(s, es[0]), es[1..], u, a, b);
      } else {
        UnlockedByOwner(s, es[0], u, a);
      }
    }
  }

  // ---- Runs from the start ----

  lemma {:induction false} RunSplit(s: State, es: seq<Event>, i: nat)
    requires i <= |es| && Possible(s, es)
    ensures Possible(s, es[..i]) && Possible(Run(s, es[..i]), es[i..]) && Run(Run(s, es[..i]), es[i..]) == Run(s, es)
    decreases i
  {
    if i > 0 {
      RunSplit(Step(s, es[0]), es[1..], i - 1);
      assert es[..i][0] == es[0] && es[..i][1..] == es[1..][..i - 1] && es[1..][i - 1..] == es[i..];
    } else {
      assert es[..0] == [] && es[0..] == es;
    }
  }

  /** From the start of the controllers, at any two points of any interleaving: the first state is safe, and a UUID that
      has another owner at the second was free, with no daemon registered under it, in between. */
  lemma {:induction false} SafeFromTheStart(s: State, es: seq<Event>, i: nat, j: nat, u: UUID, a: string, b: string)
    requires Init(s) && Possible(s, es) && i <= j <= |es|
    ensures Inv(Run(s, es[..i]))
    ensures OwnedBy(Run(s, es[..i]).mutex, u, a) && OwnedBy(Run(s, es[..j]).mutex, u, b) && a != b ==>
              FreedDuring(Run(s, es[..i]), es[i..j], u)
  {
    InitHasInv(s);
    RunSplit(s, es, j);
    RunSplit(s, es[..j], i);
    assert es[..j][..i] == es[..i] && es[..j][i..] == es[i..j];
    EveryRunIsSafe(s, es[..i]);
    if OwnedBy(Run(s, es[..i]).mutex, u, a) && OwnedBy(Run(s, es[..j]).mutex, u, b) && a != b {
      HandOver(Run(s, es[..i]), es[i..j], u, a, b);
    }
  }

  // ---- Short and joined runs ----

  lemma {:induction false} RunConcat(s: State, p: seq<Event>, q: seq<Event>)
    requires Possible(s, p) && Possible(Run(s, p), q)
    ensures Possible(s, p + q) && Run(s, p + q) == Run(Run(s, p), q)
    decreases p
  {
    if p == [] {
      assert p + q == q;
    } else {
      assert (p + q)[0] == p[0] && (p + q)[1..] == p[1..] + q;
      RunConcat(Step(s, p[0]), p[1..], q);
    }
  }

  lemma {:induction false} RunTwo(s: State, a: Event, b: Event)
    ensures Run(s, [a, b]) == Step(Step(s, a), b)
    ensures Possible(s, [a, b]) <==> Enabled(s, a) && Enabled(Step(s, a), b)
  {
    assert [a, b][1..] == [b] && [b][1..] == [];
    assert Run(Step(Step(s, a), b), []) == Step(Step(s, a), b);
    assert Run(Step(s, a), [b]) == Step(Step(s, a), b);
    assert Possible(Step(s, a), [b]) <==> Enabled(Step(s, a), b);
  }

  lemma {:induction false} RunThree(s: State, a: Event, b: Event, c: Event)
    ensures Run(s, [a, b, c]) == Step(Step(Step(s, a), b), c)
  {
    assert [a, b, c][1..] == [b, c] && [b, c][1..] == [c] && [c][1..] == [];
    assert Run(Step(Step(s, a), b), [c]) == Step(Step(Step(s, a), b), c);
    assert Run(Step(s, a), [b, c]) == Run(Step(Step(s, a), b), [c]);
  }

  lemma {:induction false} PossibleThree(s: State, a: Event, b: Event, c: Event)
    requires Enabled(s, a) && Enabled(Step(s, a), b) && Enabled(Step(Step(s, a), b), c)
    ensures Possible(s, [a, b, c])
  {
    assert [a, b, c][1..] == [b, c] && [b, c][1..] == [c] && [c][1..] == [];
    assert Possible(Step(Step(s, a), b), [c]);
    assert Possible(Step(s, a), [b, c]);
  }
}
