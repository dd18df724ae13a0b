/** The registry of manager-runtime daemons (pkg/managerruntime/daemonhub.go).  A daemon is a running flag. */
module DaemonHubs {
  import opened Wrappers
  import opened UUIDMutexes

  /** Which daemon is registered under an ID, and which daemons run. */
  datatype Hub<D> = Hub(registered: map<UUID, D>, running: set<D>)

  /** Every running daemon is registered. */
  ghost predicate RunningRegistered<D>(h: Hub<D>)
  {
    forall d :: d in h.running ==> d in h.registered.Values
  }

  /** No daemon is registered under two IDs. */
  ghost predicate RegisteredOnce<D>(h: Hub<D>)
  {
    forall a, b :: a in h.registered && b in h.registered && h.registered[a] == h.registered[b] ==> a == b
  }

  ghost predicate HubInv<D>(h: Hub<D>)
  {
    RunningRegistered(h) && RegisteredOnce(h)
  }

  /** Whatever state the daemon is in, a taken ID is refused. */
  function Register<D>(h: Hub<D>, id: UUID, d: D, runs: bool): (Hub<D>, bool)
  {
    if id in h.registered then (h, false)
    else (Hub(h.registered[id := d], h.running + if runs then {d} else {}), true)
  }

  /** A running daemon cannot be unregistered; an unknown one need not be. */
  function Unregister<D(==)>(h: Hub<D>, id: UUID): (Hub<D>, bool)
  {
    if id !in h.registered then (h, true)
    else if h.registered[id] in h.running then (h, false)
    else (h.(registered := h.registered - {id}), true)
  }

  function Start<D(==)>(h: Hub<D>, id: UUID): (Hub<D>, bool)
  {
    if id !in h.registered || h.registered[id] in h.running then (h, false)
    else (h.(running := h.running + {h.registered[id]}), true)
  }

  function Stop<D(==)>(h: Hub<D>, id: UUID): (Hub<D>, bool)
  {
    if id !in h.registered then (h, false) else (h.(running := h.running - {h.registered[id]}), true)
  }

  /** Register fails exactly on a taken ID, Unregister exactly on a running daemon, Run exactly without a stopped one,
      Stop exactly on an unknown ID; a failed call changes nothing. */
  lemma {:induction false} FailedCalls<D>(h: Hub<D>, id: UUID, d: D, runs: bool)
    ensures var (h', ok) := Register(h, id, d, runs); (ok <==> id !in h.registered) && (!ok ==> h' == h)
    ensures var (h', ok) := Unregister(h, id);
            (ok <==> !(id in h.registered && h.registered[id] in h.running)) && (!ok ==> h' == h)
    ensures var (h', ok) := Start(h, id);
            (ok <==> id in h.registered && h.registered[id] !in h.running) && (!ok ==> h' == h)
    ensures var (h', ok) := Stop(h, id); (ok <==> id in h.registered) && (!ok ==> h' == h)
  {}

  /** Registering and unregistering a daemon that does not run, and running and stopping it, undo each other. */
  lemma {:induction false} CallsUndo<D>(h: Hub<D>, id: UUID, d: D)
    ensures id !in h.registered && d !in h.running ==> Unregister(Register(h, id, d, false).0, id) == (h, true)
    ensures Start(h, id).1 ==> Stop(Start(h, id).0, id) == (h, true)
    ensures Register(h, id, d, true).1 ==> Stop(Register(h, id, d, true).0, id).0.running == h.running - {d}
  {
    if id !in h.registered {
      assert h.registered[id := d] - {id} == h.registered;
      assert Register(h, id, d, false).0 == Hub(h.registered[id := d], h.running);
    }
    if Start(h, id).1 { assert h.running + {h.registered[id]} - {h.registered[id]} == h.running; }
  }

  /** No hub call leaves a running daemon unregistered, whatever daemon is registered under whatever IDs. */
  lemma {:induction false} RunningStayRegistered<D>(h: Hub<D>, id: UUID, d: D, runs: bool)
    requires RunningRegistered(h)
    ensures RunningRegistered(Register(h, id, d, runs).0) && RunningRegistered(Unregister(h, id).0)
    ensures RunningRegistered(Start(h, id).0) && RunningRegistered(Stop(h, id).0)
  {
    var h1 := Register(h, id, d, runs).0;
    forall e | e in h1.running ensures e in h1.registered.Values {
      if e in h.running {
        var a :| a in h.registered && h.registered[a] == e;
        assert a in h1.registered && h1.registered[a] == e;
      } else {
        assert h1.registered[id] == e;
      }
    }
    var h2 := Unregister(h, id).0;
    forall e | e in h2.running ensures e in h2.registered.Values {
      var a :| a in h.registered && h.registered[a] == e;
      assert a in h2.registered && h2.registered[a] == e;
    }
    var h3 := Start(h, id).0;
    forall e | e in h3.running ensures e in h3.registered.Values {
      if e in h.running { var a :| a in h.registered && h.registered[a] == e; assert h3.registered[a] == e; }
      else { assert h3.registered[id] == e; }
    }
  }

  /** Only Register can give a daemon a second ID, and does so exactly when a registered daemon is registered under a
      free ID. */
  lemma {:induction false} SecondIDIff<D>(h: Hub<D>, id: UUID, d: D, runs: bool)
    requires RegisteredOnce(h)
    ensures RegisteredOnce(Unregister(h, id).0) && RegisteredOnce(Start(h, id).0) && RegisteredOnce(Stop(h, id).0)
    ensures RegisteredOnce(Register(h, id, d, runs).0) <==> id in h.registered || d !in h.registered.Values
  {
    var h1 := Register(h, id, d, runs).0;
    if id !in h.registered && d in h.registered.Values {
      var a :| a in h.registered && h.registered[a] == d;
      assert h1.registered[a] == h1.registered[id] && a != id;
    }
  }

  lemma {:induction false} ValuesAdd<D>(m: map<UUID, D>, id: UUID, d: D)
    requires id !in m
    ensures m[id := d].Values == m.Values + {d}
  {
    var m' := m[id := d];
    assert m'[id] == d;
    forall e | e in m.Values ensures e in m'.Values {
      var a :| a in m && m[a] == e;
      assert a in m' && m'[a] == e;
    }
  }

  class Daemon {
    var running: bool

    constructor ()
      ensures !running
    {
      running := false;
    }
  }

  class DaemonHub {
    var hub: map<UUID, Daemon>

    ghost function State(): Hub<Daemon>
      reads this, hub.Values
    {
      Hub(hub, set d | d in hub.Values && d.running)
    }

    constructor ()
      ensures State() == Hub(map[], {})
    {
      hub := map[];
    }

    method RegisterDaemon(id: UUID, daemon: Daemon) returns (ok: bool)
      modifies this
      ensures (State(), ok) == Register(old(State()), id, daemon, old(daemon.running))
    {
      if id in hub {
        return false;
      }
      ghost var before := State();
      ValuesAdd(hub, id, daemon);
      hub := hub[id := daemon];
      assert State().running == before.running + if daemon.running then {daemon} else {};
      return true;
    }

    predicate IsRegistered(id: UUID)
      reads this
      ensures IsRegistered(id) <==> id in hub
    {
      id in hub
    }

    method UnregisterDaemon(id: UUID) returns (ok: bool)
      modifies this
      ensures (State(), ok) == Unregister(old(State()), id)
    {
      if id !in hub {
        return true;
      }
      if hub[id].running {
        return false;
      }
      ghost var before := State();
      ghost var was := hub;
      hub := hub - {id};
      forall d | d in before.running ensures d in State().running {
        var a :| a in was && was[a] == d;
        assert a in hub && hub[a] == d;
      }
      assert State().running == before.running;
      return true;
    }

    method RunDaemon(id: UUID) returns (ok: bool)
      modifies hub.Values
      ensures (State(), ok) == Start(old(State()), id)
    {
      if id !in hub || hub[id].running {
        return false;
      }
      ghost var before := State();
      hub[id].running := true;
      assert State().running == before.running + {hub[id]};
      return true;
    }

    method StopDaemon(id: UUID) returns (ok: bool)
      modifies hub.Values
      ensures (State(), ok) == Stop(old(State()), id)
    {
      if id !in hub {
        return false;
      }
      ghost var before := State();
      hub[id].running := false;
      assert State().running == before.running - {hub[id]};
      return true;
    }

    /** `killDaemon`: afterwards the ID is not registered, if no one else runs the daemon in between. */
    method KillDaemon(id: UUID) returns (ok: bool)
      modifies this, hub.Values
      ensures ok && id !in hub && hub == old(hub) - {id}
      ensures State().running == old(State().running) - (if id in old(hub) then {old(hub)[id]} else {})
    {
      if !IsRegistered(id) {
        return true;
      }
      var stopped := StopDaemon(id);
      ok := UnregisterDaemon(id);
    }
  }
}
