/** Allocator calls as runs of subnet operations, so that what holds over every run holds over every sequence of
    calls. */
module CallRuns {
  import opened Wrappers
  import opened SubnetModel
  import opened NetworkModel
  import opened Ownership
  import opened AllocatorModel

  /** One call of an allocator. */
  datatype Call =
    | AllocateCall(name: string, podName: string, podNamespace: string)
    | FamilyCall(names: seq<string>, v6: bool, podName: string, podNamespace: string)
    | PairCall(names: seq<string>, podName: string, podNamespace: string)
    | AssignCall(q: Request)
    | ReleaseCall(name: string, a: Addr)

  ghost function Do(s: NetState, c: Call): NetState
    requires NetInv(s)
  {
    match c
    case AllocateCall(name, p, ns) => Allocated(s, name, p, ns).0
    case FamilyCall(names, v6, p, ns) => AllocatedFamily(s, names, v6, p, ns).0
    case PairCall(names, p, ns) => AllocatedPair(s, names, p, ns).0
    case AssignCall(q) => AssignRequest(s, q).0
    case ReleaseCall(name, a) => Released(s, name, a).0
  }

  lemma {:induction false} DoKeepsInv(s: NetState, c: Call)
    requires NetInv(s)
    ensures NetInv(Do(s, c))
  {
    match c
    case AllocateCall(name, p, ns) => AllocatedSpec(s, name, p, ns);
    case FamilyCall(names, v6, p, ns) => AllocatedFamilySpec(s, names, v6, p, ns);
    case PairCall(names, p, ns) => AllocatedPairSpec(s, names, p, ns);
    case AssignCall(q) => AssignRequestKeepsInv(s, q);
    case ReleaseCall(name, a) => ReleasedSpec(s, name, a);
  }

  // ---- Every call is a run ----

  ghost predicate OpsOn(subs: seq<State>, ops: seq<NetOp>)
  {
    forall i :: 0 <= i < |ops| ==> ops[i].k < |subs|
  }

  /** The call may release address `a` of subnet `k`. */
  predicate MayRelease(s: NetState, c: Call, k: nat, a: Addr)
    requires k < |s.subnets|
  {
    c.ReleaseCall? && c.a == a && (c.name == "" || c.name == s.subnets[k].spec.name)
  }

  /** The operations release nothing but what the call may release, or an address that was not held before. */
  ghost predicate ReleasesOnly(s: NetState, c: Call, ops: seq<NetOp>)
  {
    forall k: nat, a :: k < |s.subnets| && On(k, ReleaseOf(a)) in ops ==>
                          MayRelease(s, c, k, a) || a !in s.subnets[k].used
  }

  ghost predicate RunsAs(s: NetState, s': NetState, ops: seq<NetOp>)
  {
    AllInv(s.subnets) && OpsOn(s.subnets, ops) && s'.subnets == NetRun(s.subnets, ops)
  }

  lemma {:induction false} RunNone(s: NetState, s': NetState)
    requires NetInv(s) && s'.subnets == s.subnets
    ensures RunsAs(s, s', [])
  {}

  lemma {:induction false} RunOne(s: NetState, s': NetState, k: nat, op: Op)
    requires NetInv(s) && k < |s.subnets| && s'.subnets == s.subnets[k := Step(s.subnets[k], op)]
    ensures RunsAs(s, s', [On(k, op)])
  {
    StepKeepsInv(s.subnets[k], op);
    assert [On(k, op)][1..] == [];
  }

  /** One more operation after a run. */
  lemma {:induction false} RunMore(subs: seq<State>, ops: seq<NetOp>, k: nat, op: Op)
    requires AllInv(subs) && OpsOn(subs, ops) && k < |subs|
    ensures var t := NetRun(subs, ops);
            OpsOn(subs, ops + [On(k, op)]) && NetRun(subs, ops + [On(k, op)]) == t[k := Step(t[k], op)]
    decreases |ops|
  {
    var all := ops + [On(k, op)];
    if ops == [] {
      StepKeepsInv(subs[k], op);
      assert all == [On(k, op)] && all[1..] == [];
    } else {
      StepKeepsInv(subs[ops[0].k], ops[0].op);
      assert all[0] == ops[0] && all[1..] == ops[1..] + [On(k, op)];
      RunMore(subs[ops[0].k := Step(subs[ops[0].k], ops[0].op)], ops[1..], k, op);
    }
  }

  lemma {:induction false} ServedRuns(s: NetState, s1: NetState, k: Option<nat>, podName: string, podNamespace: string)
    returns (ops: seq<NetOp>)
    requires NetInv(s) && s1.subnets == s.subnets && (k.Some? ==> k.value < |s.subnets|)
    requires k.Some? ==> CursorOk(s1.subnets[k.value])
    ensures RunsAs(s, Served(s1, k, podName, podNamespace).0, ops)
    ensures forall j, a :: On(j, ReleaseOf(a)) !in ops
  {
    if k.None? {
      RunNone(s, s1);
      return [];
    }
    RunOne(s, Served(s1, k, podName, podNamespace).0, k.value, Allocate(podName, podNamespace));
    return [On(k.value, Allocate(podName, podNamespace))];
  }

  /** Two allocations, and the release of the first one's address when the second one fails. */
  lemma {:induction false} PairRuns(s: NetState, s1: NetState, i: nat, j: nat, podName: string, podNamespace: string)
    returns (ops: seq<NetOp>)
    requires NetInv(s) && s1.subnets == s.subnets && PairOf(s, i, j)
    requires CursorOk(s1.subnets[i]) && CursorOk(s1.subnets[j])
    ensures RunsAs(s, PairStep(s1, i, j, podName, podNamespace).0, ops)
    ensures forall k: nat, a :: k < |s.subnets| && On(k, ReleaseOf(a)) in ops ==> a !in s.subnets[k].used
  {
    var op := Allocate(podName, podNamespace);
    var (st4, v4) := AllocateNext(s.subnets[i], podName, podNamespace);
    if v4.None? {
      RunOne(s, With(s1, i, st4), i, op);
      return [On(i, op)];
    }
    var v6 := AllocateNext(s.subnets[j], podName, podNamespace).1;
    if v6.Some? {
      RunTwo(s.subnets, i, j, op);
      return [On(i, op), On(j, op)];
    }
    AllocateNextSpec(s.subnets[i], podName, podNamespace);
    RunUndo(s.subnets, i, j, op, v4.value.address);
    return [On(i, op), On(j, op), On(i, ReleaseOf(v4.value.address))];
  }

  /** The same operation on two subnets. */
  lemma {:induction false} RunTwo(subs: seq<State>, i: nat, j: nat, op: Op)
    requires AllInv(subs) && i < |subs| && j < |subs| && i != j
    ensures OpsOn(subs, [On(i, op), On(j, op)])
    ensures NetRun(subs, [On(i, op), On(j, op)]) == subs[i := Step(subs[i], op)][j := Step(subs[j], op)]
  {
    RunMore(subs, [], i, op);
    RunMore(subs, [On(i, op)], j, op);
    assert [] + [On(i, op)] == [On(i, op)] && [On(i, op)] + [On(j, op)] == [On(i, op), On(j, op)];
  }

  lemma {:induction false} RunUndo(subs: seq<State>, i: nat, j: nat, op: Op, a: Addr)
    requires AllInv(subs) && i < |subs| && j < |subs| && i != j
    ensures OpsOn(subs, [On(i, op), On(j, op), On(i, ReleaseOf(a))])
    ensures NetRun(subs, [On(i, op), On(j, op), On(i, ReleaseOf(a))]) ==
            subs[i := Step(subs[i], op)][j := Step(subs[j], op)][i := Release(Step(subs[i], op), a)]
  {
    RunTwo(subs, i, j, op);
    RunMore(subs, [On(i, op), On(j, op)], i, ReleaseOf(a));
    assert [On(i, op), On(j, op)] + [On(i, ReleaseOf(a))] == [On(i, op), On(j, op), On(i, ReleaseOf(a))];
  }

  /** Every allocator call changes the subnets by a run of subnet operations, which releases nothing but the address the
      call asks to release, or one that was not held before. */
  lemma {:induction false} CallIsRun(s: NetState, c: Call) returns (ops: seq<NetOp>)
    requires NetInv(s)
    ensures RunsAs(s, Do(s, c), ops) && ReleasesOnly(s, c, ops)
  {
    match c
    case AllocateCall(name, p, ns) =>
      NextAvailableSpec(s);
      var (s1, k) := Selected(s, name);
      ops := ServedRuns(s, s1, k, p, ns);
    case FamilyCall(names, v6, p, ns) =>
      ops := FamilyRuns(s, names, v6, p, ns);
    case PairCall(names, p, ns) =>
      ops := PairCallRuns(s, names, p, ns);
    case AssignCall(q) =>
      ops := AssignRuns(s, q);
    case ReleaseCall(name, a) =>
      ops := ReleaseRuns(s, name, a);
  }

  lemma {:induction false} FamilyRuns(s: NetState, names: seq<string>, v6: bool, podName: string, podNamespace: string)
    returns (ops: seq<NetOp>)
    requires NetInv(s)
    ensures RunsAs(s, AllocatedFamily(s, names, v6, podName, podNamespace).0, ops)
    ensures forall j, a :: On(j, ReleaseOf(a)) !in ops
  {
    if |names| > 1 {
      RunNone(s, s);
      return [];
    }
    SelectedFamilyKeeps(s, NameOf(names, 0), v6);
    var (s1, k) := SelectedFamily(s, NameOf(names, 0), v6);
    ops := ServedRuns(s, s1, k, podName, podNamespace);
  }

  lemma {:induction false} PairCallRuns(s: NetState, names: seq<string>, podName: string, podNamespace: string)
    returns (ops: seq<NetOp>)
    requires NetInv(s)
    ensures RunsAs(s, AllocatedPair(s, names, podName, podNamespace).0, ops)
    ensures forall k: nat, a :: k < |s.subnets| && On(k, ReleaseOf(a)) in ops ==> a !in s.subnets[k].used
  {
    if |names| != 0 && |names| != 2 {
      RunNone(s, s);
      return [];
    }
    SelectedPairKeeps(s, NameOf(names, 0), NameOf(names, 1));
    var (s1, p) := SelectedPair(s, NameOf(names, 0), NameOf(names, 1));
    if p.None? {
      RunNone(s, s1);
      return [];
    }
    ops := PairRuns(s, s1, p.value.0, p.value.1, podName, podNamespace);
  }

  lemma {:induction false} AssignRuns(s: NetState, q: Request) returns (ops: seq<NetOp>)
    requires NetInv(s)
    ensures RunsAs(s, AssignRequest(s, q).0, ops)
    ensures forall j, a :: On(j, ReleaseOf(a)) !in ops
  {
    FindTargetSpec(s, q, 0);
    var k := FindTarget(s, q, 0);
    if k.None? {
      RunNone(s, s);
      return [];
    }
    var op := AssignTo(q.podName, q.podNamespace, q.ip, q.forced);
    RunOne(s, AssignRequest(s, q).0, k.value, op);
    return [On(k.value, op)];
  }

  lemma {:induction false} ReleaseRuns(s: NetState, name: string, a: Addr) returns (ops: seq<NetOp>)
    requires NetInv(s)
    ensures RunsAs(s, Released(s, name, a).0, ops) && ReleasesOnly(s, ReleaseCall(name, a), ops)
  {
    NextAvailableSpec(s);
    var (s1, k) := Selected(s, name);
    if k.None? {
      RunNone(s, s1);
      return [];
    }
    RunOne(s, Released(s, name, a).0, k.value, ReleaseOf(a));
    return [On(k.value, ReleaseOf(a))];
  }

  // ---- Sequences of calls ----

  ghost function DoAll(s: NetState, cs: seq<Call>): (s': NetState)
    requires NetInv(s)
    ensures NetInv(s')
    decreases |cs|
  {
    if cs == [] then s
    else
      DoKeepsInv(s, cs[0]);
      DoAll(Do(s, cs[0]), cs[1..])
  }

  /** A call changes neither the number of subnets nor their specifications. */
  lemma {:induction false} DoKeepsSpecs(s: NetState, c: Call)
    requires NetInv(s)
    ensures |Do(s, c).subnets| == |s.subnets|
    ensures forall k :: 0 <= k < |s.subnets| ==> Do(s, c).subnets[k].spec == s.subnets[k].spec
  {
    var ops := CallIsRun(s, c);
  }

  /** An address in use by a pod keeps that holder over any sequence of allocator calls, forced assignments and failed
      dual-stack allocations included, until a call releases that address in its subnet or in an unnamed one. */
  lemma {:induction false} HolderUntilReleaseCall(s: NetState, cs: seq<Call>, k: nat, a: Addr, holder: IP)
    requires NetInv(s) && k < |s.subnets| && HeldInUse(s.subnets[k], a, holder)
    requires forall i :: 0 <= i < |cs| ==> !MayRelease(s, cs[i], k, a)
    ensures k < |DoAll(s, cs).subnets| && HeldInUse(DoAll(s, cs).subnets[k], a, holder)
    decreases |cs|
  {
    if cs != [] {
      DoKeepsInv(s, cs[0]);
      DoKeepsSpecs(s, cs[0]);
      var ops := CallIsRun(s, cs[0]);
      assert On(k, ReleaseOf(a)) !in ops;
      HolderUntilRelease(s.subnets, ops, k, a, holder);
      HolderUntilReleaseCall(Do(s, cs[0]), cs[1..], k, a, holder);
    }
  }

  /** In a network of non-overlapping subnets no sequence of allocator calls ever holds an address in two subnets. */
  lemma {:induction false} NeverHeldTwiceByCalls(s: NetState, cs: seq<Call>, i: nat, j: nat, a: Addr)
    requires NetInv(s) && NonOverlapping(s.subnets) && i < j < |s.subnets|
    ensures j < |DoAll(s, cs).subnets|
    ensures !(a in DoAll(s, cs).subnets[i].used && a in DoAll(s, cs).subnets[j].used)
    decreases |cs|
  {
    if cs == [] {
      NeverHeldTwice(s.subnets, [], i, j, a);
    } else {
      DoKeepsInv(s, cs[0]);
      DoKeepsSpecs(s, cs[0]);
      NeverHeldTwiceByCalls(Do(s, cs[0]), cs[1..], i, j, a);
    }
  }
}
