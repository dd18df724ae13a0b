/** How many allocations a network can still serve, and what its usage report says about it. */
module Capacity {
  import opened Wrappers
  import opened SubnetModel
  import opened NetworkModel

  // ---- Room per net ID and family ----

  /** What one subnet contributes; a private subnet only serves allocations that name it. */
  function RoomOf(st: State, withPrivate: bool): nat
  {
    if FreeCount(st) <= 0 || (st.spec.private && !withPrivate) then 0 else FreeCount(st)
  }

  function Room(subs: seq<State>, id: nat, v6: bool, withPrivate: bool): nat
  {
    if subs == [] then 0
    else
      var st := subs[|subs| - 1];
      Room(subs[..|subs| - 1], id, v6, withPrivate) +
      if NetID(st) == id && st.spec.ipv6 == v6 then RoomOf(st, withPrivate) else 0
  }

  lemma {:induction false} RoomUpdate(subs: seq<State>, i: nat, st: State, id: nat, v6: bool, withPrivate: bool)
    requires i < |subs| && NetID(st) == NetID(subs[i]) && st.spec.ipv6 == subs[i].spec.ipv6
    ensures Room(subs[i := st], id, v6, withPrivate) + (if Hit(st, id, v6) then RoomOf(subs[i], withPrivate) else 0) ==
            Room(subs, id, v6, withPrivate) + (if Hit(st, id, v6) then RoomOf(st, withPrivate) else 0)
  {
    var init := subs[..|subs| - 1];
    if i == |subs| - 1 {
      assert subs[i := st][..|subs| - 1] == init;
    } else {
      assert subs[i := st][..|subs| - 1] == init[i := st];
      RoomUpdate(init, i, st, id, v6, withPrivate);
    }
  }

  predicate Hit(st: State, id: nat, v6: bool)
  {
    NetID(st) == id && st.spec.ipv6 == v6
  }

  lemma {:induction false} RoomPositive(subs: seq<State>, id: nat, v6: bool)
    ensures Room(subs, id, v6, false) > 0 <==> exists k :: 0 <= k < |subs| && Fits(subs[k], id, v6)
  {
    if subs != [] {
      var init := subs[..|subs| - 1];
      RoomPositive(init, id, v6);
      if k :| 0 <= k < |subs| && Fits(subs[k], id, v6) && k < |subs| - 1 { assert init[k] == subs[k]; }
      if k :| 0 <= k < |init| && Fits(init[k], id, v6) { assert subs[k] == init[k]; }
      if Room(subs, id, v6, false) > 0 && Room(init, id, v6, false) == 0 { assert Fits(subs[|subs| - 1], id, v6); }
    }
  }

  // ---- Sums over net IDs ----

  /** Pairs that one net ID can still serve. */
  function Pairs(subs: seq<State>, id: nat, withPrivate: bool): nat
  {
    var v4, v6 := Room(subs, id, false, withPrivate), Room(subs, id, true, withPrivate);
    if v4 < v6 then v4 else v6
  }

  ghost function SumPairs(subs: seq<State>, ids: set<nat>, withPrivate: bool): nat
  {
    if ids == {} then 0
    else
      var id :| id in ids;
      Pairs(subs, id, withPrivate) + SumPairs(subs, ids - {id}, withPrivate)
  }

  lemma {:induction false} SumPairsRemove(subs: seq<State>, ids: set<nat>, withPrivate: bool, id: nat)
    requires id in ids
    ensures SumPairs(subs, ids, withPrivate) == Pairs(subs, id, withPrivate) + SumPairs(subs, ids - {id}, withPrivate)
    decreases ids
  {
    var y :| y in ids
        && SumPairs(subs, ids, withPrivate) == Pairs(subs, y, withPrivate) + SumPairs(subs, ids - {y}, withPrivate);
    if y != id {
      SumPairsRemove(subs, ids - {y}, withPrivate, id);
      SumPairsRemove(subs, ids - {id}, withPrivate, y);
      assert ids - {y} - {id} == ids - {id} - {y};
    }
  }

  lemma {:induction false} SumPairsSame(subs: seq<State>, subs': seq<State>, ids: set<nat>, withPrivate: bool)
    requires forall id :: id in ids ==> Pairs(subs, id, withPrivate) == Pairs(subs', id, withPrivate)
    ensures SumPairs(subs, ids, withPrivate) == SumPairs(subs', ids, withPrivate)
    decreases ids
  {
    if ids != {} {
      var id :| id in ids;
      SumPairsRemove(subs, ids, withPrivate, id);
      SumPairsRemove(subs', ids, withPrivate, id);
      SumPairsSame(subs, subs', ids - {id}, withPrivate);
    }
  }

  lemma {:induction false} SumPairsPositive(subs: seq<State>, ids: set<nat>, withPrivate: bool)
    ensures SumPairs(subs, ids, withPrivate) > 0 <==> exists id :: id in ids && Pairs(subs, id, withPrivate) > 0
    decreases ids
  {
    if ids != {} {
      var id :| id in ids;
      SumPairsRemove(subs, ids, withPrivate, id);
      SumPairsPositive(subs, ids - {id}, withPrivate);
    }
  }

  function NetIDs(subs: seq<State>): set<nat>
  {
    set i | 0 <= i < |subs| :: NetID(subs[i])
  }

  /** The dual-stack allocations the network can serve without naming subnets. */
  ghost function DualCapacity(s: NetState): nat
  {
    SumPairs(s.subnets, NetIDs(s.subnets), false)
  }

  // ---- Allocation steps ----

  /** Subnet `i` serves one allocation. */
  ghost predicate Serves(subs: seq<State>, subs': seq<State>, i: nat, podName: string, podNamespace: string)
  {
    && i < |subs| && Inv(subs[i]) && IsAvailable(subs[i])
    && subs' == subs[i := AllocateNext(subs[i], podName, podNamespace).0]
  }

  /** One successful unnamed dual-stack allocation: an IPv4 and an IPv6 subnet of one net ID each serve one address. */
  ghost predicate DualStepAt(s: NetState, s': NetState, i: nat, j: nat, podName: string, podNamespace: string)
  {
    && i < |s.subnets| && j < |s.subnets| && s'.index < |s.subnets|
    && Inv(s.subnets[i]) && Inv(s.subnets[j])
    && IsAvailable(s.subnets[i]) && !s.subnets[i].spec.ipv6
    && IsAvailable(s.subnets[j]) && s.subnets[j].spec.ipv6
    && NetID(s.subnets[i]) == NetID(s.subnets[j])
    && s'.subnets == s.subnets[i := AllocateNext(s.subnets[i], podName, podNamespace).0]
                              [j := AllocateNext(s.subnets[j], podName, podNamespace).0]
  }

  ghost predicate DualStep(s: NetState, s': NetState)
  {
    exists i: nat, j: nat, p, ns :: DualStepAt(s, s', i, j, p, ns)
  }

  /** Some net ID has room in both families. */
  ghost predicate CanPair(s: NetState)
  {
    exists i, j :: 0 <= i < |s.subnets| && 0 <= j < |s.subnets| && Pairable(s, i, j)
  }

  predicate Pairable(s: NetState, i: nat, j: nat)
    requires i < |s.subnets| && j < |s.subnets|
  {
    Fits(s.subnets[i], NetID(s.subnets[i]), false) && Fits(s.subnets[j], NetID(s.subnets[i]), true)
  }

  lemma {:induction false} ServedSubnet(st: State, podName: string, podNamespace: string)
    requires Inv(st) && IsAvailable(st)
    ensures var st' := AllocateNext(st, podName, podNamespace).0;
            && Inv(st') && st'.spec == st.spec
            && RoomOf(st', false) == RoomOf(st, false) - 1
            && RoomOf(st', true) == RoomOf(st, true) - 1
  {
    AllocateNextSpec(st, podName, podNamespace);
    Accounting(st);
    Accounting(AllocateNext(st, podName, podNamespace).0);
  }

  lemma {:induction false} NetInvUpdate(s: NetState, i: nat, st: State, index: nat)
    requires NetInv(s) && i < |s.subnets| && index < |s.subnets|
    requires Inv(st) && st.spec == s.subnets[i].spec
    ensures NetInv(NetState(s.subnets[i := st], index))
  {}

  lemma {:induction false} DualStepKeepsInv(s: NetState, s': NetState, i: nat, j: nat, podName: string,
                                            podNamespace: string)
    requires NetInv(s) && DualStepAt(s, s', i, j, podName, podNamespace)
    ensures NetInv(s')
  {
    ServedSubnet(s.subnets[i], podName, podNamespace);
    ServedSubnet(s.subnets[j], podName, podNamespace);
    var st, st' := AllocateNext(s.subnets[i], podName, podNamespace).0,
        AllocateNext(s.subnets[j], podName, podNamespace).0;
    NetInvUpdate(s, i, st, s.index);
    NetInvUpdate(NetState(s.subnets[i := st], s.index), j, st', s'.index);
  }

  /** `st` replaces subnet `i` and has one address less to give. */
  ghost predicate OneLess(subs: seq<State>, i: nat, st: State)
  {
    i < |subs| && st.spec == subs[i].spec && RoomOf(subs[i], false) == RoomOf(st, false) + 1
  }

  lemma {:induction false} RoomOneLess(subs: seq<State>, i: nat, st: State, id: nat, v6: bool)
    requires OneLess(subs, i, st)
    ensures Room(subs, id, v6, false) == Room(subs[i := st], id, v6, false) + if Hit(st, id, v6) then 1 else 0
  {
    RoomUpdate(subs, i, st, id, v6, false);
  }

  lemma {:induction false} NetIDsUpdate(subs: seq<State>, i: nat, st: State)
    requires i < |subs| && st.spec == subs[i].spec
    ensures NetIDs(subs[i := st]) == NetIDs(subs)
  {
    var subs' := subs[i := st];
    forall k | 0 <= k < |subs| ensures NetID(subs'[k]) == NetID(subs[k]) {}
  }

  /** Serving one address from each of two subnets of a net ID uses up exactly one pair. */
  lemma {:induction false} OnePairLess(subs: seq<State>, i: nat, st: State, j: nat, st': State)
    requires OneLess(subs, i, st) && OneLess(subs, j, st') && i != j
    requires !st.spec.ipv6 && st'.spec.ipv6 && NetID(st) == NetID(st')
    ensures var subs' := subs[i := st][j := st'];
            SumPairs(subs', NetIDs(subs'), false) == SumPairs(subs, NetIDs(subs), false) - 1
  {
    var mid := subs[i := st];
    var subs' := mid[j := st'];
    var d, ids := NetID(st), NetIDs(subs);
    NetIDsUpdate(subs, i, st);
    NetIDsUpdate(mid, j, st');
    forall id ensures Pairs(subs, id, false) == Pairs(subs', id, false) + if id == d then 1 else 0 {
      RoomOneLess(subs, i, st, id, false);
      RoomOneLess(subs, i, st, id, true);
      RoomOneLess(mid, j, st', id, false);
      RoomOneLess(mid, j, st', id, true);
    }
    assert NetID(subs[i]) in ids;
    SumPairsRemove(subs, ids, false, d);
    SumPairsRemove(subs', ids, false, d);
    SumPairsSame(subs, subs', ids - {d}, false);
  }

  lemma {:induction false} DualStepAtUsesOnePair(s: NetState, s': NetState, i: nat, j: nat, podName: string,
                                                 podNamespace: string)
    requires NetInv(s) && DualStepAt(s, s', i, j, podName, podNamespace)
    ensures DualCapacity(s') == DualCapacity(s) - 1
  {
    ServedSubnet(s.subnets[i], podName, podNamespace);
    ServedSubnet(s.subnets[j], podName, podNamespace);
    OnePairLess(s.subnets, i, AllocateNext(s.subnets[i], podName, podNamespace).0,
                j, AllocateNext(s.subnets[j], podName, podNamespace).0);
  }

  /** A dual-stack allocation uses up exactly one pair. */
  lemma {:induction false} DualStepUsesOnePair(s: NetState, s': NetState)
    requires NetInv(s) && DualStep(s, s')
    ensures NetInv(s') && DualCapacity(s') == DualCapacity(s) - 1
  {
    var i: nat, j: nat, p, ns :| DualStepAt(s, s', i, j, p, ns);
    DualStepKeepsInv(s, s', i, j, p, ns);
    DualStepAtUsesOnePair(s, s', i, j, p, ns);
  }

  /** There is a pair left exactly when two available subnets can be paired. */
  lemma {:induction false} CapacityMeansPair(s: NetState)
    ensures DualCapacity(s) > 0 <==> CanPair(s)
  {
    var subs := s.subnets;
    SumPairsPositive(subs, NetIDs(subs), false);
    if CanPair(s) {
      var i, j :| 0 <= i < |subs| && 0 <= j < |subs| && Pairable(s, i, j);
      RoomPositive(subs, NetID(subs[i]), false);
      RoomPositive(subs, NetID(subs[i]), true);
      assert NetID(subs[i]) in NetIDs(subs);
    }
    if id :| id in NetIDs(subs) && Pairs(subs, id, false) > 0 {
      RoomPositive(subs, id, false);
      RoomPositive(subs, id, true);
      var i :| 0 <= i < |subs| && Fits(subs[i], id, false);
      var j :| 0 <= j < |subs| && Fits(subs[j], id, true);
      assert Pairable(s, i, j);
    }
  }

  // ---- Allocations of one address ----

  /** Whether the subnet is of the family; without a family every subnet is. */
  predicate Belongs(st: State, family: Option<bool>)
  {
    family.None? || st.spec.ipv6 == family.value
  }

  /** The addresses all subnets of the family can still serve. */
  function Total(subs: seq<State>, family: Option<bool>, withPrivate: bool): nat
  {
    if subs == [] then 0
    else
      var st := subs[|subs| - 1];
      Total(subs[..|subs| - 1], family, withPrivate) + if Belongs(st, family) then RoomOf(st, withPrivate) else 0
  }

  /** The allocations of one address the network can serve without naming a subnet. */
  ghost function SingleCapacity(s: NetState, family: Option<bool>): nat
  {
    Total(s.subnets, family, false)
  }

  /** One successful unnamed allocation of one address, from whichever available subnet of the family. */
  ghost predicate SingleStepAt(s: NetState, s': NetState, family: Option<bool>, i: nat, podName: string,
                               podNamespace: string)
  {
    Serves(s.subnets, s'.subnets, i, podName, podNamespace) && Belongs(s.subnets[i], family) && s'.index < |s.subnets|
  }

  ghost predicate SingleStep(s: NetState, s': NetState, family: Option<bool>)
  {
    exists i: nat, p, ns :: SingleStepAt(s, s', family, i, p, ns)
  }

  /** Some subnet of the family can serve an unnamed allocation. */
  ghost predicate CanServe(s: NetState, family: Option<bool>)
  {
    exists k :: 0 <= k < |s.subnets| && IsAvailable(s.subnets[k]) && Belongs(s.subnets[k], family)
  }

  lemma {:induction false} TotalUpdate(subs: seq<State>, i: nat, st: State, family: Option<bool>)
    requires i < |subs| && st.spec == subs[i].spec
    ensures Total(subs[i := st], family, false) + (if Belongs(st, family) then RoomOf(subs[i], false) else 0) ==
            Total(subs, family, false) + (if Belongs(st, family) then RoomOf(st, false) else 0)
  {
    var init := subs[..|subs| - 1];
    if i == |subs| - 1 {
      assert subs[i := st][..|subs| - 1] == init;
    } else {
      assert subs[i := st][..|subs| - 1] == init[i := st];
      TotalUpdate(init, i, st, family);
    }
  }

  lemma {:induction false} TotalPositive(subs: seq<State>, family: Option<bool>)
    ensures Total(subs, family, false) > 0 <==>
            exists k :: 0 <= k < |subs| && IsAvailable(subs[k]) && Belongs(subs[k], family)
  {
    if subs != [] {
      var init, st := subs[..|subs| - 1], subs[|subs| - 1];
      TotalPositive(init, family);
      if k :| 0 <= k < |subs| - 1 && IsAvailable(subs[k]) && Belongs(subs[k], family) { assert init[k] == subs[k]; }
      if k :| 0 <= k < |init| && IsAvailable(init[k]) && Belongs(init[k], family) { assert subs[k] == init[k]; }
      if Total(subs, family, false) > Total(init, family, false) { assert IsAvailable(st) && Belongs(st, family); }
    }
  }

  /** An allocation of one address uses up exactly one. */
  lemma {:induction false} SingleStepUsesOne(s: NetState, s': NetState, family: Option<bool>)
    requires NetInv(s) && SingleStep(s, s', family)
    ensures NetInv(s') && SingleCapacity(s', family) == SingleCapacity(s, family) - 1
  {
    var i: nat, p, ns :| SingleStepAt(s, s', family, i, p, ns);
    var st := AllocateNext(s.subnets[i], p, ns).0;
    ServedSubnet(s.subnets[i], p, ns);
    NetInvUpdate(s, i, st, s'.index);
    TotalUpdate(s.subnets, i, st, family);
  }
}
