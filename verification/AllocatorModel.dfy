/** What the allocators of pkg/ipam/allocator do to a network, as functions of its state, and what that means for the
    holders of addresses. */
module AllocatorModel {
  import opened Wrappers
  import opened SubnetModel
  import opened NetworkModel
  import opened SelectionOrder
  import opened Capacity
  import opened Ownership

  /** No holder of any subnet has changed. */
  ghost predicate SameHolders(s: NetState, s': NetState)
  {
    && |s'.subnets| == |s.subnets|
    && forall k :: 0 <= k < |s.subnets| ==> s'.subnets[k].used == s.subnets[k].used
                                            && s'.subnets[k].spec == s.subnets[k].spec
  }

  /** Subnet `k` holds one more address, recorded with the data of the subnet; no other holder has changed. */
  ghost predicate OneMoreHolder(s: NetState, s': NetState, k: nat, ip: IP)
  {
    && |s'.subnets| == |s.subnets| && k < |s.subnets|
    && ip.address !in s.subnets[k].used && Describes(s.subnets[k].spec, ip)
    && s'.subnets[k].used == s.subnets[k].used[ip.address := ip]
    && forall i :: 0 <= i < |s.subnets| && i != k ==> s'.subnets[i].used == s.subnets[i].used
  }

  lemma {:induction false} NetInvMove(s: NetState, s': NetState)
    requires NetInv(s) && s'.subnets == s.subnets
    requires (s.subnets == [] ==> s'.index == 0) && (s.subnets != [] ==> s'.index < |s.subnets|)
    ensures NetInv(s')
  {}

  /** The network after subnet `k` took the state `st`. */
  function With(s: NetState, k: nat, st: State): NetState
    requires k < |s.subnets|
  {
    s.(subnets := s.subnets[k := st])
  }

  predicate CursorOk(st: State)
  {
    -1 <= st.index && (st.ips == [] || st.index < |st.ips|)
  }

  lemma {:induction false} HoldersAfter(s: NetState, k: nat, st: State, r: Option<IP>)
    requires k < |s.subnets| && st.spec == s.subnets[k].spec
    requires r.None? ==> st.used == s.subnets[k].used
    requires r.Some? ==> && r.value.address !in s.subnets[k].used && Describes(s.subnets[k].spec, r.value)
                         && st.used == s.subnets[k].used[r.value.address := r.value]
    ensures r.Some? ==> OneMoreHolder(s, s.(subnets := s.subnets[k := st]), k, r.value)
    ensures r.None? ==> SameHolders(s, s.(subnets := s.subnets[k := st]))
  {}

  /** The whole effect of an allocation in subnet `k` on the network. */
  lemma {:induction false} AllocatedIn(s: NetState, k: nat, podName: string, podNamespace: string)
    requires NetInv(s) && k < |s.subnets|
    ensures var (st, r) := AllocateNext(s.subnets[k], podName, podNamespace);
            var s' := s.(subnets := s.subnets[k := st]);
            && NetInv(s')
            && (r.Some? <==> FreeCount(s.subnets[k]) > 0)
            && (r.Some? ==> OneMoreHolder(s, s', k, r.value) && RecordedFor(r.value, podName, podNamespace))
            && (r.None? ==> SameHolders(s, s'))
  {
    AllocateNextSpec(s.subnets[k], podName, podNamespace);
    var (st, r) := AllocateNext(s.subnets[k], podName, podNamespace);
    NetInvUpdate(s, k, st, s.index);
    HoldersAfter(s, k, st, r);
  }

  // ---- Selection ----

  /** The first subnet of that name from `i` on. */
  function ByName(subs: seq<State>, name: string, i: nat): (k: Option<nat>)
    requires i <= |subs|
    ensures k.Some? ==> i <= k.value < |subs| && subs[k.value].spec.name == name
    ensures k.Some? ==> forall j :: i <= j < k.value ==> subs[j].spec.name != name
    ensures k.None? ==> forall j :: i <= j < |subs| ==> subs[j].spec.name != name
    decreases |subs| - i
  {
    if i == |subs| then None else if subs[i].spec.name == name then Some(i) else ByName(subs, name, i + 1)
  }

  function Turn(s: NetState, k: Option<nat>): NetState
  {
    if k.Some? then s.(index := k.value) else s
  }

  /** `GetSubnet`: by name, or the next available one, to which the cursor turns. */
  function Selected(s: NetState, name: string): (NetState, Option<nat>)
    requires s.subnets != [] ==> s.index < |s.subnets|
  {
    if name != "" then (s, ByName(s.subnets, name, 0)) else (Turn(s, NextAvailable(s)), NextAvailable(s))
  }

  /** `GetIPv4Subnet` and `GetIPv6Subnet`: by name, refusing the other family, or by classification. */
  function SelectedFamily(s: NetState, name: string, v6: bool): (NetState, Option<nat>)
    requires s.subnets != [] ==> s.index < |s.subnets|
  {
    if name != "" then
      var k := ByName(s.subnets, name, 0);
      (s, if k.Some? && s.subnets[k.value].spec.ipv6 == v6 then k else None)
    else (Turn(s, Pick(s, v6)), Pick(s, v6))
  }

  /** Two named subnets of the right families and one net ID. */
  function NamedPair(s: NetState, v4Name: string, v6Name: string): Option<(nat, nat)>
  {
    var i, j := ByName(s.subnets, v4Name, 0), ByName(s.subnets, v6Name, 0);
    if i.Some? && j.Some? && PairOf(s, i.value, j.value) then Some((i.value, j.value)) else None
  }

  /** `GetPairedDualStackSubnets`: a named pair, or an available one. */
  function SelectedPair(s: NetState, v4Name: string, v6Name: string): (NetState, Option<(nat, nat)>)
    requires s.subnets != [] ==> s.index < |s.subnets|
  {
    if v4Name != "" && v6Name != "" then (s, NamedPair(s, v4Name, v6Name))
    else
      var p := PickPair(s);
      (if p.Some? then s.(index := p.value.0) else s, p)
  }

  /** Subnet `k` serves one address, if a subnet was selected. */
  function Served(s: NetState, k: Option<nat>, podName: string, podNamespace: string): (NetState, Result<IP>)
    requires k.Some? ==> k.value < |s.subnets| && CursorOk(s.subnets[k.value])
  {
    if k.None? then (s, Err)
    else
      var (st, ip) := AllocateNext(s.subnets[k.value], podName, podNamespace);
      (With(s, k.value, st), if ip.Some? then Ok(ip.value) else Err)
  }

  /** Serving succeeds exactly when the selected subnet has a free address, which the pod then holds. */
  lemma {:induction false} ServedSpec(s: NetState, k: Option<nat>, podName: string, podNamespace: string)
    requires NetInv(s) && (k.Some? ==> k.value < |s.subnets|)
    ensures k.Some? ==> CursorOk(s.subnets[k.value])
    ensures var (s', r) := Served(s, k, podName, podNamespace);
            && NetInv(s')
            && (r.Ok? <==> k.Some? && FreeCount(s.subnets[k.value]) > 0)
            && (r.Ok? ==> OneMoreHolder(s, s', k.value, r.value) && RecordedFor(r.value, podName, podNamespace))
            && (r.Err? ==> SameHolders(s, s'))
            && s'.index == s.index
  {
    if k.Some? {
      AllocatedIn(s, k.value, podName, podNamespace);
    }
  }

  // ---- Single stack ----

  /** `Allocator.Allocate`. */
  ghost function Allocated(s: NetState, name: string, podName: string, podNamespace: string): (NetState, Result<IP>)
    requires NetInv(s)
  {
    NextAvailableSpec(s);
    var (s1, k) := Selected(s, name);
    Served(s1, k, podName, podNamespace)
  }

  /** Subnet `k` is the one asked for and has a free address. */
  ghost predicate CanTake(s: NetState, name: string, k: nat)
  {
    && k < |s.subnets| && FreeCount(s.subnets[k]) > 0
    && if name != "" then s.subnets[k].spec.name == name else IsAvailable(s.subnets[k])
  }

  /** The address comes from the subnet asked for or, without a name, from the first available one from the cursor on,
      to which the cursor turns. */
  ghost predicate TakenFrom(s: NetState, s': NetState, name: string, ip: IP, k: nat)
  {
    && CanTake(s, name, k) && OneMoreHolder(s, s', k, ip)
    && if name != "" then s'.index == s.index else NextInTurn(s, k) && s'.index == k
  }

  /** An allocation succeeds exactly when the subnet asked for, or without a name any available subnet, has a free
      address; then exactly one more address is held, by the pod, and otherwise no holder changes. */
  lemma {:induction false} AllocatedSpec(s: NetState, name: string, podName: string, podNamespace: string)
    requires NetInv(s)
    ensures var (s', r) := Allocated(s, name, podName, podNamespace);
            && NetInv(s')
            && (r.Ok? <==> exists k: nat :: CanTake(s, name, k))
            && (r.Ok? ==> RecordedFor(r.value, podName, podNamespace)
                          && exists k: nat :: TakenFrom(s, s', name, r.value, k))
            && (r.Err? ==> SameHolders(s, s') && s'.index == s.index)
            && (name == "" ==> (r.Ok? <==> CanServe(s, None)) && (if r.Ok? then SingleStep(s, s', None) else s' == s))
  {
    NextAvailableSpec(s);
    var (s1, k) := Selected(s, name);
    NetInvMove(s, s1);
    ServedSpec(s1, k, podName, podNamespace);
    if k.Some? {
      var s' := Served(s1, k, podName, podNamespace).0;
      if FreeCount(s.subnets[k.value]) > 0 {
        assert CanTake(s, name, k.value);
        assert TakenFrom(s, s', name, Served(s1, k, podName, podNamespace).1.value, k.value);
        assert name == "" ==> SingleStepAt(s, s', None, k.value, podName, podNamespace);
      }
    }
  }

  // ---- One family ----

  function NameOf(names: seq<string>, i: nat): string
  {
    if i < |names| then names[i] else ""
  }

  lemma {:induction false} SelectedFamilyKeeps(s: NetState, name: string, v6: bool)
    requires NetInv(s)
    ensures var (s1, k) := SelectedFamily(s, name, v6);
            && NetInv(s1) && s1.subnets == s.subnets
            && (k.Some? ==> k.value < |s.subnets| && CursorOk(s.subnets[k.value]))
  {
    PickSpec(s, v6);
    NetInvMove(s, SelectedFamily(s, name, v6).0);
  }

  /** `allocateIPv4Only` and `allocateIPv6Only`; at most one subnet name is allowed. */
  ghost function AllocatedFamily(s: NetState, names: seq<string>, v6: bool, podName: string,
                                 podNamespace: string): (NetState, Result<IP>)
    requires NetInv(s)
  {
    if |names| > 1 then (s, Err)
    else
      SelectedFamilyKeeps(s, NameOf(names, 0), v6);
      var (s1, k) := SelectedFamily(s, NameOf(names, 0), v6);
      Served(s1, k, podName, podNamespace)
  }

  ghost predicate CanTakeFamily(s: NetState, names: seq<string>, v6: bool, k: nat)
  {
    CanTake(s, if names == [] then "" else names[0], k) && s.subnets[k].spec.ipv6 == v6
  }

  ghost predicate SparesPairs(s: NetState, v6: bool, k: nat)
    requires k < |s.subnets|
  {
    Partnered(s, k) ==>
      forall i: nat :: i < |s.subnets| && IsAvailable(s.subnets[i]) && s.subnets[i].spec.ipv6 == v6 ==> Partnered(s, i)
  }

  ghost predicate TakenFromFamily(s: NetState, s': NetState, names: seq<string>, v6: bool, ip: IP, k: nat)
  {
    && CanTakeFamily(s, names, v6, k) && OneMoreHolder(s, s', k, ip)
    && if names != [] && names[0] != "" then s'.index == s.index
       else SparesPairs(s, v6, k) && PickedFor(s, v6, k) && s'.index == k
  }

  ghost predicate NoneToTake(s: NetState, names: seq<string>, v6: bool)
  {
    forall i: nat :: !CanTakeFamily(s, names, v6, i)
  }

  /** Whether a subnet asked for can serve is decided by subnet `k`. */
  ghost predicate FamilyDecisive(s: NetState, names: seq<string>, v6: bool, k: nat)
  {
    && k < |s.subnets|
    && (FreeCount(s.subnets[k]) > 0 ==> CanTakeFamily(s, names, v6, k))
    && (NameOf(names, 0) == "" ==> SparesPairs(s, v6, k) && PickedFor(s, v6, k))
    && (FreeCount(s.subnets[k]) <= 0 ==> NoneToTake(s, names, v6))
  }

  lemma {:induction false} NamedFamilyTakes(s: NetState, names: seq<string>, v6: bool)
    requires NetInv(s) && NameOf(names, 0) != ""
    ensures var k := SelectedFamily(s, NameOf(names, 0), v6).1;
            if k.Some? then FamilyDecisive(s, names, v6, k.value) else NoneToTake(s, names, v6)
  {
    forall i: nat | CanTakeFamily(s, names, v6, i) ensures ByName(s.subnets, NameOf(names, 0), 0) == Some(i) {}
  }

  lemma {:induction false} PickedSubnet(s: NetState, v6: bool, k: nat)
    requires NetInv(s) && Pick(s, v6) == Some(k) && k < |s.subnets|
    ensures FreeCount(s.subnets[k]) > 0 && IsAvailable(s.subnets[k]) && s.subnets[k].spec.ipv6 == v6
    ensures SparesPairs(s, v6, k) && PickedFor(s, v6, k)
  {
    PickSpec(s, v6);
    PickOrder(s, v6);
  }

  lemma {:induction false} PickedFamilyTakes(s: NetState, names: seq<string>, v6: bool)
    requires NetInv(s) && NameOf(names, 0) == ""
    ensures var k := Pick(s, v6);
            if k.Some? then FamilyDecisive(s, names, v6, k.value) else NoneToTake(s, names, v6)
  {
    PickSpec(s, v6);
    if Pick(s, v6).Some? { PickedSubnet(s, v6, Pick(s, v6).value); }
  }

  /** The same for one family; without a name a partnered subnet serves only when the family has no other available
      one. */
  lemma {:induction false} AllocatedFamilySpec(s: NetState, names: seq<string>, v6: bool, podName: string,
                                               podNamespace: string)
    requires NetInv(s)
    ensures var (s', r) := AllocatedFamily(s, names, v6, podName, podNamespace);
            && NetInv(s')
            && (r.Ok? <==> |names| <= 1 && exists k: nat :: CanTakeFamily(s, names, v6, k))
            && (r.Ok? ==> RecordedFor(r.value, podName, podNamespace)
                          && exists k: nat :: TakenFromFamily(s, s', names, v6, r.value, k))
            && (r.Err? ==> SameHolders(s, s') && s'.index == s.index)
            && (names == [] ==> (r.Ok? <==> CanServe(s, Some(v6)))
                                && (if r.Ok? then SingleStep(s, s', Some(v6)) else s' == s))
  {
    if |names| <= 1 {
      SelectedFamilyKeeps(s, NameOf(names, 0), v6);
      if NameOf(names, 0) != "" { NamedFamilyTakes(s, names, v6); } else { PickedFamilyTakes(s, names, v6); }
      var (s1, k) := SelectedFamily(s, NameOf(names, 0), v6);
      ServedSpec(s1, k, podName, podNamespace);
      var (s', r) := Served(s1, k, podName, podNamespace);
      if r.Ok? {
        assert TakenFromFamily(s, s', names, v6, r.value, k.value);
        if names == [] { assert SingleStepAt(s, s', Some(v6), k.value, podName, podNamespace); }
      }
      if names == [] { FamilyServed(s, v6); }
    }
  }

  lemma {:induction false} FamilyServed(s: NetState, v6: bool)
    requires NetInv(s)
    ensures CanServe(s, Some(v6)) <==> exists k: nat :: CanTakeFamily(s, [], v6, k)
    ensures Pick(s, v6).Some? <==> CanServe(s, Some(v6))
    ensures Pick(s, v6).Some? ==> Pick(s, v6).value < |s.subnets| && FreeCount(s.subnets[Pick(s, v6).value]) > 0
  {
    PickSpec(s, v6);
    if k :| 0 <= k < |s.subnets| && IsAvailable(s.subnets[k]) && Belongs(s.subnets[k], Some(v6)) {
      assert CanTakeFamily(s, [], v6, k);
    }
  }

  // ---- Dual stack ----

  /** The pair the classification offers exists exactly when some pair exists, and both its subnets have room. */
  lemma {:induction false} PickPairMeans(s: NetState)
    requires s.subnets != [] ==> s.index < |s.subnets|
    ensures var p := PickPair(s);
            && (p.Some? <==> CanPair(s))
            && (p.Some? ==> && PairOf(s, p.value.0, p.value.1)
                            && IsAvailable(s.subnets[p.value.0]) && IsAvailable(s.subnets[p.value.1]))
  {
    PickPairSpec(s);
    var p := PickPair(s);
    if p.Some? { assert Pairable(s, p.value.0, p.value.1); }
  }

  /** An IPv4 and an IPv6 subnet with equal net IDs. */
  predicate PairOf(s: NetState, i: nat, j: nat)
  {
    && i < |s.subnets| && j < |s.subnets|
    && !s.subnets[i].spec.ipv6 && s.subnets[j].spec.ipv6 && NetID(s.subnets[i]) == NetID(s.subnets[j])
  }

  /** One IPv4 and one IPv6 address of subnets with equal net IDs have become used, and nothing else. */
  ghost predicate OneMorePair(s: NetState, s': NetState, i: nat, j: nat, v4: IP, v6: IP)
  {
    && PairOf(s, i, j) && |s'.subnets| == |s.subnets|
    && v4.address !in s.subnets[i].used && v6.address !in s.subnets[j].used
    && Describes(s.subnets[i].spec, v4) && Describes(s.subnets[j].spec, v6)
    && s'.subnets[i].used == s.subnets[i].used[v4.address := v4]
    && s'.subnets[j].used == s.subnets[j].used[v6.address := v6]
    && forall k :: 0 <= k < |s.subnets| && k != i && k != j ==> s'.subnets[k].used == s.subnets[k].used
  }

  /** The IPv6 allocation failed, so the IPv4 address is released: all holders are as before. */
  lemma {:induction false} UndoRestores(s: NetState, s1: NetState, s2: NetState, i: nat, j: nat, v4: IP)
    requires NetInv(s) && NetInv(s2) && i != j && OneMoreHolder(s, s1, i, v4) && SameHolders(s1, s2)
    requires v4.address !in s2.subnets[i].reserved
    requires forall k :: 0 <= k < |s.subnets| ==> s1.subnets[k].spec == s.subnets[k].spec
    ensures var s3 := s2.(subnets := s2.subnets[i := Release(s2.subnets[i], v4.address)]);
            NetInv(s3) && SameHolders(s, s3)
  {
    ReleaseKeepsInv(s2.subnets[i], v4.address);
    NetInvUpdate(s2, i, Release(s2.subnets[i], v4.address), s2.index);
  }

  /** What AllocatePair leaves behind. */
  ghost predicate PairOutcome(s: NetState, s': NetState, i: nat, j: nat, podName: string, podNamespace: string,
                              r: Result<(IP, IP)>)
    requires PairOf(s, i, j) && Inv(s.subnets[i]) && Inv(s.subnets[j])
  {
    && (r.Ok? <==> FreeCount(s.subnets[i]) > 0 && FreeCount(s.subnets[j]) > 0)
    && (r.Err? ==> SameHolders(s, s'))
    && (r.Ok? ==> && OneMorePair(s, s', i, j, r.value.0, r.value.1)
                  && s'.subnets == s.subnets[i := AllocateNext(s.subnets[i], podName, podNamespace).0]
                                            [j := AllocateNext(s.subnets[j], podName, podNamespace).0])
  }

  function PairStep(s: NetState, i: nat, j: nat, podName: string, podNamespace: string): (NetState, Result<(IP, IP)>)
    requires i < |s.subnets| && j < |s.subnets| && CursorOk(s.subnets[i]) && CursorOk(s.subnets[j])
  {
    var (st4, v4) := AllocateNext(s.subnets[i], podName, podNamespace);
    if v4.None? then (With(s, i, st4), Err)
    else
      var (st6, v6) := AllocateNext(s.subnets[j], podName, podNamespace);
      var s2 := With(With(s, i, st4), j, st6);
      if v6.Some? then (s2, Ok((v4.value, v6.value)))
      else (With(s2, i, Release(st4, v4.value.address)), Err)
  }

  lemma {:induction false} PairStepSpec(s: NetState, i: nat, j: nat, podName: string, podNamespace: string)
    requires NetInv(s) && PairOf(s, i, j)
    ensures Inv(s.subnets[i]) && Inv(s.subnets[j])
    ensures var (s', r) := PairStep(s, i, j, podName, podNamespace);
            NetInv(s') && PairOutcome(s, s', i, j, podName, podNamespace, r)
  {
    var (st4, v4) := AllocateNext(s.subnets[i], podName, podNamespace);
    var (st6, v6) := AllocateNext(s.subnets[j], podName, podNamespace);
    var s1 := With(s, i, st4);
    AllocatedIn(s, i, podName, podNamespace);
    if v4.Some? {
      AllocatedIn(s1, j, podName, podNamespace);
      if v6.None? {
        UndoPair(s, i, j, podName, podNamespace);
      }
    }
  }

  lemma {:induction false} UndoPair(s: NetState, i: nat, j: nat, podName: string, podNamespace: string)
    requires NetInv(s) && PairOf(s, i, j) && Inv(s.subnets[i]) && Inv(s.subnets[j])
    requires AllocateNext(s.subnets[i], podName, podNamespace).1.Some?
    requires AllocateNext(s.subnets[j], podName, podNamespace).1.None?
    ensures var s' := PairStep(s, i, j, podName, podNamespace).0; NetInv(s') && SameHolders(s, s')
  {
    var (st4, v4) := AllocateNext(s.subnets[i], podName, podNamespace);
    var s1 := With(s, i, st4);
    AllocatedIn(s, i, podName, podNamespace);
    AllocatedIn(s1, j, podName, podNamespace);
    AllocateNextSpec(s.subnets[i], podName, podNamespace);
    UndoRestores(s, s1, With(s1, j, AllocateNext(s.subnets[j], podName, podNamespace).0), i, j, v4.value);
  }

  lemma {:induction false} SelectedPairKeeps(s: NetState, v4Name: string, v6Name: string)
    requires NetInv(s)
    ensures var (s1, p) := SelectedPair(s, v4Name, v6Name);
            && NetInv(s1) && s1.subnets == s.subnets
            && (p.Some? ==> PairOf(s, p.value.0, p.value.1) && CursorOk(s.subnets[p.value.0])
                            && CursorOk(s.subnets[p.value.1]))
  {
    PickPairMeans(s);
    NetInvMove(s, SelectedPair(s, v4Name, v6Name).0);
  }

  /** `allocateDualStack`: no name or two. */
  ghost function AllocatedPair(s: NetState, names: seq<string>, podName: string, podNamespace: string)
    : (NetState, Result<(IP, IP)>)
    requires NetInv(s)
  {
    if |names| != 0 && |names| != 2 then (s, Err)
    else
      SelectedPairKeeps(s, NameOf(names, 0), NameOf(names, 1));
      var (s1, p) := SelectedPair(s, NameOf(names, 0), NameOf(names, 1));
      PairServed(s1, p, podName, podNamespace)
  }

  function PairServed(s: NetState, p: Option<(nat, nat)>, podName: string, podNamespace: string)
    : (NetState, Result<(IP, IP)>)
    requires p.Some? ==> && p.value.0 < |s.subnets| && p.value.1 < |s.subnets|
                         && CursorOk(s.subnets[p.value.0]) && CursorOk(s.subnets[p.value.1])
  {
    if p.None? then (s, Err) else PairStep(s, p.value.0, p.value.1, podName, podNamespace)
  }

  predicate BothNamed(names: seq<string>)
  {
    |names| > 1 && names[0] != "" && names[1] != ""
  }

  ghost predicate CanTakePair(s: NetState, names: seq<string>, i: nat, j: nat)
  {
    && PairOf(s, i, j) && FreeCount(s.subnets[i]) > 0 && FreeCount(s.subnets[j]) > 0
    && if BothNamed(names) then s.subnets[i].spec.name == names[0] && s.subnets[j].spec.name == names[1]
       else IsAvailable(s.subnets[i]) && IsAvailable(s.subnets[j])
  }

  ghost predicate TakenFromPair(s: NetState, s': NetState, names: seq<string>, v4: IP, v6: IP, i: nat, j: nat)
  {
    && CanTakePair(s, names, i, j) && OneMorePair(s, s', i, j, v4, v6)
    && if BothNamed(names) then s'.index == s.index else PairPicked(s, i, j) && s'.index == i
  }

  /** Both addresses, for the pod, or none. */
  ghost predicate PairResult(s: NetState, s': NetState, names: seq<string>, podName: string, podNamespace: string,
                             r: Result<(IP, IP)>)
  {
    && (r.Ok? <==> exists i: nat, j: nat :: CanTakePair(s, names, i, j))
    && (r.Ok? ==> && RecordedFor(r.value.0, podName, podNamespace) && RecordedFor(r.value.1, podName, podNamespace)
                  && exists i: nat, j: nat :: TakenFromPair(s, s', names, r.value.0, r.value.1, i, j))
    && (r.Err? ==> SameHolders(s, s') && s'.index == s.index)
    && (names == [] ==> (r.Ok? <==> CanPair(s)) && (if r.Ok? then DualStep(s, s') else s' == s))
  }

  /** A dual-stack allocation succeeds exactly when the pair asked for, or without names any available pair, has a free
      address in both subnets. */
  lemma {:induction false} AllocatedPairSpec(s: NetState, names: seq<string>, podName: string, podNamespace: string)
    requires NetInv(s)
    ensures var (s', r) := AllocatedPair(s, names, podName, podNamespace);
            && NetInv(s')
            && if |names| == 0 || |names| == 2 then PairResult(s, s', names, podName, podNamespace, r)
               else r.Err? && s' == s
  {
    if |names| == 0 || |names| == 2 {
      SelectedPairKeeps(s, NameOf(names, 0), NameOf(names, 1));
      var (s1, p) := SelectedPair(s, NameOf(names, 0), NameOf(names, 1));
      SelectedPairTakes(s, names);
      SelectedPairTurns(s, names);
      PairServedSpec(s, s1, names, p, podName, podNamespace);
    }
  }

  /** Whether a pair asked for can be taken is decided by the selected one. */
  ghost predicate Decisive(s: NetState, names: seq<string>, i: nat, j: nat)
  {
    && PairOf(s, i, j)
    && (FreeCount(s.subnets[i]) > 0 && FreeCount(s.subnets[j]) > 0 ==> CanTakePair(s, names, i, j))
    && (FreeCount(s.subnets[i]) <= 0 || FreeCount(s.subnets[j]) <= 0 ==>
        forall a: nat, b: nat :: !CanTakePair(s, names, a, b))
    && (!BothNamed(names) ==>
          IsAvailable(s.subnets[i]) && IsAvailable(s.subnets[j]) && CanPair(s) && PairPicked(s, i, j))
  }

  lemma {:induction false} OnlyOfName(s: NetState, a: nat)
    requires NetInv(s) && a < |s.subnets|
    ensures ByName(s.subnets, s.subnets[a].spec.name, 0) == Some(a)
  {}

  ghost predicate DecidedBy(s: NetState, names: seq<string>, p: Option<(nat, nat)>)
  {
    if p.Some? then Decisive(s, names, p.value.0, p.value.1)
    else (names == [] ==> !CanPair(s)) && forall a: nat, b: nat :: !CanTakePair(s, names, a, b)
  }

  /** The cursor turns to the IPv4 subnet of a pair that was not asked for by name. */
  lemma {:induction false} SelectedPairTurns(s: NetState, names: seq<string>)
    requires NetInv(s)
    ensures var (s1, p) := SelectedPair(s, NameOf(names, 0), NameOf(names, 1));
            && s1.subnets == s.subnets
            && s1.index == if BothNamed(names) || p.None? then s.index else p.value.0
  {}

  lemma {:induction false} PairServedSpec(s: NetState, s1: NetState, names: seq<string>, p: Option<(nat, nat)>,
                                          podName: string, podNamespace: string)
    requires NetInv(s) && NetInv(s1) && s1.subnets == s.subnets && DecidedBy(s, names, p)
    requires s1.index == if BothNamed(names) || p.None? then s.index else p.value.0
    ensures p.Some? ==> && p.value.0 < |s1.subnets| && p.value.1 < |s1.subnets|
                        && CursorOk(s1.subnets[p.value.0]) && CursorOk(s1.subnets[p.value.1])
    ensures var (s', r) := PairServed(s1, p, podName, podNamespace);
            NetInv(s') && PairResult(s, s', names, podName, podNamespace, r)
  {
    if p.Some? { PairTaken(s, s1, names, p.value.0, p.value.1, podName, podNamespace); }
  }

  lemma {:induction false} SelectedPairTakes(s: NetState, names: seq<string>)
    requires NetInv(s)
    ensures DecidedBy(s, names, SelectedPair(s, NameOf(names, 0), NameOf(names, 1)).1)
  {
    if BothNamed(names) {
      forall a: nat, b: nat | CanTakePair(s, names, a, b)
        ensures NamedPair(s, NameOf(names, 0), NameOf(names, 1)) == Some((a, b))
      {
        OnlyOfName(s, a);
        OnlyOfName(s, b);
      }
    } else {
      PickPairMeans(s);
      PickOrder(s, false);
      forall a: nat, b: nat | CanTakePair(s, names, a, b) ensures CanPair(s) { assert Pairable(s, a, b); }
    }
  }

  lemma {:induction false} PairTaken(s: NetState, s1: NetState, names: seq<string>, i: nat, j: nat, podName: string,
                                     podNamespace: string)
    requires NetInv(s) && NetInv(s1) && s1.subnets == s.subnets && Decisive(s, names, i, j)
    requires s1.index == if BothNamed(names) then s.index else i
    ensures CursorOk(s1.subnets[i]) && CursorOk(s1.subnets[j])
    ensures var (s', r) := PairStep(s1, i, j, podName, podNamespace);
            NetInv(s') && PairResult(s, s', names, podName, podNamespace, r)
  {
    PairStepSpec(s1, i, j, podName, podNamespace);
    PairRecords(s1, i, j, podName, podNamespace);
    var (s', r) := PairStep(s1, i, j, podName, podNamespace);
    if r.Ok? {
      assert TakenFromPair(s, s', names, r.value.0, r.value.1, i, j);
      if names == [] { assert DualStepAt(s, s', i, j, podName, podNamespace); }
    }
  }

  lemma {:induction false} PairRecords(s: NetState, i: nat, j: nat, podName: string, podNamespace: string)
    requires NetInv(s) && PairOf(s, i, j)
    ensures CursorOk(s.subnets[i]) && CursorOk(s.subnets[j])
    ensures var r := PairStep(s, i, j, podName, podNamespace).1;
            r.Ok? ==> RecordedFor(r.value.0, podName, podNamespace) && RecordedFor(r.value.1, podName, podNamespace)
  {}

  // ---- Assignment ----

  /** Every address in use keeps its holder. */
  ghost predicate KeepsHolders(s: NetState, s': NetState)
  {
    && |s'.subnets| == |s.subnets|
    && forall k, a, h :: 0 <= k < |s.subnets| && HeldInUse(s.subnets[k], a, h) ==> HeldInUse(s'.subnets[k], a, h)
  }

  datatype Request = Request(subnet: string, ip: Addr, podName: string, podNamespace: string, forced: bool)

  /** Whether the subnet is the named one or, without a name, contains the address. */
  predicate Decides(st: State, q: Request)
  {
    if q.subnet != "" then st.spec.name == q.subnet else Contains(st.spec, q.ip)
  }

  /** The subnet of the given name or, without a name, the first one that contains the address. */
  ghost predicate Target(s: NetState, q: Request, k: nat)
  {
    && k < |s.subnets|
    && if q.subnet != "" then
         s.subnets[k].spec.name == q.subnet && forall i :: 0 <= i < k ==> s.subnets[i].spec.name != q.subnet
       else Contains(s.subnets[k].spec, q.ip) && forall i :: 0 <= i < k ==> !Contains(s.subnets[i].spec, q.ip)
  }

  ghost predicate NoTarget(s: NetState, q: Request)
  {
    forall k :: 0 <= k < |s.subnets| ==>
                  if q.subnet != "" then s.subnets[k].spec.name != q.subnet else !Contains(s.subnets[k].spec, q.ip)
  }

  function FindTarget(s: NetState, q: Request, i: nat): Option<nat>
    requires i <= |s.subnets|
    decreases |s.subnets| - i
  {
    if i == |s.subnets| then None else if Decides(s.subnets[i], q) then Some(i) else FindTarget(s, q, i + 1)
  }

  lemma {:induction false} FindTargetSpec(s: NetState, q: Request, i: nat)
    requires i <= |s.subnets| && forall j :: 0 <= j < i ==> !Decides(s.subnets[j], q)
    ensures var k := FindTarget(s, q, i);
            if k.Some? then k.value < |s.subnets| && Target(s, q, k.value) else NoTarget(s, q)
    decreases |s.subnets| - i
  {
    if i < |s.subnets| && !Decides(s.subnets[i], q) { FindTargetSpec(s, q, i + 1); }
  }

  /** The address is the subnet's and free, or held for this very pod, or reserved and taken by force. */
  predicate Grantable(st: State, q: Request)
  {
    && Contains(st.spec, q.ip)
    && (q.ip in st.used ==>
          (st.used[q.ip].podName == q.podName && st.used[q.ip].podNamespace == q.podNamespace)
          || (q.forced && st.used[q.ip].status == STATUS_RESERVED))
  }

  /** A free address is recorded with the data of the subnet, a held one keeps it; the pod is the one asked for, unless
      the request leaves it out and the address has one. */
  ghost predicate AssignedRecord(st: State, q: Request, ip: IP)
  {
    && ip.address == q.ip && ip.status == STATUS_USING
    && if q.ip !in st.used then Describes(st.spec, ip) && RecordedFor(ip, q.podName, q.podNamespace)
       else
         && SameSubnetData(st.used[q.ip], ip)
         && ip.podName == (if q.podName == "" then st.used[q.ip].podName else q.podName)
         && ip.podNamespace == (if q.podNamespace == "" then st.used[q.ip].podNamespace else q.podNamespace)
  }

  ghost predicate GrantedAt(s: NetState, s': NetState, q: Request, ip: IP, k: nat)
  {
    && Target(s, q, k) && Grantable(s.subnets[k], q)
    && k < |s'.subnets| && HeldInUse(s'.subnets[k], q.ip, ip) && AssignedRecord(s.subnets[k], q, ip)
    && s' == With(s, k, s.subnets[k].(used := s.subnets[k].used[q.ip := ip]))
  }

  ghost predicate RefusedAt(s: NetState, q: Request, k: nat)
  {
    Target(s, q, k) && !Grantable(s.subnets[k], q)
  }

  /** The pod holds the address exactly when the target subnet can grant it; no address in use changes its holder; on
      failure nothing changes. */
  ghost predicate AssignOutcome(s: NetState, s': NetState, q: Request, r: Result<IP>)
  {
    && KeepsHolders(s, s')
    && (r.Ok? ==> exists k: nat :: GrantedAt(s, s', q, r.value, k))
    && (r.Err? ==> s' == s && (NoTarget(s, q) || exists k: nat :: RefusedAt(s, q, k)))
  }

  lemma {:induction false} AssignGrants(st: State, q: Request)
    requires Inv(st)
    ensures var (st', r) := Assign(st, q.podName, q.podNamespace, q.ip, q.forced);
            && (r.Some? <==> Grantable(st, q))
            && (r.None? ==> st' == st)
            && (r.Some? ==> && HeldInUse(st', q.ip, r.value) && AssignedRecord(st, q, r.value)
                            && st' == st.(used := st.used[q.ip := r.value]))
  {}

  function AssignRequest(s: NetState, q: Request): (NetState, Result<IP>)
  {
    var k := FindTarget(s, q, 0);
    if k.None? || k.value >= |s.subnets| then (s, Err)
    else
      var (st, r) := Assign(s.subnets[k.value], q.podName, q.podNamespace, q.ip, q.forced);
      (s.(subnets := s.subnets[k.value := st]), if r.Some? then Ok(r.value) else Err)
  }

  lemma {:induction false} AssignRequestKeepsInv(s: NetState, q: Request)
    requires NetInv(s)
    ensures NetInv(AssignRequest(s, q).0)
  {
    FindTargetSpec(s, q, 0);
    var k := FindTarget(s, q, 0);
    if k.Some? {
      var st := Assign(s.subnets[k.value], q.podName, q.podNamespace, q.ip, q.forced).0;
      AssignKeepsInv(s.subnets[k.value], q.podName, q.podNamespace, q.ip, q.forced);
      NetInvUpdate(s, k.value, st, s.index);
    }
  }

  /** What an assignment does to the network. */
  lemma {:induction false} AssignRequestOutcome(s: NetState, q: Request)
    requires NetInv(s)
    ensures AssignOutcome(s, AssignRequest(s, q).0, q, AssignRequest(s, q).1)
  {
    FindTargetSpec(s, q, 0);
    var k := FindTarget(s, q, 0);
    if k.Some? {
      var (st, r) := Assign(s.subnets[k.value], q.podName, q.podNamespace, q.ip, q.forced);
      AssignGrants(s.subnets[k.value], q);
      AssignKeepsHolders(s, k.value, q);
      if r.Some? {
        assert GrantedAt(s, With(s, k.value, st), q, r.value, k.value);
      } else {
        assert With(s, k.value, s.subnets[k.value]) == s;
        assert RefusedAt(s, q, k.value);
      }
    }
  }

  lemma {:induction false} AssignKeepsHolders(s: NetState, k: nat, q: Request)
    requires NetInv(s) && k < |s.subnets|
    ensures KeepsHolders(s, With(s, k, Assign(s.subnets[k], q.podName, q.podNamespace, q.ip, q.forced).0))
  {
    var st := Assign(s.subnets[k], q.podName, q.podNamespace, q.ip, q.forced).0;
    forall b, h | HeldInUse(s.subnets[k], b, h) ensures HeldInUse(st, b, h) {
      StepKeepsHolder(s.subnets[k], AssignTo(q.podName, q.podNamespace, q.ip, q.forced), b, h);
    }
    assert With(s, k, st).subnets[k] == st;
  }

  lemma {:induction false} TargetIsFound(s: NetState, q: Request, k: nat)
    requires Target(s, q, k)
    ensures FindTarget(s, q, 0) == Some(k)
  {
    FindTargetSpec(s, q, 0);
  }

  /** Every address in use, other than `a` in subnet `k`, keeps its holder. */
  ghost predicate KeepsOtherHolders(s: NetState, s': NetState, k: nat, a: Addr)
  {
    && |s'.subnets| == |s.subnets|
    && forall i, b, h :: 0 <= i < |s.subnets| && (i != k || b != a) && HeldInUse(s.subnets[i], b, h) ==>
        HeldInUse(s'.subnets[i], b, h)
  }

  lemma {:induction false} ReleasedIn(s: NetState, k: nat, a: Addr)
    requires NetInv(s) && k < |s.subnets|
    ensures var s' := With(s, k, Release(s.subnets[k], a));
            && NetInv(s') && KeepsOtherHolders(s, s', k, a)
            && forall h :: !HeldInUse(s'.subnets[k], a, h)
  {
    var st := Release(s.subnets[k], a);
    ReleaseKeepsInv(s.subnets[k], a);
    NetInvUpdate(s, k, st, s.index);
    forall b, h | b != a && HeldInUse(s.subnets[k], b, h) ensures HeldInUse(st, b, h) {
      StepKeepsHolder(s.subnets[k], ReleaseOf(a), b, h);
    }
  }

  /** `assignIPv4Only` and `assignIPv6Only`: at most one subnet name and exactly one address, whose text is not
      empty. */
  function AssignArguments(names: seq<string>, ips: seq<Option<Addr>>, podName: string, podNamespace: string,
                           forced: bool): Option<Request>
  {
    if |names| > 1 || |ips| != 1 || ips[0].None? then None
    else Some(Request(NameOf(names, 0), ips[0].value, podName, podNamespace, forced))
  }

  function AssignedFamily(s: NetState, q: Option<Request>): (NetState, Result<IP>)
  {
    if q.None? then (s, Err) else AssignRequest(s, q.value)
  }

  /** An assignment that names more than one subnet, or not exactly one address, is refused; any other is decided for
      the one address in the subnet of the given name, if any. */
  lemma {:induction false} AssignedFamilySpec(s: NetState, names: seq<string>, ips: seq<Option<Addr>>, podName: string,
                                              podNamespace: string, forced: bool)
    requires NetInv(s)
    ensures var (s', r) := AssignedFamily(s, AssignArguments(names, ips, podName, podNamespace, forced));
            if |names| > 1 || |ips| != 1 || ips[0].None? then s' == s && r.Err?
            else AssignOutcome(s, s', Request(if names == [] then "" else names[0], ips[0].value, podName, podNamespace,
                                              forced), r)
  {
    if |names| <= 1 && |ips| == 1 && ips[0].Some? {
      AssignRequestOutcome(s, Request(NameOf(names, 0), ips[0].value, podName, podNamespace, forced));
    }
  }

  // ---- Release ----

  /** The single-stack Release. */
  ghost function Released(s: NetState, name: string, a: Addr): (NetState, bool)
    requires NetInv(s)
  {
    NextAvailableSpec(s);
    var (s1, k) := Selected(s, name);
    if k.None? then (s1, false) else (With(s1, k.value, Release(s1.subnets[k.value], a)), true)
  }

  /** `releaseIP` takes exactly one subnet name and one address. */
  ghost function ReleasedOne(s: NetState, names: seq<string>, ips: seq<Addr>): (NetState, bool)
    requires NetInv(s)
  {
    if |names| != 1 || |ips| != 1 then (s, false) else Released(s, names[0], ips[0])
  }

  /** The address is no longer in use in subnet `k`; every other one keeps its holder. */
  ghost predicate ReleasedAt(s: NetState, s': NetState, name: string, a: Addr, k: nat)
  {
    && k < |s'.subnets|
    && (if name != "" then s'.subnets[k].spec.name == name && s'.index == s.index
        else NextInTurn(s, k) && s'.index == k)
    && KeepsOtherHolders(s, s', k, a) && forall h :: !HeldInUse(s'.subnets[k], a, h)
  }

  /** A release fails exactly when the subnet is unknown, or without a name when no subnet is available; otherwise the
      address is no longer in use there, and no other holder changes. */
  lemma {:induction false} ReleasedSpec(s: NetState, name: string, a: Addr)
    requires NetInv(s)
    ensures var (s', ok) := Released(s, name, a);
            && NetInv(s')
            && (ok <==> exists k :: 0 <= k < |s.subnets| &&
                                    if name != "" then s.subnets[k].spec.name == name else IsAvailable(s.subnets[k]))
            && (ok ==> exists k: nat :: ReleasedAt(s, s', name, a, k))
            && (!ok ==> s' == s)
  {
    NextAvailableSpec(s);
    var (s1, k) := Selected(s, name);
    NetInvMove(s, s1);
    if k.Some? {
      ReleasedIn(s1, k.value, a);
      ReleaseKeepsInv(s1.subnets[k.value], a);
      assert ReleasedAt(s, With(s1, k.value, Release(s1.subnets[k.value], a)), name, a, k.value);
    }
  }

  /** A release that does not name exactly one subnet and one address fails; any other is the release of that address in
      that subnet. */
  lemma {:induction false} ReleasedOneSpec(s: NetState, names: seq<string>, ips: seq<Addr>)
    requires NetInv(s)
    ensures var (s', ok) := ReleasedOne(s, names, ips);
            && NetInv(s') && (!ok ==> s' == s)
            && (ok <==> |names| == 1 && |ips| == 1
                        && exists k :: 0 <= k < |s.subnets| &&
                                       if names[0] != "" then s.subnets[k].spec.name == names[0]
                                       else IsAvailable(s.subnets[k]))
            && (ok ==> exists k: nat :: ReleasedAt(s, s', names[0], ips[0], k))
  {
    if |names| == 1 && |ips| == 1 { ReleasedSpec(s, names[0], ips[0]); }
  }
}
