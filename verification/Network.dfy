/** The network object: a slice of subnets with a cursor (SubnetSlice) and the selection of subnets for
    allocations.  Source: pkg/ipam/types/subnet.go and network.go.

    A selected `*Subnet` is returned as its position in the slice. */
module Networks {
  import opened Wrappers
  import opened SubnetModel
  import opened NetworkModel
  import opened Capacity
  import opened UsageReports
  import opened Subnets

  ghost function States(subs: seq<Subnet>): (s: seq<State>)
    reads subs, set x | x in subs :: x.availableIPs
    ensures |s| == |subs| && forall i :: 0 <= i < |s| ==> s[i] == subs[i].State()
  {
    seq(|subs|, i requires 0 <= i < |subs| reads subs, set x | x in subs :: x.availableIPs => subs[i].State())
  }

  /** The available subnets of one net ID, by family. */
  datatype Group = Group(v4: seq<nat>, v6: seq<nat>)

  datatype Groups = Groups(order: seq<nat>, groups: map<nat, Group>)

  /** File one subnet under its net ID. */
  function File(g: Groups, st: State, k: nat): Groups
  {
    if !IsAvailable(st) then g
    else
      var id := NetID(st);
      var order := if id in g.groups then g.order else g.order + [id];
      var group := if id in g.groups then g.groups[id] else Group([], []);
      Groups(order, g.groups[id := if st.spec.ipv6 then group.(v6 := group.v6 + [k]) else group.(v4 := group.v4 + [k])])
  }

  function FileAll(subs: seq<State>, order: seq<nat>): Groups
    requires forall i :: 0 <= i < |order| ==> order[i] < |subs|
  {
    if order == [] then Groups([], map[])
    else
      var k := order[|order| - 1];
      File(FileAll(subs, order[..|order| - 1]), subs[k], k)
  }

  /** The group filed under a net ID; empty if there is none. */
  function GroupAt(g: Groups, id: nat): Group
  {
    if id in g.groups then g.groups[id] else Group([], [])
  }

  lemma {:induction false} FileAllMatches(subs: seq<State>, order: seq<nat>, id: nat)
    requires forall i :: 0 <= i < |order| ==> order[i] < |subs|
    ensures GroupAt(FileAll(subs, order), id) ==
            Group(Matching(subs, order, id, false), Matching(subs, order, id, true))
  {
    if order != [] { FileAllMatches(subs, order[..|order| - 1], id); }
  }

  lemma {:induction false} FileAllOrder(subs: seq<State>, order: seq<nat>)
    requires forall i :: 0 <= i < |order| ==> order[i] < |subs|
    ensures FileAll(subs, order).order == IdOrder(subs, order)
    ensures forall id :: id in IdOrder(subs, order) <==> id in FileAll(subs, order).groups
  {
    if order != [] { FileAllOrder(subs, order[..|order| - 1]); }
  }

  lemma {:induction false} FileAllStep(subs: seq<State>, index: nat, n: nat, i: nat)
    requires n == |subs| && index < n && i < n
    ensures FileAll(subs, Rotation(index, n, i + 1)) ==
            File(FileAll(subs, Rotation(index, n, i)), subs[Rotated(i, index, n)], Rotated(i, index, n))
  {
    assert Rotation(index, n, i + 1)[..i] == Rotation(index, n, i);
  }

  /** The body of the grouping loop. */
  method FileSubnet(g: Groups, subnet: Subnet, k: nat) returns (g': Groups)
    requires subnet.Valid()
    ensures g' == File(g, subnet.State(), k)
  {
    g' := g;
    if !subnet.IsAvailable() {
      return;
    }
    var id := if subnet.spec.netID.None? then 0 else subnet.spec.netID.value;
    if id !in g'.groups {
      g' := Groups(g'.order + [id], g'.groups[id := Group([], [])]);
    }
    var group := g'.groups[id];
    if subnet.spec.ipv6 {
      g' := g'.(groups := g'.groups[id := group.(v6 := group.v6 + [k])]);
    } else {
      g' := g'.(groups := g'.groups[id := group.(v4 := group.v4 + [k])]);
    }
  }

  /** The members of one family in the groups that have (or lack) the other family. */
  function Collect(g: Groups, ids: seq<nat>, v6: bool, paired: bool): seq<nat>
  {
    if ids == [] then []
    else
      var group := GroupAt(g, ids[|ids| - 1]);
      var own, other := if v6 then group.v6 else group.v4, if v6 then group.v4 else group.v6;
      Collect(g, ids[..|ids| - 1], v6, paired) + if (other != []) == paired then own else []
  }

  lemma {:induction false} CollectIsGather(subs: seq<State>, order: seq<nat>, ids: seq<nat>, v6: bool, paired: bool)
    requires forall i :: 0 <= i < |order| ==> order[i] < |subs|
    ensures Collect(FileAll(subs, order), ids, v6, paired) == Gather(subs, order, ids, v6, paired)
  {
    if ids != [] {
      FileAllMatches(subs, order, ids[|ids| - 1]);
      CollectIsGather(subs, order, ids[..|ids| - 1], v6, paired);
    }
  }

  function Grouped(s: NetState): Groups
    requires s.subnets != [] ==> s.index < |s.subnets|
  {
    FileAll(s.subnets, Rotation(s.index, |s.subnets|, |s.subnets|))
  }

  lemma {:induction false} CollectIsClassified(s: NetState, v6: bool, paired: bool)
    requires s.subnets != [] ==> s.index < |s.subnets|
    ensures Collect(Grouped(s), Grouped(s).order, v6, paired) == Classified(s, v6, paired)
    ensures forall id :: id in Grouped(s).order ==> id in Grouped(s).groups
  {
    var order := Rotation(s.index, |s.subnets|, |s.subnets|);
    FileAllOrder(s.subnets, order);
    CollectIsGather(s.subnets, order, IdOrder(s.subnets, order), v6, paired);
  }

  method SplitGroups(ghost s: NetState, g: Groups)
    returns (onlyIPv4: seq<nat>, onlyIPv6: seq<nat>, pairedIPv4: seq<nat>, pairedIPv6: seq<nat>)
    requires (s.subnets != [] ==> s.index < |s.subnets|) && g == Grouped(s)
    ensures onlyIPv4 == Classified(s, false, false) && onlyIPv6 == Classified(s, true, false)
    ensures pairedIPv4 == Classified(s, false, true) && pairedIPv6 == Classified(s, true, true)
  {
    onlyIPv4, onlyIPv6, pairedIPv4, pairedIPv6 := [], [], [], [];
    for i := 0 to |g.order|
      invariant onlyIPv4 == Collect(g, g.order[..i], false, false)
      invariant onlyIPv6 == Collect(g, g.order[..i], true, false)
      invariant pairedIPv4 == Collect(g, g.order[..i], false, true)
      invariant pairedIPv6 == Collect(g, g.order[..i], true, true)
    {
      var group := GroupAt(g, g.order[i]);
      assert g.order[..i + 1][..i] == g.order[..i];
      if |group.v4| > 0 && |group.v6| == 0 {
        onlyIPv4 := onlyIPv4 + group.v4;
      } else if |group.v6| > 0 && |group.v4| == 0 {
        onlyIPv6 := onlyIPv6 + group.v6;
      } else if |group.v4| > 0 && |group.v6| > 0 {
        pairedIPv4 := pairedIPv4 + group.v4;
        pairedIPv6 := pairedIPv6 + group.v6;
      }
    }
    assert g.order[..|g.order|] == g.order;
    CollectIsClassified(s, false, false);
    CollectIsClassified(s, true, false);
    CollectIsClassified(s, false, true);
    CollectIsClassified(s, true, true);
  }

  /** The index map and the list of names are inverse to each other. */
  ghost predicate IndexOk(indexMap: map<string, nat>, names: seq<string>)
  {
    && (forall i :: 0 <= i < |names| ==> names[i] in indexMap && indexMap[names[i]] == i)
    && (forall n :: n in indexMap ==> indexMap[n] < |names| && names[indexMap[n]] == n)
  }

  datatype PairUsage = PairUsage(v4: nat, v6: nat)

  /** The counters belong to exactly these subnets. */
  ghost predicate UsagesOf(usages: map<nat, PairUsage>, subs: seq<State>)
  {
    && usages.Keys == NetIDs(subs)
    && forall id :: UsageAt(usages, id) == UsageIn(subs, id)
  }

  function UsageIn(subs: seq<State>, id: nat): PairUsage
  {
    PairUsage(ReportedRoom(subs, id, false), ReportedRoom(subs, id, true))
  }

  function UsageAt(usages: map<nat, PairUsage>, id: nat): PairUsage
  {
    if id in usages then usages[id] else PairUsage(0, 0)
  }

  /** One subnet adds its free addresses to the counter of its net ID and family. */
  ghost function Added(usages: map<nat, PairUsage>, st: State): map<nat, PairUsage>
  {
    var u := UsageAt(usages, NetID(st));
    var more := if st.spec.ipv6 then u.(v6 := Wrap(u.v6 + Wrap(FreeCount(st))))
                else u.(v4 := Wrap(u.v4 + Wrap(FreeCount(st))));
    usages[NetID(st) := more]
  }

  method AddUsage(usages: map<nat, PairUsage>, subnet: Subnet) returns (more: map<nat, PairUsage>)
    requires subnet.Valid()
    ensures more == Added(usages, subnet.State())
  {
    var id := UnifyNetID(subnet.spec.netID);
    var available := Wrap(subnet.availableIPs.count - subnet.UsingIPCount());
    more := if id in usages then usages else usages[id := PairUsage(0, 0)];
    if subnet.spec.ipv6 {
      more := more[id := more[id].(v6 := Wrap(more[id].v6 + available))];
    } else {
      more := more[id := more[id].(v4 := Wrap(more[id].v4 + available))];
    }
  }

  lemma {:induction false} NetIDsAppend(subs: seq<State>, st: State)
    ensures NetIDs(subs + [st]) == NetIDs(subs) + {NetID(st)}
  {
    var subs' := subs + [st];
    forall k | 0 <= k < |subs| ensures NetID(subs[k]) in NetIDs(subs') { assert subs'[k] == subs[k]; }
    assert subs'[|subs|] == st;
  }

  lemma {:induction false} UsageStepAt(usages: map<nat, PairUsage>, subs: seq<State>, st: State, id: nat)
    requires UsageAt(usages, id) == UsageIn(subs, id)
    ensures UsageAt(Added(usages, st), id) == UsageIn(subs + [st], id)
  {
    assert (subs + [st])[..|subs|] == subs;
  }

  lemma {:induction false} UsagesStep(usages: map<nat, PairUsage>, more: map<nat, PairUsage>, subs: seq<State>,
                                      st: State)
    requires UsagesOf(usages, subs) && more == Added(usages, st)
    ensures UsagesOf(more, subs + [st])
  {
    NetIDsAppend(subs, st);
    forall id ensures UsageAt(more, id) == UsageIn(subs + [st], id) { UsageStepAt(usages, subs, st, id); }
  }

  /** The first `i` subnets from position `start` on, cyclically. */
  ghost function RotatedPrefix(subs: seq<State>, start: nat, i: nat): (p: seq<State>)
    requires i <= |subs| && (subs != [] ==> start < |subs|)
  {
    if i == 0 then [] else RotatedPrefix(subs, start, i - 1) + [subs[Rotated(i - 1, start, |subs|)]]
  }

  lemma {:induction false} RotatedPrefixAt(subs: seq<State>, start: nat, i: nat)
    requires i <= |subs| && (subs != [] ==> start < |subs|)
    ensures |RotatedPrefix(subs, start, i)| == i
    ensures forall k :: 0 <= k < i ==> RotatedPrefix(subs, start, i)[k] == subs[Rotated(k, start, |subs|)]
  {
    if i > 0 { RotatedPrefixAt(subs, start, i - 1); }
  }

  lemma {:induction false} UsagesRotated(usages: map<nat, PairUsage>, subs: seq<State>, start: nat)
    requires NoUnderflow(subs) && (subs != [] ==> start < |subs|)
    requires UsagesOf(usages, RotatedPrefix(subs, start, |subs|))
    ensures UsagesOf(usages, subs)
  {
    if subs != [] {
      var all := RotatedPrefix(subs, start, |subs|);
      RotatedPrefixAt(subs, start, |subs|);
      assert all == subs[start..] + subs[..start];
      forall id ensures UsageIn(all, id) == UsageIn(subs, id) {
        ReportedRoomRotated(subs, start, id, false);
        ReportedRoomRotated(subs, start, id, true);
      }
      NetIDsRotated(subs, start);
    }
  }

  lemma {:induction false} FamiliesRotated(subs: seq<State>, start: nat)
    requires subs != [] ==> start < |subs|
    ensures Reported(RotatedPrefix(subs, start, |subs|), Some(false)) == Reported(subs, Some(false))
    ensures Reported(RotatedPrefix(subs, start, |subs|), Some(true)) == Reported(subs, Some(true))
  {
    if subs != [] {
      RotatedPrefixAt(subs, start, |subs|);
      assert RotatedPrefix(subs, start, |subs|) == subs[start..] + subs[..start];
      ReportedRotated(subs, start, Some(false));
      ReportedRotated(subs, start, Some(true));
    }
  }

  lemma {:induction false} NetIDsRotated(subs: seq<State>, start: nat)
    requires start <= |subs|
    ensures NetIDs(subs[start..] + subs[..start]) == NetIDs(subs)
  {
    var all := subs[start..] + subs[..start];
    forall id | id in NetIDs(subs) ensures id in NetIDs(all) {
      var k :| 0 <= k < |subs| && NetID(subs[k]) == id;
      assert all[if k >= start then k - start else k + |subs| - start] == subs[k];
    }
    forall id | id in NetIDs(all) ensures id in NetIDs(subs) {
      var k :| 0 <= k < |all| && NetID(all[k]) == id;
      assert all[k] == subs[if k < |subs| - start then k + start else k - (|subs| - start)];
    }
  }

  lemma {:induction false} AddUpStep(subs: seq<State>, usages: map<nat, PairUsage>, done: set<nat>, id: nat, least: nat)
    requires UsagesOf(usages, subs) && id in usages && id !in done
    requires least == Least(usages[id].v4, usages[id].v6)
    ensures Wrap(Wrap(SumReported(subs, done)) + least) == Wrap(SumReported(subs, done + {id}))
  {
    WrapAccumulate(SumReported(subs, done), least);
    SumReportedRemove(subs, done + {id}, id);
    assert done + {id} - {id} == done;
    assert UsageAt(usages, id) == UsageIn(subs, id);
  }

  /** The loop over the net IDs, in any order. */
  method AddUpPairs(ghost subs: seq<State>, usages: map<nat, PairUsage>) returns (dual: nat)
    requires UsagesOf(usages, subs)
    ensures dual == ReportedDual(subs)
  {
    dual := 0;
    var todo := usages.Keys;
    ghost var done: set<nat> := {};
    while todo != {}
      invariant todo !! done && todo + done == usages.Keys
      invariant dual == Wrap(SumReported(subs, done))
    {
      var id :| id in todo;
      var least := Least(usages[id].v4, usages[id].v6);
      AddUpStep(subs, usages, done, id, least);
      todo, done := todo - {id}, done + {id};
      dual := Wrap(dual + least);
    }
    assert done == NetIDs(subs);
  }

  /** The state of a subnet that was just canonicalized and synced. */
  function NewState(raw: RawSpec, reservedList: set<Addr>, last: Option<Addr>, parentNetID: Option<nat>,
                    ips: IPSet): State
    requires Wellformed(raw)
  {
    Sync(Canonicalized(raw), reservedList, last, parentNetID, ips)
  }

  function Extended(s: NetState, st: State, isDefault: bool): NetState
  {
    NetState(s.subnets + [st], if isDefault then |s.subnets| else s.index)
  }

  /** A new subnet with a name of its own keeps the invariant. */
  lemma {:induction false} ExtendedKeepsInv(s: NetState, raw: RawSpec, reservedList: set<Addr>, last: Option<Addr>,
                                            parentNetID: Option<nat>, ips: IPSet, isDefault: bool)
    requires NetInv(s) && Wellformed(raw) && Canonical(ips)
    requires forall i :: 0 <= i < |s.subnets| ==> s.subnets[i].spec.name != raw.name
    ensures NetInv(Extended(s, NewState(raw, reservedList, last, parentNetID, ips), isDefault))
  {
    SyncEstablishes(Canonicalized(raw), reservedList, last, parentNetID, ips);
  }

  ghost predicate NoSharing(subnets: seq<Subnet>, slices: seq<IPSlice>)
  {
    && (forall i, j :: 0 <= i < j < |subnets| ==> subnets[i] != subnets[j])
    && (forall i, j :: 0 <= i < j < |slices| ==> slices[i] != slices[j])
  }

  lemma {:induction false} AppendLinked(subnets: seq<Subnet>, slices: seq<IPSlice>, names: seq<string>,
                                        indexMap: map<string, nat>,
                                        subnet: Subnet, slice: IPSlice, name: string)
    requires NoSharing(subnets, slices) && IndexOk(indexMap, names)
    requires subnet !in subnets && slice !in slices && name !in indexMap
    ensures NoSharing(subnets + [subnet], slices + [slice])
    ensures IndexOk(indexMap[name := |names|], names + [name])
  {}

  function Below(n: nat): (r: set<int>)
    ensures forall k :: k in r <==> 0 <= k < n
  {
    if n == 0 then {} else Below(n - 1) + {n - 1}
  }

  /** Everything DualStackUsage accumulates. */
  datatype Paired = Paired(usages: map<nat, PairUsage>, v4: Usage, v6: Usage)

  ghost predicate PairedOf(p: Paired, subs: seq<State>)
  {
    UsagesOf(p.usages, subs) && p.v4 == Reported(subs, Some(false)) && p.v6 == Reported(subs, Some(true))
  }

  ghost function PairedAdded(p: Paired, st: State): Paired
  {
    Paired(Added(p.usages, st), if st.spec.ipv6 then p.v4 else Plus(p.v4, UsageOf(st)),
           if st.spec.ipv6 then Plus(p.v6, UsageOf(st)) else p.v6)
  }

  /** The loop, one subnet after the other. */
  ghost function PairedAll(subs: seq<State>): Paired
  {
    if subs == [] then Paired(map[], NO_USAGE, NO_USAGE)
      else PairedAdded(PairedAll(subs[..|subs| - 1]), subs[|subs| - 1])
  }

  lemma {:induction false} PairedAllSpec(subs: seq<State>)
    ensures PairedOf(PairedAll(subs), subs)
  {
    if subs != [] {
      PairedAllSpec(subs[..|subs| - 1]);
      PairedStep(PairedAll(subs[..|subs| - 1]), subs[..|subs| - 1], subs[|subs| - 1]);
      assert subs[..|subs| - 1] + [subs[|subs| - 1]] == subs;
    }
  }

  lemma {:induction false} PairedAllAppend(subs: seq<State>, st: State)
    ensures PairedAll(subs + [st]) == PairedAdded(PairedAll(subs), st)
  {
    assert (subs + [st])[..|subs|] == subs;
  }

  lemma {:induction false} PairedStep(p: Paired, subs: seq<State>, st: State)
    requires PairedOf(p, subs)
    ensures PairedOf(PairedAdded(p, st), subs + [st])
  {
    UsagesStep(p.usages, Added(p.usages, st), subs, st);
    ReportedAppend(subs, st, Some(false));
    ReportedAppend(subs, st, Some(true));
  }

  lemma {:induction false} PairedRotated(p: Paired, subs: seq<State>, start: nat)
    requires NoUnderflow(subs) && (subs != [] ==> start < |subs|) && PairedOf(p, RotatedPrefix(subs, start, |subs|))
    ensures PairedOf(p, subs)
  {
    UsagesRotated(p.usages, subs, start);
    FamiliesRotated(subs, start);
  }

  method AddPaired(p: Paired, subnet: Subnet) returns (p': Paired)
    requires subnet.Valid()
    ensures p' == PairedAdded(p, subnet.State())
  {
    var u := SubnetUsage(subnet);
    var usages := AddUsage(p.usages, subnet);
    if subnet.spec.ipv6 {
      p' := Paired(usages, p.v4, Plus(p.v6, u));
    } else {
      p' := Paired(usages, Plus(p.v4, u), p.v6);
    }
  }

  method SubnetUsage(subnet: Subnet) returns (u: Usage)
    requires subnet.Valid()
    ensures u == UsageOf(subnet.State())
  {
    var used := subnet.UsingIPCount();
    u := Usage(Wrap(subnet.availableIPs.count), Wrap(used), Wrap(subnet.availableIPs.count - used));
  }

  class Network {
    var subnets: seq<Subnet>
    var indexMap: map<string, nat>
    ghost var names: seq<string>
    ghost var slices: seq<IPSlice>
    var index: nat
    var count: nat

    ghost function State(): NetState
      reads this, subnets, set x | x in subnets :: x.availableIPs
    {
      NetState(States(subnets), index)
    }

    /** No two subnets share an object, and the index map finds each subnet by its name. */
    ghost predicate Linked()
      reads this`subnets, this`indexMap, this`names, this`slices, subnets
    {
      && |names| == |subnets| && |slices| == |subnets|
      && NoSharing(subnets, slices) && IndexOk(indexMap, names)
      && (forall i :: 0 <= i < |subnets| ==> subnets[i].availableIPs == slices[i] && subnets[i].spec.name == names[i])
    }

    ghost predicate Readable()
      reads this`subnets, this`index, this`count, subnets, set x | x in subnets :: x.availableIPs
    {
      && count == |subnets| && (subnets == [] ==> index == 0) && (subnets != [] ==> index < |subnets|)
      && (forall i :: 0 <= i < |subnets| ==> subnets[i].Valid())
    }

    /** The objects fit together. */
    ghost predicate Shape()
      reads this, subnets, set x | x in subnets :: x.availableIPs
    {
      Linked() && Readable()
    }

    ghost predicate Valid()
      reads this, subnets, set x | x in subnets :: x.availableIPs
    {
      Shape() && NetInv(State())
    }

    constructor ()
      ensures Valid() && subnets == []
    {
      subnets, indexMap, names, slices, index, count := [], map[], [], [], 0, 0;
    }

    method Append(subnet: Subnet, isDefault: bool)
      requires Shape() && subnet !in subnets && subnet.Valid() && subnet.availableIPs !in slices
      requires subnet.spec.name !in indexMap
      modifies this
      ensures Linked() && Readable()
      ensures subnets == old(subnets) + [subnet] && index == if isDefault then |old(subnets)| else old(index)
    {
      AppendLinked(subnets, slices, names, indexMap, subnet, subnet.availableIPs, subnet.spec.name);
      var n := |subnets|;
      ghost var olds, oldSlices, oldNames := subnets, slices, names;
      subnets, count, indexMap := subnets + [subnet], n + 1, indexMap[subnet.spec.name := n];
      names, slices := names + [subnet.spec.name], slices + [subnet.availableIPs];
      index := if isDefault then n else index;
      forall i | 0 <= i < |subnets|
        ensures subnets[i].Valid() && subnets[i].availableIPs == slices[i] && subnets[i].spec.name == names[i]
      {
        if i < n { assert subnets[i] == olds[i] && slices[i] == oldSlices[i] && names[i] == oldNames[i]; }
      }
    }

    /** Canonicalize and sync a new subnet and append it; the last allocated subnet becomes the cursor.  A malformed
        subnet is refused. */
    method AddSubnet(subnet: Subnet, parentNetID: Option<nat>, ips: IPSet, isDefault: bool) returns (ok: bool)
      requires Valid() && subnet !in subnets && subnet.raw.name !in indexMap && Canonical(ips)
      modifies this, subnet
      ensures Valid() && (ok <==> Wellformed(subnet.raw))
      ensures !ok ==> subnets == old(subnets) && State() == old(State())
      ensures ok ==> subnets == old(subnets) + [subnet]
      ensures ok ==>
              State() == Extended(old(State()),
                                  NewState(subnet.raw, old(subnet.reservedList), old(subnet.lastAllocatedIP),
                                           parentNetID, ips), isDefault)
      ensures ok ==> index == if isDefault then |old(subnets)| else old(index)
      ensures ok ==> subnet.spec.netID == if subnet.raw.netID.Some? then subnet.raw.netID else parentNetID
      ensures ok ==> subnet.spec.name == subnet.raw.name && subnet.spec.network == subnet.raw.network
    {
      ghost var s := State();
      ghost var reserved, last := subnet.reservedList, subnet.lastAllocatedIP;
      ok := subnet.Canonicalize();
      assert State() == s;
      if !ok {
        return false;
      }
      CanonicalFields(subnet.raw);
      ExtendedKeepsInv(s, subnet.raw, reserved, last, parentNetID, ips, isDefault);
      AppendSynced(subnet, parentNetID, ips, isDefault);
      assert State().subnets == s.subnets + [subnet.State()];
    }

    method AppendSynced(subnet: Subnet, parentNetID: Option<nat>, ips: IPSet, isDefault: bool)
      requires Shape() && subnet !in subnets && subnet.spec.name !in indexMap
      modifies this, subnet
      ensures Shape() && subnets == old(subnets) + [subnet]
      ensures States(old(subnets)) == old(States(subnets))
      ensures subnet.State() ==
              Sync(old(subnet.spec), old(subnet.reservedList), old(subnet.lastAllocatedIP), parentNetID, ips)
      ensures subnet.spec.netID == if old(subnet.spec).netID.Some? then old(subnet.spec).netID else parentNetID
      ensures subnet.spec == old(subnet.spec).(netID := subnet.spec.netID)
      ensures index == if isDefault then |old(subnets)| else old(index)
    {
      ghost var before, olds := States(subnets), subnets;
      subnet.Sync(parentNetID, ips);
      assert States(olds) == before;
      Append(subnet, isDefault);
    }

    /** Subnet `k` serves one allocation; the others do not change. */
    method AllocateIn(k: nat, podName: string, podNamespace: string) returns (ip: Option<IP>)
      requires Shape() && k < |subnets|
      modifies subnets[k], slices[k]
      ensures Shape()
      ensures var (st, r) := AllocateNext(old(State()).subnets[k], podName, podNamespace);
              ip == r && State() == old(State()).(subnets := old(State()).subnets[k := st])
    {
      ghost var before := State();
      ip := subnets[k].AllocateNext(podName, podNamespace);
      assert State().subnets == before.subnets[k := subnets[k].State()];
    }

    method AssignIn(k: nat, podName: string, podNamespace: string, ip: Addr, forced: bool) returns (r: Option<IP>)
      requires Shape() && k < |subnets|
      modifies subnets[k]
      ensures Shape()
      ensures r == Assign(old(State()).subnets[k], podName, podNamespace, ip, forced).1
      ensures State() ==
              old(State()).(subnets := old(State()).subnets[k := Assign(old(State()).subnets[k], podName,
                                                                        podNamespace, ip, forced).0])
    {
      ghost var before := State();
      r := subnets[k].Assign(podName, podNamespace, ip, forced);
      assert State().subnets == before.subnets[k := subnets[k].State()];
    }

    method ReleaseIn(k: nat, ip: Addr)
      requires Shape() && k < |subnets|
      modifies subnets[k]
      ensures Shape()
      ensures State() == old(State()).(subnets := old(State()).subnets[k := Release(old(State()).subnets[k], ip)])
    {
      ghost var before := State();
      subnets[k].Release(ip);
      assert State().subnets == before.subnets[k := subnets[k].State()];
    }

    function GetSubnet(name: string): (k: Option<nat>)
      requires Shape()
      reads this, subnets, set x | x in subnets :: x.availableIPs
      ensures k.Some? ==> k.value < |subnets| && subnets[k.value].spec.name == name
      ensures k.None? <==> forall i :: 0 <= i < |subnets| ==> subnets[i].spec.name != name
    {
      if name in indexMap then Some(indexMap[name]) else None
    }

    /** The first subnet whose addresses include `ip`. */
    method GetSubnetByIP(ip: Addr) returns (k: Option<nat>)
      requires Shape()
      ensures k.Some? ==> k.value < |subnets| && Contains(subnets[k.value].spec, ip)
      ensures k.Some? ==> forall i :: 0 <= i < k.value ==> !Contains(subnets[i].spec, ip)
      ensures k.None? ==> forall i :: 0 <= i < |subnets| ==> !Contains(subnets[i].spec, ip)
    {
      for i := 0 to |subnets|
        invariant forall j :: 0 <= j < i ==> !Contains(subnets[j].spec, ip)
      {
        if Contains(subnets[i].spec, ip) {
          return Some(i);
        }
      }
      return None;
    }

    /** The next available subnet from the cursor on; none only if there is none at all. */
    method FindAvailable() returns (k: Option<nat>)
      requires Readable()
      ensures k == NextAvailable(State()) && (k.Some? ==> k.value < |subnets|)
    {
      if count == 0 {
        return None;
      }
      ghost var s := State();
      var current, lastIndex := index, index;
      ghost var d := 0;
      while true
        invariant d < |subnets| && current == Rotated(d, lastIndex, |subnets|)
        invariant NextAvailable(s) == FirstFrom(s, d)
        decreases |subnets| - d
      {
        if subnets[current].IsAvailable() {
          return Some(current);
        }
        current := Next(current, count);
        d := d + 1;
        if current == lastIndex {
          return None;
        }
      }
    }

    /** Turn the cursor to the next available subnet; fail, with the cursor back in place, only if there is none. */
    method GetAvailableSubnet() returns (k: Option<nat>)
      requires Shape()
      modifies this`index
      ensures Shape() && k == NextAvailable(old(State())) && (k.Some? ==> k.value < |subnets|)
      ensures States(subnets) == old(States(subnets)) && index == if k.Some? then k.value else old(index)
    {
      k := FindAvailable();
      if k.Some? {
        MoveTo(k.value);
      }
    }

    /** Split the available subnets by family and by whether their net ID has both families. */
    method Classify() returns (onlyIPv4: seq<nat>, onlyIPv6: seq<nat>, pairedIPv4: seq<nat>, pairedIPv6: seq<nat>)
      requires Readable()
      ensures onlyIPv4 == Classified(State(), false, false) && onlyIPv6 == Classified(State(), true, false)
      ensures pairedIPv4 == Classified(State(), false, true) && pairedIPv6 == Classified(State(), true, true)
    {
      var g := GroupByNetID();
      onlyIPv4, onlyIPv6, pairedIPv4, pairedIPv6 := SplitGroups(State(), g);
    }

    method GroupByNetID() returns (g: Groups)
      requires Readable()
      ensures g == Grouped(State())
    {
      ghost var subs := States(subnets);
      var start, n := index, count;
      g := Groups([], map[]);
      for i := 0 to n
        invariant g == FileAll(subs, Rotation(start, n, i))
      {
        var k := Rotated(i, start, n);
        assert subs[k] == subnets[k].State();
        g := FileSubnet(g, subnets[k], k);
        FileAllStep(subs, start, n, i);
      }
    }

    method MoveTo(k: nat)
      requires Shape() && k < |subnets|
      modifies this`index
      ensures Shape() && States(subnets) == old(States(subnets)) && index == k
    {
      index := k;
    }

    /** The first unpartnered subnet of the family, or else the first partnered one. */
    method Choose(v6: bool) returns (k: Option<nat>)
      requires Readable()
      ensures k == Pick(State(), v6)
      ensures k.Some? ==> k.value < |subnets|
    {
      PickBounds(State());
      var only4, only6, paired4, paired6 := Classify();
      var only, paired := if v6 then only6 else only4, if v6 then paired6 else paired4;
      k := if |only| > 0 then Some(only[0]) else if |paired| > 0 then Some(paired[0]) else None;
    }

    method GetAvailableIPv4Subnet() returns (k: Option<nat>)
      requires Shape()
      modifies this`index
      ensures Shape() && k == Pick(old(State()), false) && (k.Some? ==> k.value < |subnets|)
      ensures States(subnets) == old(States(subnets)) && index == if k.Some? then k.value else old(index)
    {
      k := Choose(false);
      if k.Some? {
        MoveTo(k.value);
      }
    }

    method GetAvailableIPv6Subnet() returns (k: Option<nat>)
      requires Shape()
      modifies this`index
      ensures Shape() && k == Pick(old(State()), true) && (k.Some? ==> k.value < |subnets|)
      ensures States(subnets) == old(States(subnets)) && index == if k.Some? then k.value else old(index)
    {
      k := Choose(true);
      if k.Some? {
        MoveTo(k.value);
      }
    }

    method ChoosePair() returns (p: Option<(nat, nat)>)
      requires Readable()
      ensures p == PickPair(State())
      ensures p.Some? ==> p.value.0 < |subnets| && p.value.1 < |subnets|
    {
      PickBounds(State());
      var _, _, v4, v6 := Classify();
      p := if |v4| == 0 then None else Some((v4[0], v6[0]));
    }

    method GetAvailablePairedDualStackSubnets() returns (p: Option<(nat, nat)>)
      requires Shape()
      modifies this`index
      ensures Shape() && p == PickPair(old(State()))
      ensures States(subnets) == old(States(subnets)) && index == if p.Some? then p.value.0 else old(index)
    {
      p := ChoosePair();
      if p.Some? {
        MoveTo(p.value.0);
      }
    }

    // ---- Usage ----

    /** The counters of all subnets, added up in any order. */
    method Usage() returns (u: Usage)
      requires Readable()
      ensures u == Reported(State().subnets, None)
    {
      ghost var subs := State().subnets;
      u := NO_USAGE;
      var todo := Below(|subnets|);
      ghost var done: set<int> := {};
      ReportedOnNone(subs);
      while todo != {}
        invariant todo !! done && todo + done == Below(|subnets|)
        invariant u == ReportedOn(subs, done)
      {
        var k :| k in todo;
        ReportedOnMore(subs, done, k);
        var more := SubnetUsage(subnets[k]);
        u := Plus(u, more);
        todo, done := todo - {k}, done + {k};
      }
      ReportedOnAll(subs, done);
    }

    /** The loop over the subnets from the cursor on. */
    method AccumulatePaired() returns (p: Paired)
      requires Readable()
      ensures p == PairedAll(RotatedPrefix(State().subnets, index, |State().subnets|))
    {
      ghost var subs := States(subnets);
      var start, n := index, count;
      p := Paired(map[], NO_USAGE, NO_USAGE);
      for i := 0 to n
        invariant p == PairedAll(RotatedPrefix(subs, start, i))
      {
        var k := Rotated(i, start, n);
        PairedAllAppend(RotatedPrefix(subs, start, i), subs[k]);
        p := AddPaired(p, subnets[k]);
      }
    }

    /** The counters of the two families, and the 32-bit counters of each net ID by family. */
    method PairedUsage() returns (p: Paired)
      requires Readable() && NoUnderflow(State().subnets)
      ensures PairedOf(p, State().subnets)
    {
      ghost var subs := State().subnets;
      p := AccumulatePaired();
      PairedAllSpec(RotatedPrefix(subs, index, |subs|));
      PairedRotated(p, subs, index);
    }

    /** `DualStackUsage`: the two families, and the available pairs. */
    method DualStackUsage() returns (v4: Usage, v6: Usage, dual: nat)
      requires Readable() && NoUnderflow(State().subnets)
      ensures v4 == Reported(State().subnets, Some(false)) && v6 == Reported(State().subnets, Some(true))
      ensures dual == ReportedDual(State().subnets)
    {
      var p := PairedUsage();
      v4, v6 := p.v4, p.v6;
      dual := AddUpPairs(State().subnets, p.usages);
    }
  }
}
