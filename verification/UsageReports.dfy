/** The usage reports of a network (`Usage` and `DualStackUsage` in pkg/ipam/types/subnet.go and network.go): 32-bit
    counters and what they say about the allocations that are left. */
module UsageReports {
  import opened Wrappers
  import opened Dyadic
  import opened SubnetModel
  import opened NetworkModel
  import opened Capacity

  const UINT32: nat := 0x1_0000_0000

  /** Conversion to, and addition in, 32 bits. */
  function Wrap(x: int): nat
  {
    x % 0x1_0000_0000
  }

  datatype Usage = Usage(total: nat, used: nat, available: nat)

  const NO_USAGE := Usage(0, 0, 0)

  /** What a report counts. */
  datatype Count = Addresses | Used | Free

  function CountOf(st: State, c: Count): int
  {
    match c
    case Addresses => |st.ips|
    case Used => UsedCount(st)
    case Free => FreeCount(st)
  }

  /** The true sum over the subnets of a family. */
  function Sum(subs: seq<State>, c: Count, family: Option<bool>): int
  {
    if subs == [] then 0
    else
      var st := subs[|subs| - 1];
      Sum(subs[..|subs| - 1], c, family) + if Belongs(st, family) then CountOf(st, c) else 0
  }

  /** The report is the true sum, in 32 bits. */
  function Reported(subs: seq<State>, family: Option<bool>): Usage
  {
    Usage(Wrap(Sum(subs, Addresses, family)), Wrap(Sum(subs, Used, family)), Wrap(Sum(subs, Free, family)))
  }

  /** `Subnet.Usage`. */
  function UsageOf(st: State): Usage
  {
    Usage(Wrap(|st.ips|), Wrap(UsedCount(st)), Wrap(FreeCount(st)))
  }

  function Plus(u: Usage, v: Usage): Usage
  {
    Usage(Wrap(u.total + v.total), Wrap(u.used + v.used), Wrap(u.available + v.available))
  }

  lemma {:induction false} WrapAccumulate(x: int, y: int)
    ensures Wrap(Wrap(x) + y) == Wrap(x + y)
  {
    var q := x / 0x1_0000_0000;
    var z := Wrap(x) + y;
    assert x + y == q * 0x1_0000_0000 + z;
    assert z == z / 0x1_0000_0000 * 0x1_0000_0000 + Wrap(z);
  }

  lemma {:induction false} WrapAdd(x: int, y: int)
    ensures Wrap(Wrap(x) + Wrap(y)) == Wrap(x + y)
  {
    WrapAccumulate(x, Wrap(y));
    WrapAccumulate(y, x);
  }

  lemma {:induction false} WrapSmall(x: nat)
    ensures Wrap(x) <= x && (Wrap(x) == x <==> x < UINT32)
  {}

  // ---- Adding up in any order ----

  /** The sum over the subnets at the given positions. */
  function SumOn(subs: seq<State>, done: set<int>, c: Count): int
  {
    if subs == [] then 0
    else
      var k := |subs| - 1;
      SumOn(subs[..k], done, c) + if k in done then CountOf(subs[k], c) else 0
  }

  function ReportedOn(subs: seq<State>, done: set<int>): Usage
  {
    Usage(Wrap(SumOn(subs, done, Addresses)), Wrap(SumOn(subs, done, Used)), Wrap(SumOn(subs, done, Free)))
  }

  lemma {:induction false} SumOnMore(subs: seq<State>, done: set<int>, k: int, c: Count)
    requires k !in done
    ensures SumOn(subs, done + {k}, c) == SumOn(subs, done, c) + if 0 <= k < |subs| then CountOf(subs[k], c) else 0
  {
    if subs != [] { SumOnMore(subs[..|subs| - 1], done, k, c); }
  }

  lemma {:induction false} SumOnNone(subs: seq<State>, c: Count)
    ensures SumOn(subs, {}, c) == 0
  {
    if subs != [] { SumOnNone(subs[..|subs| - 1], c); }
  }

  lemma {:induction false} SumOnAll(subs: seq<State>, done: set<int>, c: Count)
    requires forall k :: 0 <= k < |subs| ==> k in done
    ensures SumOn(subs, done, c) == Sum(subs, c, None)
  {
    if subs != [] { SumOnAll(subs[..|subs| - 1], done, c); }
  }

  lemma {:induction false} ReportedOnMore(subs: seq<State>, done: set<int>, k: int)
    requires 0 <= k < |subs| && k !in done
    ensures Plus(ReportedOn(subs, done), UsageOf(subs[k])) == ReportedOn(subs, done + {k})
  {
    SumOnMore(subs, done, k, Addresses);
    SumOnMore(subs, done, k, Used);
    SumOnMore(subs, done, k, Free);
    WrapAdd(SumOn(subs, done, Addresses), |subs[k].ips|);
    WrapAdd(SumOn(subs, done, Used), UsedCount(subs[k]));
    WrapAdd(SumOn(subs, done, Free), FreeCount(subs[k]));
  }

  lemma {:induction false} ReportedOnAll(subs: seq<State>, done: set<int>)
    requires forall k :: 0 <= k < |subs| ==> k in done
    ensures ReportedOn(subs, done) == Reported(subs, None)
  {
    SumOnAll(subs, done, Addresses);
    SumOnAll(subs, done, Used);
    SumOnAll(subs, done, Free);
  }

  lemma {:induction false} ReportedOnNone(subs: seq<State>)
    ensures ReportedOn(subs, {}) == NO_USAGE
  {
    SumOnNone(subs, Addresses);
    SumOnNone(subs, Used);
    SumOnNone(subs, Free);
  }

  lemma {:induction false} SumAppend(subs: seq<State>, st: State, c: Count, family: Option<bool>)
    ensures Sum(subs + [st], c, family) == Sum(subs, c, family) + if Belongs(st, family) then CountOf(st, c) else 0
  {
    assert (subs + [st])[..|subs|] == subs;
  }

  lemma {:induction false} WrapAppend(subs: seq<State>, st: State, c: Count, family: Option<bool>)
    ensures Wrap(Sum(subs + [st], c, family)) ==
            if Belongs(st, family) then Wrap(Wrap(Sum(subs, c, family)) + Wrap(CountOf(st, c)))
              else Wrap(Sum(subs, c, family))
  {
    SumAppend(subs, st, c, family);
    WrapAdd(Sum(subs, c, family), CountOf(st, c));
  }

  lemma {:induction false} ReportedAppend(subs: seq<State>, st: State, family: Option<bool>)
    ensures Reported(subs + [st], family) ==
            if Belongs(st, family) then Plus(Reported(subs, family), UsageOf(st)) else Reported(subs, family)
  {
    var more := subs + [st];
    WrapAppend(subs, st, Addresses, family);
    WrapAppend(subs, st, Used, family);
    WrapAppend(subs, st, Free, family);
    assert CountOf(st, Addresses) == |st.ips| && CountOf(st, Used) == UsedCount(st)
        && CountOf(st, Free) == FreeCount(st);
    assert Reported(more, family).total == Wrap(Sum(more, Addresses, family));
    assert Reported(more, family).used == Wrap(Sum(more, Used, family));
    assert Reported(more, family).available == Wrap(Sum(more, Free, family));
  }

  lemma {:induction false} SumConcat(p: seq<State>, q: seq<State>, c: Count, family: Option<bool>)
    ensures Sum(p + q, c, family) == Sum(p, c, family) + Sum(q, c, family)
  {
    if q == [] {
      assert p + q == p;
    } else {
      assert (p + q)[..|p + q| - 1] == p + q[..|q| - 1];
      SumConcat(p, q[..|q| - 1], c, family);
    }
  }

  lemma {:induction false} ReportedRotated(subs: seq<State>, i: nat, family: Option<bool>)
    requires i <= |subs|
    ensures Reported(subs[i..] + subs[..i], family) == Reported(subs, family)
  {
    assert subs[..i] + subs[i..] == subs;
    forall c: Count ensures Sum(subs[i..] + subs[..i], c, family) == Sum(subs, c, family) {
      SumConcat(subs[i..], subs[..i], c, family);
      SumConcat(subs[..i], subs[i..], c, family);
    }
  }

  // ---- What the counters mean ----

  /** No subnet has more used than available addresses. */
  ghost predicate NoUnderflow(subs: seq<State>)
  {
    forall k :: 0 <= k < |subs| ==> UsedCount(subs[k]) >= 0 && FreeCount(subs[k]) >= 0
  }

  lemma {:induction false} NetInvCounts(s: NetState)
    requires NetInv(s)
    ensures NoUnderflow(s.subnets)
  {
    forall k | 0 <= k < |s.subnets| ensures UsedCount(s.subnets[k]) >= 0 && FreeCount(s.subnets[k]) >= 0 {
      Accounting(s.subnets[k]);
    }
  }

  lemma {:induction false} SumsAddUp(subs: seq<State>, family: Option<bool>)
    requires NoUnderflow(subs)
    ensures Sum(subs, Addresses, family) == Sum(subs, Used, family) + Sum(subs, Free, family)
    ensures Sum(subs, Used, family) >= 0 && Sum(subs, Free, family) == Total(subs, family, true)
  {
    if subs != [] { SumsAddUp(subs[..|subs| - 1], family); }
  }

  lemma {:induction false} FamiliesAddUp(subs: seq<State>, c: Count)
    ensures Sum(subs, c, None) == Sum(subs, c, Some(false)) + Sum(subs, c, Some(true))
  {
    if subs != [] { FamiliesAddUp(subs[..|subs| - 1], c); }
  }

  /** The addresses of a subnet that a counter is about: the allocatable ones that are not reserved, and of these the
      ones in use and the ones not in use. */
  ghost function Members(st: State, c: Count): set<Addr>
  {
    match c
    case Addresses => set a | a in st.ips
    case Used => set a | a in st.ips && a in st.used
    case Free => set a | a in st.ips && a !in st.used
  }

  lemma {:induction false} CountsMembers(st: State, c: Count)
    requires Inv(st)
    ensures CountOf(st, c) == |Members(st, c)|
  {
    SliceFacts(st);
    Accounting(st);
    assert Members(st, Addresses) == Elements(st.ips);
    assert Members(st, Used) == st.used.Keys - st.reserved;
    assert Members(st, Addresses) == Members(st, Used) + Members(st, Free);
  }

  /** The addresses of the subnets of a family, each beside the place of its subnet. */
  ghost function AllMembers(subs: seq<State>, c: Count, family: Option<bool>): set<(int, Addr)>
  {
    set k, a | 0 <= k < |subs| && a in FamilyMembers(subs[k], c, family) :: (k, a)
  }

  ghost function FamilyMembers(st: State, c: Count, family: Option<bool>): set<Addr>
  {
    if Belongs(st, family) then Members(st, c) else {}
  }

  ghost function Tagged(k: int, p: set<Addr>): set<(int, Addr)>
  {
    set a | a in p :: (k, a)
  }

  lemma {:induction false} TaggedSize(k: int, p: set<Addr>)
    ensures |Tagged(k, p)| == |p|
  {
    if p != {} {
      var x :| x in p;
      TaggedSize(k, p - {x});
      assert Tagged(k, p) == Tagged(k, p - {x}) + {(k, x)};
    } else {
      assert Tagged(k, p) == {};
    }
  }

  lemma {:induction false} AllMembersAppend(subs: seq<State>, st: State, c: Count, family: Option<bool>)
    ensures var more := Tagged(|subs|, FamilyMembers(st, c, family));
            && AllMembers(subs + [st], c, family) == AllMembers(subs, c, family) + more
            && AllMembers(subs, c, family) !! more
  {
    var all, more := AllMembers(subs + [st], c, family), Tagged(|subs|, FamilyMembers(st, c, family));
    forall x | x in all ensures x in AllMembers(subs, c, family) + more {
      if x.0 < |subs| { assert (subs + [st])[x.0] == subs[x.0]; }
    }
    forall x | x in AllMembers(subs, c, family) + more ensures x in all {
      if x in AllMembers(subs, c, family) { assert (subs + [st])[x.0] == subs[x.0]; }
      else { assert (subs + [st])[x.0] == st; }
    }
  }

  lemma {:induction false} MembersAppend(subs: seq<State>, st: State, c: Count, family: Option<bool>)
    requires Inv(st)
    ensures |AllMembers(subs + [st], c, family)| ==
            |AllMembers(subs, c, family)| + if Belongs(st, family) then CountOf(st, c) else 0
  {
    CountsMembers(st, c);
    TaggedSize(|subs|, FamilyMembers(st, c, family));
    AllMembersAppend(subs, st, c, family);
  }

  lemma {:induction false} SumCountsMembers(subs: seq<State>, c: Count, family: Option<bool>)
    requires forall k :: 0 <= k < |subs| ==> Inv(subs[k])
    ensures Sum(subs, c, family) == |AllMembers(subs, c, family)|
  {
    if subs == [] {
    } else {
      var init, st := subs[..|subs| - 1], subs[|subs| - 1];
      SumCountsMembers(init, c, family);
      assert subs == init + [st];
      MembersAppend(init, st, c, family);
    }
  }

  /** The three numbers of a report count, in 32 bits, the allocatable addresses that are not reserved, those of them in
      use, and those not in use. */
  lemma {:induction false} ReportCounts(s: NetState, family: Option<bool>)
    requires NetInv(s)
    ensures var u := Reported(s.subnets, family);
            && u.total == Wrap(|AllMembers(s.subnets, Addresses, family)|)
            && u.used == Wrap(|AllMembers(s.subnets, Used, family)|)
            && u.available == Wrap(|AllMembers(s.subnets, Free, family)|)
  {
    SumCountsMembers(s.subnets, Addresses, family);
    SumCountsMembers(s.subnets, Used, family);
    SumCountsMembers(s.subnets, Free, family);
  }

  /** In every report used plus available is total, in 32 bits. */
  lemma {:induction false} ReportAddsUp(s: NetState, family: Option<bool>)
    requires NetInv(s)
    ensures var u := Reported(s.subnets, family); u.total == Wrap(u.used + u.available)
  {
    NetInvCounts(s);
    SumsAddUp(s.subnets, family);
    WrapAdd(Sum(s.subnets, Used, family), Sum(s.subnets, Free, family));
  }

  /** The reports of the two families add up to the report of the network, in 32 bits. */
  lemma {:induction false} FamilyReportsAddUp(subs: seq<State>)
    ensures Reported(subs, None) == Plus(Reported(subs, Some(false)), Reported(subs, Some(true)))
  {
    FamiliesWrap(subs, Addresses);
    FamiliesWrap(subs, Used);
    FamiliesWrap(subs, Free);
  }

  lemma {:induction false} FamiliesWrap(subs: seq<State>, c: Count)
    ensures Wrap(Wrap(Sum(subs, c, Some(false))) + Wrap(Sum(subs, c, Some(true)))) == Wrap(Sum(subs, c, None))
  {
    FamiliesAddUp(subs, c);
    WrapAdd(Sum(subs, c, Some(false)), Sum(subs, c, Some(true)));
  }

  ghost predicate NoPrivate(subs: seq<State>)
  {
    forall k :: 0 <= k < |subs| ==> !subs[k].spec.private
  }

  lemma {:induction false} NoPrivateSame(subs: seq<State>, id: nat, v6: bool, family: Option<bool>)
    requires NoPrivate(subs)
    ensures Room(subs, id, v6, true) == Room(subs, id, v6, false)
    ensures Total(subs, family, true) == Total(subs, family, false)
  {
    if subs != [] { NoPrivateSame(subs[..|subs| - 1], id, v6, family); }
  }

  /** With no private subnets `Available` never exceeds the allocations that are left, and equals their number exactly
      when that number fits the counter. */
  lemma {:induction false} SingleReportIsExact(s: NetState, family: Option<bool>)
    requires NetInv(s) && NoPrivate(s.subnets)
    ensures Reported(s.subnets, family).available <= SingleCapacity(s, family)
    ensures Reported(s.subnets, family).available == SingleCapacity(s, family) <==> SingleCapacity(s, family) < UINT32
  {
    NetInvCounts(s);
    SumsAddUp(s.subnets, family);
    NoPrivateSame(s.subnets, 0, false, family);
    WrapSmall(SingleCapacity(s, family));
  }

  // ---- The dual-stack report ----

  /** The 32-bit counter of one net ID and family. */
  function ReportedRoom(subs: seq<State>, id: nat, v6: bool): nat
  {
    if subs == [] then 0
    else
      var st := subs[|subs| - 1];
      var rest := ReportedRoom(subs[..|subs| - 1], id, v6);
      if Hit(st, id, v6) then Wrap(rest + Wrap(FreeCount(st))) else rest
  }

  function Least(x: nat, y: nat): nat
  {
    if x < y then x else y
  }

  function ReportedPairs(subs: seq<State>, id: nat): nat
  {
    Least(ReportedRoom(subs, id, false), ReportedRoom(subs, id, true))
  }

  ghost function SumReported(subs: seq<State>, ids: set<nat>): nat
  {
    if ids == {} then 0
    else
      var id :| id in ids;
      ReportedPairs(subs, id) + SumReported(subs, ids - {id})
  }

  /** `DualStackUsage()[2].Available`: the smaller counter of each net ID, added up in 32 bits. */
  ghost function ReportedDual(subs: seq<State>): nat
  {
    Wrap(SumReported(subs, NetIDs(subs)))
  }

  lemma {:induction false} SumReportedRemove(subs: seq<State>, ids: set<nat>, id: nat)
    requires id in ids
    ensures SumReported(subs, ids) == ReportedPairs(subs, id) + SumReported(subs, ids - {id})
    decreases ids
  {
    var y :| y in ids && SumReported(subs, ids) == ReportedPairs(subs, y) + SumReported(subs, ids - {y});
    if y != id {
      SumReportedRemove(subs, ids - {y}, id);
      SumReportedRemove(subs, ids - {id}, y);
      assert ids - {y} - {id} == ids - {id} - {y};
    }
  }

  lemma {:induction false} ReportedRoomWraps(subs: seq<State>, id: nat, v6: bool)
    requires NoUnderflow(subs)
    ensures ReportedRoom(subs, id, v6) == Wrap(Room(subs, id, v6, true))
  {
    if subs != [] {
      var init, st := subs[..|subs| - 1], subs[|subs| - 1];
      ReportedRoomWraps(init, id, v6);
      WrapAdd(Room(init, id, v6, true), FreeCount(st));
    }
  }

  /** The pairs of the net ID fit 32 bits, and the larger of its two counters does not wrap below them. */
  predicate Counted(subs: seq<State>, id: nat)
  {
    var v4, v6 := Room(subs, id, false, false), Room(subs, id, true, false);
    Least(v4, v6) < UINT32 && Least(v4, v6) <= Wrap(if v4 < v6 then v6 else v4)
  }

  lemma {:induction false} ReportedPairsExact(subs: seq<State>, id: nat)
    requires NoUnderflow(subs) && NoPrivate(subs)
    ensures ReportedPairs(subs, id) <= Pairs(subs, id, false)
    ensures ReportedPairs(subs, id) == Pairs(subs, id, false) <==> Counted(subs, id)
  {
    ReportedRoomWraps(subs, id, false);
    ReportedRoomWraps(subs, id, true);
    NoPrivateSame(subs, id, false, None);
    NoPrivateSame(subs, id, true, None);
    WrapSmall(Room(subs, id, false, false));
    WrapSmall(Room(subs, id, true, false));
  }

  ghost predicate AllCounted(subs: seq<State>, ids: set<nat>)
  {
    forall id :: id in ids ==> Counted(subs, id)
  }

  /** No term exceeds its true value, so the sums agree exactly when every term does. */
  lemma {:induction false} SumReportedExact(subs: seq<State>, ids: set<nat>)
    requires NoUnderflow(subs) && NoPrivate(subs)
    ensures SumReported(subs, ids) <= SumPairs(subs, ids, false)
    ensures SumReported(subs, ids) == SumPairs(subs, ids, false) <==> AllCounted(subs, ids)
    decreases ids
  {
    if ids != {} {
      var id :| id in ids;
      SumReportedExact(subs, ids - {id});
      SumReportedRemove(subs, ids, id);
      SumPairsRemove(subs, ids, false, id);
      ReportedPairsExact(subs, id);
      assert AllCounted(subs, ids) <==> AllCounted(subs, ids - {id}) && Counted(subs, id);
    }
  }

  /** With no private subnets the dual-stack report never exceeds the pairs that are left, and equals their number
      exactly when that number fits the counter and no counter of a net ID wraps below its own pairs. */
  lemma {:induction false} DualReportIsExact(s: NetState)
    requires NetInv(s) && NoPrivate(s.subnets)
    ensures ReportedDual(s.subnets) <= DualCapacity(s)
    ensures ReportedDual(s.subnets) == DualCapacity(s) <==>
            DualCapacity(s) < UINT32 && AllCounted(s.subnets, NetIDs(s.subnets))
  {
    NetInvCounts(s);
    SumReportedExact(s.subnets, NetIDs(s.subnets));
    WrapSmall(SumReported(s.subnets, NetIDs(s.subnets)));
  }

  // ---- Networks of admitted size ----

  /** The largest capacity of a subnet that admission accepts. */
  const MAX_SUBNET_CAPACITY: nat := 0x1_0000

  /** No subnet has more free addresses than admission accepts, and there are fewer than 2^16 subnets. */
  ghost predicate AdmittedSize(subs: seq<State>)
  {
    |subs| < 0x1_0000 && forall k :: 0 <= k < |subs| ==> FreeCount(subs[k]) <= MAX_SUBNET_CAPACITY
  }

  lemma {:induction false} TotalBound(subs: seq<State>, family: Option<bool>)
    requires forall k :: 0 <= k < |subs| ==> FreeCount(subs[k]) <= MAX_SUBNET_CAPACITY
    ensures Total(subs, family, false) <= |subs| * 0x1_0000
  {
    if subs != [] { TotalBound(subs[..|subs| - 1], family); }
  }

  lemma {:induction false} RoomBound(subs: seq<State>, id: nat, v6: bool)
    ensures Room(subs, id, v6, false) <= Total(subs, None, false)
  {
    if subs != [] { RoomBound(subs[..|subs| - 1], id, v6); }
  }

  /** The IPv4 room of a set of net IDs. */
  function RoomIn(subs: seq<State>, ids: set<nat>): nat
  {
    if subs == [] then 0
    else
      var st := subs[|subs| - 1];
      RoomIn(subs[..|subs| - 1], ids) + if NetID(st) in ids && !st.spec.ipv6 then RoomOf(st, false) else 0
  }

  lemma {:induction false} RoomInRemove(subs: seq<State>, ids: set<nat>, id: nat)
    requires id in ids
    ensures RoomIn(subs, ids) == Room(subs, id, false, false) + RoomIn(subs, ids - {id})
  {
    if subs != [] { RoomInRemove(subs[..|subs| - 1], ids, id); }
  }

  lemma {:induction false} RoomInBound(subs: seq<State>, ids: set<nat>)
    ensures RoomIn(subs, ids) <= Total(subs, None, false)
  {
    if subs != [] { RoomInBound(subs[..|subs| - 1], ids); }
  }

  /** The pairs of all net IDs are no more than the free addresses. */
  lemma {:induction false} PairsBound(subs: seq<State>, ids: set<nat>)
    ensures SumPairs(subs, ids, false) <= RoomIn(subs, ids)
    decreases ids
  {
    if ids != {} {
      var id :| id in ids;
      PairsBound(subs, ids - {id});
      SumPairsRemove(subs, ids, false, id);
      RoomInRemove(subs, ids, id);
    }
  }

  /** In a network of admitted size no counter wraps, so both reports are exact. */
  lemma {:induction false} AdmittedReportsAreExact(s: NetState, family: Option<bool>)
    requires NetInv(s) && NoPrivate(s.subnets) && AdmittedSize(s.subnets)
    ensures Reported(s.subnets, family).available == SingleCapacity(s, family)
    ensures ReportedDual(s.subnets) == DualCapacity(s)
  {
    var subs := s.subnets;
    TotalBound(subs, family);
    TotalBound(subs, None);
    SingleReportIsExact(s, family);
    PairsBound(subs, NetIDs(subs));
    RoomInBound(subs, NetIDs(subs));
    forall id | id in NetIDs(subs) ensures Counted(subs, id) {
      RoomBound(subs, id, false);
      RoomBound(subs, id, true);
      WrapSmall(Room(subs, id, false, false));
      WrapSmall(Room(subs, id, true, false));
    }
    DualReportIsExact(s);
  }

  // ---- The order in which the report looks at the subnets does not matter ----

  lemma {:induction false} RoomConcat(p: seq<State>, q: seq<State>, id: nat, v6: bool)
    ensures Room(p + q, id, v6, true) == Room(p, id, v6, true) + Room(q, id, v6, true)
  {
    if q == [] {
      assert p + q == p;
    } else {
      assert (p + q)[..|p + q| - 1] == p + q[..|q| - 1];
      RoomConcat(p, q[..|q| - 1], id, v6);
    }
  }

  lemma {:induction false} ReportedRoomRotated(subs: seq<State>, i: nat, id: nat, v6: bool)
    requires NoUnderflow(subs) && i <= |subs|
    ensures ReportedRoom(subs[i..] + subs[..i], id, v6) == ReportedRoom(subs, id, v6)
  {
    RoomConcat(subs[i..], subs[..i], id, v6);
    RoomConcat(subs[..i], subs[i..], id, v6);
    assert subs[..i] + subs[i..] == subs;
    ReportedRoomWraps(subs[i..] + subs[..i], id, v6);
    ReportedRoomWraps(subs, id, v6);
  }

  // ---- Reports that miss ----

  /** A subnet whose addresses are 1 to `size`, none of them used. */
  function Wide(name: string, v6: bool, ones: nat, size: nat): State
  {
    Sync(WideSpec(name, v6, ones, size), {}, None, None, map[])
  }

  lemma {:induction false} AllCandidates(spec: Spec, lo: nat)
    requires lo <= spec.end + 1 && forall v: nat :: lo <= v <= spec.end ==>
            SubnetModel.Contains(spec, Addr(spec.cidrV6, v))
    ensures |Candidates(spec, {}, lo)| == spec.end + 1 - lo
    decreases spec.end + 1 - lo
  {
    if lo <= spec.end { AllCandidates(spec, lo + 1); }
  }

  function WideSpec(name: string, v6: bool, ones: nat, size: nat): Spec
  {
    Spec(name, "n", None, v6, Net(0, ones), 1, size, None, {}, false, v6)
  }

  lemma {:induction false} WideContains(name: string, v6: bool, ones: nat, size: nat, v: nat)
    requires ones <= Width(v6) && 1 <= v <= size < Pow2(Width(v6) - ones)
    ensures SubnetModel.Contains(WideSpec(name, v6, ones, size), Addr(v6, v))
  {}

  /** What the witnesses below need of a subnet. */
  ghost predicate FreshCounts(st: State, name: string, v6: bool, size: nat)
  {
    FreeCount(st) == size && st.spec.name == name && st.spec.ipv6 == v6 && !st.spec.private && NetID(st) == 0
  }

  lemma {:induction false} WideIsFresh(name: string, v6: bool, ones: nat, size: nat)
    requires ones <= Width(v6) && size < Pow2(Width(v6) - ones)
    ensures Inv(Wide(name, v6, ones, size)) && FreshCounts(Wide(name, v6, ones, size), name, v6, size)
  {
    var spec := WideSpec(name, v6, ones, size);
    SyncEstablishes(spec, {}, None, None, map[]);
    forall v: nat | 1 <= v <= size ensures SubnetModel.Contains(spec,
                                                                Addr(v6, v)) { WideContains(name, v6, ones, size, v); }
    AllCandidates(spec, 1);
    assert SyncedUsed(spec, {}, map[]) == map[];
    assert SyncedReserved(spec, {}) == {};
  }

  lemma {:induction false} LargePowers()
    ensures Pow2(8) == 256 && Pow2(16) == 65536 && Pow2(32) == UINT32 && Pow2(64) > UINT32 + 3
  {
    assert Pow2(8) == 256;
    Pow2Split(8, 8);
    Pow2Split(16, 16);
    Pow2Monotone(33, 64);
    assert Pow2(33) == 2 * Pow2(32);
  }

  /** One IPv6 subnet with 2^32 free addresses is reported as full. */
  lemma {:induction false} SingleReportMisses()
    ensures var s := NetState([Wide("a", true, 64, UINT32)], 0);
            NetInv(s) && SingleCapacity(s, None) == UINT32 && Reported(s.subnets, None).available == 0
  {
    LargePowers();
    WideIsFresh("a", true, 64, UINT32);
    OneSubnet(Wide("a", true, 64, UINT32));
  }

  lemma {:induction false} OneSubnet(a: State)
    requires Inv(a) && FreshCounts(a, "a", true, UINT32)
    ensures NetInv(NetState([a], 0)) && Total([a], None, false) == UINT32 && Wrap(Sum([a], Free, None)) == 0
  {
    assert [a][..0] == [];
  }

  /** Ten IPv4 addresses beside 2^32 + 3 IPv6 addresses make ten pairs and a report of three. */
  lemma {:induction false} DualReportMisses()
    ensures var s := NetState([Wide("a", false, 24, 10), Wide("b", true, 64, UINT32 + 3)], 0);
            NetInv(s) && DualCapacity(s) == 10 && ReportedDual(s.subnets) == 3
  {
    LargePowers();
    WideIsFresh("a", false, 24, 10);
    WideIsFresh("b", true, 64, UINT32 + 3);
    TwoSubnets(Wide("a", false, 24, 10), Wide("b", true, 64, UINT32 + 3));
    TwoValid(Wide("a", false, 24, 10), Wide("b", true, 64, UINT32 + 3));
  }

  lemma {:induction false} TwoValid(a: State, b: State)
    requires Inv(a) && Inv(b) && a.spec.name == "a" && b.spec.name == "b"
    ensures NetInv(NetState([a, b], 0))
  {}

  lemma {:induction false} TwoSubnets(a: State, b: State)
    requires FreshCounts(a, "a", false, 10) && FreshCounts(b, "b", true, UINT32 + 3)
    ensures DualCapacity(NetState([a, b], 0)) == 10 && ReportedDual([a, b]) == 3
  {
    TwoRooms(a, b);
    assert NetIDs([a, b]) == {0} by { assert [a, b][0] == a && [a, b][1] == b; }
    SumPairsRemove([a, b], {0}, false, 0);
    SumReportedRemove([a, b], {0}, 0);
  }

  lemma {:induction false} TwoRooms(a: State, b: State)
    requires FreshCounts(a, "a", false, 10) && FreshCounts(b, "b", true, UINT32 + 3)
    ensures Room([a, b], 0, false, false) == 10 && Room([a, b], 0, true, false) == UINT32 + 3
    ensures ReportedRoom([a, b], 0, false) == 10 && ReportedRoom([a, b], 0, true) == 3
  {
    assert [a, b][..1] == [a] && [a][..0] == [];
    assert Room([a], 0, false, false) == 10 && Room([a], 0, true, false) == 0;
    assert ReportedRoom([a], 0, false) == 10 && ReportedRoom([a], 0, true) == 0;
  }
}
