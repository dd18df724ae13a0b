/** The value of an IPAM subnet and of every operation on it (pkg/ipam/types/ip.go and subnet.go).

    Addresses stand for their canonical texts, so the string keys of the source are addresses here. */
module SubnetModel {
  import opened Wrappers
  import opened Dyadic
  import AddressRanges

  datatype Addr = Addr(v6: bool, value: nat)

  const STATUS_USING := "Using"
  const STATUS_RESERVED := "Reserved"

  /** The record of one used address. */
  datatype IP = IP(address: Addr, ones: nat, gateway: Option<Addr>, netID: Option<nat>, subnet: string,
                   network: string, podName: string, podNamespace: string, status: string)

  type IPSet = map<Addr, IP>

  /** Empty arguments leave the field alone. */
  function Update(s: IPSet, a: Addr, podName: string, podNamespace: string, status: string): IPSet
  {
    if a !in s then s
    else
      var ip := s[a];
      s[a := ip.(podName := if |podName| > 0 then podName else ip.podName,
                 podNamespace := if |podNamespace| > 0 then podNamespace else ip.podNamespace,
                 status := if |status| > 0 then status else ip.status)]
  }

  datatype Spec = Spec(name: string, network: string, netID: Option<nat>, cidrV6: bool, cidr: Net,
                       start: nat, end: nat, gateway: Option<Addr>, blackList: set<Addr>, private: bool, ipv6: bool)

  /** An allocatable address of the subnet: in the CIDR and the range, not the gateway, not black-listed. */
  predicate Contains(spec: Spec, a: Addr)
  {
    && a.v6 == spec.cidrV6 && Dyadic.Contains(Width(spec.cidrV6), spec.cidr, a.value)
    && spec.start <= a.value <= spec.end
    && spec.gateway != Some(a)
    && a !in spec.blackList
  }

  // ---- Canonical subnets ----

  /** A subnet as it is read from the API server. */
  datatype RawSpec = RawSpec(name: string, network: string, netID: Option<nat>, cidrV6: bool, cidr: Net,
                             start: Option<Addr>, end: Option<Addr>, gateway: Option<Addr>, blackList: set<Addr>,
                             private: bool, ipv6: bool)

  predicate InCIDR(raw: RawSpec, a: Option<Addr>)
  {
    a.Some? ==> a.value.v6 == raw.cidrV6 && Dyadic.Contains(Width(raw.cidrV6), raw.cidr, a.value.value)
  }

  /** `Validate`: names, a prefix of at least two host bits without host bits set, and start, end and gateway inside. */
  predicate Wellformed(raw: RawSpec)
  {
    && raw.name != "" && raw.network != ""
    && raw.cidr.ones + 2 <= Width(raw.cidrV6) && IsNet(Width(raw.cidrV6), raw.cidr)
    && InCIDR(raw, raw.gateway) && InCIDR(raw, raw.start) && InCIDR(raw, raw.end)
  }

  /** `Canonicalize` of a well-formed subnet: a missing start is the address after the network address, a missing end
      the last address, for IPv4 without the broadcast address. */
  function Canonicalized(raw: RawSpec): Spec
    requires raw.cidr.ones <= Width(raw.cidrV6)
  {
    Spec(raw.name, raw.network, raw.netID, raw.cidrV6, raw.cidr,
         if raw.start.Some? then raw.start.value.value else raw.cidr.base + 1,
         if raw.end.Some? then raw.end.value.value else AddressRanges.LastIP(raw.cidrV6, raw.cidr),
         raw.gateway, raw.blackList, raw.private, raw.ipv6)
  }

  /** The address is none of the block's own. */
  predicate Outside(raw: RawSpec, a: Option<Addr>)
    requires raw.cidr.ones <= Width(raw.cidrV6)
  {
    a.Some? && (a.value.v6 != raw.cidrV6 || a.value.value < raw.cidr.base
                || Last(Width(raw.cidrV6), raw.cidr) < a.value.value)
  }

  /** A subnet is refused exactly when a name is missing, its block has fewer than four addresses, host bits set or an
      end outside the address space, or its gateway, start or end is not an address of the block. */
  lemma {:induction false} RefusedIff(raw: RawSpec)
    requires raw.cidr.ones <= Width(raw.cidrV6)
    ensures var size := Pow2(Width(raw.cidrV6) - raw.cidr.ones);
            !Wellformed(raw) <==>
            || raw.name == "" || raw.network == ""
            || size < 4 || raw.cidr.base % size != 0 || raw.cidr.base + size > Pow2(Width(raw.cidrV6))
            || Outside(raw, raw.gateway) || Outside(raw, raw.start) || Outside(raw, raw.end)
  {
    var k := Width(raw.cidrV6) - raw.cidr.ones;
    assert Pow2(0) == 1 && Pow2(1) == 2 && Pow2(2) == 4;
    if k >= 2 { Pow2Monotone(2, k); }
  }

  /** Canonicalizing sets the range and nothing else. */
  lemma {:induction false} CanonicalFields(raw: RawSpec)
    requires Wellformed(raw)
    ensures var spec := Canonicalized(raw);
            && spec.name == raw.name && spec.network == raw.network && spec.netID == raw.netID
            && spec.cidrV6 == raw.cidrV6 && spec.cidr == raw.cidr && spec.gateway == raw.gateway
            && spec.blackList == raw.blackList && spec.private == raw.private && spec.ipv6 == raw.ipv6
  {}

  /** The range lies inside the CIDR. */
  ghost predicate CanonicalSpec(spec: Spec)
  {
    var w := Width(spec.cidrV6);
    IsNet(w, spec.cidr) && Dyadic.Contains(w, spec.cidr, spec.start) && Dyadic.Contains(w, spec.cidr, spec.end)
  }

  /** A canonical subnet has its range inside its CIDR; without a start the network address is not allocatable, without
      an end the IPv4 broadcast address is not, and every other address that neither bound nor gateway nor black list
      excludes is. */
  lemma {:induction false} CanonicalRange(raw: RawSpec, a: Addr)
    requires Wellformed(raw)
    ensures CanonicalSpec(Canonicalized(raw))
    ensures Contains(Canonicalized(raw), a) <==>
            && InCIDR(raw, Some(a)) && raw.gateway != Some(a) && a !in raw.blackList
            && (if raw.start.Some? then raw.start.value.value <= a.value else a.value != raw.cidr.base)
            && (if raw.end.Some? then a.value <= raw.end.value.value
                else raw.cidrV6 || a.value != Last(Width(raw.cidrV6), raw.cidr))
  {
    Pow2Monotone(2, Width(raw.cidrV6) - raw.cidr.ones);
    assert Pow2(1) == 2 && Pow2(2) == 4;
    if !raw.cidrV6 { AddressRanges.LastIPInside(raw.cidr); }
  }

  /** `ips`, `index` are the fields of the cyclic slice of available addresses; `index` is -1 before the first
      allocation. */
  datatype State = State(spec: Spec, reserved: set<Addr>, ips: seq<Addr>, index: int, used: IPSet)

  function Record(spec: Spec, a: Addr, podName: string, podNamespace: string, status: string): IP
  {
    IP(a, spec.cidr.ones, spec.gateway, spec.netID, spec.name, spec.network, podName, podNamespace, status)
  }

  /** The record carries the data of the subnet it belongs to. */
  predicate Describes(spec: Spec, ip: IP)
  {
    && ip.ones == spec.cidr.ones && ip.gateway == spec.gateway && ip.netID == spec.netID
    && ip.subnet == spec.name && ip.network == spec.network
  }

  predicate RecordedFor(ip: IP, podName: string, podNamespace: string)
  {
    ip.podName == podName && ip.podNamespace == podNamespace && ip.status == STATUS_USING
  }

  // ---- Sync ----

  /** The available addresses from `lo` on, in ascending order. */
  function Candidates(spec: Spec, reserved: set<Addr>, lo: nat): seq<Addr>
    decreases spec.end + 1 - lo
  {
    if lo > spec.end then []
    else
      var a := Addr(spec.cidrV6, lo);
      (if Contains(spec, a) && a !in reserved then [a] else []) + Candidates(spec, reserved, lo + 1)
  }

  function IndexOf(ips: seq<Addr>, last: Option<Addr>): int
  {
    if last.None? || last.value !in ips then -1
    else if ips[|ips| - 1] == last.value then |ips| - 1
    else IndexOf(ips[..|ips| - 1], last)
  }

  function InheritNetID(spec: Spec, parentNetID: Option<nat>): Spec
  {
    if spec.netID.None? then spec.(netID := parentNetID) else spec
  }

  function SyncedReserved(spec: Spec, reservedList: set<Addr>): set<Addr>
  {
    set a | a in reservedList && Contains(spec, a)
  }

  function SyncedUsed(spec: Spec, reserved: set<Addr>, ipSet: IPSet): IPSet
  {
    var valid := map a | a in ipSet && ipSet[a].subnet == spec.name && Contains(spec, ipSet[a].address) :: ipSet[a];
    map a | a in valid.Keys + reserved :: if a in valid then valid[a] else Record(spec, a, "", "", STATUS_RESERVED)
  }

  function Sync(spec: Spec, reservedList: set<Addr>, last: Option<Addr>, parentNetID: Option<nat>, ipSet: IPSet): State
  {
    var sp := InheritNetID(spec, parentNetID);
    var reserved := SyncedReserved(sp, reservedList);
    var ips := Candidates(sp, reserved, sp.start);
    State(sp, reserved, ips, IndexOf(ips, last), SyncedUsed(sp, reserved, ipSet))
  }

  // ---- Allocation ----

  /** The cursor moves cyclically; from -1 it moves to the front. */
  function Next(index: int, n: nat): (r: int)
    requires n > 0 && -1 <= index < n
    ensures r == if index + 1 == n then 0 else index + 1
  {
    (index + 1) % n
  }

  /** Move the cursor until it stands on an unused address, at most `steps` times. */
  function Scan(ips: seq<Addr>, index: int, used: set<Addr>, steps: nat): (r: (int, Option<Addr>))
    requires steps > 0 ==> ips != [] && -1 <= index < |ips|
    decreases steps
  {
    if steps == 0 then (index, None)
    else
      var next := Next(index, |ips|);
      if ips[next] !in used then (next, Some(ips[next])) else Scan(ips, next, used, steps - 1)
  }

  function AllocateNext(s: State, podName: string, podNamespace: string): (r: (State, Option<IP>))
    requires -1 <= s.index && (s.ips == [] || s.index < |s.ips|)
  {
    var (index, found) := Scan(s.ips, s.index, s.used.Keys, |s.ips|);
    if found.None? then (s.(index := index), None)
    else
      var ip := Record(s.spec, found.value, podName, podNamespace, STATUS_USING);
      (s.(index := index, used := s.used[found.value := ip]), Some(ip))
  }

  function Assign(s: State, podName: string, podNamespace: string, a: Addr, forced: bool): (r: (State, Option<IP>))
  {
    if !Contains(s.spec, a) then (s, None)
    else if a !in s.used then
      var used := s.used[a := Record(s.spec, a, podName, podNamespace, STATUS_USING)];
      (s.(used := used), Some(used[a]))
    else if (s.used[a].podNamespace == podNamespace && s.used[a].podName == podName)
        || (forced && s.used[a].status == STATUS_RESERVED) then
      var used := Update(s.used, a, podName, podNamespace, STATUS_USING);
      (s.(used := used), Some(used[a]))
    else (s, None)
  }

  function Release(s: State, a: Addr): State
  {
    if a in s.reserved then s.(used := Update(s.used, a, "", "", STATUS_RESERVED))
    else s.(used := s.used - {a})
  }

  // ---- Counters ----

  /** Used addresses without the reserved ones. */
  function UsedCount(s: State): int
  {
    |s.used| - |s.reserved|
  }

  function FreeCount(s: State): int
  {
    |s.ips| - UsedCount(s)
  }

  predicate IsAvailable(s: State)
  {
    |s.ips| > UsedCount(s) && !s.spec.private
  }

  // ---- The invariant ----

  /** Holds after Sync and is kept by every operation. */
  ghost predicate Inv(s: State)
  {
    && -1 <= s.index && (s.ips == [] ==> s.index == -1) && (s.ips != [] ==> s.index < |s.ips|)
    && s.ips == Candidates(s.spec, s.reserved, s.spec.start)
    && s.reserved <= s.used.Keys
    && (forall a :: a in s.reserved ==> Contains(s.spec, a))
    && (forall a :: a in s.used ==> Contains(s.spec, a) && s.used[a].address == a && s.used[a].subnet == s.spec.name)
  }

  lemma {:induction false} CandidatesExact(spec: Spec, reserved: set<Addr>, lo: nat, a: Addr)
    ensures a in Candidates(spec, reserved, lo) <==> Contains(spec, a) && a !in reserved && lo <= a.value
    decreases spec.end + 1 - lo
  {
    if lo <= spec.end {
      CandidatesExact(spec, reserved, lo + 1, a);
    }
  }

  ghost predicate Ascending(ips: seq<Addr>)
  {
    forall i, j :: 0 <= i < j < |ips| ==> ips[i].value < ips[j].value
  }

  lemma {:induction false} CandidatesAscend(spec: Spec, reserved: set<Addr>, lo: nat)
    ensures Ascending(Candidates(spec, reserved, lo))
    decreases spec.end + 1 - lo
  {
    if lo <= spec.end {
      CandidatesAscend(spec, reserved, lo + 1);
      var rest := Candidates(spec, reserved, lo + 1);
      forall i | 0 <= i < |rest| ensures lo < rest[i].value {
        assert rest[i] in rest;
        CandidatesExact(spec, reserved, lo + 1, rest[i]);
      }
      var ips := Candidates(spec, reserved, lo);
      if |ips| > |rest| {
        assert ips == [Addr(spec.cidrV6, lo)] + rest;
        forall i, j | 0 <= i < j < |ips| ensures ips[i].value < ips[j].value {
          assert ips[j] == rest[j - 1];
          if i > 0 { assert ips[i] == rest[i - 1]; }
        }
      } else {
        assert ips == rest;
      }
    }
  }

  ghost function Elements(ips: seq<Addr>): set<Addr>
  {
    set a | a in ips
  }

  lemma {:induction false} DistinctCount(ips: seq<Addr>)
    requires Ascending(ips)
    ensures |Elements(ips)| == |ips|
  {
    if ips != [] {
      var init, a := ips[..|ips| - 1], ips[|ips| - 1];
      DistinctCount(init);
      assert ips == init + [a];
      assert Elements(ips) == Elements(init) + {a};
      assert a !in init;
    }
  }

  lemma {:induction false} SubsetCount<T>(p: set<T>, q: set<T>)
    requires p <= q
    ensures |p| <= |q|
    ensures p != q ==> |p| < |q|
  {
    assert q == p + (q - p);
    if p != q { var x :| x in q - p; assert |q - p| > 0; }
  }

  /** The facts about the slice that the invariant fixes. */
  lemma {:induction false} SliceFacts(s: State)
    requires Inv(s)
    ensures forall a :: a in s.ips <==> Contains(s.spec, a) && a !in s.reserved
    ensures Ascending(s.ips)
    ensures |Elements(s.ips)| == |s.ips|
  {
    forall a { CandidatesExact(s.spec, s.reserved, s.spec.start, a); }
    CandidatesAscend(s.spec, s.reserved, s.spec.start);
    DistinctCount(s.ips);
  }

  /** Used + Available = Total without underflow; the subnet has room exactly when some available address is free. */
  lemma {:induction false} Accounting(s: State)
    requires Inv(s)
    ensures UsedCount(s) == |s.used.Keys - s.reserved|
    ensures 0 <= UsedCount(s) <= |s.ips|
    ensures UsedCount(s) + FreeCount(s) == |s.ips|
    ensures FreeCount(s) > 0 <==> exists a :: a in s.ips && a !in s.used
  {
    SliceFacts(s);
    var held := s.used.Keys - s.reserved;
    assert s.used.Keys == held + s.reserved;
    assert |s.used| == |s.used.Keys|;
    assert held <= Elements(s.ips);
    SubsetCount(held, Elements(s.ips));
    if a :| a in s.ips && a !in s.used {
      assert a in Elements(s.ips) && a !in held;
    } else {
      assert Elements(s.ips) == held;
    }
  }

  // ---- Scanning ----

  /** Where the cursor stands after `k` moves. */
  function Position(index: int, n: nat, k: nat): (p: int)
    requires n > 0 && -1 <= index < n
    ensures -1 <= p < n && (k > 0 ==> 0 <= p)
  {
    if k == 0 then index else Next(Position(index, n, k - 1), n)
  }

  lemma {:induction false} PositionShift(index: int, n: nat, k: nat)
    requires n > 0 && -1 <= index < n
    ensures Position(Next(index, n), n, k) == Position(index, n, k + 1)
  {
    if k > 0 { PositionShift(index, n, k - 1); }
  }

  /** The scan's result: it stopped after `k` moves, on the first unused address if it found one. */
  ghost predicate Stopped(ips: seq<Addr>, index: int, used: set<Addr>, k: nat, i: int, found: Option<Addr>)
    requires ips != [] && -1 <= index < |ips|
  {
    && i == Position(index, |ips|, k)
    && (forall j :: 1 <= j < k ==> ips[Position(index, |ips|, j)] in used)
    && (k > 0 ==> (ips[i] in used <==> found.None?))
    && (found.Some? ==> k > 0 && found == Some(ips[i]))
  }

  lemma {:induction false} ScanStops(ips: seq<Addr>, index: int, used: set<Addr>, steps: nat) returns (k: nat)
    requires ips != [] && -1 <= index < |ips|
    ensures var (i, found) := Scan(ips, index, used, steps);
            Stopped(ips, index, used, k, i, found) && k <= steps && (found.None? ==> k == steps)
    decreases steps
  {
    if steps == 0 { return 0; }
    var next := Next(index, |ips|);
    assert Position(index, |ips|, 1) == next by { assert Position(index, |ips|, 0) == index; }
    if ips[next] !in used { return 1; }
    k := ScanStops(ips, next, used, steps - 1);
    assert Scan(ips, index, used, steps) == Scan(ips, next, used, steps - 1);
    PositionShift(index, |ips|, k);
    forall j | 1 <= j < k + 1 ensures ips[Position(index, |ips|, j)] in used {
      PositionShift(index, |ips|, j - 1);
    }
    k := k + 1;
  }

  lemma {:induction false} PositionCompose(index: int, n: nat, j: nat, k: nat)
    requires n > 0 && -1 <= index < n
    ensures Position(Position(index, n, j), n, k) == Position(index, n, j + k)
  {
    if k > 0 { PositionCompose(index, n, j, k - 1); }
  }

  lemma {:induction false} PositionClosed(index: int, n: nat, k: nat)
    requires n > 0 && -1 <= index < n && k <= n
    ensures Position(index, n, k) == if index + k < n then index + k else index + k - n
  {
    if k > 0 { PositionClosed(index, n, k - 1); }
  }

  /** One turn of the cursor reaches every position. */
  lemma {:induction false} FullTurn(index: int, n: nat, p: nat) returns (k: nat)
    requires n > 0 && -1 <= index < n && p < n
    ensures 1 <= k <= n && Position(index, n, k) == p
  {
    k := if p > index then p - index else n + p - index;
    PositionClosed(index, n, k);
  }

  // ---- What the operations do ----

  lemma {:induction false} ScanFinds(ips: seq<Addr>, index: int, used: set<Addr>)
    requires ips != [] && -1 <= index < |ips|
    ensures var (i, found) := Scan(ips, index, used, |ips|);
            && 0 <= i < |ips|
            && (found.Some? ==> found.value == ips[i] && ips[i] !in used)
            && (found.None? ==> forall a :: a in ips ==> a in used)
  {
    var k := ScanStops(ips, index, used, |ips|);
    var (i, found) := Scan(ips, index, used, |ips|);
    if found.None? {
      forall a | a in ips ensures a in used {
        var p :| 0 <= p < |ips| && ips[p] == a;
        var j := FullTurn(index, |ips|, p);
      }
    }
  }

  /** Recording one more free address of the slice keeps the invariant and uses up exactly one. */
  lemma {:induction false} TakeOne(s: State, a: Addr, podName: string, podNamespace: string)
    requires Inv(s) && a in s.ips && a !in s.used
    ensures var s' := s.(used := s.used[a := Record(s.spec, a, podName, podNamespace, STATUS_USING)]);
            Inv(s') && FreeCount(s') == FreeCount(s) - 1
  {
    SliceFacts(s);
    var used' := s.used[a := Record(s.spec, a, podName, podNamespace, STATUS_USING)];
    assert used'.Keys == s.used.Keys + {a};
  }

  lemma {:induction false} MoveCursor(s: State, index: int)
    requires Inv(s) && s.ips != [] && 0 <= index < |s.ips|
    ensures Inv(s.(index := index))
  {}

  /** Two records of one address that differ in the pod and the status only. */
  predicate SameSubnetData(p: IP, q: IP)
  {
    && q.address == p.address && q.ones == p.ones && q.gateway == p.gateway && q.netID == p.netID
    && q.subnet == p.subnet && q.network == p.network
  }

  /** An allocation succeeds exactly when some address is free, hands out a free address of the slice,
      records it for the pod, and uses up exactly one; a failed one changes no holder. */
  lemma {:induction false} AllocateNextSpec(s: State, podName: string, podNamespace: string)
    requires Inv(s)
    ensures var (s', r) := AllocateNext(s, podName, podNamespace);
            && Inv(s') && s'.spec == s.spec && s'.reserved == s.reserved && s'.ips == s.ips
            && (r.Some? <==> FreeCount(s) > 0)
            && (r.Some? ==> var a := r.value.address;
                            && a in s.ips && a !in s.used && a !in s.reserved
                            && s'.used == s.used[a := r.value]
                            && Describes(s.spec, r.value) && RecordedFor(r.value, podName, podNamespace)
                            && FreeCount(s') == FreeCount(s) - 1)
            && (r.None? ==> s'.used == s.used && FreeCount(s') == FreeCount(s))
  {
    Accounting(s);
    if s.ips != [] {
      ScanFinds(s.ips, s.index, s.used.Keys);
      var (i, found) := Scan(s.ips, s.index, s.used.Keys, |s.ips|);
      MoveCursor(s, i);
      if found.Some? {
        assert s.ips[i] in s.ips;
        TakeOne(s.(index := i), s.ips[i], podName, podNamespace);
      }
    }
  }

  /** IsAvailable predicts AllocateNext. */
  lemma {:induction false} AvailableIffAllocates(s: State, podName: string, podNamespace: string)
    requires Inv(s)
    ensures IsAvailable(s) <==> !s.spec.private && AllocateNext(s, podName, podNamespace).1.Some?
  {
    AllocateNextSpec(s, podName, podNamespace);
    Accounting(s);
  }

  lemma {:induction false} AssignKeepsInv(s: State, podName: string, podNamespace: string, a: Addr, forced: bool)
    requires Inv(s)
    ensures var (s', r) := Assign(s, podName, podNamespace, a, forced);
            && Inv(s') && s'.spec == s.spec && s'.reserved == s.reserved && s'.ips == s.ips && s'.index == s.index
            && (r.None? ==> s' == s)
            && (r.Some? ==> r.value == s'.used[a] && r.value.address == a && r.value.status == STATUS_USING)
            && (r.Some? && a !in s.used ==> Describes(s.spec, r.value) && RecordedFor(r.value, podName, podNamespace))
            && (r.Some? && a in s.used ==> SameSubnetData(s.used[a], r.value))
            && s'.used.Keys == (if r.Some? then s.used.Keys + {a} else s.used.Keys)
            && forall b :: b in s.used && b != a ==> s'.used[b] == s.used[b]
  {}

  lemma {:induction false} ReleaseKeepsInv(s: State, a: Addr)
    requires Inv(s)
    ensures var s' := Release(s, a);
            && Inv(s') && s'.spec == s.spec && s'.reserved == s.reserved && s'.ips == s.ips && s'.index == s.index
            && s'.used.Keys == (if a in s.reserved then s.used.Keys else s.used.Keys - {a})
            && forall b :: b in s'.used && b != a ==> s'.used[b] == s.used[b]
  {}

  /** A record is filed under its own address. */
  ghost predicate Canonical(ipSet: IPSet)
  {
    forall a :: a in ipSet ==> ipSet[a].address == a
  }

  lemma {:induction false} IndexOfBounds(ips: seq<Addr>, last: Option<Addr>)
    ensures -1 <= IndexOf(ips, last) && (ips == [] ==> IndexOf(ips, last) == -1)
    ensures (ips != [] ==> IndexOf(ips, last) < |ips|)
    ensures IndexOf(ips, last) >= 0 ==> last == Some(ips[IndexOf(ips, last)])
  {
    if last.Some? && last.value in ips && ips[|ips| - 1] != last.value {
      IndexOfBounds(ips[..|ips| - 1], last);
    }
  }

  lemma {:induction false} SyncEstablishes(spec: Spec, reservedList: set<Addr>, last: Option<Addr>,
                                           parentNetID: Option<nat>, ipSet: IPSet)
    requires Canonical(ipSet)
    ensures Inv(Sync(spec, reservedList, last, parentNetID, ipSet))
  {
    var sp := InheritNetID(spec, parentNetID);
    IndexOfBounds(Candidates(sp, SyncedReserved(sp, reservedList), sp.start), last);
  }

  /** The record that Sync takes over for this subnet. */
  ghost predicate OwnRecord(spec: Spec, ipSet: IPSet, a: Addr)
  {
    a in ipSet && ipSet[a].subnet == spec.name && Contains(spec, ipSet[a].address)
  }

  /** Sync fills in a missing net ID from the network and leaves the rest of the subnet as it was; it keeps the reserved
      addresses that are allocatable, and the slice holds the other allocatable addresses in order. */
  lemma {:induction false} SyncFields(spec: Spec, reservedList: set<Addr>, last: Option<Addr>,
                                      parentNetID: Option<nat>, ipSet: IPSet)
    ensures var t := Sync(spec, reservedList, last, parentNetID, ipSet);
            && t.spec.netID == (if spec.netID.Some? then spec.netID else parentNetID)
            && t.spec == spec.(netID := t.spec.netID)
            && (forall a :: a in t.reserved <==> a in reservedList && Contains(spec, a))
            && (forall a :: a in t.ips <==> Contains(spec, a) && a !in reservedList) && Ascending(t.ips)
  {
    var t := Sync(spec, reservedList, last, parentNetID, ipSet);
    forall a ensures Contains(t.spec, a) <==> Contains(spec, a) {}
    forall a { CandidatesExact(t.spec, t.reserved, t.spec.start, a); }
    CandidatesAscend(t.spec, t.reserved, t.spec.start);
  }

  /** Sync takes over exactly the recorded addresses of the subnet, as they are recorded, and holds every other reserved
      address without a pod. */
  lemma {:induction false} SyncHolders(spec: Spec, reservedList: set<Addr>, last: Option<Addr>,
                                       parentNetID: Option<nat>, ipSet: IPSet, a: Addr)
    ensures var t := Sync(spec, reservedList, last, parentNetID, ipSet);
            && (a in t.used <==> OwnRecord(spec, ipSet, a) || a in t.reserved)
            && (OwnRecord(spec, ipSet, a) ==> t.used[a] == ipSet[a])
            && (a in t.reserved && !OwnRecord(spec, ipSet, a) ==>
                  && t.used[a].address == a && Describes(t.spec, t.used[a])
                  && t.used[a].podName == "" && t.used[a].podNamespace == "" && t.used[a].status == STATUS_RESERVED)
  {}

  /** The cursor stands on the last allocated address, or before the first one if that is not in the slice. */
  lemma {:induction false} SyncCursor(spec: Spec, reservedList: set<Addr>, last: Option<Addr>,
                                      parentNetID: Option<nat>, ipSet: IPSet)
    ensures var t := Sync(spec, reservedList, last, parentNetID, ipSet);
            if last.Some? && last.value in t.ips then 0 <= t.index < |t.ips| && t.ips[t.index] == last.value
            else t.index == -1
  {
    IndexOfFinds(Sync(spec, reservedList, last, parentNetID, ipSet).ips, last);
  }

  lemma {:induction false} IndexOfFinds(ips: seq<Addr>, last: Option<Addr>)
    ensures var i := IndexOf(ips, last);
            if last.Some? && last.value in ips then 0 <= i < |ips| && ips[i] == last.value else i == -1
  {
    if last.Some? && last.value in ips && ips[|ips| - 1] != last.value {
      assert ips == ips[..|ips| - 1] + [ips[|ips| - 1]];
      IndexOfFinds(ips[..|ips| - 1], last);
    }
  }

  // ---- Rebuilding a subnet from its own status ----

  function Current(s: State): Option<Addr>
    requires s.index < |s.ips|
  {
    if s.index < 0 then None else Some(s.ips[s.index])
  }

  lemma {:induction false} IndexOfCurrent(ips: seq<Addr>, i: nat)
    requires Ascending(ips) && i < |ips|
    ensures IndexOf(ips, Some(ips[i])) == i
  {
    if i < |ips| - 1 {
      assert ips[..|ips| - 1][i] == ips[i];
      IndexOfCurrent(ips[..|ips| - 1], i);
    }
  }

  /** Re-running Sync with the subnet's own holders and its current address rebuilds the same subnet:
      same slice, same cursor, same reserved addresses and same holders. */
  lemma {:induction false} SyncIsIdempotent(s: State, parentNetID: Option<nat>)
    requires Inv(s) && (s.spec.netID.None? ==> parentNetID.None?)
    ensures Sync(s.spec, s.reserved, Current(s), parentNetID, s.used) == s
  {
    SliceFacts(s);
    if s.index >= 0 { IndexOfCurrent(s.ips, s.index); }
    assert SyncedReserved(s.spec, s.reserved) == s.reserved;
    assert SyncedUsed(s.spec, s.reserved, s.used) == s.used;
  }

  // ---- Runs ----

  datatype Op =
    | Allocate(podName: string, podNamespace: string)
    | AssignTo(podName: string, podNamespace: string, a: Addr, forced: bool)
    | ReleaseOf(a: Addr)

  function Step(s: State, op: Op): State
    requires -1 <= s.index && (s.ips == [] || s.index < |s.ips|)
  {
    match op
    case Allocate(p, ns) => AllocateNext(s, p, ns).0
    case AssignTo(p, ns, a, forced) => Assign(s, p, ns, a, forced).0
    case ReleaseOf(a) => Release(s, a)
  }

  lemma {:induction false} StepKeepsInv(s: State, op: Op)
    requires Inv(s)
    ensures Inv(Step(s, op)) && Step(s, op).spec == s.spec && Step(s, op).ips == s.ips
    ensures Step(s, op).reserved == s.reserved
  {
    match op
    case Allocate(p, ns) => AllocateNextSpec(s, p, ns);
    case AssignTo(p, ns, a, forced) => AssignKeepsInv(s, p, ns, a, forced);
    case ReleaseOf(a) => ReleaseKeepsInv(s, a);
  }

  /** The state after a run. */
  ghost function Run(s: State, ops: seq<Op>): (s': State)
    requires Inv(s)
    ensures Inv(s') && s'.spec == s.spec && s'.ips == s.ips && s'.reserved == s.reserved
    decreases |ops|
  {
    if ops == [] then s
    else
      StepKeepsInv(s, ops[0]);
      Run(Step(s, ops[0]), ops[1..])
  }

  /** In every state reached by Sync and any run of operations: reserved addresses are held, every other
      used address is one of the slice, the counters add up, and IsAvailable predicts the next allocation. */
  lemma {:induction false} ReachableStates(spec: Spec, reservedList: set<Addr>, last: Option<Addr>,
                                           parentNetID: Option<nat>, ipSet: IPSet, ops: seq<Op>, podName: string,
                                           podNamespace: string)
    requires Canonical(ipSet)
    ensures var s0 := Sync(spec, reservedList, last, parentNetID, ipSet);
            Inv(s0) &&
            var s := Run(s0, ops);
            && s.reserved <= s.used.Keys
            && (forall a :: a in s.used && a !in s.reserved ==> a in s.ips)
            && 0 <= UsedCount(s) <= |s.ips| && UsedCount(s) + FreeCount(s) == |s.ips|
            && UsedCount(s) == |s.used.Keys - s.reserved|
            && (IsAvailable(s) <==> !s.spec.private && AllocateNext(s, podName, podNamespace).1.Some?)
  {
    SyncEstablishes(spec, reservedList, last, parentNetID, ipSet);
    var s := Run(Sync(spec, reservedList, last, parentNetID, ipSet), ops);
    SliceFacts(s);
    Accounting(s);
    AvailableIffAllocates(s, podName, podNamespace);
  }

  // ---- Round robin ----

  /** One look of the cursor at an address, and the addresses in use at that moment. */
  datatype Visit = Visit(addr: Addr, used: set<Addr>)

  function ScanVisits(ips: seq<Addr>, index: int, used: set<Addr>, steps: nat): seq<Visit>
    requires steps > 0 ==> ips != [] && -1 <= index < |ips|
    decreases steps
  {
    if steps == 0 then []
    else
      var next := Next(index, |ips|);
      [Visit(ips[next], used)] + if ips[next] !in used then [] else ScanVisits(ips, next, used, steps - 1)
  }

  function Visits(s: State, op: Op): seq<Visit>
    requires -1 <= s.index && (s.ips == [] || s.index < |s.ips|)
  {
    if op.Allocate? then ScanVisits(s.ips, s.index, s.used.Keys, |s.ips|) else []
  }

  /** Everything the cursor looked at during a run. */
  ghost function Log(s: State, ops: seq<Op>): seq<Visit>
    requires Inv(s)
    decreases |ops|
  {
    if ops == [] then []
    else
      StepKeepsInv(s, ops[0]);
      Visits(s, ops[0]) + Log(Step(s, ops[0]), ops[1..])
  }

  /** The looks follow the cyclic order of the slice, starting after `index`. */
  ghost predicate Cyclic(ips: seq<Addr>, index: int, log: seq<Visit>)
    requires ips != [] && -1 <= index < |ips|
  {
    forall j :: 0 <= j < |log| ==> Looks(ips, index, log, j)
  }

  ghost predicate Looks(ips: seq<Addr>, index: int, log: seq<Visit>, j: nat)
    requires ips != [] && -1 <= index < |ips| && j < |log|
  {
    log[j].addr == ips[Position(index, |ips|, j + 1)]
  }

  lemma {:induction false} CyclicConcat(ips: seq<Addr>, index: int, v: seq<Visit>, rest: seq<Visit>)
    requires ips != [] && -1 <= index < |ips|
    requires Cyclic(ips, index, v) && Cyclic(ips, Position(index, |ips|, |v|), rest)
    ensures Cyclic(ips, index, v + rest)
    ensures Position(Position(index, |ips|, |v|), |ips|, |rest|) == Position(index, |ips|, |v + rest|)
  {
    forall j | 0 <= j < |v + rest| ensures Looks(ips, index, v + rest, j) {
      if j < |v| {
        assert Looks(ips, index, v, j);
      } else {
        assert Looks(ips, Position(index, |ips|, |v|), rest, j - |v|);
        PositionCompose(index, |ips|, |v|, j - |v| + 1);
      }
    }
    PositionCompose(index, |ips|, |v|, |rest|);
  }

  /** The last look of an allocation is the address it hands out; every other one was in use. */
  lemma {:induction false} ScanVisitsMeaning(ips: seq<Addr>, index: int, used: set<Addr>, steps: nat)
    requires ips != [] && -1 <= index < |ips|
    ensures var (i, found) := Scan(ips, index, used, steps);
            var v := ScanVisits(ips, index, used, steps);
            && (forall j :: 0 <= j < |v| ==> v[j].used == used)
            && (forall j :: 0 <= j < |v| ==> v[j].addr in used || found == Some(v[j].addr))
            && (found.Some? ==> v != [] && found.value == v[|v| - 1].addr && found.value !in used)
            && i == Position(index, |ips|, |v|)
            && Cyclic(ips, index, v)
    decreases steps
  {
    if steps > 0 {
      var next := Next(index, |ips|);
      assert Position(index, |ips|, 1) == next by { assert Position(index, |ips|, 0) == index; }
      var first := [Visit(ips[next], used)];
      assert Cyclic(ips, index, first);
      if ips[next] in used {
        ScanVisitsMeaning(ips, next, used, steps - 1);
        CyclicConcat(ips, index, first, ScanVisits(ips, next, used, steps - 1));
      }
    }
  }

  /** Over a whole run the cursor only ever moves one position at a time. */
  lemma {:induction false} LogIsCyclic(s: State, ops: seq<Op>)
    requires Inv(s) && s.ips != []
    ensures Run(s, ops).index == Position(s.index, |s.ips|, |Log(s, ops)|)
    ensures Cyclic(s.ips, s.index, Log(s, ops))
    decreases |ops|
  {
    if ops != [] {
      StepKeepsInv(s, ops[0]);
      var s' := Step(s, ops[0]);
      VisitsMoveCursor(s, ops[0]);
      LogIsCyclic(s', ops[1..]);
      CyclicConcat(s.ips, s.index, Visits(s, ops[0]), Log(s', ops[1..]));
    }
  }

  lemma {:induction false} VisitsMoveCursor(s: State, op: Op)
    requires Inv(s) && s.ips != []
    ensures Step(s, op).index == Position(s.index, |s.ips|, |Visits(s, op)|)
    ensures Cyclic(s.ips, s.index, Visits(s, op))
  {
    ScanVisitsMeaning(s.ips, s.index, s.used.Keys, |s.ips|);
  }

  lemma {:induction false} CyclicReturns(ips: seq<Addr>, index: int, log: seq<Visit>, p: nat, q: nat,
                                         t: nat) returns (r: nat)
    requires ips != [] && -1 <= index < |ips| && Ascending(ips) && Cyclic(ips, index, log)
    requires p < q < |log| && log[p].addr == log[q].addr
    requires t < |ips| && ips[t] != log[p].addr
    ensures p < r < q && log[r].addr == ips[t]
  {
    var n := |ips|;
    var at := Position(index, n, p + 1);
    assert Looks(ips, index, log, p) && Looks(ips, index, log, q);
    PositionCompose(index, n, p + 1, q - p);
    assert ips[Position(at, n, q - p)] == ips[at];
    assert Position(at, n, q - p) == at;
    if q - p < n { PositionClosed(at, n, q - p); }
    var k := FullTurn(at, n, t);
    PositionClosed(at, n, n);
    PositionCompose(index, n, p + 1, k);
    r := p + k;
    assert Looks(ips, index, log, r);
  }

  /** When operation `op` is applied in state `t`, the address is in use, or it is the one handed out. */
  ghost predicate InUseOrHandedOut(t: State, op: Op, a: Addr)
    requires Inv(t)
  {
    && op.Allocate?
    && (a in t.used || (var r := AllocateNext(t, op.podName, op.podNamespace).1; r.Some? && r.value.address == a))
  }

  /** Operation `i` of the run made look `r`. */
  ghost predicate MadeBy(s: State, ops: seq<Op>, r: nat, i: nat)
    requires Inv(s) && i < |ops|
  {
    |Log(s, ops[..i])| <= r < |Log(s, ops[..i + 1])|
  }

  /** Every look was made by an allocation of the run, which hands the address out unless it is in use. */
  lemma {:induction false} LookMeans(s: State, ops: seq<Op>, r: nat) returns (i: nat)
    requires Inv(s) && r < |Log(s, ops)|
    ensures i < |ops| && MadeBy(s, ops, r, i)
    ensures InUseOrHandedOut(Run(s, ops[..i]), ops[i], Log(s, ops)[r].addr)
    decreases |ops|
  {
    StepKeepsInv(s, ops[0]);
    var v := Visits(s, ops[0]);
    if r < |v| {
      i := 0;
      assert v != [];
      ScanVisitsMeaning(s.ips, s.index, s.used.Keys, |s.ips|);
      assert ops[..0] == [] && ops[..1] == [ops[0]];
      LogFirst(s, ops, 1);
    } else {
      var j := LookMeans(Step(s, ops[0]), ops[1..], r - |v|);
      i := j + 1;
      assert ops[..i][1..] == ops[1..][..j] && ops[..i][0] == ops[0];
      LogFirst(s, ops, i);
      LogFirst(s, ops, i + 1);
    }
  }

  /** The looks of a prefix of the run, split after its first operation. */
  lemma {:induction false} LogFirst(s: State, ops: seq<Op>, n: nat)
    requires Inv(s) && 1 <= n <= |ops|
    ensures Inv(Step(s, ops[0]))
    ensures |Log(s, ops[..n])| == |Visits(s, ops[0])| + |Log(Step(s, ops[0]), ops[1..][..n - 1])|
  {
    StepKeepsInv(s, ops[0]);
    assert ops[..n][0] == ops[0] && ops[..n][1..] == ops[1..][..n - 1];
  }

  /** Between two looks at the same address, in particular between two allocations that hand it out, the cursor looked
      at every other address of the slice, and the allocation that made that look handed the address out or found it in
      use. */
  lemma {:induction false} RoundRobin(s: State, ops: seq<Op>, p: nat, q: nat, other: Addr) returns (r: nat, i: nat)
    requires Inv(s)
    requires p < q < |Log(s, ops)| && Log(s, ops)[p].addr == Log(s, ops)[q].addr
    requires other in s.ips && other != Log(s, ops)[p].addr
    ensures p < r < q && Log(s, ops)[r].addr == other
    ensures i < |ops| && MadeBy(s, ops, r, i) && InUseOrHandedOut(Run(s, ops[..i]), ops[i], other)
  {
    LogIsCyclic(s, ops);
    SliceFacts(s);
    var t :| 0 <= t < |s.ips| && s.ips[t] == other;
    r := CyclicReturns(s.ips, s.index, Log(s, ops), p, q, t);
    i := LookMeans(s, ops, r);
  }
}
