/** The objects of pkg/ipam/types/ip.go and subnet.go, updated in place; each method is proved to do what
    the corresponding function of SubnetModel says. */
module Subnets {
  import opened Wrappers
  import M = SubnetModel

  class IPSlice {
    var ips: seq<M.Addr>
    var count: nat
    var index: int

    ghost predicate Valid()
      reads this
    {
      count == |ips| && -1 <= index && (ips == [] ==> index == -1) && (ips != [] ==> index < |ips|)
    }

    constructor ()
      ensures Valid() && ips == [] && index == -1
    {
      ips, count, index := [], 0, -1;
    }

    method Add(ip: M.Addr, isDefault: bool)
      requires Valid()
      modifies this
      ensures Valid() && ips == old(ips) + [ip] && index == if isDefault then |ips| - 1 else old(index)
    {
      ips := ips + [ip];
      count := |ips|;
      if isDefault {
        index := count - 1;
      }
    }

    method Next() returns (ip: M.Addr)
      requires Valid() && count > 0
      modifies this
      ensures Valid() && ips == old(ips) && index == M.Next(old(index), |ips|) && ip == ips[index]
    {
      index := (index + 1) % count;
      ip := ips[index];
    }

    function Current(): Option<M.Addr>
      requires Valid()
      reads this
    {
      if index < 0 then None else Some(ips[index])
    }
  }

  class Subnet {
    const raw: M.RawSpec
    var spec: M.Spec
    var reservedList: set<M.Addr>
    var lastAllocatedIP: Option<M.Addr>
    var availableIPs: IPSlice
    var usingIPs: M.IPSet
    var reservedIPCount: int

    ghost predicate Valid()
      reads this, availableIPs
    {
      availableIPs.Valid() && reservedIPCount == |reservedList|
    }

    ghost function State(): M.State
      reads this, availableIPs
    {
      M.State(spec, reservedList, availableIPs.ips, availableIPs.index, usingIPs)
    }

    constructor (raw: M.RawSpec, reservedList: set<M.Addr>, lastAllocatedIP: Option<M.Addr>)
      ensures Valid() && fresh(availableIPs)
      ensures this.raw == raw && this.reservedList == reservedList && this.lastAllocatedIP == lastAllocatedIP
    {
      this.raw, this.reservedList, this.lastAllocatedIP := raw, reservedList, lastAllocatedIP;
      spec := M.Spec(raw.name, raw.network, raw.netID, raw.cidrV6, raw.cidr, 0, 0, raw.gateway, raw.blackList,
                     raw.private, raw.ipv6);
      availableIPs := new IPSlice();
      usingIPs := map[];
      reservedIPCount := |reservedList|;
    }

    /** Check the fields and fill in the range; a malformed subnet stays as it is. */
    method Canonicalize() returns (ok: bool)
      modifies this`spec
      ensures ok <==> M.Wellformed(raw)
      ensures ok ==> spec == M.Canonicalized(raw)
      ensures !ok ==> spec == old(spec)
    {
      if !M.Wellformed(raw) {
        return false;
      }
      spec := M.Canonicalized(raw);
      return true;
    }

    method Sync(parentNetID: Option<nat>, ipSet: M.IPSet)
      modifies this
      ensures Valid() && fresh(availableIPs)
      ensures State() == M.Sync(old(spec), old(reservedList), old(lastAllocatedIP), parentNetID, ipSet)
      ensures spec.netID == if old(spec).netID.Some? then old(spec).netID else parentNetID
      ensures spec == old(spec).(netID := spec.netID)
      ensures lastAllocatedIP == old(lastAllocatedIP)
    {
      if spec.netID.None? {
        spec := spec.(netID := parentNetID);
      }
      FilterReserved();
      FillUsing(ipSet);
      FillAvailable();
    }

    method FilterReserved()
      modifies this`reservedList, this`reservedIPCount
      ensures reservedList == M.SyncedReserved(spec, old(reservedList)) && reservedIPCount == |reservedList|
    {
      var filtered: set<M.Addr> := {};
      var todo := reservedList;
      while todo != {}
        invariant todo <= reservedList
        invariant filtered == M.SyncedReserved(spec, reservedList - todo)
      {
        var rip :| rip in todo;
        todo := todo - {rip};
        if M.Contains(spec, rip) {
          filtered := filtered + {rip};
        }
      }
      reservedList := filtered;
      reservedIPCount := |reservedList|;
    }

    method FillUsing(ipSet: M.IPSet)
      modifies this`usingIPs
      ensures usingIPs == M.SyncedUsed(spec, reservedList, ipSet)
    {
      KeepValid(ipSet);
      ghost var valid := usingIPs;
      var todo := reservedList;
      while todo != {}
        invariant todo <= reservedList
        invariant usingIPs == map a | a in valid.Keys + (reservedList - todo) ::
                                if a in valid then valid[a] else M.Record(spec, a, "", "", M.STATUS_RESERVED)
      {
        var a :| a in todo;
        todo := todo - {a};
        if a !in usingIPs {
          usingIPs := usingIPs[a := M.Record(spec, a, "", "", M.STATUS_RESERVED)];
        }
      }
    }

    /** The recorded addresses that are this subnet's own. */
    method KeepValid(ipSet: M.IPSet)
      modifies this`usingIPs
      ensures usingIPs == map a | a in ipSet && ipSet[a].subnet == spec.name &&
                                  M.Contains(spec, ipSet[a].address) :: ipSet[a]
    {
      usingIPs := map[];
      var todo := ipSet.Keys;
      while todo != {}
        invariant todo <= ipSet.Keys
        invariant usingIPs == map a | a in ipSet && a !in todo && ipSet[a].subnet == spec.name &&
                                      M.Contains(spec, ipSet[a].address) :: ipSet[a]
      {
        var a :| a in todo;
        todo := todo - {a};
        if ipSet[a].subnet == spec.name && M.Contains(spec, ipSet[a].address) {
          usingIPs := usingIPs[a := ipSet[a]];
        }
      }
    }

    /** `ips` are the available addresses before `i`. */
    ghost predicate FilledUpTo(ips: seq<M.Addr>, i: nat)
      reads this`spec, this`reservedList
    {
      ips + M.Candidates(spec, reservedList, i) == M.Candidates(spec, reservedList, spec.start)
    }

    lemma {:induction false} FillStep(ips: seq<M.Addr>, i: nat)
      requires FilledUpTo(ips, i) && i <= spec.end
      ensures var a := M.Addr(spec.cidrV6, i);
              FilledUpTo(if M.Contains(spec, a) && a !in reservedList then ips + [a] else ips, i + 1)
    {
      var a := M.Addr(spec.cidrV6, i);
      var rest := M.Candidates(spec, reservedList, i + 1);
      assert ips + ([a] + rest) == ips + [a] + rest;
      assert ips + ([] + rest) == ips + rest;
    }

    method FillAvailable()
      modifies this`availableIPs
      ensures fresh(availableIPs) && availableIPs.Valid()
      ensures availableIPs.ips == M.Candidates(spec, reservedList, spec.start)
      ensures availableIPs.index == M.IndexOf(availableIPs.ips, lastAllocatedIP)
    {
      availableIPs := new IPSlice();
      var i := spec.start;
      assert [] + M.Candidates(spec, reservedList, i) == M.Candidates(spec, reservedList, i);
      while i <= spec.end
        invariant fresh(availableIPs) && availableIPs.Valid()
        invariant spec.start <= i
        invariant FilledUpTo(availableIPs.ips, i)
        invariant availableIPs.index == M.IndexOf(availableIPs.ips, lastAllocatedIP)
      {
        var ip := M.Addr(spec.cidrV6, i);
        FillStep(availableIPs.ips, i);
        if M.Contains(spec, ip) && ip !in reservedList {
          ghost var before := availableIPs.ips;
          availableIPs.Add(ip, Some(ip) == lastAllocatedIP);
          IndexOfAppend(before, ip, lastAllocatedIP);
        }
        i := i + 1;
      }
    }

    static lemma {:induction false} IndexOfAppend(ips: seq<M.Addr>, ip: M.Addr, last: Option<M.Addr>)
      ensures M.IndexOf(ips + [ip], last) == if Some(ip) == last then |ips| else M.IndexOf(ips, last)
    {
      assert (ips + [ip])[..|ips|] == ips;
    }

    method AllocateNext(podName: string, podNamespace: string) returns (ip: Option<M.IP>)
      requires Valid()
      modifies this`usingIPs, availableIPs
      ensures Valid()
      ensures (State(), ip) == M.AllocateNext(old(State()), podName, podNamespace)
    {
      for i := 0 to availableIPs.count
        invariant availableIPs.Valid() && availableIPs.ips == old(availableIPs.ips)
        invariant usingIPs == old(usingIPs)
        invariant M.Scan(availableIPs.ips, old(availableIPs.index), usingIPs.Keys, availableIPs.count) ==
                  M.Scan(availableIPs.ips, availableIPs.index, usingIPs.Keys, availableIPs.count - i)
      {
        var candidate := availableIPs.Next();
        if candidate in usingIPs {
          continue;
        }
        var record := M.Record(spec, candidate, podName, podNamespace, M.STATUS_USING);
        usingIPs := usingIPs[candidate := record];
        return Some(record);
      }
      return None;
    }

    method Release(ip: M.Addr)
      requires Valid()
      modifies this`usingIPs
      ensures Valid() && State() == M.Release(old(State()), ip)
    {
      if ip in reservedList {
        usingIPs := M.Update(usingIPs, ip, "", "", M.STATUS_RESERVED);
      } else {
        usingIPs := usingIPs - {ip};
      }
    }

    method Assign(podName: string, podNamespace: string, ip: M.Addr, forced: bool) returns (r: Option<M.IP>)
      requires Valid()
      modifies this`usingIPs
      ensures Valid() && (State(), r) == M.Assign(old(State()), podName, podNamespace, ip, forced)
    {
      if !M.Contains(spec, ip) {
        return None;
      }
      if ip !in usingIPs {
        usingIPs := usingIPs[ip := M.Record(spec, ip, podName, podNamespace, M.STATUS_USING)];
      } else if usingIPs[ip].podNamespace == podNamespace && usingIPs[ip].podName == podName {
        usingIPs := M.Update(usingIPs, ip, podName, podNamespace, M.STATUS_USING);
      } else if forced && usingIPs[ip].status == M.STATUS_RESERVED {
        usingIPs := M.Update(usingIPs, ip, podName, podNamespace, M.STATUS_USING);
      } else {
        return None;
      }
      return Some(usingIPs[ip]);
    }

    function UsingIPCount(): int
      reads this
    {
      |usingIPs| - reservedIPCount
    }

    predicate IsAvailable()
      requires Valid()
      reads this, availableIPs
      ensures IsAvailable() == M.IsAvailable(State())
    {
      availableIPs.count > UsingIPCount() && !spec.private
    }
  }
}
