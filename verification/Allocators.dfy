/** The single-stack and the dual-stack allocator on one network; each method is proved to do what the corresponding
    function of AllocatorModel says. Source: pkg/ipam/allocator/allocator.go, pkg/ipam/allocator/dualstack_allocator.go
    and the selection functions of pkg/ipam/types/network.go. */
module Allocators {
  import opened Wrappers
  import opened SubnetModel
  import opened NetworkModel
  import opened AllocatorModel
  import opened Networks

  method LookUp(net: Network, name: string) returns (k: Option<nat>)
    requires net.Shape()
    ensures k == ByName(net.State().subnets, name, 0) && (k.Some? ==> k.value < |net.subnets|)
  {
    k := net.GetSubnet(name);
  }

  method SelectSubnet(net: Network, name: string) returns (k: Option<nat>)
    requires net.Shape()
    modifies net`index
    ensures net.Shape() && (k.Some? ==> k.value < |net.subnets|)
    ensures (net.State(), k) == Selected(old(net.State()), name)
  {
    if |name| > 0 {
      k := LookUp(net, name);
    } else {
      k := net.GetAvailableSubnet();
    }
  }

  method SelectFamilySubnet(net: Network, name: string, v6: bool) returns (k: Option<nat>)
    requires net.Shape()
    modifies net`index
    ensures net.Shape() && (k.Some? ==> k.value < |net.subnets|)
    ensures (net.State(), k) == SelectedFamily(old(net.State()), name, v6)
  {
    if |name| > 0 {
      k := LookUp(net, name);
      if k.Some? && net.subnets[k.value].spec.ipv6 != v6 {
        return None;
      }
    } else if v6 {
      k := net.GetAvailableIPv6Subnet();
    } else {
      k := net.GetAvailableIPv4Subnet();
    }
  }

  method FindNamedPair(net: Network, v4Name: string, v6Name: string) returns (p: Option<(nat, nat)>)
    requires net.Shape()
    ensures p == NamedPair(net.State(), v4Name, v6Name)
  {
    var v4 := LookUp(net, v4Name);
    if v4.None? || net.subnets[v4.value].spec.ipv6 {
      return None;
    }
    var v6 := LookUp(net, v6Name);
    if v6.None? || !net.subnets[v6.value].spec.ipv6 {
      return None;
    }
    if UnifyNetID(net.subnets[v4.value].spec.netID) != UnifyNetID(net.subnets[v6.value].spec.netID) {
      return None;
    }
    return Some((v4.value, v6.value));
  }

  method SelectPair(net: Network, v4Name: string, v6Name: string) returns (p: Option<(nat, nat)>)
    requires net.Shape()
    modifies net`index
    ensures net.Shape() && (p.Some? ==> PairOf(old(net.State()), p.value.0, p.value.1))
    ensures (net.State(), p) == SelectedPair(old(net.State()), v4Name, v6Name)
  {
    if |v4Name| > 0 && |v6Name| > 0 {
      p := FindNamedPair(net, v4Name, v6Name);
    } else {
      PickPairMeans(net.State());
      p := net.GetAvailablePairedDualStackSubnets();
    }
  }

  /** Allocate from the selected subnet. */
  method Serve(net: Network, k: Option<nat>, podName: string, podNamespace: string) returns (r: Result<IP>)
    requires net.Shape() && (k.Some? ==> k.value < |net.subnets|)
    modifies net.subnets, net.slices
    ensures net.Shape() && (net.State(), r) == Served(old(net.State()), k, podName, podNamespace)
  {
    if k.None? {
      return Err;
    }
    assert net.subnets[k.value] in net.subnets;
    var ip := net.AllocateIn(k.value, podName, podNamespace);
    return if ip.Some? then Ok(ip.value) else Err;
  }

  /** Single-stack allocation. */
  method Allocate(net: Network, subnetName: string, podName: string, podNamespace: string) returns (r: Result<IP>)
    requires net.Valid()
    modifies net`index, net.subnets, net.slices
    ensures net.Valid() && (net.State(), r) == Allocated(old(net.State()), subnetName, podName, podNamespace)
  {
    AllocatedSpec(net.State(), subnetName, podName, podNamespace);
    var k := SelectSubnet(net, subnetName);
    r := Serve(net, k, podName, podNamespace);
  }

  /** `allocateIPv4Only` and `allocateIPv6Only`. */
  method AllocateFamily(net: Network, names: seq<string>, v6: bool, podName: string,
                        podNamespace: string) returns (r: Result<IP>)
    requires net.Valid()
    modifies net`index, net.subnets, net.slices
    ensures net.Valid() && (net.State(), r) == AllocatedFamily(old(net.State()), names, v6, podName, podNamespace)
  {
    AllocatedFamilySpec(net.State(), names, v6, podName, podNamespace);
    if |names| > 1 {
      return Err;
    }
    var k := SelectFamilySubnet(net, NameOf(names, 0), v6);
    r := Serve(net, k, podName, podNamespace);
  }

  method AllocatePair(net: Network, i: nat, j: nat, podName: string, podNamespace: string) returns (r: Result<(IP, IP)>)
    requires net.Shape() && i < |net.subnets| && j < |net.subnets| && i != j
    modifies net.subnets, net.slices
    ensures net.Shape()
    ensures (net.State(), r) == PairStep(old(net.State()), i, j, podName, podNamespace)
  {
    assert net.subnets[i] in net.subnets && net.subnets[j] in net.subnets;
    var v4 := net.AllocateIn(i, podName, podNamespace);
    if v4.None? {
      return Err;
    }
    var v6 := net.AllocateIn(j, podName, podNamespace);
    if v6.None? {
      net.ReleaseIn(i, v4.value.address);
      return Err;
    }
    return Ok((v4.value, v6.value));
  }

  /** Dual-stack allocation: both addresses or none. */
  method AllocateDualStack(net: Network, names: seq<string>, podName: string,
                           podNamespace: string) returns (r: Result<(IP, IP)>)
    requires net.Valid()
    modifies net`index, net.subnets, net.slices
    ensures net.Valid() && (net.State(), r) == AllocatedPair(old(net.State()), names, podName, podNamespace)
  {
    AllocatedPairSpec(net.State(), names, podName, podNamespace);
    if |names| != 0 && |names| != 2 {
      return Err;
    }
    var p := SelectPair(net, NameOf(names, 0), NameOf(names, 1));
    if p.None? {
      return Err;
    }
    r := AllocatePair(net, p.value.0, p.value.1, podName, podNamespace);
  }

  /** `GetSubnetByIP`: the named subnet, or the first one that contains the address. */
  method FindSubnet(net: Network, q: Request) returns (k: Option<nat>)
    requires net.Shape()
    ensures k == FindTarget(net.State(), q, 0) && (k.Some? ==> k.value < |net.subnets|)
  {
    FindTargetSpec(net.State(), q, 0);
    if |q.subnet| > 0 {
      k := net.GetSubnet(q.subnet);
    } else {
      k := net.GetSubnetByIP(q.ip);
    }
    if k.Some? { TargetIsFound(net.State(), q, k.value); }
  }

  /** `assignIPv4Only` and `assignIPv6Only`, forced or not. */
  method AssignFamily(net: Network, names: seq<string>, ips: seq<Option<Addr>>, podName: string, podNamespace: string,
                      forced: bool)
    returns (r: Result<IP>)
    requires net.Valid()
    modifies net.subnets
    ensures net.Valid()
    ensures (net.State(), r) ==
            AssignedFamily(old(net.State()), AssignArguments(names, ips, podName, podNamespace, forced))
  {
    if |names| > 1 || |ips| != 1 || ips[0].None? {
      return Err;
    }
    r := AssignOne(net, Request(NameOf(names, 0), ips[0].value, podName, podNamespace, forced));
  }

  /** The single-stack Assign, forced or not. */
  method AssignOne(net: Network, q: Request) returns (r: Result<IP>)
    requires net.Valid()
    modifies net.subnets
    ensures net.Valid() && (net.State(), r) == AssignRequest(old(net.State()), q)
  {
    AssignRequestKeepsInv(net.State(), q);
    r := AssignShape(net, q);
  }

  method AssignShape(net: Network, q: Request) returns (r: Result<IP>)
    requires net.Shape()
    modifies net.subnets
    ensures net.Shape() && (net.State(), r) == AssignRequest(old(net.State()), q)
  {
    var k := FindSubnet(net, q);
    if k.None? {
      return Err;
    }
    assert net.subnets[k.value] in net.subnets;
    var record := net.AssignIn(k.value, q.podName, q.podNamespace, q.ip, q.forced);
    return if record.Some? then Ok(record.value) else Err;
  }

  /** `releaseIP`. */
  method ReleaseFamily(net: Network, names: seq<string>, ips: seq<Addr>) returns (ok: bool)
    requires net.Valid()
    modifies net`index, net.subnets
    ensures net.Valid() && (net.State(), ok) == ReleasedOne(old(net.State()), names, ips)
  {
    if |names| != 1 || |ips| != 1 {
      return false;
    }
    ok := ReleaseOne(net, names[0], ips[0]);
  }

  /** The single-stack Release. */
  method ReleaseOne(net: Network, name: string, ip: Addr) returns (ok: bool)
    requires net.Valid()
    modifies net`index, net.subnets
    ensures net.Valid() && (net.State(), ok) == Released(old(net.State()), name, ip)
  {
    ReleasedSpec(net.State(), name, ip);
    var k := SelectSubnet(net, name);
    if k.None? {
      return false;
    }
    assert net.subnets[k.value] in net.subnets;
    net.ReleaseIn(k.value, ip);
    return true;
  }
}
