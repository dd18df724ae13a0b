/** The to-overlay-pod-subnet route table: what SyncRoutes writes into it and what longest-prefix
    match (section 5.1 of RFC 4632) then does with every address.
    Source: pkg/daemon/route/route.go and pkg/daemon/route/utils.go. */
module Routes {
  import opened Wrappers
  import opened Dyadic
  import opened BlockCover
  import opened IPRanges

  /** A "throw" route ends the lookup in this table; any other route sends through a device. */
  datatype Route = Throw | Via(link: int)

  type Table = map<Net, Route>

  // ---- Longest-prefix match ----

  /** `n` is the longest prefix of the table that contains `x`. */
  ghost predicate LongestMatch(width: nat, t: Table, x: int, n: Net)
  {
    && n in t && Contains(width, n, x)
    && forall m :: m in t && Contains(width, m, x) ==> m.ones <= n.ones
  }

  /** The lookup of `x` ends at a device route. */
  ghost predicate RoutedToDevice(width: nat, t: Table, x: int)
  {
    exists n :: LongestMatch(width, t, x, n) && t[n].Via?
  }

  lemma {:induction false} SameLengthSameNet(width: nat, m: Net, n: Net, x: nat)
    requires IsNet(width, m) && IsNet(width, n) && m.ones == n.ones
    requires Contains(width, m, x) && Contains(width, n, x)
    ensures m == n
  {
    NestedOrDisjoint(width, m, n, x);
    NestedOrDisjoint(width, n, m, x);
  }

  // ---- Subnet information ----

  datatype SubnetInfo = SubnetInfo(gateway: Option<nat>, excludeIPs: seq<nat>, included: seq<Span>, ifName: string)

  type SubnetInfoMap = map<Net, SubnetInfo>

  ghost predicate ExcludedIn(width: nat, c: Net, info: SubnetInfo, x: int)
  {
    MustExclude(width, c, info.included, info.gateway, info.excludeIPs, x)
  }

  /** No address arithmetic at the ends of the address space; ranges come from CreateIPRange. */
  ghost predicate ValidInfo(width: nat, c: Net, info: SubnetInfo)
  {
    && IsNet(width, c) && Inner(width, c.base) && Inner(width, Last(width, c))
    && Proper(info.included)
    && (forall i :: 0 <= i < |info.excludeIPs| ==> Inner(width, info.excludeIPs[i]))
    && (info.gateway.Some? ==> Inner(width, info.gateway.value))
  }

  ghost predicate ValidInfos(width: nat, infos: SubnetInfoMap)
  {
    forall c :: c in infos ==> ValidInfo(width, c, infos[c])
  }

  /** The gateway and the excluded addresses of each subnet lie in its own CIDR. */
  ghost predicate OwnAddresses(width: nat, infos: SubnetInfoMap)
  {
    forall c :: c in infos ==>
      && (forall i :: 0 <= i < |infos[c].excludeIPs| ==> Contains(width, c, infos[c].excludeIPs[i]))
      && (infos[c].gateway.Some? ==> Contains(width, c, infos[c].gateway.value))
  }

  /** The included ranges of the subnet leave its CIDR or overlap each other. */
  ghost predicate Malformed(width: nat, c: Net, info: SubnetInfo)
    requires c.ones <= width
  {
    Leaves(width, c, info.included) || Overlapping(info.included)
  }

  /** Every address of the block is excluded in that subnet. */
  ghost predicate BlockOf(width: nat, b: Net, c: Net, info: SubnetInfo)
  {
    IsNet(width, b) && forall x: int :: Contains(width, b, x) ==> ExcludedIn(width, c, info, x)
  }

  ghost predicate BlockOfSome(width: nat, b: Net, infos: SubnetInfoMap)
  {
    exists c :: c in infos && BlockOf(width, b, c, infos[c])
  }

  ghost predicate InSomeBlock(width: nat, blocks: set<Net>, x: int)
  {
    exists b :: b in blocks && Contains(width, b, x)
  }

  /** `blocks` covers exactly what the subnets exclude, block by block. */
  ghost predicate ExcludeBlocks(width: nat, blocks: set<Net>, infos: SubnetInfoMap)
  {
    && (forall b :: b in blocks ==> BlockOfSome(width, b, infos))
    && (forall c, x: int :: c in infos && ExcludedIn(width, c, infos[c], x) ==> InSomeBlock(width, blocks, x))
  }

  // ---- The table ensureToOverlaySubnetRoutes leaves behind ----

  /** Kind by kind: throw routes exactly at the excluded blocks, device routes at the other CIDRs, nothing else. */
  ghost predicate SyncedTable(t: Table, subnets: set<Net>, blocks: set<Net>)
  {
    && t.Keys == subnets + blocks
    && (forall n :: n in t ==> (t[n].Throw? <==> n in blocks))
  }

  ghost predicate Disjoint(width: nat, cidrs: set<Net>)
  {
    forall c, d, x: int :: c in cidrs && d in cidrs && Contains(width, c, x) && Contains(width, d, x) ==> c == d
  }

  /** The address lies in the CIDR and is not excluded there. */
  ghost predicate Unexcluded(width: nat, infos: SubnetInfoMap, c: Net, x: int)
  {
    c in infos && Contains(width, c, x) && !ExcludedIn(width, c, infos[c], x)
  }

  /** The addresses that overlay traffic must reach through the vxlan device. */
  ghost predicate OverlayAddress(width: nat, infos: SubnetInfoMap, x: int)
  {
    exists c :: Unexcluded(width, infos, c, x)
  }

  lemma {:induction false} ExcludedInsideCidr(width: nat, c: Net, infos: SubnetInfoMap, x: int)
    requires OwnAddresses(width, infos) && c in infos && ExcludedIn(width, c, infos[c], x)
    ensures Contains(width, c, x)
  {}

  /** An address that its subnet does not exclude is matched by the CIDR of that subnet. */
  lemma {:induction false} MatchedByCidr(width: nat, t: Table, infos: SubnetInfoMap, blocks: set<Net>, c: Net, x: int)
    requires OwnAddresses(width, infos) && Disjoint(width, infos.Keys)
    requires ExcludeBlocks(width, blocks, infos) && SyncedTable(t, infos.Keys, blocks)
    requires Unexcluded(width, infos, c, x)
    ensures LongestMatch(width, t, x, c) && c !in blocks
  {
    forall m | m in t && Contains(width, m, x) ensures m == c && m !in blocks {
      if m in blocks {
        assert BlockOfSome(width, m, infos);
        var d :| d in infos && BlockOf(width, m, d, infos[d]);
        ExcludedInsideCidr(width, d, infos, x);
      }
    }
  }

  lemma {:induction false} OverlayAddressIsRouted(width: nat, t: Table, infos: SubnetInfoMap, blocks: set<Net>, x: int)
    requires ValidInfos(width, infos) && OwnAddresses(width, infos) && Disjoint(width, infos.Keys)
    requires ExcludeBlocks(width, blocks, infos) && SyncedTable(t, infos.Keys, blocks)
    requires OverlayAddress(width, infos, x)
    ensures RoutedToDevice(width, t, x)
  {
    var c :| Unexcluded(width, infos, c, x);
    MatchedByCidr(width, t, infos, blocks, c, x);
  }

  lemma {:induction false} RoutedIsOverlayAddress(width: nat, t: Table, infos: SubnetInfoMap, blocks: set<Net>, x: int)
    requires ValidInfos(width, infos) && OwnAddresses(width, infos) && Disjoint(width, infos.Keys)
    requires ExcludeBlocks(width, blocks, infos) && SyncedTable(t, infos.Keys, blocks)
    requires RoutedToDevice(width, t, x)
    ensures OverlayAddress(width, infos, x)
  {
    var n :| LongestMatch(width, t, x, n) && t[n].Via?;
    MatchIsNotExcluded(width, t, infos, blocks, n, x);
    assert Unexcluded(width, infos, n, x);
  }

  /** Were the address excluded, a block, which is no larger than the CIDR, would match it as well. */
  lemma {:induction false} MatchIsNotExcluded(width: nat, t: Table, infos: SubnetInfoMap, blocks: set<Net>, n: Net,
                                              x: int)
    requires ValidInfos(width, infos) && OwnAddresses(width, infos) && Disjoint(width, infos.Keys)
    requires ExcludeBlocks(width, blocks, infos) && SyncedTable(t, infos.Keys, blocks)
    requires LongestMatch(width, t, x, n) && t[n].Via?
    ensures n in infos && !ExcludedIn(width, n, infos[n], x)
  {
    assert n in infos;
    if ExcludedIn(width, n, infos[n], x) {
      assert InSomeBlock(width, blocks, x);
      var b :| b in blocks && Contains(width, b, x);
      assert b in t;
      assert BlockOfSome(width, b, infos);
      var d :| d in infos && BlockOf(width, b, d, infos[d]);
      ExcludedInsideCidr(width, d, infos, x);
      assert d == n;
      BlockInside(width, b, n, infos);
      SameLengthSameNet(width, b, n, x);
    }
  }

  /** A block of excluded addresses is no larger than the subnet's CIDR. */
  lemma {:induction false} BlockInside(width: nat, b: Net, c: Net, infos: SubnetInfoMap)
    requires OwnAddresses(width, infos) && c in infos && BlockOf(width, b, c, infos[c])
    ensures c.ones <= b.ones
  {
    assert Contains(width, b, b.base) && Contains(width, b, Last(width, b));
    ExcludedInsideCidr(width, c, infos, b.base);
    ExcludedInsideCidr(width, c, infos, Last(width, b));
    if b.ones < c.ones { Pow2Monotone(width - c.ones, width - b.ones); }
  }

  /** Longest-prefix match in the synced table picks a device route exactly for the addresses that
      are inside some overlay CIDR and not excluded there; every other match is a throw route, and an
      address outside all CIDRs matches nothing. */
  lemma {:induction false} OverlayForwarding(width: nat, t: Table, infos: SubnetInfoMap, blocks: set<Net>, x: int)
    requires ValidInfos(width, infos) && OwnAddresses(width, infos) && Disjoint(width, infos.Keys)
    requires ExcludeBlocks(width, blocks, infos) && SyncedTable(t, infos.Keys, blocks)
    ensures RoutedToDevice(width, t, x) <==> OverlayAddress(width, infos, x)
    ensures forall n :: LongestMatch(width, t, x, n) && !OverlayAddress(width, infos, x) ==> t[n].Throw?
    ensures (exists n :: n in t && Contains(width, n, x)) <==> exists c :: c in infos && Contains(width, c, x)
  {
    if OverlayAddress(width, infos, x) { OverlayAddressIsRouted(width, t, infos, blocks, x); }
    if RoutedToDevice(width, t, x) { RoutedIsOverlayAddress(width, t, infos, blocks, x); }
    if n :| n in t && Contains(width, n, x) && n in blocks {
      assert BlockOfSome(width, n, infos);
      var d :| d in infos && BlockOf(width, n, d, infos[d]);
      ExcludedInsideCidr(width, d, infos, x);
    }
  }

  lemma {:induction false} ForwardsAll(width: nat, t: Table, infos: SubnetInfoMap, blocks: set<Net>)
    requires ValidInfos(width, infos) && OwnAddresses(width, infos) && Disjoint(width, infos.Keys)
    requires ExcludeBlocks(width, blocks, infos) && SyncedTable(t, infos.Keys, blocks)
    ensures forall x: int :: RoutedToDevice(width, t, x) <==> OverlayAddress(width, infos, x)
    ensures forall x: int, n :: LongestMatch(width, t, x, n) && !OverlayAddress(width, infos, x) ==> t[n].Throw?
    ensures forall c, x: int :: Unexcluded(width, infos, c, x) ==> LongestMatch(width, t, x, c) && c !in blocks
  {
    forall x: int { OverlayForwarding(width, t, infos, blocks, x); }
    forall c, x: int | Unexcluded(width, infos, c, x) ensures LongestMatch(width, t, x, c) && c !in blocks {
      MatchedByCidr(width, t, infos, blocks, c, x);
    }
  }

  // ---- The code that builds the table ----

  /** One policy-routing table of the kernel, keyed by destination prefix.  Every netlink call on it can fail; the
      failures are counted. */
  class RouteTable {
    var routes: Table
    ghost var failures: nat

    constructor ()
      ensures routes == map[] && failures == 0
    {
      routes, failures := map[], 0;
    }

    method List() returns (r: Result<Table>)
      modifies this`failures
      ensures r.Ok? <==> failures == old(failures)
      ensures r.Ok? ==> r.value == routes
      ensures failures >= old(failures)
    {
      var broken: bool := *;
      if broken {
        failures := failures + 1;
        return Err;
      }
      return Ok(routes);
    }

    method Delete(dst: Net) returns (ok: bool)
      modifies this
      ensures ok <==> failures == old(failures)
      ensures routes == if ok then old(routes) - {dst} else old(routes)
      ensures failures >= old(failures)
    {
      var broken: bool := *;
      if broken {
        failures := failures + 1;
        return false;
      }
      routes := routes - {dst};
      return true;
    }

    method Replace(dst: Net, route: Route) returns (ok: bool)
      modifies this
      ensures ok <==> failures == old(failures)
      ensures routes == if ok then old(routes)[dst := route] else old(routes)
      ensures failures >= old(failures)
    {
      var broken: bool := *;
      if broken {
        failures := failures + 1;
        return false;
      }
      routes := routes[dst := route];
      return true;
    }
  }

  /** Unless a netlink call fails, throw routes end up exactly at `blocks`; the other routes stay unless a block
      replaces them. */
  method EnsureExcludedIPBlockRoutes(kernel: RouteTable, blocks: set<Net>) returns (ok: bool)
    modifies kernel
    ensures ok <==> kernel.failures == old(kernel.failures)
    ensures kernel.failures >= old(kernel.failures)
    ensures ok ==> kernel.routes.Keys == blocks + set n | n in old(kernel.routes) && old(kernel.routes)[n].Via?
    ensures ok ==> forall n :: n in kernel.routes ==>
                          kernel.routes[n] == if n in blocks then Throw else old(kernel.routes)[n]
  {
    var answer := kernel.List();
    if answer.Err? {
      return false;
    }
    var listed := answer.value;
    var todo := set n | n in listed && listed[n].Throw?;
    while todo != {}
      invariant kernel.failures == old(kernel.failures)
      invariant todo <= set n | n in listed && listed[n].Throw?
      invariant kernel.routes.Keys <= listed.Keys
      invariant forall n :: n in listed ==>
                  (n in kernel.routes <==> listed[n].Via? || n in blocks || n in todo)
      invariant forall n :: n in kernel.routes ==> kernel.routes[n] == listed[n]
    {
      var dst :| dst in todo;
      todo := todo - {dst};
      if dst !in blocks {
        ok := kernel.Delete(dst);
        if !ok {
          return false;
        }
      }
    }
    ghost var kept := kernel.routes;
    todo := blocks;
    while todo != {}
      invariant kernel.failures == old(kernel.failures)
      invariant todo <= blocks
      invariant kernel.routes.Keys == kept.Keys + (blocks - todo)
      invariant forall n :: n in kernel.routes ==>
                  kernel.routes[n] == if n in blocks - todo then Throw else listed[n]
    {
      var dst :| dst in todo;
      todo := todo - {dst};
      ok := kernel.Replace(dst, Throw);
      if !ok {
        return false;
      }
    }
    return true;
  }

  ghost predicate HasDevice(t: Table, c: Net)
  {
    c in t && t[c].Via?
  }

  /** The table sends the CIDR through the device of that name. */
  ghost predicate SentTo(t: Table, c: Net, name: string, links: map<string, int>)
  {
    c in t && name in links && t[c] == Via(links[name])
  }

  /** `after` is `before` with every missing CIDR sent to the device it is listed with. */
  ghost predicate Filled(before: Table, after: Table, missing: map<Net, string>, links: map<string, int>)
  {
    && after.Keys == before.Keys + missing.Keys
    && (forall c :: c in missing ==> SentTo(after, c, missing[c], links))
    && (forall c :: c in before && c !in missing ==> after[c] == before[c])
  }

  /** Give every listed CIDR a device route, unless its device is missing or a netlink call fails. */
  method EnsureSubnetRoutes(kernel: RouteTable, missing: map<Net, string>, links: map<string, int>) returns (ok: bool)
    modifies kernel
    ensures ok <==> kernel.failures == old(kernel.failures) && forall c :: c in missing ==> missing[c] in links
    ensures kernel.failures >= old(kernel.failures)
    ensures ok ==> Filled(old(kernel.routes), kernel.routes, missing, links)
  {
    var todo := missing.Keys;
    while todo != {}
      invariant kernel.failures == old(kernel.failures)
      invariant todo <= missing.Keys
      invariant forall c :: c in missing && c !in todo ==> missing[c] in links
      invariant kernel.routes.Keys == old(kernel.routes).Keys + (missing.Keys - todo)
      invariant forall n :: n in kernel.routes ==>
                  kernel.routes[n] == if n in missing && n !in todo then Via(links[missing[n]])
                    else old(kernel.routes)[n]
    {
      var c :| c in todo;
      todo := todo - {c};
      if missing[c] !in links {
        return false;
      }
      ok := kernel.Replace(c, Via(links[missing[c]]));
      if !ok {
        return false;
      }
    }
    return true;
  }

  /** Unless a netlink call fails, device routes of unknown CIDRs are deleted; report which known ones are already
      there. */
  method DropStaleRoutes(kernel: RouteTable, local: set<Net>, remote: set<Net>)
    returns (ok: bool, existLocal: set<Net>, existRemote: set<Net>)
    modifies kernel
    ensures ok <==> kernel.failures == old(kernel.failures)
    ensures kernel.failures >= old(kernel.failures)
    ensures kernel.routes.Keys <= old(kernel.routes).Keys
    ensures forall n :: n in kernel.routes ==> kernel.routes[n] == old(kernel.routes)[n]
    ensures ok ==> forall n :: n in old(kernel.routes) ==>
              (n in kernel.routes <==> old(kernel.routes)[n].Throw? || n in local || n in remote)
    ensures ok ==> forall n :: n in existLocal <==> n in local && HasDevice(kernel.routes, n)
    ensures ok ==> forall n :: n in existRemote <==> n !in local && n in remote && HasDevice(kernel.routes, n)
  {
    existLocal, existRemote := {}, {};
    var answer := kernel.List();
    if answer.Err? {
      return false, existLocal, existRemote;
    }
    var listed := answer.value;
    var todo := listed.Keys;
    while todo != {}
      invariant kernel.failures == old(kernel.failures)
      invariant todo <= listed.Keys && kernel.routes.Keys <= listed.Keys
      invariant forall n :: n in kernel.routes ==> kernel.routes[n] == listed[n]
      invariant forall n :: n in listed ==>
                  (n in kernel.routes <==> n in todo || listed[n].Throw? || n in local || n in remote)
      invariant forall n :: n in existLocal <==> n in local && n in listed && n !in todo && listed[n].Via?
      invariant forall n :: n in existRemote <==>
              n !in local && n in remote && n in listed && n !in todo && listed[n].Via?
    {
      var dst :| dst in todo;
      todo := todo - {dst};
      if listed[dst].Throw? {
      } else if dst in local {
        existLocal := existLocal + {dst};
      } else if dst in remote {
        existRemote := existRemote + {dst};
      } else {
        ok := kernel.Delete(dst);
        if !ok {
          return false, existLocal, existRemote;
        }
      }
    }
    ok := true;
  }

  /** The links the subnets need exist. */
  ghost predicate LinksFound(local: SubnetInfoMap, remote: SubnetInfoMap, overlayIfName: string,
                             links: map<string, int>)
  {
    && (forall c :: c in local ==> local[c].ifName in links)
    && (remote != map[] ==> overlayIfName in links)
  }

  /** A device route that was there stays as it is, whatever device it names; a missing one goes to the device. */
  ghost predicate KeptOrSent(before: Table, after: Table, c: Net, name: string, links: map<string, int>)
  {
    if HasDevice(before, c) then c in after && after[c] == before[c] else SentTo(after, c, name, links)
  }

  /** Local CIDRs go to the device of their subnet, remote ones to the overlay device; a CIDR that is both always goes
      to the overlay device, since only its local route counts as being there. */
  ghost predicate DevicesSet(before: Table, after: Table, local: SubnetInfoMap, remote: SubnetInfoMap,
                             overlayIfName: string, links: map<string, int>, blocks: set<Net>)
  {
    && (forall c :: c in local && c !in remote && c !in blocks ==>
                      KeptOrSent(before, after, c, local[c].ifName, links))
    && (forall c :: c in remote && c !in local && c !in blocks ==> KeptOrSent(before, after, c, overlayIfName, links))
    && (forall c :: c in remote && c in local && c !in blocks ==> SentTo(after, c, overlayIfName, links))
  }

  /** The device is the right one afterwards exactly when no device route was there or it named the right one: a route
      to an outdated device is not corrected. */
  lemma {:induction false} RightDeviceIff(before: Table, after: Table, c: Net, name: string, links: map<string, int>)
    requires KeptOrSent(before, after, c, name, links)
    ensures SentTo(after, c, name, links) <==> !HasDevice(before, c) || SentTo(before, c, name, links)
  {}

  /** What is listed as missing on the way from `kept` over `withLocal` to the final table. */
  ghost predicate Missing(kept: Table, local: SubnetInfoMap, remote: SubnetInfoMap, overlayIfName: string,
                          missingLocal: map<Net, string>, missingRemote: map<Net, string>)
  {
    && (forall c :: c in missingLocal <==> c in local && !HasDevice(kept, c))
    && (forall c :: c in missingLocal ==> missingLocal[c] == local[c].ifName)
    && (forall c :: c in missingRemote <==> c in remote && (c in local || !HasDevice(kept, c)))
    && (forall c :: c in missingRemote ==> missingRemote[c] == overlayIfName)
  }

  /** Stage by stage, the device routes become exactly the local and remote CIDRs. */
  lemma {:induction false} DeviceRoutes(kept: Table, withLocal: Table, withAll: Table, local: SubnetInfoMap,
                                        remote: SubnetInfoMap, overlayIfName: string, links: map<string, int>,
                                        missingLocal: map<Net, string>, missingRemote: map<Net, string>)
    requires forall n :: HasDevice(kept, n) ==> n in local || n in remote
    requires Missing(kept, local, remote, overlayIfName, missingLocal, missingRemote)
    requires Filled(kept, withLocal, missingLocal, links) && Filled(withLocal, withAll, missingRemote, links)
    ensures forall n :: HasDevice(withAll, n) <==> n in local || n in remote
    ensures DevicesSet(kept, withAll, local, remote, overlayIfName, links, {})
  {
    forall c | c in local && c !in remote ensures KeptOrSent(kept, withAll, c, local[c].ifName, links) {
      assert c !in missingRemote;
      assert c in withLocal;
    }
    forall c | c in remote && c !in local ensures KeptOrSent(kept, withAll, c, overlayIfName, links) {
      assert c !in missingLocal;
      if HasDevice(kept, c) { assert c in withLocal && c !in missingRemote; }
    }
  }

  /** Whatever the table held before, a successful call leaves a synced table; it succeeds when the links exist and no
      netlink call fails. */
  method EnsureToOverlaySubnetRoutes(kernel: RouteTable, local: SubnetInfoMap, remote: SubnetInfoMap,
                                     overlayIfName: string, links: map<string, int>,
                                     blocks: set<Net>) returns (ok: bool)
    modifies kernel
    ensures ok ==> SyncedTable(kernel.routes, local.Keys + remote.Keys, blocks)
    ensures ok ==> DevicesSet(old(kernel.routes), kernel.routes, local, remote, overlayIfName, links, blocks)
    ensures ok ==> kernel.failures == old(kernel.failures)
    ensures LinksFound(local, remote, overlayIfName, links) && kernel.failures == old(kernel.failures) ==> ok
  {
    var existLocal: set<Net>, existRemote: set<Net>;
    ok, existLocal, existRemote := DropStaleRoutes(kernel, local.Keys, remote.Keys);
    if !ok {
      return false;
    }
    ok := EnsureDeviceRoutes(kernel, local, remote, overlayIfName, links, existLocal, existRemote);
    if !ok {
      return false;
    }
    ok := EnsureExcludedIPBlockRoutes(kernel, blocks);
  }

  /** The device routes that are missing, first the local and then the remote ones. */
  method EnsureDeviceRoutes(kernel: RouteTable, local: SubnetInfoMap, remote: SubnetInfoMap, overlayIfName: string,
                            links: map<string, int>, existLocal: set<Net>, existRemote: set<Net>) returns (ok: bool)
    requires forall n :: HasDevice(kernel.routes, n) ==> n in local || n in remote
    requires forall n :: n in existLocal <==> n in local && HasDevice(kernel.routes, n)
    requires forall n :: n in existRemote <==> n !in local && n in remote && HasDevice(kernel.routes, n)
    modifies kernel
    ensures kernel.failures >= old(kernel.failures)
    ensures ok ==> forall n :: HasDevice(kernel.routes, n) <==> n in local || n in remote
    ensures ok ==> DevicesSet(old(kernel.routes), kernel.routes, local, remote, overlayIfName, links, {})
    ensures ok ==> kernel.failures == old(kernel.failures)
    ensures LinksFound(local, remote, overlayIfName, links) && kernel.failures == old(kernel.failures) ==> ok
  {
    ghost var kept := kernel.routes;
    var missingLocal := map c | c in local && c !in existLocal :: local[c].ifName;
    ok := EnsureSubnetRoutes(kernel, missingLocal, links);
    if !ok {
      return false;
    }
    ghost var withLocal := kernel.routes;
    var missingRemote := map c | c in remote && c !in existRemote :: overlayIfName;
    ok := EnsureSubnetRoutes(kernel, missingRemote, links);
    if !ok {
      return false;
    }
    DeviceRoutes(kept, withLocal, kernel.routes, local, remote, overlayIfName, links, missingLocal, missingRemote);
  }

  lemma {:induction false} CoveredIsInSomeBlock(width: nat, bs: seq<Net>, blocks: set<Net>, x: int)
    requires Covered(width, bs, x) && forall i :: 0 <= i < |bs| ==> bs[i] in blocks
    ensures InSomeBlock(width, blocks, x)
  {
    var i :| 0 <= i < |bs| && Contains(width, bs[i], x);
    assert bs[i] in blocks;
  }

  method FindExcludeIPBlockMap(width: nat, infos: SubnetInfoMap) returns (r: Result<set<Net>>)
    requires ValidInfos(width, infos)
    ensures r.Err? <==> exists c :: c in infos && Malformed(width, c, infos[c])
    ensures r.Ok? ==> ExcludeBlocks(width, r.value, infos)
  {
    var blocks: set<Net> := {};
    var todo := infos.Keys;
    while todo != {}
      invariant todo <= infos.Keys
      invariant forall c :: c in infos && c !in todo ==> !Malformed(width, c, infos[c])
      invariant forall b :: b in blocks ==> BlockOfSome(width, b, infos)
      invariant forall c, x: int :: c in infos && c !in todo && ExcludedIn(width, c, infos[c], x) ==>
                  InSomeBlock(width, blocks, x)
    {
      var c :| c in todo;
      todo := todo - {c};
      var info := infos[c];
      assert ValidInfo(width, c, info);
      var found := FindSubnetExcludeIPBlocks(width, c, info.included, info.gateway, info.excludeIPs);
      if found.Err? {
        return Err;
      }
      ghost var before := blocks;
      blocks := blocks + set i | 0 <= i < |found.value| :: found.value[i];
      forall b | b in blocks ensures BlockOfSome(width, b, infos) {
        if b !in before {
          var i :| 0 <= i < |found.value| && found.value[i] == b;
          BlockCoversExcluded(width, found.value, i, c, info);
        }
      }
      forall x: int | ExcludedIn(width, c, info, x) ensures InSomeBlock(width, blocks, x) {
        CoveredIsInSomeBlock(width, found.value, blocks, x);
      }
      forall x: int | InSomeBlock(width, before, x) ensures InSomeBlock(width, blocks, x) {
        var b :| b in before && Contains(width, b, x);
        assert b in blocks;
      }
    }
    return Ok(blocks);
  }

  lemma {:induction false} BlockCoversExcluded(width: nat, bs: seq<Net>, i: nat, c: Net, info: SubnetInfo)
    requires AllNets(width, bs) && i < |bs|
    requires forall x: int :: Covered(width, bs, x) <==> ExcludedIn(width, c, info, x)
    ensures BlockOf(width, bs[i], c, info)
  {
    forall x: int | Contains(width, bs[i], x) ensures ExcludedIn(width, c, info, x) {
      assert Covered(width, bs, x);
    }
  }

  lemma {:induction false} CombineBlocks(width: nat, p: set<Net>, local: SubnetInfoMap, q: set<Net>,
                                         remote: SubnetInfoMap)
    requires ExcludeBlocks(width, p, local) && ExcludeBlocks(width, q, remote)
    requires local.Keys !! remote.Keys
    ensures ExcludeBlocks(width, p + q, local + remote)
  {
    var all := local + remote;
    forall b | b in p + q ensures BlockOfSome(width, b, all) {
      if b in p {
        var c :| c in local && BlockOf(width, b, c, local[c]);
        assert all[c] == local[c];
      } else {
        var c :| c in remote && BlockOf(width, b, c, remote[c]);
        assert all[c] == remote[c];
      }
    }
    forall c, x: int | c in all && ExcludedIn(width, c, all[c], x) ensures InSomeBlock(width, p + q, x) {
      if c in local {
        assert InSomeBlock(width, p, x);
        var b :| b in p && Contains(width, b, x);
        assert b in p + q;
      } else {
        assert InSomeBlock(width, q, x);
        var b :| b in q && Contains(width, b, x);
        assert b in p + q;
      }
    }
  }

  /** What one more subnet object with the same CIDR adds to the information about it. */
  function Extend(width: nat, c: Net, info: SubnetInfo, start: Option<nat>, end: Option<nat>,
                  excludeIPs: seq<nat>): SubnetInfo
    requires c.ones <= width
  {
    var s := if start.Some? then start.value else c.base;
    var e := if end.Some? then end.value else Last(width, c);
    var ranges := if (start == None && end == None) || s > e then [] else [Span(s, e)];
    info.(excludeIPs := info.excludeIPs + excludeIPs, included := info.included + ranges)
  }

  /** The arguments a caller takes from a validated subnet object. */
  ghost predicate ValidArguments(width: nat, c: Net, gateway: Option<nat>, excludeIPs: seq<nat>)
  {
    ValidInfo(width, c, SubnetInfo(gateway, excludeIPs, [], ""))
  }

  /** One more subnet object leaves the gateway and the device as they are, adds its excluded addresses, and adds the
      addresses from its start, or the base of the CIDR, to its end, or the last address of the CIDR, if it names
      either. */
  lemma {:induction false} ExtendMeans(width: nat, c: Net, info: SubnetInfo, start: Option<nat>, end: Option<nat>,
                                       excludeIPs: seq<nat>, x: int)
    requires c.ones <= width
    ensures var more := Extend(width, c, info, start, end, excludeIPs);
            && more.gateway == info.gateway && more.ifName == info.ifName
            && (x in more.excludeIPs <==> x in info.excludeIPs || x in excludeIPs)
            && (InSome(more.included, x) <==> InSome(info.included, x) || Ranged(width, c, start, end, x))
  {
    var more := Extend(width, c, info, start, end, excludeIPs);
    if InSome(info.included, x) {
      var i :| 0 <= i < |info.included| && info.included[i].Has(x);
      assert more.included[i].Has(x);
    }
    if Ranged(width, c, start, end, x) { assert more.included[|info.included|].Has(x); }
    if InSome(more.included, x) {
      var i :| 0 <= i < |more.included| && more.included[i].Has(x);
      if i < |info.included| { assert info.included[i].Has(x); }
    }
  }

  /** The address lies in the range the subnet object names; an end it leaves out is the end of the CIDR. */
  ghost predicate Ranged(width: nat, c: Net, start: Option<nat>, end: Option<nat>, x: int)
    requires c.ones <= width
  {
    && (start.Some? || end.Some?)
    && (start.Some? ==> start.value <= x) && (start.None? ==> c.base <= x)
    && (end.Some? ==> x <= end.value) && (end.None? ==> x <= Last(width, c))
  }

  lemma {:induction false} ExtendKeepsValid(width: nat, c: Net, info: SubnetInfo, start: Option<nat>,
                                            end: Option<nat>, excludeIPs: seq<nat>)
    requires ValidInfo(width, c, info) && ValidArguments(width, c, None, excludeIPs)
    ensures ValidInfo(width, c, Extend(width, c, info, start, end, excludeIPs))
  {
    var more := info.excludeIPs + excludeIPs;
    forall i | 0 <= i < |more| ensures Inner(width, more[i]) {
      if i >= |info.excludeIPs| { assert more[i] == excludeIPs[i - |info.excludeIPs|]; }
    }
  }

  class Manager {
    const width: nat
    var overlayIfName: string
    // The overlay and the underlay map of the local cluster share their entries with the map of all
    // local subnets, so they are sets of keys into it.
    var localTotal: SubnetInfoMap
    var localOverlay: set<Net>
    var localUnderlay: set<Net>
    var remoteOverlay: SubnetInfoMap
    var remoteUnderlay: SubnetInfoMap

    ghost predicate Valid()
      reads this
    {
      && ValidInfos(width, localTotal) && ValidInfos(width, remoteOverlay) && ValidInfos(width, remoteUnderlay)
      && localOverlay <= localTotal.Keys && localUnderlay <= localTotal.Keys
    }

    function Local(keys: set<Net>): (infos: SubnetInfoMap)
      requires keys <= localTotal.Keys
      reads this
      ensures infos.Keys == keys
    {
      map c | c in keys :: localTotal[c]
    }

    constructor (width: nat)
      ensures Valid() && this.width == width && localTotal == map[] && remoteOverlay == map[] && remoteUnderlay == map[]
    {
      this.width := width;
      overlayIfName := "";
      localTotal, remoteOverlay, remoteUnderlay := map[], map[], map[];
      localOverlay, localUnderlay := {}, {};
    }

    method ResetInfos()
      modifies this
      ensures Valid() && localTotal == map[] && remoteOverlay == map[] && remoteUnderlay == map[]
      ensures localOverlay == {} && localUnderlay == {} && overlayIfName == old(overlayIfName)
    {
      localTotal, remoteOverlay, remoteUnderlay := map[], map[], map[];
      localOverlay, localUnderlay := {}, {};
    }

    /** The gateway and device of the first subnet object with this CIDR stay; ranges and excluded
        addresses accumulate. */
    method AddSubnetInfo(cidr: Net, gateway: Option<nat>, start: Option<nat>, end: Option<nat>, excludeIPs: seq<nat>,
                         forwardNodeIfName: string, isOverlay: bool)
      requires Valid() && ValidArguments(width, cidr, gateway, excludeIPs)
      modifies this
      ensures Valid()
      ensures var first := if cidr in old(localTotal) then old(localTotal)[cidr]
                           else SubnetInfo(gateway, [], [], forwardNodeIfName);
              localTotal == old(localTotal)[cidr := Extend(width, cidr, first, start, end, excludeIPs)]
      ensures localOverlay == old(localOverlay) + if isOverlay then {cidr} else {}
      ensures localUnderlay == old(localUnderlay) + if isOverlay then {} else {cidr}
      ensures overlayIfName == if isOverlay then forwardNodeIfName else old(overlayIfName)
      ensures remoteOverlay == old(remoteOverlay) && remoteUnderlay == old(remoteUnderlay)
    {
      if cidr !in localTotal {
        localTotal := localTotal[cidr := SubnetInfo(gateway, [], [], forwardNodeIfName)];
      }
      ExtendKeepsValid(width, cidr, localTotal[cidr], start, end, excludeIPs);
      localTotal := localTotal[cidr := Extend(width, cidr, localTotal[cidr], start, end, excludeIPs)];
      if isOverlay {
        overlayIfName := forwardNodeIfName;
        localOverlay := localOverlay + {cidr};
      } else {
        localUnderlay := localUnderlay + {cidr};
      }
    }

    method AddRemoteSubnetInfo(cidr: Net, gateway: Option<nat>, start: Option<nat>, end: Option<nat>,
                               excludeIPs: seq<nat>,
                               isOverlay: bool)
      requires Valid() && ValidArguments(width, cidr, gateway, excludeIPs)
      modifies this
      ensures Valid()
      ensures var infos := if isOverlay then old(remoteOverlay) else old(remoteUnderlay);
              var first := if cidr in infos then infos[cidr] else SubnetInfo(gateway, [], [], "");
              var extended := infos[cidr := Extend(width, cidr, first, start, end, excludeIPs)];
              && remoteOverlay == (if isOverlay then extended else old(remoteOverlay))
              && remoteUnderlay == (if isOverlay then old(remoteUnderlay) else extended)
      ensures localTotal == old(localTotal) && localOverlay == old(localOverlay) && localUnderlay == old(localUnderlay)
      ensures overlayIfName == old(overlayIfName)
    {
      var infos := if isOverlay then remoteOverlay else remoteUnderlay;
      if cidr !in infos {
        infos := infos[cidr := SubnetInfo(gateway, [], [], "")];
      }
      ExtendKeepsValid(width, cidr, infos[cidr], start, end, excludeIPs);
      infos := infos[cidr := Extend(width, cidr, infos[cidr], start, end, excludeIPs)];
      if isOverlay {
        remoteOverlay := infos;
      } else {
        remoteUnderlay := infos;
      }
    }

    ghost predicate AnyMalformed(infos: SubnetInfoMap)
      requires ValidInfos(width, infos)
      reads this
    {
      exists c :: c in infos && Malformed(width, c, infos[c])
    }

    /** All overlay subnets, local and remote. */
    ghost function Overlay(): SubnetInfoMap
      requires Valid()
      reads this
    {
      Local(localOverlay) + remoteOverlay
    }

    ghost predicate SomeMalformed()
      requires Valid()
      reads this
    {
      || AnyMalformed(Local(localUnderlay)) || AnyMalformed(remoteUnderlay)
      || AnyMalformed(Local(localOverlay)) || AnyMalformed(remoteOverlay)
    }

    ghost predicate OverlayLinksFound(links: map<string, int>)
      requires Valid()
      reads this
    {
      LinksFound(Local(localOverlay), remoteOverlay, overlayIfName, links)
    }

    /** The device that the subnets of a CIDR are reached through. */
    ghost function DeviceOf(c: Net): string
      requires Valid()
      reads this
    {
      if c in localOverlay then localTotal[c].ifName else overlayIfName
    }

    /** The blocks that overlay subnets exclude; a malformed subnet of any kind is an error. */
    method FindOverlayBlocks() returns (r: Result<set<Net>>)
      requires Valid() && localOverlay !! remoteOverlay.Keys
      ensures r.Err? <==> SomeMalformed()
      ensures r.Ok? ==> ExcludeBlocks(width, r.value, Overlay())
    {
      var localUnderlayBlocks := FindExcludeIPBlockMap(width, Local(localUnderlay));
      if localUnderlayBlocks.Err? { return Err; }
      var remoteUnderlayBlocks := FindExcludeIPBlockMap(width, remoteUnderlay);
      if remoteUnderlayBlocks.Err? { return Err; }
      var localBlocks := FindExcludeIPBlockMap(width, Local(localOverlay));
      if localBlocks.Err? { return Err; }
      var remoteBlocks := FindExcludeIPBlockMap(width, remoteOverlay);
      if remoteBlocks.Err? { return Err; }
      CombineBlocks(width, localBlocks.value, Local(localOverlay), remoteBlocks.value, remoteOverlay);
      return Ok(localBlocks.value + remoteBlocks.value);
    }

    /** The part of SyncRoutes that fills the to-overlay-pod-subnet table.  A malformed subnet makes it
        fail before it touches the table; when it succeeds, the table forwards through the vxlan
        device exactly the addresses of overlay subnets that are not excluded there, whatever the
        table held before; each of them matches the CIDR of its subnet, whose route goes to the
        subnet's device unless a device route was there already. */
    method SyncOverlayRoutes(kernel: RouteTable, links: map<string, int>) returns (ok: bool)
      requires Valid() && OwnAddresses(width, Overlay())
      requires localOverlay !! remoteOverlay.Keys && Disjoint(width, Overlay().Keys)
      modifies kernel
      ensures SomeMalformed() ==> !ok && kernel.routes == old(kernel.routes)
      ensures !SomeMalformed() && OverlayLinksFound(links) && kernel.failures == old(kernel.failures) ==> ok
      ensures ok ==> forall x: int :: RoutedToDevice(width, kernel.routes, x) <==> OverlayAddress(width, Overlay(), x)
      ensures ok ==>
              forall x: int, n :: LongestMatch(width, kernel.routes, x, n) && !OverlayAddress(width, Overlay(), x) ==>
                                         kernel.routes[n].Throw?
      ensures ok ==> forall c, x: int :: Unexcluded(width, Overlay(), c, x) ==>
                       && LongestMatch(width, kernel.routes, x, c)
                       && KeptOrSent(old(kernel.routes), kernel.routes, c, DeviceOf(c), links)
    {
      var blocks := FindOverlayBlocks();
      if blocks.Err? {
        return false;
      }
      ok := EnsureToOverlaySubnetRoutes(kernel, Local(localOverlay), remoteOverlay, overlayIfName, links, blocks.value);
      if ok {
        ForwardsAll(width, kernel.routes, Overlay(), blocks.value);
      }
    }
  }
}
