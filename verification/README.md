# A verified model of hybridnet's address, route and ownership logic

hybridnet is a Kubernetes container network. This project models, in Dafny 4.11, the parts of it whose correctness rests on
arithmetic, on state that survives many calls, or on the order in which concurrent calls interleave, and proves what those parts
are for. `dafny verify dfyconfig.toml` checks everything.

| area | modules |
|---|---|
| Excluded addresses as CIDR blocks, and the overlay route table built from them | `Dyadic`, `BlockCover`, `IPRanges`, `Routes` |
| Address management: subnets, cyclic allocation, dual-stack pairing, overlap, usage reports | `SubnetModel`, `Subnets`, `NetworkModel`, `SelectionOrder`, `Capacity`, `UsageReports`, `Ownership`, `Overlaps`, `Networks`, `AllocatorModel`, `Allocators`, `CallRuns`, `SuccessiveCalls` |
| The ipset restore script and the in-place set refresh | `IPSetKernel`, `IPSetRestore`, `IPSetRefresh` |
| Cluster UUID ownership across reconciles, locks and status checks | `UUIDMutexes`, `DaemonHubs`, `Multicluster`, `LatestUUIDs`, `LoneReconciles` |
| Intersection of address ranges | `AddressRanges` |
| The ARP codec and IPInstance names | `Arp`, `Texts`, `InstanceNames` |

How the model is built:

- Code that updates fields in place is a class whose methods are proved equal to a function of the old state (`Subnets.Subnet`,
  `Networks.Network`, `Routes.Manager`, `IPSetRefresh.IPSet`, `UUIDMutexes.UUIDMutex`, `DaemonHubs.DaemonHub`, `Arp.Packet`). What
  the source promises is then proved about those functions, over all inputs and all runs.
- Addresses are integers; every result about CIDR blocks holds for any address width, so for 32 and 128 bits alike. Integer widths
  appear where they matter: the 32-bit usage counters, the 8-bit buffer size of an ARP packet, the byte decrement in `LastIP`.
- Maps that Go iterates in random order are iterated in any order, and `sort.Slice` may leave equal starts in any order.
- Concurrency is a state machine: in `Multicluster` every lock-protected call is one atomic step, reconciles are serial per cluster
  name, and any interleaving of steps is a run.
- Every command to the kernel, netlink and ipset queries included, can fail at any call, and a reconcile can stop at any point.

Main results, hardest first:

- The greedy split of a range is exact, no cover of the range by CIDR blocks is shorter, and it has at most 2W-2 blocks.
- Longest-prefix match in the synced overlay table forwards exactly the addresses of overlay subnets that are not excluded, whatever
  the table held before, and each of them to the device of its subnet unless a device route was there already.
- Of any successive calls that use a network up, exactly as many succeed as the usage report says, if and only if the counters do not
  wrap: for requests of one address when their number fits 32 bits, for dual-stack pairs when their number does and no counter of a net
  ID wraps below its own pairs. A wrapped report is always too small.
- In every interleaving every running daemon is registered, every registered ID is locked by the cluster that registered it, only the
  owner's own reconcile unlocks a UUID, and a UUID changes hands only through a state in which it is free and has no daemon. A
  reconcile of a live cluster never unlocks the UUID it was fetched with.
- The restore script is correct from any kernel state with fitting options, and at every command boundary each managed set holds its old
  or its new members.

Where the code does not do what its documentation or its callers expect, the code is modelled as it is and the exact condition is
proved:

- `MarshalBinary` is documented never to fail; it panics exactly when the packet needs more than 255 bytes, because the size is
  computed in eight bits (`Arp.BufferFits`, `Arp.EncodePanics`). A packet made by `NewPacket` survives the wire exactly when both
  hardware addresses have the same length of at most 119 bytes (`Arp.NewPacketSurvives`, `Arp.NewPacketLost`): the broadcast target is
  exempt from the documented length check.
- An IPInstance name is read back as `<nil>` exactly when the address text begins or ends with "::" and has fewer than seven colons
  (`InstanceNames.ReadsBackIff`, `InstanceNames.NameLost`). Names are distinct all the same.
- A device route to an overlay subnet is left alone even if it names an outdated device (`Routes.RightDeviceIff`).
- `LastIP` lies inside an IPv4 network exactly when the prefix is shorter than 32 bits (`AddressRanges.LastIPInside`,
  `AddressRanges.LastIPWraps`).
- The usage reports wrap (`UsageReports.SingleReportIsExact`, `UsageReports.DualReportIsExact`, with inputs in
  `UsageReports.SingleReportMisses` and `UsageReports.DualReportMisses`). Both inputs have a subnet larger than the 2^16 addresses that
  admission accepts (pkg/webhook/validating/subnet.go:122-125). With at most 2^16 free addresses per subnet and fewer than 2^16
  subnets no counter wraps and the reports predict every sequence of calls (`SuccessiveCalls.AdmittedUsage`). Admission computes the
  capacity by a conversion to int64 (pkg/apis/networking/v1/utils.go:225-229) that is not defined for differences of 2^63 and more, so
  that bound is a hypothesis here.
- `Overlap` looks at the ends of the ranges only. It misses a shared address exactly when some common address of the ranges is hidden in
  neither subnet and every end of one range that lies in the other is the other subnet's gateway or black-listed there
  (`Overlaps.OverlapMissesIff`, `Overlaps.OverlapMisses`). It refuses subnets that share nothing exactly when some such end is not
  hidden and every common address is hidden in one of the two (`Overlaps.OverlapRefusesIff`, `Overlaps.OverlapRefuses`).
- A live reconcile takes the latest UUID from its own cluster exactly when that UUID is the orphan at hand, which happens only when the
  cluster locks another UUID meanwhile (`LatestUUIDs.LatestLostIff`, `LatestUUIDs.LatestSurvives`, `LatestUUIDs.LatestLost`).
- Unlocking undoes a new lock exactly when the cluster had no latest UUID before (`UUIDMutexes.UnlockUndoesLock`,
  `UUIDMutexes.UnlockForgetsLatest`).
- A hub registers one daemon under two IDs exactly when a registered daemon is registered under a free ID
  (`DaemonHubs.SecondIDIff`); running daemons stay registered all the same (`DaemonHubs.RunningStayRegistered`).
- Releasing a reserved address leaves the last pod's name on it (`Ownership.ReleaseRemembersPod`).
- A refresh of an ipset is exact if and only if no leftover temporary set holds other entries (`IPSetRefresh.RefreshExactIff`,
  `IPSetRefresh.RefreshKeepsLeftover`).

## Model

| member | source | states |
|---|---|---|
| `BlockCover.GreedyIsExact` | pkg/daemon/utils/ip_range.go:158-172 | the blocks taken greedily from the front cover every address of the range and no other |
| `BlockCover.GreedyIsMinimal` | pkg/daemon/utils/ip_range.go:158-172 | no list of CIDR blocks with the same union is shorter than the greedy one |
| `BlockCover.GreedyBound` | pkg/daemon/utils/ip_range.go:158-172 | any range of a W-bit space, W at least 2, needs at most 2W-2 blocks |
| `IPRanges.CalculateIPLastZeroBits` | pkg/daemon/utils/ip_range.go:174-185 | the largest number of host bits for which the address is aligned |
| `IPRanges.FindTheFirstLargestCidr` | pkg/daemon/utils/ip_range.go:187-216 | the largest CIDR block that starts at the range's start and stays inside it, and where the rest begins |
| `IPRanges.IPRange.TryAddIP` | pkg/daemon/utils/ip_range.go:49-66 | succeeds exactly for an address inside or next to the range, and then holds the old addresses and the new one and nothing else |
| `IPRanges.IPRange.SplitIPRangeToIPBlocks` | pkg/daemon/utils/ip_range.go:158-172 | the loop ends with an exact cover that is as short as any and within the bound |
| `IPRanges.SortByStart` | pkg/daemon/utils/ip_range.go:77-79 | the included ranges as a permutation in order of their starts; nothing is said about equal starts |
| `IPRanges.NeighboursSuffice` | pkg/daemon/utils/ip_range.go:77-92 | in sorted order some two ranges overlap exactly when two neighbours do |
| `IPRanges.OrderIrrelevant` | pkg/daemon/utils/ip_range.go:77-92 | whether the input is rejected does not depend on the order of the ranges |
| `IPRanges.AdmittedIff` | pkg/daemon/utils/ip_range.go:77-126 | the checks on any sorted order reject exactly ranges that leave the CIDR or overlap |
| `IPRanges.FindGaps` | pkg/daemon/utils/ip_range.go:77-126 | the gap loop fails exactly on a rejected list and otherwise returns the gaps of the CIDR |
| `IPRanges.GapsOfCidr` | pkg/daemon/utils/ip_range.go:77-126 | an address is in a gap exactly when it is in the CIDR and in no included range; without included ranges there are no gaps |
| `IPRanges.AddIP` | pkg/daemon/utils/ip_range.go:128-148 | an address goes into the first range that takes it, or into a new one; the ranges are updated in place |
| `IPRanges.FoldIPsCovers` | pkg/daemon/utils/ip_range.go:128-148 | adding addresses one by one adds exactly those addresses |
| `IPRanges.ExcludedSpansCover` | pkg/daemon/utils/ip_range.go:69-156 | gaps and single addresses together are exactly what must be excluded |
| `IPRanges.SplitAll` | pkg/daemon/utils/ip_range.go:150-155 | the blocks of all ranges cover exactly the ranges |
| `IPRanges.FindSubnetExcludeIPBlocks` | pkg/daemon/utils/ip_range.go:69-156 | an error exactly when an included range leaves the CIDR or two overlap; otherwise blocks whose union is exactly the CIDR minus the included ranges, the excluded addresses and the gateway |
| `Routes.OverlayForwarding` | pkg/daemon/route/route.go:384-451 | in a synced table with disjoint overlay CIDRs, longest-prefix match picks a device route exactly for overlay addresses that are not excluded; every other match is a throw route, and addresses outside all CIDRs match nothing |
| `Routes.EnsureExcludedIPBlockRoutes` | pkg/daemon/route/utils.go:502-531 | succeeds exactly when no netlink call fails; then throw routes are exactly at the blocks and device routes stay unless replaced |
| `Routes.DropStaleRoutes` | pkg/daemon/route/route.go:384-408 | succeeds exactly when no netlink call fails; then exactly the device routes of unknown CIDRs are deleted and the known ones are reported; even on failure no route is added or changed |
| `Routes.EnsureSubnetRoutes` | pkg/daemon/route/route.go:410-443 | every missing CIDR gets a route to its device; it fails exactly when a device is missing or a netlink call fails |
| `Routes.EnsureToOverlaySubnetRoutes` | pkg/daemon/route/route.go:384-451 | from any earlier contents a successful call leaves exactly the device routes of the known CIDRs and exactly the throw routes of the blocks; a missing local CIDR goes to the device of its subnet, a missing remote one to the overlay device, and a device route that was there stays as it is; it succeeds when the devices exist and no netlink call fails |
| `Routes.RightDeviceIff` | pkg/daemon/route/route.go:391-443 | a known CIDR goes to its device afterwards exactly when it had no device route before or one to that device: an outdated device is not corrected |
| `Routes.FindExcludeIPBlockMap` | pkg/daemon/route/utils.go:533-548 | an error exactly when some subnet is malformed; otherwise exactly the blocks of all subnets |
| `Routes.CombineBlocks` | pkg/daemon/route/utils.go:573-587 | the combined blocks of local and remote subnets are the blocks of the combined subnets |
| `Routes.Manager.ResetInfos` | pkg/daemon/route/route.go:181-187 | all collected subnets are forgotten, the overlay device name is not |
| `Routes.Manager.AddSubnetInfo` | pkg/daemon/route/route.go:189-234 | the first object of a CIDR fixes gateway and device, ranges and excluded addresses accumulate, and the overlay and underlay views share the record |
| `Routes.ExtendMeans` | pkg/daemon/route/route.go:207-225 | one more subnet object keeps gateway and device, adds its excluded addresses, and adds the range it names, an end it leaves out being the end of the CIDR |
| `Routes.Manager.AddRemoteSubnetInfo` | pkg/daemon/route/route.go:236-283 | the same accumulation for remote subnets, per overlay or underlay |
| `Routes.Manager.SyncOverlayRoutes` | pkg/daemon/route/route.go:285-322 | a malformed subnet fails before the table is touched; otherwise it succeeds when the devices exist and no netlink call fails; on success the table forwards exactly the overlay addresses that are not excluded, and each of them matches the CIDR of its subnet, whose route goes to the device of the subnet unless a device route was there before |
| `SubnetModel.CanonicalRange` | pkg/ipam/types/subnet.go:324-419 | a valid subnet gets a range inside its CIDR; without a start the network address is not allocatable, without an end the IPv4 broadcast address is not, and every other address that bounds, gateway and black list admit is |
| `SubnetModel.RefusedIff` | pkg/ipam/types/subnet.go:342-388 | a subnet is refused exactly for a missing name, a block with fewer than four addresses or host bits set, or a gateway, start or end outside the block |
| `SubnetModel.CanonicalFields` | pkg/ipam/types/subnet.go:324-338 | canonicalizing sets the range and no other field |
| `SubnetModel.SyncEstablishes` | pkg/ipam/types/subnet.go:423-480 | Sync from any recorded addresses gives a subnet in which reserved addresses are held and the slice is the rest of the range in order |
| `SubnetModel.SyncFields` | pkg/ipam/types/subnet.go:425-478 | after Sync the net ID is the subnet's own if it has one and the network's otherwise, every other field is as before, and the reserved and the available addresses are exactly the allocatable ones, listed and not |
| `SubnetModel.SyncHolders` | pkg/ipam/types/subnet.go:439-463 | Sync takes over exactly the recorded addresses of the subnet, as recorded, and holds every other reserved address without a pod, in the reserved status, with the data of the subnet |
| `SubnetModel.SyncCursor` | pkg/ipam/types/subnet.go:465-477 | the cursor stands on the last allocated address, or before the first if that one is not available |
| `SubnetModel.Accounting` | pkg/ipam/types/subnet.go:494-511 | used plus free is the slice, without underflow, and there is room exactly when some address of the slice is free |
| `SubnetModel.AllocateNextSpec` | pkg/ipam/types/subnet.go:513-540 | succeeds exactly when an address is free, hands out a free one and uses up one; the record has the pod, the Using status and the prefix length, gateway, net ID, name and network of the subnet; a failure changes no holder |
| `SubnetModel.AvailableIffAllocates` | pkg/ipam/types/subnet.go:494-496 | IsAvailable holds exactly when the subnet is not private and the next allocation would succeed |
| `SubnetModel.AssignKeepsInv` | pkg/ipam/types/subnet.go:550-579 | a granted assignment holds the address as Using and changes no other; a new record has the data of the subnet, a record taken over keeps them; a refused one changes nothing |
| `SubnetModel.ReleaseKeepsInv` | pkg/ipam/types/subnet.go:542-548 | a release removes the address unless it is reserved and changes no other |
| `SubnetModel.ReachableStates` | pkg/ipam/types/subnet.go:423-579 | after Sync and any run of allocate, assign and release: reserved addresses held, other used addresses in the slice, counters add up, IsAvailable predicts the next allocation |
| `SubnetModel.SyncIsIdempotent` | pkg/ipam/types/subnet.go:423-480 | Sync with the subnet's own holders and its current address rebuilds slice, cursor, reserved addresses and holders |
| `SubnetModel.ScanVisitsMeaning` | pkg/ipam/types/subnet.go:513-540 | an allocation looks at addresses cyclically and hands out the first one not in use |
| `SubnetModel.LogIsCyclic` | pkg/ipam/types/ip.go:81-84 | over a whole run the cursor moves one position at a time |
| `SubnetModel.LookMeans` | pkg/ipam/types/subnet.go:513-540 | every look of the cursor in a run was made by one allocation of the run, which hands the address out unless it is in use at that moment |
| `SubnetModel.RoundRobin` | pkg/ipam/types/subnet.go:513-540 | between two looks at an address every other address was looked at, and the allocation that made that look handed it out or found it in use |
| `Subnets.IPSlice.Add` | pkg/ipam/types/ip.go:69-75 | appends, and moves the cursor to a default address |
| `Subnets.IPSlice.Next` | pkg/ipam/types/ip.go:81-84 | moves the cursor cyclically and returns the address there |
| `Subnets.Subnet.Canonicalize` | pkg/ipam/types/subnet.go:324-390 | succeeds exactly on a valid subnet and fills in the range; otherwise nothing changes |
| `Subnets.Subnet.Sync` | pkg/ipam/types/subnet.go:423-480 | the loops compute the specified state; the net ID is the subnet's own if it has one and the network's otherwise, and no other field of the subnet changes |
| `Subnets.Subnet.AllocateNext` | pkg/ipam/types/subnet.go:513-540 | the loop is the specified cyclic search, whose result `AllocateNextSpec` describes field by field |
| `Subnets.Subnet.Release` | pkg/ipam/types/subnet.go:542-548 | the specified release |
| `Subnets.Subnet.Assign` | pkg/ipam/types/subnet.go:550-579 | the specified assignment |
| `NetworkModel.ClassifyIsPartition` | pkg/ipam/types/subnet.go:245-299 | every available subnet is in exactly the list of its family and of whether its net ID has both families, once |
| `NetworkModel.PairedHeads` | pkg/ipam/types/subnet.go:245-299 | the two paired lists are empty together and their heads share a net ID |
| `NetworkModel.NextAvailableSpec` | pkg/ipam/types/subnet.go:69-85 | the rotating search finds the first available subnet from the cursor on, and none exactly when there is none |
| `NetworkModel.PickSpec` | pkg/ipam/types/subnet.go:87-134 | a family request fails only if the family has no available subnet and takes a partnered one only if there is no other |
| `NetworkModel.PickPairSpec` | pkg/ipam/types/subnet.go:136-164 | a pair is one available subnet of each family with one net ID, and is missing only if none exists |
| `SelectionOrder.PickOrder` | pkg/ipam/types/subnet.go:87-164 | a family request takes the first subnet without a partner from the cursor on or, without any, the first one in the group of the first available subnet that has a partner; a pair is the first subnet of each family in that group |
| `NetworkModel.EqualNetIDs` | pkg/ipam/types/subnet.go:595-600 | two subnets have one net ID exactly when both name it or neither does, where none is the same as zero |
| `Capacity.DualStepUsesOnePair` | pkg/ipam/allocator/dualstack_allocator.go:170-203 | a dual-stack allocation uses up exactly one pair |
| `Capacity.SingleStepUsesOne` | pkg/ipam/allocator/allocator.go:100-120 | an allocation of one address, from whichever available subnet of the family, uses up exactly one |
| `SuccessiveCalls.PairCalls` | pkg/ipam/allocator/dualstack_allocator.go:170-203 | of successive unnamed dual-stack allocations for any pods exactly the first ones succeed, as many as there are pairs |
| `SuccessiveCalls.OneCalls` | pkg/ipam/allocator/dualstack_allocator.go:110-168 | the same for allocations of one address, of one family or by the single-stack allocator |
| `SuccessiveCalls.PairUsage` | pkg/ipam/types/subnet.go:194-243 | without private subnets exactly the first `DualStackUsage()[2].Available` calls succeed if and only if the pairs fit 32 bits and no counter of a net ID wraps below its own pairs |
| `SuccessiveCalls.OneUsage` | pkg/ipam/types/network.go:147-161 | without private subnets exactly the first `Available` calls succeed, for the network and for each family, if and only if that number fits 32 bits |
| `SuccessiveCalls.AdmittedUsage` | pkg/ipam/types/subnet.go:194-243 | with at most 2^16 free addresses per subnet, fewer than 2^16 subnets and no private one, the reports predict every sequence of calls |
| `UsageReports.AdmittedReportsAreExact` | pkg/webhook/validating/subnet.go:122-125 | at that size no counter wraps, so both reports equal the allocations that are left |
| `UsageReports.ReportAddsUp` | pkg/ipam/types/subnet.go:504-511 | in the report of a network or a family used plus available is total, in 32 bits |
| `UsageReports.ReportCounts` | pkg/ipam/types/subnet.go:504-511 | the three numbers count, in 32 bits, the allocatable addresses that are not reserved, those in use and those not in use |
| `UsageReports.FamilyReportsAddUp` | pkg/ipam/types/subnet.go:194-243 | the reports of the two families add up to the report of the network |
| `UsageReports.SingleReportIsExact` | pkg/ipam/types/network.go:147-161 | Available never exceeds the allocations that are left and equals their number exactly when it fits 32 bits |
| `UsageReports.DualReportIsExact` | pkg/ipam/types/subnet.go:194-243 | the report never exceeds the pairs that are left and equals their number exactly when it fits 32 bits and no counter wraps below its own pairs |
| `UsageReports.SingleReportMisses` | pkg/ipam/types/network.go:147-161 | a subnet with 2^32 free addresses is reported as full |
| `UsageReports.DualReportMisses` | pkg/ipam/types/subnet.go:194-243 | ten pairs are reported as three |
| `Ownership.HolderUntilRelease` | pkg/ipam/types/subnet.go:513-579 | over any run an address in use keeps its holder until it is released, even under forced assignment by others |
| `Ownership.NeverHeldTwice` | pkg/ipam/types/subnet.go:392-419 | with non-overlapping subnets no run holds an address in two subnets |
| `CallRuns.CallIsRun` | pkg/ipam/allocator/dualstack_allocator.go:94-401 | every allocate, assign and release call changes the subnets by a run of subnet operations that releases nothing but the address asked for or one that was not held |
| `CallRuns.HolderUntilReleaseCall` | pkg/ipam/allocator/dualstack_allocator.go:94-401 | over any sequence of calls, forced assignments and failed dual-stack allocations included, an address in use keeps its holder until a call releases it |
| `CallRuns.NeverHeldTwiceByCalls` | pkg/ipam/allocator/dualstack_allocator.go:94-401 | with non-overlapping subnets no sequence of calls holds an address in two subnets |
| `Overlaps.OverlapMissesIff` | pkg/ipam/types/subnet.go:483-492 | a shared address is missed exactly when the ranges have a common address hidden in neither subnet and every end of one range that lies in the other is hidden there |
| `Overlaps.OverlapRefusesIff` | pkg/ipam/types/subnet.go:483-492 | subnets that share nothing are refused exactly when some end lies unhidden in the other range and every common address is hidden in one of the two |
| `Overlaps.OverlapIsExact` | pkg/ipam/types/subnet.go:483-492 | when no end is hidden the check is true exactly when the ranges meet |
| `Overlaps.OverlapMisses` | pkg/ipam/types/subnet.go:483-492 | two subnets with equal ranges, gateway first and black-listed address last, share an address unnoticed |
| `Overlaps.OverlapRefuses` | pkg/ipam/types/subnet.go:483-492 | 10.0.0.1-5 beside 10.0.0.5-9 with gateway 10.0.0.5 is refused although nothing is shared |
| `Overlaps.AdmittedAreApart` | pkg/webhook/validating/subnet.go:135-142 | subnets that pass the check pairwise, with no end of a range hidden in another subnet, share no address |
| `Ownership.ForcedTakeover` | pkg/ipam/types/subnet.go:550-579 | force takes an address from another pod exactly when it is in the reserved state |
| `Ownership.ReleaseRemembersPod` | pkg/ipam/types/subnet.go:542-548 | a released reserved address keeps its pod, which alone may take it back without force |
| `Networks.Network.AddSubnet` | pkg/ipam/types/subnet.go:42-59 | a malformed subnet is refused and nothing changes; otherwise it is canonicalized, synced and appended with its own or the network's net ID, the others do not change, and the cursor turns to it exactly if it was allocated from last |
| `Networks.Network.GetSubnet` | pkg/ipam/types/subnet.go:61-67 | the subnet of that name, missing exactly when no subnet has it |
| `Networks.Network.GetSubnetByIP` | pkg/ipam/types/subnet.go:166-174 | the first subnet that contains the address, or none does |
| `Networks.Network.GetAvailableSubnet` | pkg/ipam/types/subnet.go:69-85 | the cursor turns to the next available subnet and stays where it was on failure |
| `Networks.Network.Classify` | pkg/ipam/types/subnet.go:245-299 | the grouping loops compute the four lists of the partition |
| `Networks.Network.GetAvailableIPv4Subnet` | pkg/ipam/types/subnet.go:87-108 | the specified choice for IPv4, with the cursor on it |
| `Networks.Network.GetAvailableIPv6Subnet` | pkg/ipam/types/subnet.go:110-134 | the specified choice for IPv6, with the cursor on it |
| `Networks.Network.GetAvailablePairedDualStackSubnets` | pkg/ipam/types/subnet.go:136-164 | the specified pair, with the cursor on its IPv4 subnet |
| `Networks.Network.Usage` | pkg/ipam/types/network.go:147-161 | total, used and available are the true sums over all subnets, in 32 bits, in whatever order they are added |
| `Networks.Network.DualStackUsage` | pkg/ipam/types/subnet.go:194-243 | the reports of the two families are the true sums, and the third is the smaller counter of each net ID added up, all in 32 bits |
| `AllocatorModel.AllocatedSpec` | pkg/ipam/allocator/allocator.go:100-120 | succeeds exactly when the named subnet, or without a name some available subnet, has a free address; then exactly one more address is held, recorded for the pod with the data of the subnet; without a name it is the first available subnet from the cursor on, to which the cursor turns; otherwise no holder changes |
| `AllocatorModel.AllocatedFamilySpec` | pkg/ipam/allocator/dualstack_allocator.go:110-168 | the same for one family; more than one name is an error, and an unnamed request spares partnered subnets while another is available and takes the subnet that `PickOrder` describes |
| `AllocatorModel.UndoRestores` | pkg/ipam/allocator/dualstack_allocator.go:170-203 | releasing the IPv4 address after the IPv6 failure restores all holders |
| `AllocatorModel.AllocatedPairSpec` | pkg/ipam/allocator/dualstack_allocator.go:170-203 | both addresses, recorded for the pod with the data of their subnets, or none; succeeds exactly when the named pair, or without names some available pair, has a free address in both subnets; without names it is the pair that `PickOrder` describes |
| `AllocatorModel.AssignGrants` | pkg/ipam/types/subnet.go:550-579 | an assignment is granted exactly for an address of the subnet that is free, held for this very pod, or reserved and taken by force; a new record has the data of the subnet, a record taken over keeps prefix length, gateway, net ID and network; the pod is the one asked for, where given |
| `AllocatorModel.AssignRequestOutcome` | pkg/ipam/allocator/allocator.go:123-143 | the named subnet, or else the first that contains the address, decides; the pod holds the address exactly when it can be granted there, no address in use changes its holder, and a failure changes nothing |
| `AllocatorModel.AssignedFamilySpec` | pkg/ipam/allocator/dualstack_allocator.go:222-298 | more than one subnet name, or anything but one non-empty address, is refused; otherwise the one address is assigned in the subnet of the given name, if any |
| `AllocatorModel.ReleasedSpec` | pkg/ipam/allocator/allocator.go:145-162 | fails exactly when the named subnet is unknown, or without a name when no subnet is available; otherwise the address is no longer in use in that subnet, or in the first available one from the cursor on, and no other holder changes |
| `AllocatorModel.ReleasedOneSpec` | pkg/ipam/allocator/dualstack_allocator.go:359-379 | anything but one subnet name and one address fails; otherwise that address is released in that subnet |
| `Allocators.SelectSubnet` | pkg/ipam/types/network.go:80-86 | the specified selection by name or by rotation |
| `Allocators.SelectFamilySubnet` | pkg/ipam/types/network.go:96-122 | the specified selection of a family, refusing a name of the other one |
| `Allocators.SelectPair` | pkg/ipam/types/network.go:124-145 | the specified pair: two named subnets of the right families and one net ID, or an available pair |
| `Allocators.Allocate` | pkg/ipam/allocator/allocator.go:100-120 | the call is the specified allocation and keeps the network's invariant |
| `Allocators.AllocateFamily` | pkg/ipam/allocator/dualstack_allocator.go:110-168 | likewise for one family |
| `Allocators.AllocateDualStack` | pkg/ipam/allocator/dualstack_allocator.go:170-203 | likewise for a pair |
| `Allocators.AssignOne` | pkg/ipam/allocator/allocator.go:123-143 | likewise for an assignment |
| `Allocators.AssignFamily` | pkg/ipam/allocator/dualstack_allocator.go:222-298 | refuses more than one subnet name, and anything but one non-empty address, and otherwise is the specified assignment |
| `Allocators.ReleaseOne` | pkg/ipam/allocator/allocator.go:145-162 | likewise for a release |
| `Allocators.ReleaseFamily` | pkg/ipam/allocator/dualstack_allocator.go:359-379 | refuses anything but one subnet name and one address, and otherwise is the specified release |
| `IPSetRestore.OneSetStep` | pkg/daemon/ipset/ipset.go:493-548 | the commands of one set put exactly its entries in place through safe states |
| `IPSetRestore.BuildIPSetRestore` | pkg/daemon/ipset/ipset.go:493-548 | in any iteration order the script runs without error on every fitting kernel and cleans up |
| `IPSetRestore.RestoreMeaning` | pkg/daemon/ipset/ipset.go:493-548 | afterwards managed sets hold exactly their entries, other sets are unchanged, temporary sets are gone; after every prefix each managed set holds its old or its wanted members |
| `IPSetRefresh.IPSet.Create` | pkg/daemon/ipset/ipset.go:253-289 | the set is registered, and created in the kernel unless it is there, for IPv6 with the family option; the query and the command can fail |
| `IPSetRefresh.SharedNameIff` | pkg/daemon/ipset/ipset.go:450-455 | an IPv4 and an IPv6 set share a kernel name exactly when the IPv4 name is the other with the prefix inet6: |
| `IPSetRefresh.IPSet.BatchAdd` | pkg/daemon/ipset/ipset.go:346-371 | the entries are appended to the set object whatever happens; on success exactly they are added to the kernel set, and no other set is touched even on failure |
| `IPSetRefresh.IPSet.Destroy` | pkg/daemon/ipset/ipset.go:399-424 | a registered set goes from the kernel and the registry together, or neither changes |
| `IPSetRefresh.IPSet.RefreshWithBuiltinOptions` | pkg/daemon/ipset/ipset.go:641-674 | at every command boundary the live set is the old one or the refreshed one, whatever fails; on success it is the refreshed one and the temporary set is gone |
| `IPSetRefresh.RefreshExactIff` | pkg/daemon/ipset/ipset.go:641-674 | the refreshed members are exactly the new entries if and only if no leftover temporary set holds others |
| `IPSetRefresh.RefreshKeepsLeftover` | pkg/daemon/ipset/ipset.go:641-674 | a leftover set holding "a" turns a refresh with "b" into "a" and "b" |
| `UUIDMutexes.LockSpec` | pkg/controllers/multicluster/uuid_mutex.go:44-61 | fails exactly for the empty UUID and a UUID of another cluster, never takes a UUID away, and makes it the latest of its owner |
| `UUIDMutexes.UnlockSpec` | pkg/controllers/multicluster/uuid_mutex.go:63-75 | removes exactly that UUID, and the latest entry exactly if it named that UUID |
| `UUIDMutexes.UnlockUndoesLock` | pkg/controllers/multicluster/uuid_mutex.go:44-75 | unlocking undoes a new lock exactly when the cluster had no latest UUID before |
| `UUIDMutexes.UnlockForgetsLatest` | pkg/controllers/multicluster/uuid_mutex.go:44-75 | a cluster with latest "a" has none after locking and unlocking "b" |
| `UUIDMutexes.LatestIsLastLock` | pkg/controllers/multicluster/uuid_mutex.go:44-83 | after any locks and unlocks the latest UUID is the one the cluster locked last, unless that one was unlocked since |
| `UUIDMutexes.UUIDMutex.TryLock` | pkg/controllers/multicluster/uuid_mutex.go:44-61 | the specified lock |
| `UUIDMutexes.UUIDMutex.Release` | pkg/controllers/multicluster/uuid_mutex.go:63-75 | the specified unlock |
| `UUIDMutexes.UUIDMutex.GetUUIDs` | pkg/controllers/multicluster/uuid_mutex.go:85-96 | every UUID of the cluster exactly once, in any order |
| `DaemonHubs.RunningStayRegistered` | pkg/managerruntime/daemonhub.go:31-105 | no hub call leaves a running daemon unregistered, whatever daemon is registered under whatever IDs |
| `DaemonHubs.SecondIDIff` | pkg/managerruntime/daemonhub.go:31-44 | a daemon gets a second ID exactly when a registered daemon is registered under a free ID; no other call can do so |
| `DaemonHubs.FailedCalls` | pkg/managerruntime/daemonhub.go:31-105 | registering fails exactly on a taken ID, unregistering on a running daemon, running without a stopped one, stopping on an unknown ID, and a failed call changes nothing |
| `DaemonHubs.CallsUndo` | pkg/managerruntime/daemonhub.go:31-105 | unregistering undoes registering a stopped daemon, and stopping undoes running |
| `DaemonHubs.DaemonHub.RegisterDaemon` | pkg/managerruntime/daemonhub.go:31-44 | any daemon, running or not, is registered unless the ID is taken |
| `DaemonHubs.DaemonHub.UnregisterDaemon` | pkg/managerruntime/daemonhub.go:54-69 | the specified removal, refused while the daemon runs |
| `DaemonHubs.DaemonHub.RunDaemon` | pkg/managerruntime/daemonhub.go:82-93 | the specified start |
| `DaemonHubs.DaemonHub.StopDaemon` | pkg/managerruntime/daemonhub.go:95-105 | the specified stop |
| `DaemonHubs.DaemonHub.KillDaemon` | pkg/controllers/multicluster/remotecluster_controller.go:164-175 | afterwards the ID is not registered, its daemon does not run, and no other daemon changes |
| `Multicluster.StepKeepsInv` | pkg/controllers/multicluster/remotecluster_controller.go:82-137 | every call of every reconcile, every lock and every step of the status checker keeps the protocol invariant |
| `Multicluster.EveryRunIsSafe` | pkg/controllers/multicluster/remotecluster_controller.go:82-137 | in every interleaving running daemons are registered, registered IDs are locked by the cluster that registered them, latest UUIDs are owned, and the status checker never runs a daemon that runs already |
| `Multicluster.SafeFromTheStart` | pkg/controllers/multicluster/remotecluster_controller.go:82-137 | from the start of the controllers every state is safe, and a UUID with another owner at a later point was free and without a daemon in between |
| `LatestUUIDs.LatestLostIff` | pkg/controllers/multicluster/remotecluster_controller.go:109-117 | a step takes the latest UUID of a cluster away exactly when its own reconcile unlocks that UUID as an orphan |
| `LatestUUIDs.LatestSurvives` | pkg/controllers/multicluster/remotecluster_controller.go:97-137 | from the check of the latest UUID to the end of the reconcile it stays the latest, unless another UUID is locked for the cluster meanwhile |
| `LatestUUIDs.OwnStatusKept` | pkg/controllers/multicluster/remotecluster_controller.go:97-137 | from the fetch of a live cluster to the next reconcile of it, over every interleaving, the UUID it was fetched with is not unlocked |
| `LatestUUIDs.StatusKeptFromTheStart` | pkg/controllers/multicluster/remotecluster_controller.go:97-137 | the same from the start of the controllers: a UUID held when the reconcile fetches it is held at every point before the next one |
| `LatestUUIDs.LatestLost` | pkg/controllers/multicluster/remotecluster_controller.go:109-117 | a run from the start in which a cluster that locks an earlier UUID again loses it and has no latest UUID |
| `Multicluster.UnlockedByOwner` | pkg/controllers/multicluster/remotecluster_controller.go:82-117 | a lock is lost only in the recycling loop of the owner's own reconcile, with nothing registered under the UUID |
| `Multicluster.HandOver` | pkg/controllers/multicluster/remotecluster_controller.go:82-137 | when the owner of a UUID differs between two points of a run, the UUID was free and without a daemon in between |
| `LoneReconciles.GoneAlone` | pkg/controllers/multicluster/remotecluster_controller.go:82-95 | a reconcile of a leaving cluster, left alone, ends with none of its UUIDs locked, none of its daemons registered and other clusters untouched |
| `LoneReconciles.GuardAlone` | pkg/controllers/multicluster/remotecluster_controller.go:177-193 | guarding replaces whatever was registered under the UUID by the new daemon, not yet running |
| `LoneReconciles.LiveAlone` | pkg/controllers/multicluster/remotecluster_controller.go:97-137 | a reconcile of a live cluster, left alone, ends with its latest UUID as the only one it holds and a new daemon registered under it |
| `LoneReconciles.RefusedEnds` | pkg/controllers/multicluster/remotecluster_controller.go:97-106 | a status that is missing from the mutex or out of date, a daemon that is gone or runs again, ends the reconcile and changes no lock, no daemon and no registration |
| `LoneReconciles.EndsIff` | pkg/controllers/multicluster/remotecluster_controller.go:82-137 | a call ends the reconcile exactly when it is refused, when no orphan is left of a cluster that goes away, or when it registers the new daemon |
| `LoneReconciles.OthersStand` | pkg/controllers/multicluster/remotecluster_controller.go:68-137 | locks, checks and the calls of other clusters leave a reconcile where it stands |
| `LoneReconciles.FetchAndAbort` | pkg/controllers/multicluster/remotecluster_controller.go:76-82 | a fetch begins a reconcile with what was read and an abort ends it; neither touches locks or daemons |
| `LoneReconciles.CheckAlone` | pkg/controllers/multicluster/remoteclusterstatus_checker.go:108-161 | after an undisturbed check the daemon runs exactly when the cluster was found ready, and no other daemon changes |
| `LoneReconciles.CheckerDecides` | pkg/controllers/multicluster/remoteclusterstatus_checker.go:143-161 | the checker will run or stop the daemon it looked up exactly when the state of that daemon contradicts what it found |
| `AddressRanges.LastIPInside` | pkg/utils/ip.go:98-108 | for IPv4 the result is the address before the broadcast address, and in the network, exactly for prefixes shorter than 32 bits |
| `AddressRanges.LastIPWraps` | pkg/utils/ip.go:98-108 | the byte decrement of 10.0.0.0/32 wraps to 10.0.0.255 |
| `AddressRanges.WalkIsUsable` | pkg/utils/ip.go:62-88 | the walk from start to end visits exactly the usable and the excluded addresses |
| `AddressRanges.DisjointCIDRs` | pkg/utils/ip.go:55-57 | the early CIDR test never drops a shared address |
| `AddressRanges.CollectRange` | pkg/utils/ip.go:80-85 | the collected set is exactly the usable addresses |
| `AddressRanges.Intersect` | pkg/utils/ip.go:43-95 | true exactly when the ranges have one version and some address is usable in both, in either argument order |
| `Arp.RoundTrip` | pkg/daemon/arp/packet.go:133-238 | unmarshalling the marshalled packet plus padding gives it back exactly when its addresses have their recorded lengths |
| `Arp.DecodeOfWire` | pkg/daemon/arp/packet.go:133-238 | every address comes back cut or zero-extended to its recorded length, every other field as it was |
| `Arp.Reproduces` | pkg/daemon/arp/packet.go:133-238 | marshalling a parsed buffer reproduces its prefix, or panics when the packet needs more than 255 bytes |
| `Arp.BufferFits` | pkg/daemon/arp/packet.go:143-147 | the allocated buffer is as long as the packet exactly when the packet fits 255 bytes, and otherwise shorter |
| `Arp.EncodePanics` | pkg/daemon/arp/packet.go:133-178 | a consistent packet with 124-byte hardware addresses panics |
| `Arp.NewPacketSurvives` | pkg/daemon/arp/packet.go:88-128 | a new packet survives the wire exactly when both hardware addresses have one length of at most 119 bytes |
| `Arp.NewPacketMeans` | pkg/daemon/arp/packet.go:88-128 | refused exactly for a short hardware address, an other than broadcast target of another length, or an address that is not IPv4; otherwise every argument is in its own field |
| `Arp.To4Means` | pkg/daemon/arp/packet.go:103-110 | an address counts as IPv4 exactly with four bytes or in the IPv4-mapped form, whose last four bytes it is |
| `Arp.WireLayout` | pkg/daemon/arp/packet.go:133-178 | the bytes of the wire form: the 16-bit fields with the more significant byte first, the two lengths, and the four addresses at their offsets, cut or zero-extended |
| `Arp.DecodedLayout` | pkg/daemon/arp/packet.go:181-238 | a parsed packet has consistent addresses, and its buffer is laid out in that way |
| `Arp.LayoutIsUnique` | pkg/daemon/arp/packet.go:133-238 | the layout determines the packet |
| `Arp.DecodeRefuses` | pkg/daemon/arp/packet.go:181-210 | a buffer is refused exactly when it is shorter than the header or than the addresses the header announces |
| `Arp.NewPacketLost` | pkg/daemon/arp/packet.go:88-128 | an 8-byte sender with the broadcast target is accepted and its target comes back longer |
| `Arp.Copy` | pkg/daemon/arp/packet.go:164-175 | panics exactly when the slice leaves the buffer; otherwise what does not fit is dropped and what is missing stays zero |
| `Arp.Fill` | pkg/daemon/arp/packet.go:147-177 | some slice leaves the buffer exactly when the buffer is shorter than the packet; otherwise the buffer holds the wire format |
| `Arp.Packet.MarshalBinary` | pkg/daemon/arp/packet.go:133-178 | the buffer filled at moving offsets is the wire format, laid out byte by byte with big-endian fields, and some slice panics exactly when the packet needs more than 255 bytes |
| `Arp.Packet.UnmarshalBinary` | pkg/daemon/arp/packet.go:181-238 | the packet is the one `DecodedLayout` finds in the buffer; a buffer that ends inside the addresses still sets the header fields, big-endian, and leaves the addresses |
| `InstanceNames.UnifyIPv6AddressString` | pkg/ipam/store/store.go:406-418 | the separator loop computes the specified replacement |
| `InstanceNames.UnifiedText` | pkg/ipam/store/store.go:406-418 | the unified text spells out all eight groups, except that a run written as "::" at an end loses its outermost zero if it has three or more groups and stays compressed if it has two |
| `InstanceNames.NameReadsBack` | pkg/controllers/utils/format.go:28-42 | the name of every address reads back as its canonical text and family, or as `<nil>` |
| `InstanceNames.NameSpells` | pkg/ipam/store/store.go:376-382 | a name spells the octets in decimal, or the eight groups in hexadecimal unless the text begins or ends with "::", with dashes between them |
| `Texts.NumeralIsOnly` | pkg/ipam/store/store.go:376-382 | a numeral is the only text of lower-case digits without leading zeros that has its value |
| `Texts.NumeralIsNumeral` | pkg/ipam/store/store.go:376-382 | every numeral has that form |
| `InstanceNames.ReadsBackIff` | pkg/controllers/utils/format.go:28-34 | the text comes back exactly unless it begins or ends with "::" and has fewer than seven colons |
| `InstanceNames.NameKept` | pkg/controllers/utils/format.go:28-34 | the name of 1:0:0:0:2:0:0:0 reads back although three zero groups reach its end |
| `InstanceNames.NameLost` | pkg/controllers/utils/format.go:28-34 | the name of 1:: reads back as `<nil>` |
| `InstanceNames.NamesAreDistinct` | pkg/ipam/store/store.go:376-382 | distinct addresses, of either family, have distinct names |

## Left out

- netlink, sysctl, iptables, BGP, NDP and raw sockets: only the contents of the route table and of the sets matter here.
- Kubernetes clients, patches, retries, finalizers, events, metrics and logging; a reconcile may stop at any call instead.
- `Couple`, `ReCouple` and pod-controller rollback across the API server.
- `assignDualStack` and `releaseIPs`: a sequence of the modelled single operations, which the code does not undo.
- CallRuns.CallIsRun: the calls of the two allocators without `assignDualStack` and `releaseIPs`.
- Networks by name, refresh from the API server, feature gates, MAC generation, and `LastAllocation` of a report.
- SuccessiveCalls.OneUsage: networks without private subnets only, which the reports count although no unnamed request is served from them; SuccessiveCalls.PairUsage likewise.
- Address texts that do not parse, in subnets and in requests.
- Underlay, node-local and BGP tables and policy rules of the route manager.
- Non-canonical address texts, IPv4-mapped IPv6 addresses and dotted tails in parsed texts.
- Address arithmetic at the first and last address of the whole space, excluded by `Inner` and `ValidRange`.
- The byte loop of `LastIP`: its result is given as a value, with the byte decrement.
- ipset capacity limits and type compatibility beyond equal options; the registered entries of a refreshed set, which the code leaves stale.
- The goroutine loop of a manager runtime: a daemon is a running flag.
- Networks.Network.Classify: returns positions instead of subnet names, which are unique.
- IPSetRestore.BuildIPSetRestore: temporary names are a function of the options, distinct for the options in use and different from managed names; the hash that makes them is not modelled.
- Multicluster.EveryRunIsSafe: reconciles of one cluster name are serial, as the work queue guarantees; safety only, no fairness.
