/** Successive unnamed allocations for any pods, and what the usage reports say about them. */
module SuccessiveCalls {
  import opened Wrappers
  import opened SubnetModel
  import opened NetworkModel
  import opened Capacity
  import opened UsageReports
  import opened AllocatorModel

  datatype Pod = Pod(name: string, namespace: string)

  // ---- Dual stack ----

  lemma {:induction false} CallPairSpec(s: NetState, pod: Pod)
    requires NetInv(s)
    ensures var (s', r) := AllocatedPair(s, [], pod.name, pod.namespace);
            NetInv(s') && (r.Ok? <==> DualCapacity(s) > 0)
            && DualCapacity(s') == if r.Ok? then DualCapacity(s) - 1 else DualCapacity(s)
  {
    AllocatedPairSpec(s, [], pod.name, pod.namespace);
    var (s', r) := AllocatedPair(s, [], pod.name, pod.namespace);
    CapacityMeansPair(s);
    if r.Ok? { DualStepUsesOnePair(s, s'); }
  }

  /** The results of one unnamed dual-stack allocation per pod, one call after the other. */
  ghost function PairResults(s: NetState, pods: seq<Pod>): (rs: seq<Result<(IP, IP)>>)
    requires NetInv(s)
    ensures |rs| == |pods|
    decreases |pods|
  {
    if pods == [] then []
    else
      CallPairSpec(s, pods[0]);
      var (s', r) := AllocatedPair(s, [], pods[0].name, pods[0].namespace);
      [r] + PairResults(s', pods[1..])
  }

  /** Exactly the first `DualCapacity` calls succeed. */
  lemma {:induction false} PairCalls(s: NetState, pods: seq<Pod>)
    requires NetInv(s)
    ensures forall i :: 0 <= i < |pods| ==> (PairResults(s, pods)[i].Ok? <==> i < DualCapacity(s))
    decreases |pods|
  {
    if pods != [] {
      CallPairSpec(s, pods[0]);
      var s' := AllocatedPair(s, [], pods[0].name, pods[0].namespace).0;
      PairCalls(s', pods[1..]);
      var rs := PairResults(s', pods[1..]);
      forall i | 0 <= i < |pods| ensures PairResults(s, pods)[i].Ok? <==> i < DualCapacity(s) {
        if i > 0 { assert PairResults(s, pods)[i] == rs[i - 1]; }
      }
    }
  }

  /** The report predicts the calls. */
  ghost predicate PredictsPairs(s: NetState, pods: seq<Pod>)
    requires NetInv(s)
  {
    forall i :: 0 <= i < |pods| ==> (PairResults(s, pods)[i].Ok? <==> i < ReportedDual(s.subnets))
  }

  /** With no private subnets, of any calls that use the network up exactly the first `DualStackUsage()[2].Available`
      succeed if and only if the pairs fit 32 bits and no counter of a net ID wraps below its own pairs; otherwise the
      report is too small. */
  lemma {:induction false} PairUsage(s: NetState, pods: seq<Pod>)
    requires NetInv(s) && NoPrivate(s.subnets) && |pods| >= DualCapacity(s)
    ensures PredictsPairs(s, pods) <==> DualCapacity(s) < UINT32 && AllCounted(s.subnets, NetIDs(s.subnets))
  {
    PairCalls(s, pods);
    DualReportIsExact(s);
    if ReportedDual(s.subnets) < DualCapacity(s) {
      assert PairResults(s, pods)[ReportedDual(s.subnets)].Ok?;
    }
  }

  // ---- One address ----

  /** One unnamed allocation of one address: of either family by the single-stack allocator, or of one family. */
  ghost function CallOne(s: NetState, family: Option<bool>, pod: Pod): (NetState, Result<IP>)
    requires NetInv(s)
  {
    if family.None? then Allocated(s, "", pod.name, pod.namespace)
      else AllocatedFamily(s, [], family.value, pod.name, pod.namespace)
  }

  lemma {:induction false} CallOneSpec(s: NetState, family: Option<bool>, pod: Pod)
    requires NetInv(s)
    ensures var (s', r) := CallOne(s, family, pod);
            NetInv(s') && (r.Ok? <==> SingleCapacity(s, family) > 0)
            && SingleCapacity(s', family) == if r.Ok? then SingleCapacity(s, family) - 1 else SingleCapacity(s, family)
  {
    if family.None? {
      AllocatedSpec(s, "", pod.name, pod.namespace);
    } else {
      AllocatedFamilySpec(s, [], family.value, pod.name, pod.namespace);
    }
    var (s', r) := CallOne(s, family, pod);
    TotalPositive(s.subnets, family);
    if r.Ok? { SingleStepUsesOne(s, s', family); }
  }

  ghost function OneResults(s: NetState, family: Option<bool>, pods: seq<Pod>): (rs: seq<Result<IP>>)
    requires NetInv(s)
    ensures |rs| == |pods|
    decreases |pods|
  {
    if pods == [] then []
    else
      CallOneSpec(s, family, pods[0]);
      var (s', r) := CallOne(s, family, pods[0]);
      [r] + OneResults(s', family, pods[1..])
  }

  /** Exactly the first `SingleCapacity` calls succeed. */
  lemma {:induction false} OneCalls(s: NetState, family: Option<bool>, pods: seq<Pod>)
    requires NetInv(s)
    ensures forall i :: 0 <= i < |pods| ==> (OneResults(s, family, pods)[i].Ok? <==> i < SingleCapacity(s, family))
    decreases |pods|
  {
    if pods != [] {
      CallOneSpec(s, family, pods[0]);
      var s' := CallOne(s, family, pods[0]).0;
      OneCalls(s', family, pods[1..]);
      var rs := OneResults(s', family, pods[1..]);
      forall i | 0 <= i < |pods| ensures OneResults(s, family, pods)[i].Ok? <==> i < SingleCapacity(s, family) {
        if i > 0 { assert OneResults(s, family, pods)[i] == rs[i - 1]; }
      }
    }
  }

  ghost predicate PredictsOnes(s: NetState, family: Option<bool>, pods: seq<Pod>)
    requires NetInv(s)
  {
    forall i :: 0 <= i < |pods| ==> (OneResults(s, family, pods)[i].Ok? <==> i < Reported(s.subnets, family).available)
  }

  /** With no private subnets, of any calls that use the network up exactly the first `Usage().Available` succeed, and
      for one family the first `DualStackUsage()` of that family, if and only if that many addresses fit 32 bits;
      otherwise the report is too small. */
  lemma {:induction false} OneUsage(s: NetState, family: Option<bool>, pods: seq<Pod>)
    requires NetInv(s) && NoPrivate(s.subnets) && |pods| >= SingleCapacity(s, family)
    ensures PredictsOnes(s, family, pods) <==> SingleCapacity(s, family) < UINT32
  {
    OneCalls(s, family, pods);
    SingleReportIsExact(s, family);
    if Reported(s.subnets, family).available < SingleCapacity(s, family) {
      assert OneResults(s, family, pods)[Reported(s.subnets, family).available].Ok?;
    }
  }

  /** In a network of admitted size without private subnets the reports predict every sequence of calls. */
  lemma {:induction false} AdmittedUsage(s: NetState, family: Option<bool>, pods: seq<Pod>)
    requires NetInv(s) && NoPrivate(s.subnets) && AdmittedSize(s.subnets)
    ensures PredictsPairs(s, pods) && PredictsOnes(s, family, pods)
  {
    AdmittedReportsAreExact(s, family);
    PairCalls(s, pods);
    OneCalls(s, family, pods);
  }
}
