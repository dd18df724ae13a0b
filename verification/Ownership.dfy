/** Who holds an address over every run of allocate, assign and release on the subnets of a network. */
module Ownership {
  import opened Wrappers
  import opened SubnetModel
  import opened NetworkModel

  /** An operation on subnet `k`. */
  datatype NetOp = On(k: nat, op: Op)

  ghost predicate AllInv(subs: seq<State>)
  {
    forall k :: 0 <= k < |subs| ==> Inv(subs[k])
  }

  ghost function NetRun(subs: seq<State>, ops: seq<NetOp>): (subs': seq<State>)
    requires AllInv(subs) && forall i :: 0 <= i < |ops| ==> ops[i].k < |subs|
    ensures AllInv(subs') && |subs'| == |subs|
    ensures forall k :: 0 <= k < |subs| ==> subs'[k].spec == subs[k].spec
    decreases |ops|
  {
    if ops == [] then subs
    else
      var k := ops[0].k;
      StepKeepsInv(subs[k], ops[0].op);
      NetRun(subs[k := Step(subs[k], ops[0].op)], ops[1..])
  }

  /** The address is in use by a pod. */
  ghost predicate HeldInUse(st: State, a: Addr, holder: IP)
  {
    a in st.used && st.used[a] == holder && holder.status == STATUS_USING
  }

  lemma {:induction false} StepKeepsHolder(st: State, op: Op, a: Addr, holder: IP)
    requires Inv(st) && HeldInUse(st, a, holder) && op != ReleaseOf(a)
    ensures HeldInUse(Step(st, op), a, holder)
  {
    match op
    case Allocate(p, ns) => AllocateNextSpec(st, p, ns);
    case AssignTo(p, ns, b, forced) => if b != a { AssignKeepsInv(st, p, ns, b, forced); }
    case ReleaseOf(b) => ReleaseKeepsInv(st, b);
  }

  /** An address in use by a pod keeps that holder until it is released in its subnet, whatever else happens: other
      allocations, assignments by other pods, forced or not, and releases of other addresses. */
  lemma {:induction false} HolderUntilRelease(subs: seq<State>, ops: seq<NetOp>, k: nat, a: Addr, holder: IP)
    requires AllInv(subs) && forall i :: 0 <= i < |ops| ==> ops[i].k < |subs|
    requires k < |subs| && HeldInUse(subs[k], a, holder)
    requires On(k, ReleaseOf(a)) !in ops
    ensures HeldInUse(NetRun(subs, ops)[k], a, holder)
    decreases |ops|
  {
    if ops != [] {
      var j := ops[0].k;
      StepKeepsInv(subs[j], ops[0].op);
      if j == k {
        assert ops[0] in ops;
        StepKeepsHolder(subs[k], ops[0].op, a, holder);
      }
      HolderUntilRelease(subs[j := Step(subs[j], ops[0].op)], ops[1..], k, a, holder);
    }
  }

  /** No address belongs to two subnets. */
  ghost predicate NonOverlapping(subs: seq<State>)
  {
    forall i, j, a :: 0 <= i < j < |subs| && Contains(subs[i].spec, a) ==> !Contains(subs[j].spec, a)
  }

  /** In a network of non-overlapping subnets no run ever holds an address in two subnets at once. */
  lemma {:induction false} NeverHeldTwice(subs: seq<State>, ops: seq<NetOp>, i: nat, j: nat, a: Addr)
    requires AllInv(subs) && forall n :: 0 <= n < |ops| ==> ops[n].k < |subs|
    requires NonOverlapping(subs) && i < j < |subs|
    ensures !(a in NetRun(subs, ops)[i].used && a in NetRun(subs, ops)[j].used)
  {
    var subs' := NetRun(subs, ops);
    assert Inv(subs'[i]) && Inv(subs'[j]);
  }

  /** A forced assignment takes an address over only from the reserved state. */
  lemma {:induction false} ForcedTakeover(st: State, podName: string, podNamespace: string, a: Addr)
    requires Inv(st) && a in st.used
    requires st.used[a].podName != podName || st.used[a].podNamespace != podNamespace
    ensures Assign(st, podName, podNamespace, a, true).1.Some? <==> st.used[a].status == STATUS_RESERVED
    ensures Assign(st, podName, podNamespace, a, false).1.None?
  {}

  /** Releasing a reserved address does not clear its pod: empty arguments leave the record's pod alone, so the last pod
      can take the address back without force while every other pod still needs it. */
  lemma {:induction false} ReleaseRemembersPod(st: State, a: Addr, podName: string, podNamespace: string)
    requires Inv(st) && a in st.reserved
    ensures var st' := Release(st, a);
            && st'.used[a] == st.used[a].(status := STATUS_RESERVED)
            && (Assign(st', podName, podNamespace, a, false).1.Some? <==>
                podName == st.used[a].podName && podNamespace == st.used[a].podNamespace)
  {}
}
