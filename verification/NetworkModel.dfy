/** The value of a network of subnets (pkg/ipam/types/subnet.go and network.go): classification by net ID,
    capacity, and what runs of allocations can do. */
module NetworkModel {
  import opened Wrappers
  import opened SubnetModel

  datatype NetState = NetState(subnets: seq<State>, index: nat)

  ghost predicate NetInv(s: NetState)
  {
    && (forall i :: 0 <= i < |s.subnets| ==> Inv(s.subnets[i]))
    && (forall i, j :: 0 <= i < j < |s.subnets| ==> s.subnets[i].spec.name != s.subnets[j].spec.name)
    && (forall i :: 0 <= i < |s.subnets| ==> s.subnets[i].spec.name != "")
    && (s.subnets == [] ==> s.index == 0) && (s.subnets != [] ==> s.index < |s.subnets|)
  }

  function UnifyNetID(netID: Option<nat>): nat
  {
    if netID.None? then 0 else netID.value
  }

  function NetID(st: State): nat
  {
    UnifyNetID(st.spec.netID)
  }

  /** Net IDs are equal when both are given and equal, or both are missing; a missing one is the same as zero. */
  lemma {:induction false} EqualNetIDs(p: State, q: State)
    ensures NetID(p) == NetID(q) <==>
            || p.spec.netID == q.spec.netID
            || (p.spec.netID.None? && q.spec.netID == Some(0)) || (p.spec.netID == Some(0) && q.spec.netID.None?)
  {}

  ghost predicate NoDup(s: seq<nat>)
  {
    forall i, j :: 0 <= i < j < |s| ==> s[i] != s[j]
  }

  // ---- Classification ----

  predicate Fits(st: State, id: nat, v6: bool)
  {
    IsAvailable(st) && NetID(st) == id && st.spec.ipv6 == v6
  }

  /** The available subnets of one net ID and family, in the given order. */
  function Matching(subs: seq<State>, order: seq<nat>, id: nat, v6: bool): seq<nat>
    requires forall i :: 0 <= i < |order| ==> order[i] < |subs|
  {
    if order == [] then []
    else
      var k := order[|order| - 1];
      Matching(subs, order[..|order| - 1], id, v6) + if Fits(subs[k], id, v6) then [k] else []
  }

  /** The net IDs of available subnets, in order of first appearance. */
  function IdOrder(subs: seq<State>, order: seq<nat>): seq<nat>
    requires forall i :: 0 <= i < |order| ==> order[i] < |subs|
  {
    if order == [] then []
    else
      var k := order[|order| - 1];
      var ids := IdOrder(subs, order[..|order| - 1]);
      ids + if IsAvailable(subs[k]) && NetID(subs[k]) !in ids then [NetID(subs[k])] else []
  }

  /** Group by group: the subnets of one family whose group has (or lacks) the other family. */
  function Gather(subs: seq<State>, order: seq<nat>, ids: seq<nat>, v6: bool, paired: bool): seq<nat>
    requires forall i :: 0 <= i < |order| ==> order[i] < |subs|
  {
    if ids == [] then []
    else
      var id := ids[|ids| - 1];
      Gather(subs, order, ids[..|ids| - 1], v6, paired) +
      if (Matching(subs, order, id, !v6) != []) == paired then Matching(subs, order, id, v6) else []
  }

  lemma {:induction false} MatchingMember(subs: seq<State>, order: seq<nat>, id: nat, v6: bool, k: nat)
    requires forall i :: 0 <= i < |order| ==> order[i] < |subs|
    requires k < |subs|
    ensures k in Matching(subs, order, id, v6) <==> k in order && Fits(subs[k], id, v6)
  {
    if order != [] {
      var init := order[..|order| - 1];
      assert order == init + [order[|order| - 1]];
      MatchingMember(subs, init, id, v6, k);
    }
  }

  lemma {:induction false} MatchingSound(subs: seq<State>, order: seq<nat>, id: nat, v6: bool)
    requires forall i :: 0 <= i < |order| ==> order[i] < |subs|
    ensures forall i :: 0 <= i < |Matching(subs, order, id, v6)| ==> Matching(subs, order, id, v6)[i] < |subs|
    ensures NoDup(order) ==> NoDup(Matching(subs, order, id, v6))
  {
    if order != [] {
      var init := order[..|order| - 1];
      MatchingSound(subs, init, id, v6);
      var m := Matching(subs, init, id, v6);
      if order[|order| - 1] in m {
        MatchingMember(subs, init, id, v6, order[|order| - 1]);
        var i :| 0 <= i < |init| && init[i] == order[|order| - 1];
        assert order[i] == init[i];
      }
    }
  }

  lemma {:induction false} IdOrderMember(subs: seq<State>, order: seq<nat>)
    requires forall i :: 0 <= i < |order| ==> order[i] < |subs|
    ensures NoDup(IdOrder(subs, order))
    ensures forall k :: k in order && IsAvailable(subs[k]) ==> NetID(subs[k]) in IdOrder(subs, order)
  {
    if order != [] {
      var init, k := order[..|order| - 1], order[|order| - 1];
      assert order == init + [k];
      IdOrderMember(subs, init);
    }
  }

  /** Some available subnet of the other family has the same net ID. */
  ghost predicate HasPartner(subs: seq<State>, order: seq<nat>, k: nat)
    requires forall i :: 0 <= i < |order| ==> order[i] < |subs|
    requires k < |subs|
  {
    exists j :: j in order && Fits(subs[j], NetID(subs[k]), !subs[k].spec.ipv6)
  }

  lemma {:induction false} MatchingEmpty(subs: seq<State>, order: seq<nat>, id: nat, v6: bool)
    requires forall i :: 0 <= i < |order| ==> order[i] < |subs|
    ensures Matching(subs, order, id, v6) != [] <==> exists j :: j in order && Fits(subs[j], id, v6)
  {
    var m := Matching(subs, order, id, v6);
    MatchingSound(subs, order, id, v6);
    if m != [] {
      assert m[0] in m;
      MatchingMember(subs, order, id, v6, m[0]);
    }
    if j :| j in order && Fits(subs[j], id, v6) {
      MatchingMember(subs, order, id, v6, j);
    }
  }

  lemma {:induction false} GatherMember(subs: seq<State>, order: seq<nat>, ids: seq<nat>, v6: bool, paired: bool,
                                        k: nat)
    requires forall i :: 0 <= i < |order| ==> order[i] < |subs|
    requires k < |subs|
    ensures k in Gather(subs, order, ids, v6, paired) <==>
            && k in order && IsAvailable(subs[k]) && subs[k].spec.ipv6 == v6 && NetID(subs[k]) in ids
            && (HasPartner(subs, order, k) <==> paired)
  {
    if ids != [] {
      var init, id := ids[..|ids| - 1], ids[|ids| - 1];
      assert ids == init + [id];
      GatherMember(subs, order, init, v6, paired, k);
      MatchingMember(subs, order, id, v6, k);
      MatchingEmpty(subs, order, id, !v6);
    }
  }

  lemma {:induction false} GatherSound(subs: seq<State>, order: seq<nat>, ids: seq<nat>, v6: bool, paired: bool)
    requires forall i :: 0 <= i < |order| ==> order[i] < |subs|
    ensures forall i :: 0 <= i < |Gather(subs, order, ids, v6, paired)| ==>
            Gather(subs, order, ids, v6, paired)[i] < |subs|
    ensures NoDup(order) && NoDup(ids) ==> NoDup(Gather(subs, order, ids, v6, paired))
  {
    if ids != [] {
      var init, id := ids[..|ids| - 1], ids[|ids| - 1];
      GatherSound(subs, order, init, v6, paired);
      MatchingSound(subs, order, id, v6);
      var g, m := Gather(subs, order, init, v6, paired), Matching(subs, order, id, v6);
      if NoDup(order) && NoDup(ids) {
        assert NoDup(init);
        forall i, j | 0 <= i < |g| && 0 <= j < |m| ensures g[i] != m[j] {
          assert g[i] in g && m[j] in m;
          GatherMember(subs, order, init, v6, paired, g[i]);
          MatchingMember(subs, order, id, v6, m[j]);
        }
      }
    }
  }

  /** The two paired lists are empty together, and their heads share a net ID. */
  lemma {:induction false} PairedHeads(subs: seq<State>, order: seq<nat>, ids: seq<nat>)
    requires forall i :: 0 <= i < |order| ==> order[i] < |subs|
    ensures var v4, v6 := Gather(subs, order, ids, false, true), Gather(subs, order, ids, true, true);
            && (v4 == [] <==> v6 == [])
            && (v4 != [] ==> v4[0] < |subs| && v6[0] < |subs| && NetID(subs[v4[0]]) == NetID(subs[v6[0]]))
  {
    if ids != [] {
      var init, id := ids[..|ids| - 1], ids[|ids| - 1];
      PairedHeads(subs, order, init);
      var m4, m6 := Matching(subs, order, id, false), Matching(subs, order, id, true);
      if m4 != [] && m6 != [] {
        MatchingSound(subs, order, id, false);
        MatchingSound(subs, order, id, true);
        assert m4[0] in m4 && m6[0] in m6;
        MatchingMember(subs, order, id, false, m4[0]);
        MatchingMember(subs, order, id, true, m6[0]);
      }
    }
  }

  function Rotated(i: nat, index: nat, n: nat): (k: nat)
    requires i < n && index < n
    ensures k == if i + index < n then i + index else i + index - n
  {
    (i + index) % n
  }

  /** The order in which classify looks at the subnets: from the cursor on, cyclically. */
  function Rotation(index: nat, n: nat, m: nat): (order: seq<nat>)
    requires m <= n && (n > 0 ==> index < n)
    ensures |order| == m
    ensures forall i :: 0 <= i < m ==> order[i] < n && order[i] == if i + index < n then i + index else i + index - n
  {
    if m == 0 then [] else Rotation(index, n, m - 1) + [Rotated(m - 1, index, n)]
  }

  lemma {:induction false} RotationComplete(index: nat, n: nat)
    requires n > 0 ==> index < n
    ensures NoDup(Rotation(index, n, n))
    ensures forall k: nat :: k < n ==> k in Rotation(index, n, n)
  {
    var order := Rotation(index, n, n);
    forall k: nat | k < n ensures k in order {
      var i := if k >= index then k - index else k + n - index;
      assert order[i] == k;
    }
  }

  function Classified(s: NetState, v6: bool, paired: bool): seq<nat>
    requires s.subnets != [] ==> s.index < |s.subnets|
  {
    var order := Rotation(s.index, |s.subnets|, |s.subnets|);
    Gather(s.subnets, order, IdOrder(s.subnets, order), v6, paired)
  }

  /** Some available subnet of the other family shares the net ID of subnet `k`. */
  ghost predicate Partnered(s: NetState, k: nat)
    requires k < |s.subnets|
  {
    exists j: nat :: j < |s.subnets| && Fits(s.subnets[j], NetID(s.subnets[k]), !s.subnets[k].spec.ipv6)
  }

  /** classify is an exact partition of the available subnets: no list repeats a subnet, a subnet is in the list of its
      family and kind exactly when it is available, and it is "paired" exactly when it has a partner. */
  lemma {:induction false} ClassifyIsPartition(s: NetState, v6: bool, paired: bool)
    requires s.subnets != [] ==> s.index < |s.subnets|
    ensures NoDup(Classified(s, v6, paired))
    ensures forall i :: 0 <= i < |Classified(s, v6, paired)| ==> Classified(s, v6, paired)[i] < |s.subnets|
    ensures forall k: nat :: k < |s.subnets| ==>
              (k in Classified(s, v6, paired) <==>
               IsAvailable(s.subnets[k]) && s.subnets[k].spec.ipv6 == v6 && (Partnered(s, k) <==> paired))
  {
    var n := |s.subnets|;
    var order := Rotation(s.index, n, n);
    var ids := IdOrder(s.subnets, order);
    RotationComplete(s.index, n);
    IdOrderMember(s.subnets, order);
    GatherSound(s.subnets, order, ids, v6, paired);
    forall k: nat | k < n
      ensures k in Gather(s.subnets, order, ids, v6, paired) <==>
              IsAvailable(s.subnets[k]) && s.subnets[k].spec.ipv6 == v6 && (Partnered(s, k) <==> paired)
    {
      GatherMember(s.subnets, order, ids, v6, paired, k);
      assert HasPartner(s.subnets, order, k) <==> Partnered(s, k);
    }
  }

  // ---- Distance from the cursor ----

  /** How many turns from the cursor on the subnet is looked at. */
  function Distance(s: NetState, k: nat): (d: nat)
    requires s.index < |s.subnets| && k < |s.subnets|
    ensures d < |s.subnets| && Rotated(d, s.index, |s.subnets|) == k
  {
    if k >= s.index then k - s.index else k + |s.subnets| - s.index
  }

  /** Subnet `i` comes before subnet `k` from the cursor on. */
  ghost predicate Closer(s: NetState, i: nat, k: nat)
  {
    s.index < |s.subnets| && i < |s.subnets| && k < |s.subnets| && Distance(s, i) < Distance(s, k)
  }

  ghost predicate Available(s: NetState, k: nat)
  {
    k < |s.subnets| && IsAvailable(s.subnets[k])
  }

  // ---- Selection for a single-stack allocation ----

  /** The first available subnet at distance `d` or more from the cursor. */
  function FirstFrom(s: NetState, d: nat): Option<nat>
    requires s.index < |s.subnets| && d <= |s.subnets|
    decreases |s.subnets| - d
  {
    if d == |s.subnets| then None
    else if IsAvailable(s.subnets[Rotated(d, s.index, |s.subnets|)]) then Some(Rotated(d, s.index, |s.subnets|))
    else FirstFrom(s, d + 1)
  }

  function NextAvailable(s: NetState): Option<nat>
    requires s.subnets != [] ==> s.index < |s.subnets|
  {
    if s.subnets == [] then None else FirstFrom(s, 0)
  }

  lemma {:induction false} FirstFromSpec(s: NetState, d: nat)
    requires s.index < |s.subnets| && d <= |s.subnets|
    ensures var k := FirstFrom(s, d);
            && (k.Some? ==> k.value < |s.subnets| && IsAvailable(s.subnets[k.value]))
            && (k.Some? ==> forall m: nat :: d <= m < Distance(s, k.value) ==>
                !IsAvailable(s.subnets[Rotated(m, s.index, |s.subnets|)]))
            && (k.None? ==> forall m: nat :: d <= m < |s.subnets| ==>
                !IsAvailable(s.subnets[Rotated(m, s.index, |s.subnets|)]))
    decreases |s.subnets| - d
  {
    if d < |s.subnets| { FirstFromSpec(s, d + 1); }
  }

  /** The first available subnet from the cursor on. */
  ghost predicate NextInTurn(s: NetState, k: nat)
  {
    Available(s, k) && forall i: nat :: Available(s, i) ==> !Closer(s, i, k)
  }

  /** The rotating search finds the first available subnet from the cursor on, whenever there is one. */
  lemma {:induction false} NextAvailableSpec(s: NetState)
    requires s.subnets != [] ==> s.index < |s.subnets|
    ensures var k := NextAvailable(s);
            && (k.Some? ==> NextInTurn(s, k.value))
            && (k.None? <==> forall i :: 0 <= i < |s.subnets| ==> !IsAvailable(s.subnets[i]))
  {
    if s.subnets != [] {
      FirstFromSpec(s, 0);
      if NextAvailable(s).Some? {
        forall i: nat | Available(s, i) ensures !Closer(s, i, NextAvailable(s).value) {
          assert IsAvailable(s.subnets[Rotated(Distance(s, i), s.index, |s.subnets|)]);
        }
      } else {
        forall i | 0 <= i < |s.subnets| ensures !IsAvailable(s.subnets[i]) {
          assert Rotated(Distance(s, i), s.index, |s.subnets|) == i;
        }
      }
    }
  }

  // ---- Selection by family ----

  /** Prefer a subnet without a partner, so that pairs are left for dual-stack pods. */
  function Pick(s: NetState, v6: bool): Option<nat>
    requires s.subnets != [] ==> s.index < |s.subnets|
  {
    var only, paired := Classified(s, v6, false), Classified(s, v6, true);
    if |only| > 0 then Some(only[0]) else if |paired| > 0 then Some(paired[0]) else None
  }

  /** The selection fails only if the family has no available subnet, and takes a partnered subnet
      only if there is no other. */
  lemma {:induction false} PickSpec(s: NetState, v6: bool)
    requires s.subnets != [] ==> s.index < |s.subnets|
    ensures var k := Pick(s, v6);
            && (k.Some? ==> k.value < |s.subnets| && IsAvailable(s.subnets[k.value])
                            && s.subnets[k.value].spec.ipv6 == v6)
            && (k.None? <==> forall i :: 0 <= i < |s.subnets| ==>
                !(IsAvailable(s.subnets[i]) && s.subnets[i].spec.ipv6 == v6))
            && (k.Some? && Partnered(s, k.value) ==>
                  forall i :: 0 <= i < |s.subnets| && IsAvailable(s.subnets[i]) && s.subnets[i].spec.ipv6 == v6 ==>
                      Partnered(s, i))
  {
    ClassifyIsPartition(s, v6, false);
    ClassifyIsPartition(s, v6, true);
    var only, paired := Classified(s, v6, false), Classified(s, v6, true);
    if |only| > 0 { assert only[0] in only; }
    if |paired| > 0 { assert paired[0] in paired; }
  }

  /** The heads of the two paired lists. */
  function PickPair(s: NetState): Option<(nat, nat)>
    requires s.subnets != [] ==> s.index < |s.subnets|
  {
    var v4, v6 := Classified(s, false, true), Classified(s, true, true);
    if |v4| == 0 || |v6| == 0 then None else Some((v4[0], v6[0]))
  }

  /** A pair has one available subnet of each family and one net ID; it is missing only if no such pair exists. */
  lemma {:induction false} PickPairSpec(s: NetState)
    requires s.subnets != [] ==> s.index < |s.subnets|
    ensures var p := PickPair(s);
            && (p.Some? ==> && p.value.0 < |s.subnets| && p.value.1 < |s.subnets|
                            && Fits(s.subnets[p.value.0], NetID(s.subnets[p.value.0]), false)
                            && Fits(s.subnets[p.value.1], NetID(s.subnets[p.value.0]), true))
            && (p.None? ==> forall i, j :: 0 <= i < |s.subnets| && 0 <= j < |s.subnets| ==>
                              !(Fits(s.subnets[i], NetID(s.subnets[i]), false)
                                && Fits(s.subnets[j], NetID(s.subnets[i]), true)))
            && (Classified(s, false, true) == [] <==> Classified(s, true, true) == [])
  {
    var order := Rotation(s.index, |s.subnets|, |s.subnets|);
    PairedHeads(s.subnets, order, IdOrder(s.subnets, order));
    ClassifyIsPartition(s, false, true);
    ClassifyIsPartition(s, true, true);
    var v4, v6 := Classified(s, false, true), Classified(s, true, true);
    if |v4| > 0 {
      assert v4[0] in v4 && v6[0] in v6;
    } else {
      forall i, j | 0 <= i < |s.subnets| && 0 <= j < |s.subnets|
        ensures !(Fits(s.subnets[i], NetID(s.subnets[i]), false) && Fits(s.subnets[j], NetID(s.subnets[i]), true))
      {
        assert Fits(s.subnets[j], NetID(s.subnets[i]), true) && !s.subnets[i].spec.ipv6 ==> Partnered(s, i);
      }
    }
  }

  lemma {:induction false} PickBounds(s: NetState)
    requires s.subnets != [] ==> s.index < |s.subnets|
    ensures Pick(s, false).Some? ==> Pick(s, false).value < |s.subnets|
    ensures Pick(s, true).Some? ==> Pick(s, true).value < |s.subnets|
    ensures PickPair(s).Some? ==> PickPair(s).value.0 < |s.subnets| && PickPair(s).value.1 < |s.subnets|
    ensures Classified(s, false, true) == [] <==> Classified(s, true, true) == []
  {
    PickSpec(s, false);
    PickSpec(s, true);
    PickPairSpec(s);
  }
}
