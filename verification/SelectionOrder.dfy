/** Which subnet the classification of a network puts first in its lists (pkg/ipam/types/subnet.go). */
module SelectionOrder {
  import opened Wrappers
  import opened SubnetModel
  import opened NetworkModel

  /** The subnet at that place of the order is available and has the net ID. */
  ghost predicate Appears(subs: seq<State>, order: seq<nat>, p: nat, id: nat)
  {
    p < |order| && order[p] < |subs| && IsAvailable(subs[order[p]]) && NetID(subs[order[p]]) == id
  }

  lemma {:induction false} IdAppears(subs: seq<State>, order: seq<nat>, id: nat) returns (p: nat)
    requires forall i :: 0 <= i < |order| ==> order[i] < |subs|
    requires id in IdOrder(subs, order)
    ensures Appears(subs, order, p, id) && forall q: nat :: q < p ==> !Appears(subs, order, q, id)
  {
    var init := order[..|order| - 1];
    if id in IdOrder(subs, init) {
      p := IdAppears(subs, init, id);
      forall q: nat | q < p ensures !Appears(subs, order, q, id) { assert !Appears(subs, init, q, id); }
    } else {
      p := |init|;
      IdOrderMember(subs, init);
      forall q: nat | q < p ensures !Appears(subs, order, q, id) { assert init[q] == order[q] && init[q] in init; }
    }
  }

  /** Net IDs come in the order of their first appearance. */
  lemma {:induction false} IdsInOrder(subs: seq<State>, order: seq<nat>, i: nat, j: nat, q: nat) returns (p: nat)
    requires forall i :: 0 <= i < |order| ==> order[i] < |subs|
    requires i < j < |IdOrder(subs, order)| && Appears(subs, order, q, IdOrder(subs, order)[j])
    ensures p < q && Appears(subs, order, p, IdOrder(subs, order)[i])
  {
    var init := order[..|order| - 1];
    var ids, before := IdOrder(subs, order), IdOrder(subs, init);
    assert before <= ids;
    if j < |before| {
      var q' := q;
      if q == |init| { q' := IdAppears(subs, init, ids[j]); }
      p := IdsInOrder(subs, init, i, j, q');
    } else {
      if q < |init| {
        IdOrderMember(subs, init);
      }
      p := IdAppears(subs, init, ids[i]);
    }
  }

  lemma {:induction false} MatchingHead(subs: seq<State>, order: seq<nat>, id: nat, v6: bool) returns (p: nat)
    requires forall i :: 0 <= i < |order| ==> order[i] < |subs|
    requires Matching(subs, order, id, v6) != []
    ensures p < |order| && order[p] == Matching(subs, order, id, v6)[0] && Fits(subs[order[p]], id, v6)
    ensures forall q :: 0 <= q < p ==> !Fits(subs[order[q]], id, v6)
  {
    var init := order[..|order| - 1];
    if Matching(subs, init, id, v6) != [] {
      p := MatchingHead(subs, init, id, v6);
    } else {
      p := |init|;
      forall q | 0 <= q < p ensures !Fits(subs[order[q]], id, v6) {
        assert init[q] in init;
        MatchingMember(subs, init, id, v6, init[q]);
      }
    }
  }

  /** The group of that net ID contributes to the list. */
  predicate Contributes(subs: seq<State>, order: seq<nat>, id: nat, v6: bool, paired: bool)
    requires forall i :: 0 <= i < |order| ==> order[i] < |subs|
  {
    Matching(subs, order, id, v6) != [] && (Matching(subs, order, id, !v6) != []) == paired
  }

  lemma {:induction false} GatherHead(subs: seq<State>, order: seq<nat>, ids: seq<nat>, v6: bool, paired: bool)
    returns (m: nat)
    requires forall i :: 0 <= i < |order| ==> order[i] < |subs|
    requires Gather(subs, order, ids, v6, paired) != []
    ensures m < |ids| && Contributes(subs, order, ids[m], v6, paired)
    ensures Gather(subs, order, ids, v6, paired)[0] == Matching(subs, order, ids[m], v6)[0]
    ensures NoneContributes(subs, order, ids[..m], v6, paired)
  {
    var init := ids[..|ids| - 1];
    if Gather(subs, order, init, v6, paired) != [] {
      m := GatherHead(subs, order, init, v6, paired);
      assert ids[..m] == init[..m];
    } else {
      m := |init|;
      GatherNothing(subs, order, init, v6, paired);
      assert ids[..m] == init;
    }
  }

  ghost predicate NoneContributes(subs: seq<State>, order: seq<nat>, ids: seq<nat>, v6: bool, paired: bool)
    requires forall i :: 0 <= i < |order| ==> order[i] < |subs|
  {
    forall id :: id in ids ==> !Contributes(subs, order, id, v6, paired)
  }

  lemma {:induction false} GatherNothing(subs: seq<State>, order: seq<nat>, ids: seq<nat>, v6: bool, paired: bool)
    requires forall i :: 0 <= i < |order| ==> order[i] < |subs|
    requires Gather(subs, order, ids, v6, paired) == []
    ensures NoneContributes(subs, order, ids, v6, paired)
  {
    if ids != [] {
      var init := ids[..|ids| - 1];
      GatherNothing(subs, order, init, v6, paired);
      assert ids == init + [ids[|ids| - 1]];
    }
  }

  /** No available subnet of the same net ID and family comes before it. */
  ghost predicate FirstOfGroup(s: NetState, k: nat)
  {
    && Available(s, k)
    && forall i: nat :: i < |s.subnets| && Fits(s.subnets[i], NetID(s.subnets[k]), s.subnets[k].spec.ipv6) ==>
                          !Closer(s, i, k)
  }

  /** No available subnet that has a partner comes before it, of either family. */
  ghost predicate FirstPartnered(s: NetState, g: nat)
  {
    && Available(s, g) && Partnered(s, g)
    && forall i: nat :: Available(s, i) && Partnered(s, i) ==> !Closer(s, i, g)
  }

  /** The first available subnet that has a partner has the net ID of this one. */
  ghost predicate InFirstPair(s: NetState, k: nat)
  {
    k < |s.subnets| && exists g: nat :: FirstPartnered(s, g) && NetID(s.subnets[g]) == NetID(s.subnets[k])
  }

  /** No available subnet of the same family without a partner comes before it. */
  ghost predicate FirstUnpartnered(s: NetState, k: nat)
  {
    && Available(s, k)
    && forall i: nat :: Available(s, i) && !Partnered(s, i) && s.subnets[i].spec.ipv6 == s.subnets[k].spec.ipv6 ==>
                          !Closer(s, i, k)
  }

  ghost predicate ClassifiedFirst(s: NetState, v6: bool, paired: bool, k: nat)
    requires s.subnets != [] ==> s.index < |s.subnets|
  {
    Classified(s, v6, paired) != [] && Classified(s, v6, paired)[0] == k
  }

  lemma {:induction false} PlaceIsDistance(s: NetState, k: nat)
    requires s.index < |s.subnets| && k < |s.subnets|
    ensures Rotation(s.index, |s.subnets|, |s.subnets|)[Distance(s, k)] == k
  {}

  lemma {:induction false} PartneredMeans(s: NetState, k: nat)
    requires s.index < |s.subnets| && Available(s, k)
    ensures var order := Rotation(s.index, |s.subnets|, |s.subnets|);
            forall paired :: Contributes(s.subnets, order, NetID(s.subnets[k]), s.subnets[k].spec.ipv6, paired) ==>
                               (Partnered(s, k) <==> paired)
    ensures var order := Rotation(s.index, |s.subnets|, |s.subnets|);
            Contributes(s.subnets, order, NetID(s.subnets[k]), s.subnets[k].spec.ipv6, Partnered(s, k))
    ensures var order := Rotation(s.index, |s.subnets|, |s.subnets|);
            Partnered(s, k) ==> Contributes(s.subnets, order, NetID(s.subnets[k]), !s.subnets[k].spec.ipv6, true)
  {
    var order := Rotation(s.index, |s.subnets|, |s.subnets|);
    var id, v6 := NetID(s.subnets[k]), s.subnets[k].spec.ipv6;
    RotationComplete(s.index, |s.subnets|);
    MatchingEmpty(s.subnets, order, id, v6);
    MatchingEmpty(s.subnets, order, id, !v6);
    assert k in order && Fits(s.subnets[k], id, v6);
  }

  /** The head of a list is the first of its group from the cursor on. */
  lemma {:induction false} HeadIsFirst(s: NetState, v6: bool, paired: bool, k: nat) returns (m: nat)
    requires s.index < |s.subnets| && ClassifiedFirst(s, v6, paired, k)
    ensures FirstOfGroup(s, k) && s.subnets[k].spec.ipv6 == v6 && (Partnered(s, k) <==> paired)
    ensures var order := Rotation(s.index, |s.subnets|, |s.subnets|); var ids := IdOrder(s.subnets, order);
            && m < |ids| && ids[m] == NetID(s.subnets[k])
            && NoneContributes(s.subnets, order, ids[..m], v6, paired)
  {
    var order := Rotation(s.index, |s.subnets|, |s.subnets|);
    var ids := IdOrder(s.subnets, order);
    m := GatherHead(s.subnets, order, ids, v6, paired);
    var p := MatchingHead(s.subnets, order, ids[m], v6);
    PlaceIsDistance(s, k);
    RotationComplete(s.index, |s.subnets|);
    assert p == Distance(s, k);
    PartneredMeans(s, k);
    forall i: nat | i < |s.subnets| && Fits(s.subnets[i], NetID(s.subnets[k]), v6)
      ensures !Closer(s, i, k)
    {
      PlaceIsDistance(s, i);
      assert Fits(s.subnets[order[Distance(s, i)]], ids[m], v6);
    }
  }

  /** A net ID that appears before any appearance of `ids[m]` comes before it in the order of net IDs. */
  lemma {:induction false} EarlierID(subs: seq<State>, order: seq<nat>, q: nat, id: nat, m: nat)
    requires forall i :: 0 <= i < |order| ==> order[i] < |subs|
    requires m < |IdOrder(subs, order)| && Appears(subs, order, q, id)
    requires forall p: nat :: p <= q ==> !Appears(subs, order, p, IdOrder(subs, order)[m])
    ensures id in IdOrder(subs, order)[..m]
  {
    var ids := IdOrder(subs, order);
    IdOrderMember(subs, order);
    assert order[q] in order;
    var e :| 0 <= e < |ids| && ids[e] == id;
    if e > m {
      var p := IdsInOrder(subs, order, m, e, q);
    } else {
      assert e < m && ids[..m][e] == id;
    }
  }

  lemma {:induction false} EarlierGroup(s: NetState, i: nat, m: nat, p: nat)
    requires s.index < |s.subnets| && Available(s, i) && Distance(s, i) < p
    requires var order := Rotation(s.index, |s.subnets|, |s.subnets|); var ids := IdOrder(s.subnets, order);
             m < |ids| && forall q: nat :: q < p ==> !Appears(s.subnets, order, q, ids[m])
    ensures NetID(s.subnets[i]) in IdOrder(s.subnets, Rotation(s.index, |s.subnets|, |s.subnets|))[..m]
  {
    var order := Rotation(s.index, |s.subnets|, |s.subnets|);
    PlaceIsDistance(s, i);
    EarlierID(s.subnets, order, Distance(s, i), NetID(s.subnets[i]), m);
  }

  lemma {:induction false} PairedHeadSpec(s: NetState, v6: bool, k: nat)
    requires s.index < |s.subnets| && ClassifiedFirst(s, v6, true, k)
    ensures FirstOfGroup(s, k) && s.subnets[k].spec.ipv6 == v6 && Partnered(s, k) && InFirstPair(s, k)
  {
    var order := Rotation(s.index, |s.subnets|, |s.subnets|);
    var m := HeadIsFirst(s, v6, true, k);
    var ids := IdOrder(s.subnets, order);
    var p := IdAppears(s.subnets, order, ids[m]);
    var g := order[p];
    PlaceIsDistance(s, g);
    RotationComplete(s.index, |s.subnets|);
    assert p == Distance(s, g);
    SamePartners(s, g, k);
    forall i: nat | Available(s, i) && Partnered(s, i) ensures !Closer(s, i, g) {
      if Closer(s, i, g) {
        EarlierGroup(s, i, m, p);
        PartneredMeans(s, i);
      }
    }
    assert FirstPartnered(s, g);
  }

  lemma {:induction false} SamePartners(s: NetState, g: nat, k: nat)
    requires Available(s, g) && Available(s, k) && NetID(s.subnets[g]) == NetID(s.subnets[k]) && Partnered(s, k)
    ensures Partnered(s, g)
  {
    if s.subnets[g].spec.ipv6 != s.subnets[k].spec.ipv6 {
      assert Fits(s.subnets[k], NetID(s.subnets[g]), !s.subnets[g].spec.ipv6);
    } else {
      var j: nat :| j < |s.subnets| && Fits(s.subnets[j], NetID(s.subnets[k]), !s.subnets[k].spec.ipv6);
      assert Fits(s.subnets[j], NetID(s.subnets[g]), !s.subnets[g].spec.ipv6);
    }
  }

  /** The net ID of a subnet without a partner does not appear before the first subnet of the group. */
  lemma {:induction false} NoneBefore(s: NetState, k: nat, q: nat)
    requires s.index < |s.subnets| && FirstOfGroup(s, k) && !Partnered(s, k) && q < Distance(s, k)
    ensures !Appears(s.subnets, Rotation(s.index, |s.subnets|, |s.subnets|), q, NetID(s.subnets[k]))
  {
    var i := Rotation(s.index, |s.subnets|, |s.subnets|)[q];
    assert q == Distance(s, i);
  }

  lemma {:induction false} UnpairedHeadSpec(s: NetState, v6: bool, k: nat)
    requires s.index < |s.subnets| && ClassifiedFirst(s, v6, false, k)
    ensures FirstUnpartnered(s, k) && s.subnets[k].spec.ipv6 == v6 && !Partnered(s, k)
  {
    var order := Rotation(s.index, |s.subnets|, |s.subnets|);
    var m := HeadIsFirst(s, v6, false, k);
    var ids := IdOrder(s.subnets, order);
    forall q: nat | q < Distance(s, k) ensures !Appears(s.subnets, order, q, ids[m]) {
      NoneBefore(s, k, q);
    }
    forall i: nat | Available(s, i) && !Partnered(s, i) && s.subnets[i].spec.ipv6 == v6 ensures !Closer(s, i, k) {
      if Closer(s, i, k) {
        EarlierGroup(s, i, m, Distance(s, k));
        PartneredMeans(s, i);
      }
    }
  }

  /** The subnet that serves one family: the first one without a partner from the cursor on or, if the family has none,
      the first one in the group of the first available subnet that has a partner. */
  ghost predicate PickedFor(s: NetState, v6: bool, k: nat)
  {
    && Available(s, k) && s.subnets[k].spec.ipv6 == v6
    && if Partnered(s, k) then FirstOfGroup(s, k) && InFirstPair(s, k) else FirstUnpartnered(s, k)
  }

  /** The pair that serves both families: the first subnet of each family in the group of the first available subnet
      that has a partner. */
  ghost predicate PairPicked(s: NetState, i: nat, j: nat)
  {
    FirstOfGroup(s, i) && InFirstPair(s, i) && FirstOfGroup(s, j) && InFirstPair(s, j)
  }

  /** Classification puts exactly these subnets at the heads of its lists. */
  lemma {:induction false} PickOrder(s: NetState, v6: bool)
    requires s.subnets != [] ==> s.index < |s.subnets|
    ensures Pick(s, v6).Some? ==> PickedFor(s, v6, Pick(s, v6).value)
    ensures PickPair(s).Some? ==> PairPicked(s, PickPair(s).value.0, PickPair(s).value.1)
  {
    PickSpec(s, v6);
    PickPairSpec(s);
    if |Classified(s, v6, false)| > 0 {
      UnpairedHeadSpec(s, v6, Classified(s, v6, false)[0]);
    } else if |Classified(s, v6, true)| > 0 {
      PairedHeadSpec(s, v6, Classified(s, v6, true)[0]);
    }
    if PickPair(s).Some? {
      PairedHeadSpec(s, false, PickPair(s).value.0);
      PairedHeadSpec(s, true, PickPair(s).value.1);
    }
  }
}
