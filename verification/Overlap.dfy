/** The overlap check of subnet admission (`Overlap` in pkg/ipam/types/subnet.go) and what it says about the addresses
    two subnets share. */
module Overlaps {
  import opened Wrappers
  import opened Dyadic
  import opened SubnetModel
  import opened Ownership

  function StartOf(spec: Spec): Addr
  {
    Addr(spec.cidrV6, spec.start)
  }

  function EndOf(spec: Spec): Addr
  {
    Addr(spec.cidrV6, spec.end)
  }

  predicate Overlap(a: Spec, b: Spec)
  {
    && a.ipv6 == b.ipv6
    && (SubnetModel.Contains(a, StartOf(b)) || SubnetModel.Contains(a, EndOf(b))
        || SubnetModel.Contains(b, StartOf(a)) || SubnetModel.Contains(b, EndOf(a)))
  }

  /** Some address is allocatable in both subnets. */
  ghost predicate Shares(a: Spec, b: Spec)
  {
    exists x :: SubnetModel.Contains(a, x) && SubnetModel.Contains(b, x)
  }

  /** The address lies between the start and the end of the subnet. */
  predicate InRange(spec: Spec, x: Addr)
  {
    x.v6 == spec.cidrV6 && spec.start <= x.value <= spec.end
  }

  /** The subnet's own gateway or black list excludes the address. */
  predicate Hidden(spec: Spec, x: Addr)
  {
    spec.gateway == Some(x) || x in spec.blackList
  }

  /** The subnet's family is that of its CIDR, and it is canonical. */
  ghost predicate Admissible(spec: Spec)
  {
    CanonicalSpec(spec) && spec.ipv6 == spec.cidrV6
  }

  /** Both ranges are of one family, not empty, and have an address in common. */
  predicate RangesMeet(a: Spec, b: Spec)
  {
    a.cidrV6 == b.cidrV6 && a.start <= a.end && b.start <= b.end && a.start <= b.end && b.start <= a.end
  }

  /** Some address of both ranges is hidden in neither subnet. */
  ghost predicate CommonAddress(a: Spec, b: Spec)
  {
    exists x :: InRange(a, x) && InRange(b, x) && !Hidden(a, x) && !Hidden(b, x)
  }

  /** The ends of `b` that lie in the range of `a` are all hidden in `a`. */
  predicate EndsHiddenIn(a: Spec, b: Spec)
  {
    (InRange(a, StartOf(b)) ==> Hidden(a, StartOf(b))) && (InRange(a, EndOf(b)) ==> Hidden(a, EndOf(b)))
  }

  lemma {:induction false} ContainsMeans(spec: Spec, x: Addr)
    requires CanonicalSpec(spec)
    ensures SubnetModel.Contains(spec, x) <==> InRange(spec, x) && !Hidden(spec, x)
  {}

  lemma {:induction false} SharesMeans(a: Spec, b: Spec)
    requires Admissible(a) && Admissible(b)
    ensures Shares(a, b) <==> CommonAddress(a, b)
    ensures Shares(a, b) ==> RangesMeet(a, b)
  {
    if x :| SubnetModel.Contains(a, x) && SubnetModel.Contains(b, x) {
      ContainsMeans(a, x);
      ContainsMeans(b, x);
      assert InRange(a, x) && InRange(b, x) && !Hidden(a, x) && !Hidden(b, x);
    }
    if x :| InRange(a, x) && InRange(b, x) && !Hidden(a, x) && !Hidden(b, x) {
      ContainsMeans(a, x);
      ContainsMeans(b, x);
      assert SubnetModel.Contains(a, x) && SubnetModel.Contains(b, x);
    }
  }

  lemma {:induction false} OverlapMeans(a: Spec, b: Spec)
    requires Admissible(a) && Admissible(b)
    ensures Overlap(a, b) <==> !EndsHiddenIn(a, b) || !EndsHiddenIn(b, a)
  {
    ContainsMeans(a, StartOf(b));
    ContainsMeans(a, EndOf(b));
    ContainsMeans(b, StartOf(a));
    ContainsMeans(b, EndOf(a));
  }

  /** The check misses a shared address exactly when the ranges have a common address that is hidden in neither subnet,
      and yet every end of one range that lies in the other is the other subnet's gateway or black-listed there. */
  lemma {:induction false} OverlapMissesIff(a: Spec, b: Spec)
    requires Admissible(a) && Admissible(b)
    ensures Shares(a, b) && !Overlap(a, b) <==> CommonAddress(a, b) && EndsHiddenIn(a, b) && EndsHiddenIn(b, a)
  {
    SharesMeans(a, b);
    OverlapMeans(a, b);
  }

  /** The check refuses subnets that share nothing exactly when some end of one range lies in the other unhidden there,
      and yet every common address of the ranges is hidden in one of the two subnets. */
  lemma {:induction false} OverlapRefusesIff(a: Spec, b: Spec)
    requires Admissible(a) && Admissible(b)
    ensures Overlap(a, b) && !Shares(a, b) <==>
            !CommonAddress(a, b) && (!EndsHiddenIn(a, b) || !EndsHiddenIn(b, a))
  {
    SharesMeans(a, b);
    OverlapMeans(a, b);
  }

  /** No end of either range is hidden in the other subnet. */
  predicate EndsPlain(a: Spec, b: Spec)
  {
    !Hidden(a, StartOf(b)) && !Hidden(a, EndOf(b)) && !Hidden(b, StartOf(a)) && !Hidden(b, EndOf(a))
  }

  /** When two ranges meet, an end of one lies in the other; if none of the ends is hidden the check is exact about the
      ranges. */
  lemma {:induction false} OverlapIsExact(a: Spec, b: Spec)
    requires Admissible(a) && Admissible(b) && a.start <= a.end && b.start <= b.end && EndsPlain(a, b)
    ensures Overlap(a, b) <==> RangesMeet(a, b)
  {
    OverlapMeans(a, b);
  }

  /** A subnet of 10.0.0.0/24. */
  function Small(name: string, start: nat, end: nat, gateway: Option<nat>, blackList: set<Addr>): Spec
  {
    Spec(name, "n", None, false, Net(0x0A00_0000, 24), 0x0A00_0000 + start, 0x0A00_0000 + end,
         if gateway.Some? then Some(Addr(false, 0x0A00_0000 + gateway.value)) else None, blackList, false, false)
  }

  /** Two subnets on 10.0.0.1 to 10.0.0.3 with the same gateway 10.0.0.1 and the same black-listed 10.0.0.3 share
      10.0.0.2 unnoticed. */
  lemma {:induction false} OverlapMisses()
    ensures var a := Small("a", 1, 3, Some(1), {Addr(false, 0x0A00_0003)});
            Shares(a, a.(name := "b")) && !Overlap(a, a.(name := "b"))
  {
    assert Pow2(8) == 256;
    var a := Small("a", 1, 3, Some(1), {Addr(false, 0x0A00_0003)});
    var x := Addr(false, 0x0A00_0002);
    assert SubnetModel.Contains(a, x) && SubnetModel.Contains(a.(name := "b"), x);
  }

  /** 10.0.0.1 to 10.0.0.5 beside 10.0.0.5 to 10.0.0.9 with gateway 10.0.0.5 is refused although they share nothing. */
  lemma {:induction false} OverlapRefuses()
    ensures var a, b := Small("a", 1, 5, None, {}), Small("b", 5, 9, Some(5), {}); Overlap(a, b) && !Shares(a, b)
  {
    assert Pow2(8) == 256;
    var a, b := Small("a", 1, 5, None, {}), Small("b", 5, 9, Some(5), {});
    assert SubnetModel.Contains(a, StartOf(b));
  }

  ghost predicate AllAdmissible(subs: seq<State>)
  {
    forall i :: 0 <= i < |subs| ==> Admissible(subs[i].spec)
  }

  /** The check was false for every two of the subnets. */
  ghost predicate PassedCheck(subs: seq<State>)
  {
    forall i, j :: 0 <= i < j < |subs| ==> !Overlap(subs[i].spec, subs[j].spec)
  }

  /** Subnets that pass the check pairwise, with no end of a range hidden in another subnet, share no address, so no run
      of their allocators holds an address twice. */
  lemma {:induction false} AdmittedAreApart(subs: seq<State>)
    requires AllAdmissible(subs) && PassedCheck(subs)
    requires forall i, j :: 0 <= i < j < |subs| ==> EndsPlain(subs[i].spec, subs[j].spec)
    ensures NonOverlapping(subs)
  {
    forall i, j, x | 0 <= i < j < |subs| && SubnetModel.Contains(subs[i].spec, x)
      ensures !SubnetModel.Contains(subs[j].spec, x)
    {
      var a, b := subs[i].spec, subs[j].spec;
      if SubnetModel.Contains(b, x) {
        assert Shares(a, b);
        SharesMeans(a, b);
        OverlapIsExact(a, b);
      }
    }
  }
}
