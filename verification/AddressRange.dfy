/** When two address ranges share an address (pkg/utils/ip.go). */
module AddressRanges {
  import opened Wrappers
  import opened Dyadic

  /** An `AddressRange` whose texts are parsed; an absent start or end is an empty text. */
  datatype AddressRange = AddressRange(v6: bool, net: Net, start: Option<nat>, end: Option<nat>, excludes: seq<nat>)

  /** What `ValidateAddressRange` admits, and the walk over the range does not run past the end of the address space. */
  ghost predicate ValidRange(r: AddressRange)
  {
    && IsNet(Width(r.v6), r.net) && r.net.ones < Width(r.v6)
    && (r.start.Some? ==> Contains(Width(r.v6), r.net, r.start.value))
    && (r.end.Some? ==> Contains(Width(r.v6), r.net, r.end.value))
    && LastOf(r) + 1 < Pow2(Width(r.v6))
  }

  /** All host bits set; for IPv4 the last octet is then decremented as a byte. */
  function LastIP(v6: bool, n: Net): nat
    requires n.ones <= Width(v6)
  {
    var end := Last(Width(v6), n);
    if v6 then end else if end % 256 == 0 then end + 255 else end - 1
  }

  /** For IPv4 the result is the address before the broadcast address, and inside the network, exactly when the prefix
      is shorter than 32 bits. */
  lemma {:induction false} LastIPInside(n: Net)
    requires IsNet(32, n)
    ensures Contains(32, n, LastIP(false, n)) <==> n.ones < 32
    ensures n.ones < 32 ==> LastIP(false, n) == Last(32, n) - 1
  {
    if n.ones < 32 {
      var k := 32 - n.ones;
      AlignedDown(n.base, 1, k);
      assert Pow2(1) == 2;
      assert Pow2(k) == 2 * Pow2(k - 1);
      OddOctet(n.base, Pow2(k - 1));
    } else {
      assert Pow2(0) == 1;
    }
  }

  lemma {:induction false} OddOctet(base: nat, half: nat)
    requires base % 2 == 0 && half > 0
    ensures (base + 2 * half - 1) % 256 != 0
  {
    var x := base + 2 * half - 1;
    assert x == 2 * (base / 2 + half) - 1;
    assert x % 256 == x - 2 * (128 * (x / 256));
  }

  /** With a full-length prefix the decrement can wrap: 10.0.0.0/32 ends at 10.0.0.255. */
  lemma {:induction false} LastIPWraps()
    ensures var n := Net(0x0A00_0000, 32); IsNet(32, n) && LastIP(false, n) == 0x0A00_00FF
  {
    assert Pow2(0) == 1;
    Pow2Monotone(28, 32);
    assert Pow2(8) == 256;
    Pow2Split(8, 8);
    Pow2Split(16, 12);
    assert Pow2(12) == 4096;
  }

  function FirstOf(r: AddressRange): nat
  {
    if r.start.Some? then r.start.value else r.net.base + 1
  }

  function LastOf(r: AddressRange): nat
    requires r.net.ones <= Width(r.v6)
  {
    if r.end.Some? then r.end.value else LastIP(r.v6, r.net)
  }

  /** A usable address lies in the CIDR, is not excluded, and lies between the start and the end; without a start the
      network address is not usable, without an end the IPv4 broadcast address is not. */
  ghost predicate Usable(r: AddressRange, x: nat)
  {
    && Contains(Width(r.v6), r.net, x)
    && x !in r.excludes
    && (if r.start.Some? then r.start.value <= x else x != r.net.base)
    && (if r.end.Some? then x <= r.end.value else r.v6 || x != Last(Width(r.v6), r.net))
  }

  ghost predicate ShareAddress(a: AddressRange, b: AddressRange)
  {
    a.v6 == b.v6 && exists x :: Usable(a, x) && Usable(b, x)
  }

  /** Walking from the first to the last address visits exactly the usable addresses and the excluded ones. */
  lemma {:induction false} WalkIsUsable(r: AddressRange, x: nat)
    requires ValidRange(r)
    ensures Usable(r, x) <==> FirstOf(r) <= x <= LastOf(r) && x !in r.excludes
  {
    if !r.v6 { LastIPInside(r.net); }
  }

  /** The early CIDR test never drops a shared address. */
  lemma {:induction false} DisjointCIDRs(a: AddressRange, b: AddressRange)
    requires ValidRange(a) && ValidRange(b) && a.v6 == b.v6
    requires !Contains(Width(a.v6), a.net, b.net.base) && !Contains(Width(a.v6), b.net, a.net.base)
    ensures !ShareAddress(a, b)
  {
    if x :| Usable(a, x) && Usable(b, x) {
      if a.net.ones <= b.net.ones {
        NestedOrDisjoint(Width(a.v6), a.net, b.net, x);
      } else {
        NestedOrDisjoint(Width(a.v6), b.net, a.net, x);
      }
    }
  }

  method CollectRange(r: AddressRange) returns (addresses: set<nat>)
    requires ValidRange(r)
    ensures forall x :: x in addresses <==> Usable(r, x)
  {
    addresses := {};
    var i := FirstOf(r);
    while i <= LastOf(r)
      invariant FirstOf(r) <= i
      invariant forall x :: x in addresses <==> FirstOf(r) <= x < i && x <= LastOf(r) && x !in r.excludes
      decreases LastOf(r) - i + 1
    {
      if i !in r.excludes {
        addresses := addresses + {i};
      }
      i := i + 1;
    }
    forall x ensures x in addresses <==> Usable(r, x) {
      if 0 <= x { WalkIsUsable(r, x); }
    }
  }

  method Intersect(a: AddressRange, b: AddressRange) returns (r: bool)
    requires ValidRange(a) && ValidRange(b)
    ensures r <==> ShareAddress(a, b)
    ensures r <==> ShareAddress(b, a)
  {
    if a.v6 != b.v6 {
      return false;
    }
    if !Contains(Width(a.v6), a.net, b.net.base) && !Contains(Width(b.v6), b.net, a.net.base) {
      DisjointCIDRs(a, b);
      return false;
    }
    var rangeA := CollectRange(a);
    var i := FirstOf(b);
    while i <= LastOf(b)
      invariant FirstOf(b) <= i
      invariant forall x :: FirstOf(b) <= x < i && x <= LastOf(b) && x !in b.excludes ==> x !in rangeA
      decreases LastOf(b) - i + 1
    {
      if i !in b.excludes && i in rangeA {
        WalkIsUsable(b, i);
        return true;
      }
      i := i + 1;
    }
    forall x: nat | Usable(a, x) ensures !Usable(b, x) {
      WalkIsUsable(b, x);
    }
    return false;
  }
}
