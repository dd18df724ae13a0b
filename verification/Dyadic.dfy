/** Power-of-two blocks of a `width`-bit address space: the arithmetic behind CIDR prefixes.

    An address is an integer below `Pow2(width)` (width 32 for IPv4, 128 for IPv6; nothing here
    depends on the value).  A `Net` is a `net.IPNet` whose address has no host bits set. */
module Dyadic {

  /** The bits of an address. */
  function Width(v6: bool): nat
  {
    if v6 then 128 else 32
  }

  function Pow2(k: nat): (p: nat)
    ensures p >= 1
  {
    if k == 0 then 1 else 2 * Pow2(k - 1)
  }

  datatype Net = Net(base: nat, ones: nat)

  predicate IsNet(width: nat, n: Net)
  {
    n.ones <= width && n.base % Size(width, n) == 0 && Last(width, n) < Pow2(width)
  }

  function Size(width: nat, n: Net): nat
    requires n.ones <= width
  {
    Pow2(width - n.ones)
  }

  function Last(width: nat, n: Net): nat
    requires n.ones <= width
  {
    n.base + Size(width, n) - 1
  }

  predicate Contains(width: nat, n: Net, x: int)
  {
    n.ones <= width && n.base <= x <= Last(width, n)
  }

  lemma {:induction false} Pow2Split(j: nat, k: nat)
    ensures Pow2(j + k) == Pow2(j) * Pow2(k)
  {
    if j != 0 { Pow2Split(j - 1, k); }
  }

  lemma {:induction false} Pow2Monotone(j: nat, k: nat)
    requires j <= k
    ensures Pow2(j) <= Pow2(k)
    ensures j < k ==> 2 * Pow2(j) <= Pow2(k)
    decreases k
  {
    if j < k { Pow2Monotone(j, k - 1); }
  }

  /** A multiple of a larger power of two is a multiple of every smaller one. */
  lemma {:induction false} AlignedDown(a: nat, j: nat, k: nat)
    requires j <= k && a % Pow2(k) == 0
    ensures a % Pow2(j) == 0
  {
    Pow2Split(k - j, j);
    var q := a / Pow2(k);
    calc {
      a;
      q * Pow2(k);
      q * (Pow2(k - j) * Pow2(j));
      { MulAssoc(q, Pow2(k - j), Pow2(j)); }
      (q * Pow2(k - j)) * Pow2(j);
    }
    ModOfMultiple(q * Pow2(k - j), Pow2(j));
  }

  lemma {:induction false} MulAssoc(a: int, b: int, c: int)
    ensures a * (b * c) == (a * b) * c
  {}

  lemma {:induction false} ModOfMultiple(q: nat, d: nat)
    requires d > 0
    ensures (q * d) % d == 0
  {
    var r := (q * d) / d;
    assert r * d + (q * d) % d == q * d;
    MulOrder(r, q, d);
    MulOrder(q, r, d);
  }

  lemma {:induction false} MulOrder(i: nat, j: nat, d: nat)
    ensures i < j ==> i * d + d <= j * d
  {
    if i < j {
      assert j * d == (i + 1) * d + (j - i - 1) * d;
    }
  }

  /** Two aligned positions that differ differ by at least the alignment. */
  lemma {:induction false} AlignedGap(a: nat, b: nat, d: nat)
    requires d > 0 && a % d == 0 && b % d == 0 && a < b
    ensures a + d <= b
  {
    var i, j := a / d, b / d;
    assert a == i * d && b == j * d;
    MulOrder(i, j, d);
    MulOrder(j, i, d);
  }

  lemma {:induction false} AlignedSum(a: nat, c: nat, d: nat)
    requires d > 0 && a % d == 0
    ensures (a + c * d) % d == 0
  {
    var q := a / d;
    assert a + c * d == (q + c) * d;
    ModOfMultiple(q + c, d);
  }

  /** Two CIDR blocks are nested or disjoint: sharing one address means the shorter prefix
      contains the longer one. */
  lemma {:induction false} NestedOrDisjoint(width: nat, m: Net, n: Net, x: nat)
    requires IsNet(width, m) && IsNet(width, n)
    requires m.ones <= n.ones
    requires Contains(width, m, x) && Contains(width, n, x)
    ensures m.base <= n.base && Last(width, n) <= Last(width, m)
  {
    var d, c := Size(width, n), Pow2(n.ones - m.ones);
    AlignedDown(m.base, width - n.ones, width - m.ones);
    if n.base < m.base { AlignedGap(n.base, m.base, d); }
    Pow2Split(n.ones - m.ones, width - n.ones);
    AlignedSum(m.base, c, d);
    AlignedGap(n.base, m.base + c * d, d);
  }
}
