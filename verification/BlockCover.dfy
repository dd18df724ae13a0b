/** What it means to cut a range of addresses into CIDR blocks, and why the greedy cut of
    pkg/daemon/utils/ip_range.go is the best possible one. */
module BlockCover {
  import opened Dyadic

  ghost predicate Covered(width: nat, bs: seq<Net>, x: int)
  {
    exists i :: 0 <= i < |bs| && Contains(width, bs[i], x)
  }

  ghost predicate AllNets(width: nat, bs: seq<Net>)
  {
    forall i :: 0 <= i < |bs| ==> IsNet(width, bs[i])
  }

  /** `bs` is a list of CIDR blocks whose union is exactly [lo, hi]; overlaps are allowed. */
  ghost predicate ExactCover(width: nat, bs: seq<Net>, lo: int, hi: int)
  {
    AllNets(width, bs) && forall x: int :: Covered(width, bs, x) <==> lo <= x <= hi
  }

  /** A block with `ones` leading bits can start at `lo` and stay inside [lo, hi]. */
  predicate Fits(width: nat, lo: nat, hi: nat, ones: nat)
  {
    ones <= width && lo % Pow2(width - ones) == 0 && lo + Pow2(width - ones) - 1 <= hi
  }

  /** The largest block that starts at `lo` and stays inside [lo, hi]. */
  ghost predicate FirstLargest(width: nat, n: Net, lo: nat, hi: nat)
  {
    n.base == lo && Fits(width, lo, hi, n.ones) && forall k: nat :: k < n.ones ==> !Fits(width, lo, hi, k)
  }

  /** Consecutive blocks from `lo` to `hi`, each the largest that fits where the previous one ended. */
  ghost predicate GreedyCut(width: nat, bs: seq<Net>, lo: nat, hi: nat)
  {
    && |bs| > 0
    && AllNets(width, bs)
    && bs[0].base == lo
    && Last(width, bs[|bs| - 1]) == hi
    && (forall i :: 0 <= i < |bs| ==> FirstLargest(width, bs[i], bs[i].base, hi))
    && (forall i :: 0 < i < |bs| ==> bs[i].base == Last(width, bs[i - 1]) + 1)
  }

  lemma {:induction false} GreedyTail(width: nat, bs: seq<Net>, lo: nat, hi: nat)
    requires GreedyCut(width, bs, lo, hi)
    ensures lo <= Last(width, bs[0]) <= hi
    ensures Last(width, bs[0]) == hi <==> |bs| == 1
    ensures |bs| > 1 ==> GreedyCut(width, bs[1..], Last(width, bs[0]) + 1, hi)
  {
    assert FirstLargest(width, bs[0], lo, hi);
    if |bs| > 1 {
      var rest := bs[1..];
      assert forall i :: 0 <= i < |rest| ==> rest[i] == bs[i + 1];
      forall i | 0 < i < |rest| ensures rest[i].base == Last(width, rest[i - 1]) + 1 {
        assert rest[i] == bs[i + 1] && rest[i - 1] == bs[i];
      }
      assert FirstLargest(width, bs[1], bs[1].base, hi);
    }
  }

  lemma {:induction false} CoveredCons(width: nat, bs: seq<Net>, x: int)
    requires |bs| > 0
    ensures Covered(width, bs, x) <==> Contains(width, bs[0], x) || Covered(width, bs[1..], x)
  {
    if Covered(width, bs[1..], x) {
      var i :| 0 <= i < |bs[1..]| && Contains(width, bs[1..][i], x);
      assert Contains(width, bs[i + 1], x);
    }
    if Covered(width, bs, x) {
      var i :| 0 <= i < |bs| && Contains(width, bs[i], x);
      if i > 0 { assert bs[1..][i - 1] == bs[i]; }
    }
  }

  /** The greedy blocks cover the range and nothing else. */
  lemma {:induction false} GreedyIsExact(width: nat, bs: seq<Net>, lo: nat, hi: nat)
    requires GreedyCut(width, bs, lo, hi)
    ensures ExactCover(width, bs, lo, hi)
    decreases |bs|
  {
    GreedyTail(width, bs, lo, hi);
    if |bs| > 1 { GreedyIsExact(width, bs[1..], Last(width, bs[0]) + 1, hi); }
    forall x: int ensures Covered(width, bs, x) <==> lo <= x <= hi {
      CoveredCons(width, bs, x);
    }
  }

  /** The blocks of a list that start after `last`. */
  function After(bs: seq<Net>, last: nat): (rest: seq<Net>)
    ensures |rest| <= |bs|
    ensures forall n :: n in rest <==> n in bs && n.base > last
    ensures (exists n :: n in bs && n.base <= last) ==> |rest| < |bs|
  {
    if |bs| == 0 then [] else
      assert forall n :: n in bs <==> n == bs[0] || n in bs[1..];
      if bs[0].base > last then [bs[0]] + After(bs[1..], last) else After(bs[1..], last)
  }

  /** In a cover of [lo, hi], every block lies inside the first greedy block or after it. */
  lemma {:induction false} InsideOrAfter(width: nat, g: Net, cover: seq<Net>, lo: nat, hi: nat, n: Net)
    requires FirstLargest(width, g, lo, hi) && IsNet(width, g)
    requires ExactCover(width, cover, lo, hi) && n in cover
    ensures lo <= n.base && Last(width, n) <= hi
    ensures n.base <= Last(width, g) ==> Last(width, n) <= Last(width, g)
  {
    assert Contains(width, n, n.base) && Contains(width, n, Last(width, n));
    assert Covered(width, cover, n.base) && Covered(width, cover, Last(width, n));
    if n.base <= Last(width, g) {
      if g.ones <= n.ones {
        NestedOrDisjoint(width, g, n, n.base);
      } else {
        NestedOrDisjoint(width, n, g, n.base);
        assert n.base == lo;
        assert Fits(width, lo, hi, n.ones);
      }
    }
  }

  /** No list of CIDR blocks with the same union is shorter than the greedy one. */
  lemma {:induction false} GreedyIsMinimal(width: nat, bs: seq<Net>, cover: seq<Net>, lo: nat, hi: nat)
    requires GreedyCut(width, bs, lo, hi)
    requires ExactCover(width, cover, lo, hi)
    ensures |bs| <= |cover|
    decreases |bs|
  {
    var g := bs[0];
    GreedyTail(width, bs, lo, hi);
    assert Covered(width, cover, lo);
    var last := Last(width, g);
    var rest := After(cover, last);
    if |bs| > 1 {
      forall x: int ensures Covered(width, rest, x) <==> last + 1 <= x <= hi {
        AfterCovers(width, g, cover, lo, hi, x);
      }
      GreedyIsMinimal(width, bs[1..], rest, last + 1, hi);
    }
  }

  lemma {:induction false} AfterCovers(width: nat, g: Net, cover: seq<Net>, lo: nat, hi: nat, x: int)
    requires FirstLargest(width, g, lo, hi) && IsNet(width, g)
    requires ExactCover(width, cover, lo, hi)
    ensures Covered(width, After(cover, Last(width, g)), x) <==> Last(width, g) + 1 <= x <= hi
  {
    var rest := After(cover, Last(width, g));
    if Covered(width, rest, x) {
      var i :| 0 <= i < |rest| && Contains(width, rest[i], x);
      assert rest[i] in cover;
      InsideOrAfter(width, g, cover, lo, hi, rest[i]);
    }
    if Last(width, g) + 1 <= x <= hi {
      assert Covered(width, cover, x);
      var i :| 0 <= i < |cover| && Contains(width, cover[i], x);
      InsideOrAfter(width, g, cover, lo, hi, cover[i]);
      assert cover[i] in rest;
      var j :| 0 <= j < |rest| && rest[j] == cover[i];
      assert Contains(width, rest[j], x);
    }
  }

  // ---- At most 2 * width - 2 blocks ----
  //
  // The bound is obtained by exhibiting a short cover of the range; the greedy one cannot be longer.

  lemma {:induction false} CoveredConcat(width: nat, p: seq<Net>, q: seq<Net>, x: int)
    ensures Covered(width, p + q, x) <==> Covered(width, p, x) || Covered(width, q, x)
  {
    if Covered(width, p, x) {
      var i :| 0 <= i < |p| && Contains(width, p[i], x);
      assert (p + q)[i] == p[i];
    }
    if Covered(width, q, x) {
      var i :| 0 <= i < |q| && Contains(width, q[i], x);
      assert (p + q)[|p| + i] == q[i];
    }
    if Covered(width, p + q, x) {
      var i :| 0 <= i < |p + q| && Contains(width, (p + q)[i], x);
      if i < |p| { assert (p + q)[i] == p[i]; } else { assert (p + q)[i] == q[i - |p|]; }
    }
  }

  lemma {:induction false} ConcatCovers(width: nat, p: seq<Net>, q: seq<Net>, lo: int, mid: int, hi: int)
    requires lo <= mid + 1 && mid <= hi
    requires ExactCover(width, p, lo, mid) && ExactCover(width, q, mid + 1, hi)
    ensures ExactCover(width, p + q, lo, hi)
  {
    forall x: int ensures Covered(width, p + q, x) <==> lo <= x <= hi {
      CoveredConcat(width, p, q, x);
    }
  }

  /** The two halves of a block are blocks. */
  lemma {:induction false} Halves(width: nat, n: Net)
    requires IsNet(width, n) && n.ones < width
    ensures IsNet(width, Net(n.base, n.ones + 1))
    ensures IsNet(width, Net(n.base + Pow2(width - n.ones - 1), n.ones + 1))
    ensures Size(width, n) == 2 * Pow2(width - n.ones - 1)
  {
    var d := Pow2(width - n.ones - 1);
    AlignedDown(n.base, width - n.ones - 1, width - n.ones);
    AlignedSum(n.base, 1, d);
  }

  lemma {:induction false} SingleCover(width: nat, n: Net)
    requires IsNet(width, n)
    ensures ExactCover(width, [n], n.base, Last(width, n))
  {
    forall x: int ensures Covered(width, [n], x) <==> n.base <= x <= Last(width, n) {
      assert [n][0] == n;
      if Contains(width, n, x) { assert Contains(width, [n][0], x); }
    }
  }

  /** A proper initial part of a block with k host bits needs at most k blocks. */
  lemma {:induction false} PrefixCover(width: nat, n: Net, hi: nat) returns (bs: seq<Net>)
    requires IsNet(width, n) && n.base <= hi <= Last(width, n)
    ensures ExactCover(width, bs, n.base, hi)
    ensures hi == Last(width, n) ==> |bs| == 1
    ensures hi < Last(width, n) ==> |bs| <= width - n.ones
    decreases width - n.ones
  {
    if hi == Last(width, n) {
      SingleCover(width, n);
      return [n];
    }
    Halves(width, n);
    var left, right := Net(n.base, n.ones + 1), Net(n.base + Pow2(width - n.ones - 1), n.ones + 1);
    if hi <= Last(width, left) {
      bs := PrefixCover(width, left, hi);
    } else {
      var rest := PrefixCover(width, right, hi);
      SingleCover(width, left);
      ConcatCovers(width, [left], rest, n.base, Last(width, left), hi);
      bs := [left] + rest;
    }
  }

  /** A proper final part of a block with k host bits needs at most k blocks. */
  lemma {:induction false} SuffixCover(width: nat, n: Net, lo: nat) returns (bs: seq<Net>)
    requires IsNet(width, n) && n.base <= lo <= Last(width, n)
    ensures ExactCover(width, bs, lo, Last(width, n))
    ensures lo == n.base ==> |bs| == 1
    ensures lo > n.base ==> |bs| <= width - n.ones
    decreases width - n.ones
  {
    if lo == n.base {
      SingleCover(width, n);
      return [n];
    }
    Halves(width, n);
    var left, right := Net(n.base, n.ones + 1), Net(n.base + Pow2(width - n.ones - 1), n.ones + 1);
    if lo >= right.base {
      bs := SuffixCover(width, right, lo);
    } else {
      var rest := SuffixCover(width, left, lo);
      SingleCover(width, right);
      ConcatCovers(width, rest, [right], lo, Last(width, left), Last(width, n));
      bs := rest + [right];
    }
  }

  lemma {:induction false} RangeCover(width: nat, n: Net, lo: nat, hi: nat) returns (bs: seq<Net>)
    requires IsNet(width, n) && n.base <= lo <= hi <= Last(width, n)
    ensures ExactCover(width, bs, lo, hi)
    ensures |bs| <= 1 || |bs| <= 2 * (width - n.ones) - 2
    decreases width - n.ones
  {
    if lo == n.base && hi == Last(width, n) {
      SingleCover(width, n);
      return [n];
    }
    Halves(width, n);
    var left, right := Net(n.base, n.ones + 1), Net(n.base + Pow2(width - n.ones - 1), n.ones + 1);
    if hi <= Last(width, left) {
      bs := RangeCover(width, left, lo, hi);
    } else if lo >= right.base {
      bs := RangeCover(width, right, lo, hi);
    } else {
      var p := SuffixCover(width, left, lo);
      var q := PrefixCover(width, right, hi);
      ConcatCovers(width, p, q, lo, Last(width, left), hi);
      bs := p + q;
    }
  }

  /** In a space of at least two bits the greedy cut of any range has at most 2 * width - 2 blocks. */
  lemma {:induction false} GreedyBound(width: nat, bs: seq<Net>, lo: nat, hi: nat)
    requires width >= 2 && hi < Pow2(width)
    requires GreedyCut(width, bs, lo, hi)
    ensures |bs| <= 2 * width - 2
  {
    GreedyTail(width, bs, lo, hi);
    var all := Net(0, 0);
    var cover := RangeCover(width, all, lo, hi);
    GreedyIsMinimal(width, bs, cover, lo, hi);
  }
}
