/** Address ranges and their translation into CIDR blocks (pkg/daemon/utils/ip_range.go). */
module IPRanges {
  import opened Wrappers
  import opened Dyadic
  import opened BlockCover

  class IPRange {
    var start: nat
    var end: nat

    constructor (start: nat, end: nat)
      ensures this.start == start && this.end == end
    {
      this.start := start;
      this.end := end;
    }

    predicate Has(x: int)
      reads this
    {
      start <= x <= end
    }

    /** Grow the range by an address that lies inside it or next to it. */
    method TryAddIP(ip: nat) returns (success: bool)
      requires 0 < start <= end
      modifies this
      ensures success <==> old(start) - 1 <= ip <= old(end) + 1
      ensures success ==> forall x: int :: Has(x) <==> old(Has(x)) || x == ip
      ensures start == if success && ip < old(start) then ip else old(start)
      ensures end == if success && ip > old(end) then ip else old(end)
      ensures start <= end
      ensures ip > 0 ==> start > 0
    {
      if ip == start - 1 {
        start := ip;
        return true;
      }
      if ip == end + 1 {
        end := ip;
        return true;
      }
      return ip >= start && ip <= end;
    }

    method SplitIPRangeToIPBlocks(width: nat) returns (blocks: seq<Net>)
      requires start <= end < Pow2(width)
      ensures GreedyCut(width, blocks, start, end)
      ensures ExactCover(width, blocks, start, end)
      ensures width >= 2 ==> |blocks| <= 2 * width - 2
      ensures forall cover :: ExactCover(width, cover, start, end) ==> |blocks| <= |cover|
    {
      blocks := [];
      var next: Option<nat> := Some(start);
      while next.Some?
        invariant AllNets(width, blocks) && (blocks != [] ==> blocks[0].base == start)
        invariant forall i :: 0 <= i < |blocks| ==> FirstLargest(width, blocks[i], blocks[i].base, end)
        invariant forall i :: 0 < i < |blocks| ==> blocks[i].base == Last(width, blocks[i - 1]) + 1
        invariant next.Some? ==> next.value == if blocks == [] then start else Last(width, blocks[|blocks| - 1]) + 1
        invariant next.Some? ==> start <= next.value <= end
        invariant next.None? ==> blocks != [] && Last(width, blocks[|blocks| - 1]) == end
        decreases next.Some?, if next.Some? then end - next.value else 0
      {
        var block;
        block, next := FindTheFirstLargestCidr(width, next.value, end);
        blocks := blocks + [block];
      }
      GreedyIsExact(width, blocks, start, end);
      if width >= 2 { GreedyBound(width, blocks, start, end); }
      forall cover | ExactCover(width, cover, start, end) ensures |blocks| <= |cover| {
        GreedyIsMinimal(width, blocks, cover, start, end);
      }
    }
  }

  /** Number of host bits of the largest block that can start at `ip`. */
  method CalculateIPLastZeroBits(width: nat, ip: nat) returns (zeroBits: nat)
    requires ip < Pow2(width)
    ensures zeroBits <= width && ip % Pow2(zeroBits) == 0
    ensures forall k: nat :: zeroBits < k <= width ==> ip % Pow2(k) != 0
  {
    var maskBits := 0;
    assert Pow2(0) == 1;
    while ip % Pow2(width - maskBits) != 0
      invariant maskBits <= width
      invariant forall k: nat :: width - maskBits < k <= width ==> ip % Pow2(k) != 0
      decreases width - maskBits
    {
      maskBits := maskBits + 1;
    }
    return width - maskBits;
  }

  method FindTheFirstLargestCidr(width: nat, start: nat, end: nat) returns (block: Net, next: Option<nat>)
    requires start <= end < Pow2(width)
    ensures IsNet(width, block) && FirstLargest(width, block, start, end)
    ensures next == if Last(width, block) == end then None else Some(Last(width, block) + 1)
  {
    var zeroBits := CalculateIPLastZeroBits(width, start);
    var prefixLen := width - zeroBits;
    assert Pow2(0) == 1;
    while true
      invariant width - zeroBits <= prefixLen <= width
      invariant forall k: nat :: k < prefixLen ==> !Fits(width, start, end, k)
      decreases width - prefixLen
    {
      AlignedDown(start, width - prefixLen, zeroBits);
      block := Net(start, prefixLen);
      if Last(width, block) == end {
        return block, None;
      }
      if Contains(width, block, end) {
        prefixLen := prefixLen + 1;
      } else {
        return block, Some(Last(width, block) + 1);
      }
    }
  }

  // ---- FindSubnetExcludeIPBlocks ----

  /** The value of a range.  Included ranges are only read, so they are passed as values. */
  datatype Span = Span(start: nat, end: nat)
  {
    predicate Has(x: int) { start <= x <= end }
  }

  ghost function Spans(rs: seq<IPRange>): (s: seq<Span>)
    reads rs
    ensures |s| == |rs| && forall i :: 0 <= i < |s| ==> s[i] == Span(rs[i].start, rs[i].end)
  {
    seq(|rs|, i requires 0 <= i < |rs| reads rs => Span(rs[i].start, rs[i].end))
  }

  ghost predicate InSome(s: seq<Span>, x: int)
  {
    exists i :: 0 <= i < |s| && s[i].Has(x)
  }

  ghost predicate Proper(s: seq<Span>)
  {
    forall i :: 0 <= i < |s| ==> s[i].start <= s[i].end
  }

  ghost predicate SortedByStart(s: seq<Span>)
  {
    forall i, j :: 0 <= i <= j < |s| ==> s[i].start <= s[j].start
  }

  function InsertByStart(r: Span, s: seq<Span>): (out: seq<Span>)
    ensures multiset(out) == multiset(s) + multiset{r}
  {
    if s == [] || r.start <= s[0].start then [r] + s
    else
      assert s == [s[0]] + s[1..];
      [s[0]] + InsertByStart(r, s[1..])
  }

  lemma {:induction false} SortedCons(r: Span, s: seq<Span>)
    requires SortedByStart(s) && forall i :: 0 <= i < |s| ==> r.start <= s[i].start
    ensures SortedByStart([r] + s)
  {
    var t := [r] + s;
    forall i, j | 0 <= i <= j < |t| ensures t[i].start <= t[j].start {
      if i > 0 { assert t[i] == s[i - 1] && t[j] == s[j - 1]; }
    }
  }

  lemma {:induction false} InsertKeepsSorted(r: Span, s: seq<Span>)
    requires SortedByStart(s)
    ensures SortedByStart(InsertByStart(r, s))
  {
    if s != [] && s[0].start < r.start {
      InsertKeepsSorted(r, s[1..]);
      var rest := InsertByStart(r, s[1..]);
      forall i | 0 <= i < |rest| ensures s[0].start <= rest[i].start {
        assert rest[i] in multiset(rest);
        assert rest[i] == r || rest[i] in s[1..];
      }
      SortedCons(s[0], rest);
    }
  }

  /** `sorted` holds the ranges in order of their starts; equal starts may come in any order. */
  ghost predicate Sorts(sorted: seq<Span>, s: seq<Span>)
  {
    multiset(sorted) == multiset(s) && SortedByStart(sorted)
  }

  /** `sort.Slice`. */
  method SortByStart(s: seq<Span>) returns (sorted: seq<Span>)
    ensures Sorts(sorted, s)
  {
    sorted := [];
    for i := 0 to |s|
      invariant Sorts(sorted, s[..i])
    {
      InsertKeepsSorted(s[i], sorted);
      sorted := InsertByStart(s[i], sorted);
      assert s[..i + 1] == s[..i] + [s[i]];
    }
    assert s[..|s|] == s;
  }

  /** Some range leaves the CIDR. */
  ghost predicate Leaves(width: nat, cidr: Net, s: seq<Span>)
    requires cidr.ones <= width
  {
    exists i :: 0 <= i < |s| && (s[i].start < cidr.base || s[i].end > Last(width, cidr))
  }

  /** Two ranges of the list share an address. */
  ghost predicate Overlapping(s: seq<Span>)
  {
    exists i, j :: 0 <= i < j < |s| && Share(s[i], s[j])
  }

  ghost predicate Share(p: Span, q: Span)
  {
    exists x: int :: p.Has(x) && q.Has(x)
  }

  /** What the blocks have to cover: the part of the CIDR outside the included ranges (nothing, if
      there are none), the excluded addresses and the gateway. */
  ghost predicate MustExclude(width: nat, cidr: Net, included: seq<Span>, gateway: Option<nat>,
                              excludeIPs: seq<nat>, x: int)
  {
    || (included != [] && Contains(width, cidr, x) && !InSome(included, x))
    || x in excludeIPs
    || gateway == Some(x)
  }

  lemma {:induction false} SeenTwice(s: seq<Span>, v: Span) returns (k: nat, l: nat)
    requires multiset(s)[v] >= 2
    ensures k < l < |s| && s[k] == v && s[l] == v
  {
    assert s == [s[0]] + s[1..];
    if s[0] == v {
      assert v in multiset(s[1..]);
      var m :| 0 <= m < |s[1..]| && s[1..][m] == v;
      return 0, m + 1;
    }
    k, l := SeenTwice(s[1..], v);
    k, l := k + 1, l + 1;
  }

  lemma {:induction false} CountsTwice(s: seq<Span>, i: nat, j: nat)
    requires i < j < |s| && s[i] == s[j]
    ensures multiset(s)[s[i]] >= 2
  {
    assert s == s[..j] + s[j..];
    assert s[i] in s[..j] && s[j] in s[j..];
    assert s[i] in multiset(s[..j]) && s[j] in multiset(s[j..]);
  }

  lemma {:induction false} TwoPlaces(a: seq<Span>, b: seq<Span>, i: nat, j: nat) returns (k: nat, l: nat)
    requires multiset(a) == multiset(b) && i < j < |a|
    ensures k != l && k < |b| && l < |b| && b[k] == a[i] && b[l] == a[j]
  {
    if a[i] == a[j] {
      CountsTwice(a, i, j);
      k, l := SeenTwice(b, a[i]);
    } else {
      assert a[i] in multiset(b) && a[j] in multiset(b);
      k :| 0 <= k < |b| && b[k] == a[i];
      l :| 0 <= l < |b| && b[l] == a[j];
    }
  }

  /** Neither kind of error depends on the order of the ranges. */
  lemma {:induction false} OrderIrrelevant(width: nat, cidr: Net, a: seq<Span>, b: seq<Span>)
    requires cidr.ones <= width && multiset(a) == multiset(b)
    ensures Overlapping(a) ==> Overlapping(b)
    ensures Leaves(width, cidr, a) ==> Leaves(width, cidr, b)
  {
    if Overlapping(a) {
      var i, j :| 0 <= i < j < |a| && Share(a[i], a[j]);
      var k, l := TwoPlaces(a, b, i, j);
      if k < l { assert Share(b[k], b[l]); } else { assert Share(b[l], b[k]); }
    }
    assert forall i :: 0 <= i < |a| ==> a[i] in multiset(b);
  }

  lemma {:induction false} InSomeOrder(a: seq<Span>, b: seq<Span>, x: int)
    requires multiset(a) == multiset(b) && InSome(a, x)
    ensures InSome(b, x)
  {
    var i :| 0 <= i < |a| && a[i].Has(x);
    assert a[i] in multiset(b);
  }

  /** The k-th range starts after its predecessor ends. */
  ghost predicate Separate(s: seq<Span>, k: nat)
  {
    0 < k < |s| ==> s[k - 1].end < s[k].start
  }

  /** In sorted order, comparing neighbours finds every overlap. */
  lemma {:induction false} NeighboursSuffice(s: seq<Span>)
    requires Proper(s) && SortedByStart(s)
    ensures Overlapping(s) <==> exists k :: 0 < k < |s| && !Separate(s, k)
  {
    if i :| 0 < i < |s| && !Separate(s, i) {
      assert s[i - 1].Has(s[i].start) && s[i].Has(s[i].start);
      assert Share(s[i - 1], s[i]);
    }
    if Overlapping(s) {
      var i, j :| 0 <= i < j < |s| && Share(s[i], s[j]);
      assert !Separate(s, i + 1);
    }
  }

  lemma {:induction false} InSomeAppend(s: seq<Span>, r: Span, x: int)
    ensures InSome(s + [r], x) <==> InSome(s, x) || r.Has(x)
  {
    if InSome(s, x) {
      var i :| 0 <= i < |s| && s[i].Has(x);
      assert (s + [r])[i].Has(x);
    }
    if r.Has(x) { assert (s + [r])[|s|].Has(x); }
  }

  /** The last address before the i-th range. */
  function Bound(sorted: seq<Span>, i: nat, cidrEnd: nat): int
    requires i <= |sorted|
  {
    if i == |sorted| then cidrEnd else sorted[i].start - 1
  }

  /** `gaps` is what the first `i` ranges leave of the CIDR up to the next range. */
  ghost predicate GapsUpTo(sorted: seq<Span>, i: nat, cidrStart: nat, cidrEnd: nat, gaps: seq<Span>)
    requires i <= |sorted|
  {
    forall x: int :: InSome(gaps, x) <==> cidrStart <= x <= Bound(sorted, i, cidrEnd) && !InSome(sorted[..i], x)
  }

  function AddGap(gaps: seq<Span>, start: nat, end: int): seq<Span>
  {
    if start > end then gaps else gaps + [Span(start, end)]
  }

  lemma {:induction false} GapStep(sorted: seq<Span>, i: nat, cidrStart: nat, cidrEnd: nat, gaps: seq<Span>)
    requires Proper(sorted) && SortedByStart(sorted) && i < |sorted|
    requires cidrStart <= sorted[i].start && sorted[i].end <= cidrEnd
    requires forall k :: 0 < k <= i + 1 ==> Separate(sorted, k)
    requires GapsUpTo(sorted, i, cidrStart, cidrEnd, gaps)
    ensures GapsUpTo(sorted, i + 1, cidrStart, cidrEnd,
                     AddGap(gaps, sorted[i].end + 1, Bound(sorted, i + 1, cidrEnd)))
  {
    var next := Bound(sorted, i + 1, cidrEnd);
    var more := AddGap(gaps, sorted[i].end + 1, next);
    assert sorted[..i + 1] == sorted[..i] + [sorted[i]];
    forall x: int ensures InSome(more, x) <==> cidrStart <= x <= next && !InSome(sorted[..i + 1], x) {
      InSomeAppend(sorted[..i], sorted[i], x);
      if sorted[i].end + 1 <= next { InSomeAppend(gaps, Span(sorted[i].end + 1, next), x); }
      if InSome(sorted[..i], x) {
        var k :| 0 <= k < |sorted[..i]| && sorted[..i][k].Has(x);
        assert Separate(sorted, k + 1);
      }
    }
  }

  /** What the first `i` ranges leave of the CIDR. */
  function Gaps(sorted: seq<Span>, i: nat, cidrStart: nat, cidrEnd: nat): seq<Span>
    requires i <= |sorted|
  {
    if i == 0 then
      if sorted == [] then [] else AddGap([], cidrStart, sorted[0].start - 1)
    else
      AddGap(Gaps(sorted, i - 1, cidrStart, cidrEnd), sorted[i - 1].end + 1, Bound(sorted, i, cidrEnd))
  }

  lemma {:induction false} GapsCover(sorted: seq<Span>, i: nat, cidrStart: nat, cidrEnd: nat)
    requires Proper(sorted) && SortedByStart(sorted) && sorted != [] && i <= |sorted|
    requires forall k :: 0 <= k < i ==> cidrStart <= sorted[k].start && sorted[k].end <= cidrEnd
    requires forall k :: 0 < k <= i ==> Separate(sorted, k)
    ensures GapsUpTo(sorted, i, cidrStart, cidrEnd, Gaps(sorted, i, cidrStart, cidrEnd))
  {
    if i == 0 {
      forall x: int { InSomeAppend([], Span(cidrStart, if sorted[0].start > 0 then sorted[0].start - 1 else 0), x); }
    } else {
      GapsCover(sorted, i - 1, cidrStart, cidrEnd);
      GapStep(sorted, i - 1, cidrStart, cidrEnd, Gaps(sorted, i - 1, cidrStart, cidrEnd));
    }
  }

  /** Grow the first range that `ip` touches, or open a new one: the inner loop over the ranges. */
  function FoldIP(s: seq<Span>, ip: nat): seq<Span>
  {
    if s == [] then [Span(ip, ip)]
    else if Touches(s[0], ip) then [Grown(s[0], ip)] + s[1..]
    else [s[0]] + FoldIP(s[1..], ip)
  }

  /** `ip` lies in the range or next to it. */
  predicate Touches(r: Span, ip: nat)
  {
    r.start - 1 <= ip <= r.end + 1
  }

  function Grown(r: Span, ip: nat): Span
  {
    Span(if ip < r.start then ip else r.start, if ip > r.end then ip else r.end)
  }

  lemma {:induction false} InSomeCons(r: Span, s: seq<Span>, x: int)
    ensures InSome([r] + s, x) <==> r.Has(x) || InSome(s, x)
  {
    if InSome(s, x) {
      var i :| 0 <= i < |s| && s[i].Has(x);
      assert ([r] + s)[i + 1].Has(x);
    }
    if r.Has(x) { assert ([r] + s)[0].Has(x); }
  }

  lemma {:induction false} FoldIPCovers(s: seq<Span>, ip: nat, x: int)
    requires Proper(s)
    ensures Proper(FoldIP(s, ip))
    ensures InSome(FoldIP(s, ip), x) <==> InSome(s, x) || x == ip
  {
    if s == [] {
      InSomeAppend([], Span(ip, ip), x);
    } else {
      assert s == [s[0]] + s[1..];
      InSomeCons(s[0], s[1..], x);
      if Touches(s[0], ip) {
        InSomeCons(Grown(s[0], ip), s[1..], x);
      } else {
        FoldIPCovers(s[1..], ip, x);
        InSomeCons(s[0], FoldIP(s[1..], ip), x);
      }
    }
  }

  function FoldIPs(s: seq<Span>, ips: seq<nat>): seq<Span>
  {
    if ips == [] then s else FoldIP(FoldIPs(s, ips[..|ips| - 1]), ips[|ips| - 1])
  }

  lemma {:induction false} FoldIPsCovers(s: seq<Span>, ips: seq<nat>, x: int)
    requires Proper(s)
    ensures Proper(FoldIPs(s, ips))
    ensures InSome(FoldIPs(s, ips), x) <==> InSome(s, x) || x in ips
  {
    if ips != [] {
      var init := ips[..|ips| - 1];
      assert ips == init + [ips[|ips| - 1]];
      FoldIPsCovers(s, init, x);
      FoldIPCovers(FoldIPs(s, init), ips[|ips| - 1], x);
    }
  }

  // ---- The methods ----

  /** The first `i` ranges pass both checks of the loop. */
  ghost predicate Admitted(sorted: seq<Span>, i: nat, cidrStart: nat, cidrEnd: nat)
    requires i <= |sorted|
  {
    if i == 0 then true
    else
      && Admitted(sorted, i - 1, cidrStart, cidrEnd)
      && cidrStart <= sorted[i - 1].start && sorted[i - 1].end <= cidrEnd
      && Separate(sorted, i)
  }

  lemma {:induction false} AdmittedAll(sorted: seq<Span>, i: nat, cidrStart: nat, cidrEnd: nat)
    requires i <= |sorted|
    ensures Admitted(sorted, i, cidrStart, cidrEnd) <==>
            && (forall k :: 0 <= k < i ==> cidrStart <= sorted[k].start && sorted[k].end <= cidrEnd)
            && (forall k :: 0 < k <= i ==> Separate(sorted, k))
  {
    if i > 0 { AdmittedAll(sorted, i - 1, cidrStart, cidrEnd); }
  }

  lemma {:induction false} AdmittedPrefix(sorted: seq<Span>, i: nat, j: nat, cidrStart: nat, cidrEnd: nat)
    requires i <= j <= |sorted| && Admitted(sorted, j, cidrStart, cidrEnd)
    ensures Admitted(sorted, i, cidrStart, cidrEnd)
  {
    if i < j { AdmittedPrefix(sorted, i, j - 1, cidrStart, cidrEnd); }
  }

  /** The gaps of the CIDR between the included ranges, or an error. */
  method FindGaps(sorted: seq<Span>, cidrStart: nat, cidrEnd: nat) returns (r: Result<seq<Span>>)
    requires cidrStart > 0
    ensures r.Ok? <==> Admitted(sorted, |sorted|, cidrStart, cidrEnd)
    ensures r.Ok? ==> r.value == Gaps(sorted, |sorted|, cidrStart, cidrEnd)
  {
    var gaps: seq<Span> := [];
    for i := 0 to |sorted|
      invariant Admitted(sorted, i, cidrStart, cidrEnd)
      invariant gaps == if i == 0 then [] else Gaps(sorted, i, cidrStart, cidrEnd)
    {
      var current := sorted[i];
      if current.start < cidrStart || current.end > cidrEnd
          || (i < |sorted| - 1 && current.end >= sorted[i + 1].start) {
        if Admitted(sorted, |sorted|, cidrStart, cidrEnd) {
          AdmittedPrefix(sorted, i + 1, |sorted|, cidrStart, cidrEnd);
        }
        return Err;
      }
      if i == 0 {
        gaps := AddGap(gaps, cidrStart, current.start - 1);
      }
      var nextRangeStartPrev := if i == |sorted| - 1 then cidrEnd else sorted[i + 1].start - 1;
      gaps := AddGap(gaps, current.end + 1, nextRangeStartPrev);
    }
    return Ok(gaps);
  }

  ghost predicate Distinct(rs: seq<IPRange>)
  {
    forall i, j :: 0 <= i < j < |rs| ==> rs[i] != rs[j]
  }

  /** The objects that the next loop grows in place. */
  method NewRanges(s: seq<Span>) returns (rs: seq<IPRange>)
    ensures Distinct(rs) && (forall i :: 0 <= i < |rs| ==> fresh(rs[i])) && Spans(rs) == s
  {
    rs := [];
    for i := 0 to |s|
      invariant Distinct(rs) && (forall k :: 0 <= k < |rs| ==> fresh(rs[k])) && Spans(rs) == s[..i]
    {
      var r := new IPRange(s[i].start, s[i].end);
      rs := rs + [r];
    }
  }

  ghost predicate Positive(s: seq<Span>)
  {
    forall i :: 0 <= i < |s| ==> 0 < s[i].start <= s[i].end
  }

  lemma {:induction false} FoldIPPositive(s: seq<Span>, ip: nat)
    requires Positive(s) && ip > 0
    ensures Positive(FoldIP(s, ip))
  {
    if s != [] { FoldIPPositive(s[1..], ip); }
  }

  /** Try the ranges in order; open a new one if none takes the address. */
  method AddIP(ranges: seq<IPRange>, ip: nat) returns (all: seq<IPRange>)
    requires Distinct(ranges) && Positive(Spans(ranges)) && ip > 0
    modifies ranges
    ensures Distinct(all) && forall i :: 0 <= i < |all| ==> all[i] in ranges || fresh(all[i])
    ensures Spans(all) == FoldIP(old(Spans(ranges)), ip)
  {
    ghost var s := Spans(ranges);
    for i := 0 to |ranges|
      invariant Spans(ranges) == s
      invariant forall k :: 0 <= k < i ==> !Touches(s[k], ip)
    {
      var added := ranges[i].TryAddIP(ip);
      if added {
        FoldIPAt(s, ip, i);
        assert Spans(ranges) == s[i := Grown(s[i], ip)];
        return ranges;
      }
      assert Spans(ranges) == s;
    }
    FoldIPNowhere(s, ip);
    var single := new IPRange(ip, ip);
    all := ranges + [single];
  }

  lemma {:induction false} FoldIPAt(s: seq<Span>, ip: nat, i: nat)
    requires i < |s| && Touches(s[i], ip)
    requires forall k :: 0 <= k < i ==> !Touches(s[k], ip)
    ensures FoldIP(s, ip) == s[i := Grown(s[i], ip)]
  {
    if i > 0 { FoldIPAt(s[1..], ip, i - 1); }
  }

  lemma {:induction false} FoldIPNowhere(s: seq<Span>, ip: nat)
    requires forall k :: 0 <= k < |s| ==> !Touches(s[k], ip)
    ensures FoldIP(s, ip) == s + [Span(ip, ip)]
  {
    if s != [] { FoldIPNowhere(s[1..], ip); }
  }

  method AddIPs(ranges: seq<IPRange>, ips: seq<nat>) returns (all: seq<IPRange>)
    requires Distinct(ranges) && Positive(Spans(ranges))
    requires forall i :: 0 <= i < |ips| ==> ips[i] > 0
    modifies ranges
    ensures Spans(all) == FoldIPs(old(Spans(ranges)), ips)
  {
    all := ranges;
    ghost var s := Spans(ranges);
    for k := 0 to |ips|
      invariant Distinct(all) && forall i :: 0 <= i < |all| ==> all[i] in ranges || fresh(all[i])
      invariant Positive(Spans(all))
      invariant Spans(all) == FoldIPs(s, ips[..k])
    {
      FoldIPPositive(Spans(all), ips[k]);
      assert ips[..k + 1][..k] == ips[..k];
      all := AddIP(all, ips[k]);
    }
    assert ips[..|ips|] == ips;
  }

  lemma {:induction false} GapsProper(sorted: seq<Span>, i: nat, cidrStart: nat, cidrEnd: nat)
    requires i <= |sorted|
    ensures Proper(Gaps(sorted, i, cidrStart, cidrEnd))
  {
    if i > 0 { GapsProper(sorted, i - 1, cidrStart, cidrEnd); }
  }

  /** The value the ranges end up with. */
  ghost function ExcludedSpans(width: nat, cidr: Net, sorted: seq<Span>, ips: seq<nat>): seq<Span>
    requires cidr.ones <= width
  {
    FoldIPs(Gaps(sorted, |sorted|, cidr.base, Last(width, cidr)), ips)
  }

  /** The checks in any sorted order reject exactly the overlapping and the out-of-CIDR inputs. */
  lemma {:induction false} AdmittedIff(width: nat, cidr: Net, included: seq<Span>, sorted: seq<Span>)
    requires cidr.ones <= width && Proper(included) && Sorts(sorted, included)
    ensures Admitted(sorted, |sorted|, cidr.base, Last(width, cidr)) <==>
            !Leaves(width, cidr, included) && !Overlapping(included)
  {
    SortedProper(included, sorted);
    OrderIrrelevant(width, cidr, sorted, included);
    OrderIrrelevant(width, cidr, included, sorted);
    AdmittedAll(sorted, |sorted|, cidr.base, Last(width, cidr));
    NeighboursSuffice(sorted);
  }

  lemma {:induction false} SortedProper(included: seq<Span>, sorted: seq<Span>)
    requires Proper(included) && Sorts(sorted, included)
    ensures Proper(sorted) && |sorted| == |included|
  {
    assert forall i :: 0 <= i < |sorted| ==> sorted[i] in multiset(included);
    assert |multiset(sorted)| == |multiset(included)|;
  }

  /** The ranges pass the checks, and `sorted` is a sorted order of them. */
  ghost predicate Accepted(width: nat, cidr: Net, included: seq<Span>, sorted: seq<Span>)
    requires cidr.ones <= width
  {
    && Proper(included) && Sorts(sorted, included)
    && !Leaves(width, cidr, included) && !Overlapping(included)
  }

  lemma {:induction false} GapsOfCidr(width: nat, cidr: Net, included: seq<Span>, sorted: seq<Span>, x: int)
    requires cidr.ones <= width && Accepted(width, cidr, included, sorted)
    ensures var gaps := Gaps(sorted, |sorted|, cidr.base, Last(width, cidr));
            && Proper(gaps)
            && (InSome(gaps, x) <==> included != [] && Contains(width, cidr, x) && !InSome(included, x))
  {
    SortedProper(included, sorted);
    AdmittedIff(width, cidr, included, sorted);
    AdmittedAll(sorted, |sorted|, cidr.base, Last(width, cidr));
    GapsProper(sorted, |sorted|, cidr.base, Last(width, cidr));
    if InSome(sorted, x) { InSomeOrder(sorted, included, x); }
    if InSome(included, x) { InSomeOrder(included, sorted, x); }
    if sorted != [] {
      GapsCover(sorted, |sorted|, cidr.base, Last(width, cidr));
      assert sorted[..|sorted|] == sorted;
    }
  }

  function AllExcluded(gateway: Option<nat>, excludeIPs: seq<nat>): seq<nat>
  {
    if gateway.Some? then excludeIPs + [gateway.value] else excludeIPs
  }

  lemma {:induction false} ExcludedSpansCover(width: nat, cidr: Net, included: seq<Span>, sorted: seq<Span>,
                                              gateway: Option<nat>, excludeIPs: seq<nat>, x: int)
    requires cidr.ones <= width && Accepted(width, cidr, included, sorted)
    ensures var spans := ExcludedSpans(width, cidr, sorted, AllExcluded(gateway, excludeIPs));
            && Proper(spans)
            && (InSome(spans, x) <==> MustExclude(width, cidr, included, gateway, excludeIPs, x))
  {
    GapsOfCidr(width, cidr, included, sorted, x);
    FoldIPsCovers(Gaps(sorted, |sorted|, cidr.base, Last(width, cidr)), AllExcluded(gateway, excludeIPs), x);
  }

  ghost predicate CoverSpans(width: nat, blocks: seq<Net>, s: seq<Span>)
  {
    AllNets(width, blocks) && forall x: int :: Covered(width, blocks, x) <==> InSome(s, x)
  }

  lemma {:induction false} CoverSpansStep(width: nat, blocks: seq<Net>, s: seq<Span>, more: seq<Net>, r: Span)
    requires CoverSpans(width, blocks, s) && ExactCover(width, more, r.start, r.end)
    ensures CoverSpans(width, blocks + more, s + [r])
  {
    forall x: int ensures Covered(width, blocks + more, x) <==> InSome(s + [r], x) {
      CoveredConcat(width, blocks, more, x);
      InSomeAppend(s, r, x);
    }
  }

  /** The blocks of all ranges, one range after the other. */
  method SplitAll(width: nat, ranges: seq<IPRange>) returns (blocks: seq<Net>)
    requires forall i :: 0 <= i < |ranges| ==> ranges[i].start <= ranges[i].end < Pow2(width)
    ensures CoverSpans(width, blocks, Spans(ranges))
  {
    ghost var s := Spans(ranges);
    blocks := [];
    for i := 0 to |ranges|
      invariant CoverSpans(width, blocks, s[..i])
    {
      var more := ranges[i].SplitIPRangeToIPBlocks(width);
      CoverSpansStep(width, blocks, s[..i], more, s[i]);
      assert s[..i + 1] == s[..i] + [s[i]];
      blocks := blocks + more;
    }
    assert s[..|ranges|] == s;
  }

  /** Addresses at which neither `NextIP` nor `PrevIP` leaves the address space. */
  predicate Inner(width: nat, ip: nat)
  {
    0 < ip < Pow2(width) - 1
  }

  method FindSubnetExcludeIPBlocks(width: nat, cidr: Net, included: seq<Span>, gateway: Option<nat>,
                                   excludeIPs: seq<nat>) returns (r: Result<seq<Net>>)
    requires IsNet(width, cidr) && Inner(width, cidr.base) && Inner(width, Last(width, cidr))
    requires Proper(included)
    requires forall i :: 0 <= i < |excludeIPs| ==> Inner(width, excludeIPs[i])
    requires gateway.Some? ==> Inner(width, gateway.value)
    ensures r.Err? <==> Leaves(width, cidr, included) || Overlapping(included)
    ensures r.Ok? ==> AllNets(width, r.value)
    ensures r.Ok? ==> forall x: int :: Covered(width, r.value, x) <==>
                                       MustExclude(width, cidr, included, gateway, excludeIPs, x)
  {
    var sorted := SortByStart(included);
    AdmittedIff(width, cidr, included, sorted);
    var gaps := FindGaps(sorted, cidr.base, Last(width, cidr));
    if gaps.Err? {
      return Err;
    }
    var ips := AllExcluded(gateway, excludeIPs);
    GapsInside(width, cidr, included, sorted);
    var ranges := NewRanges(gaps.value);
    ranges := AddIPs(ranges, ips);
    ExcludedInside(width, cidr, included, sorted, gateway, excludeIPs);
    var blocks := SplitAll(width, ranges);
    forall x: int ensures Covered(width, blocks, x) <==> MustExclude(width, cidr, included, gateway, excludeIPs, x) {
      ExcludedSpansCover(width, cidr, included, sorted, gateway, excludeIPs, x);
    }
    return Ok(blocks);
  }

  lemma {:induction false} GapsInside(width: nat, cidr: Net, included: seq<Span>, sorted: seq<Span>)
    requires cidr.ones <= width && Accepted(width, cidr, included, sorted)
    ensures var gaps := Gaps(sorted, |sorted|, cidr.base, Last(width, cidr));
            Proper(gaps) && forall i :: 0 <= i < |gaps| ==> cidr.base <= gaps[i].start
  {
    var gaps := Gaps(sorted, |sorted|, cidr.base, Last(width, cidr));
    GapsOfCidr(width, cidr, included, sorted, 0);
    forall i | 0 <= i < |gaps| ensures cidr.base <= gaps[i].start {
      assert gaps[i].Has(gaps[i].start);
      GapsOfCidr(width, cidr, included, sorted, gaps[i].start);
    }
  }

  lemma {:induction false} ExcludedInside(width: nat, cidr: Net, included: seq<Span>, sorted: seq<Span>,
                                          gateway: Option<nat>, excludeIPs: seq<nat>)
    requires IsNet(width, cidr) && Accepted(width, cidr, included, sorted)
    requires forall i :: 0 <= i < |excludeIPs| ==> Inner(width, excludeIPs[i])
    requires gateway.Some? ==> Inner(width, gateway.value)
    ensures var spans := ExcludedSpans(width, cidr, sorted, AllExcluded(gateway, excludeIPs));
            Proper(spans) && forall i :: 0 <= i < |spans| ==> spans[i].end < Pow2(width)
  {
    var spans := ExcludedSpans(width, cidr, sorted, AllExcluded(gateway, excludeIPs));
    ExcludedSpansCover(width, cidr, included, sorted, gateway, excludeIPs, 0);
    forall i | 0 <= i < |spans| ensures spans[i].end < Pow2(width) {
      assert spans[i].Has(spans[i].end);
      ExcludedSpansCover(width, cidr, included, sorted, gateway, excludeIPs, spans[i].end);
    }
  }
}
