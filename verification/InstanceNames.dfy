/** The names of IPInstance objects (`toDNSLabelFormat` and `unifyIPv6AddressString` in pkg/ipam/store/store.go) and how
    they are read back (pkg/controllers/utils/format.go).  Address texts follow section 2.2 of RFC 4291 and section 4 of
    RFC 5952. */
module InstanceNames {
  import opened Wrappers
  import opened Texts

  /** Four octets, or eight groups of an address that is not IPv4-mapped. */
  datatype Address = V4(octets: seq<nat>) | V6(groups: seq<nat>)

  ghost predicate ValidAddress(x: Address)
  {
    match x
    case V4(octets) => |octets| == 4 && forall i :: 0 <= i < 4 ==> octets[i] < 256
    case V6(groups) => Groups(groups) && !Mapped(groups)
  }

  ghost predicate Groups(gs: seq<nat>)
  {
    |gs| == 8 && forall i :: 0 <= i < 8 ==> gs[i] < 65536
  }

  predicate Mapped(gs: seq<nat>)
  {
    |gs| == 8 && gs[..6] == [0, 0, 0, 0, 0, 65535]
  }

  // ---- Canonical texts ----

  function Dotted(octets: seq<nat>): string
  {
    Join(Numerals(octets, 10), ".")
  }

  function Hex(gs: seq<nat>): string
  {
    Join(Numerals(gs, 16), ":")
  }

  function ZeroRun(gs: seq<nat>, i: nat): (n: nat)
    requires i <= |gs|
    ensures i + n <= |gs| && forall j :: i <= j < i + n ==> gs[j] == 0
    decreases |gs| - i
  {
    if i < |gs| && gs[i] == 0 then 1 + ZeroRun(gs, i + 1) else 0
  }

  /** The first of the longest runs of zero groups from `i` on. */
  function LongestRun(gs: seq<nat>, i: nat): (run: (nat, nat))
    requires i <= |gs|
    ensures run.0 + run.1 <= |gs| && forall j :: run.0 <= j < run.0 + run.1 ==> gs[j] == 0
    decreases |gs| - i
  {
    if i == |gs| then (i, 0)
    else
      var rest := LongestRun(gs, i + 1);
      if ZeroRun(gs, i) >= rest.1 then (i, ZeroRun(gs, i)) else rest
  }

  /** No run is longer, and none of the same length comes first (section 4.2.3 of RFC 5952). */
  lemma {:induction false} LongestRunIsFirst(gs: seq<nat>, i: nat, j: nat)
    requires i <= j <= |gs|
    ensures var (a, n) := LongestRun(gs, i);
            && i <= a && ZeroRun(gs, a) == n
            && ZeroRun(gs, j) <= n && (ZeroRun(gs, j) == n ==> a <= j || n == 0)
    decreases |gs| - i
  {
    if i < |gs| {
      LongestRunIsFirst(gs, i + 1, if i < j then j else i + 1);
    }
  }

  /** Two or more zero groups are written "::", the longest run first. */
  function Colons(gs: seq<nat>): string
  {
    var (a, n) := LongestRun(gs, 0);
    if n < 2 then Hex(gs) else Hex(gs[..a]) + "::" + Hex(gs[a + n..])
  }

  /** `net.IP.String`. */
  function Text(x: Address): string
  {
    match x
    case V4(octets) => Dotted(octets)
    case V6(gs) =>
      if Mapped(gs) then Dotted([gs[6] / 256, gs[6] % 256, gs[7] / 256, gs[7] % 256]) else Colons(gs)
  }

  // ---- Parsing ----

  function DigitCount(s: string): (c: nat)
    ensures c <= |s|
  {
    if s == "" || DigitValue(s[0]) == 16 then 0 else 1 + DigitCount(s[1..])
  }

  /** The end of the text is reached: an ellipsis stands for the groups that are missing, of which there is at least
      one. */
  function Finish(gs: seq<nat>, ellipsis: Option<nat>): Option<seq<nat>>
  {
    if |gs| < 8 then
      if ellipsis.None? || ellipsis.value > |gs| then None
      else Some(gs[..ellipsis.value] + seq(8 - |gs|, _ => 0) + gs[ellipsis.value..])
    else if |gs| == 8 && ellipsis.None? then Some(gs)
    else None
  }

  function ParseFrom(s: string, gs: seq<nat>, ellipsis: Option<nat>): Option<seq<nat>>
    decreases |s|
  {
    var c := DigitCount(s);
    if |gs| >= 8 || c == 0 || ValueOf(s[..c], 16) > 65535 then None
    else ParseAfter(s[c..], gs + [ValueOf(s[..c], 16)], ellipsis)
  }

  /** What may follow a group. */
  function ParseAfter(t: string, gs: seq<nat>, ellipsis: Option<nat>): Option<seq<nat>>
    decreases |t|
  {
    if t == "" then Finish(gs, ellipsis)
    else if t[0] != ':' || |t| == 1 then None
    else if t[1] != ':' then ParseFrom(t[1..], gs, ellipsis)
    else if ellipsis.Some? then None
    else if |t| == 2 then Finish(gs, Some(|gs|))
    else ParseFrom(t[2..], gs, Some(|gs|))
  }

  /** `net.ParseIP` on a text with colons and no dots. */
  function ParseIP(s: string): Option<seq<nat>>
  {
    if |s| >= 2 && s[0] == ':' && s[1] == ':' then
      if |s| == 2 then Some(seq(8, _ => 0)) else ParseFrom(s[2..], [], Some(0))
    else ParseFrom(s, [], None)
  }

  // ---- Names ----

  /** The "::" of a text with fewer than eight sections is spelled out. */
  function Unify(ip: string): string
  {
    var sectionCount := Count(ip, ':') + 1;
    if sectionCount < 8 then ReplacePairs(ip, Join(seq(10 - sectionCount, _ => ":"), "0")) else ip
  }

  method UnifyIPv6AddressString(ip: string) returns (r: string)
    ensures r == Unify(ip)
  {
    var sectionCount := Count(ip, ':') + 1;
    if sectionCount < 8 {
      var separators := [":", ":"];
      ghost var first := sectionCount;
      while sectionCount < 8
        invariant first <= sectionCount <= 8
        invariant separators == seq(2 + sectionCount - first, _ => ":")
      {
        separators := separators + [":"];
        sectionCount := sectionCount + 1;
      }
      return ReplacePairs(ip, Join(separators, "0"));
    }
    return ip;
  }

  function Name(x: Address): string
  {
    if x.V4? then ReplaceChar(Text(x), '.', '-') else ReplaceChar(Unify(Text(x)), ':', '-')
  }

  function ToIPFormatWithFamily(name: string): (string, bool)
  {
    if Count(name, '-') == 7 then
      var ip := ParseIP(ReplaceChar(name, '-', ':'));
      (if ip.Some? then Text(V6(ip.value)) else "<nil>", true)
    else (ReplaceChar(name, '-', '.'), false)
  }

  function ToIPFormat(name: string): string
  {
    ToIPFormatWithFamily(name).0
  }

  // ---- Joined groups ----

  lemma {:induction false} HexConcat(a: seq<nat>, b: seq<nat>)
    requires a != [] && b != []
    ensures Hex(a + b) == Hex(a) + ":" + Hex(b)
  {
    assert Numerals(a + b, 16) == Numerals(a, 16) + Numerals(b, 16);
    JoinConcat(Numerals(a, 16), Numerals(b, 16), ":");
  }

  /** The name of an address whose text does not begin or end with "::" spells out all its octets or groups, in decimal
      or hexadecimal, with dashes between them. */
  lemma {:induction false} NameSpells(x: Address)
    requires ValidAddress(x)
    ensures x.V4? ==> Name(x) == Join(Numerals(x.octets, 10), "-")
    ensures x.V6? ==> var (a, n) := LongestRun(x.groups, 0);
                      n < 2 || (a > 0 && a + n < 8) ==> Name(x) == Join(Numerals(x.groups, 16), "-")
  {
    if x.V4? {
      NumeralsPlain(x.octets, 10);
      JoinReplaced(Numerals(x.octets, 10), '.', '-');
    } else {
      NumeralsPlain(x.groups, 16);
      JoinReplaced(Numerals(x.groups, 16), ':', '-');
      UnifiedText(x.groups);
    }
  }

  /** A text of groups begins and ends with a digit, holds no pair of colons and no dash, and has one colon less than
      groups. */
  lemma {:induction false} HexClean(gs: seq<nat>)
    ensures '-' !in Hex(gs) && NoPair(Hex(gs))
    ensures gs != [] ==> Count(Hex(gs), ':') == |gs| - 1
    ensures gs != [] ==> Hex(gs) != "" && Hex(gs)[0] != ':' && Hex(gs)[|Hex(gs)| - 1] != ':'
    ensures gs == [] ==> Hex(gs) == ""
  {
    NumeralsPlain(gs, 16);
    JoinHolds(Numerals(gs, 16), ":", '-');
    if gs != [] {
      JoinCount(Numerals(gs, 16), ':');
      JoinClean(Numerals(gs, 16));
    }
  }

  lemma {:induction false} HexInjective(a: seq<nat>, b: seq<nat>)
    requires |a| == |b| && Hex(a) == Hex(b)
    ensures a == b
  {
    NumeralsPlain(a, 16);
    NumeralsPlain(b, 16);
    JoinInjective(Numerals(a, 16), Numerals(b, 16), ':');
    NumeralsInjective(a, b, 16);
  }

  function Zeros(k: nat): (zs: seq<nat>)
    ensures |zs| == k
  {
    seq(k, _ => 0)
  }

  lemma {:induction false} Separators(k: nat)
    requires k >= 1
    ensures Join(seq(k + 1, _ => ":"), "0") == ":" + Hex(Zeros(k)) + ":"
  {
    ColonsAndZeros(k - 1);
    assert Numeral(0, 16) == "0";
    assert Numerals(Zeros(k), 16) == seq(k, _ => "0");
    assert seq((k - 1) + 2, _ => ":") == seq(k + 1, _ => ":");
    assert seq((k - 1) + 1, _ => "0") == seq(k, _ => "0");
  }

  // ---- What unifying gives ----

  lemma {:induction false} UnifyPair(left: seq<nat>, right: seq<nat>, k: nat)
    requires k >= 2 && Count(Hex(left), ':') + 2 + Count(Hex(right), ':') == 8 - k
    ensures Unify(Hex(left) + "::" + Hex(right)) == Hex(left) + (":" + Hex(Zeros(k)) + ":") + Hex(right)
  {
    var text := Hex(left) + "::" + Hex(right);
    CountPair(Hex(left), Hex(right));
    HexClean(left);
    HexClean(right);
    Separators(k);
    ReplaceOnePair(Hex(left), Hex(right), ":" + Hex(Zeros(k)) + ":");
  }

  lemma {:induction false} CountPair(left: string, right: string)
    ensures Count(left + "::" + right, ':') == Count(left, ':') + 2 + Count(right, ':')
  {
    CountConcat(left, "::", ':');
    CountConcat(left + "::", right, ':');
    CountConcat(":", ":", ':');
    assert ":" + ":" == "::";
    assert Count(":", ':') == 1;
  }

  /** The text behind an IPv6 name: all eight groups, except that a run written as "::" at an end of the address loses
      its outermost zero if it has three or more groups, and stays compressed if it has exactly two. */
  function Unified(gs: seq<nat>): string
    requires |gs| == 8
  {
    var (a, n) := LongestRun(gs, 0);
    if n < 2 || (a > 0 && a + n < 8) then Hex(gs)
    else if n == 2 then Colons(gs)
    else Trimmed(gs, a == 0, a + n == 8)
  }

  /** The groups without the outermost ones at the given ends, where a colon remains. */
  function Trimmed(gs: seq<nat>, first: bool, last: bool): string
    requires |gs| == 8
  {
    (if first then ":" else "") + Hex(gs[if first then 1 else 0..if last then 7 else 8]) + (if last then ":" else "")
  }

  lemma {:induction false} RunIsZeros(gs: seq<nat>, a: nat, n: nat)
    requires a + n <= |gs| && forall j :: a <= j < a + n ==> gs[j] == 0
    ensures gs == gs[..a] + Zeros(n) + gs[a + n..]
  {}

  lemma {:induction false} UnifyInterior(left: seq<nat>, n: nat, right: seq<nat>)
    requires left != [] && right != [] && n >= 2 && |left| + n + |right| == 8
    ensures Unify(Hex(left) + "::" + Hex(right)) == Hex(left + Zeros(n) + right)
  {
    HexClean(left);
    HexClean(right);
    UnifyPair(left, right, n);
    HexConcat(left, Zeros(n));
    HexConcat(left + Zeros(n), right);
    Five(Hex(left), Hex(Zeros(n)), Hex(right));
  }

  lemma {:induction false} UnifyStart(n: nat, right: seq<nat>)
    requires right != [] && n >= 3 && n + |right| == 8
    ensures Unify(Hex([]) + "::" + Hex(right)) == ":" + Hex(Zeros(n - 1) + right)
  {
    HexClean([]);
    HexClean(right);
    UnifyPair([], right, n - 1);
    HexConcat(Zeros(n - 1), right);
    FiveLess(Hex(Zeros(n - 1)), Hex(right));
  }

  lemma {:induction false} UnifyEnd(left: seq<nat>, n: nat)
    requires left != [] && n >= 3 && |left| + n == 8
    ensures Unify(Hex(left) + "::" + Hex([])) == Hex(left + Zeros(n - 1)) + ":"
  {
    HexClean(left);
    HexClean([]);
    UnifyPair(left, [], n - 1);
    HexConcat(left, Zeros(n - 1));
    Five(Hex(left), Hex(Zeros(n - 1)), "");
    NothingAfter(Hex(left) + ":" + Hex(Zeros(n - 1)) + ":");
  }

  lemma {:induction false} UnifyAll()
    ensures Unify(Hex([]) + "::" + Hex([])) == ":" + Hex(Zeros(6)) + ":"
  {
    HexClean([]);
    UnifyPair([], [], 6);
    FiveLess(Hex(Zeros(6)), "");
    NothingAfter(Hex(Zeros(6)) + ":");
    Regroup(":", Hex(Zeros(6)), ":");
  }

  lemma {:induction false} Five(a: string, b: string, c: string)
    ensures a + (":" + b + ":") + c == a + ":" + b + ":" + c
  {}

  lemma {:induction false} FiveLess(b: string, c: string)
    ensures "" + (":" + b + ":") + c == ":" + (b + ":" + c)
  {}

  lemma {:induction false} NothingAfter(s: string)
    ensures s + "" == s && "" + s == s
  {}

  /** A run of three or more zero groups that reaches an end of the address. */
  lemma {:induction false} UnifiedEdge(gs: seq<nat>, a: nat, n: nat)
    requires |gs| == 8 && n >= 3 && a + n <= 8 && (a == 0 || a + n == 8) && gs == gs[..a] + Zeros(n) + gs[a + n..]
    ensures Unify(Hex(gs[..a]) + "::" + Hex(gs[a + n..])) ==
            Trimmed(gs, a == 0, a + n == 8)
  {
    var left, right := gs[..a], gs[a + n..];
    if a + n < 8 {
      UnifyStart(n, right);
      assert left == [];
      assert gs[1..8] == Zeros(n - 1) + right;
      NothingAfter(":" + Hex(gs[1..8]));
    } else if 0 < a {
      UnifyEnd(left, n);
      assert right == [];
      assert gs[0..7] == left + Zeros(n - 1);
      NothingAfter(Hex(gs[0..7]));
    } else {
      UnifyAll();
      assert left == [] && right == [];
      assert gs[1..7] == Zeros(6);
    }
  }

  lemma {:induction false} UnifiedText(gs: seq<nat>)
    requires |gs| == 8
    ensures Unify(Colons(gs)) == Unified(gs)
  {
    var (a, n) := LongestRun(gs, 0);
    if n < 2 {
      HexClean(gs);
    } else {
      RunIsZeros(gs, a, n);
      var left, right := gs[..a], gs[a + n..];
      if 0 < a && a + n < 8 {
        UnifyInterior(left, n, right);
      } else if n == 2 {
        HexClean(left);
        HexClean(right);
        CountPair(Hex(left), Hex(right));
      } else {
        UnifiedEdge(gs, a, n);
      }
    }
  }

  /** An IPv6 name has seven dashes and reads back as the unified text. */
  lemma {:induction false} UnifiedClean(gs: seq<nat>)
    requires |gs| == 8
    ensures Count(Unified(gs), ':') == 7 && '-' !in Unified(gs)
  {
    var (a, n) := LongestRun(gs, 0);
    if n < 2 || (a > 0 && a + n < 8) {
      HexClean(gs);
    } else if n == 2 {
      HexClean(gs[..a]);
      HexClean(gs[a + n..]);
      CountPair(Hex(gs[..a]), Hex(gs[a + n..]));
    } else {
      var lo, hi := if a == 0 then 1 else 0, if a + n == 8 then 7 else 8;
      var before, after := if a == 0 then ":" else "", if a + n == 8 then ":" else "";
      HexClean(gs[lo..hi]);
      CountConcat(before, Hex(gs[lo..hi]), ':');
      CountConcat(before + Hex(gs[lo..hi]), after, ':');
      assert Count(":", ':') == 1 && Count("", ':') == 0;
    }
  }

  // ---- Parsing joined groups ----

  lemma {:induction false} DigitCountOf(h: string, tail: string)
    requires AllDigits(h) && (tail != "" ==> DigitValue(tail[0]) == 16)
    ensures DigitCount(h + tail) == |h|
  {
    if h == "" {
      assert h + tail == tail;
    } else {
      assert (h + tail)[1..] == h[1..] + tail;
      DigitCountOf(h[1..], tail);
    }
  }

  lemma {:induction false} ParseOne(g: nat, tail: string, done: seq<nat>, ellipsis: Option<nat>)
    requires g < 65536 && |done| < 8 && (tail != "" ==> tail[0] == ':')
    ensures ParseFrom(Numeral(g, 16) + tail, done, ellipsis) == ParseAfter(tail, done + [g], ellipsis)
  {
    var h := Numeral(g, 16);
    NumeralMeans(g, 16);
    DigitCountOf(h, tail);
    assert (h + tail)[..|h|] == h && (h + tail)[|h|..] == tail;
  }

  lemma {:induction false} ParseGroups(gs: seq<nat>, tail: string, done: seq<nat>, ellipsis: Option<nat>)
    requires gs != [] && |done| + |gs| <= 8 && (tail != "" ==> tail[0] == ':')
    requires forall i :: 0 <= i < |gs| ==> gs[i] < 65536
    ensures ParseFrom(Hex(gs) + tail, done, ellipsis) == ParseAfter(tail, done + gs, ellipsis)
    decreases |gs|
  {
    if |gs| == 1 {
      assert Hex(gs) == Numeral(gs[0], 16);
      assert gs == [gs[0]];
      ParseOne(gs[0], tail, done, ellipsis);
    } else {
      HexSplit(gs);
      FirstGroup(Numeral(gs[0], 16), Hex(gs[1..]), tail);
      ParseNext(gs[0], Hex(gs[1..]) + tail, done, ellipsis);
      ParseGroups(gs[1..], tail, done + [gs[0]], ellipsis);
      Shift(done, gs);
    }
  }

  lemma {:induction false} Shift(done: seq<nat>, gs: seq<nat>)
    requires gs != []
    ensures done + [gs[0]] + gs[1..] == done + gs
  {}

  lemma {:induction false} HexSplit(gs: seq<nat>)
    requires |gs| >= 2
    ensures Hex(gs) == Numeral(gs[0], 16) + ":" + Hex(gs[1..]) && Hex(gs[1..]) != "" && Hex(gs[1..])[0] != ':'
  {
    assert gs == [gs[0]] + gs[1..];
    HexConcat([gs[0]], gs[1..]);
    assert Hex([gs[0]]) == Numeral(gs[0], 16);
    HexClean(gs[1..]);
  }

  lemma {:induction false} ParseNext(g: nat, rest: string, done: seq<nat>, ellipsis: Option<nat>)
    requires g < 65536 && |done| < 8 && rest != "" && rest[0] != ':'
    ensures ParseFrom(Numeral(g, 16) + (":" + rest), done, ellipsis) == ParseFrom(rest, done + [g], ellipsis)
  {
    ParseOne(g, ":" + rest, done, ellipsis);
    AfterColon(rest, done + [g], ellipsis);
  }

  lemma {:induction false} FirstGroup(a: string, b: string, c: string)
    ensures a + ":" + b + c == a + (":" + (b + c))
  {}

  lemma {:induction false} AfterColon(rest: string, gs: seq<nat>, ellipsis: Option<nat>)
    requires rest != "" && rest[0] != ':'
    ensures ParseAfter(":" + rest, gs, ellipsis) == ParseFrom(rest, gs, ellipsis)
  {
    assert (":" + rest)[1..] == rest;
  }

  // ---- Reading names back ----

  /** The run written as "::" has three or more groups and reaches the beginning or the end of the address. */
  predicate ZerosAtAnEnd(gs: seq<nat>)
  {
    var (a, n) := LongestRun(gs, 0);
    n >= 3 && (a == 0 || a + n == |gs|)
  }

  lemma {:induction false} ParseHex(gs: seq<nat>)
    requires Groups(gs)
    ensures ParseIP(Hex(gs)) == Some(gs)
  {
    HexClean(gs);
    NothingAfter(Hex(gs));
    ParseGroups(gs, "", [], None);
    assert [] + gs == gs;
  }

  lemma {:induction false} ParseStart(right: seq<nat>)
    requires |right| == 6 && forall i :: 0 <= i < 6 ==> right[i] < 65536
    ensures ParseIP(Hex([]) + "::" + Hex(right)) == Some(Zeros(2) + right)
  {
    HexClean([]);
    HexClean(right);
    LeadingPair(Hex(right));
    NothingAfter(Hex(right));
    ParseGroups(right, "", [], Some(0));
    assert [] + right == right;
    assert right[..0] + seq(2, _ => 0) + right[0..] == Zeros(2) + right;
  }

  lemma {:induction false} LeadingPair(s: string)
    requires s != ""
    ensures ParseIP("" + "::" + s) == ParseFrom(s, [], Some(0))
  {
    assert ("" + "::" + s)[2..] == s;
  }

  lemma {:induction false} ParseEnd(left: seq<nat>)
    requires |left| == 6 && forall i :: 0 <= i < 6 ==> left[i] < 65536
    ensures ParseIP(Hex(left) + "::" + Hex([])) == Some(left + Zeros(2))
  {
    HexClean([]);
    HexClean(left);
    NothingAfter(Hex(left) + "::");
    ParseGroups(left, "::", [], None);
    assert [] + left == left;
    FinishEnd(left);
  }

  lemma {:induction false} FinishEnd(left: seq<nat>)
    requires |left| == 6
    ensures Finish(left, Some(6)) == Some(left + Zeros(2))
  {
    assert left[..6] + seq(2, _ => 0) + left[6..] == left + Zeros(2);
  }

  lemma {:induction false} ParseBadStart(s: string)
    requires |s| >= 2 && s[0] == ':' && s[1] != ':'
    ensures ParseIP(s) == None
  {}

  lemma {:induction false} ParseBadEnd(left: seq<nat>)
    requires |left| == 7 && forall i :: 0 <= i < 7 ==> left[i] < 65536
    ensures ParseIP(Hex(left) + ":") == None
  {
    HexClean(left);
    ParseGroups(left, ":", [], None);
  }

  /** The unified text parses to the address, or not at all. */
  lemma {:induction false} ParseUnified(gs: seq<nat>)
    requires Groups(gs)
    ensures ParseIP(Unified(gs)) == if ZerosAtAnEnd(gs) then None else Some(gs)
  {
    var (a, n) := LongestRun(gs, 0);
    if n < 2 || (a > 0 && a + n < 8) {
      ParseHex(gs);
    } else if n == 2 {
      RunIsZeros(gs, a, n);
      if a == 0 {
        assert gs[..a] == [] && gs == Zeros(2) + gs[2..];
        ParseStart(gs[2..]);
      } else {
        assert gs[a + n..] == [] && gs == gs[..6] + Zeros(2);
        ParseEnd(gs[..6]);
      }
    } else {
      var hi := if a + n == 8 then 7 else 8;
      if a == 0 {
        HexClean(gs[1..hi]);
        ParseBadStart(Unified(gs));
      } else {
        NothingAfter(Hex(gs[0..7]));
        ParseBadEnd(gs[0..7]);
      }
    }
  }

  /** The name of an IPv4 address has three dashes. */
  lemma {:induction false} DottedClean(octets: seq<nat>)
    requires |octets| == 4
    ensures Count(Dotted(octets), '.') == 3 && '-' !in Dotted(octets)
  {
    NumeralsPlain(octets, 10);
    JoinCount(Numerals(octets, 10), '.');
    JoinHolds(Numerals(octets, 10), ".", '-');
  }

  /** Naming an address and reading the name back gives its canonical text and its family, except that the text is lost
      exactly when the run written as "::" has three or more groups and reaches an end of the address. */
  lemma {:induction false} NameReadsBack(x: Address)
    requires ValidAddress(x)
    ensures var (text, v6) := ToIPFormatWithFamily(Name(x));
            v6 == x.V6? && text == if x.V6? && ZerosAtAnEnd(x.groups) then "<nil>" else Text(x)
  {
    match x
    case V4(octets) =>
      DottedClean(octets);
      ReplaceBack(Text(x), '.', '-');
    case V6(gs) =>
      UnifiedText(gs);
      UnifiedClean(gs);
      ReplaceBack(Unified(gs), ':', '-');
      ParseUnified(gs);
  }

  /** The text begins or ends with "::". */
  predicate OuterEllipsis(text: string)
  {
    |text| >= 2 && ((text[0] == ':' && text[1] == ':') || (text[|text| - 2] == ':' && text[|text| - 1] == ':'))
  }

  /** The two guards of the code: an outer "::" that `unifyIPv6AddressString` replaces, which it does below seven
      colons. */
  lemma {:induction false} OuterEllipsisIff(gs: seq<nat>)
    requires |gs| == 8
    ensures ZerosAtAnEnd(gs) <==> OuterEllipsis(Colons(gs)) && Count(Colons(gs), ':') < 7
  {
    var (a, n) := LongestRun(gs, 0);
    if n < 2 {
      HexClean(gs);
    } else {
      var left, right := gs[..a], gs[a + n..];
      HexClean(left);
      HexClean(right);
      CountPair(Hex(left), Hex(right));
      OuterPair(Hex(left), Hex(right));
    }
  }

  lemma {:induction false} OuterPair(left: string, right: string)
    requires (left != "" ==> left[0] != ':') && (right != "" ==> right[|right| - 1] != ':')
    ensures OuterEllipsis(left + "::" + right) <==> left == "" || right == ""
  {
    var s, n := left + "::" + right, |left|;
    assert s[n] == ':' && s[n + 1] == ':';
    if left != "" { assert s[0] == left[0]; }
    if right != "" { assert s[|s| - 1] == right[|right| - 1]; }
  }

  /** The text comes back exactly unless it begins or ends with "::" and has fewer than seven colons. */
  lemma {:induction false} ReadsBackIff(x: Address)
    requires ValidAddress(x)
    ensures ToIPFormat(Name(x)) == Text(x) <==> !(x.V6? && OuterEllipsis(Text(x)) && Count(Text(x), ':') < 7)
  {
    NameReadsBack(x);
    if x.V6? {
      OuterEllipsisIff(x.groups);
      var (a, n) := LongestRun(x.groups, 0);
      CountPair(Hex(x.groups[..a]), Hex(x.groups[a + n..]));
      CountNone("<nil>", ':');
    }
  }

  /** Zero groups at an end do not matter when "::" stands elsewhere: 1:0:0:0:2:0:0:0 is 1::2:0:0:0 and reads back. */
  lemma {:induction false} NameKept()
    ensures var x := V6([1, 0, 0, 0, 2, 0, 0, 0]); ValidAddress(x) && ToIPFormat(Name(x)) == Text(x)
  {
    var gs := [1, 0, 0, 0, 2, 0, 0, 0];
    InnerRun(gs);
    NameReadsBack(V6(gs));
  }

  lemma {:induction false} InnerRun(gs: seq<nat>)
    requires |gs| == 8 && gs[0] != 0 && gs[1] == gs[2] == gs[3] == 0 && gs[4] != 0
    ensures !ZerosAtAnEnd(gs)
  {
    assert ZeroRun(gs, 4) == 0 && ZeroRun(gs, 3) == 1 && ZeroRun(gs, 2) == 2 && ZeroRun(gs, 1) == 3;
    LongestRunIsFirst(gs, 0, 1);
  }

  /** The name of 1:: is "1-0-0-0-0-0-0-", which is not read back. */
  lemma {:induction false} NameLost()
    ensures var x := V6([1, 0, 0, 0, 0, 0, 0, 0]); ValidAddress(x) && ToIPFormat(Name(x)) == "<nil>"
  {
    var gs := [1, 0, 0, 0, 0, 0, 0, 0];
    ZeroTail(gs, 1);
    LongestRunIsFirst(gs, 0, 1);
    NameReadsBack(V6(gs));
  }

  lemma {:induction false} ZeroTail(gs: seq<nat>, i: nat)
    requires i <= |gs| && forall j :: i <= j < |gs| ==> gs[j] == 0
    ensures ZeroRun(gs, i) == |gs| - i
    decreases |gs| - i
  {
    if i < |gs| { ZeroTail(gs, i + 1); }
  }

  /** The outermost zero of such a text can be put back. */
  function Repaired(s: string): string
    requires s != ""
  {
    (if s[0] == ':' then "0" else "") + s + (if s[|s| - 1] == ':' then "0" else "")
  }

  lemma {:induction false} RepairStart(gs: seq<nat>)
    requires |gs| >= 2 && gs[0] == 0
    ensures Hex(gs) == "0" + (":" + Hex(gs[1..]))
  {
    HexSplit(gs);
    assert Numeral(0, 16) == "0";
    Regroup("0", ":", Hex(gs[1..]));
  }

  lemma {:induction false} RepairEnd(gs: seq<nat>, k: nat)
    requires k >= 1 && |gs| == k + 1 && gs[k] == 0
    ensures Hex(gs) == Hex(gs[..k]) + ":" + "0"
  {
    assert gs == gs[..k] + [0];
    HexConcat(gs[..k], [0]);
    assert Hex([0]) == "0";
  }

  lemma {:induction false} RepairUnified(gs: seq<nat>)
    requires |gs| == 8 && ZerosAtAnEnd(gs)
    ensures Unified(gs) != "" && Repaired(Unified(gs)) == Hex(gs)
  {
    var (a, n) := LongestRun(gs, 0);
    if a == 0 && n < 8 {
      HexClean(gs[1..8]);
      RepairStart(gs);
      assert gs[1..8] == gs[1..];
      RepairLeft(Hex(gs[1..]));
    } else if a > 0 {
      HexClean(gs[0..7]);
      RepairEnd(gs, 7);
      assert gs[0..7] == gs[..7];
      RepairRight(Hex(gs[..7]));
    } else {
      RepairStart(gs);
      RepairEnd(gs[1..], 6);
      assert gs[1..][..6] == gs[1..7];
      RepairBoth(Hex(gs[1..7]));
    }
  }

  lemma {:induction false} RepairLeft(m: string)
    requires m != "" && m[|m| - 1] != ':'
    ensures Repaired(":" + m + "") == "0" + (":" + m)
  {
    NothingAfter(":" + m);
    NothingAfter("0" + (":" + m));
  }

  lemma {:induction false} RepairRight(m: string)
    requires m != "" && m[0] != ':'
    ensures Repaired("" + m + ":") == m + ":" + "0"
  {
    NothingAfter(m);
    NothingAfter(m + ":");
  }

  lemma {:induction false} RepairBoth(m: string)
    ensures Repaired(":" + m + ":") == "0" + (":" + (m + ":" + "0"))
  {}

  /** Distinct addresses have distinct names, whether or not the names read back. */
  lemma {:induction false} NamesAreDistinct(x: Address, y: Address)
    requires ValidAddress(x) && ValidAddress(y) && Name(x) == Name(y)
    ensures x == y
  {
    NameReadsBack(x);
    NameReadsBack(y);
    if x.V4? {
      DottedInjective(x.octets, y.octets);
    } else {
      UnifiedText(x.groups);
      UnifiedText(y.groups);
      UnifiedClean(x.groups);
      UnifiedClean(y.groups);
      ReplaceBack(Unified(x.groups), ':', '-');
      ReplaceBack(Unified(y.groups), ':', '-');
      UnifiedInjective(x.groups, y.groups);
    }
  }

  lemma {:induction false} DottedInjective(a: seq<nat>, b: seq<nat>)
    requires |a| == |b| == 4 && Dotted(a) == Dotted(b)
    ensures a == b
  {
    NumeralsPlain(a, 10);
    NumeralsPlain(b, 10);
    JoinInjective(Numerals(a, 10), Numerals(b, 10), '.');
    NumeralsInjective(a, b, 10);
  }

  lemma {:induction false} UnifiedInjective(gs: seq<nat>, hs: seq<nat>)
    requires Groups(gs) && Groups(hs) && Unified(gs) == Unified(hs)
    ensures gs == hs
  {
    ParseUnified(gs);
    ParseUnified(hs);
    if ZerosAtAnEnd(gs) {
      RepairUnified(gs);
      RepairUnified(hs);
      HexInjective(gs, hs);
    }
  }
}
