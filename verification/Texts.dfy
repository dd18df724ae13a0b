/** The string operations behind IPInstance names: joining, counting, replacing, and numerals. */
module Texts {

  function Join(parts: seq<string>, sep: string): string
  {
    if |parts| == 0 then "" else if |parts| == 1 then parts[0] else parts[0] + sep + Join(parts[1..], sep)
  }

  function Count(s: string, c: char): nat
  {
    if s == "" then 0 else (if s[0] == c then 1 else 0) + Count(s[1..], c)
  }

  function ReplaceChar(s: string, from: char, to: char): (r: string)
    ensures |r| == |s| && forall i :: 0 <= i < |s| ==> r[i] == if s[i] == from then to else s[i]
  {
    if s == "" then "" else [if s[0] == from then to else s[0]] + ReplaceChar(s[1..], from, to)
  }

  /** `strings.ReplaceAll(s, "::", to)`. */
  function ReplacePairs(s: string, to: string): string
  {
    if |s| < 2 then s
    else if s[0] == ':' && s[1] == ':' then to + ReplacePairs(s[2..], to)
    else [s[0]] + ReplacePairs(s[1..], to)
  }

  // ---- Counting and replacing ----

  lemma {:induction false} CountConcat(a: string, b: string, c: char)
    ensures Count(a + b, c) == Count(a, c) + Count(b, c)
  {
    if a == "" {
      assert a + b == b;
    } else {
      CountConcat(a[1..], b, c);
      assert (a + b)[1..] == a[1..] + b;
    }
  }

  lemma {:induction false} CountNone(s: string, c: char)
    requires c !in s
    ensures Count(s, c) == 0
  {
    if s != "" { CountNone(s[1..], c); }
  }

  /** Replacing a character by one the text does not hold is undone by replacing it back, and moves the count. */
  lemma {:induction false} ReplaceBack(s: string, from: char, to: char)
    requires to !in s
    ensures ReplaceChar(ReplaceChar(s, from, to), to, from) == s
    ensures Count(ReplaceChar(s, from, to), to) == Count(s, from)
  {
    if s != "" {
      ReplaceBack(s[1..], from, to);
      var r := ReplaceChar(s, from, to);
      assert r[1..] == ReplaceChar(s[1..], from, to);
    }
  }

  /** No two colons stand side by side. */
  ghost predicate NoPair(s: string)
  {
    |s| < 2 || (!(s[0] == ':' && s[1] == ':') && NoPair(s[1..]))
  }

  lemma {:induction false} ReplaceNothing(s: string, to: string)
    requires NoPair(s)
    ensures ReplacePairs(s, to) == s
  {
    if |s| >= 2 {
      ReplaceNothing(s[1..], to);
    }
  }

  lemma {:induction false} ReplaceSkips(c: char, s: string, to: string)
    requires s != "" && !(c == ':' && s[0] == ':')
    ensures ReplacePairs([c] + s, to) == [c] + ReplacePairs(s, to)
  {
    assert ([c] + s)[1..] == s;
  }

  lemma {:induction false} ReplaceSkipsAll(left: string, s: string, to: string)
    requires s != "" && NoPair(left) && (left != "" ==> left[|left| - 1] != ':')
    ensures ReplacePairs(left + s, to) == left + ReplacePairs(s, to)
    decreases |left|
  {
    if left == "" {
      assert left + s == s;
    } else {
      var rest := left[1..] + s;
      assert left + s == [left[0]] + rest;
      ReplaceSkipsAll(left[1..], s, to);
      ReplaceSkips(left[0], rest, to);
      assert left + ReplacePairs(s, to) == [left[0]] + (left[1..] + ReplacePairs(s, to));
    }
  }

  /** The only pair of a text is the one that is replaced. */
  lemma {:induction false} ReplaceOnePair(left: string, right: string, to: string)
    requires NoPair(left) && NoPair(right) && (left != "" ==> left[|left| - 1] != ':')
    ensures ReplacePairs(left + "::" + right, to) == left + to + right
  {
    Regroup(left, "::", right);
    ReplaceSkipsAll(left, "::" + right, to);
    ReplaceHead("::" + right, right, to);
    Regroup(left, to, right);
  }

  lemma {:induction false} ReplaceHead(s: string, right: string, to: string)
    requires NoPair(right) && |s| >= 2 && s[0] == s[1] == ':' && s[2..] == right
    ensures ReplacePairs(s, to) == to + right
  {
    ReplaceNothing(right, to);
  }

  lemma {:induction false} Regroup(a: string, b: string, c: string)
    ensures a + b + c == a + (b + c)
  {}

  // ---- Joining ----

  lemma {:induction false} JoinConcat(a: seq<string>, b: seq<string>, sep: string)
    requires a != [] && b != []
    ensures Join(a + b, sep) == Join(a, sep) + sep + Join(b, sep)
  {
    if |a| == 1 {
      assert (a + b)[1..] == b;
    } else {
      JoinConcat(a[1..], b, sep);
      assert (a + b)[1..] == a[1..] + b;
      Regroup(a[0] + sep, Join(a[1..], sep), sep + Join(b, sep));
      Regroup(Join(a[1..], sep), sep, Join(b, sep));
      Regroup(Join(a, sep), sep, Join(b, sep));
    }
  }

  /** Every part is non-empty and holds none of the two separators. */
  ghost predicate Plain(parts: seq<string>, c: char)
  {
    forall i :: 0 <= i < |parts| ==> parts[i] != "" && c !in parts[i]
  }

  lemma {:induction false} JoinCount(parts: seq<string>, c: char)
    requires Plain(parts, c) && parts != []
    ensures Count(Join(parts, [c]), c) == |parts| - 1
  {
    CountNone(parts[0], c);
    if |parts| > 1 {
      JoinCount(parts[1..], c);
      CountConcat(parts[0], [c], c);
      CountConcat(parts[0] + [c], Join(parts[1..], [c]), c);
      assert Count([c], c) == 1;
    }
  }

  lemma {:induction false} NoPairAfter(head: string, tail: string)
    requires head != "" && ':' !in head && NoPair(tail) && (tail != "" ==> tail[0] != ':')
    ensures NoPair(head) && NoPair(head + ":" + tail)
    decreases |head|
  {
    var s := head + ":" + tail;
    if |head| == 1 {
      assert s[1..] == ":" + tail;
      assert (":" + tail)[1..] == tail;
    } else {
      NoPairAfter(head[1..], tail);
      assert s[1..] == head[1..] + ":" + tail;
    }
  }

  /** A joined text begins and ends with a part and holds no pair of separators. */
  lemma {:induction false} JoinClean(parts: seq<string>)
    requires Plain(parts, ':') && parts != []
    ensures var s := Join(parts, ":"); s != "" && s[0] == parts[0][0] && s[0] != ':' && s[|s| - 1] != ':' && NoPair(s)
  {
    var h := parts[0];
    if |parts| == 1 {
      NoPairAfter(h, "");
    } else {
      JoinClean(parts[1..]);
      NoPairAfter(h, Join(parts[1..], ":"));
    }
  }

  lemma {:induction false} JoinHolds(parts: seq<string>, sep: string, c: char)
    requires Plain(parts, c) && c !in sep
    ensures c !in Join(parts, sep)
  {
    if |parts| > 1 { JoinHolds(parts[1..], sep, c); }
  }

  /** Joining with a separator that no part holds can be undone. */
  lemma {:induction false} JoinInjective(a: seq<string>, b: seq<string>, c: char)
    requires Plain(a, c) && Plain(b, c) && |a| == |b| && Join(a, [c]) == Join(b, [c])
    ensures a == b
  {
    if |a| == 1 {
    } else if |a| > 1 {
      CutAt(a[0], Join(a[1..], [c]), b[0], Join(b[1..], [c]), c);
      JoinInjective(a[1..], b[1..], c);
      assert a == [a[0]] + a[1..] && b == [b[0]] + b[1..];
    }
  }

  lemma {:induction false} ReplaceConcat(a: string, b: string, from: char, to: char)
    ensures ReplaceChar(a + b, from, to) == ReplaceChar(a, from, to) + ReplaceChar(b, from, to)
  {}

  lemma {:induction false} ReplaceAbsent(s: string, from: char, to: char)
    requires from !in s
    ensures ReplaceChar(s, from, to) == s
  {}

  /** Replacing the separator of joined parts joins them with the other one. */
  lemma {:induction false} JoinReplaced(parts: seq<string>, from: char, to: char)
    requires Plain(parts, from)
    ensures ReplaceChar(Join(parts, [from]), from, to) == Join(parts, [to])
  {
    if parts != [] {
      ReplaceAbsent(parts[0], from, to);
      if |parts| > 1 {
        JoinReplaced(parts[1..], from, to);
        ReplaceConcat(parts[0], [from], from, to);
        ReplaceConcat(parts[0] + [from], Join(parts[1..], [from]), from, to);
        assert ReplaceChar([from], from, to) == [to];
      }
    }
  }

  function IndexOf(s: string, c: char): nat
  {
    if s == "" || s[0] == c then 0 else 1 + IndexOf(s[1..], c)
  }

  lemma {:induction false} IndexOfCut(a: string, s: string, c: char)
    requires c !in a
    ensures IndexOf(a + [c] + s, c) == |a|
  {
    if a != "" {
      assert (a + [c] + s)[1..] == a[1..] + [c] + s;
      IndexOfCut(a[1..], s, c);
    }
  }

  lemma {:induction false} CutAt(a: string, s: string, b: string, t: string, c: char)
    requires c !in a && c !in b && a + [c] + s == b + [c] + t
    ensures a == b && s == t
  {
    IndexOfCut(a, s, c);
    IndexOfCut(b, t, c);
    var x, y := a + [c] + s, b + [c] + t;
    assert x[..|a|] == a && y[..|a|] == b;
    assert x[|a| + 1..] == s && y[|a| + 1..] == t;
  }

  /** Colons joined by zeros are zeros joined by colons, with a colon on either side. */
  lemma {:induction false} ColonsAndZeros(k: nat)
    ensures Join(seq(k + 2, _ => ":"), "0") == ":" + Join(seq(k + 1, _ => "0"), ":") + ":"
  {
    var colons := seq(k + 2, _ => ":");
    assert colons[1..] == seq(k + 1, _ => ":");
    if k == 0 {
      assert Join(colons[1..], "0") == ":";
    } else {
      ColonsAndZeros(k - 1);
      var zeros := seq(k + 1, _ => "0");
      assert zeros[1..] == seq(k, _ => "0");
      assert Join(zeros, ":") == "0" + ":" + Join(zeros[1..], ":");
    }
  }

  // ---- Numerals ----

  const DIGITS: string := "0123456789abcdef"

  function Digit(d: nat): char
    requires d < 16
  {
    DIGITS[d]
  }

  /** The value of a hexadecimal digit, or 16. */
  function DigitValue(c: char): (v: nat)
    ensures v <= 16
  {
    if '0' <= c <= '9' then c as int - '0' as int
    else if 'a' <= c <= 'f' then c as int - 'a' as int + 10
    else if 'A' <= c <= 'F' then c as int - 'A' as int + 10
    else 16
  }

  /** No leading zeros, lower case. */
  function Numeral(n: nat, base: nat): string
    requires 2 <= base <= 16
  {
    if n < base then [Digit(n)] else Numeral(n / base, base) + [Digit(n % base)]
  }

  function ValueOf(s: string, base: nat): nat
  {
    if s == "" then 0 else ValueOf(s[..|s| - 1], base) * base + DigitValue(s[|s| - 1])
  }

  lemma {:induction false} DigitIsDigit(d: nat)
    requires d < 16
    ensures DigitValue(Digit(d)) == d && Digit(d) != ':' && Digit(d) != '-' && Digit(d) != '.'
    ensures Digit(d) == if d < 10 then ('0' as int + d) as char else ('a' as int + (d - 10)) as char
  {}

  ghost predicate AllDigits(s: string)
  {
    forall i :: 0 <= i < |s| ==> DigitValue(s[i]) < 16
  }

  lemma {:induction false} ValueAppend(s: string, c: char, base: nat)
    ensures ValueOf(s + [c], base) == ValueOf(s, base) * base + DigitValue(c)
  {
    assert (s + [c])[..|s|] == s;
  }

  lemma {:induction false} NumeralMeans(n: nat, base: nat)
    requires 2 <= base <= 16
    ensures Numeral(n, base) != "" && AllDigits(Numeral(n, base)) && ValueOf(Numeral(n, base), base) == n
  {
    if n < base {
      DigitIsDigit(n);
      ValueAppend("", Digit(n), base);
      assert "" + [Digit(n)] == [Digit(n)];
    } else {
      var q := n / base;
      QuotientSmaller(n, base);
      NumeralMeans(q, base);
      DigitIsDigit(n % base);
      ValueAppend(Numeral(q, base), Digit(n % base), base);
    }
  }

  /** Digits of the base, lower case, the first one not zero unless it is the only one. */
  ghost predicate IsNumeral(s: string, base: nat)
  {
    && s != "" && (|s| > 1 ==> s[0] != '0')
    && forall i :: 0 <= i < |s| ==> DigitValue(s[i]) < base && !('A' <= s[i] <= 'F')
  }

  lemma {:induction false} LowerDigit(c: char)
    requires DigitValue(c) < 16 && !('A' <= c <= 'F')
    ensures c == Digit(DigitValue(c))
  {
    DigitIsDigit(DigitValue(c));
  }

  /** A number of several digits is at least the base. */
  lemma {:induction false} SeveralDigits(s: string, base: nat)
    requires 2 <= base <= 16 && IsNumeral(s, base) && s[0] != '0'
    ensures ValueOf(s, base) > 0 && (|s| > 1 ==> ValueOf(s, base) >= base)
  {
    var init, c := s[..|s| - 1], s[|s| - 1];
    if |s| == 1 {
      LowerDigit(c);
      DigitIsDigit(0);
      assert ValueOf(init, base) == 0;
    } else {
      SeveralDigits(init, base);
      AtLeast(ValueOf(init, base), base);
    }
  }

  lemma {:induction false} AtLeast(q: nat, base: nat)
    requires q >= 1
    ensures q * base >= base
  {}

  lemma {:induction false} Division(n: nat, q: nat, base: nat, d: nat)
    requires base >= 1 && d < base && n == q * base + d
    ensures n / base == q && n % base == d
  {
    var p := n / base;
    assert n == p * base + n % base;
    if p < q { OneMore(p, q, base); }
    if q < p { OneMore(q, p, base); }
  }

  lemma {:induction false} OneMore(p: nat, q: nat, base: nat)
    requires p < q
    ensures p * base + base <= q * base
  {
    Successor(q - 1, base);
    if p < q - 1 { OneMore(p, q - 1, base); }
  }

  lemma {:induction false} Successor(p: nat, base: nat)
    ensures (p + 1) * base == p * base + base
  {}

  lemma {:induction false} LastDigit(n: nat, q: nat, base: nat, d: nat)
    requires 2 <= base <= 16 && d < base && q >= 1 && n == q * base + d
    ensures Numeral(n, base) == Numeral(q, base) + [Digit(d)]
  {
    AtLeast(q, base);
    Division(n, q, base, d);
  }

  /** The numeral of a number is the only text of lower-case digits without leading zeros that has its value. */
  lemma {:induction false} NumeralIsOnly(s: string, base: nat)
    requires 2 <= base <= 16 && IsNumeral(s, base)
    ensures Numeral(ValueOf(s, base), base) == s
  {
    var init, c := s[..|s| - 1], s[|s| - 1];
    LowerDigit(c);
    assert s == init + [c];
    if |s| == 1 {
      OneDigit(s, base);
    } else {
      SeveralDigits(init, base);
      NumeralIsOnly(init, base);
      AppendedDigit(init, c, base);
    }
  }

  lemma {:induction false} OneDigit(s: string, base: nat)
    requires 2 <= base <= 16 && IsNumeral(s, base) && |s| == 1
    ensures Numeral(ValueOf(s, base), base) == s
  {
    LowerDigit(s[0]);
    assert ValueOf(s[..0], base) == 0;
  }

  lemma {:induction false} AppendedDigit(init: string, c: char, base: nat)
    requires 2 <= base <= 16 && DigitValue(c) < base && c == Digit(DigitValue(c)) && ValueOf(init, base) > 0
    ensures Numeral(ValueOf(init + [c], base), base) == Numeral(ValueOf(init, base), base) + [c]
  {
    ValueAppend(init, c, base);
    LastDigit(ValueOf(init + [c], base), ValueOf(init, base), base, DigitValue(c));
  }

  lemma {:induction false} NumeralIsNumeral(n: nat, base: nat)
    requires 2 <= base <= 16
    ensures IsNumeral(Numeral(n, base), base) && (n > 0 ==> Numeral(n, base)[0] != '0')
  {
    if n < base {
      DigitIsDigit(n);
    } else {
      QuotientSmaller(n, base);
      QuotientPositive(n, base);
      NumeralIsNumeral(n / base, base);
      DigitIsDigit(n % base);
    }
  }

  lemma {:induction false} QuotientPositive(n: nat, base: nat)
    requires 2 <= base <= n
    ensures n / base > 0
  {}

  lemma {:induction false} QuotientSmaller(n: nat, base: nat)
    requires 2 <= base <= n
    ensures 0 <= n / base < n && n / base * base + n % base == n
  {}

  lemma {:induction false} DigitsHoldNoSeparator(s: string)
    requires AllDigits(s)
    ensures ':' !in s && '-' !in s && '.' !in s
  {}

  function Numerals(ns: seq<nat>, base: nat): (r: seq<string>)
    requires 2 <= base <= 16
    ensures |r| == |ns| && forall i :: 0 <= i < |ns| ==> r[i] == Numeral(ns[i], base)
  {
    seq(|ns|, i requires 0 <= i < |ns| => Numeral(ns[i], base))
  }

  lemma {:induction false} NumeralsPlain(ns: seq<nat>, base: nat)
    requires 2 <= base <= 16
    ensures Plain(Numerals(ns, base), ':') && Plain(Numerals(ns, base), '-') && Plain(Numerals(ns, base), '.')
  {
    forall i | 0 <= i < |ns| ensures Numeral(ns[i], base) != "" && ':' !in Numeral(ns[i], base)
                                     && '-' !in Numeral(ns[i], base) && '.' !in Numeral(ns[i], base) {
      NumeralMeans(ns[i], base);
      DigitsHoldNoSeparator(Numeral(ns[i], base));
    }
  }

  lemma {:induction false} NumeralsInjective(a: seq<nat>, b: seq<nat>, base: nat)
    requires 2 <= base <= 16 && Numerals(a, base) == Numerals(b, base)
    ensures a == b
  {
    assert |a| == |Numerals(a, base)| == |b|;
    forall i | 0 <= i < |a| ensures a[i] == b[i] {
      NumeralMeans(a[i], base);
      NumeralMeans(b[i], base);
      assert Numerals(a, base)[i] == Numerals(b, base)[i];
    }
  }
}
