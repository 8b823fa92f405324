/** Decimal rendering of natural numbers, as Python's `f"{n}"` and strftime's
    zero-padded two-digit fields produce it, with the injectivity facts that make
    synthesized column names and evidence file names distinguishable. */
module Decimal {

  predicate IsDigit(c: char) { '0' <= c <= '9' }

  predicate AllDigits(s: string) { forall k :: 0 <= k < |s| ==> IsDigit(s[k]) }

  function DigitChar(d: nat): (c: char)
    requires d < 10
    ensures IsDigit(c)
  {
    "0123456789"[d]
  }

  /** `str(n)` for a non-negative integer: no sign, no leading zeros. */
  function Dec(n: nat): (s: string)
    ensures |s| >= 1 && AllDigits(s)
    ensures (|s| == 1) <==> n < 10
  {
    if n < 10 then [DigitChar(n)] else Dec(n / 10) + [DigitChar(n % 10)]
  }

  lemma DigitCharInjective(a: nat, b: nat)
    requires a < 10 && b < 10 && DigitChar(a) == DigitChar(b)
    ensures a == b
  {
  }

  /** Distinct numbers render differently. */
  lemma {:induction false} DecInjective(a: nat, b: nat)
    requires Dec(a) == Dec(b)
    ensures a == b
  {
    if a < 10 {
      DigitCharInjective(a, b);
    } else {
      var sa, sb := Dec(a), Dec(b);
      assert sa[|sa| - 1] == DigitChar(a % 10);
      assert sb[|sb| - 1] == DigitChar(b % 10);
      DigitCharInjective(a % 10, b % 10);
      assert sa[..|sa| - 1] == Dec(a / 10);
      assert sb[..|sb| - 1] == Dec(b / 10);
      DecInjective(a / 10, b / 10);
    }
  }

  /** strftime's `%m`, `%d`, `%H`, `%M`, `%S`: two digits, zero-padded. */
  function Pad2(n: nat): (s: string)
    requires n < 100
    ensures |s| == 2 && AllDigits(s)
  {
    [DigitChar(n / 10), DigitChar(n % 10)]
  }

  lemma Pad2Injective(a: nat, b: nat)
    requires a < 100 && b < 100 && Pad2(a) == Pad2(b)
    ensures a == b
  {
    DigitCharInjective(a / 10, b / 10);
    DigitCharInjective(a % 10, b % 10);
  }

  /** Stripping a common prefix and suffix. */
  lemma SameAffixes(pre: string, x: string, y: string, suf: string)
    requires pre + x + suf == pre + y + suf
    ensures x == y
  {
    assert x == (pre + x + suf)[|pre|..|pre| + |x|];
    assert y == (pre + y + suf)[|pre|..|pre| + |y|];
  }

  /** Two concatenations with equally long first parts split the same way. */
  lemma SplitAt(x1: string, y1: string, x2: string, y2: string)
    requires |x1| == |x2| && x1 + y1 == x2 + y2
    ensures x1 == x2 && y1 == y2
  {
    assert x1 == (x1 + y1)[..|x1|] && x2 == (x2 + y2)[..|x2|];
    assert y1 == (x1 + y1)[|x1|..] && y2 == (x2 + y2)[|x2|..];
  }

  /** Length of the run of digits a string starts with. */
  function DigitRun(s: string): (n: nat)
    ensures n <= |s|
  {
    if |s| == 0 || !IsDigit(s[0]) then 0 else 1 + DigitRun(s[1..])
  }

  lemma {:induction false} DigitRunOfPrefix(p: string, s: string)
    requires AllDigits(p) && |s| > 0 && !IsDigit(s[0])
    ensures DigitRun(p + s) == |p|
  {
    if |p| == 0 {
      assert p + s == s;
    } else {
      assert (p + s)[0] == p[0];
      assert (p + s)[1..] == p[1..] + s;
      DigitRunOfPrefix(p[1..], s);
    }
  }

  /** A run of digits followed by a non-digit is recovered from any string it starts:
      the first non-digit ends it. */
  lemma DigitPrefixUnique(p1: string, s1: string, p2: string, s2: string)
    requires AllDigits(p1) && AllDigits(p2)
    requires |s1| > 0 && !IsDigit(s1[0]) && |s2| > 0 && !IsDigit(s2[0])
    requires p1 + s1 == p2 + s2
    ensures p1 == p2 && s1 == s2
  {
    DigitRunOfPrefix(p1, s1);
    DigitRunOfPrefix(p2, s2);
    assert p1 == (p1 + s1)[..|p1|];
    assert p2 == (p2 + s2)[..|p2|];
    assert s1 == (p1 + s1)[|p1|..];
    assert s2 == (p2 + s2)[|p2|..];
  }
}
