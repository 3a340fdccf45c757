/** Decimal numerals as `str` and zero-padded formats write them. */
module Decimal {

  function Digits(n: nat): string {
    if n < 10 then [('0' as int + n) as char] else Digits(n / 10) + [('0' as int + n % 10) as char]
  }

  /** `{n:0<width>d}` */
  function Padded(n: nat, width: nat): string {
    LeftPad(Digits(n), width)
  }

  function LeftPad(s: string, width: nat): string
    decreases if |s| < width then width - |s| else 0
  {
    if |s| >= width then s else LeftPad("0" + s, width)
  }

  predicate IsNumeral(s: string) {
    forall i :: 0 <= i < |s| ==> '0' <= s[i] <= '9'
  }

  function Value(s: string): nat
    requires IsNumeral(s)
  {
    if s == [] then 0 else 10 * Value(s[..|s| - 1]) + (s[|s| - 1] as int - '0' as int)
  }

  lemma {:induction false} DigitsHaveValue(n: nat)
    ensures IsNumeral(Digits(n)) && Digits(n) != [] && Value(Digits(n)) == n
  {
    if n >= 10 {
      DigitsHaveValue(n / 10);
      assert Digits(n)[..|Digits(n)| - 1] == Digits(n / 10);
    } else {
      assert Digits(n)[..0] == [];
    }
  }

  lemma {:induction false} LeadingZero(s: string)
    requires IsNumeral(s)
    ensures IsNumeral("0" + s) && Value("0" + s) == Value(s)
  {
    if s == [] {
      assert ("0" + s)[..0] == [];
    } else {
      LeadingZero(s[..|s| - 1]);
      assert ("0" + s)[..|s|] == "0" + s[..|s| - 1];
    }
  }

  lemma {:induction false} PadKeepsValue(s: string, width: nat)
    requires IsNumeral(s)
    ensures IsNumeral(LeftPad(s, width)) && Value(LeftPad(s, width)) == Value(s)
    decreases if |s| < width then width - |s| else 0
  {
    if |s| < width {
      LeadingZero(s);
      PadKeepsValue("0" + s, width);
    }
  }

  /** Different numbers never print alike, padded or not. */
  lemma PaddedInjective(m: nat, n: nat, width: nat)
    requires Padded(m, width) == Padded(n, width)
    ensures m == n
  {
    DigitsHaveValue(m);
    DigitsHaveValue(n);
    PadKeepsValue(Digits(m), width);
    PadKeepsValue(Digits(n), width);
  }

  lemma SamePrefix(prefix: string, u: string, v: string)
    requires prefix + u == prefix + v
    ensures u == v
  {
    assert u == (prefix + u)[|prefix|..] && v == (prefix + v)[|prefix|..];
  }

  /** Two numerals around a mark are recovered from the whole. */
  lemma NumeralsAroundMark(prefix: string, a: nat, u: string, b: nat, v: string, mark: char)
    requires prefix + (Digits(a) + [mark] + u) == prefix + (Digits(b) + [mark] + v)
    requires !('0' <= mark <= '9')
    ensures a == b && u == v
  {
    SamePrefix(prefix, Digits(a) + [mark] + u, Digits(b) + [mark] + v);
    DigitsHaveValue(a);
    DigitsHaveValue(b);
    SplitAtMark(Digits(a), Digits(b), u, v, mark);
  }

  /** Text up to a mark that occurs in neither prefix is recovered from the whole. */
  lemma {:induction false} SplitAtMark(p: string, q: string, u: string, v: string, mark: char)
    requires p + [mark] + u == q + [mark] + v
    requires mark !in p && mark !in q
    ensures p == q && u == v
  {
    var s := p + [mark] + u;
    assert s[|p|] == mark && s[|q|] == mark;
    assert forall i :: 0 <= i < |p| ==> s[i] == p[i] && p[i] in p;
    assert forall i :: 0 <= i < |q| ==> s[i] == q[i] && q[i] in q;
    assert p == s[..|p|] && q == s[..|q|];
    assert u == s[|p| + 1..] && v == s[|q| + 1..];
  }

  lemma PadOnce(s: string, width: nat)
    requires |s| < width
    ensures LeftPad(s, width) == LeftPad("0" + s, width)
  {}

  /** Numerals as they are printed. */
  lemma PaddedExamples()
    ensures Padded(1, 4) == "0001" && Padded(207, 4) == "0207" && Padded(12345, 4) == "12345"
    ensures Padded(7, 3) == "007" && Digits(3) == "3" && Digits(15) == "15" && Digits(99) == "99"
  {
    PadOnce("1", 4);
    PadOnce("01", 4);
    PadOnce("001", 4);
    PadOnce("207", 4);
    PadOnce("7", 3);
    PadOnce("07", 3);
    assert "0" + "1" == "01" && "0" + "01" == "001" && "0" + "001" == "0001";
    assert "0" + "207" == "0207" && "0" + "7" == "07" && "0" + "07" == "007";
    assert Digits(207) == "207" && Digits(12345) == "12345";
  }
}
