/** Decimal numbers and separated texts. */
module Text {
  function Digit(d: nat): char
    requires d < 10
  {
    "0123456789"[d]
  }

  function Digits(n: nat): (s: string)
    ensures s != [] && forall i :: 0 <= i < |s| ==> '0' <= s[i] <= '9'
  {
    if n < 10 then [Digit(n)] else Digits(n / 10) + [Digit(n % 10)]
  }

  lemma {:induction false} DigitsInjective(m: nat, n: nat)
    requires Digits(m) == Digits(n)
    ensures m == n
  {
    var s, t := Digits(m), Digits(n);
    if m >= 10 && n >= 10 {
      assert s[..|s| - 1] == Digits(m / 10) && t[..|t| - 1] == Digits(n / 10);
      DigitsInjective(m / 10, n / 10);
      assert s[|s| - 1] == Digit(m % 10) && t[|t| - 1] == Digit(n % 10);
      DigitInjective(m % 10, n % 10);
    } else {
      assert m >= 10 ==> |s| > 1;
      assert n >= 10 ==> |t| > 1;
      if m < 10 && n < 10 {
        assert s[0] == Digit(m) && t[0] == Digit(n);
        DigitInjective(m, n);
      }
    }
  }

  lemma DigitInjective(c: nat, d: nat)
    requires c < 10 && d < 10 && Digit(c) == Digit(d)
    ensures c == d
  {
  }

  predicate Without(s: string, sep: char) { forall i :: 0 <= i < |s| ==> s[i] != sep }

  /** A text is cut at the first separator in one way only. */
  lemma SplitAt(sep: char, a: string, x: string, b: string, y: string)
    requires Without(a, sep) && Without(b, sep) && a + ([sep] + x) == b + ([sep] + y)
    ensures a == b && x == y
  {
    var s := a + ([sep] + x);
    assert s[|a|] == sep && s[|b|] == sep;
    assert forall i :: 0 <= i < |a| ==> s[i] == a[i];
    assert forall i :: 0 <= i < |b| ==> s[i] == b[i];
    assert |a| == |b|;
    assert s[..|a|] == a && s[|a| + 1..] == x && s[..|b|] == b && s[|b| + 1..] == y;
  }

  /** The texts with the separator between them. */
  function Join(xs: seq<string>, sep: char): string {
    if xs == [] then ""
    else if |xs| == 1 then xs[0]
    else xs[0] + ([sep] + Join(xs[1..], sep))
  }

  predicate AllWithout(xs: seq<string>, sep: char) { forall i :: 0 <= i < |xs| ==> Without(xs[i], sep) }

  /** As many texts, joined, are determined by the result if the separator occurs in none. */
  lemma {:induction false} JoinInjective(xs: seq<string>, ys: seq<string>, sep: char)
    requires |xs| == |ys| && AllWithout(xs, sep) && AllWithout(ys, sep) && Join(xs, sep) == Join(ys, sep)
    ensures xs == ys
  {
    if |xs| > 1 {
      SplitAt(sep, xs[0], Join(xs[1..], sep), ys[0], Join(ys[1..], sep));
      JoinInjective(xs[1..], ys[1..], sep);
      assert xs == [xs[0]] + xs[1..] && ys == [ys[0]] + ys[1..];
    }
  }
}
