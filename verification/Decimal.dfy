/**
 * Decimal numerals: the shortest one of a number, the one of a fixed width, the value that a string of digits spells,
 * and what zeros in front of one change. Node names, addresses and hours are written in them.
 */
module Decimal {
  predicate IsDigit(c: char) {
    '0' <= c <= '9'
  }

  predicate AllDigits(s: string) {
    forall i :: 0 <= i < |s| ==> IsDigit(s[i])
  }

  function Digit(d: nat): (c: char)
    requires d < 10
    ensures IsDigit(c) && c as int == '0' as int + d
  {
    ['0', '1', '2', '3', '4', '5', '6', '7', '8', '9'][d]
  }

  function DigitValue(c: char): (d: nat)
    requires IsDigit(c)
  {
    c as int - '0' as int
  }

  /** The value of a string of digits, 0 for the empty one. */
  function Value(s: string): nat
    requires AllDigits(s)
  {
    if s == [] then 0 else 10 * Value(s[..|s| - 1]) + DigitValue(s[|s| - 1])
  }

  /** The shortest numeral of `n`: `toString` of JavaScript. */
  function Numeral(n: nat): (s: string)
    ensures s != [] && AllDigits(s)
  {
    if n < 10 then [Digit(n)] else Numeral(n / 10) + [Digit(n % 10)]
  }

  /** The last `w` digits of `n`. */
  function Fixed(n: nat, w: nat): (s: string)
    ensures |s| == w && AllDigits(s)
  {
    if w == 0 then [] else Fixed(n / 10, w - 1) + [Digit(n % 10)]
  }

  function Zeros(k: nat): (s: string)
  {
    seq(k, _ => '0')
  }

  lemma {:induction false} ValueOfNumeral(n: nat)
    ensures Value(Numeral(n)) == n
  {
    if n >= 10 {
      ValueOfNumeral(n / 10);
      assert Numeral(n)[..|Numeral(n)| - 1] == Numeral(n / 10);
    }
  }

  /** A string of digits is the fixed-width numeral of its value. */
  lemma {:induction false} FixedOfValue(s: string)
    requires AllDigits(s)
    ensures Fixed(Value(s), |s|) == s
  {
    if s != [] {
      FixedOfValue(s[..|s| - 1]);
      assert Value(s) / 10 == Value(s[..|s| - 1]) && Value(s) % 10 == DigitValue(s[|s| - 1]);
      assert s == s[..|s| - 1] + [s[|s| - 1]];
    }
  }

  lemma {:induction false} FixedZero(w: nat)
    ensures Fixed(0, w) == Zeros(w)
  {
    if w > 0 {
      FixedZero(w - 1);
    }
  }

  /** Zeros before the numeral give the fixed-width numeral. */
  lemma {:induction false} FixedIsPadded(n: nat, w: nat)
    requires |Numeral(n)| <= w
    ensures Fixed(n, w) == Zeros(w - |Numeral(n)|) + Numeral(n)
  {
    if n < 10 {
      FixedZero(w - 1);
      assert n / 10 == 0 && n % 10 == n;
    } else {
      FixedIsPadded(n / 10, w - 1);
    }
  }

  lemma {:induction false} NumeralGrows(m: nat, n: nat)
    requires m <= n
    ensures |Numeral(m)| <= |Numeral(n)|
  {
    if m >= 10 {
      NumeralGrows(m / 10, n / 10);
    }
  }

  /** A numeral of `|s|` digits suffices for every value up to that of `s`. */
  lemma {:induction false} NumeralFits(n: nat, s: string)
    requires AllDigits(s) && s != [] && n <= Value(s)
    ensures |Numeral(n)| <= |s|
  {
    if |s| == 1 {
      assert s[..0] == [];
      assert Value(s) == DigitValue(s[0]);
    } else if n >= 10 {
      NumeralFits(n / 10, s[..|s| - 1]);
    }
  }

  /** Zeros in front do not change the value. */
  lemma {:induction false} ValueOfPadded(k: nat, s: string)
    requires AllDigits(s)
    ensures AllDigits(Zeros(k) + s) && Value(Zeros(k) + s) == Value(s)
    decreases k + |s|
  {
    var p := Zeros(k) + s;
    if s != [] {
      ValueOfPadded(k, s[..|s| - 1]);
      assert p[..|p| - 1] == Zeros(k) + s[..|s| - 1];
    } else if k > 0 {
      ValueOfPadded(k - 1, []);
      assert p[..|p| - 1] == Zeros(k - 1) + [];
    }
  }

  lemma {:induction false} ValueOfFixed(n: nat, w: nat)
    requires |Numeral(n)| <= w
    ensures Value(Fixed(n, w)) == n
  {
    var f := Fixed(n, w);
    assert f[..w - 1] == Fixed(n / 10, w - 1);
    if n >= 10 {
      ValueOfFixed(n / 10, w - 1);
    } else {
      ValueOfZero(w - 1);
      assert n / 10 == 0;
    }
  }

  lemma {:induction false} ValueOfZero(w: nat)
    ensures Value(Fixed(0, w)) == 0
  {
    if w > 0 {
      assert Fixed(0, w)[..w - 1] == Fixed(0, w - 1);
      ValueOfZero(w - 1);
    }
  }
}
