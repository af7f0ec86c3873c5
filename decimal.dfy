/**
 * PHP's conversion of a non-negative integer to a string, the one used when
 * an `int` is interpolated into a string or concatenated with `.`: base ten,
 * no sign, no leading zeros, "0" for zero.
 */
module Decimal {

  predicate IsDigit(c: char) {
    '0' <= c <= '9'
  }

  predicate AllDigits(s: string) {
    forall i :: 0 <= i < |s| ==> IsDigit(s[i])
  }

  /** A digit string without superfluous leading zeros, as PHP prints integers. */
  predicate Canonical(s: string) {
    1 <= |s| && AllDigits(s) && (|s| > 1 ==> s[0] != '0')
  }

  function DigitChar(d: nat): (c: char)
    requires d < 10
    ensures IsDigit(c) && c as int - '0' as int == d
  {
    ('0' as int + d) as char
  }

  /** The decimal text of `n`. */
  function ToString(n: nat): string
    decreases n
  {
    if n < 10 then [DigitChar(n)] else ToString(n / 10) + [DigitChar(n % 10)]
  }

  /** The text is a canonical digit string: digits only, no leading zero. */
  lemma {:induction false} ToStringCanonical(n: nat)
    ensures Canonical(ToString(n))
  {
    if n >= 10 {
      ToStringCanonical(n / 10);
      var p, s := ToString(n / 10), ToString(n);
      assert s == p + [DigitChar(n % 10)];
      assert s[0] == p[0];
      if n / 10 < 10 {
        var c := DigitChar(n / 10);
        assert p == [c];
        assert c as int - '0' as int >= 1;
      } else {
        ToStringCanonical(n / 10 / 10);
        assert p == ToString(n / 10 / 10) + [DigitChar(n / 10 % 10)];
      }
      forall i | 0 <= i < |s| ensures IsDigit(s[i]) {
        if i < |p| {
          assert s[i] == p[i];
        }
      }
    }
  }

  /** The number a digit string denotes (leading zeros allowed). */
  function Value(s: string): (n: nat)
    requires AllDigits(s)
  {
    if s == [] then 0 else Value(s[..|s| - 1]) * 10 + (s[|s| - 1] as int - '0' as int)
  }

  /** Reading back the printed text gives the number. */
  lemma {:induction false} ValueOfToString(n: nat)
    ensures AllDigits(ToString(n)) && Value(ToString(n)) == n
  {
    ToStringCanonical(n);
    if n >= 10 {
      var s := ToString(n);
      assert s[..|s| - 1] == ToString(n / 10);
      ValueOfToString(n / 10);
    }
  }

  /** Only a digit string of zeros denotes zero. */
  lemma {:induction false} ValueZero(s: string)
    requires AllDigits(s) && Value(s) == 0
    ensures forall i :: 0 <= i < |s| ==> s[i] == '0'
  {
    if s != [] {
      ValueZero(s[..|s| - 1]);
      forall i | 0 <= i < |s| ensures s[i] == '0' {
        if i < |s| - 1 {
          assert s[i] == s[..|s| - 1][i];
        }
      }
    }
  }

  /** Printing the value of a canonical digit string gives that string back. */
  lemma {:induction false} ToStringOfValue(s: string)
    requires Canonical(s)
    ensures ToString(Value(s)) == s
  {
    if |s| > 1 {
      var p := s[..|s| - 1];
      assert Canonical(p) by {
        assert p[0] == s[0];
        forall i | 0 <= i < |p| ensures IsDigit(p[i]) {
          assert p[i] == s[i];
        }
      }
      if Value(p) == 0 {
        ValueZero(p);
      }
      ToStringOfValue(p);
      var d := s[|s| - 1] as int - '0' as int;
      assert Value(s) / 10 == Value(p) && Value(s) % 10 == d;
      assert s == p + [DigitChar(d)];
    }
  }

  /** Different numbers print differently. */
  lemma ToStringInjective(m: nat, n: nat)
    requires ToString(m) == ToString(n)
    ensures m == n
  {
    ValueOfToString(m);
    ValueOfToString(n);
  }
}
