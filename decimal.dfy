// Decimal numerals: `Integer.toString` for non-negative ints and the value
// of a run of ASCII digits.

module Decimals {
  function Digit(d: int): char
    requires 0 <= d < 10
  {
    ('0' as int + d) as char
  }

  /** `Integer.toString(n)` for n >= 0. */
  function Decimal(n: nat): (s: seq<char>)
    ensures |s| >= 1 && forall i :: 0 <= i < |s| ==> '0' <= s[i] <= '9'
  {
    if n < 10 then [Digit(n)] else Decimal(n / 10) + [Digit(n % 10)]
  }

  /** The value of a run of decimal digits. */
  function DecimalValue(s: seq<char>): int
  {
    if s == [] then 0 else 10 * DecimalValue(s[..|s| - 1]) + (s[|s| - 1] as int - '0' as int)
  }

  /** The digits `Integer.toString` writes read back as the number. */
  lemma {:induction false} DecimalRoundTrip(n: nat)
    ensures DecimalValue(Decimal(n)) == n
  {
    if n >= 10 {
      DecimalRoundTrip(n / 10);
      var s := Decimal(n);
      assert s[..|s| - 1] == Decimal(n / 10);
    }
  }

  predicate AllDigits(s: seq<char>)
  {
    forall i :: 0 <= i < |s| ==> '0' <= s[i] <= '9'
  }

  /** A run of digits has a non-negative value, at least that of each of its prefixes. */
  lemma {:induction false} DecimalValuePrefix(s: seq<char>, j: nat)
    requires AllDigits(s) && j <= |s|
    ensures 0 <= DecimalValue(s[..j]) <= DecimalValue(s)
    decreases |s|
  {
    if j < |s| {
      var t := s[..|s| - 1];
      assert AllDigits(t);
      assert t[..j] == s[..j];
      DecimalValuePrefix(t, j);
      DecimalValuePrefix(t, |t|);
      assert t[..|t|] == t;
    } else {
      assert s[..j] == s;
      if s != [] {
        DecimalValuePrefix(s[..|s| - 1], |s| - 1);
        assert s[..|s| - 1][..|s| - 1] == s[..|s| - 1];
      }
    }
  }
}
