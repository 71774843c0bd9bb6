/**
 * Decimal digit strings: `String(n)` for a natural number (used by the date
 * formatting of the store) and `parseInt(digits, 10)` (used by the respawn
 * range parser). The two are inverse to each other.
 */
module Decimal {

  predicate IsDigit(c: char) {
    '0' <= c <= '9'
  }

  predicate AllDigits(s: string) {
    forall i :: 0 <= i < |s| ==> IsDigit(s[i])
  }

  function DigitChar(d: nat): (c: char)
    requires d < 10
    ensures IsDigit(c) && c as int - '0' as int == d
  {
    ('0' as int + d) as char
  }

  /** `String(n)` for a natural number: its shortest decimal spelling. */
  function NatStr(n: nat): (s: string)
    ensures |s| >= 1 && AllDigits(s)
    ensures n < 10 <==> |s| == 1
    ensures |s| == 1 || s[0] != '0'
    decreases n
  {
    if n < 10 then [DigitChar(n)] else NatStr(n / 10) + [DigitChar(n % 10)]
  }

  /** `parseInt(s, 10)` on a non-empty run of ASCII digits. */
  function DigitsValue(s: string): (v: nat)
    requires AllDigits(s)
    decreases |s|
  {
    if s == [] then 0
    else DigitsValue(s[..|s| - 1]) * 10 + (s[|s| - 1] as int - '0' as int)
  }

  /** Reading back what `NatStr` wrote gives the number. */
  lemma {:induction false} NatStrRoundTrip(n: nat)
    ensures DigitsValue(NatStr(n)) == n
    decreases n
  {
    var s := NatStr(n);
    if n >= 10 {
      NatStrRoundTrip(n / 10);
      assert s[..|s| - 1] == NatStr(n / 10);
    }
  }

  /** The spelling is unambiguous: different numbers have different strings. */
  lemma NatStrInjective(m: nat, n: nat)
    requires NatStr(m) == NatStr(n)
    ensures m == n
  {
    NatStrRoundTrip(m);
    NatStrRoundTrip(n);
  }
}
