/**
 * Decimal text of integers, as Java's string concatenation renders an `int`
 * and as `Integer.parseInt` reads one back (ASCII digits only).
 */
module Decimal {
  import opened Wrappers

  predicate IsDigitChar(c: char) { '0' <= c <= '9' }

  /** The ASCII character of a single decimal digit. */
  function DigitChar(d: int): (c: char)
    requires 0 <= d <= 9
    ensures IsDigitChar(c) && c as int - '0' as int == d
  {
    ('0' as int + d) as char
  }

  /** Java's `String.valueOf(n)` for a non-negative `n`: no sign, no leading zero. */
  function NatToString(n: nat): (s: string)
    ensures 1 <= |s| && forall i | 0 <= i < |s| :: IsDigitChar(s[i])
    ensures |s| > 1 ==> s[0] != '0'
    ensures n < 10 <==> |s| == 1
    decreases n
  {
    if n < 10 then [DigitChar(n)] else NatToString(n / 10) + [DigitChar(n % 10)]
  }

  /** `Integer.parseInt(s)` restricted to unsigned ASCII decimal text. */
  function ParseDecimal(s: string): (r: Result<nat>)
    ensures r.Success? <==> (|s| > 0 && forall i | 0 <= i < |s| :: IsDigitChar(s[i]))
    decreases |s|
  {
    if |s| == 0 then Failure(NumberFormat(s))
    else if !IsDigitChar(s[|s| - 1]) then Failure(NumberFormat(s))
    else if |s| == 1 then Success(s[0] as int - '0' as int)
    else match ParseDecimal(s[..|s| - 1])
      case Success(n) => Success(n * 10 + (s[|s| - 1] as int - '0' as int))
      case Failure(_) => Failure(NumberFormat(s))
  }

  /** Reading back what `NatToString` renders gives the number again. */
  lemma {:induction false} ParseNatToString(n: nat)
    ensures ParseDecimal(NatToString(n)) == Success(n)
    decreases n
  {
    if n >= 10 {
      ParseNatToString(n / 10);
      var s := NatToString(n);
      assert s[..|s| - 1] == NatToString(n / 10);
    }
  }

  /** Distinct numbers render to distinct text. */
  lemma NatToStringInjective(m: nat, n: nat)
    requires NatToString(m) == NatToString(n)
    ensures m == n
  {
    ParseNatToString(m);
    ParseNatToString(n);
  }
}
