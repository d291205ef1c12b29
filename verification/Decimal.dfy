/** Decimal text of integers and reading it back. */
module Decimal {

  predicate IsDigit(c: char) {
    '0' <= c <= '9'
  }

  function DigitChar(d: int): (c: char)
    requires 0 <= d < 10
    ensures IsDigit(c) && DigitValue(c) == d
  {
    ('0' as int + d) as char
  }

  function DigitValue(c: char): (d: nat)
    requires IsDigit(c)
    ensures d < 10
  {
    c as int - '0' as int
  }

  predicate AllDigits(s: string) {
    forall i :: 0 <= i < |s| ==> IsDigit(s[i])
  }

  function NatText(n: nat): (s: string)
    ensures s != "" && AllDigits(s)
  {
    if n < 10 then [DigitChar(n)] else NatText(n / 10) + [DigitChar(n % 10)]
  }

  function ToNat(s: string): nat
    requires AllDigits(s)
  {
    if s == "" then 0 else ToNat(s[..|s| - 1]) * 10 + DigitValue(s[|s| - 1])
  }

  lemma {:induction false} NatTextReadsBack(n: nat)
    ensures ToNat(NatText(n)) == n
  {
    if n < 10 {
      assert NatText(n)[..0] == "";
    } else {
      NatTextReadsBack(n / 10);
      assert NatText(n)[..|NatText(n)| - 1] == NatText(n / 10);
    }
  }

  function IntText(n: int): string {
    if n < 0 then "-" + NatText(-n) else NatText(n)
  }

  /** How many digits `t` begins with. */
  function DigitSpan(t: string): (k: nat)
    ensures k <= |t| && AllDigits(t[..k])
    ensures k < |t| ==> !IsDigit(t[k])
  {
    if t != "" && IsDigit(t[0]) then
      var k := DigitSpan(t[1..]);
      assert forall i :: 0 < i < k + 1 ==> t[i] == t[1..][i - 1];
      k + 1
    else 0
  }

  lemma {:induction false} DigitSpanOf(d: string, u: string)
    requires AllDigits(d) && (u == "" || !IsDigit(u[0]))
    ensures DigitSpan(d + u) == |d|
  {
    assert forall i :: 0 <= i < |d| ==> (d + u)[i] == d[i];
    assert u != "" ==> (d + u)[|d|] == u[0];
  }
}
