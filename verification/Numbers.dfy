/** Numbers in text: `to_str`, `to_str_radix(16)` and the value of a run of digits. */
module Numbers {

  /** The value of a digit; 16 for a character that is none. */
  function DigitValue(c: char): (v: nat)
    ensures v <= 16
  {
    if '0' <= c <= '9' then c as int - '0' as int
    else if 'a' <= c <= 'f' then c as int - 'a' as int + 10
    else if 'A' <= c <= 'F' then c as int - 'A' as int + 10
    else 16
  }

  predicate IsDigit(c: char, radix: nat) { DigitValue(c) < radix }

  predicate AllDigits(s: string, radix: nat) { forall i :: 0 <= i < |s| ==> IsDigit(s[i], radix) }

  function DigitFor(v: nat): (c: char)
    requires v < 16
    ensures DigitValue(c) == v
  {
    if v < 10 then (v + '0' as int) as char else (v - 10 + 'a' as int) as char
  }

  /** The digits of a number, without leading zeros. */
  function Digits(n: nat, radix: nat): (s: string)
    requires 2 <= radix <= 16
    ensures s != "" && AllDigits(s, radix)
    ensures n != 0 ==> s[0] != '0'
    decreases n
  {
    if n < radix then [DigitFor(n)]
    else
      Smaller(n, radix);
      Digits(n / radix, radix) + [DigitFor(n % radix)]
  }

  lemma Smaller(n: nat, radix: nat)
    requires 2 <= radix <= n
    ensures 0 < n / radix < n
  {}

  function NumberValue(s: string, radix: nat): nat {
    if s == "" then 0 else NumberValue(s[..|s| - 1], radix) * radix + DigitValue(s[|s| - 1])
  }

  lemma {:induction false} DigitsHaveValue(n: nat, radix: nat)
    requires 2 <= radix <= 16
    ensures NumberValue(Digits(n, radix), radix) == n
    decreases n
  {
    var s := Digits(n, radix);
    if n < radix {
      assert s[..0] == "";
    } else {
      Smaller(n, radix);
      var front := Digits(n / radix, radix);
      DigitsHaveValue(n / radix, radix);
      assert s[..|s| - 1] == front;
      calc {
        NumberValue(s, radix);
        NumberValue(front, radix) * radix + n % radix;
        (n / radix) * radix + n % radix;
        { QuotientRemainder(n, radix); }
        n;
      }
    }
  }

  lemma QuotientRemainder(n: nat, radix: nat)
    requires radix > 0
    ensures (n / radix) * radix + n % radix == n
  {}

  function LeadingDigits(s: string, radix: nat): (n: nat)
    ensures n <= |s| && AllDigits(s[..n], radix)
    ensures n < |s| ==> !IsDigit(s[n], radix)
  {
    if s == "" || !IsDigit(s[0], radix) then 0
    else
      var n := 1 + LeadingDigits(s[1..], radix);
      assert forall i :: 1 <= i < n ==> s[..n][i] == s[1..][..n - 1][i - 1];
      n
  }

  lemma LeadingDigitsOf(s: string, t: string, radix: nat)
    requires AllDigits(s, radix) && (t == "" || !IsDigit(t[0], radix))
    ensures LeadingDigits(s + t, radix) == |s|
  {
    var n := LeadingDigits(s + t, radix);
    assert forall i :: 0 <= i < |s| ==> (s + t)[i] == s[i];
    assert forall i :: 0 <= i < n ==> (s + t)[..n][i] == (s + t)[i];
    assert t != "" ==> (s + t)[|s|] == t[0];
  }
}
