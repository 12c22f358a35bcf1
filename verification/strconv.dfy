/**
 * strconv.Itoa on the non-negative indices the applier renders as child
 * keys, and the decimal reading that inverts it. The inverse is what shows
 * that distinct tuple positions never share a child key.
 */
module Strconv {

  predicate IsDigit(c: char) { '0' <= c <= '9' }

  function DigitChar(n: nat): (c: char)
    requires n < 10
    ensures IsDigit(c)
  {
    (48 + n) as char
  }

  function DigitValue(c: char): (n: nat)
    requires IsDigit(c)
    ensures n < 10
  {
    (c as int) - 48
  }

  /** The decimal rendering of `n`, most significant digit first, no leading zero. */
  function Itoa(n: nat): (s: string)
    ensures 1 <= |s|
    ensures forall i :: 0 <= i < |s| ==> IsDigit(s[i])
    ensures 1 < |s| ==> s[0] != '0'
  {
    if n < 10 then [DigitChar(n)] else Itoa(n / 10) + [DigitChar(n % 10)]
  }

  /** Reads a string of decimal digits back as a number. */
  function Atoi(s: string): nat
    requires forall i :: 0 <= i < |s| ==> IsDigit(s[i])
  {
    if |s| == 0 then 0 else 10 * Atoi(s[..|s| - 1]) + DigitValue(s[|s| - 1])
  }

  lemma {:induction false} AtoiItoa(n: nat)
    ensures Atoi(Itoa(n)) == n
  {
    var s := Itoa(n);
    if n >= 10 {
      AtoiItoa(n / 10);
      assert s[..|s| - 1] == Itoa(n / 10);
    }
  }

  /** Distinct indices render as distinct keys. */
  lemma ItoaInjective(m: nat, n: nat)
    ensures Itoa(m) == Itoa(n) ==> m == n
  {
    AtoiItoa(m);
    AtoiItoa(n);
  }
}
