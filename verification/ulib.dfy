/**
 * The pieces of the C user library that the modelled programs lean on:
 * decimal digits, `atoi`, and an optional value.  The library's `atoi`
 * reads the longest run of decimal digits at the start of the string and
 * returns its value; it has no sign and skips no white space.
 */
module Ulib {

  /** A value that may be absent: a null pointer, a word that is refused. */
  datatype Option<T> = None | Some(value: T)

  predicate IsDigit(c: char) {
    '0' <= c <= '9'
  }

  predicate AllDigits(s: string) {
    forall i :: 0 <= i < |s| ==> IsDigit(s[i])
  }

  function DigitValue(c: char): (v: nat)
    requires IsDigit(c)
    ensures v < 10
  {
    c as int - '0' as int
  }

  /** The value of a string of decimal digits, most significant first. */
  function Decimal(s: string): nat
    requires AllDigits(s)
  {
    if s == [] then 0 else Decimal(s[..|s| - 1]) * 10 + DigitValue(s[|s| - 1])
  }

  /** Length of the run of digits at the start of `s`. */
  function DigitRun(s: string): (n: nat)
    ensures n <= |s| && AllDigits(s[..n])
    ensures n < |s| ==> !IsDigit(s[n])
  {
    if s == [] || !IsDigit(s[0]) then 0
    else
      var n := 1 + DigitRun(s[1..]);
      assert s[..n] == [s[0]] + s[1..][..n - 1];
      n
  }

  /**
   * `atoi`: the value of the leading digits.  A string of digits is read
   * whole, and the result is 0 exactly when the leading digits, if any, are
   * all '0'.
   */
  function Atoi(s: string): (r: nat)
    ensures AllDigits(s) ==> r == Decimal(s)
    ensures r == 0 <==> forall i :: 0 <= i < DigitRun(s) ==> s[i] == '0'
  {
    var d := s[..DigitRun(s)];
    assert AllDigits(s) ==> d == s;
    DecimalZero(d);
    Decimal(d)
  }

  /** A digit string is worth 0 exactly when every digit is '0'. */
  lemma {:induction false} DecimalZero(s: string)
    requires AllDigits(s)
    ensures Decimal(s) == 0 <==> forall i :: 0 <= i < |s| ==> s[i] == '0'
  {
    if s != [] {
      var init := s[..|s| - 1];
      DecimalZero(init);
      assert forall i :: 0 <= i < |init| ==> init[i] == s[i];
    }
  }
}
