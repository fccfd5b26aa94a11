/** Decimal text of integers, as the in-memory store keeps counters:
    `str(int(s) + 1)`. Only the plain form is accepted by ParseInt (an
    optional sign, then ASCII digits). */
module IntText {
  import opened Results

  predicate IsDigit(c: char) { '0' <= c <= '9' }

  predicate AllDigits(s: string) {
    forall i :: 0 <= i < |s| ==> IsDigit(s[i])
  }

  function DigitValue(c: char): nat
    requires IsDigit(c)
  {
    c as int - '0' as int
  }

  function DigitChar(d: nat): (c: char)
    requires d < 10
    ensures IsDigit(c) && DigitValue(c) == d
  {
    ('0' as int + d) as char
  }

  /** The value of a string of digits, most significant first. */
  function DigitsValue(s: string): nat
    requires AllDigits(s)
    decreases |s|
  {
    if s == [] then 0 else 10 * DigitsValue(s[..|s| - 1]) + DigitValue(s[|s| - 1])
  }

  /** `int(s)`: ValueError unless s is a sign-prefixed or bare run of digits. */
  function ParseInt(s: string): Result<int> {
    if |s| > 0 && (s[0] == '-' || s[0] == '+') then
      var digits := s[1..];
      if digits != [] && AllDigits(digits) then
        var magnitude: int := DigitsValue(digits);
        Ok(if s[0] == '-' then -magnitude else magnitude)
      else Err(ValueError)
    else if s != [] && AllDigits(s) then Ok(DigitsValue(s))
    else Err(ValueError)
  }

  /** `str(n)` for n >= 0: decimal digits, no leading zero. */
  function ShowNat(n: nat): (s: string)
    ensures s != [] && AllDigits(s)
    ensures s[0] == '0' ==> n == 0
    decreases n
  {
    if n < 10 then [DigitChar(n)] else ShowNat(n / 10) + [DigitChar(n % 10)]
  }

  /** `str(n)`. */
  function ShowInt(n: int): string {
    if n < 0 then "-" + ShowNat(-n) else ShowNat(n)
  }

  lemma {:induction false} ShowNatValue(n: nat)
    ensures DigitsValue(ShowNat(n)) == n
    decreases n
  {
    if n >= 10 {
      ShowNatValue(n / 10);
      var s := ShowNat(n);
      assert s[..|s| - 1] == ShowNat(n / 10);
    }
  }

  /** Reading back what `str` wrote gives the same integer. */
  lemma ParseShow(n: int)
    ensures ParseInt(ShowInt(n)) == Ok(n)
  {
    var s := ShowInt(n);
    if n < 0 {
      var digits := ShowNat(-n);
      ShowNatValue(-n);
      assert s == "-" + digits;
      assert s[0] == '-' && s[1..] == digits;
    } else {
      ShowNatValue(n);
      assert IsDigit(s[0]);
    }
  }

  /** `str(int(s) + 1)`. */
  function Incremented(s: string): Result<string> {
    var n :- ParseInt(s);
    Ok(ShowInt(n + 1))
  }

  /** Incrementing the text of n gives the text of n + 1. */
  lemma IncrementShown(n: int)
    ensures Incremented(ShowInt(n)) == Ok(ShowInt(n + 1))
  {
    ParseShow(n);
  }
}
