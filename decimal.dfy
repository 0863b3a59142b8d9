/**
  Chunk names: `usize::to_string` writes an ordinal in decimal, and
  `str::parse::<usize>` reads a file name back as an ordinal.
*/
module Decimal {
  import opened Wrappers

  /** One more than `usize::MAX` on a 64-bit target. */
  const USIZE_LIMIT: nat := 0x1_0000_0000_0000_0000

  predicate IsDigit(c: char) {
    '0' <= c <= '9'
  }

  predicate AllDigits(s: string) {
    forall i :: 0 <= i < |s| ==> IsDigit(s[i])
  }

  function DigitChar(d: nat): (c: char)
    requires d < 10
    ensures IsDigit(c)
  {
    ('0' as int + d) as char
  }

  function DigitValue(c: char): (d: nat)
    requires IsDigit(c)
    ensures d < 10
  {
    c as int - '0' as int
  }

  /** `n.to_string()`: the decimal digits of `n`, most significant first. */
  function ToDecimal(n: nat): (s: string)
    ensures |s| > 0 && AllDigits(s)
    ensures |s| > 1 ==> s[0] != '0'
  {
    if n < 10 then [DigitChar(n)] else ToDecimal(n / 10) + [DigitChar(n % 10)]
  }

  /** The number a string of decimal digits denotes (leading zeros allowed). */
  function DigitsValue(s: string): nat
    requires AllDigits(s)
  {
    if s == [] then 0 else DigitsValue(s[..|s| - 1]) * 10 + DigitValue(s[|s| - 1])
  }

  /**
    `s.parse::<usize>()`: an optional leading `+`, then at least one decimal
    digit and nothing else, denoting a value that fits in a `usize`.
  */
  function ParseUsize(s: string): (r: Option<nat>)
    ensures r.Some? ==> r.value < USIZE_LIMIT
  {
    var digits := if |s| > 0 && s[0] == '+' then s[1..] else s;
    if |digits| > 0 && AllDigits(digits) && DigitsValue(digits) < USIZE_LIMIT
    then Some(DigitsValue(digits))
    else None
  }

  lemma {:induction false} DigitsValueOfDecimal(n: nat)
    ensures DigitsValue(ToDecimal(n)) == n
  {
    if n >= 10 {
      var s := ToDecimal(n);
      assert s[..|s| - 1] == ToDecimal(n / 10);
      DigitsValueOfDecimal(n / 10);
    }
  }

  /** Reading back a chunk name gives the ordinal it was written for. */
  lemma ParseDecimal(n: nat)
    requires n < USIZE_LIMIT
    ensures ParseUsize(ToDecimal(n)) == Some(n)
  {
    DigitsValueOfDecimal(n);
  }

  /** Distinct ordinals get distinct chunk names. */
  lemma DecimalInjective(a: nat, b: nat)
    ensures ToDecimal(a) == ToDecimal(b) ==> a == b
  {
    DigitsValueOfDecimal(a);
    DigitsValueOfDecimal(b);
  }

  /**
    The names merge sorts are compared as numbers: "10" comes after "9" even
    though it is the smaller string, and "007" and "+7" name ordinal 7.
  */
  lemma NumericNames()
    ensures ParseUsize("9") == Some(9) && ParseUsize("10") == Some(10)
    ensures "10"[0] < "9"[0]
    ensures ParseUsize("007") == Some(7) && ParseUsize("+7") == Some(7)
    ensures ParseUsize("") == None && ParseUsize("+") == None && ParseUsize("-1") == None
  {
    assert "10"[..1] == "1";
    assert "007"[..2] == "00" && "00"[..1] == "0";
    assert "+7"[1..] == "7";
    assert !IsDigit("-1"[0]);
  }
}
