/**
 * The batch number of the configuration, rendered with `'{0:02d}'.format`
 * (vcfs_to_aspera.py:30): decimal, zero-padded to a width of two, the
 * sign counting toward the width.
 */
module BatchName {

  predicate IsDigit(c: char)
  {
    '0' <= c <= '9'
  }

  function DigitChar(d: nat): (c: char)
    requires d < 10
    ensures IsDigit(c)
  {
    ('0' as int + d) as char
  }

  function DigitValue(c: char): nat
    requires IsDigit(c)
  {
    c as int - '0' as int
  }

  /** `str(n)` for a natural number: its digits, most significant first. */
  function Digits(n: nat): (s: string)
    ensures 1 <= |s| && forall i :: 0 <= i < |s| ==> IsDigit(s[i])
    ensures n >= 1 ==> s[0] != '0'
    ensures n >= 10 ==> |s| >= 2
    ensures n < 10 ==> |s| == 1
  {
    if n < 10 then [DigitChar(n)] else Digits(n / 10) + [DigitChar(n % 10)]
  }

  /** `'{0:02d}'.format(n)`. */
  function FormatBatch(n: int): (s: string)
    ensures |s| >= 2
    ensures 0 <= n < 100 ==> |s| == 2
    ensures n >= 0 <==> forall i :: 0 <= i < |s| ==> IsDigit(s[i])
    ensures n >= 10 ==> s[0] != '0'
    ensures n < 0 ==> s[0] == '-' && s[1] != '0'
  {
    if n < 0 then
      var s := "-" + Digits(-n);
      assert !IsDigit(s[0]);
      s
    else if n < 10 then "0" + Digits(n)
    else Digits(n)
  }

  /** The value of a string of decimal digits (leading zeros allowed). */
  function ParseDigits(s: string): nat
    requires forall i :: 0 <= i < |s| ==> IsDigit(s[i])
  {
    if s == [] then 0 else ParseDigits(s[..|s| - 1]) * 10 + DigitValue(s[|s| - 1])
  }

  /** `int(s)` on an optionally signed string of decimal digits. */
  function ParseInt(s: string): int
    requires s != [] && (s[0] == '-' || IsDigit(s[0]))
    requires forall i :: 1 <= i < |s| ==> IsDigit(s[i])
  {
    if s[0] == '-' then -(ParseDigits(s[1..]) as int) else ParseDigits(s)
  }

  lemma {:induction false} DigitsRoundTrip(n: nat)
    ensures ParseDigits(Digits(n)) == n
    decreases n
  {
    if n >= 10 {
      var d := Digits(n);
      assert d[..|d| - 1] == Digits(n / 10);
      DigitsRoundTrip(n / 10);
    }
  }

  /** Reading the formatted batch number back gives the number. */
  lemma BatchRoundTrip(n: int)
    ensures var s := FormatBatch(n);
      && (s[0] == '-' || IsDigit(s[0]))
      && (forall i :: 1 <= i < |s| ==> IsDigit(s[i]))
      && ParseInt(s) == n
  {
    var s := FormatBatch(n);
    if n < 0 {
      assert s[1..] == Digits(-n);
      DigitsRoundTrip(-n);
    } else if n < 10 {
      assert s[..1] == "0" && s[..1][..0] == [];
      assert ParseDigits(s[..1]) == 0;
      DigitsRoundTrip(n);
    } else {
      DigitsRoundTrip(n);
    }
  }

  /** Two batch numbers that format alike are equal. */
  lemma FormatBatchInjective(m: int, n: int)
    requires FormatBatch(m) == FormatBatch(n)
    ensures m == n
  {
    BatchRoundTrip(m);
    BatchRoundTrip(n);
  }
}
