/**
 * Decimal integers as Rust's `i32::from_str_radix(s, 10)` reads them: an
 * optional `+` or `-`, then one or more ASCII digits, accumulated left to
 * right with the overflow checked at every digit.
 */
module Decimal {
  import opened Wrappers

  const I32_MIN: int := -0x8000_0000
  const I32_MAX: int := 0x7fff_ffff
  const I64_MIN: int := -0x8000_0000_0000_0000
  const I64_MAX: int := 0x7fff_ffff_ffff_ffff

  /** Rust's `i32`. */
  type Int32 = x: int | I32_MIN <= x <= I32_MAX

  /** The kinds of Rust's `ParseIntError`. */
  datatype IntErrorKind = Empty | InvalidDigit | PosOverflow | NegOverflow

  predicate IsDigit(c: char)
  {
    '0' <= c <= '9'
  }

  function DigitValue(c: char): (d: nat)
    requires IsDigit(c)
    ensures d <= 9
  {
    (c as int) - ('0' as int)
  }

  function DigitChar(d: nat): (c: char)
    requires d <= 9
    ensures IsDigit(c) && DigitValue(c) == d
  {
    ('0' as int + d) as char
  }

  /** `i32::from_str_radix(s, 10)`. */
  function ParseInt32(s: string): (r: Result<Int32, IntErrorKind>)
    ensures r == Err(Empty) <==> s == []
  {
    if s == [] then Err(Empty)
    else if s == "+" || s == "-" then Err(InvalidDigit)
    else if s[0] == '+' then Accumulate(s[1..], 0, true)
    else if s[0] == '-' then Accumulate(s[1..], 0, false)
    else Accumulate(s, 0, true)
  }

  /**
   * The digit loop: `acc` is the value of the digits read so far, with
   * the sign already applied; each new digit is multiplied in and
   * checked against the bounds of `i32`.
   */
  function Accumulate(ds: string, acc: Int32, positive: bool): (r: Result<Int32, IntErrorKind>)
    requires positive ==> acc >= 0
    requires !positive ==> acc <= 0
    ensures r != Err(Empty)
    ensures r.Err? && r.error.PosOverflow? ==> positive
    ensures r.Err? && r.error.NegOverflow? ==> !positive
    decreases |ds|
  {
    if ds == [] then Ok(acc)
    else if !IsDigit(ds[0]) then Err(InvalidDigit)
    else
      var next := if positive then acc * 10 + DigitValue(ds[0]) else acc * 10 - DigitValue(ds[0]);
      if next > I32_MAX then Err(PosOverflow)
      else if next < I32_MIN then Err(NegOverflow)
      else Accumulate(ds[1..], next, positive)
  }

  // ---------------------------------------------------------------------
  // Reference definition of a decimal numeral and its value

  ghost predicate AllDigits(s: string)
  {
    forall i :: 0 <= i < |s| ==> IsDigit(s[i])
  }

  /** Value of a digit string, read most significant digit first. */
  function DigitsValue(ds: string): nat
    requires AllDigits(ds)
  {
    if ds == [] then 0 else DigitsValue(ds[..|ds| - 1]) * 10 + DigitValue(ds[|ds| - 1])
  }

  /** The digits after an optional leading sign. */
  function Magnitude(s: string): string
  {
    if s != [] && (s[0] == '+' || s[0] == '-') then s[1..] else s
  }

  /** An optional sign followed by at least one digit. */
  ghost predicate IsDecimal(s: string)
  {
    Magnitude(s) != [] && AllDigits(Magnitude(s))
  }

  ghost function DecimalValue(s: string): int
    requires IsDecimal(s)
  {
    if s[0] == '-' then -(DigitsValue(Magnitude(s)) as int) else DigitsValue(Magnitude(s))
  }

  lemma {:induction false} DigitsValuePrefix(ds: string, i: nat)
    requires AllDigits(ds) && i < |ds|
    ensures AllDigits(ds[..i]) && AllDigits(ds[..i + 1])
    ensures DigitsValue(ds[..i + 1]) == DigitsValue(ds[..i]) * 10 + DigitValue(ds[i])
  {
    assert ds[..i + 1][..i] == ds[..i];
  }

  /** A longer prefix of a digit string never has a smaller value. */
  lemma {:induction false} DigitsValueMonotone(ds: string, i: nat)
    requires AllDigits(ds) && i <= |ds|
    ensures AllDigits(ds[..i]) && DigitsValue(ds[..i]) <= DigitsValue(ds)
    decreases |ds| - i
  {
    if i < |ds| {
      DigitsValuePrefix(ds, i);
      DigitsValueMonotone(ds, i + 1);
    } else {
      assert ds[..i] == ds;
    }
  }

  function Signed(positive: bool, n: nat): int
  {
    if positive then n else -(n as int)
  }

  /**
   * The digit loop started after the first i digits agrees with the
   * reference value of the whole digit string.
   */
  lemma {:induction false} AccumulateCorrect(ds: string, i: nat, positive: bool)
    requires i <= |ds| && AllDigits(ds[..i])
    requires I32_MIN <= Signed(positive, DigitsValue(ds[..i])) <= I32_MAX
    ensures var r := Accumulate(ds[i..], Signed(positive, DigitsValue(ds[..i])), positive);
      (r.Ok? <==> AllDigits(ds) && I32_MIN <= Signed(positive, DigitsValue(ds)) <= I32_MAX)
      && (r.Ok? ==> r.value == Signed(positive, DigitsValue(ds)))
    decreases |ds| - i
  {
    var acc := Signed(positive, DigitsValue(ds[..i]));
    if i == |ds| {
      assert ds[..i] == ds;
    } else {
      assert ds[i..][0] == ds[i];
      assert ds[i..][1..] == ds[i + 1..];
      if !IsDigit(ds[i]) {
      } else {
        assert AllDigits(ds[..i + 1]) by {
          assert forall j :: 0 <= j < i + 1 ==> ds[..i + 1][j] == ds[j];
          assert forall j :: 0 <= j < i ==> ds[..i][j] == ds[j];
        }
        assert ds[..i + 1][..i] == ds[..i];
        var next := Signed(positive, DigitsValue(ds[..i + 1]));
        if AllDigits(ds) {
          DigitsValueMonotone(ds, i + 1);
        }
        if I32_MIN <= next <= I32_MAX {
          AccumulateCorrect(ds, i + 1, positive);
        }
      }
    }
  }

  /** The parser accepts exactly the decimal numerals whose value fits `i32`, with that value. */
  lemma ParseInt32Correct(s: string)
    ensures ParseInt32(s).Ok? <==> IsDecimal(s) && I32_MIN <= DecimalValue(s) <= I32_MAX
    ensures ParseInt32(s).Ok? ==> ParseInt32(s).value == DecimalValue(s)
  {
    if s != [] && s != "+" && s != "-" {
      var ds := Magnitude(s);
      assert ds[..0] == [];
      assert ds[0..] == ds;
      AccumulateCorrect(ds, 0, s[0] != '-');
    }
  }

  // ---------------------------------------------------------------------
  // Formatting, the inverse of parsing

  /** Decimal digits of `n`, without leading zeros. */
  function FormatNat(n: nat): string
  {
    if n < 10 then [DigitChar(n)] else FormatNat(n / 10) + [DigitChar(n % 10)]
  }

  /** `n.to_string()`. */
  function FormatInt(n: int): string
  {
    if n < 0 then "-" + FormatNat(-n) else FormatNat(n)
  }

  lemma {:induction false} FormatNatCorrect(n: nat)
    ensures FormatNat(n) != [] && AllDigits(FormatNat(n))
    ensures DigitsValue(FormatNat(n)) == n
  {
    var s := FormatNat(n);
    if n >= 10 {
      FormatNatCorrect(n / 10);
      assert s[..|s| - 1] == FormatNat(n / 10);
    }
  }

  /** A formatted number has no comma and no newline in it. */
  lemma FormatIntHasNoSeparator(n: int, c: char)
    requires !IsDigit(c) && c != '-'
    ensures c !in FormatInt(n)
  {
    FormatNatCorrect(if n < 0 then -n else n);
  }

  /** Parsing undoes formatting for every `i32`. */
  lemma ParseFormatInt(n: Int32)
    ensures ParseInt32(FormatInt(n)) == Ok(n)
  {
    var s := FormatInt(n);
    var m: nat := if n < 0 then -(n as int) else n;
    FormatNatCorrect(m);
    assert IsDigit(FormatNat(m)[0]);
    assert Magnitude(s) == FormatNat(m);
    ParseInt32Correct(s);
  }
}
