/**
 * Unsigned 32-bit numerals: Rust's `u32::from_str_radix` (which `str::parse::<u32>`
 * calls with radix 10) and `u32::to_string`, for radixes up to 10.
 * The source parses octal chmod modes and decimal uid/gid fields with them,
 * and renders an unmatched uid/gid in decimal.
 */
module Numbers {
  import opened Wrappers

  const U32_LIMIT: nat := 0x1_0000_0000

  /** The values a Rust `u32` can hold. */
  type U32 = n: nat | n < U32_LIMIT

  /** The radixes this model covers: digits are '0' up to '0' + radix - 1. */
  type Radix = r: nat | 2 <= r <= 10 witness 10

  /** `c` is a digit of `radix` (Rust's `char::to_digit(radix).is_some()`). */
  predicate IsDigit(c: char, radix: Radix) {
    '0' <= c && (c as int) < ('0' as int) + radix
  }

  predicate AllDigits(s: string, radix: Radix) {
    forall i :: 0 <= i < |s| ==> IsDigit(s[i], radix)
  }

  function DigitValue(c: char, radix: Radix): (d: nat)
    requires IsDigit(c, radix)
    ensures d < radix
  {
    (c as int) - ('0' as int)
  }

  function DigitChar(d: nat, radix: Radix): (c: char)
    requires d < radix
    ensures IsDigit(c, radix) && DigitValue(c, radix) == d
  {
    (('0' as int) + d) as char
  }

  /** The mathematical value of a digit string read most-significant first,
      continuing from an already-read value `acc`. */
  function Horner(acc: nat, digits: string, radix: Radix): nat
    requires AllDigits(digits, radix)
    decreases |digits|
  {
    if |digits| == 0 then acc
    else Horner(acc * radix + DigitValue(digits[0], radix), digits[1..], radix)
  }

  /** The digit loop of `from_str_radix`: each step multiplies and adds with
      overflow checks, and fails on the first non-digit or overflow. */
  function Accumulate(acc: U32, digits: string, radix: Radix): (r: Option<U32>)
    ensures r.Some? ==> AllDigits(digits, radix) && r.value >= acc
    decreases |digits|
  {
    if |digits| == 0 then Some(acc)
    else if !IsDigit(digits[0], radix) then None
    else
      var next := acc * radix + DigitValue(digits[0], radix);
      if next >= U32_LIMIT then None
      else
        ScaleAtLeast(acc, radix);
        assert forall i :: 1 <= i < |digits| ==> digits[i] == digits[1..][i - 1];
        Accumulate(next, digits[1..], radix)
  }

  /** The digits `from_str_radix` reads: the text after one optional leading '+'. */
  function Digits(s: string): string {
    if |s| > 0 && s[0] == '+' then s[1..] else s
  }

  /** What `from_str_radix` accepts: an optional '+' and one or more digits. */
  predicate IsNumeral(s: string, radix: Radix) {
    |Digits(s)| > 0 && AllDigits(Digits(s), radix)
  }

  /** `u32::from_str_radix(s, radix)`, with every error kind collapsed into
      `None`. A u32 takes no sign other than one leading '+'. */
  function ParseU32(s: string, radix: Radix): (r: Option<U32>)
    ensures r.Some? ==> IsNumeral(s, radix)
    ensures |s| > 0 && s[0] == '-' ==> r == None
  {
    if |s| == 0 then None
    else
      var digits := Digits(s);
      if |digits| == 0 then None else Accumulate(0, digits, radix)
  }

  /** The digits of `n` without leading zeros ("0" for zero), as `to_string` prints them. */
  function Render(n: nat, radix: Radix): (s: string)
    ensures |s| > 0 && AllDigits(s, radix)
    ensures n == 0 ==> s == "0"
    ensures n > 0 ==> s[0] != '0'
    decreases n
  {
    if n < radix then [DigitChar(n, radix)]
    else Render(n / radix, radix) + [DigitChar(n % radix, radix)]
  }

  /** The checked loop succeeds exactly when every character is a digit and the
      value never leaves the u32 range, and then returns that value. */
  lemma {:induction false} AccumulateIsHorner(acc: U32, digits: string, radix: Radix)
    ensures Accumulate(acc, digits, radix).Some? <==>
              AllDigits(digits, radix) && Horner(acc, digits, radix) < U32_LIMIT
    ensures Accumulate(acc, digits, radix).Some? ==>
              Accumulate(acc, digits, radix).value == Horner(acc, digits, radix)
    decreases |digits|
  {
    if |digits| > 0 {
      var rest := digits[1..];
      assert forall i :: 0 <= i < |rest| ==> rest[i] == digits[i + 1];
      if IsDigit(digits[0], radix) {
        var next := acc * radix + DigitValue(digits[0], radix);
        if next < U32_LIMIT {
          AccumulateIsHorner(next, rest, radix);
        } else if AllDigits(digits, radix) {
          HornerAtLeast(next, rest, radix);
        }
      }
    }
  }

  /** Reading more digits never makes the value smaller. */
  lemma {:induction false} HornerAtLeast(acc: nat, digits: string, radix: Radix)
    requires AllDigits(digits, radix)
    ensures Horner(acc, digits, radix) >= acc
    decreases |digits|
  {
    if |digits| > 0 {
      var next := acc * radix + DigitValue(digits[0], radix);
      ScaleAtLeast(acc, radix);
      AllDigitsTail(digits, radix);
      HornerAtLeast(next, digits[1..], radix);
    }
  }

  /** Multiplying by a radix does not make a value smaller. */
  lemma ScaleAtLeast(acc: nat, radix: Radix)
    ensures acc * radix >= acc
  {
    assert acc * radix == acc + acc * (radix - 1);
  }

  /** Dropping the first character of a digit string leaves a digit string. */
  lemma AllDigitsTail(digits: string, radix: Radix)
    requires |digits| > 0 && AllDigits(digits, radix)
    ensures AllDigits(digits[1..], radix)
  {
    forall i | 0 <= i < |digits[1..]| ensures IsDigit(digits[1..][i], radix) {
      assert digits[1..][i] == digits[i + 1];
    }
  }

  /** Appending one digit multiplies the value by the radix and adds the digit. */
  lemma {:induction false} HornerSnoc(acc: nat, digits: string, c: char, radix: Radix)
    requires AllDigits(digits, radix) && IsDigit(c, radix)
    ensures AllDigits(digits + [c], radix)
    ensures Horner(acc, digits + [c], radix) == Horner(acc, digits, radix) * radix + DigitValue(c, radix)
    decreases |digits|
  {
    var s := digits + [c];
    assert forall i :: 0 <= i < |s| ==> IsDigit(s[i], radix) by {
      forall i | 0 <= i < |s| ensures IsDigit(s[i], radix) {
        if i < |digits| { assert s[i] == digits[i]; }
      }
    }
    if |digits| > 0 {
      assert s[1..] == digits[1..] + [c];
      AllDigitsTail(digits, radix);
      HornerSnoc(acc * radix + DigitValue(digits[0], radix), digits[1..], c, radix);
    } else {
      assert s[1..] == [];
    }
  }

  /** The rendered digits read back as `n`. */
  lemma {:induction false} RenderValue(n: nat, radix: Radix)
    ensures Horner(0, Render(n, radix), radix) == n
    decreases n
  {
    if n < radix {
      assert Render(n, radix)[1..] == [];
    } else {
      RenderValue(n / radix, radix);
      HornerSnoc(0, Render(n / radix, radix), DigitChar(n % radix, radix), radix);
    }
  }

  /** `from_str_radix` succeeds exactly on numerals whose value fits in a u32,
      and then yields that value; a bad digit, missing digits or an overflow fail. */
  lemma ParseU32Spec(s: string, radix: Radix)
    ensures ParseU32(s, radix).Some? <==>
              IsNumeral(s, radix) && Horner(0, Digits(s), radix) < U32_LIMIT
    ensures ParseU32(s, radix).Some? ==> ParseU32(s, radix).value == Horner(0, Digits(s), radix)
  {
    if |Digits(s)| > 0 {
      AccumulateIsHorner(0, Digits(s), radix);
    }
  }

  /** Parsing what `to_string` printed gives the number back. */
  lemma ParseRender(n: U32, radix: Radix)
    ensures ParseU32(Render(n, radix), radix) == Some(n)
  {
    var s := Render(n, radix);
    assert s[0] != '+' by { assert IsDigit(s[0], radix); }
    RenderValue(n, radix);
    AccumulateIsHorner(0, s, radix);
  }

  /** A value of 2^32 or more is rejected however it is written. */
  lemma ParseRejectsOverflow(n: nat, radix: Radix)
    requires n >= U32_LIMIT
    ensures ParseU32(Render(n, radix), radix) == None
  {
    var s := Render(n, radix);
    assert s[0] != '+' by { assert IsDigit(s[0], radix); }
    RenderValue(n, radix);
    AccumulateIsHorner(0, s, radix);
  }
}
