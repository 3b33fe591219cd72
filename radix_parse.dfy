/**
 * `u32::from_str_radix` from Rust's standard library, which the application calls
 * with radix 2 and 16: an optional leading `+`, then digits folded left to right
 * with checked multiplication and addition; the first failing character decides
 * the error.
 */
module RadixParse {
  import opened Wrappers

  /** The kinds of `ParseIntError` an unsigned parse can report. */
  datatype IntErrorKind = Empty | InvalidDigit | PosOverflow

  const U32_MAX: nat := 0xFFFF_FFFF

  /** The values of Rust's `u32`. */
  type U32 = n: nat | n <= U32_MAX

  /** `from_str_radix` panics outside 2..36. */
  type Radix = r: nat | 2 <= r <= 36 witness 2

  /** `char::to_digit`: decimal digits, then letters of either case from 10 up. */
  function ToDigit(c: char, radix: Radix): (d: Option<nat>)
    ensures d.Some? ==> d.value < radix
    ensures d == Some(0) <==> c == '0'
  {
    var v: int :=
      if '0' <= c <= '9' then c as int - '0' as int
      else if 'a' <= c <= 'z' then c as int - 'a' as int + 10
      else if 'A' <= c <= 'Z' then c as int - 'A' as int + 10
      else radix;
    if v < radix then Some(v) else None
  }

  predicate IsDigit(c: char, radix: Radix) {
    ToDigit(c, radix).Some?
  }

  predicate AllDigits(d: string, radix: Radix) {
    forall i | 0 <= i < |d| :: IsDigit(d[i], radix)
  }

  /** The accumulator after one more digit. */
  function Shift(acc: nat, radix: Radix, x: nat): nat {
    acc * radix + x
  }

  /** The number a string of digits denotes, most significant digit first. */
  function Value(d: string, radix: Radix): nat
    requires AllDigits(d, radix)
    decreases |d|
  {
    if d == [] then 0
    else Shift(Value(d[..|d| - 1], radix), radix, ToDigit(d[|d| - 1], radix).value)
  }

  function Pow(b: nat, k: nat): nat {
    if k == 0 then 1 else b * Pow(b, k - 1)
  }

  /** The digit loop of `from_str_radix`: left to right, an invalid digit fails with
      InvalidDigit, a step past `u32::MAX` with PosOverflow, and the earliest failure wins. */
  function CheckedFold(d: string, radix: Radix): (r: Result<nat, IntErrorKind>)
    ensures r.Ok? ==> r.value <= U32_MAX
    ensures r != Err(Empty)
    decreases |d|
  {
    if d == [] then Ok(0)
    else
      match CheckedFold(d[..|d| - 1], radix)
      case Err(e) => Err(e)
      case Ok(acc) =>
        match ToDigit(d[|d| - 1], radix)
        case None => Err(InvalidDigit)
        case Some(x) =>
          var next := Shift(acc, radix, x);
          if next > U32_MAX then Err(PosOverflow) else Ok(next)
  }

  /** One step of the digit loop: accepting digit `c` after the digits `p`. */
  lemma CheckedFoldDigit(p: string, c: char, radix: Radix, acc: nat, x: nat, v: nat)
    requires CheckedFold(p, radix) == Ok(acc) && ToDigit(c, radix) == Some(x)
    requires v == acc * radix + x <= U32_MAX
    ensures CheckedFold(p + [c], radix) == Ok(v)
  {
    var d := p + [c];
    assert d[..|d| - 1] == p;
  }

  /** The digits after an optional leading `+`. */
  function Unsigned(src: string): (digits: string)
    ensures digits == src || (src != [] && src[0] == '+' && digits == src[1..])
  {
    if src != [] && src[0] == '+' then src[1..] else src
  }

  /** A string `from_str_radix` accepts when its value fits. */
  predicate IsNumeral(src: string, radix: Radix) {
    Unsigned(src) != [] && AllDigits(Unsigned(src), radix)
  }

  /** `u32::from_str_radix(src, radix)`. A lone sign is an invalid digit. */
  function FromStrRadix(src: string, radix: Radix): (r: Result<U32, IntErrorKind>)
    ensures r == Err(Empty) <==> src == []
    ensures r.Ok? ==> IsNumeral(src, radix)
  {
    if src == [] then Err(Empty)
    else if |src| == 1 && (src[0] == '+' || src[0] == '-') then Err(InvalidDigit)
    else
      CheckedFoldValue(Unsigned(src), radix);
      match CheckedFold(Unsigned(src), radix)
      case Ok(v) => Ok(v)
      case Err(e) => Err(e)
  }

  /** The checked fold succeeds exactly when every character is a digit and the
      whole value fits in 32 bits, and then it yields that value. */
  lemma {:induction false} CheckedFoldValue(d: string, radix: Radix)
    ensures CheckedFold(d, radix).Ok? <==> AllDigits(d, radix) && Value(d, radix) <= U32_MAX
    ensures CheckedFold(d, radix).Ok? ==> AllDigits(d, radix) && CheckedFold(d, radix).value == Value(d, radix)
    decreases |d|
  {
    if d != [] {
      var p, c := d[..|d| - 1], d[|d| - 1];
      CheckedFoldValue(p, radix);
      assert forall i | 0 <= i < |p| :: p[i] == d[i];
      assert d == p + [c];
      if AllDigits(d, radix) {
        assert AllDigits(p, radix) && IsDigit(c, radix);
        ValueFoldGrows(p, c, radix);
      } else if AllDigits(p, radix) {
        assert !IsDigit(c, radix);
      }
    }
  }

  /** A fold over digits only can fail by overflow alone. */
  lemma {:induction false} CheckedFoldDigitsOnly(d: string, radix: Radix)
    requires AllDigits(d, radix)
    ensures CheckedFold(d, radix) != Err(InvalidDigit)
    decreases |d|
  {
    if d != [] {
      assert AllDigits(d[..|d| - 1], radix);
      CheckedFoldDigitsOnly(d[..|d| - 1], radix);
    }
  }

  /** The first character that is not a digit, reached while the digits before it
      still fit, makes the loop fail with InvalidDigit. */
  lemma {:induction false} CheckedFoldInvalidAt(d: string, radix: Radix, i: nat)
    requires i < |d| && AllDigits(d[..i], radix) && Value(d[..i], radix) <= U32_MAX
    requires !IsDigit(d[i], radix)
    ensures CheckedFold(d, radix) == Err(InvalidDigit)
    decreases |d|
  {
    var p := d[..|d| - 1];
    if i == |d| - 1 {
      assert p == d[..i];
      CheckedFoldValue(p, radix);
    } else {
      assert p[..i] == d[..i];
      CheckedFoldInvalidAt(p, radix, i);
    }
  }

  /** Digits whose value no longer fits make the loop fail with PosOverflow,
      whatever follows them. */
  lemma {:induction false} CheckedFoldOverflowAt(d: string, radix: Radix, i: nat)
    requires i <= |d| && AllDigits(d[..i], radix) && Value(d[..i], radix) > U32_MAX
    ensures CheckedFold(d, radix) == Err(PosOverflow)
    decreases |d|
  {
    if i == |d| {
      assert d[..i] == d;
      CheckedFoldValue(d, radix);
      CheckedFoldDigitsOnly(d, radix);
      var e := CheckedFold(d, radix).error;
      assert e != Empty && e != InvalidDigit;
    } else {
      var p := d[..|d| - 1];
      assert p[..i] == d[..i];
      CheckedFoldOverflowAt(p, radix, i);
      assert CheckedFold(d, radix) == Err(PosOverflow);
    }
  }

  /** Appending a digit never lowers the value. */
  lemma ValueFoldGrows(p: string, c: char, radix: Radix)
    requires AllDigits(p, radix) && IsDigit(c, radix)
    ensures AllDigits(p + [c], radix)
    ensures Value(p + [c], radix) == Value(p, radix) * radix + ToDigit(c, radix).value
    ensures Value(p, radix) <= Value(p + [c], radix)
  {
    var d := p + [c];
    assert forall i | 0 <= i < |p| :: d[i] == p[i];
    assert d[..|d| - 1] == p;
    var v, x := Value(p, radix), ToDigit(c, radix).value;
    assert Value(d, radix) == v * radix + x;
    MulMonotone(1, radix, v);
  }

  /** The outcome of `from_str_radix`: Empty exactly for the empty string; success
      exactly for a well-formed numeral whose value fits, yielding that value. */
  lemma FromStrRadixSpec(src: string, radix: Radix)
    ensures FromStrRadix(src, radix) == Err(Empty) <==> src == []
    ensures FromStrRadix(src, radix).Ok? <==>
      IsNumeral(src, radix) && Value(Unsigned(src), radix) <= U32_MAX
    ensures FromStrRadix(src, radix).Ok? ==>
      IsNumeral(src, radix) && FromStrRadix(src, radix).value == Value(Unsigned(src), radix)
  {
    var digits := Unsigned(src);
    CheckedFoldValue(digits, radix);
    if src == [] {
    } else if |src| == 1 && (src[0] == '+' || src[0] == '-') {
      assert !IsDigit(src[0], radix);
      assert !IsNumeral(src, radix);
    } else {
      assert digits != [];
      FromStrRadixFold(src, radix);
    }
  }

  /** FromStrRadix once the empty text and the lone sign are ruled out. */
  lemma FromStrRadixFold(src: string, radix: Radix)
    requires src != [] && !(|src| == 1 && (src[0] == '+' || src[0] == '-'))
    ensures Unsigned(src) != []
    ensures CheckedFold(Unsigned(src), radix).Ok? ==>
      FromStrRadix(src, radix) == Ok(CheckedFold(Unsigned(src), radix).value)
    ensures CheckedFold(Unsigned(src), radix).Err? ==>
      FromStrRadix(src, radix) == Err(CheckedFold(Unsigned(src), radix).error)
  {
  }

  /** Unsigned text that the digit loop accepts is parsed to the loop's value. */
  lemma FromStrRadixUnsigned(src: string, radix: Radix, v: U32)
    requires src != [] && src[0] != '+' && src[0] != '-'
    requires CheckedFold(src, radix) == Ok(v)
    ensures FromStrRadix(src, radix) == Ok(v)
  {
  }

  /** `from_str_radix` fails with InvalidDigit at the first non-digit after the
      optional `+`, when the digits before it fit. */
  lemma FromStrRadixInvalidDigitAt(src: string, radix: Radix, i: nat)
    requires var d := Unsigned(src);
      i < |d| && AllDigits(d[..i], radix) && Value(d[..i], radix) <= U32_MAX && !IsDigit(d[i], radix)
    ensures FromStrRadix(src, radix) == Err(InvalidDigit)
  {
    CheckedFoldInvalidAt(Unsigned(src), radix, i);
  }

  /** `from_str_radix` fails with PosOverflow once a run of leading digits after the
      optional `+` no longer fits, whatever follows. */
  lemma FromStrRadixOverflowAt(src: string, radix: Radix, i: nat)
    requires var d := Unsigned(src);
      i <= |d| && AllDigits(d[..i], radix) && Value(d[..i], radix) > U32_MAX
    ensures FromStrRadix(src, radix) == Err(PosOverflow)
  {
    var d := Unsigned(src);
    ValueUpperBound(d[..i], radix);
    assert 1 <= i;
    assert IsDigit(d[0], radix);
    CheckedFoldOverflowAt(d, radix, i);
  }

  /** A numeral with more significant digits than 32 bits hold overflows. */
  lemma FromStrRadixTooManyDigits(src: string, radix: Radix, k: nat)
    requires IsNumeral(src, radix) && Pow(radix, k) == U32_MAX + 1
    requires |StripLeadingZeros(Unsigned(src))| > k
    ensures FromStrRadix(src, radix) == Err(PosOverflow)
  {
    var d := Unsigned(src);
    FitsIffSignificantDigits(d, radix, k);
    assert d[..|d|] == d;
    FromStrRadixOverflowAt(src, radix, |d|);
  }

  /** A string of n digits denotes less than radix^n. */
  lemma {:induction false} ValueUpperBound(d: string, radix: Radix)
    requires AllDigits(d, radix)
    ensures Value(d, radix) < Pow(radix, |d|)
    decreases |d|
  {
    if d != [] {
      var p := d[..|d| - 1];
      assert AllDigits(p, radix);
      ValueUpperBound(p, radix);
      var x := ToDigit(d[|d| - 1], radix).value;
      assert Value(d, radix) == Value(p, radix) * radix + x;
      assert Pow(radix, |d|) == radix * Pow(radix, |p|);
      DigitStepBound(Value(p, radix), Pow(radix, |p|), x, radix);
    }
  }

  /** A string of n digits that does not start with '0' denotes at least radix^(n-1). */
  lemma {:induction false} ValueLowerBound(d: string, radix: Radix)
    requires AllDigits(d, radix) && d != [] && d[0] != '0'
    ensures Pow(radix, |d| - 1) <= Value(d, radix)
    decreases |d|
  {
    var p := d[..|d| - 1];
    assert AllDigits(p, radix);
    if p == [] {
      assert ToDigit(d[0], radix).value != 0;
    } else {
      ValueLowerBound(p, radix);
      MulMonotone(Pow(radix, |p| - 1), Value(p, radix), radix);
    }
  }

  lemma DigitStepBound(v: nat, n: nat, x: nat, radix: nat)
    requires v < n && x < radix
    ensures v * radix + x < radix * n
  {
    MulMonotone(v + 1, n, radix);
  }

  lemma MulMonotone(a: nat, b: nat, c: nat)
    requires a <= b
    ensures a * c <= b * c
  {
  }

  lemma {:induction false} PowMonotone(b: nat, i: nat, j: nat)
    requires 1 <= b && i <= j
    ensures Pow(b, i) <= Pow(b, j)
    decreases j
  {
    if i < j {
      PowMonotone(b, i, j - 1);
      MulMonotone(1, b, Pow(b, j - 1));
    }
  }

  /** Both radixes the application uses have a power equal to 2^32. */
  lemma PowersAtU32Limit()
    ensures Pow(2, 32) == U32_MAX + 1
    ensures Pow(16, 8) == U32_MAX + 1
  {
    assert Pow(2, 8) == 256;
    PowAdd(2, 8, 8);
    PowAdd(2, 16, 16);
    assert Pow(16, 4) == 65536;
    PowAdd(16, 4, 4);
  }

  lemma {:induction false} PowAdd(b: nat, i: nat, j: nat)
    ensures Pow(b, i + j) == Pow(b, i) * Pow(b, j)
    decreases i
  {
    if i > 0 {
      PowAdd(b, i - 1, j);
      assert Pow(b, i + j) == b * Pow(b, i - 1 + j);
    }
  }

  /** The digits left once leading zeros are dropped. */
  function StripLeadingZeros(d: string): (r: string)
    ensures r == [] || r[0] != '0'
    ensures |r| <= |d| && r == d[|d| - |r|..]
    ensures forall i | 0 <= i < |d| - |r| :: d[i] == '0'
    decreases |d|
  {
    if d != [] && d[0] == '0' then StripLeadingZeros(d[1..]) else d
  }

  /** A leading zero does not change the value. */
  lemma {:induction false} ValueLeadingZero(d: string, radix: Radix)
    requires AllDigits(d, radix)
    ensures AllDigits(['0'] + d, radix) && Value(['0'] + d, radix) == Value(d, radix)
    decreases |d|
  {
    var z := ['0'] + d;
    assert AllDigits(z, radix) by {
      assert forall i | 1 <= i < |z| :: z[i] == d[i - 1];
    }
    if d != [] {
      var p := d[..|d| - 1];
      assert AllDigits(p, radix);
      ValueLeadingZero(p, radix);
      assert z[..|z| - 1] == ['0'] + p;
    }
  }

  /** Leading zeros do not change the value. */
  lemma {:induction false} ValueIgnoresLeadingZeros(d: string, radix: Radix)
    requires AllDigits(d, radix)
    ensures AllDigits(StripLeadingZeros(d), radix)
    ensures Value(StripLeadingZeros(d), radix) == Value(d, radix)
    decreases |d|
  {
    if d != [] && d[0] == '0' {
      var t := d[1..];
      assert AllDigits(t, radix);
      ValueIgnoresLeadingZeros(t, radix);
      ValueLeadingZero(t, radix);
      assert d == ['0'] + t;
    }
  }

  /** With radix^k == 2^32, a digit string fits in a u32 exactly when it has at most
      k significant digits: 32 binary digits, 8 hexadecimal digits. */
  lemma FitsIffSignificantDigits(d: string, radix: Radix, k: nat)
    requires AllDigits(d, radix)
    requires Pow(radix, k) == U32_MAX + 1
    ensures Value(d, radix) <= U32_MAX <==> |StripLeadingZeros(d)| <= k
  {
    ValueIgnoresLeadingZeros(d, radix);
    FitsIffLength(StripLeadingZeros(d), radix, k);
  }

  /** FitsIffSignificantDigits for digits without a leading zero. */
  lemma FitsIffLength(s: string, radix: Radix, k: nat)
    requires AllDigits(s, radix) && (s == [] || s[0] != '0')
    requires Pow(radix, k) == U32_MAX + 1
    ensures Value(s, radix) <= U32_MAX <==> |s| <= k
  {
    if |s| <= k {
      ValueUpperBound(s, radix);
      PowMonotone(radix, |s|, k);
    } else {
      ValueLowerBound(s, radix);
      PowMonotone(radix, k, |s| - 1);
    }
  }
}
