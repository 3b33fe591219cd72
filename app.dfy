/**
 * The input handling of the converter window: cleaning the typed text, deciding
 * whether it is binary or hexadecimal, parsing it into a 32-bit word and converting
 * that word in the selected direction. The window itself is not modelled.
 */
module App {
  import opened Wrappers
  import opened RadixParse
  import opened FpEngine

  /** Conversion direction chosen with the radio buttons. */
  datatype Mode = ToInternal | ToIEEE754

  datatype InputFormat = Binary | Hexadecimal | Unrecognized

  /** What `parse_input` reports: the format was not recognised, or the integer parse failed. */
  datatype ParseError = FormatError | IntError(kind: IntErrorKind)

  /** The text put in the input box when each direction is selected. */
  const TO_IEEE754_DEFAULT: string := "8F7F FF00"
  const TO_INTERNAL_DEFAULT: string := "477F FF00"

  /** The prefix `parse_input` puts before every error text. */
  const ERROR_PREFIX: string := "Nieprawidłowe wejście: "

  /** `str::replace(" ", "")`: drops every U+0020 and keeps the rest in order. */
  function RemoveSpaces(s: string): (r: string)
    ensures forall i | 0 <= i < |r| :: r[i] != ' '
    ensures |r| <= |s|
    decreases |s|
  {
    if s == [] then []
    else (if s[0] == ' ' then [] else [s[0]]) + RemoveSpaces(s[1..])
  }

  /** Text without spaces is left as it is. */
  lemma {:induction false} RemoveSpacesNoSpaces(s: string)
    requires forall i | 0 <= i < |s| :: s[i] != ' '
    ensures RemoveSpaces(s) == s
    decreases |s|
  {
    if s != [] {
      RemoveSpacesNoSpaces(s[1..]);
    }
  }

  /** Lower-casing of one character; only ASCII letters change. */
  function LowerChar(c: char): char {
    if 'A' <= c <= 'Z' then (c as int - 'A' as int + 'a' as int) as char else c
  }

  /** `str::to_lowercase`, character by character. */
  function Lowercase(s: string): (r: string)
    ensures |r| == |s|
    ensures forall i | 0 <= i < |s| :: r[i] == LowerChar(s[i])
    decreases |s|
  {
    if s == [] then [] else [LowerChar(s[0])] + Lowercase(s[1..])
  }

  /** The text both `input_format` and `parse_input` work on. */
  function Clean(input: string): (r: string)
    ensures forall i | 0 <= i < |r| :: r[i] != ' ' && !('A' <= r[i] <= 'Z')
    ensures |r| <= |input|
  {
    Lowercase(RemoveSpaces(input))
  }

  /** `chars().all(|c| c == '0' || c == '1')`; true of the empty string. */
  predicate AllBinaryDigits(s: string)
    decreases |s|
  {
    s == [] || ((s[0] == '0' || s[0] == '1') && AllBinaryDigits(s[1..]))
  }

  /** `chars().all(|c| c.is_digit(16))`; true of the empty string. */
  predicate AllHexDigits(s: string)
    decreases |s|
  {
    s == [] || (IsDigit(s[0], 16) && AllHexDigits(s[1..]))
  }

  predicate StartsWith0x(s: string) {
    |s| >= 2 && s[0] == '0' && s[1] == 'x'
  }

  /** `input_format`: binary wins over hexadecimal; a `0x` prefix makes the text
      hexadecimal whatever follows it. */
  function DetectFormat(input: string): (f: InputFormat)
    ensures Clean(input) == [] ==> f == Binary
    ensures StartsWith0x(Clean(input)) ==> f == Hexadecimal
  {
    var clean := Clean(input);
    assert StartsWith0x(clean) ==> clean[1..][0] == 'x' && !AllBinaryDigits(clean[1..]);
    if AllBinaryDigits(clean) then Binary
    else if StartsWith0x(clean) || AllHexDigits(clean) then Hexadecimal
    else Unrecognized
  }

  /** `trim_start_matches("0x")`: removes every leading `0x`, repeatedly. */
  function TrimHexPrefix(s: string): (r: string)
    ensures !StartsWith0x(r)
    ensures |r| <= |s| && r == s[|s| - |r|..]
    ensures (|s| - |r|) % 2 == 0
    ensures forall i | 0 <= i < |s| - |r| :: s[i] == if i % 2 == 0 then '0' else 'x'
    decreases |s|
  {
    if StartsWith0x(s) then TrimHexPrefix(s[2..]) else s
  }

  function LiftIntError(r: Result<U32, IntErrorKind>): Result<U32, ParseError> {
    match r
    case Ok(v) => Ok(v)
    case Err(kind) => Err(IntError(kind))
  }

  /** The `parsed_input` of `parse_input`: radix 2 for binary text, radix 16 after
      the `0x` prefixes for hexadecimal text, and a format error otherwise. */
  function ParseNumber(input: string): (r: Result<U32, ParseError>)
    ensures r == Err(FormatError) <==> DetectFormat(input) == Unrecognized
    ensures r.Ok? ==> Clean(input) != []
  {
    var clean := Clean(input);
    match DetectFormat(input)
    case Binary => LiftIntError(FromStrRadix(RemoveSpaces(clean), 2))
    case Hexadecimal => LiftIntError(FromStrRadix(TrimHexPrefix(clean), 16))
    case Unrecognized => Err(FormatError)
  }

  /** The word shown for a parsed number: `ToInternal` reads it as IEEE 754 and converts
      it to the low-latency layout, `ToIEEE754` the other way round. */
  function Convert(mode: Mode, num: U32): (w: bv32)
    ensures mode == ToInternal ==> !LowLatencyFloat.FromBits(w).ZeroBit()
    ensures mode == ToIEEE754 ==> w == 0 || StandardFloat.FromBits(w).Exponent() >= 127
  {
    match mode
    case ToInternal => ToLowLatency(StandardFloat.FromBits(num as bv32)).Representation()
    case ToIEEE754 =>
      var llf := LowLatencyFloat.FromBits(num as bv32);
      if llf.Representation() == 0 then ToStandard(llf).Representation()
      else
        ToStandardExponent(llf);
        ToStandard(llf).Representation()
  }

  /** What a press of the button computes, as a value. */
  function Outcome(input: string, mode: Mode): Result<bv32, ParseError> {
    match ParseNumber(input)
    case Ok(num) => Ok(Convert(mode, num))
    case Err(e) => Err(e)
  }

  /** The message shown under the result: the prefix, then the error's own text
      (the Display text of Rust's `ParseIntError` for integer errors). */
  function ErrorMessage(e: ParseError): (m: string)
    ensures |m| > |ERROR_PREFIX| && m[..|ERROR_PREFIX|] == ERROR_PREFIX
  {
    ERROR_PREFIX +
    match e
    case FormatError => "Nieprawidłowy format wejścia"
    case IntError(Empty) => "cannot parse integer from empty string"
    case IntError(InvalidDigit) => "invalid digit found in string"
    case IntError(PosOverflow) => "number too large to fit in target type"
  }

  /**
   * `parse_input`: clears the error, parses the text, and then either stores the
   * converted word as the result, or stores the message and clears the result.
   * Every path assigns both out-values, so their values before the call do not matter.
   */
  method ParseInput(input: string, mode: Mode) returns (result: Option<bv32>, error: Option<string>)
    ensures result.Some? <==> error.None?
    ensures Outcome(input, mode).Ok? ==> result == Some(Outcome(input, mode).value)
    ensures Outcome(input, mode).Err? ==>
      result.None? && error == Some(ErrorMessage(Outcome(input, mode).error))
  {
    error := Option.None;
    var clean := Clean(input);
    var format := DetectFormat(input);
    var parsedInput: Result<U32, ParseError>;
    match format {
      case Binary =>
        parsedInput := LiftIntError(FromStrRadix(RemoveSpaces(clean), 2));
      case Hexadecimal =>
        parsedInput := LiftIntError(FromStrRadix(TrimHexPrefix(clean), 16));
      case Unrecognized =>
        parsedInput := Err(FormatError);
    }
    assert parsedInput == ParseNumber(input);
    match parsedInput {
      case Ok(num) =>
        match mode {
          case ToInternal =>
            var sf := StandardFloat.FromBits(num as bv32);
            var llf := ToLowLatency(sf);
            result := Some(llf.Representation());
          case ToIEEE754 =>
            var llf := LowLatencyFloat.FromBits(num as bv32);
            var sf := ToStandard(llf);
            result := Some(sf.Representation());
        }
      case Err(e) =>
        error := Some(ErrorMessage(e));
        result := Option.None;
    }
  }

  /** Cleaning is idempotent: cleaned text has no spaces and no upper-case letters left. */
  lemma CleanIdempotent(input: string)
    ensures Clean(Clean(input)) == Clean(input)
  {
    var c := Clean(input);
    RemoveSpacesNoSpaces(c);
    assert Lowercase(c) == c;
  }

  /** Both the format and the parse see the text only through Clean. */
  lemma ParseSeesOnlyCleanText(input: string)
    ensures DetectFormat(Clean(input)) == DetectFormat(input)
    ensures ParseNumber(Clean(input)) == ParseNumber(input)
  {
    CleanIdempotent(input);
    SameCleanSameParse(Clean(input), input);
  }

  lemma SameCleanSameParse(s: string, t: string)
    requires Clean(s) == Clean(t)
    ensures DetectFormat(s) == DetectFormat(t)
    ensures ParseNumber(s) == ParseNumber(t)
  {
  }

  lemma {:induction false} RemoveSpacesAppend(a: string, b: string)
    ensures RemoveSpaces(a + b) == RemoveSpaces(a) + RemoveSpaces(b)
    decreases |a|
  {
    if a == [] {
      assert a + b == b;
    } else {
      assert (a + b)[0] == a[0];
      assert (a + b)[1..] == a[1..] + b;
      RemoveSpacesAppend(a[1..], b);
      var head: string := if a[0] == ' ' then [] else [a[0]];
      assert RemoveSpaces(a + b) == head + RemoveSpaces(a[1..] + b);
      assert head + (RemoveSpaces(a[1..]) + RemoveSpaces(b)) == (head + RemoveSpaces(a[1..])) + RemoveSpaces(b);
    }
  }

  /** A space anywhere in the text changes neither its format nor its parse. */
  lemma SpacesIgnored(a: string, b: string)
    ensures Clean(a + " " + b) == Clean(a + b)
    ensures DetectFormat(a + " " + b) == DetectFormat(a + b)
    ensures ParseNumber(a + " " + b) == ParseNumber(a + b)
  {
    RemoveSpacesAppend(a + " ", b);
    RemoveSpacesAppend(a, " ");
    RemoveSpacesAppend(a, b);
    assert RemoveSpaces(" ") == [];
    assert RemoveSpaces(a + " " + b) == RemoveSpaces(a + b);
    SameCleanSameParse(a + " " + b, a + b);
  }

  /** Texts that agree up to letter case have the same format and the same parse. */
  lemma {:induction false} CaseIgnored(s: string, t: string)
    requires |s| == |t|
    requires forall i | 0 <= i < |s| :: LowerChar(s[i]) == LowerChar(t[i])
    ensures Clean(s) == Clean(t)
    ensures DetectFormat(s) == DetectFormat(t)
    ensures ParseNumber(s) == ParseNumber(t)
  {
    LowercaseOfRemoveSpaces(s, t);
    SameCleanSameParse(s, t);
  }

  lemma {:induction false} LowercaseOfRemoveSpaces(s: string, t: string)
    requires |s| == |t|
    requires forall i | 0 <= i < |s| :: LowerChar(s[i]) == LowerChar(t[i])
    ensures Lowercase(RemoveSpaces(s)) == Lowercase(RemoveSpaces(t))
    decreases |s|
  {
    if s != [] {
      assert LowerChar(s[0]) == LowerChar(t[0]);
      assert s[0] == ' ' <==> t[0] == ' ';
      LowercaseOfRemoveSpaces(s[1..], t[1..]);
      var hs: string := if s[0] == ' ' then [] else [s[0]];
      var ht: string := if t[0] == ' ' then [] else [t[0]];
      LowercaseAppend(hs, RemoveSpaces(s[1..]));
      LowercaseAppend(ht, RemoveSpaces(t[1..]));
    }
  }

  lemma LowercaseAppend(a: string, b: string)
    ensures Lowercase(a + b) == Lowercase(a) + Lowercase(b)
  {
    var l, r := Lowercase(a + b), Lowercase(a) + Lowercase(b);
    forall i | 0 <= i < |l| ensures l[i] == r[i] {
      if i < |a| {
        assert (a + b)[i] == a[i];
      } else {
        assert (a + b)[i] == b[i - |a|];
      }
    }
  }

  lemma {:induction false} AllBinaryDigitsIff(s: string)
    ensures AllBinaryDigits(s) <==> forall i | 0 <= i < |s| :: s[i] == '0' || s[i] == '1'
    decreases |s|
  {
    if s != [] {
      AllBinaryDigitsIff(s[1..]);
      assert forall i | 1 <= i < |s| :: s[i] == s[1..][i - 1];
    }
  }

  lemma {:induction false} AllHexDigitsIff(s: string)
    ensures AllHexDigits(s) <==> AllDigits(s, 16)
    decreases |s|
  {
    if s != [] {
      AllHexDigitsIff(s[1..]);
      assert forall i | 1 <= i < |s| :: s[i] == s[1..][i - 1];
    }
  }

  /** `input_format` against a reference reading of its conditions: binary text is
      made only of '0' and '1' (the empty text included); hexadecimal text is any
      other text that starts with "0x" or is made only of hexadecimal digits. */
  lemma DetectFormatCases(input: string)
    ensures DetectFormat(input) == Binary <==>
      forall i | 0 <= i < |Clean(input)| :: Clean(input)[i] == '0' || Clean(input)[i] == '1'
    ensures DetectFormat(input) == Hexadecimal <==>
      && DetectFormat(input) != Binary
      && (StartsWith0x(Clean(input)) || AllDigits(Clean(input), 16))
    ensures DetectFormat(input) == Unrecognized <==>
      && DetectFormat(input) != Binary
      && !StartsWith0x(Clean(input)) && !AllDigits(Clean(input), 16)
  {
    AllBinaryDigitsIff(Clean(input));
    AllHexDigitsIff(Clean(input));
  }

  /** Binary text is all radix-2 digits. */
  lemma BinaryTextIsNumeral(input: string)
    requires DetectFormat(input) == Binary
    ensures RemoveSpaces(Clean(input)) == Clean(input)
    ensures AllDigits(Clean(input), 2)
    ensures Unsigned(Clean(input)) == Clean(input)
  {
    AllBinaryDigitsIff(Clean(input));
    RemoveSpacesNoSpaces(Clean(input));
  }

  /** When binary text parses: exactly when it is non-empty with at most 32
      significant digits, and then to the number the digits denote. */
  lemma BinaryParse(input: string)
    requires DetectFormat(input) == Binary
    ensures ParseNumber(input).Ok? <==> Clean(input) != [] && |StripLeadingZeros(Clean(input))| <= 32
    ensures ParseNumber(input).Ok? ==>
      && AllDigits(Clean(input), 2) && Value(Clean(input), 2) <= U32_MAX
      && ParseNumber(input).value == Value(Clean(input), 2)
  {
    var c := Clean(input);
    BinaryTextIsNumeral(input);
    assert ParseNumber(input) == LiftIntError(FromStrRadix(c, 2));
    FromStrRadixSpec(c, 2);
    PowersAtU32Limit();
    FitsIffSignificantDigits(c, 2, 32);
  }

  /** When hexadecimal text parses: exactly when what follows its `0x` prefixes is a
      numeral with at most 8 significant digits, and then to the number it denotes. */
  lemma HexadecimalParse(input: string)
    requires DetectFormat(input) == Hexadecimal
    ensures var h := TrimHexPrefix(Clean(input));
      ParseNumber(input).Ok? <==> IsNumeral(h, 16) && |StripLeadingZeros(Unsigned(h))| <= 8
    ensures var h := TrimHexPrefix(Clean(input));
      ParseNumber(input).Ok? ==>
        && IsNumeral(h, 16) && Value(Unsigned(h), 16) <= U32_MAX
        && ParseNumber(input).value == Value(Unsigned(h), 16)
  {
    var h := TrimHexPrefix(Clean(input));
    assert ParseNumber(input) == LiftIntError(FromStrRadix(h, 16));
    FromStrRadixSpec(h, 16);
    if IsNumeral(h, 16) {
      PowersAtU32Limit();
      FitsIffSignificantDigits(Unsigned(h), 16, 8);
    } else {
      assert FromStrRadix(h, 16).Err?;
    }
  }

  /** The ways `parse_input` fails: an unrecognised format, an empty numeral (blank
      binary text, or nothing after the `0x` prefixes), too many significant digits,
      or a non-digit after a `0x` prefix. */
  lemma ParseNumberFails(input: string)
    ensures ParseNumber(input) == Err(FormatError) <==> DetectFormat(input) == Unrecognized
    ensures ParseNumber(input) == Err(IntError(Empty)) <==>
      || (DetectFormat(input) == Binary && Clean(input) == [])
      || (DetectFormat(input) == Hexadecimal && TrimHexPrefix(Clean(input)) == [])
    ensures DetectFormat(input) == Binary && Clean(input) != [] ==>
      (ParseNumber(input) == Err(IntError(PosOverflow)) <==> |StripLeadingZeros(Clean(input))| > 32)
    ensures DetectFormat(input) == Hexadecimal && !AllDigits(Unsigned(TrimHexPrefix(Clean(input))), 16) ==>
      ParseNumber(input).Err?
  {
    var c := Clean(input);
    match DetectFormat(input)
    case Binary =>
      BinaryTextIsNumeral(input);
      assert ParseNumber(input) == LiftIntError(FromStrRadix(c, 2));
      FromStrRadixSpec(c, 2);
      if c != [] {
        CheckedFoldNeverInvalid(c);
        BinaryParse(input);
      }
    case Hexadecimal =>
      var h := TrimHexPrefix(c);
      assert ParseNumber(input) == LiftIntError(FromStrRadix(h, 16));
      FromStrRadixSpec(h, 16);
    case Unrecognized =>
  }

  /** Each error kind has its own message, so the user can tell them apart. */
  lemma ErrorMessageDistinct(e1: ParseError, e2: ParseError)
    requires e1 != e2
    ensures ErrorMessage(e1) != ErrorMessage(e2)
  {
    ErrorMessageInitial(e1);
    ErrorMessageInitial(e2);
  }

  /** The first character after the prefix names the error kind. */
  lemma ErrorMessageInitial(e: ParseError)
    ensures ErrorMessage(e)[|ERROR_PREFIX|] == match e
      case FormatError => 'N'
      case IntError(Empty) => 'c'
      case IntError(InvalidDigit) => 'i'
      case IntError(PosOverflow) => 'n'
  {
    var k := |ERROR_PREFIX|;
    match e
    case FormatError => assert ErrorMessage(e)[k] == "Nieprawidłowy format wejścia"[0];
    case IntError(Empty) => assert ErrorMessage(e)[k] == "cannot parse integer from empty string"[0];
    case IntError(InvalidDigit) => assert ErrorMessage(e)[k] == "invalid digit found in string"[0];
    case IntError(PosOverflow) => assert ErrorMessage(e)[k] == "number too large to fit in target type"[0];
  }

  /** Hexadecimal text fails with InvalidDigit at the first non-digit after the `0x`
      prefixes and an optional `+`, when the digits before it fit. */
  lemma HexadecimalInvalidDigitAt(input: string, i: nat)
    requires DetectFormat(input) == Hexadecimal
    requires var d := Unsigned(TrimHexPrefix(Clean(input)));
      i < |d| && AllDigits(d[..i], 16) && Value(d[..i], 16) <= U32_MAX && !IsDigit(d[i], 16)
    ensures ParseNumber(input) == Err(IntError(InvalidDigit))
  {
    var h := TrimHexPrefix(Clean(input));
    assert ParseNumber(input) == LiftIntError(FromStrRadix(h, 16));
    FromStrRadixInvalidDigitAt(h, 16, i);
  }

  /** Hexadecimal text fails with PosOverflow once its leading digits after the `0x`
      prefixes and an optional `+` no longer fit, whatever follows them. */
  lemma HexadecimalOverflowAt(input: string, i: nat)
    requires DetectFormat(input) == Hexadecimal
    requires var d := Unsigned(TrimHexPrefix(Clean(input)));
      i <= |d| && AllDigits(d[..i], 16) && Value(d[..i], 16) > U32_MAX
    ensures ParseNumber(input) == Err(IntError(PosOverflow))
  {
    var h := TrimHexPrefix(Clean(input));
    assert ParseNumber(input) == LiftIntError(FromStrRadix(h, 16));
    FromStrRadixOverflowAt(h, 16, i);
  }

  /** A hexadecimal numeral with more than 8 significant digits overflows. */
  lemma HexadecimalOverflow(input: string)
    requires DetectFormat(input) == Hexadecimal
    requires var h := TrimHexPrefix(Clean(input));
      IsNumeral(h, 16) && |StripLeadingZeros(Unsigned(h))| > 8
    ensures ParseNumber(input) == Err(IntError(PosOverflow))
  {
    var h := TrimHexPrefix(Clean(input));
    assert ParseNumber(input) == LiftIntError(FromStrRadix(h, 16));
    PowersAtU32Limit();
    FromStrRadixTooManyDigits(h, 16, 8);
  }

  /** A lone sign after the `0x` prefixes is an invalid digit. */
  lemma HexadecimalLoneSign(input: string)
    requires DetectFormat(input) == Hexadecimal
    requires TrimHexPrefix(Clean(input)) == "+" || TrimHexPrefix(Clean(input)) == "-"
    ensures ParseNumber(input) == Err(IntError(InvalidDigit))
  {
    assert ParseNumber(input) == LiftIntError(FromStrRadix(TrimHexPrefix(Clean(input)), 16));
  }

  /** A fold over binary digits can only fail by overflow. */
  lemma CheckedFoldNeverInvalid(c: string)
    requires AllDigits(c, 2) && c != []
    ensures FromStrRadix(c, 2).Err? ==> FromStrRadix(c, 2).error == PosOverflow
  {
    FromStrRadixSpec(c, 2);
    CheckedFoldDigitsOnly(c, 2);
  }

  lemma IeeeDefaultHighDigits()
    ensures CheckedFold("8f7f", 16) == Ok(0x8F7F)
  {
    CheckedFoldDigit("", '8', 16, 0x0, 8, 0x8);
    CheckedFoldDigit("8", 'f', 16, 0x8, 15, 0x8F);
    assert "8" + ['f'] == "8f";
    CheckedFoldDigit("8f", '7', 16, 0x8F, 7, 0x8F7);
    assert "8f" + ['7'] == "8f7";
    CheckedFoldDigit("8f7", 'f', 16, 0x8F7, 15, 0x8F7F);
    assert "8f7" + ['f'] == "8f7f";
  }

  /** The digits of the `ToIEEE754` default, folded one at a time. */
  lemma IeeeDefaultDigits()
    ensures CheckedFold("8f7fff00", 16) == Ok(0x8F7F_FF00)
    ensures AllDigits("8f7fff00", 16)
  {
    IeeeDefaultHighDigits();
    CheckedFoldDigit("8f7f", 'f', 16, 0x8F7F, 15, 0x8F7FF);
    assert "8f7f" + ['f'] == "8f7ff";
    CheckedFoldDigit("8f7ff", 'f', 16, 0x8F7FF, 15, 0x8F7FFF);
    assert "8f7ff" + ['f'] == "8f7fff";
    CheckedFoldDigit("8f7fff", '0', 16, 0x8F7FFF, 0, 0x8F7FFF0);
    assert "8f7fff" + ['0'] == "8f7fff0";
    CheckedFoldDigit("8f7fff0", '0', 16, 0x8F7FFF0, 0, 0x8F7FFF00);
    assert "8f7fff0" + ['0'] == "8f7fff00";
    CheckedFoldValue("8f7fff00", 16);
  }

  lemma InternalDefaultHighDigits()
    ensures CheckedFold("477f", 16) == Ok(0x477F)
  {
    CheckedFoldDigit("", '4', 16, 0x0, 4, 0x4);
    CheckedFoldDigit("4", '7', 16, 0x4, 7, 0x47);
    assert "4" + ['7'] == "47";
    CheckedFoldDigit("47", '7', 16, 0x47, 7, 0x477);
    assert "47" + ['7'] == "477";
    CheckedFoldDigit("477", 'f', 16, 0x477, 15, 0x477F);
    assert "477" + ['f'] == "477f";
  }

  /** The digits of the `ToInternal` default, folded one at a time. */
  lemma InternalDefaultDigits()
    ensures CheckedFold("477fff00", 16) == Ok(0x477F_FF00)
    ensures AllDigits("477fff00", 16)
  {
    InternalDefaultHighDigits();
    CheckedFoldDigit("477f", 'f', 16, 0x477F, 15, 0x477FF);
    assert "477f" + ['f'] == "477ff";
    CheckedFoldDigit("477ff", 'f', 16, 0x477FF, 15, 0x477FFF);
    assert "477ff" + ['f'] == "477fff";
    CheckedFoldDigit("477fff", '0', 16, 0x477FFF, 0, 0x477FFF0);
    assert "477fff" + ['0'] == "477fff0";
    CheckedFoldDigit("477fff0", '0', 16, 0x477FFF0, 0, 0x477FFF00);
    assert "477fff0" + ['0'] == "477fff00";
    CheckedFoldValue("477fff00", 16);
  }

  /** Lower-casing is determined character by character. */
  lemma LowercaseIs(s: string, t: string)
    requires |s| == |t| && forall i | 0 <= i < |s| :: LowerChar(s[i]) == t[i]
    ensures Lowercase(s) == t
  {
  }

  /** Two space-free words joined by one space clean to their lower-cased concatenation. */
  lemma CleanAroundOneSpace(a: string, b: string, lower: string)
    requires forall i | 0 <= i < |a| :: a[i] != ' '
    requires forall i | 0 <= i < |b| :: b[i] != ' '
    requires |lower| == |a| + |b|
    requires forall i | 0 <= i < |a| :: LowerChar(a[i]) == lower[i]
    requires forall i | 0 <= i < |b| :: LowerChar(b[i]) == lower[|a| + i]
    ensures Clean(a + " " + b) == lower
  {
    RemoveSpacesAppend(a + " ", b);
    RemoveSpacesAppend(a, " ");
    RemoveSpacesNoSpaces(a);
    RemoveSpacesNoSpaces(b);
    assert RemoveSpaces(" ") == [];
    var ab := a + b;
    assert RemoveSpaces(a + " " + b) == ab;
    forall i | 0 <= i < |ab| ensures LowerChar(ab[i]) == lower[i] {
      if i < |a| { assert ab[i] == a[i]; } else { assert ab[i] == b[i - |a|]; }
    }
    LowercaseIs(ab, lower);
  }

  /** Cleaned text made of hexadecimal digits, the first of them not binary, is hexadecimal. */
  lemma HexDigitsDetected(input: string, clean: string)
    requires Clean(input) == clean
    requires clean != [] && clean[0] != '0' && clean[0] != '1'
    requires AllDigits(clean, 16)
    ensures DetectFormat(input) == Hexadecimal
  {
    DetectFormatCases(input);
  }

  /** Cleaned text that starts with `0x` is hexadecimal. */
  lemma HexPrefixDetected(input: string, clean: string)
    requires Clean(input) == clean && StartsWith0x(clean)
    ensures DetectFormat(input) == Hexadecimal
  {
    DetectFormatCases(input);
    assert clean[1] == 'x';
  }

  /** Binary text is parsed in radix 2 as it is after cleaning. */
  lemma BinaryParseOf(input: string, clean: string)
    requires Clean(input) == clean && AllBinaryDigits(clean)
    ensures DetectFormat(input) == Binary
    ensures ParseNumber(input) == LiftIntError(FromStrRadix(clean, 2))
  {
    RemoveSpacesNoSpaces(clean);
  }

  /** Hexadecimal text is parsed in radix 16 once its `0x` prefixes are gone. */
  lemma HexadecimalParseOf(input: string, clean: string, digits: string)
    requires DetectFormat(input) == Hexadecimal
    requires Clean(input) == clean && TrimHexPrefix(clean) == digits
    ensures ParseNumber(input) == LiftIntError(FromStrRadix(digits, 16))
  {
  }

  lemma IeeeDefaultText()
    ensures Clean(TO_IEEE754_DEFAULT) == "8f7fff00"
  {
    CleanAroundOneSpace("8F7F", "FF00", "8f7fff00");
    assert "8F7F" + " " + "FF00" == TO_IEEE754_DEFAULT;
  }

  lemma InternalDefaultText()
    ensures Clean(TO_INTERNAL_DEFAULT) == "477fff00"
  {
    CleanAroundOneSpace("477F", "FF00", "477fff00");
    assert "477F" + " " + "FF00" == TO_INTERNAL_DEFAULT;
  }

  lemma IeeeDefaultFormat()
    ensures DetectFormat(TO_IEEE754_DEFAULT) == Hexadecimal
  {
    IeeeDefaultText();
    IeeeDefaultDigits();
    HexDigitsDetected(TO_IEEE754_DEFAULT, "8f7fff00");
  }

  /** The `ToIEEE754` default is hexadecimal text for the number 0x8F7FFF00. */
  lemma IeeeDefaultParses()
    ensures DetectFormat(TO_IEEE754_DEFAULT) == Hexadecimal
    ensures ParseNumber(TO_IEEE754_DEFAULT) == Ok(0x8F7F_FF00)
  {
    IeeeDefaultText();
    IeeeDefaultFormat();
    assert TrimHexPrefix("8f7fff00") == "8f7fff00";
    HexadecimalParseOf(TO_IEEE754_DEFAULT, "8f7fff00", "8f7fff00");
    IeeeDefaultDigits();
    FromStrRadixUnsigned("8f7fff00", 16, 0x8F7F_FF00);
  }

  lemma InternalDefaultFormat()
    ensures DetectFormat(TO_INTERNAL_DEFAULT) == Hexadecimal
  {
    InternalDefaultText();
    InternalDefaultDigits();
    HexDigitsDetected(TO_INTERNAL_DEFAULT, "477fff00");
  }

  /** The `ToInternal` default is hexadecimal text for the number 0x477FFF00. */
  lemma InternalDefaultParses()
    ensures DetectFormat(TO_INTERNAL_DEFAULT) == Hexadecimal
    ensures ParseNumber(TO_INTERNAL_DEFAULT) == Ok(0x477F_FF00)
  {
    InternalDefaultText();
    InternalDefaultFormat();
    assert TrimHexPrefix("477fff00") == "477fff00";
    HexadecimalParseOf(TO_INTERNAL_DEFAULT, "477fff00", "477fff00");
    InternalDefaultDigits();
    FromStrRadixUnsigned("477fff00", 16, 0x477F_FF00);
  }

  /** The two default texts: the one shown for `ToIEEE754` is the number whose
      conversion is the word the `ToInternal` default spells, and that one converts back. */
  lemma DefaultInputsRoundTrip()
    ensures Outcome(TO_IEEE754_DEFAULT, ToIEEE754) == Ok(Convert(ToIEEE754, 0x8F7F_FF00))
    ensures Outcome(TO_INTERNAL_DEFAULT, ToInternal) == Ok(Convert(ToInternal, 0x477F_FF00))
    ensures ToStandard(LowLatencyFloat.FromBits(0x8F7F_FF00)).Representation() == 0x477F_FF00
    ensures ToLowLatency(StandardFloat.FromBits(0x477F_FF00)).Representation() == 0x8F7F_FF00
  {
    IeeeDefaultParses();
    InternalDefaultParses();
    DefaultWordsCorrespond();
  }

  /** "10" is binary, so it reads as 2 and not as 0x10. */
  lemma BinaryWinsOverHex()
    ensures DetectFormat("10") == Binary
    ensures ParseNumber("10") == Ok(2)
  {
    RemoveSpacesNoSpaces("10");
    LowercaseIs("10", "10");
    BinaryParseOf("10", "10");
    CheckedFoldDigit("", '1', 2, 0, 1, 1);
    CheckedFoldDigit("1", '0', 2, 1, 0, 2);
    assert "1" + ['0'] == "10";
    FromStrRadixUnsigned("10", 2, 2);
  }

  lemma RepeatedHexPrefixText()
    ensures Clean("0x0x1F") == "0x0x1f"
    ensures TrimHexPrefix("0x0x1f") == "1f"
  {
    RemoveSpacesNoSpaces("0x0x1F");
    LowercaseIs("0x0x1F", "0x0x1f");
    TrimTwoPrefixes("0x0x1f", "1f");
  }

  lemma TrimTwoPrefixes(s: string, rest: string)
    requires s == "0x0x" + rest && !StartsWith0x(rest)
    ensures TrimHexPrefix(s) == rest
  {
    assert s[2..] == "0x" + rest;
    assert s[2..][2..] == rest;
  }

  /** Every leading "0x" is stripped before the radix-16 parse. */
  lemma RepeatedHexPrefix()
    ensures DetectFormat("0x0x1F") == Hexadecimal
    ensures ParseNumber("0x0x1F") == Ok(0x1F)
  {
    RepeatedHexPrefixText();
    HexPrefixDetected("0x0x1F", "0x0x1f");
    HexadecimalParseOf("0x0x1F", "0x0x1f", "1f");
    RepeatedHexPrefixDigits();
  }

  lemma RepeatedHexPrefixDigits()
    ensures FromStrRadix("1f", 16) == Ok(0x1F)
  {
    CheckedFoldDigit("", '1', 16, 0, 1, 1);
    CheckedFoldDigit("1", 'f', 16, 1, 15, 0x1F);
    assert "1" + ['f'] == "1f";
    FromStrRadixUnsigned("1f", 16, 0x1F);
  }

  /** Text that is only a `0x` prefix is an empty numeral. */
  lemma HexPrefixAlone()
    ensures DetectFormat("0X") == Hexadecimal
    ensures ParseNumber("0X") == Err(IntError(Empty))
  {
    assert Clean("0X") == "0x" by { assert RemoveSpaces("0X") == "0X"; }
    assert DetectFormat("0X") == Hexadecimal;
    assert TrimHexPrefix("0x") == "";
    assert ParseNumber("0X") == LiftIntError(FromStrRadix("", 16));
  }

  /** Text made only of spaces is binary (the empty text is) and an empty numeral. */
  lemma BlankText()
    ensures DetectFormat("   ") == Binary
    ensures ParseNumber("   ") == Err(IntError(Empty))
  {
    assert Clean("   ") == "" by { assert RemoveSpaces("   ") == ""; }
    assert DetectFormat("   ") == Binary;
    assert ParseNumber("   ") == LiftIntError(FromStrRadix("", 2));
  }
}
