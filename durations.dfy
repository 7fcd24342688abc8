/**
 * Conversion of one reported duration ("<digits>us" or "<digits>ms") to a
 * whole number of microseconds, and of a list of them, where the first bad
 * value makes the whole conversion fail.
 */
module Durations {
  import opened Wrappers
  import opened PyStr

  /** Why a value could not be converted; both are a ValueError in the source. */
  datatype ParseError =
    | UnexpectedTimeFormat(value: string)   // neither "us" nor "ms" at the end
    | InvalidLiteral(literal: string)       // what precedes the unit is not a number

  /** The two units the profile output uses. */
  datatype Unit = Micros | Millis

  function Suffix(u: Unit): string {
    match u
    case Micros => "us"
    case Millis => "ms"
  }

  /** Microseconds per unit. */
  function Factor(u: Unit): nat {
    match u
    case Micros => 1
    case Millis => 1000
  }

  predicate IsDigit(c: char) {
    '0' <= c <= '9'
  }

  /** A decimal numeral: one or more ASCII digits. */
  predicate IsNumeral(s: string) {
    |s| > 0 && forall i :: 0 <= i < |s| ==> IsDigit(s[i])
  }

  /** The number a string of digits denotes, most significant digit first. */
  function DigitsValue(s: string): nat
    requires forall i :: 0 <= i < |s| ==> IsDigit(s[i])
  {
    if s == [] then 0
    else
      assert IsDigit(s[|s| - 1]);
      10 * DigitsValue(s[..|s| - 1]) + (s[|s| - 1] as int - '0' as int)
  }

  /** The digit for 0 <= d < 10. */
  function Digit(d: nat): (c: char)
    requires d < 10
    ensures IsDigit(c) && c as int - '0' as int == d
  {
    ('0' as int + d) as char
  }

  /** The shortest decimal numeral of `n`. */
  function ShowNat(n: nat): (s: string)
    ensures IsNumeral(s)
    ensures s[0] != '0' || n == 0
  {
    if n < 10 then [Digit(n)] else ShowNat(n / 10) + [Digit(n % 10)]
  }

  /** Python's `int` on a decimal literal; `None` stands for the ValueError it raises. */
  function ParseNat(s: string): (r: Option<nat>)
    ensures r.Some? <==> IsNumeral(s)
  {
    if IsNumeral(s) then Some(DigitsValue(s)) else None
  }

  /** Reading back the numeral of a number gives that number. */
  lemma {:induction false} ParseShowNat(n: nat)
    ensures ParseNat(ShowNat(n)) == Some(n)
  {
    var s := ShowNat(n);
    if n >= 10 {
      ParseShowNat(n / 10);
      assert s[..|s| - 1] == ShowNat(n / 10);
      assert s[|s| - 1] == Digit(n % 10);
      assert DigitsValue(s) == 10 * (n / 10) + n % 10;
    }
  }

  /** Leading zeros do not change the value of a numeral. */
  lemma {:induction false} ParseLeadingZero(s: string)
    requires IsNumeral(s)
    ensures ParseNat("0" + s) == ParseNat(s)
  {
    LeadingZeroValue(s);
  }

  /** The digit-string form of `ParseLeadingZero`, by induction on the last digit. */
  lemma {:induction false} LeadingZeroValue(s: string)
    requires forall i :: 0 <= i < |s| ==> IsDigit(s[i])
    ensures DigitsValue("0" + s) == DigitsValue(s)
  {
    if s != [] {
      var z := "0" + s;
      assert z[..|z| - 1] == "0" + s[..|s| - 1];
      LeadingZeroValue(s[..|s| - 1]);
    }
  }

  /** The numeral before the unit, scaled to microseconds. */
  function Scaled(literal: string, u: Unit): (r: Result<nat, ParseError>)
    ensures r.Ok? <==> IsNumeral(literal)
    ensures r.Err? ==> r.error == InvalidLiteral(literal)
  {
    match ParseNat(literal)
    case None => Err(InvalidLiteral(literal))
    case Some(n) => Ok(n * Factor(u))
  }

  /**
   * `convert_to_microseconds`: a value ending in "us" is a count of
   * microseconds, one ending in "ms" a count of milliseconds; anything else
   * is rejected with the value itself.
   */
  function ToMicroseconds(value: string): (r: Result<nat, ParseError>)
    ensures r == Err(UnexpectedTimeFormat(value)) <==> !EndsWith(value, "us") && !EndsWith(value, "ms")
  {
    if EndsWith(value, "us") then Scaled(value[..|value| - 2], Micros)
    else if EndsWith(value, "ms") then Scaled(value[..|value| - 2], Millis)
    else Err(UnexpectedTimeFormat(value))
  }

  /**
   * A value written as a literal followed by a unit converts to the
   * literal's number times the unit's factor, or fails on the literal.
   */
  lemma WithUnit(literal: string, u: Unit)
    ensures ToMicroseconds(literal + Suffix(u))
         == if IsNumeral(literal) then Ok(DigitsValue(literal) * Factor(u))
            else Err(InvalidLiteral(literal))
  {
  }

  /** Rendering a number with a unit and converting it back gives its microseconds. */
  lemma ShowWithUnit(n: nat, u: Unit)
    ensures ToMicroseconds(ShowNat(n) + Suffix(u)) == Ok(n * Factor(u))
  {
    WithUnit(ShowNat(n), u);
    ParseShowNat(n);
  }

  /**
   * Every value that converts is a numeral followed by a unit, and the
   * result is that numeral's number times the unit's factor.
   */
  lemma ConvertedShape(value: string)
    requires ToMicroseconds(value).Ok?
    ensures exists literal: string, u: Unit ::
      && value == literal + Suffix(u)
      && IsNumeral(literal)
      && ToMicroseconds(value).value == DigitsValue(literal) * Factor(u)
  {
  }

  /** The two suffixes cannot both match, so the order of the checks does not matter. */
  lemma SuffixesExclusive(value: string)
    ensures !(EndsWith(value, "us") && EndsWith(value, "ms"))
  {
  }

  /** Seconds, nanoseconds and text without a unit are rejected as a format error. */
  lemma RejectedFormats(value: string)
    requires value in {"5s", "5ns", "abc"}
    ensures ToMicroseconds(value) == Err(UnexpectedTimeFormat(value))
  {
  }

  /**
   * A unit with nothing in front of it, a hexadecimal number or a decimal
   * fraction is a literal error, as `int` rejects each of them.
   */
  lemma RejectedLiterals(value: string)
    requires value in {"ms", "0x5us", "1.5ms"}
    ensures ToMicroseconds(value).Err? && ToMicroseconds(value).error.InvalidLiteral?
  {
    var literal := value[..|value| - 2];
    if value == "1.5ms" {
      assert literal[1] == '.';
    } else if value == "0x5us" {
      assert literal[1] == 'x';
    }
  }

  /** Every value converts. */
  predicate AllConvert(values: seq<string>) {
    forall i :: 0 <= i < |values| ==> ToMicroseconds(values[i]).Ok?
  }

  /** `micros` holds the conversions of `values`, one for one and in order. */
  predicate ConvertsTo(values: seq<string>, micros: seq<nat>) {
    && |micros| == |values|
    && forall i :: 0 <= i < |values| ==> ToMicroseconds(values[i]) == Ok(micros[i])
  }

  /** `values[i]` is the first value that does not convert. */
  predicate FirstFailure(values: seq<string>, i: int) {
    && 0 <= i < |values|
    && ToMicroseconds(values[i]).Err?
    && forall j :: 0 <= j < i ==> ToMicroseconds(values[j]).Ok?
  }

  /**
   * One of the three list comprehensions: every value converted, in order.
   * It fails with the error of the first value that does not convert.
   */
  function ConvertAll(values: seq<string>): (r: Result<seq<nat>, ParseError>)
    ensures r.Ok? <==> AllConvert(values)
    ensures r.Ok? ==> ConvertsTo(values, r.value)
    ensures r.Err? ==> exists i :: FirstFailure(values, i) && ToMicroseconds(values[i]) == Err(r.error)
  {
    if values == [] then Ok([])
    else
      assert forall i :: 1 <= i < |values| ==> values[i] == values[1..][i - 1];
      match ToMicroseconds(values[0])
      case Err(e) =>
        assert FirstFailure(values, 0);
        Err(e)
      case Ok(v) =>
        match ConvertAll(values[1..])
        case Err(e) =>
          var i :| FirstFailure(values[1..], i) && ToMicroseconds(values[1..][i]) == Err(e);
          assert FirstFailure(values, i + 1);
          Err(e)
        case Ok(vs) => Ok([v] + vs)
  }

  /** Converting two lists one after the other is converting their concatenation. */
  lemma ConvertAllConcat(a: seq<string>, b: seq<string>)
    requires ConvertAll(a).Ok? && ConvertAll(b).Ok?
    ensures ConvertAll(a + b) == Ok(ConvertAll(a).value + ConvertAll(b).value)
  {
    var x, y := ConvertAll(a).value, ConvertAll(b).value;
    ConvertsToConcat(a, b, x, y);
    ConvertsToUnique(a + b, ConvertAll(a + b).value, x + y);
  }

  /** Element-wise conversions of two lists put together convert their concatenation. */
  lemma ConvertsToConcat(a: seq<string>, b: seq<string>, x: seq<nat>, y: seq<nat>)
    requires ConvertsTo(a, x) && ConvertsTo(b, y)
    ensures AllConvert(a + b) && ConvertsTo(a + b, x + y)
  {
  }

  /** A list has only one list of conversions. */
  lemma ConvertsToUnique(values: seq<string>, x: seq<nat>, y: seq<nat>)
    requires ConvertsTo(values, x) && ConvertsTo(values, y)
    ensures x == y
  {
  }
}
