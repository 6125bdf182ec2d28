/**
 * JavaScript numbers as far as the listing needs them: the unary plus applied
 * to a query-string value (StringToNumber, section 7.1.4.1.1 of ECMA-262),
 * truthiness for `||`, and the relational operators against a bound.
 * Finite values are exact reals: IEEE-754 rounding is not modelled.
 */
module JsNumbers {
  import opened Wrappers
  import opened JsText

  datatype JsNumber = NaN | PositiveInfinity | NegativeInfinity | Finite(value: real)

  /** ToBoolean of a number: NaN, +0 and -0 are falsy, everything else is truthy. */
  predicate Truthy(n: JsNumber)
  {
    !n.NaN? && n != Finite(0.0)
  }

  /** `n || 1` */
  function OrOne(n: JsNumber): (r: JsNumber)
    ensures Truthy(r)
    ensures Truthy(n) ==> r == n
    ensures !Truthy(n) ==> r == Finite(1.0)
  {
    if Truthy(n) then n else Finite(1.0)
  }

  /** `n < bound`; false whenever n is NaN. */
  predicate LessThan(n: JsNumber, bound: real)
  {
    match n
    case NaN => false
    case PositiveInfinity => false
    case NegativeInfinity => true
    case Finite(v) => v < bound
  }

  /** `n > bound`; false whenever n is NaN. */
  predicate GreaterThan(n: JsNumber, bound: real)
  {
    match n
    case NaN => false
    case PositiveInfinity => true
    case NegativeInfinity => false
    case Finite(v) => v > bound
  }

  function Pow(base: nat, e: nat): (r: nat)
    requires base > 0
    ensures r > 0
  {
    if e == 0 then 1 else base * Pow(base, e - 1)
  }

  /** v * 10^e for a possibly negative exponent e. */
  function ScaleByPowerOfTen(v: real, e: int): real
  {
    if e >= 0 then v * Pow(10, e) as real else v / Pow(10, -e) as real
  }

  /** Index of the first character of s that is in cs, or |s| when there is none. */
  function FindChar(s: string, cs: set<char>): (k: nat)
    ensures k <= |s|
    ensures forall i :: 0 <= i < k ==> s[i] !in cs
    ensures k < |s| ==> s[k] in cs
  {
    if s == [] then 0
    else if s[0] in cs then 0
    else 1 + FindChar(s[1..], cs)
  }

  /** Value of a hexadecimal, octal or binary digit, or None when c is not a digit of that radix. */
  function RadixDigit(c: char, radix: nat): Option<nat>
  {
    var d :=
      if '0' <= c <= '9' then c as int - '0' as int
      else if 'a' <= c <= 'f' then c as int - 'a' as int + 10
      else if 'A' <= c <= 'F' then c as int - 'A' as int + 10
      else 16;
    if d < radix then Some(d) else None
  }

  /** The number a non-empty digit string in the given radix denotes, or None if some character is no digit. */
  function RadixValue(s: string, radix: nat): Option<nat>
  {
    if s == [] then None
    else
      var last := RadixDigit(s[|s| - 1], radix);
      if last.None? then None
      else if |s| == 1 then last
      else
        match RadixValue(s[..|s| - 1], radix)
        case None => None
        case Some(high) => Some(high * radix + last.value)
  }

  /** `[+-]? digits`, the exponent part of a decimal literal. */
  function ExponentValue(s: string): Option<int>
  {
    var negative := |s| > 0 && s[0] == '-';
    var digits := if |s| > 0 && (s[0] == '-' || s[0] == '+') then s[1..] else s;
    if digits == [] || !AllDigits(digits) then None
    else
      var magnitude: int := DigitsValue(digits);
      Some(if negative then -magnitude else magnitude)
  }

  /**
   * StrUnsignedDecimalLiteral without "Infinity": `digits [. digits] [e exp]`
   * or `. digits [e exp]`, with at least one digit in the mantissa.
   */
  function UnsignedDecimalValue(s: string): Option<real>
  {
    var k := FindChar(s, {'e', 'E'});
    match MantissaValue(s[..k])
    case None => None
    case Some(m) =>
      if k == |s| then Some(m)
      else
        match ExponentValue(s[k + 1..])
        case None => None
        case Some(e) => Some(ScaleByPowerOfTen(m, e))
  }

  /** The part of a decimal literal before its exponent: `digits [. digits]` or `. digits`. */
  function MantissaValue(mantissa: string): Option<real>
  {
    var d := FindChar(mantissa, {'.'});
    if d == |mantissa| then
      if mantissa == [] || !AllDigits(mantissa) then None
      else Some(DigitsValue(mantissa) as real)
    else
      var whole, fraction := mantissa[..d], mantissa[d + 1..];
      if !AllDigits(whole) || !AllDigits(fraction) || |whole| + |fraction| == 0 then None
      else Some(DigitsValue(whole) as real + FractionValue(fraction))
  }

  /** The value of the digits after a decimal point. */
  function FractionValue(fraction: string): real
    requires AllDigits(fraction)
  {
    DigitsValue(fraction) as real / Pow(10, |fraction|) as real
  }

  /** The unary plus applied to a string: StringToNumber of ECMA-262, with exact arithmetic. */
  function ToNumber(s: string): (n: JsNumber)
    ensures Trim(s) == [] ==> n == Finite(0.0)
    ensures n == PositiveInfinity <==> Trim(s) == "Infinity" || Trim(s) == "+Infinity"
    ensures n == NegativeInfinity <==> Trim(s) == "-Infinity"
  {
    var t := Trim(s);
    assert t != [] ==> t == [t[0]] + t[1..];
    assert "Infinity"[0] == 'I' && "+Infinity"[0] == '+' && "-Infinity"[0] == '-';
    assert "+Infinity"[1..] == "Infinity" == "-Infinity"[1..];
    if t == [] then Finite(0.0)
    else if |t| >= 2 && t[0] == '0' && t[1] in {'x', 'X', 'o', 'O', 'b', 'B'} then
      var radix := if t[1] in {'x', 'X'} then 16 else if t[1] in {'o', 'O'} then 8 else 2;
      match RadixValue(t[2..], radix)
      case None => NaN
      case Some(v) => Finite(v as real)
    else
      var negative := t[0] == '-';
      var body := if t[0] == '-' || t[0] == '+' then t[1..] else t;
      if body == "Infinity" then (if negative then NegativeInfinity else PositiveInfinity)
      else
        match UnsignedDecimalValue(body)
        case None => NaN
        case Some(v) => Finite(if negative then -v else v)
  }

  /** A string that is only white space converts to zero. */
  lemma BlankIsZero(s: string)
    requires AllWhiteSpace(s)
    ensures ToNumber(s) == Finite(0.0)
  {
  }

  /** A plain digit string is a decimal literal denoting its digits' value. */
  lemma DigitsAreDecimal(t: string)
    requires |t| > 0 && AllDigits(t)
    ensures UnsignedDecimalValue(t) == Some(DigitsValue(t) as real)
  {
    NoCharAmongDigits(t, {'e', 'E'});
    assert t[..FindChar(t, {'e', 'E'})] == t;
    DigitsAreMantissa(t);
  }

  /** A plain digit string is a mantissa without a fraction. */
  lemma DigitsAreMantissa(t: string)
    requires |t| > 0 && AllDigits(t)
    ensures MantissaValue(t) == Some(DigitsValue(t) as real)
  {
    NoCharAmongDigits(t, {'.'});
  }

  /** FindChar finds nothing when every character of s is a digit and no digit is sought. */
  lemma NoCharAmongDigits(t: string, cs: set<char>)
    requires AllDigits(t)
    requires forall c :: c in cs ==> !IsDigit(c)
    ensures FindChar(t, cs) == |t|
  {
  }

  /** The decimal rendering of a natural number converts back to that number. */
  lemma ToNumberShowNat(n: nat)
    ensures ToNumber(ShowNat(n)) == Finite(n as real)
  {
    var t := ShowNat(n);
    DigitsAreTrimmed(t);
    assert IsDigit(t[0]);
    assert |t| >= 2 ==> t[0] != '0';
    assert t != "Infinity" by {
      assert "Infinity"[0] == 'I';
    }
    DigitsAreDecimal(t);
  }

  /**
   * Text that does not start like a number (after trimming: not a digit,
   * sign, point or the `I` of Infinity) converts to NaN.
   */
  lemma NonNumericIsNaN(s: string)
    requires var t := Trim(s);
      t != [] && !IsDigit(t[0]) && t[0] !in {'+', '-', '.', 'I'}
    ensures ToNumber(s) == NaN
  {
    var t := Trim(s);
    assert t != "Infinity";
    var k := FindChar(t, {'e', 'E'});
    var mantissa := t[..k];
    var d := FindChar(mantissa, {'.'});
    if k > 0 {
      assert mantissa[0] == t[0];
      assert d > 0;
      assert mantissa[..d][0] == t[0];
    }
  }
}
