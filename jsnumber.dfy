/** JavaScript numbers as the availability code produces them from strings:
    `Number(s)` (the StringToNumber conversion of ECMAScript), the truncation
    `setHours` applies to its arguments, and the few operations
    `analyzeAvailabilities` performs on them. A finite number is kept as the exact
    real its literal denotes. */
module JsNumber {
  import opened Wrappers
  import Text

  datatype Num = NaN | Infinity(negative: bool) | Finite(value: real)

  function Pow10(n: nat): (r: nat)
    ensures r >= 1
  {
    if n == 0 then 1 else 10 * Pow10(n - 1)
  }

  /** `n * 10^e` as a real. */
  function Scale(n: nat, e: int): real {
    if e >= 0 then (n * Pow10(e)) as real else n as real / Pow10(-e) as real
  }

  /** The value of a digit character in radix 36: `0`-`9`, then `a`-`z` or `A`-`Z`. */
  function DigitValue(c: char): (r: Option<nat>)
    ensures r.Some? ==> r.value < 36
  {
    if '0' <= c <= '9' then Some(c as int - '0' as int)
    else if 'a' <= c <= 'z' then Some(c as int - 'a' as int + 10)
    else if 'A' <= c <= 'Z' then Some(c as int - 'A' as int + 10)
    else None
  }

  predicate IsRadixDigit(c: char, radix: nat) {
    DigitValue(c).Some? && DigitValue(c).value < radix
  }

  /** The number a non-empty string of digits of the given radix denotes. */
  function RadixValue(s: string, radix: nat): (r: Option<nat>)
    ensures r.Some? <==> s != [] && forall i :: 0 <= i < |s| ==> IsRadixDigit(s[i], radix)
    decreases |s|
  {
    if s == [] || !IsRadixDigit(s[|s| - 1], radix) then None
    else if |s| == 1 then Some(DigitValue(s[0]).value)
    else
      match RadixValue(s[..|s| - 1], radix)
      case None => None
      case Some(front) => Some(front * radix + DigitValue(s[|s| - 1]).value)
  }

  function WithSign(negative: bool, v: real): real {
    if negative then -v else v
  }

  predicate IsExponentMark(c: char) {
    c == 'e' || c == 'E'
  }

  /** How far the scan of a numeric literal has got. */
  datatype Lexing =
    | Begin                                             // nothing read yet
    | Signed(negative: bool)                            // after an optional sign
    | Integral(negative: bool, digits: nat)             // digits before any point
    | Fractional(negative: bool, digits: nat, places: nat, seen: bool)
                                                        // after the point; `seen`: some digit so far
    | ExponentSign(negative: bool, digits: nat, places: nat)
                                                        // after `e` or `E`
    | ExponentDigits(negative: bool, digits: nat, places: nat, expNegative: bool, exponent: nat)
    | Prefixed(radix: nat, value: nat, seen: bool)      // after `0x`, `0o` or `0b`

  /** The radix a `0x`, `0o` or `0b` prefix (either case) announces. */
  function PrefixRadix(c: char): Option<nat> {
    if c == 'x' || c == 'X' then Some(16)
    else if c == 'o' || c == 'O' then Some(8)
    else if c == 'b' || c == 'B' then Some(2)
    else None
  }

  /** The `StringNumericLiteral` grammar on an already trimmed string `t`, read
      from index `i` on in state `st`: a blank string is 0; a `0x`/`0o`/`0b`
      integer takes no sign; otherwise an optional sign, then `Infinity` or
      digits with an optional point and fraction (one digit at least) and an
      optional exponent. Anything else is `NaN`. */
  function Lex(t: string, i: nat, st: Lexing): Num
    requires i <= |t|
    decreases |t| - i, if st.Begin? then 1 else 0
  {
    match st
    case Begin =>
      if i == |t| then Finite(0.0)
      else if i + 2 <= |t| && t[i] == '0' && PrefixRadix(t[i + 1]).Some? then
        Lex(t, i + 2, Prefixed(PrefixRadix(t[i + 1]).value, 0, false))
      else if t[i] == '+' || t[i] == '-' then Lex(t, i + 1, Signed(t[i] == '-'))
      else Lex(t, i, Signed(false))
    case Signed(negative) =>
      if t[i..] == "Infinity" then Infinity(negative)
      else if i < |t| && Text.IsDigit(t[i]) then Lex(t, i + 1, Integral(negative, t[i] as int - '0' as int))
      else if i < |t| && t[i] == '.' then Lex(t, i + 1, Fractional(negative, 0, 0, false))
      else NaN
    case Integral(negative, digits) =>
      if i == |t| then Finite(WithSign(negative, digits as real))
      else if Text.IsDigit(t[i]) then Lex(t, i + 1, Integral(negative, digits * 10 + (t[i] as int - '0' as int)))
      else if t[i] == '.' then Lex(t, i + 1, Fractional(negative, digits, 0, true))
      else if IsExponentMark(t[i]) then Lex(t, i + 1, ExponentSign(negative, digits, 0))
      else NaN
    case Fractional(negative, digits, places, seen) =>
      if i == |t| then (if seen then Finite(WithSign(negative, Scale(digits, -(places as int)))) else NaN)
      else if Text.IsDigit(t[i]) then
        Lex(t, i + 1, Fractional(negative, digits * 10 + (t[i] as int - '0' as int), places + 1, true))
      else if seen && IsExponentMark(t[i]) then Lex(t, i + 1, ExponentSign(negative, digits, places))
      else NaN
    case ExponentSign(negative, digits, places) =>
      if i < |t| && (t[i] == '+' || t[i] == '-') && i + 1 < |t| && Text.IsDigit(t[i + 1]) then
        Lex(t, i + 2, ExponentDigits(negative, digits, places, t[i] == '-', t[i + 1] as int - '0' as int))
      else if i < |t| && Text.IsDigit(t[i]) then
        Lex(t, i + 1, ExponentDigits(negative, digits, places, false, t[i] as int - '0' as int))
      else NaN
    case ExponentDigits(negative, digits, places, expNegative, exponent) =>
      if i == |t| then
        Finite(WithSign(negative, Scale(digits, (if expNegative then -(exponent as int) else exponent as int) - places)))
      else if Text.IsDigit(t[i]) then
        Lex(t, i + 1, ExponentDigits(negative, digits, places, expNegative, exponent * 10 + (t[i] as int - '0' as int)))
      else NaN
    case Prefixed(radix, value, seen) =>
      if i == |t| then (if seen then Finite(value as real) else NaN)
      else if IsRadixDigit(t[i], radix) then Lex(t, i + 1, Prefixed(radix, value * radix + DigitValue(t[i]).value, true))
      else NaN
  }

  /** `Number(s)`: surrounding whitespace is ignored, the rest must be a numeric
      literal. */
  function StringToNumber(s: string): Num {
    Lex(Text.Trim(s), 0, Begin)
  }

  /** The longest prefix of `s` made of digits of the given radix. */
  function LeadingRadixDigits(s: string, radix: nat): (r: string)
    ensures |r| <= |s| && r == s[..|r|]
    ensures forall i :: 0 <= i < |r| ==> IsRadixDigit(r[i], radix)
    ensures |r| == |s| || !IsRadixDigit(s[|r|], radix)
    decreases |s|
  {
    if s != [] && IsRadixDigit(s[0], radix) then [s[0]] + LeadingRadixDigits(s[1..], radix) else []
  }

  /** `parseInt(s)` without a radix: leading whitespace, an optional sign, a
      `0x`/`0X` prefix that selects radix 16, then the longest run of digits of
      the radix; `None` stands for `NaN` (not a single digit). */
  function ParseInt(s: string): Option<int> {
    var t := Text.TrimStart(s);
    var negative := t != [] && t[0] == '-';
    var body := if t != [] && (t[0] == '-' || t[0] == '+') then t[1..] else t;
    var hex := |body| >= 2 && body[0] == '0' && (body[1] == 'x' || body[1] == 'X');
    var radix := if hex then 16 else 10;
    var digits := LeadingRadixDigits(if hex then body[2..] else body, radix);
    if digits == [] then None
    else
      var value: int := RadixValue(digits, radix).value;
      Some(if negative then -value else value)
  }

  /** `ToIntegerOrInfinity` on a finite number (truncation toward zero), as
      `setHours` applies it; `None` for `NaN` and the infinities, which make the
      date invalid. */
  function Truncate(n: Num): (r: Option<int>)
    ensures r.Some? <==> n.Finite?
    ensures r.Some? && n.value >= 0.0 ==> r.value as real <= n.value < r.value as real + 1.0
    ensures r.Some? && n.value < 0.0 ==> r.value as real - 1.0 < n.value <= r.value as real
  {
    match n
    case Finite(v) => Some(if v >= 0.0 then v.Floor else -((-v).Floor))
    case _ => None
  }

  function Negate(a: Num): Num {
    match a
    case NaN => NaN
    case Infinity(negative) => Infinity(!negative)
    case Finite(v) => Finite(-v)
  }

  /** `a + b`; opposite infinities give `NaN`. */
  function Add(a: Num, b: Num): (r: Num)
    ensures a.Finite? && b.Finite? ==> r == Finite(a.value + b.value)
    ensures a.NaN? || b.NaN? ==> r.NaN?
  {
    match (a, b)
    case (NaN, _) => NaN
    case (_, NaN) => NaN
    case (Infinity(x), Infinity(y)) => if x == y then a else NaN
    case (Infinity(_), _) => a
    case (_, Infinity(_)) => b
    case (Finite(x), Finite(y)) => Finite(x + y)
  }

  function Sub(a: Num, b: Num): Num {
    Add(a, Negate(b))
  }

  /** `a * c` for a finite `c`; an infinity times zero is `NaN`. */
  function MulBy(a: Num, c: real): (r: Num)
    ensures a.Finite? ==> r == Finite(a.value * c)
    ensures a.NaN? ==> r.NaN?
  {
    if a.Finite? then Finite(a.value * c)
    else if a.NaN? || c == 0.0 then NaN
    else Infinity(a.negative != (c < 0.0))
  }

  /** `a < b` for a finite `b`: false whenever `a` is `NaN`. */
  predicate LessThan(a: Num, b: real) {
    match a
    case NaN => false
    case Infinity(negative) => negative
    case Finite(v) => v < b
  }

  // ---------------------------------------------------------------- properties

  lemma DigitIsDecimal(c: char)
    requires Text.IsDigit(c)
    ensures !Text.IsJsWhitespace(c) && c != '-' && c != '+'
  {
  }

  lemma DigitsTrimmed(d: string)
    requires |d| > 0 && Text.AllDigits(d)
    ensures Text.Trim(d) == d
  {
    DigitIsDecimal(d[0]);
    assert Text.TrimStart(d) == d;
    DigitIsDecimal(d[|d| - 1]);
    assert Text.TrimEnd(d) == d;
  }

  lemma {:induction false} LexIntegral(d: string, i: nat)
    requires 1 <= i <= |d| && Text.AllDigits(d)
    ensures Lex(d, i, Integral(false, Text.DigitsValue(d[..i]))) == Finite(Text.DigitsValue(d) as real)
    decreases |d| - i
  {
    if i == |d| {
      assert d[..i] == d;
    } else {
      assert d[..i + 1][..i] == d[..i];
      LexIntegral(d, i + 1);
    }
  }

  /** A run of decimal digits reads as the number it denotes, however many
      leading zeros it has. */
  lemma NumberOfDigits(d: string)
    requires |d| > 0 && Text.AllDigits(d)
    ensures StringToNumber(d) == Finite(Text.DigitsValue(d) as real)
  {
    DigitsTrimmed(d);
    if |d| >= 2 {
      assert Text.IsDigit(d[1]);
      assert PrefixRadix(d[1]).None?;
    }
    DigitIsDecimal(d[0]);
    assert Lex(d, 0, Begin) == Lex(d, 0, Signed(false));
    assert d[0..] != "Infinity" by {
      assert d[0..][0] == d[0];
    }
    assert d[..1] == [d[0]];
    assert Text.DigitsValue(d[..1]) == d[0] as int - '0' as int;
    LexIntegral(d, 1);
  }

  /** In radix 10 the digit value is the decimal value. */
  lemma {:induction false} RadixValueDecimal(d: string)
    requires |d| > 0 && Text.AllDigits(d)
    ensures RadixValue(d, 10) == Some(Text.DigitsValue(d))
    decreases |d|
  {
    if |d| > 1 {
      RadixValueDecimal(d[..|d| - 1]);
    }
  }

  /** `parseInt` reads back a decimal rendering. */
  lemma ParseIntOfNat(n: nat)
    ensures ParseInt(Text.NatToString(n)) == Some(n)
  {
    var d := Text.NatToString(n);
    DigitIsDecimal(d[0]);
    assert Text.TrimStart(d) == d;
    assert LeadingRadixDigits(d, 10) == d by {
      Text.LeadingDigitsOf(d, []);
      assert d + [] == d;
      LeadingRadixDigitsDecimal(d);
    }
    RadixValueDecimal(d);
  }

  lemma {:induction false} LeadingRadixDigitsDecimal(s: string)
    ensures LeadingRadixDigits(s, 10) == Text.LeadingDigits(s)
    decreases |s|
  {
    if s != [] {
      LeadingRadixDigitsDecimal(s[1..]);
    }
  }

  /** A decimal rendering reads back as the number rendered. */
  lemma NumberOfNatToString(n: nat)
    ensures StringToNumber(Text.NatToString(n)) == Finite(n as real)
  {
    NumberOfDigits(Text.NatToString(n));
  }

  /** Truncation leaves an integer as it is. */
  lemma TruncateInteger(n: int)
    ensures Truncate(Finite(n as real)) == Some(n)
  {
  }

  /** A sign before the digits. */
  lemma SignedNumbers()
    ensures StringToNumber("-1") == Finite(-1.0)
    ensures StringToNumber("+8") == Finite(8.0)
  {
    Text.TrimUnchanged("-1");
    Text.TrimUnchanged("+8");
  }

  /** A fraction after the point. */
  lemma FractionNumber()
    ensures StringToNumber("8.5") == Finite(8.5)
  {
    Text.TrimUnchanged("8.5");
    assert Lex("8.5", 0, Begin) == Lex("8.5", 0, Signed(false)) == Lex("8.5", 1, Integral(false, 8));
    assert Lex("8.5", 1, Integral(false, 8)) == Lex("8.5", 2, Fractional(false, 8, 0, true));
    assert Lex("8.5", 2, Fractional(false, 8, 0, true)) == Lex("8.5", 3, Fractional(false, 85, 1, true));
    assert Scale(85, -1) == 8.5;
  }

  /** An exponent. */
  lemma ExponentNumber()
    ensures StringToNumber("1e1") == Finite(10.0)
  {
    Text.TrimUnchanged("1e1");
  }

  /** A hexadecimal prefix, surrounding blanks and the blank string. */
  lemma PrefixedAndBlankNumbers()
    ensures StringToNumber("0x8") == Finite(8.0)
    ensures StringToNumber(" 8 ") == Finite(8.0)
    ensures StringToNumber("") == Finite(0.0)
    ensures StringToNumber("-Infinity") == Infinity(true)
  {
    Text.TrimUnchanged("0x8");
    assert Text.Trim(" 8 ") == "8" by {
      assert Text.TrimStart(" 8 ") == Text.TrimStart("8 ") == "8 " by { assert " 8 "[1..] == "8 "; }
      assert Text.TrimEnd("8 ") == Text.TrimEnd("8") == "8" by { assert "8 "[..1] == "8"; }
    }
    Text.TrimUnchanged("");
    Text.TrimUnchanged("-Infinity");
    assert "-Infinity"[1..] == "Infinity";
  }

  /** Strings the grammar refuses: trailing text, a sign before a prefix, a lone
      point. */
  lemma NotANumber()
    ensures StringToNumber("8h") == NaN
    ensures StringToNumber("-0x8") == NaN
    ensures StringToNumber(".") == NaN
  {
    Text.TrimUnchanged("8h");
    Text.TrimUnchanged("-0x8");
    Text.TrimUnchanged(".");
  }
}
