/** The JavaScript number semantics the extension relies on: number values
    (finite, infinite, NaN), the relational operators, multiplication,
    String(n) for integers (the property key a tab id is stored under),
    the global parseInt and the StringToNumber conversion. Finite numbers
    are modelled as reals: double rounding and overflow are not modelled. */
module JsNumbers {

  datatype Option<T> = None | Some(value: T)

  /** A JavaScript number. -0 and +0 are both Finite(0.0). */
  datatype NumVal = Finite(x: real) | PosInf | NegInf | NaN

  /** Number.isFinite on a number */
  predicate IsFinite(n: NumVal) {
    n.Finite?
  }

  /** a < b on numbers: false whenever NaN is involved */
  predicate Less(a: NumVal, b: NumVal) {
    if a.NaN? || b.NaN? || a == b then false
    else if a.PosInf? || b.NegInf? then false
    else if a.NegInf? || b.PosInf? then true
    else a.x < b.x
  }

  /** a <= b on numbers: false whenever NaN is involved, otherwise !(b < a) */
  predicate LessEq(a: NumVal, b: NumVal) {
    !a.NaN? && !b.NaN? && !Less(b, a)
  }

  /** a >= b on numbers */
  predicate GreaterEq(a: NumVal, b: NumVal) {
    LessEq(b, a)
  }

  predicate IsZero(n: NumVal) {
    n == Finite(0.0)
  }

  /** The sign of a non-zero, non-NaN number */
  function Sign(n: NumVal): int
    requires !n.NaN? && !IsZero(n)
  {
    if n.PosInf? || (n.Finite? && n.x > 0.0) then 1 else -1
  }

  /** a * b on numbers: NaN exactly when an operand is NaN or zero
      meets an infinity */
  function Mul(a: NumVal, b: NumVal): (r: NumVal)
    ensures r.NaN? <==> a.NaN? || b.NaN? || (IsZero(a) && !b.Finite?) || (IsZero(b) && !a.Finite?)
    ensures a.Finite? && b.Finite? ==> r == Finite(a.x * b.x)
  {
    if a.NaN? || b.NaN? then NaN
    else if a.Finite? && b.Finite? then Finite(a.x * b.x)
    else if IsZero(a) || IsZero(b) then NaN
    else if Sign(a) * Sign(b) > 0 then PosInf
    else NegInf
  }

  // ---------------------------------------------------------------------
  // Digits

  /** The value of c as a digit in radix 36 ('0'-'9', 'a'-'z', 'A'-'Z'),
      or 36 when c is not such a digit */
  function DigitValue(c: char): nat {
    if '0' <= c <= '9' then (c as int) - ('0' as int)
    else if 'a' <= c <= 'z' then (c as int) - ('a' as int) + 10
    else if 'A' <= c <= 'Z' then (c as int) - ('A' as int) + 10
    else 36
  }

  predicate IsDigitIn(c: char, radix: nat) {
    DigitValue(c) < radix
  }

  /** The number of leading characters of s that are digits in the radix */
  function PrefixLen(s: string, radix: nat): (n: nat)
    ensures n <= |s|
    ensures forall i :: 0 <= i < n ==> IsDigitIn(s[i], radix)
    ensures n < |s| ==> !IsDigitIn(s[n], radix)
  {
    if |s| == 0 || !IsDigitIn(s[0], radix) then 0 else 1 + PrefixLen(s[1..], radix)
  }

  /** The value of a string of digits in the given radix, most significant first */
  function ValueOf(ds: string, radix: nat): nat {
    if |ds| == 0 then 0
    else ValueOf(ds[..|ds| - 1], radix) * radix + DigitValue(ds[|ds| - 1])
  }

  function DecimalDigit(d: nat): (c: char)
    requires d < 10
    ensures IsDigitIn(c, 10) && DigitValue(c) == d
  {
    (('0' as int) + d) as char
  }

  /** The decimal numeral of n, as Number.prototype.toString writes an integer */
  function NatToDecimal(n: nat): (s: string)
    ensures |s| >= 1
    ensures forall i :: 0 <= i < |s| ==> IsDigitIn(s[i], 10)
    ensures s[0] == '0' ==> n == 0 && |s| == 1
    decreases n
  {
    if n < 10 then [DecimalDigit(n)] else NatToDecimal(n / 10) + [DecimalDigit(n % 10)]
  }

  /** String(id) for an integer id: the key of a property id on an object */
  function IntToString(i: int): (s: string)
    ensures |s| >= 1 && (s[0] == '-' <==> i < 0)
    ensures forall k :: (if i < 0 then 1 else 0) <= k < |s| ==> IsDigitIn(s[k], 10)
  {
    if i < 0 then "-" + NatToDecimal(-i) else NatToDecimal(i)
  }

  lemma {:induction false} DecimalRoundTrip(n: nat)
    ensures ValueOf(NatToDecimal(n), 10) == n
    decreases n
  {
    if n >= 10 {
      var s := NatToDecimal(n);
      DecimalRoundTrip(n / 10);
      assert s[..|s| - 1] == NatToDecimal(n / 10);
    }
  }

  // ---------------------------------------------------------------------
  // White space (WhiteSpace and LineTerminator of ECMA-262)

  predicate IsWhiteSpace(c: char) {
    || c == '\t' || c == '\n' || c == '\r' || c == ' '
    || c == '\U{000B}' || c == '\U{000C}' || c == '\U{00A0}' || c == '\U{FEFF}'
    || c == '\U{1680}' || ('\U{2000}' <= c <= '\U{200A}')
    || c == '\U{2028}' || c == '\U{2029}' || c == '\U{202F}' || c == '\U{205F}'
    || c == '\U{3000}'
  }

  function TrimStart(s: string): (t: string)
    ensures |t| <= |s|
    ensures |t| > 0 ==> !IsWhiteSpace(t[0])
    decreases |s|
  {
    if |s| > 0 && IsWhiteSpace(s[0]) then TrimStart(s[1..]) else s
  }

  function TrimEnd(s: string): (t: string)
    decreases |s|
  {
    if |s| > 0 && IsWhiteSpace(s[|s| - 1]) then TrimEnd(s[..|s| - 1]) else s
  }

  // ---------------------------------------------------------------------
  // parseInt(s) with no radix argument

  /** The value of the longest run of leading digits in the radix, or
      None when there is no digit at all */
  function LeadingDigits(body: string, radix: nat): Option<nat> {
    var n := PrefixLen(body, radix);
    if n == 0 then None else Some(ValueOf(body[..n], radix))
  }

  /** The digits after the sign: a "0x" or "0X" prefix selects radix 16,
      otherwise the radix is 10 */
  function ParseUnsigned(u: string): Option<nat> {
    if |u| >= 2 && u[0] == '0' && (u[1] == 'x' || u[1] == 'X') then LeadingDigits(u[2..], 16)
    else LeadingDigits(u, 10)
  }

  function Signed(magnitude: Option<nat>, negative: bool): Option<int> {
    match magnitude
    case None => None
    case Some(v) => Some(if negative then -(v as int) else v as int)
  }

  /** parseInt(s): leading white space skipped, an optional sign, a "0x" or
      "0X" prefix selecting radix 16, then the longest run of digits; no
      digit at all gives NaN (None). Integers only, so -0 is 0. */
  function ParseInt(s: string): (r: Option<int>)
    ensures r.Some? ==> |TrimStart(s)| > 0
    ensures r.Some? && r.value < 0 ==> TrimStart(s)[0] == '-'
  {
    var t := TrimStart(s);
    var negative := |t| > 0 && t[0] == '-';
    var u := if |t| > 0 && (t[0] == '-' || t[0] == '+') then t[1..] else t;
    Signed(ParseUnsigned(u), negative)
  }

  /** A string of decimal digits has no white space to trim */
  lemma DigitsAreTrimmed(s: string)
    requires forall i :: 0 <= i < |s| ==> IsDigitIn(s[i], 10)
    ensures TrimStart(s) == s && TrimEnd(s) == s
  {
    if |s| > 0 {
      assert !IsWhiteSpace(s[0]) && !IsWhiteSpace(s[|s| - 1]);
    }
  }

  /** The leading digits of a nonempty run of decimal digits are all of it */
  lemma ParseUnsignedOfDigits(ds: string)
    requires |ds| > 0 && forall i :: 0 <= i < |ds| ==> IsDigitIn(ds[i], 10)
    ensures ParseUnsigned(ds) == Some(ValueOf(ds, 10))
  {
    var n := PrefixLen(ds, 10);
    assert n == |ds|;
    assert ds[..n] == ds;
    assert |ds| >= 2 ==> ds[1] != 'x' && ds[1] != 'X';
  }

  /** parseInt of a minus sign followed by u negates what u parses to */
  lemma ParseIntOfMinus(u: string)
    ensures ParseInt("-" + u) == Signed(ParseUnsigned(u), true)
  {
    var s := "-" + u;
    assert TrimStart(s) == s;
    assert s[1..] == u;
  }

  /** parseInt of a string that starts with a digit parses it unsigned */
  lemma ParseIntOfUnsigned(u: string)
    requires |u| > 0 && IsDigitIn(u[0], 10)
    ensures ParseInt(u) == Signed(ParseUnsigned(u), false)
  {
    assert !IsWhiteSpace(u[0]);
    assert TrimStart(u) == u;
  }

  /** parseInt reads back every integer that String wrote */
  lemma ParseIntOfString(i: int)
    ensures ParseInt(IntToString(i)) == Some(i)
  {
    var ds := NatToDecimal(if i < 0 then -i else i);
    DecimalRoundTrip(if i < 0 then -i else i);
    ParseUnsignedOfDigits(ds);
    if i < 0 {
      ParseIntOfMinus(ds);
    } else {
      ParseIntOfUnsigned(ds);
    }
  }

  /** Distinct tab ids are stored under distinct property keys */
  lemma IntToStringInjective(a: int, b: int)
    ensures IntToString(a) == IntToString(b) <==> a == b
  {
    ParseIntOfString(a);
    ParseIntOfString(b);
  }

  // ---------------------------------------------------------------------
  // StringToNumber (Number(s) for a string s)

  function Pow10(n: nat): (r: real)
    ensures r >= 1.0
  {
    if n == 0 then 1.0 else 10.0 * Pow10(n - 1)
  }

  function Scale(e: int): real {
    if e >= 0 then Pow10(e) else 1.0 / Pow10(-e)
  }

  /** SignedInteger: an optional sign and one or more decimal digits, nothing after */
  function SignedInteger(s: string): Option<int> {
    var negative := |s| > 0 && s[0] == '-';
    var ds := if |s| > 0 && (s[0] == '-' || s[0] == '+') then s[1..] else s;
    if |ds| == 0 || PrefixLen(ds, 10) != |ds| then None
    else
      var v: int := ValueOf(ds, 10);
      Some(if negative then -v else v)
  }

  /** ExponentPart, or nothing at all (exponent 0) */
  function Exponent(s: string): Option<int> {
    if |s| == 0 then Some(0)
    else if s[0] == 'e' || s[0] == 'E' then SignedInteger(s[1..])
    else None
  }

  /** StrUnsignedDecimalLiteral other than Infinity: digits, an optional
      fraction, an optional exponent, with at least one digit before the
      exponent */
  function UnsignedDecimal(u: string): Option<real> {
    var i := PrefixLen(u, 10);
    var whole := u[..i];
    var rest := u[i..];
    var hasPoint := |rest| > 0 && rest[0] == '.';
    var afterPoint := if hasPoint then rest[1..] else "";
    var frac := afterPoint[..PrefixLen(afterPoint, 10)];
    var tail := if hasPoint then afterPoint[|frac|..] else rest;
    if |whole| + |frac| == 0 then None
    else match Exponent(tail)
      case None => None
      case Some(e) =>
        Some((ValueOf(whole, 10) as real + ValueOf(frac, 10) as real / Pow10(|frac|)) * Scale(e))
  }

  /** The radix a "0x", "0o" or "0b" prefix selects, 0 for any other letter */
  function PrefixRadix(c: char): nat {
    if c == 'x' || c == 'X' then 16
    else if c == 'o' || c == 'O' then 8
    else if c == 'b' || c == 'B' then 2
    else 0
  }

  /** Number(s): surrounding white space is ignored, the empty string is 0,
      otherwise s must be a StrNumericLiteral as a whole or the result is NaN */
  function StringToNumber(s: string): (r: NumVal)
    ensures |TrimEnd(TrimStart(s))| == 0 ==> r == Finite(0.0)
    ensures r.PosInf? || r.NegInf? ==> TrimEnd(TrimStart(s)) in {"Infinity", "+Infinity", "-Infinity"}
  {
    var t := TrimEnd(TrimStart(s));
    if |t| == 0 then Finite(0.0)
    else if |t| >= 2 && t[0] == '0' && PrefixRadix(t[1]) > 0 then
      var ds := t[2..];
      if |ds| > 0 && PrefixLen(ds, PrefixRadix(t[1])) == |ds|
      then Finite(ValueOf(ds, PrefixRadix(t[1])) as real)
      else NaN
    else
      var negative := t[0] == '-';
      var u := if t[0] == '-' || t[0] == '+' then t[1..] else t;
      if u == "Infinity" then
        assert t[0] == '-' ==> t == "-" + u == "-Infinity";
        assert t[0] == '+' ==> t == "+" + u == "+Infinity";
        if negative then NegInf else PosInf
      else match UnsignedDecimal(u)
        case None => NaN
        case Some(v) => Finite(if negative then -v else v)
  }

  /** A nonempty string of decimal digits is an unsigned decimal literal
      with neither fraction nor exponent */
  lemma UnsignedDecimalOfDigits(s: string)
    requires |s| > 0 && forall i :: 0 <= i < |s| ==> IsDigitIn(s[i], 10)
    ensures UnsignedDecimal(s) == Some(ValueOf(s, 10) as real)
  {
    var i := PrefixLen(s, 10);
    assert i == |s|;
    assert s[..i] == s && s[i..] == "";
    assert UnsignedDecimal(s) ==
             Some((ValueOf(s, 10) as real + ValueOf("", 10) as real / Pow10(0)) * Scale(0));
  }

  /** Number reads back every decimal numeral that String wrote */
  lemma StringToNumberOfDecimal(n: nat)
    ensures StringToNumber(NatToDecimal(n)) == Finite(n as real)
  {
    var s := NatToDecimal(n);
    DecimalRoundTrip(n);
    DigitsAreTrimmed(s);
    UnsignedDecimalOfDigits(s);
    assert |s| >= 2 ==> s[0] != '0';
    assert s[0] != '-' && s[0] != '+' && s != "Infinity";
    assert StringToNumber(s) == Finite(ValueOf(s, 10) as real);
  }
}
