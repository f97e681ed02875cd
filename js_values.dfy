/** JavaScript values as the CSV reader (with dynamic typing) hands them to the
    pipeline, and the runtime operations the pipeline applies to them: `typeof`,
    truthiness, `Number(...)`, the global `isNaN` and `isFinite`, `Math.round` and
    `toFixed(1)`. Numbers are exact reals; NaN and the two infinities are kept as
    values of their own. */
module JsValues {
  import opened Options
  import opened JsStrings

  /** A JavaScript number: a finite value, NaN, or an infinity. */
  datatype JsNumber = Finite(value: real) | NaN | Infinite(negative: bool)

  /** A field of a parsed row: a number, a string the reader did not convert, a
      boolean (from `true`/`false`), `null` (an empty cell) or `undefined` (a
      column the row does not have). */
  datatype JsValue = Num(n: JsNumber) | Str(s: string) | Bool(b: bool) | Null | Undefined

  /** `typeof v`: "number" exactly for numbers (NaN and the infinities included),
      "string" exactly for strings. */
  function TypeOf(v: JsValue): (t: string)
    ensures t == "number" <==> v.Num?
    ensures t == "string" <==> v.Str?
  {
    match v
    case Num(_) => "number"
    case Str(_) => "string"
    case Bool(_) => "boolean"
    case Null => "object"
    case Undefined => "undefined"
  }

  /** JavaScript truthiness: false exactly for 0, NaN, "", false, null and undefined. */
  predicate Truthy(v: JsValue) {
    match v
    case Num(n) => !(n.NaN? || (n.Finite? && n.value == 0.0))
    case Str(s) => s != ""
    case Bool(b) => b
    case Null => false
    case Undefined => false
  }

  /** The falsy values are exactly 0, NaN, "", false, null and undefined. */
  lemma FalsyValues(v: JsValue)
    ensures !Truthy(v) <==> v in [Num(Finite(0.0)), Num(NaN), Str(""), Bool(false), Null, Undefined]
  {
  }

  /** `Number(v)`: a number is left as it is, `null` and the booleans become 0 or
      1, `undefined` is NaN, and a string is read as `StringToNumber` says. */
  function ToNumber(v: JsValue): (r: JsNumber)
    ensures v.Num? ==> r == v.n
    ensures (v.Bool? || v.Null?) ==> r.Finite? && (r.value == 0.0 || r.value == 1.0)
    ensures v.Undefined? ==> r.NaN?
  {
    match v
    case Num(n) => n
    case Str(s) => StringToNumber(s)
    case Bool(b) => Finite(if b then 1.0 else 0.0)
    case Null => Finite(0.0)
    case Undefined => NaN
  }

  /** The base that a `0x`, `0o` or `0b` prefix selects (given its second
      character), or 0 when the character selects none. */
  function RadixOfPrefix(c: char): nat {
    if c == 'x' || c == 'X' then 16
    else if c == 'o' || c == 'O' then 8
    else if c == 'b' || c == 'B' then 2
    else 0
  }

  function Pow10(n: nat): (r: real)
    ensures r >= 1.0
  {
    if n == 0 then 1.0 else 10.0 * Pow10(n - 1)
  }

  /** The factor 10^e for a decimal exponent `e` of either sign. */
  function Scale(e: int): real {
    if e >= 0 then Pow10(e) else 1.0 / Pow10(-e)
  }

  /** The exponent part `e`/`E`, optional sign, digits at the end of a decimal
      literal; 0 when there is none, `None` when the tail is not one. */
  function Exponent(tail: string): Option<int> {
    if tail == "" then Some(0)
    else if tail[0] != 'e' && tail[0] != 'E' then None
    else
      var v := tail[1..];
      var negative := |v| > 0 && v[0] == '-';
      var ds := if |v| > 0 && (v[0] == '-' || v[0] == '+') then v[1..] else v;
      if |ds| > 0 && LeadingDigits(ds, 10) == |ds| then
        var e: int := DigitsValue(ds, 10);
        Some(if negative then -e else e)
      else None
  }

  /** An unsigned decimal literal: digits, an optional point and fraction digits
      (at least one digit in all), and an optional exponent part. */
  function UnsignedDecimal(u: string): Option<real> {
    var i := LeadingDigits(u, 10);
    var rest := u[i..];
    var hasDot := |rest| > 0 && rest[0] == '.';
    var afterDot := if hasDot then rest[1..] else rest;
    var f := if hasDot then LeadingDigits(afterDot, 10) else 0;
    if i + f == 0 then None
    else
      match Exponent(afterDot[f..])
      case None => None
      case Some(e) =>
        Some((DigitsValue(u[..i], 10) as real + DigitsValue(afterDot[..f], 10) as real / Pow10(f)) * Scale(e))
  }

  /** `Number(s)` for a string: surrounding white space is ignored, a blank string
      is 0, `0x`/`0o`/`0b` introduce unsigned integers in base 16, 8 and 2, and
      otherwise a signed decimal literal or `Infinity` is expected; anything else
      is NaN. */
  function StringToNumber(s: string): (r: JsNumber)
    ensures Trim(s) == "" ==> r == Finite(0.0)
  {
    var t := Trim(s);
    if t == "" then Finite(0.0)
    else if |t| >= 2 && t[0] == '0' && RadixOfPrefix(t[1]) > 0 then
      var radix := RadixOfPrefix(t[1]);
      var body := t[2..];
      if |body| > 0 && LeadingDigits(body, radix) == |body| then Finite(DigitsValue(body, radix) as real)
      else NaN
    else SignedToNumber(t)
  }

  /** A trimmed, non-blank string with no radix prefix: one optional sign, then
      `Infinity` or an unsigned decimal literal. */
  function SignedToNumber(t: string): JsNumber
    requires |t| > 0
  {
    var negative := t[0] == '-';
    var u := if t[0] == '-' || t[0] == '+' then t[1..] else t;
    if u == "Infinity" then Infinite(negative)
    else
      match UnsignedDecimal(u)
      case None => NaN
      case Some(v) => Finite(if negative then -v else v)
  }

  lemma TrimDecimal(n: nat)
    ensures Trim(DecimalString(n)) == DecimalString(n)
  {
    var s := DecimalString(n);
    DecimalDigit(s[0]);
    DecimalDigit(s[|s| - 1]);
    assert TrimStart(s) == s;
  }

  lemma UnsignedDecimalOfDecimal(n: nat)
    ensures UnsignedDecimal(DecimalString(n)) == Some(n as real)
  {
    var s := DecimalString(n);
    assert LeadingDigits(s, 10) == |s|;
    assert s[..|s|] == s;
    assert s[|s|..] == "";
    assert Exponent("") == Some(0);
    DigitsValueOfDecimal(n);
  }

  /** `Number` reads back every decimal rendering of a natural number. */
  lemma NumberOfDecimal(n: nat)
    ensures ToNumber(Str(DecimalString(n))) == Finite(n as real)
  {
    var s := DecimalString(n);
    TrimDecimal(n);
    DecimalDigit(s[0]);
    StringToNumberOfSigned(s);
    assert s != "Infinity" by { assert "Infinity"[0] == 'I'; }
    UnsignedDecimalOfDecimal(n);
    SignedOfUnsigned(s);
  }

  /** A trimmed string with no radix prefix is read as a signed literal. */
  lemma StringToNumberOfSigned(t: string)
    requires Trim(t) == t && |t| > 0
    requires !(|t| >= 2 && t[0] == '0' && RadixOfPrefix(t[1]) > 0)
    ensures StringToNumber(t) == SignedToNumber(t)
  {
  }

  /** A literal with no sign that is not `Infinity` is read as an unsigned
      decimal literal. */
  lemma SignedOfUnsigned(u: string)
    requires |u| > 0 && u[0] != '-' && u[0] != '+' && u != "Infinity"
    requires UnsignedDecimal(u).Some?
    ensures SignedToNumber(u) == Finite(UnsignedDecimal(u).value)
  {
  }

  /** The global `isNaN(v)`, which converts its argument to a number first. */
  predicate IsNaN(v: JsValue) {
    ToNumber(v).NaN?
  }

  /** The global `isFinite(v)`, which converts its argument to a number first. */
  predicate IsFinite(v: JsValue) {
    ToNumber(v).Finite?
  }

  /** `Math.round(x)`: the nearest integer, a half rounded up. */
  function Round(x: real): (r: int)
    ensures x - 0.5 < r as real <= x + 0.5
  {
    (x + 0.5).Floor
  }

  lemma RoundMonotone(x: real, y: real)
    requires x <= y
    ensures Round(x) <= Round(y)
  {
  }

  /** `parseFloat(x.toFixed(1))`: `x` to one decimal place, a half rounded away
      from zero (the sign is set aside before rounding). */
  function ToFixed1(x: real): (r: real)
    ensures -0.05 <= r - x <= 0.05
    ensures (r * 10.0).Floor as real == r * 10.0
  {
    var k := if x >= 0.0 then Round(x * 10.0) else -Round(-x * 10.0);
    assert (k as real / 10.0) * 10.0 == k as real;
    k as real / 10.0
  }

  /** Rounding to one decimal place keeps the sign, and 0 stays 0. */
  lemma ToFixed1Sign(x: real)
    ensures x >= 0.0 ==> ToFixed1(x) >= 0.0
    ensures x <= 0.0 ==> ToFixed1(x) <= 0.0
    ensures x == 0.0 ==> ToFixed1(x) == 0.0
  {
  }

  /** `a - b` on JavaScript numbers. */
  function Sub(a: JsNumber, b: JsNumber): JsNumber {
    if a.NaN? || b.NaN? then NaN
    else if a.Infinite? && b.Infinite? then (if a.negative == b.negative then NaN else a)
    else if a.Infinite? then a
    else if b.Infinite? then Infinite(!b.negative)
    else Finite(a.value - b.value)
  }

  /** `a / b` on JavaScript numbers; a zero divisor is taken to be +0. */
  function Div(a: JsNumber, b: JsNumber): JsNumber {
    if a.NaN? || b.NaN? then NaN
    else if a.Infinite? && b.Infinite? then NaN
    else if a.Infinite? then Infinite(a.negative != (b.value < 0.0))
    else if b.Infinite? then Finite(0.0)
    else if b.value != 0.0 then Finite(a.value / b.value)
    else if a.value == 0.0 then NaN
    else Infinite(a.value < 0.0)
  }

  /** `x * 100`. */
  function Times100(x: JsNumber): JsNumber {
    if x.Finite? then Finite(x.value * 100.0) else x
  }

  /** `parseFloat(x.toFixed(1))` (or the numeric value of `x.toFixed(1)`): NaN
      and the infinities print as "NaN" and "Infinity" and read back unchanged. */
  function Fixed1(x: JsNumber): JsNumber {
    if x.Finite? then Finite(ToFixed1(x.value)) else x
  }

  /** `((avg - prevAvg) / prevAvg) * 100` rounded to one decimal place, the growth
      formula both charts use. */
  function PercentChange(avg: JsNumber, prevAvg: JsNumber): (g: JsNumber)
    ensures avg.Finite? && prevAvg.Finite? && prevAvg.value != 0.0 ==>
      g == Finite(ToFixed1((avg.value - prevAvg.value) / prevAvg.value * 100.0))
    ensures avg.Infinite? && prevAvg.Finite? ==>
      g == Infinite(avg.negative != (prevAvg.value < 0.0))
    ensures avg.NaN? || prevAvg.NaN? || prevAvg.Infinite? ==> g.NaN?
  {
    Fixed1(Times100(Div(Sub(avg, prevAvg), prevAvg)))
  }
}
