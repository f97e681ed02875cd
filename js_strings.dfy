/** The string operations of the JavaScript runtime that the price pipeline relies on:
    white-space trimming, digit strings, `parseInt` with no radix argument, and
    `String.prototype.split` with a one-character separator. */
module JsStrings {
  import opened Options

  /** The characters ECMAScript counts as white space or line terminators when it
      trims a string or skips the head of a `parseInt` argument. */
  predicate IsWhiteSpace(c: char) {
    || c == '\t' || c == '\U{B}' || c == '\U{C}' || c == ' ' || c == '\U{A0}' || c == '\U{FEFF}'
    || c == '\n' || c == '\r' || c == '\U{2028}' || c == '\U{2029}'
    || c == '\U{1680}' || ('\U{2000}' <= c <= '\U{200A}')
    || c == '\U{202F}' || c == '\U{205F}' || c == '\U{3000}'
  }

  /** `s` without its leading white space. */
  function TrimStart(s: string): (r: string)
    ensures |r| <= |s| && r == s[|s| - |r|..]
    ensures forall i :: 0 <= i < |s| - |r| ==> IsWhiteSpace(s[i])
    ensures |r| > 0 ==> !IsWhiteSpace(r[0])
  {
    if |s| > 0 && IsWhiteSpace(s[0]) then TrimStart(s[1..]) else s
  }

  /** `s` without its trailing white space. */
  function TrimEnd(s: string): (r: string)
    ensures |r| <= |s| && r == s[..|r|]
    ensures forall i :: |r| <= i < |s| ==> IsWhiteSpace(s[i])
    ensures |r| > 0 ==> !IsWhiteSpace(r[|r| - 1])
  {
    if |s| > 0 && IsWhiteSpace(s[|s| - 1]) then TrimEnd(s[..|s| - 1]) else s
  }

  /** `s.trim()`. */
  function Trim(s: string): string {
    TrimEnd(TrimStart(s))
  }

  /** The value of `c` as a digit in bases up to 36 (`0`-`9`, then `a`-`z` or
      `A`-`Z` for 10 to 35); 36 for any other character. */
  function DigitValue(c: char): (d: nat)
    ensures d <= 36
  {
    if '0' <= c <= '9' then c as int - '0' as int
    else if 'a' <= c <= 'z' then c as int - 'a' as int + 10
    else if 'A' <= c <= 'Z' then c as int - 'A' as int + 10
    else 36
  }

  predicate IsDigit(c: char, radix: nat) {
    DigitValue(c) < radix
  }

  /** A decimal digit is one of `0` to `9`: neither white space nor a sign. */
  lemma DecimalDigit(c: char)
    requires IsDigit(c, 10)
    ensures '0' <= c <= '9' && !IsWhiteSpace(c) && c != '-' && c != '+'
  {
  }

  /** The length of the longest prefix of `s` made of digits of base `radix`. */
  function LeadingDigits(s: string, radix: nat): (n: nat)
    ensures n <= |s|
    ensures forall i :: 0 <= i < n ==> IsDigit(s[i], radix)
    ensures n < |s| ==> !IsDigit(s[n], radix)
  {
    if |s| == 0 || !IsDigit(s[0], radix) then 0 else 1 + LeadingDigits(s[1..], radix)
  }

  /** The number the digit string `ds` denotes in base `radix`, most significant digit first. */
  function DigitsValue(ds: string, radix: nat): nat {
    if |ds| == 0 then 0 else DigitsValue(ds[..|ds| - 1], radix) * radix + DigitValue(ds[|ds| - 1])
  }

  /** `parseInt(field)` with no radix argument. `None` stands for NaN; an absent field
      (`undefined`) is read as the string "undefined" and so gives NaN as well.
      Leading white space is skipped, one sign is accepted, a `0x` or `0X` prefix
      switches to base 16, and the longest run of digits that follows is read. */
  function ParseInt(field: Option<string>): (r: Option<int>)
    ensures field.None? ==> r.None?
    ensures r.Some? ==> field.Some? && |TrimStart(field.value)| > 0
  {
    match field
    case None => None
    case Some(s) => ParseSigned(TrimStart(s))
  }

  /** After the white space: one optional sign, then an unsigned integer. */
  function ParseSigned(t: string): (r: Option<int>)
    ensures r.Some? ==> |t| > 0
  {
    var negative := |t| > 0 && t[0] == '-';
    var u := if |t| > 0 && (t[0] == '-' || t[0] == '+') then t[1..] else t;
    match ParseUnsigned(u)
    case None => None
    case Some(v) => var w: int := v; Some(if negative then -w else w)
  }

  /** After the sign: a `0x` or `0X` prefix switches to base 16, and the longest
      run of digits that follows is read; no digit at all gives NaN. */
  function ParseUnsigned(u: string): (r: Option<nat>)
    ensures r.Some? ==> |u| > 0
  {
    var hex := |u| >= 2 && u[0] == '0' && (u[1] == 'x' || u[1] == 'X');
    var radix := if hex then 16 else 10;
    var body := if hex then u[2..] else u;
    var n := LeadingDigits(body, radix);
    if n == 0 then None else Some(DigitsValue(body[..n], radix))
  }

  function DigitChar(d: nat): (c: char)
    requires d < 10
    ensures IsDigit(c, 10) && DigitValue(c) == d
  {
    ('0' as int + d) as char
  }

  /** The decimal rendering of `n`, as `String(n)` writes it: no sign, no leading zero. */
  function DecimalString(n: nat): (s: string)
    ensures |s| >= 1
    ensures forall i :: 0 <= i < |s| ==> IsDigit(s[i], 10)
    ensures s[0] == '0' ==> n == 0 && |s| == 1
  {
    if n < 10 then [DigitChar(n)] else DecimalString(n / 10) + [DigitChar(n % 10)]
  }

  lemma {:induction false} DigitsValueOfDecimal(n: nat)
    ensures DigitsValue(DecimalString(n), 10) == n
  {
    if n >= 10 {
      var s := DecimalString(n);
      assert s[..|s| - 1] == DecimalString(n / 10);
      DigitsValueOfDecimal(n / 10);
    }
  }

  /** `parseInt` reads back every decimal rendering of a natural number. */
  lemma ParseIntOfDecimal(n: nat)
    ensures ParseInt(Some(DecimalString(n))) == Some(n)
  {
    ParseIntStopsAtNonDigit(n, "");
    assert DecimalString(n) + "" == DecimalString(n);
  }

  /** The digit run at the head of `ds + rest` is `ds` when `rest` does not
      start with a digit. */
  lemma {:induction false} LeadingDigitsOfRun(ds: string, rest: string, radix: nat)
    requires forall i :: 0 <= i < |ds| ==> IsDigit(ds[i], radix)
    requires |rest| == 0 || !IsDigit(rest[0], radix)
    ensures LeadingDigits(ds + rest, radix) == |ds|
  {
    if |ds| > 0 {
      assert (ds + rest)[1..] == ds[1..] + rest;
      LeadingDigitsOfRun(ds[1..], rest, radix);
    } else {
      assert ds + rest == rest;
    }
  }

  /** `parseInt` stops at the first character that is not a digit: a decimal
      rendering followed by anything else (other than an `x` after a lone 0,
      which would make a hexadecimal prefix) reads as the rendered number. */
  lemma ParseIntStopsAtNonDigit(n: nat, rest: string)
    requires |rest| == 0 || (!IsDigit(rest[0], 10) && rest[0] != 'x' && rest[0] != 'X')
    ensures ParseInt(Some(DecimalString(n) + rest)) == Some(n)
  {
    var d := DecimalString(n);
    var s := d + rest;
    assert s[0] == d[0];
    DecimalDigit(s[0]);
    assert TrimStart(s) == s;
    assert !(|s| >= 2 && s[0] == '0' && (s[1] == 'x' || s[1] == 'X')) by {
      if |s| >= 2 && s[0] == '0' {
        assert |d| == 1 && s[1] == rest[0];
      }
    }
    LeadingDigitsOfRun(d, rest, 10);
    assert ParseUnsigned(s) == Some(DigitsValue(s[..|d|], 10));
    assert ParseSigned(s) == ParseUnsigned(s);
    assert s[..|d|] == d;
    DigitsValueOfDecimal(n);
  }

  /** `s.split(sep)` for a one-character separator: the pieces between the
      separators, in order, so one more piece than there are separators. */
  function Split(s: string, sep: char): (parts: seq<string>)
    ensures |parts| >= 1
    ensures forall i :: 0 <= i < |parts| ==> sep !in parts[i]
  {
    if |s| == 0 then [""]
    else
      var rest := Split(s[1..], sep);
      if s[0] == sep then [""] + rest else [[s[0]] + rest[0]] + rest[1..]
  }

  /** `parts.join(sep)`. */
  function Join(parts: seq<string>, sep: char): string
    requires |parts| >= 1
  {
    if |parts| == 1 then parts[0] else parts[0] + [sep] + Join(parts[1..], sep)
  }

  /** Joining the pieces of a split gives back the original string. */
  lemma {:induction false} JoinSplit(s: string, sep: char)
    ensures Join(Split(s, sep), sep) == s
  {
    if |s| > 0 {
      var rest := Split(s[1..], sep);
      JoinSplit(s[1..], sep);
      if s[0] == sep {
        assert ([""] + rest)[1..] == rest;
      } else {
        var parts := [[s[0]] + rest[0]] + rest[1..];
        if |rest| > 1 {
          assert parts[1..] == rest[1..];
        }
      }
    }
  }

  lemma {:induction false} SplitWithoutSeparator(p: string, sep: char)
    requires sep !in p
    ensures Split(p, sep) == [p]
  {
    if |p| > 0 {
      SplitWithoutSeparator(p[1..], sep);
      assert p[0] != sep;
      assert [p[0]] + p[1..] == p;
    }
  }

  lemma {:induction false} SplitAfterFirstPiece(p: string, rest: string, sep: char)
    requires sep !in p
    ensures Split(p + [sep] + rest, sep) == [p] + Split(rest, sep)
  {
    var s := p + [sep] + rest;
    if |p| == 0 {
      assert s[1..] == rest;
    } else {
      assert s[1..] == p[1..] + [sep] + rest;
      SplitAfterFirstPiece(p[1..], rest, sep);
      assert [p[0]] + p[1..] == p;
    }
  }

  /** Splitting a join of separator-free pieces gives back the pieces. */
  lemma {:induction false} SplitJoin(parts: seq<string>, sep: char)
    requires |parts| >= 1
    requires forall i :: 0 <= i < |parts| ==> sep !in parts[i]
    ensures Split(Join(parts, sep), sep) == parts
  {
    if |parts| == 1 {
      SplitWithoutSeparator(parts[0], sep);
    } else {
      SplitJoin(parts[1..], sep);
      SplitAfterFirstPiece(parts[0], Join(parts[1..], sep), sep);
    }
  }
}
