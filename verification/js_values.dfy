/** The optional value used wherever the dashboard reads something that may be absent. */
module Optional {

  datatype Option<+T> = None | Some(value: T) {

    /** The value, or `default` when there is none. */
    function GetOr(default: T): T {
      match this
      case Some(v) => v
      case None => default
    }
  }
}

/**
 The slice of JavaScript semantics the route handlers rely on: parsed JSON
 values and their truthiness, `??`, string length in UTF-16 code units, the
 `\s` character class, `parseInt` and the decimal rendering of a number.
 */
module JsValues {
  import opened Optional

  /** A value read from a parsed JSON body; `Undefined` is a missing key.
      Numbers are modelled as integers (every number the handlers read is one). */
  datatype JsValue = Undefined | Null | Bool(b: bool) | Num(n: int) | Str(s: string) | Obj

  /** JavaScript truthiness: `!v` is `!Truthy(v)`. */
  predicate Truthy(v: JsValue): (b: bool)
    ensures b ==> v != Undefined && v != Null
    ensures v.Str? ==> (b <==> v.s != "")
    ensures v.Obj? ==> b
  {
    match v
    case Undefined => false
    case Null => false
    case Bool(b) => b
    case Num(n) => n != 0
    case Str(s) => s != ""
    case Obj => true
  }

  /** `v ?? fallback`: only `null` and `undefined` are replaced. */
  function Coalesce(v: JsValue, fallback: JsValue): (r: JsValue)
    ensures v != Undefined && v != Null ==> r == v
    ensures v == Undefined || v == Null ==> r == fallback
  {
    if v.Undefined? || v.Null? then fallback else v
  }

  /** The characters JavaScript's `\s` matches and `parseInt` skips:
      WhiteSpace and LineTerminator of the ECMAScript grammar. */
  predicate IsWhitespace(c: char) {
    || c == '\t' || c == '\n' || c == '\U{000B}' || c == '\U{000C}' || c == '\r'
    || c == ' ' || c == '\U{00A0}' || c == '\U{1680}'
    || ('\U{2000}' <= c <= '\U{200A}')
    || c == '\U{2028}' || c == '\U{2029}' || c == '\U{202F}' || c == '\U{205F}'
    || c == '\U{3000}' || c == '\U{FEFF}'
  }

  predicate IsAsciiDigit(c: char) {
    '0' <= c <= '9'
  }

  predicate IsAsciiLetter(c: char) {
    ('a' <= c <= 'z') || ('A' <= c <= 'Z')
  }

  /** Number of UTF-16 code units: what `.length` reports and zod's `min`/`max` compare. */
  function Utf16Length(s: string): (n: nat)
    ensures n >= |s|
    ensures n <= 2 * |s|
    ensures (forall i :: 0 <= i < |s| ==> s[i] as int <= 0xFFFF) ==> n == |s|
  {
    if s == [] then 0 else (if s[0] as int > 0xFFFF then 2 else 1) + Utf16Length(s[1..])
  }

  lemma {:induction false} Utf16LengthAppend(a: string, b: string)
    ensures Utf16Length(a + b) == Utf16Length(a) + Utf16Length(b)
  {
    if a == [] {
      assert a + b == b;
    } else {
      assert (a + b)[0] == a[0];
      assert (a + b)[1..] == a[1..] + b;
      Utf16LengthAppend(a[1..], b);
    }
  }

  // ---------------------------------------------------------------------
  // Decimal rendering (`Number.prototype.toString` on a non-negative integer)

  function DigitChar(d: nat): (c: char)
    requires d < 10
    ensures IsAsciiDigit(c)
    ensures c as int - '0' as int == d
  {
    ('0' as int + d) as char
  }

  /** The decimal digits of `n`, most significant first, without leading zeros. */
  function DecimalString(n: nat): (s: string)
    ensures |s| >= 1
    ensures forall i :: 0 <= i < |s| ==> IsAsciiDigit(s[i])
    ensures |s| > 1 ==> s[0] != '0'
    ensures s[0] == '0' <==> n == 0
  {
    if n < 10 then [DigitChar(n)] else DecimalString(n / 10) + [DigitChar(n % 10)]
  }

  function Pow10(k: nat): (p: nat)
    ensures p >= 1
  {
    if k == 0 then 1 else 10 * Pow10(k - 1)
  }

  /** `n` has exactly `k` decimal digits exactly when it lies in [10^(k-1), 10^k). */
  lemma {:induction false} DecimalStringLength(n: nat, k: nat)
    requires k >= 1
    requires Pow10(k - 1) <= n < Pow10(k)
    ensures |DecimalString(n)| == k
  {
    assert Pow10(1) == 10;
    assert k >= 2 ==> Pow10(k - 1) == 10 * Pow10(k - 2);
    if n >= 10 {
      assert Pow10(k - 2) <= n / 10 < Pow10(k - 1) by {
        assert Pow10(k) == 10 * Pow10(k - 1);
      }
      DecimalStringLength(n / 10, k - 1);
    }
  }

  /** `String(v)`, the text a value becomes in a query-string filter
      (`Obj` stands for a plain object). */
  function ToText(v: JsValue): (t: string)
    ensures v.Str? ==> t == v.s
    ensures v.Num? && v.n >= 0 ==> t == DecimalString(v.n)
  {
    match v
    case Undefined => "undefined"
    case Null => "null"
    case Bool(b) => if b then "true" else "false"
    case Num(n) => if n < 0 then "-" + DecimalString(-n) else DecimalString(n)
    case Str(s) => s
    case Obj => "[object Object]"
  }

  // ---------------------------------------------------------------------
  // parseInt

  /** The two ways the handlers call `parseInt`: with radix 10, or without a radix. */
  datatype Radix = Decimal | Unspecified

  function HexDigitValue(c: char): Option<nat> {
    if '0' <= c <= '9' then Some(c as int - '0' as int)
    else if 'a' <= c <= 'f' then Some(c as int - 'a' as int + 10)
    else if 'A' <= c <= 'F' then Some(c as int - 'A' as int + 10)
    else None
  }

  /** Value of a digit in `base` (10 or 16), if `c` is one. */
  function DigitValue(c: char, base: nat): (r: Option<nat>)
    requires base == 10 || base == 16
    ensures r.Some? ==> r.value < base
    ensures base == 10 ==> (r.Some? <==> IsAsciiDigit(c))
  {
    if base == 10 then (if IsAsciiDigit(c) then Some(c as int - '0' as int) else None)
    else HexDigitValue(c)
  }

  /** The value of `c` as a digit of `base`, and 0 for any other character. */
  function Digit(c: char, base: nat): (d: nat)
    requires base == 10 || base == 16
    ensures d < base
  {
    match DigitValue(c, base)
    case Some(v) => v
    case None => 0
  }

  /** The first position from `i` on that does not hold whitespace. */
  function SpaceEnd(s: string, i: nat): (j: nat)
    requires i <= |s|
    ensures i <= j <= |s|
    ensures j < |s| ==> !IsWhitespace(s[j])
    decreases |s| - i
  {
    if i < |s| && IsWhitespace(s[i]) then SpaceEnd(s, i + 1) else i
  }

  /** The end of the run of digits of `base` that starts at position `i`. */
  function DigitsEnd(s: string, base: nat, i: nat): (j: nat)
    requires base == 10 || base == 16
    requires i <= |s|
    ensures i <= j <= |s|
    ensures j < |s| ==> DigitValue(s[j], base).None?
    decreases |s| - i
  {
    if i < |s| && DigitValue(s[i], base).Some? then DigitsEnd(s, base, i + 1) else i
  }

  /** The number the digits at positions `lo` to `hi - 1` denote, most
      significant first. */
  function ValueOf(s: string, base: nat, lo: nat, hi: nat): nat
    requires base == 10 || base == 16
    requires lo <= hi <= |s|
    decreases hi - lo
  {
    if hi == lo then 0
    else
      var high := ValueOf(s, base, lo, hi - 1);
      (if base == 10 then 10 * high else 16 * high) + Digit(s[hi - 1], base)
  }

  /** A `0x` or `0X` at position `i`. */
  predicate HexPrefixAt(s: string, i: nat) {
    i + 2 <= |s| && s[i] == '0' && (s[i + 1] == 'x' || s[i + 1] == 'X')
  }

  /** The digits from position `start` on: without a radix a `0x`/`0X` prefix
      switches to base 16. `None` when no digit follows. */
  function ParseUnsigned(s: string, start: nat, radix: Radix): (r: Option<nat>)
    requires start <= |s|
  {
    var hex := radix == Unspecified && HexPrefixAt(s, start);
    var base := if hex then 16 else 10;
    var first := if hex then start + 2 else start;
    var end := DigitsEnd(s, base, first);
    if end == first then None else Some(ValueOf(s, base, first, end))
  }

  /** `parseInt(s)` or `parseInt(s, 10)`; `None` is `NaN`. Leading whitespace
      is skipped, one sign is read, and the longest run of digits that follows
      is taken. */
  function ParseInt(s: string, radix: Radix): (r: Option<int>)
    ensures r.Some? ==> SpaceEnd(s, 0) < |s|
    ensures r.Some? && r.value < 0 ==> s[SpaceEnd(s, 0)] == '-'
  {
    var i := SpaceEnd(s, 0);
    var signed := i < |s| && (s[i] == '-' || s[i] == '+');
    var negative := i < |s| && s[i] == '-';
    match ParseUnsigned(s, if signed then i + 1 else i, radix)
    case None => None
    case Some(v) => var n: int := v; Some(if negative then -n else n)
  }

  /** The empty text is `NaN`. */
  lemma ParseIntOfEmpty(radix: Radix)
    ensures ParseInt("", radix) == None
  {
  }

  /** A run of decimal digits reaches the end of the text. */
  lemma {:induction false} DigitsEndOfDigits(s: string, i: nat)
    requires i <= |s|
    requires forall k :: 0 <= k < |s| ==> IsAsciiDigit(s[k])
    ensures DigitsEnd(s, 10, i) == |s|
    decreases |s| - i
  {
    if i < |s| {
      DigitsEndOfDigits(s, i + 1);
    }
  }

  /** Text appended after position `hi` does not change the value before it. */
  lemma {:induction false} ValueOfAppend(s: string, x: string, base: nat, lo: nat, hi: nat)
    requires base == 10 || base == 16
    requires lo <= hi <= |s|
    ensures ValueOf(s + x, base, lo, hi) == ValueOf(s, base, lo, hi)
    decreases hi - lo
  {
    if hi > lo {
      ValueOfAppend(s, x, base, lo, hi - 1);
      assert (s + x)[hi - 1] == s[hi - 1];
    }
  }

  /** The decimal rendering of `n` denotes `n`. */
  lemma {:induction false} ValueOfDecimal(n: nat)
    ensures ValueOf(DecimalString(n), 10, 0, |DecimalString(n)|) == n
  {
    var s := DecimalString(n);
    if n < 10 {
      assert Digit(s[0], 10) == n;
    } else {
      var prefix := DecimalString(n / 10);
      assert s == prefix + [DigitChar(n % 10)];
      ValueOfDecimal(n / 10);
      ValueOfAppend(prefix, [DigitChar(n % 10)], 10, 0, |prefix|);
      assert Digit(s[|s| - 1], 10) == n % 10;
    }
  }

  lemma {:induction false} ParseUnsignedOfDecimal(n: nat, radix: Radix)
    ensures ParseUnsigned(DecimalString(n), 0, radix) == Some(n)
  {
    var s := DecimalString(n);
    assert !HexPrefixAt(s, 0) by {
      if |s| >= 2 { assert s[0] != '0'; }
    }
    DigitsEndOfDigits(s, 0);
    ValueOfDecimal(n);
  }

  /** `parseInt` inverts the decimal rendering, with or without a radix. */
  lemma {:induction false} ParseIntOfDecimal(n: nat, radix: Radix)
    ensures ParseInt(DecimalString(n), radix) == Some(n)
  {
    var s := DecimalString(n);
    assert SpaceEnd(s, 0) == 0 by {
      assert IsAsciiDigit(s[0]);
    }
    assert s[0] != '-' && s[0] != '+' by {
      assert IsAsciiDigit(s[0]);
    }
    ParseUnsignedOfDecimal(n, radix);
  }
}
