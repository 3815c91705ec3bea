/**
 * The JavaScript string built-ins the stdout decoder relies on, as ECMAScript
 * defines them: `endsWith`, `split(sep)[1]`, `trim` and `parseInt` with no radix.
 */
module JsString {
  import opened Wrappers

  /** `s.endsWith(suffix)`, on characters or on bytes. */
  predicate EndsWith<T(==)>(s: seq<T>, suffix: seq<T>) {
    |suffix| <= |s| && s[|s| - |suffix|..] == suffix
  }

  /** The position of the first `c` in `s`, if any. */
  function IndexOf(s: string, c: char): (r: Option<nat>)
    ensures r.Some? ==> r.value < |s|
  {
    if s == [] then None
    else if s[0] == c then Some(0)
    else
      match IndexOf(s[1..], c)
      case None => None
      case Some(i) => Some(i + 1)
  }

  /** IndexOf finds the first `c`, and finds nothing exactly when `s` has no `c`. */
  lemma {:induction false} IndexOfFirst(s: string, c: char)
    ensures IndexOf(s, c).None? <==> c !in s
    ensures IndexOf(s, c).Some? ==> s[IndexOf(s, c).value] == c && c !in s[..IndexOf(s, c).value]
    decreases |s|
  {
    if s != [] && s[0] != c {
      IndexOfFirst(s[1..], c);
      assert s == [s[0]] + s[1..];
      match IndexOf(s[1..], c)
      case None =>
      case Some(i) =>
        assert s[..i + 1] == [s[0]] + s[1..][..i];
    }
  }

  /** The text of `s` before its first `c`, or all of `s` when there is none. */
  function UpTo(s: string, c: char): (r: string)
    ensures |r| <= |s| && r == s[..|r|]
  {
    match IndexOf(s, c)
    case None => s
    case Some(i) => s[..i]
  }

  /** UpTo holds no `c` and stops at the end or at a `c`. */
  lemma UpToStops(s: string, c: char)
    ensures c !in UpTo(s, c)
    ensures |UpTo(s, c)| == |s| || s[|UpTo(s, c)|] == c
  {
    IndexOfFirst(s, c);
  }

  /**
   * `s.split(sep)[1]`: the piece between the first and the second `sep`
   * (or the end). None is `undefined`, when `s` holds no `sep` at all.
   */
  function SplitSecond(s: string, sep: char): Option<string> {
    match IndexOf(s, sep)
    case None => None
    case Some(i) => Some(UpTo(s[i + 1..], sep))
  }

  /** `split(sep)[1]` is undefined exactly when there is no `sep`, and never holds one. */
  lemma SplitSecondUndefined(s: string, sep: char)
    ensures SplitSecond(s, sep).None? <==> sep !in s
    ensures SplitSecond(s, sep).Some? ==> sep !in SplitSecond(s, sep).value
  {
    IndexOfFirst(s, sep);
    if IndexOf(s, sep).Some? {
      UpToStops(s[IndexOf(s, sep).value + 1..], sep);
    }
  }

  /** ECMAScript WhiteSpace and LineTerminator code points: what `trim` strips. */
  predicate IsWhiteSpace(c: char) {
    c == '\t' || c == '\n' || c == '\U{B}' || c == '\U{C}' || c == '\r' || c == ' '
    || c == '\U{A0}' || c == '\U{1680}' || ('\U{2000}' <= c <= '\U{200A}')
    || c == '\U{2028}' || c == '\U{2029}' || c == '\U{202F}' || c == '\U{205F}'
    || c == '\U{3000}' || c == '\U{FEFF}'
  }

  /** `s.trimStart()`: the suffix of `s` left after its leading white space. */
  function TrimStart(s: string): (r: string)
    ensures |r| <= |s| && r == s[|s| - |r|..]
    ensures r == [] || !IsWhiteSpace(r[0])
  {
    if s != [] && IsWhiteSpace(s[0]) then TrimStart(s[1..]) else s
  }

  /** trimStart removes white space and nothing else. */
  lemma {:induction false} TrimStartRemovesWhiteSpace(s: string)
    ensures forall i :: 0 <= i < |s| - |TrimStart(s)| ==> IsWhiteSpace(s[i])
    decreases |s|
  {
    if s != [] && IsWhiteSpace(s[0]) {
      TrimStartRemovesWhiteSpace(s[1..]);
      forall i | 1 <= i < |s| - |TrimStart(s)| ensures IsWhiteSpace(s[i]) {
        assert s[i] == s[1..][i - 1];
      }
    }
  }

  /** `s.trimEnd()`: the prefix of `s` left before its trailing white space. */
  function TrimEnd(s: string): (r: string)
    ensures |r| <= |s| && r == s[..|r|]
    ensures r == [] || !IsWhiteSpace(r[|r| - 1])
  {
    if s != [] && IsWhiteSpace(s[|s| - 1]) then TrimEnd(s[..|s| - 1]) else s
  }

  /** trimEnd removes white space and nothing else. */
  lemma {:induction false} TrimEndRemovesWhiteSpace(s: string)
    ensures forall i :: |TrimEnd(s)| <= i < |s| ==> IsWhiteSpace(s[i])
    decreases |s|
  {
    if s != [] && IsWhiteSpace(s[|s| - 1]) {
      TrimEndRemovesWhiteSpace(s[..|s| - 1]);
      forall i | |TrimEnd(s)| <= i < |s| - 1 ensures IsWhiteSpace(s[i]) {
        assert s[i] == s[..|s| - 1][i];
      }
    }
  }

  /** `s.trim()`. */
  function Trim(s: string): string {
    TrimEnd(TrimStart(s))
  }

  predicate IsDecimalDigit(c: char) {
    '0' <= c <= '9'
  }

  /** The value of `c` as a digit of radix up to 36 (`0`-`9`, then `a`-`z` in either case); 36 for any other character. */
  function DigitValue(c: char): (d: nat)
    ensures d <= 36
    ensures d < 10 <==> IsDecimalDigit(c)
  {
    if '0' <= c <= '9' then c as int - '0' as int
    else if 'a' <= c <= 'z' then c as int - 'a' as int + 10
    else if 'A' <= c <= 'Z' then c as int - 'A' as int + 10
    else 36
  }

  predicate IsDigitIn(c: char, radix: nat) {
    DigitValue(c) < radix
  }

  /** The longest prefix of `s` made of radix-`radix` digits. */
  function LeadingDigits(s: string, radix: nat): (r: string)
    ensures |r| <= |s| && r == s[..|r|]
  {
    if s != [] && IsDigitIn(s[0], radix) then
      var r := [s[0]] + LeadingDigits(s[1..], radix);
      assert s == [s[0]] + s[1..];
      r
    else []
  }

  /** LeadingDigits is all digits and stops at the end or at a non-digit. */
  lemma {:induction false} LeadingDigitsMaximal(s: string, radix: nat)
    ensures forall i :: 0 <= i < |LeadingDigits(s, radix)| ==> IsDigitIn(s[i], radix)
    ensures |LeadingDigits(s, radix)| == |s| || !IsDigitIn(s[|LeadingDigits(s, radix)|], radix)
    decreases |s|
  {
    if s != [] && IsDigitIn(s[0], radix) {
      LeadingDigitsMaximal(s[1..], radix);
      var r := LeadingDigits(s, radix);
      forall i | 1 <= i < |r| ensures IsDigitIn(s[i], radix) {
        assert s[i] == s[1..][i - 1];
      }
      if |r| < |s| {
        assert s[|r|] == s[1..][|r| - 1];
      }
    }
  }

  /** The number a string of digits denotes in base `radix`, most significant digit first. */
  function DigitsValue(z: string, radix: nat): nat {
    if z == [] then 0 else DigitsValue(z[..|z| - 1], radix) * radix + DigitValue(z[|z| - 1])
  }

  /** A JavaScript number as `parseInt` can return it: an integer or NaN. */
  datatype ParsedInt = NaN | Int(value: int)

  /**
   * `parseInt(s)` with no radix: skip leading white space, take an optional
   * sign, then read an unsigned number; whatever follows its digits is ignored.
   */
  function ParseInt(s: string): ParsedInt {
    var t := TrimStart(s);
    if t != [] && (t[0] == '-' || t[0] == '+') then
      match ParseUnsigned(t[1..])
      case NaN => NaN
      case Int(v) => if t[0] == '-' then Int(0 - v) else Int(v)
    else ParseUnsigned(t)
  }

  /**
   * The unsigned part of `parseInt`: base 16 after a `0x` or `0X` prefix,
   * base 10 otherwise; the longest run of digits, NaN when it is empty.
   */
  function ParseUnsigned(u: string): (r: ParsedInt)
    ensures r.Int? ==> r.value >= 0
  {
    var hex := |u| >= 2 && u[0] == '0' && (u[1] == 'x' || u[1] == 'X');
    var radix := if hex then 16 else 10;
    var z := LeadingDigits(if hex then u[2..] else u, radix);
    if z == [] then NaN else Int(DigitsValue(z, radix))
  }

  function DigitChar(d: nat): (c: char)
    requires d < 10
    ensures IsDecimalDigit(c) && DigitValue(c) == d
  {
    ('0' as int + d) as char
  }

  /** The decimal numeral of `n`, without leading zeros. */
  function DecimalText(n: nat): (r: string)
    ensures r != []
    ensures forall i :: 0 <= i < |r| ==> IsDecimalDigit(r[i])
    ensures r[0] == '0' <==> n == 0
    ensures n == 0 ==> r == "0"
    ensures DigitsValue(r, 10) == n
  {
    if n < 10 then [DigitChar(n)]
    else
      var r := DecimalText(n / 10) + [DigitChar(n % 10)];
      assert r[..|r| - 1] == DecimalText(n / 10);
      r
  }

  /** Trimming the end of `p + q` never reaches into `p` when `p` ends in a visible character. */
  lemma {:induction false} TrimEndAppend(p: string, q: string)
    requires p != [] && !IsWhiteSpace(p[|p| - 1])
    ensures TrimEnd(p + q) == p + TrimEnd(q)
    decreases |q|
  {
    if q == [] {
      assert p + q == p;
    } else if IsWhiteSpace(q[|q| - 1]) {
      assert (p + q)[..|p + q| - 1] == p + q[..|q| - 1];
      TrimEndAppend(p, q[..|q| - 1]);
    } else {
      assert (p + q)[|p + q| - 1] == q[|q| - 1];
    }
  }

  /** The longest digit prefix of `d + rest` is `d` when `d` is all digits and `rest` does not start with one. */
  lemma LeadingDigitsStop(d: string, rest: string, radix: nat)
    requires forall i :: 0 <= i < |d| ==> IsDigitIn(d[i], radix)
    requires rest == [] || !IsDigitIn(rest[0], radix)
    ensures LeadingDigits(d + rest, radix) == d
  {
    LeadingDigitsMaximal(d + rest, radix);
    var r := LeadingDigits(d + rest, radix);
    assert r == (d + rest)[..|d|] == d;
  }

  /**
   * parseInt reads back a decimal numeral and ignores what follows it, as long
   * as the next character is not a letter or digit (a line break, say).
   */
  lemma ParseIntOfDecimal(n: nat, rest: string)
    requires rest == [] || !IsDigitIn(rest[0], 36)
    ensures ParseInt(DecimalText(n) + rest) == Int(n)
  {
    var d := DecimalText(n);
    var s := d + rest;
    assert s[0] == d[0];
    assert !IsWhiteSpace(s[0]);
    assert TrimStart(s) == s;
    ParseUnsignedOfDecimal(n, rest);
  }

  lemma ParseUnsignedOfDecimal(n: nat, rest: string)
    requires rest == [] || !IsDigitIn(rest[0], 36)
    ensures ParseUnsigned(DecimalText(n) + rest) == Int(n)
  {
    var d := DecimalText(n);
    var s := d + rest;
    if |s| >= 2 && s[0] == '0' {
      assert d == "0" && s[1] == rest[0];
    }
    forall i | 0 <= i < |d| ensures IsDigitIn(d[i], 10) {
      assert IsDecimalDigit(d[i]);
    }
    LeadingDigitsStop(d, rest, 10);
  }

  /** parseInt gives NaN for text that, after leading white space, starts with neither a sign nor a decimal digit. */
  lemma ParseIntNaN(s: string)
    requires TrimStart(s) == [] || (!IsDecimalDigit(TrimStart(s)[0]) && TrimStart(s)[0] != '-' && TrimStart(s)[0] != '+')
    ensures ParseInt(s) == NaN
  {
  }
}
