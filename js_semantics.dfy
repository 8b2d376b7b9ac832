/** The few JavaScript built-ins the replica's logic leans on, with their
    ECMAScript meaning written out over unbounded integers and `seq<char>`:
    `Math.max`, `Math.abs`, the truncating `%` operator, `String.prototype.indexOf`,
    `substring`, `split` on a one-character separator, and global `parseInt`
    called without a radix. `None` stands for `NaN` wherever a number may be one. */
module JsSemantics {
  import opened Wrappers

  /** `Math.max(a, b)` on integers: the least value that is at least both. */
  function MathMax(a: int, b: int): (r: int)
    ensures r >= a && r >= b
    ensures r == a || r == b
  {
    if a >= b then a else b
  }

  /** `Math.abs(x)`. */
  function MathAbs(x: int): (r: int)
    ensures r >= 0
    ensures r == x || r == -x
  {
    if x < 0 then -x else x
  }

  /** JavaScript's `a % b` on integers: the magnitude is `|a| mod |b|` and the
      sign follows the dividend (division truncates toward zero), unlike
      Dafny's Euclidean `%`. */
  function TruncRem(a: int, b: int): (r: int)
    requires b != 0
    ensures MathAbs(r) == MathAbs(a) % MathAbs(b)
    ensures a >= 0 ==> 0 <= r < MathAbs(b)
    ensures a < 0 ==> -MathAbs(b) < r <= 0
  {
    if a >= 0 then a % MathAbs(b) else -((-a) % MathAbs(b))
  }

  /** The index clamping of `indexOf` and `substring`: into `[0, len]`. */
  function ClampIndex(i: int, len: nat): (r: nat)
    ensures r <= len
    ensures 0 <= i <= len ==> r == i
  {
    if i < 0 then 0 else if i > len then len else i
  }

  /** `pat` occurs in `s` starting at index `i`. */
  predicate OccursAt(s: string, pat: string, i: int)
  {
    0 <= i && i + |pat| <= |s| && s[i..i + |pat|] == pat
  }

  /** `s.indexOf(pat, from)`: the first occurrence at or after the clamped
      start position, or -1 when there is none. */
  function IndexOf(s: string, pat: string, from: int): (r: int)
    ensures r == -1 || (ClampIndex(from, |s|) <= r && OccursAt(s, pat, r))
    ensures r != -1 ==> forall i :: ClampIndex(from, |s|) <= i < r ==> !OccursAt(s, pat, i)
    ensures r == -1 ==> forall i :: ClampIndex(from, |s|) <= i ==> !OccursAt(s, pat, i)
    decreases |s| - ClampIndex(from, |s|)
  {
    var start := ClampIndex(from, |s|);
    if start + |pat| > |s| then -1
    else if OccursAt(s, pat, start) then start
    else IndexOf(s, pat, start + 1)
  }

  /** `s.substring(start, end)`: both ends clamped into `[0, |s|]`, and swapped
      when the start lies after the end. */
  function Substring(s: string, start: int, end: int): string
  {
    var a := ClampIndex(start, |s|);
    var b := ClampIndex(end, |s|);
    if a <= b then s[a..b] else s[b..a]
  }

  /** Index of the first `c` in `s`. */
  function CharIndex(s: string, c: char): (r: nat)
    requires c in s
    ensures r < |s| && s[r] == c && c !in s[..r]
  {
    if s[0] == c then 0
    else
      assert c in s[1..] by { var k :| 0 <= k < |s| && s[k] == c; assert s[1..][k - 1] == c; }
      var r := 1 + CharIndex(s[1..], c);
      assert s[..r] == [s[0]] + s[1..][..r - 1];
      r
  }

  /** Pieces joined back with the separator. */
  function Join(parts: seq<string>, sep: char): string
    requires |parts| >= 1
  {
    if |parts| == 1 then parts[0] else parts[0] + [sep] + Join(parts[1..], sep)
  }

  /** `s.split(sep)` for a one-character separator: the pieces between
      separators, empty pieces included, so there is always at least one. */
  function Split(s: string, sep: char): (parts: seq<string>)
    ensures |parts| >= 1
    ensures forall i :: 0 <= i < |parts| ==> sep !in parts[i]
    ensures Join(parts, sep) == s
    decreases |s|
  {
    if sep !in s then [s]
    else
      var i := CharIndex(s, sep);
      var rest := Split(s[i + 1..], sep);
      assert s == s[..i] + [sep] + s[i + 1..];
      assert ([s[..i]] + rest)[1..] == rest;
      [s[..i]] + rest
  }

  /** ECMAScript's StrWhiteSpaceChar: WhiteSpace (tab, vertical tab, form feed,
      space, no-break space, byte-order mark and every `Zs` code point) and
      LineTerminator. */
  predicate IsJsWhitespace(c: char)
  {
    c == '\t' || c == '\n' || c == '\U{000B}' || c == '\U{000C}' || c == '\r' || c == ' '
    || c == '\U{00A0}' || c == '\U{1680}' || ('\U{2000}' <= c <= '\U{200A}')
    || c == '\U{2028}' || c == '\U{2029}' || c == '\U{202F}' || c == '\U{205F}'
    || c == '\U{3000}' || c == '\U{FEFF}'
  }

  /** The string with its leading white space removed. */
  function TrimStart(s: string): (r: string)
    ensures |r| <= |s| && r == s[|s| - |r|..]
    ensures r == [] || !IsJsWhitespace(r[0])
  {
    if s != [] && IsJsWhitespace(s[0]) then TrimStart(s[1..]) else s
  }

  /** Value of `c` as a digit in bases up to 36, or 36 when it is none. */
  function DigitValue(c: char): (v: nat)
    ensures v <= 36
  {
    if '0' <= c <= '9' then c as nat - '0' as nat
    else if 'a' <= c <= 'z' then c as nat - 'a' as nat + 10
    else if 'A' <= c <= 'Z' then c as nat - 'A' as nat + 10
    else 36
  }

  predicate IsDecimalDigit(c: char)
  {
    '0' <= c <= '9'
  }

  /** The longest prefix of `s` made of digits below `radix`. */
  function DigitPrefix(s: string, radix: nat): (d: string)
    ensures |d| <= |s| && d == s[..|d|]
    ensures forall i :: 0 <= i < |d| ==> DigitValue(d[i]) < radix
    ensures |d| < |s| ==> DigitValue(s[|d|]) >= radix
  {
    if s != [] && DigitValue(s[0]) < radix then [s[0]] + DigitPrefix(s[1..], radix) else []
  }

  /** The number a digit string denotes in base `radix`. */
  function DigitsValue(d: string, radix: nat): nat
  {
    if d == [] then 0 else DigitsValue(d[..|d| - 1], radix) * radix + DigitValue(d[|d| - 1])
  }

  /** Global `parseInt(s)` with no radix: skip leading white space, read an
      optional sign, read hexadecimal digits after a `0x`/`0X` prefix and
      decimal digits otherwise, and stop at the first character that is not a
      digit; `None` (NaN) when no digit was read. Values are exact here, where
      JavaScript rounds those above 2^53. */
  function ParseInt(s: string): (r: Option<int>)
  {
    var t := TrimStart(s);
    var negative := t != [] && t[0] == '-';
    var u := if t != [] && (t[0] == '-' || t[0] == '+') then t[1..] else t;
    var hex := |u| >= 2 && u[0] == '0' && (u[1] == 'x' || u[1] == 'X');
    var radix := if hex then 16 else 10;
    var d := DigitPrefix(if hex then u[2..] else u, radix);
    var magnitude: int := DigitsValue(d, radix);
    if d == [] then None
    else if negative then Some(-magnitude)
    else Some(magnitude)
  }

  /** A decimal digit string followed by anything that does not continue it
      (and is not the `x` of a hexadecimal prefix) parses as the digits alone:
      `parseInt("2:8080")` is 2. */
  lemma {:induction false} ParseIntStopsAtNonDigit(d: string, rest: string)
    requires d != [] && forall i :: 0 <= i < |d| ==> IsDecimalDigit(d[i])
    requires rest == [] || (!IsDecimalDigit(rest[0]) && rest[0] != 'x' && rest[0] != 'X')
    ensures ParseInt(d + rest) == Some(DigitsValue(d, 10))
  {
    var s := d + rest;
    assert s[0] == d[0];
    TrimStartOfDigit(s);
    assert s[0] != '-' && s[0] != '+';
    NoHexPrefix(d, rest);
    DecimalPrefixOfDigits(d, rest);
    assert DigitsValue(DigitPrefix(s, 10), 10) == DigitsValue(d, 10);
  }

  /** A string that starts with a digit has no white space to trim. */
  lemma TrimStartOfDigit(s: string)
    requires s != [] && IsDecimalDigit(s[0])
    ensures TrimStart(s) == s
  {
    assert !IsJsWhitespace(s[0]);
  }

  /** Digits followed by neither a digit nor an `x` do not start with `0x`. */
  lemma NoHexPrefix(d: string, rest: string)
    requires d != [] && forall i :: 0 <= i < |d| ==> IsDecimalDigit(d[i])
    requires rest == [] || (!IsDecimalDigit(rest[0]) && rest[0] != 'x' && rest[0] != 'X')
    ensures var s := d + rest; !(|s| >= 2 && s[0] == '0' && (s[1] == 'x' || s[1] == 'X'))
  {
    var s := d + rest;
    if |d| >= 2 {
      assert s[1] == d[1];
    } else if |s| >= 2 {
      assert s[1] == rest[0];
    }
  }

  lemma {:induction false} DecimalPrefixOfDigits(d: string, rest: string)
    requires forall i :: 0 <= i < |d| ==> IsDecimalDigit(d[i])
    requires rest == [] || !IsDecimalDigit(rest[0])
    ensures DigitPrefix(d + rest, 10) == d
  {
    if d == [] {
      assert d + rest == rest;
    } else {
      assert (d + rest)[1..] == d[1..] + rest;
      DecimalPrefixOfDigits(d[1..], rest);
      assert [d[0]] + d[1..] == d;
    }
  }
}
