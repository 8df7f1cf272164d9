/**
 * The slice of JavaScript's value semantics that the library's helpers and
 * validators rely on: truthiness, `toString()`, `toLowerCase()`, `trim()`,
 * the `\s` character class and `String.prototype.includes`.
 *
 * Strings are sequences of characters; lower-casing folds only `A`..`Z`.
 */
module JsValues {

  /** The values a record field or a filter entry can hold. Numbers are integers here. */
  datatype JsValue = Undefined | Null | Bool(b: bool) | Int(n: int) | Str(s: string)

  /** `null` and `undefined`: the values optional chaining (`?.`) stops at. */
  predicate Nullish(v: JsValue) {
    v.Undefined? || v.Null?
  }

  /** JavaScript truthiness: `undefined`, `null`, `false`, `0` and `""` are falsy. */
  function Truthy(v: JsValue): (t: bool)
    ensures t ==> !Nullish(v)
  {
    match v
    case Undefined => false
    case Null => false
    case Bool(b) => b
    case Int(n) => n != 0
    case Str(s) => s != ""
  }

  /** `Math.min` on two integers. */
  function Min(a: int, b: int): (m: int)
    ensures m <= a && m <= b && (m == a || m == b)
  {
    if a <= b then a else b
  }

  /** `Math.max` on two integers. */
  function Max(a: int, b: int): (m: int)
    ensures a <= m && b <= m && (m == a || m == b)
  {
    if a >= b then a else b
  }

  // ---------------------------------------------------------------------------
  // Number-to-string conversion

  predicate IsDigit(c: char) {
    '0' <= c <= '9'
  }

  function DigitChar(d: nat): (c: char)
    requires d < 10
    ensures IsDigit(c) && c as int - '0' as int == d
  {
    ('0' as int + d) as char
  }

  /** Decimal digits of a natural number, most significant first, as `Number.prototype.toString()` writes them. */
  function NatToString(n: nat): (r: string)
    ensures |r| >= 1
    ensures forall i :: 0 <= i < |r| ==> IsDigit(r[i])
    ensures |r| > 1 ==> r[0] != '0'
    decreases n
  {
    if n < 10 then [DigitChar(n)] else NatToString(n / 10) + [DigitChar(n % 10)]
  }

  /** The value a string of decimal digits denotes. */
  function DigitsValue(s: string): nat
    requires forall i :: 0 <= i < |s| ==> IsDigit(s[i])
  {
    if s == [] then 0
    else
      assert IsDigit(s[|s| - 1]);
      10 * DigitsValue(s[..|s| - 1]) + (s[|s| - 1] as int - '0' as int)
  }

  /** Reading back the digits that NatToString wrote gives the number again. */
  lemma {:induction false} NatToStringRoundTrip(n: nat)
    ensures DigitsValue(NatToString(n)) == n
    decreases n
  {
    if n >= 10 {
      NatToStringRoundTrip(n / 10);
      var r := NatToString(n);
      assert r[..|r| - 1] == NatToString(n / 10);
    }
  }

  function IntToString(n: int): string {
    if n < 0 then "-" + NatToString(-n) else NatToString(n)
  }

  /** Distinct integers have distinct decimal strings. */
  lemma IntToStringInjective(m: int, n: int)
    requires IntToString(m) == IntToString(n)
    ensures m == n
  {
    var sm := if m < 0 then NatToString(-m) else NatToString(m);
    var sn := if n < 0 then NatToString(-n) else NatToString(n);
    assert (m < 0) == (n < 0) by {
      assert IntToString(m)[0] == '-' <==> m < 0;
      assert IntToString(n)[0] == '-' <==> n < 0;
    }
    assert sm == sn by {
      if m < 0 { assert IntToString(m)[1..] == sm && IntToString(n)[1..] == sn; }
    }
    NatToStringRoundTrip(if m < 0 then -m else m);
    NatToStringRoundTrip(if n < 0 then -n else n);
  }

  /** `String(v)` for the values that have a `toString` method (all but `null` and `undefined`). */
  function ToString(v: JsValue): (r: string)
    requires !Nullish(v)
    ensures v.Str? ==> r == v.s
    ensures !v.Str? ==> r != [] && (r[0] == '-' <==> v.Int? && v.n < 0)
    ensures v.Int? ==> forall i :: 0 < i < |r| ==> IsDigit(r[i])
  {
    match v
    case Bool(b) => if b then "true" else "false"
    case Int(n) => IntToString(n)
    case Str(s) => s
  }

  // ---------------------------------------------------------------------------
  // toLowerCase

  function LowerChar(c: char): (l: char)
    ensures !('A' <= l <= 'Z')
    ensures !('A' <= c <= 'Z') ==> l == c
  {
    if 'A' <= c <= 'Z' then (c as int - 'A' as int + 'a' as int) as char else c
  }

  function Lower(s: string): (r: string)
    ensures |r| == |s|
    ensures forall i :: 0 <= i < |s| ==> r[i] == LowerChar(s[i])
  {
    if s == [] then [] else [LowerChar(s[0])] + Lower(s[1..])
  }

  // ---------------------------------------------------------------------------
  // Whitespace: the `\s` class of regular expressions, which is also the set
  // that `trim()` removes (WhiteSpace and LineTerminator code points).

  predicate IsWhitespace(c: char) {
    c == '\t' || c == '\n' || c == '\U{000B}' || c == '\U{000C}' || c == '\r' || c == ' '
    || c == '\U{00A0}' || c == '\U{1680}' || ('\U{2000}' <= c <= '\U{200A}')
    || c == '\U{2028}' || c == '\U{2029}' || c == '\U{202F}' || c == '\U{205F}'
    || c == '\U{3000}' || c == '\U{FEFF}'
  }

  /** Number of leading whitespace characters. */
  function LeadingWhitespace(s: string): (k: nat)
    ensures k <= |s|
    ensures forall i :: 0 <= i < k ==> IsWhitespace(s[i])
    ensures k < |s| ==> !IsWhitespace(s[k])
  {
    if s != [] && IsWhitespace(s[0]) then 1 + LeadingWhitespace(s[1..]) else 0
  }

  /** Number of trailing whitespace characters. */
  function TrailingWhitespace(s: string): (k: nat)
    ensures k <= |s|
    ensures forall i :: |s| - k <= i < |s| ==> IsWhitespace(s[i])
    ensures k < |s| ==> !IsWhitespace(s[|s| - 1 - k])
  {
    if s != [] && IsWhitespace(s[|s| - 1]) then 1 + TrailingWhitespace(s[..|s| - 1]) else 0
  }

  /** `String.prototype.trim`. */
  function Trim(s: string): (r: string)
    ensures r == [] || (!IsWhitespace(r[0]) && !IsWhitespace(r[|r| - 1]))
    ensures r == [] <==> forall i :: 0 <= i < |s| ==> IsWhitespace(s[i])
    ensures OccursAt(s, r, LeadingWhitespace(s))
    ensures forall i :: 0 <= i < |s| && !(LeadingWhitespace(s) <= i < LeadingWhitespace(s) + |r|) ==> IsWhitespace(s[i])
  {
    var lead := LeadingWhitespace(s);
    if lead == |s| then []
    else
      var rest := s[lead..];
      var trail := TrailingWhitespace(rest);
      assert trail < |rest| by { assert !IsWhitespace(rest[0]); }
      assert forall i :: 0 <= i < |s| ==> IsWhitespace(s[i]) ==> i != lead;
      assert forall i :: lead + |rest| - trail <= i < |s| ==> s[i] == rest[i - lead];
      rest[..|rest| - trail]
  }

  // ---------------------------------------------------------------------------
  // includes

  /** `t` occurs in `s` starting at index `i`. */
  predicate OccursAt(s: string, t: string, i: int) {
    0 <= i <= |s| - |t| && s[i..i + |t|] == t
  }

  /** `s.includes(t)`: `t` occurs in `s` as a contiguous block; the empty string occurs everywhere. */
  function Includes(s: string, t: string): (b: bool)
    ensures t == [] ==> b
    ensures b ==> |t| <= |s|
    ensures OccursAt(s, t, 0) || OccursAt(s, t, |s| - |t|) ==> b
  {
    assert t == [] ==> OccursAt(s, t, 0);
    exists i | 0 <= i <= |s| - |t| :: OccursAt(s, t, i)
  }
}
