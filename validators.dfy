/**
 * The form validators: e-mail, phone and ISBN shapes (regular expressions in
 * the client, written here as predicates over characters), password length,
 * required fields and numeric ranges.
 */
module Validators {
  import opened Wrappers
  import opened JsValues

  // ===========================================================================
  // validateEmail: /^[^\s@]+@[^\s@]+\.[^\s@]+$/

  /** A character of `[^\s@]`. */
  predicate EmailChar(c: char) {
    !IsWhitespace(c) && c != '@'
  }

  /** `[^\s@]+` matches the whole of `s`. */
  predicate EmailRun(s: string) {
    |s| >= 1 && forall i :: 0 <= i < |s| ==> EmailChar(s[i])
  }

  /** The regular expression matches: a run, `@`, a run, `.`, a run, for some choice of the `@` and the `.`. */
  predicate EmailMatches(email: string) {
    exists at, dot | 0 <= at < dot < |email| :: EmailSplit(email, at, dot)
  }

  /** `email[at]` is its one and only `@`. */
  ghost predicate OnlyAt(email: string, at: int) {
    0 <= at < |email| && email[at] == '@' &&
    forall i :: 0 <= i < |email| && email[i] == '@' ==> i == at
  }

  /** The domain part after the `@` at `at` has a `.` at `dot` that is neither its first nor its last character. */
  ghost predicate InnerDot(email: string, at: int, dot: int) {
    0 <= at && at + 1 < dot < |email| - 1 && email[dot] == '.'
  }

  /** No whitespace, exactly one `@` with something before it, and a `.` inside the domain. */
  ghost predicate EmailShape(email: string) {
    (forall i :: 0 <= i < |email| ==> !IsWhitespace(email[i])) &&
    exists at :: 0 < at && OnlyAt(email, at) && exists dot :: InnerDot(email, at, dot)
  }

  /**
   * `validateEmail`: an address is accepted exactly when it has no whitespace,
   * exactly one `@`, something before the `@`, and after it a `.` that is
   * neither the first nor the last character of the domain.
   */
  function ValidateEmail(email: string): (ok: bool)
    ensures ok <==> EmailShape(email)
  {
    AcceptedEmailHasShape(email);
    EmailWithShapeAccepted(email);
    EmailMatches(email)
  }

  lemma AcceptedEmailHasShape(email: string)
    ensures EmailMatches(email) ==> EmailShape(email)
  {
    if EmailMatches(email) {
      var at, dot :| EmailSplit(email, at, dot);
      SplitHasShape(email, at, dot);
    }
  }

  /** The regular expression matches with its `@` at `at` and its `.` at `dot`. */
  predicate EmailSplit(email: string, at: int, dot: int) {
    0 <= at < dot < |email| && email[at] == '@' && email[dot] == '.' &&
    EmailRun(email[..at]) && EmailRun(email[at + 1..dot]) && EmailRun(email[dot + 1..])
  }

  lemma SplitHasShape(email: string, at: int, dot: int)
    requires EmailSplit(email, at, dot)
    ensures EmailShape(email)
  {
    forall i | 0 <= i < |email| && i != at ensures EmailChar(email[i]) {
      if i < at { assert email[i] == email[..at][i]; }
      else if i < dot { assert email[i] == email[at + 1..dot][i - at - 1]; }
      else if i > dot { assert email[i] == email[dot + 1..][i - dot - 1]; }
    }
    assert OnlyAt(email, at) && InnerDot(email, at, dot);
  }

  lemma EmailWithShapeAccepted(email: string)
    ensures EmailShape(email) ==> EmailMatches(email)
  {
    if !EmailShape(email) {
      return;
    }
    var at :| 0 < at && OnlyAt(email, at) && exists dot :: InnerDot(email, at, dot);
    var dot :| InnerDot(email, at, dot);
    assert forall i :: 0 <= i < |email| && i != at ==> EmailChar(email[i]);
    assert EmailRun(email[..at]) && EmailRun(email[at + 1..dot]) && EmailRun(email[dot + 1..]);
    assert EmailSplit(email, at, dot);
  }

  // ===========================================================================
  // validatePhone: /^\+?[\d\s\-\(\)]{10,}$/

  /** A character of `[\d\s\-\(\)]`. */
  predicate PhoneChar(c: char) {
    IsDigit(c) || IsWhitespace(c) || c == '-' || c == '(' || c == ')'
  }

  /** `[\d\s\-\(\)]{10,}` matches the whole of `s`. */
  predicate PhoneBody(s: string) {
    |s| >= 10 && forall i :: 0 <= i < |s| ==> PhoneChar(s[i])
  }

  /** The regular expression matches, with or without the optional leading `+`. */
  function ValidatePhone(phone: string): (ok: bool)
    ensures ok ==> |phone| >= 10 && forall i :: 0 < i < |phone| ==> PhoneChar(phone[i])
  {
    (|phone| > 0 && phone[0] == '+' && PhoneBody(phone[1..])) || PhoneBody(phone)
  }

  /**
   * A phone number is accepted exactly when, after one optional leading `+`, at
   * least ten characters remain and each is a digit, whitespace, `-`, `(` or `)`.
   * Nothing requires a digit at all: ten spaces pass.
   */
  lemma ValidatePhoneShape(phone: string)
    ensures ValidatePhone(phone) <==>
      var body := if |phone| > 0 && phone[0] == '+' then phone[1..] else phone;
      |body| >= 10 && forall c :: c in body ==> PhoneChar(c)
    ensures ValidatePhone("          ")
  {
  }

  // ===========================================================================
  // validateISBN: /^(?:\d{9}[\dX]|\d{13})$/ on the input with `-` and `\s` removed

  /** A character of `[-\s]`, removed before matching. */
  predicate IsSeparator(c: char) {
    c == '-' || IsWhitespace(c)
  }

  /** `isbn.replace(/[-\s]/g, '')`. */
  function StripSeparators(s: string): (r: string)
    ensures |r| <= |s|
    ensures forall i :: 0 <= i < |r| ==> !IsSeparator(r[i])
  {
    if s == [] then []
    else (if IsSeparator(s[0]) then [] else [s[0]]) + StripSeparators(s[1..])
  }

  /** Stripping keeps every character that is not a separator, and adds none. */
  lemma {:induction false} StripKeepsOthers(s: string)
    ensures forall c :: c in StripSeparators(s) <==> c in s && !IsSeparator(c)
  {
    if s != [] {
      StripKeepsOthers(s[1..]);
      assert s == [s[0]] + s[1..];
    }
  }

  predicate AllDigits(s: string) {
    forall i :: 0 <= i < |s| ==> IsDigit(s[i])
  }

  /** `\d{9}[\dX]|\d{13}` matches the whole of `s`. */
  predicate IsbnShape(s: string) {
    (|s| == 10 && AllDigits(s[..9]) && (IsDigit(s[9]) || s[9] == 'X')) ||
    (|s| == 13 && AllDigits(s))
  }

  function ValidateISBN(isbn: string): (ok: bool)
    ensures ok ==> |isbn| >= 10 && (|StripSeparators(isbn)| == 10 || |StripSeparators(isbn)| == 13)
  {
    IsbnShape(StripSeparators(isbn))
  }

  /** Stripping distributes over concatenation. */
  lemma {:induction false} StripConcat(s: string, t: string)
    ensures StripSeparators(s + t) == StripSeparators(s) + StripSeparators(t)
  {
    if s == [] {
      assert s + t == t;
    } else {
      assert (s + t)[0] == s[0] && (s + t)[1..] == s[1..] + t;
      StripConcat(s[1..], t);
    }
  }

  /** A string without separators is left as it is. */
  lemma {:induction false} StripNothing(s: string)
    requires forall i :: 0 <= i < |s| ==> !IsSeparator(s[i])
    ensures StripSeparators(s) == s
  {
    if s != [] {
      StripNothing(s[1..]);
    }
  }

  /** Inserting a separator anywhere leaves the stripped string unchanged. */
  lemma StripSeparator(c: char)
    requires IsSeparator(c)
    ensures StripSeparators([c]) == []
  {
    assert [c][1..] == [];
  }

  lemma StripInserted(left: string, c: char, right: string)
    requires IsSeparator(c)
    ensures StripSeparators(left + [c] + right) == StripSeparators(left + right)
  {
    StripSeparator(c);
    calc {
      StripSeparators(left + [c] + right);
      { StripConcat(left + [c], right); }
      StripSeparators(left + [c]) + StripSeparators(right);
      { StripConcat(left, [c]); }
      StripSeparators(left) + StripSeparators(right);
      { StripConcat(left, right); }
      StripSeparators(left + right);
    }
  }

  /** Hyphens and whitespace are ignored: inserting one anywhere never changes the answer. */
  lemma ValidateIsbnIgnoresSeparator(s: string, i: int, c: char)
    requires 0 <= i <= |s| && IsSeparator(c)
    ensures ValidateISBN(s[..i] + [c] + s[i..]) == ValidateISBN(s)
  {
    StripInserted(s[..i], c, s[i..]);
    assert s[..i] + s[i..] == s;
  }

  /** Removing every hyphen and whitespace character beforehand never changes the answer. */
  lemma ValidateIsbnOfStripped(s: string)
    ensures ValidateISBN(StripSeparators(s)) == ValidateISBN(s)
  {
    StripNothing(StripSeparators(s));
  }

  /**
   * Accepted exactly when the separator-free string is ten characters, nine
   * digits then a digit or an upper-case `X`, or thirteen digits. A lower-case
   * `x` is refused, and no check digit is computed.
   */
  lemma ValidateIsbnCases(nineDigits: string)
    requires |nineDigits| == 9 && AllDigits(nineDigits)
    ensures ValidateISBN(nineDigits + "X")
    ensures !ValidateISBN(nineDigits + "x")
    ensures forall d :: IsDigit(d) ==> ValidateISBN(nineDigits + [d])
  {
    StripNothing(nineDigits + "X");
    StripNothing(nineDigits + "x");
    forall d | IsDigit(d) ensures ValidateISBN(nineDigits + [d]) {
      StripNothing(nineDigits + [d]);
    }
  }

  // ===========================================================================
  // validatePassword, validateRequired, validateNumber

  /** `password.length >= 6`. */
  predicate ValidatePassword(password: string) {
    |password| >= 6
  }

  /** A password stays acceptable when characters are added to it; any six characters are enough and five never are. */
  lemma ValidatePasswordExtends(password: string, more: string)
    ensures ValidatePassword(password) ==> ValidatePassword(password + more)
    ensures |password| <= 5 ==> !ValidatePassword(password)
    ensures ValidatePassword("123456") && !ValidatePassword("12345")
  {
  }

  /** `value && value.toString().trim().length > 0`, read as a boolean. */
  function ValidateRequired(value: JsValue): (ok: bool)
    ensures ok ==> !Nullish(value) && |ToString(value)| > 0
  {
    Truthy(value) && |Trim(ToString(value))| > 0
  }

  /**
   * A text is filled in exactly when it has a character other than whitespace;
   * a number when it is not 0; a boolean when it is `true`; `null` and
   * `undefined` never are.
   */
  lemma ValidateRequiredCases(value: JsValue)
    ensures ValidateRequired(value) <==>
      match value
      case Str(s) => exists i :: 0 <= i < |s| && !IsWhitespace(s[i])
      case Int(n) => n != 0
      case Bool(b) => b
      case _ => false
  {
  }

  /** The result of `Number(value)`. */
  datatype JsNumber = NaN | Finite(x: real) | Infinity | NegativeInfinity

  /** `num < bound`. */
  predicate Below(num: JsNumber, bound: real) {
    match num
    case NaN => false
    case Finite(x) => x < bound
    case Infinity => false
    case NegativeInfinity => true
  }

  /** `num > bound`. */
  predicate Above(num: JsNumber, bound: real) {
    match num
    case NaN => false
    case Finite(x) => x > bound
    case Infinity => true
    case NegativeInfinity => false
  }

  /**
   * `validateNumber(value, min, max)` given `num = Number(value)`; `None` is a
   * bound left at its `null` default. A number is accepted exactly when it is
   * not `NaN` and lies within each bound that is given.
   */
  function ValidateNumber(num: JsNumber, min: Option<real>, max: Option<real>): (ok: bool)
    ensures ok <==> !num.NaN? && AtLeast(num, min) && AtMost(num, max)
  {
    if num.NaN? then false
    else if min.Some? && Below(num, min.value) then false
    else if max.Some? && Above(num, max.value) then false
    else true
  }

  /** `min <= num`, or no lower bound. */
  predicate AtLeast(num: JsNumber, min: Option<real>) {
    match min
    case None => true
    case Some(m) => num == Infinity || (num.Finite? && m <= num.x)
  }

  /** `num <= max`, or no upper bound. */
  predicate AtMost(num: JsNumber, max: Option<real>) {
    match max
    case None => true
    case Some(m) => num == NegativeInfinity || (num.Finite? && num.x <= m)
  }

  /** Loosening a bound, or dropping it, never turns an accepted number away. */
  lemma ValidateNumberRange(num: JsNumber, min: Option<real>, max: Option<real>, looserMin: Option<real>, looserMax: Option<real>)
    ensures ValidateNumber(num, min, max) &&
      (looserMin.None? || (min.Some? && looserMin.value <= min.value)) &&
      (looserMax.None? || (max.Some? && max.value <= looserMax.value))
      ==> ValidateNumber(num, looserMin, looserMax)
  {
  }
}
