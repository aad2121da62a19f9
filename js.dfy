/** The few pieces of JavaScript string and value semantics the page relies on:
    the white-space class shared by `String.prototype.trim` and the regular
    expression escape `\s`, line terminators, decimal digits, the decimal
    rendering of integers, `String(v)`, truthiness, and `indexOf`/`replace`
    with a string pattern. */
module Js {
  import opened Common

  // ---------------------------------------------------------------------------
  // Character classes
  // ---------------------------------------------------------------------------

  /** LineTerminator: LF, CR, LINE SEPARATOR and PARAGRAPH SEPARATOR, the
      characters `.` refuses to match. */
  predicate IsLineTerminator(c: char) {
    c == '\n' || c == '\r' || c == '\U{2028}' || c == '\U{2029}'
  }

  /** WhiteSpace (TAB, VT, FF, SP, NBSP, ZWNBSP and the space separators of
      Unicode category Zs) together with LineTerminator: what `trim` removes
      and what `\s` matches. TAB, LF, VT, FF and CR are the contiguous range
      U+0009 to U+000D; U+2000 to U+200A are the typographic spaces. */
  predicate IsWhiteSpace(c: char) {
    || ('\t' <= c <= '\r')
    || c == ' ' || c == '\U{A0}' || c == '\U{1680}'
    || ('\U{2000}' <= c <= '\U{200A}')
    || c == '\U{2028}' || c == '\U{2029}' || c == '\U{202F}' || c == '\U{205F}'
    || c == '\U{3000}' || c == '\U{FEFF}'
  }

  /** No white space at either end: the shape of every result of `trim`. */
  predicate Trimmed(s: string) {
    s == [] || (!IsWhiteSpace(s[0]) && !IsWhiteSpace(s[|s| - 1]))
  }

  predicate AllWhiteSpace(s: string) {
    forall i :: 0 <= i < |s| ==> IsWhiteSpace(s[i])
  }

  // ---------------------------------------------------------------------------
  // String.prototype.trim
  // ---------------------------------------------------------------------------

  /** The number of white-space characters in the run that starts at `i`. */
  function WhiteRun(s: string, i: nat): (n: nat)
    requires i <= |s|
    ensures i + n <= |s|
    ensures forall k :: i <= k < i + n ==> IsWhiteSpace(s[k])
    ensures i + n == |s| || !IsWhiteSpace(s[i + n])
    decreases |s| - i
  {
    if i < |s| && IsWhiteSpace(s[i]) then 1 + WhiteRun(s, i + 1) else 0
  }

  lemma WhiteRunIsWhite(s: string, i: nat)
    requires i <= |s|
    ensures i + WhiteRun(s, i) <= |s| && AllWhiteSpace(s[i..i + WhiteRun(s, i)])
  {
    var w := s[i..i + WhiteRun(s, i)];
    forall k | 0 <= k < |w| ensures IsWhiteSpace(w[k]) {
      assert w[k] == s[i + k];
    }
  }

  /** The number of white-space characters in the run that ends just before
      `hi`, not counting anything before `lo`. */
  function WhiteRunBefore(s: string, lo: nat, hi: nat): (n: nat)
    requires lo <= hi <= |s|
    ensures n <= hi - lo
    ensures forall k :: hi - n <= k < hi ==> IsWhiteSpace(s[k])
    ensures hi - n == lo || !IsWhiteSpace(s[hi - n - 1])
    decreases hi - lo
  {
    if lo < hi && IsWhiteSpace(s[hi - 1]) then 1 + WhiteRunBefore(s, lo, hi - 1) else 0
  }

  /** `s.trim()`: the middle slice of `s` left once the white space at both
      ends is removed. */
  function Trim(s: string): (r: string)
    ensures Trimmed(r)
    ensures r == [] <==> AllWhiteSpace(s)
    ensures var lo := WhiteRun(s, 0);
      && lo + |r| <= |s|
      && r == s[lo..lo + |r|]
      && (forall i :: 0 <= i < lo ==> IsWhiteSpace(s[i]))
      && (forall i :: lo + |r| <= i < |s| ==> IsWhiteSpace(s[i]))
  {
    var lo := WhiteRun(s, 0);
    var hi := |s| - WhiteRunBefore(s, lo, |s|);
    TrimEnds(s, lo, hi);
    s[lo..hi]
  }

  /** The slice between the two white-space runs is trimmed, and empty
      exactly when the string is all white space. */
  lemma TrimEnds(s: string, lo: nat, hi: nat)
    requires lo == WhiteRun(s, 0) && lo <= |s|
    requires hi == |s| - WhiteRunBefore(s, lo, |s|)
    ensures lo <= hi
    ensures Trimmed(s[lo..hi])
    ensures s[lo..hi] == [] <==> AllWhiteSpace(s)
  {
    assert lo < |s| ==> !IsWhiteSpace(s[lo]);
    if lo < hi {
      assert s[lo..hi][0] == s[lo] && s[lo..hi][hi - lo - 1] == s[hi - 1];
    } else {
      assert AllWhiteSpace(s);
    }
  }

  /** Trimming changes nothing in a string that is already trimmed, so `trim`
      is idempotent. */
  lemma TrimOfTrimmed(s: string)
    requires Trimmed(s)
    ensures Trim(s) == s
  {
    assert s != [] ==> !IsWhiteSpace(s[0]) && !IsWhiteSpace(s[|s| - 1]);
  }

  lemma TrimIdempotent(s: string)
    ensures Trim(Trim(s)) == Trim(s)
  {
    TrimOfTrimmed(Trim(s));
  }

  // ---------------------------------------------------------------------------
  // Decimal digits and numbers
  // ---------------------------------------------------------------------------

  predicate IsDigit(c: char) {
    '0' <= c <= '9'
  }

  predicate AllDigits(s: string) {
    forall i :: 0 <= i < |s| ==> IsDigit(s[i])
  }

  function DigitChar(d: nat): (c: char)
    requires d < 10
    ensures IsDigit(c) && DigitValue(c) == d
  {
    "0123456789"[d]
  }

  function DigitValue(c: char): nat
    requires IsDigit(c)
  {
    (c as int) - ('0' as int)
  }

  function Pow10(k: nat): nat {
    if k == 0 then 1 else 10 * Pow10(k - 1)
  }

  /** The value of a string of decimal digits read left to right, as
      `parseInt` reads it; the empty string reads as 0. */
  function ParseDecimal(s: string): nat
    requires AllDigits(s)
  {
    if s == [] then 0 else ParseDecimal(s[..|s| - 1]) * 10 + DigitValue(s[|s| - 1])
  }

  /** The decimal rendering of a natural number, as a template literal
      `${n}` gives it: one digit at least, and no leading zero. */
  function NatToString(n: nat): (r: string)
    ensures |r| >= 1 && AllDigits(r)
    ensures r[0] == '0' <==> n == 0
    ensures n == 0 ==> r == "0"
  {
    if n < 10 then [DigitChar(n)] else NatToString(n / 10) + [DigitChar(n % 10)]
  }

  /** `-` followed by the digits for a negative integer. */
  function IntToString(i: int): string {
    if i < 0 then "-" + NatToString(-i) else NatToString(i)
  }

  lemma ParseDecimalSnoc(s: string, c: char)
    requires AllDigits(s) && IsDigit(c)
    ensures AllDigits(s + [c])
    ensures ParseDecimal(s + [c]) == ParseDecimal(s) * 10 + DigitValue(c)
  {
    assert (s + [c])[..|s|] == s;
  }

  /** Reading back the digits of a number gives the number. */
  lemma {:induction false} ParseNatToString(n: nat)
    ensures ParseDecimal(NatToString(n)) == n
  {
    if n >= 10 {
      ParseNatToString(n / 10);
      ParseDecimalSnoc(NatToString(n / 10), DigitChar(n % 10));
    }
  }

  /** The value of a concatenation of digit strings. */
  lemma {:induction false} ParseDecimalAppend(a: string, b: string)
    requires AllDigits(a) && AllDigits(b)
    ensures AllDigits(a + b)
    ensures ParseDecimal(a + b) == ParseDecimal(a) * Pow10(|b|) + ParseDecimal(b)
  {
    if b == [] {
      assert a + b == a;
    } else {
      var b' := b[..|b| - 1];
      var c := b[|b| - 1];
      assert a + b == (a + b') + [c];
      assert b == b' + [c];
      ParseDecimalAppend(a, b');
      ParseDecimalSnoc(a + b', c);
      ParseDecimalSnoc(b', c);
      ShiftDigit(ParseDecimal(a), Pow10(|b'|), ParseDecimal(b'), DigitValue(c));
    }
  }

  lemma ShiftDigit(x: int, p: int, y: int, d: int)
    ensures (x * p + y) * 10 + d == x * (10 * p) + (y * 10 + d)
  {
    calc {
      (x * p + y) * 10 + d;
      x * p * 10 + y * 10 + d;
      x * (10 * p) + (y * 10 + d);
    }
  }

  /** Two numbers have the same decimal rendering only if they are equal. */
  lemma NatToStringInjective(a: nat, b: nat)
    ensures NatToString(a) == NatToString(b) <==> a == b
  {
    if NatToString(a) == NatToString(b) {
      ParseNatToString(a);
      ParseNatToString(b);
    }
  }

  // ---------------------------------------------------------------------------
  // JavaScript values as they arrive in the fetched JSON
  // ---------------------------------------------------------------------------

  /** The JSON values the backend may put in an id field: a string, an
      integer number, null, or nothing at all. */
  datatype JsValue = Undefined | Null | Str(s: string) | Int(i: int)

  /** `String(v)`. */
  function ToJsString(v: JsValue): (r: string)
    ensures v.Str? ==> r == v.s
    ensures v.Int? ==> |r| >= 1 && (r[0] == '-' <==> v.i < 0) && AllDigits(if v.i < 0 then r[1..] else r)
    ensures v.Int? ==> r != "undefined" && r != "null"
  {
    match v
    case Undefined => "undefined"
    case Null => "null"
    case Str(s) => s
    case Int(i) => IntStringSign(i); IntToString(i)
  }

  /** What `if (v)` and `v || d` treat as true: every id value except the
      four falsy ones, `undefined`, `null`, `""` and `0`. */
  predicate Truthy(v: JsValue)
    ensures !Truthy(v) <==> v == Undefined || v == Null || v == Str("") || v == Int(0)
  {
    match v
    case Undefined => false
    case Null => false
    case Str(s) => s != ""
    case Int(i) => i != 0
  }

  /** `v || fallback` for an optional string field: a missing or empty string
      gives the fallback. */
  function OrElse(v: Option<string>, fallback: string): (r: string)
    ensures fallback != "" ==> r != ""
    ensures r == fallback || v == Some(r)
    ensures v.Some? && v.value != "" ==> r == v.value
  {
    if v.Some? && v.value != "" then v.value else fallback
  }

  /** Integers compare equal under `String(...)` exactly when they are equal:
      the string comparison the page uses for ids loses nothing on numbers. */
  lemma IntIdsEqualIff(a: int, b: int)
    ensures ToJsString(Int(a)) == ToJsString(Int(b)) <==> a == b
  {
    IntStringSign(a);
    IntStringSign(b);
    if ToJsString(Int(a)) == ToJsString(Int(b)) {
      if a < 0 {
        NatToStringInjective(-a, -b);
      } else {
        NatToStringInjective(a, b);
      }
    }
  }

  /** Only a negative number's string starts with `-`; what follows is the
      magnitude's digits. */
  lemma IntStringSign(a: int)
    ensures |IntToString(a)| >= 1
    ensures IntToString(a)[0] == '-' <==> a < 0
    ensures a < 0 ==> IntToString(a)[1..] == NatToString(-a)
    ensures a >= 0 ==> IntToString(a) == NatToString(a)
  {
    if a >= 0 {
      var r := NatToString(a);
      assert IsDigit(r[0]);
    }
  }

  // ---------------------------------------------------------------------------
  // indexOf and replace with a string pattern
  // ---------------------------------------------------------------------------

  predicate OccursAt(s: string, pat: string, i: int) {
    0 <= i && i + |pat| <= |s| && s[i..i + |pat|] == pat
  }

  /** `s.indexOf(pat, from)`: the first position at or after `from` where
      `pat` occurs, if any. */
  function IndexOf(s: string, pat: string, from: nat): (r: Option<nat>)
    requires from <= |s|
    ensures r.Some? ==> from <= r.value && OccursAt(s, pat, r.value)
    ensures r.Some? ==> forall i :: from <= i < r.value ==> !OccursAt(s, pat, i)
    ensures r.None? ==> forall i :: from <= i ==> !OccursAt(s, pat, i)
    decreases |s| - from
  {
    if from + |pat| > |s| then None
    else if s[from..from + |pat|] == pat then Some(from)
    else if from == |s| then None
    else IndexOf(s, pat, from + 1)
  }

  /** `s.replace(pat, '')`: the first occurrence of `pat` removed. */
  function RemoveFirst(s: string, pat: string): (r: string)
    ensures OccursAt(s, pat, 0) ==> r == s[|pat|..]
    ensures (forall i :: !OccursAt(s, pat, i)) ==> r == s
    ensures forall i :: OccursAt(s, pat, i) && (forall j :: 0 <= j < i ==> !OccursAt(s, pat, j)) ==>
      r == s[..i] + s[i + |pat|..]
  {
    match IndexOf(s, pat, 0)
    case None => s
    case Some(i) => s[..i] + s[i + |pat|..]
  }
}
