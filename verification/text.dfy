/** String helpers that the browser (ECMAScript) and the server (Python/Django)
    apply implicitly: whitespace trimming, UTF-16 length, case-insensitive
    containment, decimal rendering of identifiers and `||` display fallbacks. */
module Text {
  import opened Wrappers

  /** ECMAScript WhiteSpace and LineTerminator code points (what `String.prototype.trim`
      removes and what the regular-expression class `\s` matches). */
  predicate IsJsWhitespace(c: char) {
    var n := c as int;
    n == 0x09 || n == 0x0A || n == 0x0B || n == 0x0C || n == 0x0D || n == 0x20
    || n == 0xA0 || n == 0x1680 || (0x2000 <= n <= 0x200A) || n == 0x2028 || n == 0x2029
    || n == 0x202F || n == 0x205F || n == 0x3000 || n == 0xFEFF
  }

  /** Python's `str.isspace` code points (what `str.strip()` removes). Unlike
      ECMAScript it includes U+001C..U+001F and U+0085 and excludes U+FEFF. */
  predicate IsPyWhitespace(c: char) {
    var n := c as int;
    (0x09 <= n <= 0x0D) || (0x1C <= n <= 0x20) || n == 0x85
    || n == 0xA0 || n == 0x1680 || (0x2000 <= n <= 0x200A) || n == 0x2028 || n == 0x2029
    || n == 0x202F || n == 0x205F || n == 0x3000
  }

  /** `s` without its longest prefix of characters satisfying `isSpace`. */
  function DropLeading(s: string, isSpace: char -> bool): (r: string)
    ensures |r| <= |s| && r == s[|s| - |r|..]
    ensures r == [] || !isSpace(r[0])
    ensures forall k :: 0 <= k < |s| - |r| ==> isSpace(s[k])
  {
    if s == [] || !isSpace(s[0]) then s else DropLeading(s[1..], isSpace)
  }

  /** `s` without its longest suffix of characters satisfying `isSpace`. */
  function DropTrailing(s: string, isSpace: char -> bool): (r: string)
    ensures |r| <= |s| && r == s[..|r|]
    ensures r == [] || !isSpace(r[|r| - 1])
    ensures forall k :: |r| <= k < |s| ==> isSpace(s[k])
  {
    if s == [] || !isSpace(s[|s| - 1]) then s else DropTrailing(s[..|s| - 1], isSpace)
  }

  /** Both ends trimmed; the result is a contiguous slice of `s`. */
  function StripBy(s: string, isSpace: char -> bool): (r: string)
    ensures |r| <= |s|
    ensures r == [] || (!isSpace(r[0]) && !isSpace(r[|r| - 1]))
  {
    DropTrailing(DropLeading(s, isSpace), isSpace)
  }

  /** The trimmed string is a contiguous slice of the original. */
  lemma StripWithin(s: string, isSpace: char -> bool)
    ensures Contains(s, StripBy(s, isSpace))
  {
    var d := DropLeading(s, isSpace);
    assert OccursAt(s, StripBy(s, isSpace), |s| - |d|);
  }

  /** ECMAScript `s.trim()`. */
  function JsTrim(s: string): string {
    StripBy(s, IsJsWhitespace)
  }

  /** Python `s.strip()` with no argument. */
  function PyStrip(s: string): string {
    StripBy(s, IsPyWhitespace)
  }

  predicate AllBy(s: string, isSpace: char -> bool) {
    forall k :: 0 <= k < |s| ==> isSpace(s[k])
  }

  /** Trimming leaves nothing exactly when the input is all whitespace
      (so `"".trim()` and `"  ".trim()` are both falsy in JavaScript). */
  lemma StripEmptyIff(s: string, isSpace: char -> bool)
    ensures StripBy(s, isSpace) == [] <==> AllBy(s, isSpace)
  {
    var d := DropLeading(s, isSpace);
    if !AllBy(s, isSpace) {
      var k :| 0 <= k < |s| && !isSpace(s[k]);
      assert k >= |s| - |d|;
      assert d != [] && !isSpace(d[0]);
    }
  }

  /** Trimming twice is trimming once. */
  lemma StripIdempotent(s: string, isSpace: char -> bool)
    ensures StripBy(StripBy(s, isSpace), isSpace) == StripBy(s, isSpace)
  {
    var r := StripBy(s, isSpace);
    assert DropLeading(r, isSpace) == r;
    assert DropTrailing(r, isSpace) == r;
  }

  /** ECMAScript `s.length`: code points above U+FFFF occupy two UTF-16 code units. */
  function Utf16Length(s: string): (n: nat)
    ensures |s| <= n <= 2 * |s|
  {
    if s == [] then 0
    else Utf16Length(s[..|s| - 1]) + (if s[|s| - 1] as int > 0xFFFF then 2 else 1)
  }

  /** ASCII-only lower-casing, the case folding the model assumes for `icontains`. */
  function AsciiLower(c: char): char {
    if 'A' <= c <= 'Z' then (c as int + 32) as char else c
  }

  function Lower(s: string): (r: string)
    ensures |r| == |s|
    ensures forall k :: 0 <= k < |s| ==> r[k] == AsciiLower(s[k])
  {
    seq(|s|, k requires 0 <= k < |s| => AsciiLower(s[k]))
  }

  /** `needle` occurs in `hay` at offset `i`. */
  predicate OccursAt(hay: string, needle: string, i: int) {
    0 <= i && i + |needle| <= |hay| && hay[i..i + |needle|] == needle
  }

  predicate Contains(hay: string, needle: string) {
    exists i :: 0 <= i <= |hay| - |needle| && OccursAt(hay, needle, i)
  }

  /** Django `__icontains`: substring test after case folding. */
  predicate IContains(hay: string, needle: string) {
    Contains(Lower(hay), Lower(needle))
  }

  lemma EmptyNeedleOccurs(hay: string)
    ensures IContains(hay, "")
  {
    assert OccursAt(Lower(hay), Lower(""), 0);
  }

  function DigitChar(d: nat): char
    requires d < 10
  {
    ('0' as int + d) as char
  }

  predicate IsDigit(c: char) {
    '0' as int <= c as int <= '9' as int
  }

  /** Decimal rendering of a non-negative number, as `${n}` in a template string
      or `str(n)` in Python. */
  function NatToString(n: nat): (r: string)
    ensures r != []
    ensures forall k :: 0 <= k < |r| ==> IsDigit(r[k])
    ensures |r| > 1 ==> r[0] != '0'
  {
    if n < 10 then [DigitChar(n)] else NatToString(n / 10) + [DigitChar(n % 10)]
  }

  /** Reads a string of decimal digits back; the partner of `NatToString`. */
  function ParseDigits(s: string): nat
    requires forall k :: 0 <= k < |s| ==> IsDigit(s[k])
  {
    if s == [] then 0
    else
      assert IsDigit(s[|s| - 1]);
      ParseDigits(s[..|s| - 1]) * 10 + (s[|s| - 1] as int - '0' as int)
  }

  lemma {:induction false} ParseNatToString(n: nat)
    ensures ParseDigits(NatToString(n)) == n
  {
    if n >= 10 {
      var p := NatToString(n / 10);
      var r := NatToString(n);
      assert r[..|r| - 1] == p;
      ParseNatToString(n / 10);
    }
  }

  /** Distinct numbers render as distinct strings. */
  lemma NatToStringInjective(m: nat, n: nat)
    requires NatToString(m) == NatToString(n)
    ensures m == n
  {
    ParseNatToString(m);
    ParseNatToString(n);
  }

  /** JavaScript `v || fallback` where `v` is a string or absent: the empty
      string is falsy too. */
  function JsOr(v: Option<string>, fallback: string): (r: string)
    ensures v.Some? && v.value != "" ==> r == v.value
    ensures v.None? || v.value == "" ==> r == fallback
    ensures r == "" ==> fallback == ""
  {
    if v.Some? && v.value != "" then v.value else fallback
  }
}
