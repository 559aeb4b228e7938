/** The string primitives the detector relies on: ASCII digits (`\d`),
    `parseInt`, `Number.prototype.toString`, `String.prototype.trim`,
    `toLowerCase`, `includes` and `indexOf`. */
module Text {

  import opened Wrappers

  /** The token that replaces one digit run in a URL template. */
  const Placeholder: string := "{page}"

  /** `\d` in a JavaScript regular expression without the `u` flag. */
  predicate IsDigit(c: char) {
    '0' <= c <= '9'
  }

  predicate AllDigits(s: string) {
    forall i :: 0 <= i < |s| ==> IsDigit(s[i])
  }

  /** `/\d+/.test(s)` */
  predicate HasDigit(s: string) {
    exists i :: 0 <= i < |s| && IsDigit(s[i])
  }

  function DigitValue(c: char): (d: nat)
    requires IsDigit(c)
    ensures d < 10
  {
    c as int - '0' as int
  }

  function DigitChar(d: nat): (c: char)
    requires d < 10
    ensures IsDigit(c) && DigitValue(c) == d
  {
    ('0' as int + d) as char
  }

  /** `parseInt(s, 10)` of a run of decimal digits, on unbounded naturals. */
  function NumberValue(s: string): nat
    requires AllDigits(s)
    decreases |s|
  {
    if s == [] then 0 else 10 * NumberValue(s[..|s| - 1]) + DigitValue(s[|s| - 1])
  }

  /** A decimal numeral as `toString` writes it: non-empty, digits only, and
      no leading zero unless the numeral is "0" itself. */
  predicate Canonical(s: string) {
    |s| >= 1 && AllDigits(s) && (s[0] == '0' ==> |s| == 1)
  }

  /** The exact decimal numeral of `n`: parsing it gives `n` back, and it is
      canonical. This is what `toString` writes for integers up to 2^53;
      above that `toString` writes the shortest digits that read back as the
      same double, and from 10^21 on it uses exponent form. */
  function DecimalString(n: nat): (r: string)
    ensures Canonical(r) && NumberValue(r) == n
    ensures r[0] == '0' <==> n == 0
    decreases n
  {
    if n < 10 then [DigitChar(n)]
    else
      var init := DecimalString(n / 10);
      var r := init + [DigitChar(n % 10)];
      assert r[..|r| - 1] == init;
      r
  }

  lemma {:induction false} LeadingNonZeroPositive(s: string)
    requires AllDigits(s) && |s| >= 1 && s[0] != '0'
    ensures NumberValue(s) >= 1
    decreases |s|
  {
    if |s| > 1 {
      LeadingNonZeroPositive(s[..|s| - 1]);
    }
  }

  /** Printing the value of a canonical numeral gives the numeral back. */
  lemma {:induction false} CanonicalRoundTrip(s: string)
    requires Canonical(s)
    ensures DecimalString(NumberValue(s)) == s
    decreases |s|
  {
    var c := s[|s| - 1];
    if |s| == 1 {
      assert s[..0] == [];
      assert s == [c];
    } else {
      var init := s[..|s| - 1];
      LeadingNonZeroPositive(init);
      CanonicalRoundTrip(init);
      var n := NumberValue(s);
      assert n == 10 * NumberValue(init) + DigitValue(c);
      assert n / 10 == NumberValue(init) && n % 10 == DigitValue(c);
      assert DigitChar(DigitValue(c)) == c;
      assert s == init + [c];
    }
  }

  /** A text equals `n.toString()` exactly when it is a canonical numeral whose
      value is `n`. */
  lemma DecimalStringIff(text: string, n: nat)
    ensures text == DecimalString(n) <==> Canonical(text) && NumberValue(text) == n
  {
    if Canonical(text) && NumberValue(text) == n {
      CanonicalRoundTrip(text);
    }
  }

  /** `parseInt` drops leading zeros, so a run such as "07" cannot be rebuilt
      from its value: the template has to keep the digits themselves. */
  lemma {:induction false} LeadingZeroNotReproduced(s: string)
    requires AllDigits(s) && s != []
    ensures NumberValue(['0'] + s) == NumberValue(s)
    ensures DecimalString(NumberValue(['0'] + s)) != ['0'] + s
    decreases |s|
  {
    var z := ['0'] + s;
    if |s| == 1 {
      assert z[..|z| - 1] == ['0'];
      assert ['0'][..0] == [];
    } else {
      var init := s[..|s| - 1];
      LeadingZeroNotReproduced(init);
      assert z[..|z| - 1] == ['0'] + init;
    }
  }

  /** The characters `String.prototype.trim` removes: ECMAScript WhiteSpace
      and LineTerminator code points (within the BMP). */
  predicate IsWhitespace(c: char) {
    || c == '\t' || c == '\n' || c == '\U{000B}' || c == '\U{000C}' || c == '\r'
    || c == ' ' || c == '\U{00A0}' || c == '\U{1680}'
    || ('\U{2000}' <= c <= '\U{200A}')
    || c == '\U{2028}' || c == '\U{2029}' || c == '\U{202F}' || c == '\U{205F}'
    || c == '\U{3000}' || c == '\U{FEFF}'
  }

  predicate AllWhitespace(s: string) {
    forall i :: 0 <= i < |s| ==> IsWhitespace(s[i])
  }

  /** The number of whitespace characters at the start of `s`. */
  function LeadingSpace(s: string): (k: nat)
    ensures k <= |s| && AllWhitespace(s[..k])
    ensures k == |s| || !IsWhitespace(s[k])
    decreases |s|
  {
    if s != [] && IsWhitespace(s[0]) then
      var k := 1 + LeadingSpace(s[1..]);
      assert s[..k] == [s[0]] + s[1..][..k - 1];
      k
    else 0
  }

  /** The number of whitespace characters at the end of `s`. */
  function TrailingSpace(s: string): (k: nat)
    ensures k <= |s| && AllWhitespace(s[|s| - k..])
    ensures k == |s| || !IsWhitespace(s[|s| - k - 1])
    decreases |s|
  {
    if s != [] && IsWhitespace(s[|s| - 1]) then
      var init := s[..|s| - 1];
      var k := 1 + TrailingSpace(init);
      assert s[|s| - k..] == init[|init| - (k - 1)..] + [s[|s| - 1]];
      k
    else 0
  }

  /** `s.trim()`: `s` without its leading and trailing whitespace. The result
      is a slice of `s`, only whitespace lies outside it, and it neither
      starts nor ends with whitespace. */
  function Trim(s: string): (r: string)
    ensures r == [] || (!IsWhitespace(r[0]) && !IsWhitespace(r[|r| - 1]))
    ensures exists i, j :: 0 <= i <= j <= |s| && r == s[i..j]
                           && AllWhitespace(s[..i]) && AllWhitespace(s[j..])
  {
    var i := LeadingSpace(s);
    var t := s[i..];
    var j := i + |t| - TrailingSpace(t);
    assert s[j..] == t[|t| - TrailingSpace(t)..];
    s[i..j]
  }

  /** Trimming twice is trimming once. */
  lemma TrimIdempotent(s: string)
    ensures Trim(Trim(s)) == Trim(s)
  {
    var r := Trim(s);
    assert LeadingSpace(r) == 0;
    assert TrailingSpace(r[LeadingSpace(r)..]) == 0;
  }

  /** ASCII case folding; `toLowerCase` on the characters of "pagination". */
  function LowerChar(c: char): char {
    if 'A' <= c <= 'Z' then (c as int + 32) as char else c
  }

  function ToLower(s: string): string {
    seq(|s|, i requires 0 <= i < |s| => LowerChar(s[i]))
  }

  predicate OccursAt(s: string, pat: string, i: nat) {
    i + |pat| <= |s| && s[i..i + |pat|] == pat
  }

  /** `s.includes(pat)` */
  predicate Contains(s: string, pat: string) {
    exists i: nat | i <= |s| :: OccursAt(s, pat, i)
  }

  /** `s.indexOf(pat, from)`: the leftmost occurrence at or after `from`. */
  function IndexOfFrom(s: string, pat: string, from: nat): (r: Option<nat>)
    requires from <= |s|
    ensures r.Some? ==> from <= r.value && OccursAt(s, pat, r.value)
    ensures forall j: nat :: from <= j && (r.None? || j < r.value) ==> !OccursAt(s, pat, j)
    decreases |s| - from
  {
    if OccursAt(s, pat, from) then Some(from)
    else if from == |s| then None
    else IndexOfFrom(s, pat, from + 1)
  }
}
