/** Character classes and string helpers shared by the scraper model.

    The Python sources work on `str` values through the `re` module and a
    few `str` methods.  This module states those primitives explicitly:
    the character classes used by the patterns, ASCII case folding for
    `re.IGNORECASE` and `str.lower`, substring tests, `str.strip` and
    `str.join`. */
module Text {

  /** `[a-zA-Z]` */
  predicate IsAsciiLetter(c: char) {
    'a' <= c <= 'z' || 'A' <= c <= 'Z'
  }

  /** `\d`, restricted to ASCII digits */
  predicate IsDigit(c: char) {
    '0' <= c <= '9'
  }

  /** `\w`, restricted to ASCII letters, digits and underscore */
  predicate IsWordChar(c: char) {
    IsAsciiLetter(c) || IsDigit(c) || c == '_'
  }

  /** The character class `[ \w\-():;,]` of the pattern RE_ANY. */
  predicate IsAnyChar(c: char) {
    c == ' ' || IsWordChar(c) || c == '-' || c == '(' || c == ')' || c == ':' || c == ';' || c == ','
  }

  /** The characters Python's `str.strip()` removes (`str.isspace`). */
  predicate IsSpace(c: char) {
    var n := c as int;
    (9 <= n <= 13) || (28 <= n <= 32) || n == 0x85 || n == 0xA0 || n == 0x1680
    || (0x2000 <= n <= 0x200A) || n == 0x2028 || n == 0x2029 || n == 0x202F
    || n == 0x205F || n == 0x3000
  }

  /** ASCII lower-casing of one character. */
  function Lower(c: char): (r: char)
    ensures IsAsciiLetter(c) ==> 'a' <= r <= 'z'
    ensures !('A' <= c <= 'Z') ==> r == c
  {
    if 'A' <= c <= 'Z' then (c as int + 32) as char else c
  }

  /** `str.lower()`, restricted to ASCII letters. */
  function LowerStr(s: string): (r: string)
    ensures |r| == |s|
    ensures forall i :: 0 <= i < |s| ==> r[i] == Lower(s[i])
  {
    if s == [] then [] else [Lower(s[0])] + LowerStr(s[1..])
  }

  /** Two strings are equal under `re.IGNORECASE` (ASCII folding). */
  predicate EqualsIgnoreCase(a: string, b: string) {
    |a| == |b| && forall i :: 0 <= i < |a| ==> Lower(a[i]) == Lower(b[i])
  }

  /** `w` occurs in `s` starting at position `p`. */
  predicate HasAt(s: string, p: int, w: string) {
    0 <= p && p + |w| <= |s| && s[p..p + |w|] == w
  }

  /** `w` occurs in `s` at position `p`, ignoring ASCII case. */
  predicate HasAtIgnoreCase(s: string, p: int, w: string) {
    0 <= p && p + |w| <= |s| && EqualsIgnoreCase(s[p..p + |w|], w)
  }

  /** Python's `w in s` for strings. */
  predicate Contains(s: string, w: string) {
    exists p :: 0 <= p <= |s| - |w| && HasAt(s, p, w)
  }

  /** Every character of `s` is whitespace. */
  predicate AllSpace(s: string) {
    forall i :: 0 <= i < |s| ==> IsSpace(s[i])
  }

  /** The end of the run of whitespace that starts at `i`. */
  function SpaceEnd(s: string, i: nat): (k: nat)
    requires i <= |s|
    ensures i <= k <= |s|
    decreases |s| - i
  {
    if i < |s| && IsSpace(s[i]) then SpaceEnd(s, i + 1) else i
  }

  /** The start of the run of whitespace that ends at `j`. */
  function SpaceStart(s: string, j: nat): (k: nat)
    requires j <= |s|
    ensures k <= j
  {
    if j > 0 && IsSpace(s[j - 1]) then SpaceStart(s, j - 1) else j
  }

  lemma {:induction false} SpaceEndSpec(s: string, i: nat)
    requires i <= |s|
    ensures forall j :: i <= j < SpaceEnd(s, i) ==> IsSpace(s[j])
    ensures SpaceEnd(s, i) == |s| || !IsSpace(s[SpaceEnd(s, i)])
    decreases |s| - i
  {
    if i < |s| && IsSpace(s[i]) {
      SpaceEndSpec(s, i + 1);
    }
  }

  lemma {:induction false} SpaceStartSpec(s: string, j: nat)
    requires j <= |s|
    ensures forall m :: SpaceStart(s, j) <= m < j ==> IsSpace(s[m])
    ensures SpaceStart(s, j) == 0 || !IsSpace(s[SpaceStart(s, j) - 1])
  {
    if j > 0 && IsSpace(s[j - 1]) {
      SpaceStartSpec(s, j - 1);
    }
  }

  /** `str.lstrip()`: drops leading whitespace. */
  function TrimStart(s: string): string {
    s[SpaceEnd(s, 0)..]
  }

  /** `str.rstrip()`: drops trailing whitespace. */
  function TrimEnd(s: string): string {
    s[..SpaceStart(s, |s|)]
  }

  /** `r` is `s` with some whitespace taken off either side. */
  predicate StrippedFrom(s: string, r: string) {
    exists i :: 0 <= i <= |s| - |r| && s[i..i + |r|] == r && AllSpace(s[..i]) && AllSpace(s[i + |r|..])
  }

  /** `str.strip()` */
  function Strip(s: string): string {
    TrimEnd(TrimStart(s))
  }

  /** The result of `str.strip()` is `s` with whitespace on either side
      taken off, and it neither starts nor ends with whitespace. */
  lemma StripSpec(s: string)
    ensures |Strip(s)| <= |s|
    ensures Strip(s) == [] || (!IsSpace(Strip(s)[0]) && !IsSpace(Strip(s)[|Strip(s)| - 1]))
    ensures StrippedFrom(s, Strip(s))
  {
    var i := SpaceEnd(s, 0);
    var t := s[i..];
    var k := SpaceStart(t, |t|);
    var r := t[..k];
    SpaceEndSpec(s, 0);
    SpaceStartSpec(t, |t|);
    if r != [] {
      assert r[0] == s[i];
      SpaceStartLast(t, k, i);
    }
    assert s[i..i + |r|] == r;
    assert AllSpace(s[..i]) by {
      forall m | 0 <= m < i ensures IsSpace(s[..i][m]) {
        assert s[..i][m] == s[m];
      }
    }
    assert AllSpace(s[i + |r|..]) by {
      var u := s[i + |r|..];
      forall m | 0 <= m < |u| ensures IsSpace(u[m]) {
        assert u[m] == t[k + m];
      }
    }
  }

  lemma SpaceStartLast(t: string, k: nat, i: nat)
    requires k == SpaceStart(t, |t|) && 0 < k
    requires t == [] || !IsSpace(t[0])
    ensures !IsSpace(t[..k][k - 1])
  {
    SpaceStartSpec(t, |t|);
  }

  /** Stripping a string that has no outer whitespace changes nothing,
      so `str.strip()` is idempotent. */
  lemma StripIdempotent(s: string)
    ensures Strip(Strip(s)) == Strip(s)
  {
    var r := Strip(s);
    StripSpec(s);
    assert SpaceEnd(r, 0) == 0;
    assert r[0..] == r;
    assert SpaceStart(r, |r|) == |r|;
    assert r[..|r|] == r;
  }

  /** `sep.join(parts)` */
  function Join(parts: seq<string>, sep: string): (r: string)
    ensures |parts| > 0 ==> |r| == SumLengths(parts) + (|parts| - 1) * |sep|
    ensures parts == [] ==> r == []
  {
    if parts == [] then []
    else if |parts| == 1 then parts[0]
    else parts[0] + sep + Join(parts[1..], sep)
  }

  /** Total length of a sequence of strings. */
  function SumLengths(parts: seq<string>): nat {
    if parts == [] then 0 else |parts[0]| + SumLengths(parts[1..])
  }
}
