/**
 * The few ECMAScript string built-ins the application relies on, over
 * strings as sequences of characters: `trim`, `indexOf`/`includes`,
 * `startsWith`/`endsWith`, ASCII `toLowerCase` and the decimal rendering of
 * a non-negative integer.
 */
module JsString {
  import opened Wrappers

  /**
   * The WhiteSpace and LineTerminator code points of ECMAScript, the ones
   * `trim` removes: tab, line feed, vertical tab, form feed, carriage
   * return, space, no-break space, the Ogham space mark, the spaces
   * U+2000 to U+200A, the line and paragraph separators, the narrow
   * no-break space, the medium mathematical space, the ideographic space
   * and the byte order mark.
   */
  predicate IsWhitespace(c: char) {
    || '\t' <= c <= '\r'
    || c == ' ' || c == '\U{A0}' || c == '\U{1680}'
    || '\U{2000}' <= c <= '\U{200A}'
    || c == '\U{2028}' || c == '\U{2029}' || c == '\U{202F}' || c == '\U{205F}'
    || c == '\U{3000}' || c == '\U{FEFF}'
  }

  /** A string that `trim` turns into the empty (falsy) string. */
  predicate IsBlank(s: string) {
    forall k :: 0 <= k < |s| ==> IsWhitespace(s[k])
  }

  /** The number of whitespace characters `s` starts with. */
  function LeadingWhitespace(s: string): (n: nat)
    ensures n <= |s|
    ensures forall k :: 0 <= k < n ==> IsWhitespace(s[k])
    ensures n < |s| ==> !IsWhitespace(s[n])
  {
    if s != [] && IsWhitespace(s[0]) then 1 + LeadingWhitespace(s[1..]) else 0
  }

  /** The number of whitespace characters `s` ends with. */
  function TrailingWhitespace(s: string): (n: nat)
    ensures n <= |s|
    ensures forall k :: |s| - n <= k < |s| ==> IsWhitespace(s[k])
    ensures n < |s| ==> !IsWhitespace(s[|s| - n - 1])
  {
    if s != [] && IsWhitespace(s[|s| - 1]) then 1 + TrailingWhitespace(s[..|s| - 1]) else 0
  }

  /** `String.prototype.trimStart`: drops the leading whitespace and nothing else. */
  function TrimStart(s: string): (r: string)
    ensures |r| <= |s| && r == s[|s| - |r|..]
    ensures forall k :: 0 <= k < |s| - |r| ==> IsWhitespace(s[k])
    ensures r != [] ==> !IsWhitespace(r[0])
  {
    s[LeadingWhitespace(s)..]
  }

  /** `String.prototype.trimEnd`: drops the trailing whitespace and nothing else. */
  function TrimEnd(s: string): (r: string)
    ensures |r| <= |s| && r == s[..|r|]
    ensures forall k :: |r| <= k < |s| ==> IsWhitespace(s[k])
    ensures r != [] ==> !IsWhitespace(r[|r| - 1])
  {
    s[..|s| - TrailingWhitespace(s)]
  }

  /**
   * `String.prototype.trim`; it gives the empty (falsy) string exactly when
   * `s` is blank. `TrimIsSlice` says what is kept.
   */
  function Trim(s: string): (r: string)
    ensures r == [] <==> IsBlank(s)
  {
    TrimFacts(s);
    TrimEnd(TrimStart(s))
  }

  /**
   * What `trim` keeps: the slice `s[i..i + |r|]` whose first and last
   * characters are not whitespace, with only whitespace before and after it.
   */
  lemma TrimIsSlice(s: string)
    ensures var r := Trim(s); var i := |s| - |TrimStart(s)|;
      && i + |r| <= |s| && r == s[i..i + |r|]
      && (forall k :: 0 <= k < i ==> IsWhitespace(s[k]))
      && (forall k :: i + |r| <= k < |s| ==> IsWhitespace(s[k]))
      && (r != [] ==> !IsWhitespace(r[0]) && !IsWhitespace(r[|r| - 1]))
  {
    var t := TrimStart(s);
    var r := TrimEnd(t);
    assert Trim(s) == r;
    TrimFacts(s);
  }

  lemma TrimFacts(s: string)
    ensures var t := TrimStart(s); var i := |s| - |t|; var r := TrimEnd(t);
      && i + |r| <= |s| && r == s[i..i + |r|]
      && (forall k :: i + |r| <= k < |s| ==> IsWhitespace(s[k]))
      && (r != [] ==> !IsWhitespace(r[0]))
      && (r == [] <==> IsBlank(s))
  {
    var t := TrimStart(s);
    var r := TrimEnd(t);
    TwoCuts(s, t, r);
  }

  /**
   * Cutting leading whitespace off `s` to give `t`, then trailing whitespace
   * off `t` to give `r`, keeps a slice of `s` that is empty exactly when `s`
   * is blank.
   */
  lemma TwoCuts(s: string, t: string, r: string)
    requires |t| <= |s| && t == s[|s| - |t|..]
    requires forall k :: 0 <= k < |s| - |t| ==> IsWhitespace(s[k])
    requires t != [] ==> !IsWhitespace(t[0])
    requires |r| <= |t| && r == t[..|r|]
    requires forall k :: |r| <= k < |t| ==> IsWhitespace(t[k])
    requires r != [] ==> !IsWhitespace(r[|r| - 1])
    ensures var i := |s| - |t|;
      && i + |r| <= |s| && r == s[i..i + |r|]
      && (forall k :: i + |r| <= k < |s| ==> IsWhitespace(s[k]))
      && (r != [] ==> !IsWhitespace(r[0]))
      && (r == [] <==> IsBlank(s))
  {
    var i := |s| - |t|;
    assert s[i..][..|r|] == s[i..i + |r|];
    forall k | i + |r| <= k < |s| ensures IsWhitespace(s[k]) {
      assert s[k] == t[k - i];
    }
    if r != [] {
      assert r[0] == t[0];
      var last := s[i + |r| - 1];
      assert last == r[|r| - 1];
    }
  }

  /** The space is whitespace; visible ASCII characters are not. */
  lemma AsciiWhitespace(c: char)
    ensures c == ' ' ==> IsWhitespace(c)
    ensures '!' <= c <= '~' ==> !IsWhitespace(c)
  {
  }

  /** A string whose ends are not whitespace is its own trim. */
  lemma TrimKeeps(s: string)
    requires s != [] && !IsWhitespace(s[0]) && !IsWhitespace(s[|s| - 1])
    ensures Trim(s) == s
  {
    TrimIsSlice(s);
    var r := Trim(s);
    var i := |s| - |TrimStart(s)|;
    assert !IsBlank(s);
    var first, last := s[0], s[|s| - 1];
    assert 0 < i ==> IsWhitespace(first);
    assert i + |r| < |s| ==> IsWhitespace(last);
  }

  /** `p` occurs in `s` starting at index `i`. */
  predicate OccursAt(s: string, p: string, i: int) {
    0 <= i <= |s| - |p| && s[i..i + |p|] == p
  }

  /** `String.prototype.indexOf(p)`: the leftmost index at which `p` occurs, `None` for -1. */
  function IndexOf(s: string, p: string): (r: Option<nat>)
    ensures r.Some? ==> OccursAt(s, p, r.value)
    ensures r.Some? ==> forall j :: 0 <= j < r.value ==> !OccursAt(s, p, j)
    ensures r.None? ==> forall j :: !OccursAt(s, p, j)
    decreases |s|
  {
    if |s| < |p| then None
    else if s[..|p|] == p then Some(0)
    else
      var rest := IndexOf(s[1..], p);
      ShiftOccurrence(s, p);
      assert !OccursAt(s, p, 0);
      match rest
      case None =>
        assert forall j :: !OccursAt(s, p, j) by {
          forall j ensures !OccursAt(s, p, j) {
            if j >= 1 { assert !OccursAt(s[1..], p, j - 1); }
          }
        }
        None
      case Some(i) =>
        assert forall j :: 0 <= j < i + 1 ==> !OccursAt(s, p, j) by {
          forall j | 0 <= j < i + 1 ensures !OccursAt(s, p, j) {
            if j >= 1 { assert !OccursAt(s[1..], p, j - 1); }
          }
        }
        Some(i + 1)
  }

  /** An occurrence in the tail of `s` is an occurrence in `s`, one index further. */
  lemma ShiftOccurrence(s: string, p: string)
    requires s != []
    ensures forall j :: 0 <= j ==> (OccursAt(s[1..], p, j) <==> OccursAt(s, p, j + 1))
  {
    forall j | 0 <= j
      ensures OccursAt(s[1..], p, j) <==> OccursAt(s, p, j + 1)
    {
      if j <= |s| - 1 - |p| {
        assert s[1..][j..j + |p|] == s[j + 1..j + 1 + |p|];
      }
    }
  }

  /** `String.prototype.includes(p)`, which the language defines through `indexOf`. */
  predicate Contains(s: string, p: string) {
    IndexOf(s, p).Some?
  }

  /** An occurrence anywhere makes `includes` true. */
  lemma {:induction false} OccurrenceIsContained(s: string, p: string, i: int)
    requires OccursAt(s, p, i)
    ensures Contains(s, p)
  {
  }

  /** `String.prototype.startsWith(p)`. */
  predicate StartsWith(s: string, p: string) {
    |p| <= |s| && s[..|p|] == p
  }

  /** `String.prototype.endsWith(p)`. */
  predicate EndsWith(s: string, p: string) {
    |p| <= |s| && s[|s| - |p|..] == p
  }

  /** `toLowerCase` restricted to ASCII: upper-case Latin letters become lower case. */
  function LowerAscii(c: char): char {
    if 'A' <= c <= 'Z' then (c as int + 32) as char else c
  }

  function ToLowerAscii(s: string): (r: string)
    ensures |r| == |s|
    ensures forall k :: 0 <= k < |s| ==> r[k] == LowerAscii(s[k])
  {
    if s == [] then [] else [LowerAscii(s[0])] + ToLowerAscii(s[1..])
  }

  predicate IsDigit(c: char) {
    '0' <= c <= '9'
  }

  function DigitChar(d: nat): (c: char)
    requires d < 10
  {
    (48 + d) as char
  }

  /**
   * The decimal numeral JavaScript prints for a non-negative integer (exact
   * below 10^21, far beyond any array length).
   */
  function Decimal(n: nat): (r: string)
    ensures r != [] && forall k :: 0 <= k < |r| ==> IsDigit(r[k])
    ensures r[0] == '0' ==> n == 0
  {
    if n < 10 then [DigitChar(n)] else Decimal(n / 10) + [DigitChar(n % 10)]
  }

  /** The value of a numeral written with decimal digits (JavaScript's `Number` of a digit string). */
  function DecimalValue(s: string): nat
    requires forall k :: 0 <= k < |s| ==> IsDigit(s[k])
  {
    if s == [] then 0 else 10 * DecimalValue(s[..|s| - 1]) + DigitValue(s[|s| - 1])
  }

  function DigitValue(c: char): nat
    requires IsDigit(c)
  {
    c as int - '0' as int
  }

  /** Reading back a printed number gives the number. */
  lemma {:induction false} DecimalRoundTrip(n: nat)
    ensures DecimalValue(Decimal(n)) == n
  {
    if n >= 10 {
      var r := Decimal(n);
      assert r[..|r| - 1] == Decimal(n / 10);
      DecimalRoundTrip(n / 10);
    }
  }
}
