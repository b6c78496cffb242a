/** Character classes and string operations of the JavaScript runtime that
    the core relies on: the `\s` class (which is also what `trim` strips),
    line terminators (what `.` refuses), `startsWith`/`endsWith`/`includes`,
    and the decimal rendering of array indices and HTTP status codes. */
module Text {

  import opened Wrappers

  /** ECMAScript WhiteSpace and LineTerminator code points: the `\s` class
      of a regular expression and the characters `String.prototype.trim`
      removes. */
  predicate IsWhitespace(c: char)
  {
    || c == ' ' || c == '\t' || c == '\n' || c == '\r'
    || c == '\U{000B}' || c == '\U{000C}' || c == '\U{00A0}' || c == '\U{1680}'
    || ('\U{2000}' <= c <= '\U{200A}')
    || c == '\U{2028}' || c == '\U{2029}' || c == '\U{202F}' || c == '\U{205F}'
    || c == '\U{3000}' || c == '\U{FEFF}'
  }

  predicate IsVisible(c: char)
  {
    !IsWhitespace(c)
  }

  /** The characters a regular-expression `.` does not match. */
  predicate IsLineTerminator(c: char)
  {
    c == '\n' || c == '\r' || c == '\U{2028}' || c == '\U{2029}'
  }

  predicate AllWhitespace(s: string)
  {
    forall i :: 0 <= i < |s| ==> IsWhitespace(s[i])
  }

  predicate NoLineTerminator(s: string)
  {
    forall i :: 0 <= i < |s| ==> !IsLineTerminator(s[i])
  }

  /** `pattern` occurs in `s` starting at index `i`. */
  predicate HasAt(s: string, i: nat, pattern: string)
  {
    i + |pattern| <= |s| && s[i..i + |pattern|] == pattern
  }

  /** One differing character rules an occurrence out. */
  lemma Mismatch(s: string, i: nat, pattern: string, k: nat)
    requires k < |pattern| && i + k < |s| && s[i + k] != pattern[k]
    ensures !HasAt(s, i, pattern)
  {
    if i + |pattern| <= |s| {
      assert s[i..i + |pattern|][k] == s[i + k];
    }
  }

  /** `s.includes(pattern)`. */
  predicate Contains(s: string, pattern: string)
  {
    exists i: nat :: i + |pattern| <= |s| && HasAt(s, i, pattern)
  }

  /** `s.endsWith(c)` for a one-character argument. */
  predicate EndsWith(s: string, c: char)
  {
    |s| > 0 && s[|s| - 1] == c
  }

  /** Removes the leading run of whitespace. */
  function TrimStart(s: string): (r: string)
    ensures |r| <= |s| && r == s[|s| - |r|..]
    ensures AllWhitespace(s[..|s| - |r|])
    ensures |r| == 0 || !IsWhitespace(r[0])
  {
    if |s| > 0 && IsWhitespace(s[0]) then TrimStart(s[1..]) else s
  }

  /** Removes the trailing run of whitespace. */
  function TrimEnd(s: string): (r: string)
    ensures |r| <= |s| && r == s[..|r|]
    ensures AllWhitespace(s[|r|..])
    ensures |r| == 0 || !IsWhitespace(r[|r| - 1])
  {
    if |s| > 0 && IsWhitespace(s[|s| - 1]) then TrimEnd(s[..|s| - 1]) else s
  }

  /** `String.prototype.trim`. */
  function Trim(s: string): string
  {
    TrimEnd(TrimStart(s))
  }

  lemma TrimEndOfVisible(s: string)
    requires |s| == 0 || !IsWhitespace(s[|s| - 1])
    ensures TrimEnd(s) == s
  {
  }

  lemma {:induction false} TrimEndConcat(a: string, b: string)
    requires AllWhitespace(b)
    ensures TrimEnd(a + b) == TrimEnd(a)
    decreases |b|
  {
    if |b| > 0 {
      assert (a + b)[..|a + b| - 1] == a + b[..|b| - 1];
      TrimEndConcat(a, b[..|b| - 1]);
    } else {
      assert a + b == a;
    }
  }

  lemma TrimStartOfVisible(s: string)
    requires |s| == 0 || !IsWhitespace(s[0])
    ensures TrimStart(s) == s
  {
  }

  lemma {:induction false} TrimStartConcat(a: string, b: string)
    requires AllWhitespace(a)
    ensures TrimStart(a + b) == TrimStart(b)
    decreases |a|
  {
    if |a| > 0 {
      assert (a + b)[1..] == a[1..] + b;
      TrimStartConcat(a[1..], b);
    } else {
      assert a + b == b;
    }
  }

  function DigitChar(d: nat): char
    requires d < 10
  {
    "0123456789"[d]
  }

  predicate IsDigit(c: char)
  {
    '0' <= c <= '9'
  }

  function DigitValue(c: char): nat
    requires IsDigit(c)
  {
    (c as int - '0' as int) as nat
  }

  /** The decimal rendering of a natural number, as `String(n)` gives it. */
  function Decimal(n: nat): (r: string)
    ensures |r| > 0
    ensures forall i :: 0 <= i < |r| ==> IsDigit(r[i])
    ensures r[0] == '0' <==> n == 0
  {
    if n < 10 then [DigitChar(n)] else Decimal(n / 10) + [DigitChar(n % 10)]
  }

  /** The value of a string of decimal digits. */
  function DigitsValue(s: string): nat
    requires forall i :: 0 <= i < |s| ==> IsDigit(s[i])
  {
    if |s| == 0 then 0 else 10 * DigitsValue(s[..|s| - 1]) + DigitValue(s[|s| - 1])
  }

  /** Reads a property key as an array index: a canonical decimal numeral
      (no sign, no leading zero except "0" itself). */
  function ParseIndex(key: string): Option<nat>
  {
    if |key| == 0 || (|key| > 1 && key[0] == '0') then None
    else if forall i :: 0 <= i < |key| ==> IsDigit(key[i]) then Some(DigitsValue(key))
    else None
  }

  lemma {:induction false} DigitsValueOfDecimal(n: nat)
    ensures DigitsValue(Decimal(n)) == n
    decreases n
  {
    if n >= 10 {
      var d := Decimal(n);
      assert d[..|d| - 1] == Decimal(n / 10);
      DigitsValueOfDecimal(n / 10);
    }
  }

  /** Index keys round-trip: reading back the rendering of `n` gives `n`. */
  lemma ParseIndexOfDecimal(n: nat)
    ensures ParseIndex(Decimal(n)) == Some(n)
  {
    DigitsValueOfDecimal(n);
  }

  lemma DecimalInjective(m: nat, n: nat)
    requires m != n
    ensures Decimal(m) != Decimal(n)
  {
    ParseIndexOfDecimal(m);
    ParseIndexOfDecimal(n);
  }
}
