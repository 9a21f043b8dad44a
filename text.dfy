/**
 * Kotlin/JVM primitives the app relies on: `String.trim()`, `Long` division
 * (which truncates toward zero) and `Long.toInt()` (which keeps the low 32 bits).
 */
module Text {

  /** `Char.isWhitespace()` on the JVM: the Unicode space, line and paragraph
      separators plus the control characters U+0009..U+000D and U+001C..U+001F. */
  predicate IsWhitespace(c: char) {
    || c == ' '
    || ('\t' <= c <= '\r')
    || ('\U{1C}' <= c <= '\U{1F}')
    || c == '\U{A0}' || c == '\U{1680}'
    || ('\U{2000}' <= c <= '\U{200A}')
    || c == '\U{2028}' || c == '\U{2029}' || c == '\U{202F}' || c == '\U{205F}' || c == '\U{3000}'
  }

  ghost predicate AllWhitespace(s: string) {
    forall i :: 0 <= i < |s| ==> IsWhitespace(s[i])
  }

  /** The index of the first non-whitespace character at or after `i`, or `|s|` when there is none. */
  function SkipBlanks(s: string, i: nat): (j: nat)
    requires i <= |s|
    ensures i <= j <= |s|
    ensures j == |s| || !IsWhitespace(s[j])
    ensures forall k :: i <= k < j ==> IsWhitespace(s[k])
    decreases |s| - i
  {
    if i < |s| && IsWhitespace(s[i]) then SkipBlanks(s, i + 1) else i
  }

  /** Scanning back from `j` but not below `lo`: one past the last non-whitespace character, or `lo`. */
  function BackBlanks(s: string, lo: nat, j: nat): (e: nat)
    requires lo <= j <= |s|
    ensures lo <= e <= j
    ensures e == lo || !IsWhitespace(s[e - 1])
    ensures forall k :: e <= k < j ==> IsWhitespace(s[k])
    decreases j
  {
    if j > lo && IsWhitespace(s[j - 1]) then BackBlanks(s, lo, j - 1) else j
  }

  /** `String.trim()`: the leading whitespace is skipped from the front, the trailing whitespace
      from the back, and what lies between is kept. */
  function Trim(s: string): (r: string)
    ensures |r| <= |s|
    ensures r == [] || (!IsWhitespace(r[0]) && !IsWhitespace(r[|r| - 1]))
  {
    var start := SkipBlanks(s, 0);
    s[start..BackBlanks(s, start, |s|)]
  }

  /** Trimming removes whitespace from the two ends and nothing else: the result is a slice of the
      input with only whitespace before it and after it. */
  lemma TrimKeepsMiddle(s: string)
    ensures exists i, j :: 0 <= i <= j <= |s| && Trim(s) == s[i..j] && AllWhitespace(s[..i]) && AllWhitespace(s[j..])
  {
    var start := SkipBlanks(s, 0);
    var end := BackBlanks(s, start, |s|);
    assert AllWhitespace(s[..start]) && AllWhitespace(s[end..]);
  }

  /** A trimmed string is empty exactly when the input is blank. */
  lemma TrimEmptyIffBlank(s: string)
    ensures Trim(s) == [] <==> AllWhitespace(s)
  {
    var start := SkipBlanks(s, 0);
    if start < |s| {
      assert !IsWhitespace(s[start]);
      assert !AllWhitespace(s);
    }
  }

  /** Trimming is idempotent. */
  lemma TrimIdempotent(s: string)
    ensures Trim(Trim(s)) == Trim(s)
  {
    var r := Trim(s);
    if r != [] {
      assert SkipBlanks(r, 0) == 0;
      assert BackBlanks(r, 0, |r|) == |r|;
      assert r[0..|r|] == r;
    }
  }

  /** Kotlin's `Long / Long` for a positive divisor: the quotient rounded toward zero, so the
      remainder has the dividend's sign and is smaller than the divisor. */
  function TruncDiv(a: int, b: int): (q: int)
    requires b > 0
    ensures 0 <= a ==> 0 <= a - q * b < b
    ensures a < 0 ==> -b < a - q * b <= 0
    ensures 0 <= a ==> 0 <= q
    ensures a < 0 ==> q <= 0
  {
    if a >= 0 then DivNonNegative(a, b); a / b else DivNonNegative(-a, b); -((-a) / b)
  }

  lemma DivNonNegative(a: int, b: int)
    requires 0 <= a && 0 < b
    ensures 0 <= a / b
  {
  }

  /** The quotient is determined by the remainder law: any `q` whose remainder has the dividend's
      sign and is smaller than the divisor is `TruncDiv(a, b)`. */
  lemma TruncDivUnique(a: int, b: int, q: int)
    requires b > 0
    requires 0 <= a ==> 0 <= a - q * b < b
    requires a < 0 ==> -b < a - q * b <= 0
    ensures TruncDiv(a, b) == q
  {
    var t := TruncDiv(a, b);
    if t < q {
      MulMonotone(t + 1, q, b);
    } else if q < t {
      MulMonotone(q + 1, t, b);
    }
  }

  lemma MulMonotone(x: int, y: int, b: int)
    requires x <= y && 0 < b
    ensures x * b <= y * b
  {
    assert y * b - x * b == (y - x) * b;
  }

  /** Truncating division is odd: negating the dividend negates the quotient. */
  lemma TruncDivNegate(a: int, b: int)
    requires b > 0
    ensures TruncDiv(-a, b) == -TruncDiv(a, b)
  {
    var q := TruncDiv(a, b);
    assert (-a) - (-q) * b == -(a - q * b);
    TruncDivUnique(-a, b, -q);
  }

  /** Kotlin's `String.length`: the number of UTF-16 code units, two for a character outside the
      Basic Multilingual Plane. */
  function Utf16Length(s: string): (n: nat)
    ensures |s| <= n <= 2 * |s|
    ensures n == |s| <==> forall i :: 0 <= i < |s| ==> (s[i] as int) < 0x1_0000
    ensures s == [] <==> n == 0
  {
    if s == [] then 0 else (if (s[0] as int) < 0x1_0000 then 1 else 2) + Utf16Length(s[1..])
  }

  /** Code units add up over concatenation. */
  lemma {:induction false} Utf16LengthAppend(s: string, t: string)
    ensures Utf16Length(s + t) == Utf16Length(s) + Utf16Length(t)
  {
    if s != [] {
      var u := s + t;
      assert u[0] == s[0] && u[1..] == s[1..] + t;
      assert Utf16Length(u) == (if (u[0] as int) < 0x1_0000 then 1 else 2) + Utf16Length(u[1..]);
      Utf16LengthAppend(s[1..], t);
    } else {
      assert s + t == t;
    }
  }

  const TwoTo31: int := 0x8000_0000
  const TwoTo32: int := 0x1_0000_0000

  /** Kotlin's `Long.toInt()`: keeps the low 32 bits as a two's-complement value. */
  function ToInt32(x: int): (r: int)
    ensures -TwoTo31 <= r < TwoTo31
    ensures (x - r) % TwoTo32 == 0
    ensures -TwoTo31 <= x < TwoTo31 ==> r == x
  {
    (x + TwoTo31) % TwoTo32 - TwoTo31
  }
}
