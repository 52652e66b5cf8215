/**
  String primitives the app relies on, written out because Dafny's `string`
  is a sequence of Unicode scalar values while Kotlin's is UTF-16:

  - `Utf16Length` is Kotlin's `String.length`;
  - `IsWhitespace`, `Trim` and `IsBlank` are Kotlin's `Char.isWhitespace`,
    `String.trim()` and `CharSequence.isBlank()`;
  - `LexLess` is SQLite's BINARY collation on TEXT, i.e. a byte-wise compare
    of the UTF-8 encodings, which orders strings exactly as code points do.
*/
module Text {

  /** Kotlin `String.length`: a code point above U+FFFF is a surrogate pair and counts twice. */
  function Utf16Length(s: string): (n: nat)
    ensures |s| <= n <= 2 * |s|
    ensures n == 0 <==> |s| == 0
  {
    if |s| == 0 then 0
    else (if s[0] as int > 0xFFFF then 2 else 1) + Utf16Length(s[1..])
  }

  /**
    Kotlin `Char.isWhitespace()` on the JVM: `Character.isWhitespace(c) ||
    Character.isSpaceChar(c)`, i.e. the ASCII controls TAB..CR and FS..US plus
    every space, line and paragraph separator (no-break spaces included).
  */
  predicate IsWhitespace(c: char) {
    || c == ' ' || '\t' <= c <= '\r' || '\U{1C}' <= c <= '\U{1F}'
    || c == '\U{A0}' || c == '\U{1680}' || '\U{2000}' <= c <= '\U{200A}'
    || c == '\U{2028}' || c == '\U{2029}' || c == '\U{202F}' || c == '\U{205F}' || c == '\U{3000}'
  }

  /** Every character of `s` from index `lo` up to (not including) `hi` is whitespace. */
  ghost predicate BlankBetween(s: string, lo: int, hi: int) {
    0 <= lo <= hi <= |s| && forall j :: lo <= j < hi ==> IsWhitespace(s[j])
  }

  /** Kotlin `CharSequence.isBlank()`: empty or whitespace only. */
  predicate IsBlank(s: string)
  {
    forall i :: 0 <= i < |s| ==> IsWhitespace(s[i])
  }

  /** The first index from `i` on that is not whitespace, or `|s|`. */
  function SkipLeading(s: string, i: nat): (k: nat)
    requires i <= |s|
    ensures i <= k <= |s| && BlankBetween(s, i, k)
    ensures k < |s| ==> !IsWhitespace(s[k])
    decreases |s| - i
  {
    if i == |s| || !IsWhitespace(s[i]) then i else SkipLeading(s, i + 1)
  }

  /** The index just after the last character before `e` that is not whitespace, or `lo`. */
  function SkipTrailing(s: string, lo: nat, e: nat): (k: nat)
    requires lo <= e <= |s|
    ensures lo <= k <= e && BlankBetween(s, k, e)
    ensures k > lo ==> !IsWhitespace(s[k - 1])
    decreases e
  {
    if e == lo || !IsWhitespace(s[e - 1]) then e else SkipTrailing(s, lo, e - 1)
  }

  /**
    Kotlin `String.trim()`: the input with leading and trailing whitespace
    removed. The result is a contiguous slice of the input, only whitespace
    is cut away, and it neither starts nor ends with whitespace.
  */
  function Trim(s: string): (r: string)
    ensures |r| <= |s|
    ensures exists i :: 0 <= i <= |s| - |r| && r == s[i..i + |r|] && BlankBetween(s, 0, i) && BlankBetween(s, i + |r|, |s|)
    ensures r == [] || (!IsWhitespace(r[0]) && !IsWhitespace(r[|r| - 1]))
  {
    var i := SkipLeading(s, 0);
    var e := SkipTrailing(s, i, |s|);
    assert e < |s| ==> BlankBetween(s, i + |s[i..e]|, |s|);
    s[i..e]
  }

  /** `trim` is the identity on an already trimmed string, so it is idempotent. */
  lemma TrimIdempotent(s: string)
    ensures Trim(Trim(s)) == Trim(s)
  {
    var r := Trim(s);
    assert SkipLeading(r, 0) == 0;
    assert SkipTrailing(r, 0, |r|) == |r|;
    assert r[0..|r|] == r;
  }

  /** A string trims to nothing exactly when it is blank. */
  lemma TrimEmptyIffBlank(s: string)
    ensures Trim(s) == [] <==> IsBlank(s)
  {
    var i := SkipLeading(s, 0);
    if IsBlank(s) {
      assert i == |s|;
    } else {
      var j :| 0 <= j < |s| && !IsWhitespace(s[j]);
      assert i <= j;
      assert SkipTrailing(s, i, |s|) > j;
    }
  }


  /** SQLite BINARY collation: strict lexicographic order on code points, a proper prefix first. */
  predicate LexLess(a: string, b: string)
  {
    if |a| == 0 then |b| > 0
    else |b| > 0 && (a[0] < b[0] || (a[0] == b[0] && LexLess(a[1..], b[1..])))
  }

  lemma LexLessIrreflexive(a: string)
    ensures !LexLess(a, a)
  {
    if |a| > 0 { LexLessIrreflexive(a[1..]); }
  }

  lemma LexLessTransitive(a: string, b: string, c: string)
    requires LexLess(a, b) && LexLess(b, c)
    ensures LexLess(a, c)
  {
    if |a| > 0 && a[0] == b[0] && b[0] == c[0] {
      LexLessTransitive(a[1..], b[1..], c[1..]);
    }
  }

  /** The first position where two strings differ decides their order. */
  lemma {:induction false} LexLessAt(a: string, b: string, i: nat)
    requires i < |a| && i < |b| && a[..i] == b[..i] && a[i] < b[i]
    ensures LexLess(a, b)
  {
    if i > 0 {
      assert a[0] == a[..i][0] == b[..i][0] == b[0];
      assert a[1..][..i - 1] == a[..i][1..] == b[..i][1..] == b[1..][..i - 1];
      LexLessAt(a[1..], b[1..], i - 1);
    }
  }

  /** Two different strings are always ordered one way or the other. */
  lemma LexLessTotal(a: string, b: string)
    ensures a == b || LexLess(a, b) || LexLess(b, a)
  {
    if |a| > 0 && |b| > 0 && a[0] == b[0] {
      LexLessTotal(a[1..], b[1..]);
      if a[1..] == b[1..] {
        assert a == [a[0]] + a[1..] && b == [b[0]] + b[1..];
      }
    }
  }

  lemma LexLessAsymmetric(a: string, b: string)
    requires LexLess(a, b)
    ensures !LexLess(b, a)
  {
    if !(|a| == 0) && a[0] == b[0] {
      LexLessAsymmetric(a[1..], b[1..]);
    }
  }

  /**
    Comparing two concatenations whose first parts have the same length:
    the first parts decide, and only when they are equal do the second parts.
  */
  lemma {:induction false} LexLessConcat(x: string, y: string, x': string, y': string)
    requires |x| == |x'|
    ensures LexLess(x + y, x' + y') <==> LexLess(x, x') || (x == x' && LexLess(y, y'))
    ensures x + y == x' + y' <==> x == x' && y == y'
  {
    if |x| == 0 {
      assert x + y == y && x' + y' == y';
    } else {
      LexLessConcat(x[1..], y, x'[1..], y');
      assert (x + y)[1..] == x[1..] + y && (x' + y')[1..] == x'[1..] + y';
      assert x == [x[0]] + x[1..] && x' == [x'[0]] + x'[1..];
      if x + y == x' + y' {
        assert (x + y)[0] == (x' + y')[0];
      }
    }
  }
}
