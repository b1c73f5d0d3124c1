/** Behaviour of the Kotlin standard library and of Android that the app
    calls but does not define. The character classes and case mappings are
    Unicode tables and the e-mail pattern is a regular expression shipped
    with Android; none of them is spelled out here. A `Library` value holds
    them as functions, and every operation of the model takes one, so each
    property proved below holds whatever those tables contain. */
module Platform {

  datatype Library = Library(
    isWhitespace: char -> bool,    // Char.isWhitespace()
    isDigit: char -> bool,         // Char.isDigit()
    uppercaseChar: char -> char,   // Character.toUpperCase(char)
    lowercaseChar: char -> char,   // Character.toLowerCase(char)
    lowercase: string -> string,   // String.lowercase(), locale-independent
    emailAddress: string -> bool   // Patterns.EMAIL_ADDRESS.matcher(s).matches()
  )

  /** Kotlin's `CharSequence.isBlank()`: empty or whitespace only. */
  predicate IsBlank(lib: Library, s: string)
    ensures |s| == 0 ==> IsBlank(lib, s)
    ensures IsBlank(lib, s) <==> SkipBlanks(lib, s, 0) == |s|
  {
    forall i :: 0 <= i < |s| ==> lib.isWhitespace(s[i])
  }

  /** Kotlin's `s.all { it.isDigit() }` (true of the empty string). */
  predicate AllDigits(lib: Library, s: string)
    ensures |s| == 0 ==> AllDigits(lib, s)
    ensures |s| > 0 ==> (AllDigits(lib, s) <==> lib.isDigit(s[0]) && AllDigits(lib, s[1..]))
  {
    forall i :: 0 <= i < |s| ==> lib.isDigit(s[i])
  }

  /** The first index at or after `from` that is not whitespace, or |s|. */
  function SkipBlanks(lib: Library, s: string, from: nat): (i: nat)
    requires from <= |s|
    ensures from <= i <= |s|
    ensures forall k :: from <= k < i ==> lib.isWhitespace(s[k])
    ensures i < |s| ==> !lib.isWhitespace(s[i])
    decreases |s| - from
  {
    if from == |s| || !lib.isWhitespace(s[from]) then from
    else SkipBlanks(lib, s, from + 1)
  }

  /** The end of `s[lo..hi]` once trailing whitespace is dropped. */
  function DropTrailingBlanks(lib: Library, s: string, lo: nat, hi: nat): (j: nat)
    requires lo <= hi <= |s|
    ensures lo <= j <= hi
    ensures forall k :: j <= k < hi ==> lib.isWhitespace(s[k])
    ensures j > lo ==> !lib.isWhitespace(s[j - 1])
    decreases hi
  {
    if hi == lo || !lib.isWhitespace(s[hi - 1]) then hi
    else DropTrailingBlanks(lib, s, lo, hi - 1)
  }

  /** `r` sits at index `i` of `s`, with only whitespace around it. */
  predicate TrimmedAt(lib: Library, s: string, r: string, i: nat) {
    && i + |r| <= |s|
    && s[i..i + |r|] == r
    && (forall k :: 0 <= k < i ==> lib.isWhitespace(s[k]))
    && (forall k :: i + |r| <= k < |s| ==> lib.isWhitespace(s[k]))
  }

  /** Kotlin's `String.trim()`, which strips characters satisfying
      `isWhitespace` from both ends. The result is the slice of `s` with
      only whitespace around it and none at its ends, and it is empty
      exactly when `s` is blank. */
  function Trim(lib: Library, s: string): (r: string)
    ensures |r| <= |s|
    ensures |r| == 0 <==> IsBlank(lib, s)
    ensures |r| > 0 ==> !lib.isWhitespace(r[0]) && !lib.isWhitespace(r[|r| - 1])
    ensures exists i :: TrimmedAt(lib, s, r, i)
  {
    var i := SkipBlanks(lib, s, 0);
    var j := DropTrailingBlanks(lib, s, i, |s|);
    assert TrimmedAt(lib, s, s[i..j], i);
    assert j == i ==> i == |s|;
    s[i..j]
  }

  /** One step of `java.lang.String.equalsIgnoreCase`, which is what Kotlin's
      `equals(other, ignoreCase = true)` runs on the JVM. */
  predicate CharEqualsIgnoreCase(lib: Library, a: char, b: char) {
    || a == b
    || lib.uppercaseChar(a) == lib.uppercaseChar(b)
    || lib.lowercaseChar(lib.uppercaseChar(a)) == lib.lowercaseChar(lib.uppercaseChar(b))
  }

  /** `a.equals(b, ignoreCase = true)`: same length, pairwise equal up to case. */
  predicate EqualsIgnoreCase(lib: Library, a: string, b: string)
    ensures EqualsIgnoreCase(lib, a, b) ==> |a| == |b|
    ensures a == b ==> EqualsIgnoreCase(lib, a, b)
  {
    && |a| == |b|
    && forall i :: 0 <= i < |a| ==> CharEqualsIgnoreCase(lib, a[i], b[i])
  }

  /** Whatever the case tables hold, a string equals itself and the
      relation is symmetric. */
  lemma EqualsIgnoreCaseIsReflexiveAndSymmetric(lib: Library, a: string, b: string)
    ensures EqualsIgnoreCase(lib, a, a)
    ensures EqualsIgnoreCase(lib, a, b) <==> EqualsIgnoreCase(lib, b, a)
  {
  }

  predicate IsAscii(s: string) {
    forall i :: 0 <= i < |s| ==> s[i] as int < 128
  }

  function AsciiLowerChar(c: char): char {
    if 'A' <= c <= 'Z' then (c as int + 32) as char else c
  }

  /** The lower-case form of an ASCII string, one character at a time. */
  function AsciiLower(s: string): (r: string)
    ensures |r| == |s|
  {
    seq(|s|, i requires 0 <= i < |s| => AsciiLowerChar(s[i]))
  }

  /** What `String.lowercase()` is documented to do on ASCII text: map
      'A'..'Z' to 'a'..'z' and leave every other character alone. Only the
      lemmas that need a concrete city name to be found assume it. */
  ghost predicate AsciiLowercase(lib: Library) {
    forall s :: IsAscii(s) ==> lib.lowercase(s) == AsciiLower(s)
  }
}
