/**
 * The filename sanitizer that indiv.py, main.py and cleaner.py each define
 * identically: keep the characters of a fixed allow-set, in their order,
 * and drop every other character.
 */
module Sanitizer {

  /** The allow-set: the six characters "-_.() ", the ASCII letters and the ASCII digits. */
  predicate Allowed(c: char)
  {
    c == '-' || c == '_' || c == '.' || c == '(' || c == ')' || c == ' '
    || ('a' <= c <= 'z') || ('A' <= c <= 'Z') || ('0' <= c <= '9')
  }

  /** A name made only of allowed characters. */
  predicate IsClean(name: string)
  {
    forall i :: 0 <= i < |name| ==> Allowed(name[i])
  }

  /** `a` is `b` with some characters removed and the rest kept in order. */
  predicate IsSubsequence(a: string, b: string)
    decreases |b|
  {
    a == [] || (b != [] && if a[0] == b[0] then IsSubsequence(a[1..], b[1..]) else IsSubsequence(a, b[1..]))
  }

  /** `sanitize_filename(filename)`. */
  function Sanitize(filename: string): (cleaned: string)
    ensures IsClean(cleaned)
    ensures |cleaned| <= |filename|
  {
    if filename == [] then []
    else (if Allowed(filename[0]) then [filename[0]] else []) + Sanitize(filename[1..])
  }

  /** The sanitized name keeps the input's characters in their original order. */
  lemma {:induction false} SanitizeIsSubsequence(filename: string)
    ensures IsSubsequence(Sanitize(filename), filename)
  {
    if filename != [] {
      SanitizeIsSubsequence(filename[1..]);
      var r := Sanitize(filename);
      if Allowed(filename[0]) {
        assert r[0] == filename[0] && r[1..] == Sanitize(filename[1..]);
      } else {
        assert r == Sanitize(filename[1..]);
        assert r != [] ==> Allowed(r[0]) && r[0] != filename[0];
      }
    }
  }

  /** Every allowed character occurs as often in the output as in the input; no other character occurs. */
  lemma {:induction false} SanitizeCounts(filename: string, c: char)
    ensures multiset(Sanitize(filename))[c] == if Allowed(c) then multiset(filename)[c] else 0
  {
    if filename != [] {
      SanitizeCounts(filename[1..], c);
      assert filename == [filename[0]] + filename[1..];
      assert multiset(filename) == multiset([filename[0]]) + multiset(filename[1..]);
    }
  }

  /** Sanitizing distributes over concatenation. */
  lemma {:induction false} SanitizeConcat(a: string, b: string)
    ensures Sanitize(a + b) == Sanitize(a) + Sanitize(b)
  {
    if a == [] {
      assert a + b == b;
    } else {
      assert (a + b)[0] == a[0];
      assert (a + b)[1..] == a[1..] + b;
      SanitizeConcat(a[1..], b);
    }
  }

  /** A name is left unchanged exactly when it is already clean. */
  lemma {:induction false} SanitizeFixedPoint(name: string)
    ensures Sanitize(name) == name <==> IsClean(name)
  {
    if name != [] {
      SanitizeFixedPoint(name[1..]);
      if !Allowed(name[0]) {
        // the output is too short to be the input
        assert |Sanitize(name)| <= |name[1..]|;
      }
    }
  }

  /** Sanitizing twice gives the same result as sanitizing once. */
  lemma SanitizeIdempotent(filename: string)
    ensures Sanitize(Sanitize(filename)) == Sanitize(filename)
  {
    SanitizeFixedPoint(Sanitize(filename));
  }

  /** The allow-set holds no path separator and no drive colon, so a sanitized name has none of them. */
  lemma SanitizedHasNoSeparator(filename: string)
    ensures '/' !in Sanitize(filename) && '\\' !in Sanitize(filename) && ':' !in Sanitize(filename)
  {
  }
}
