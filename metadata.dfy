/**
 * `extract_author_year(filename)` of indiv.py and main.py: a name laid out
 * as "Author_Year_Title.txt" yields (Author, Year); any name with fewer than
 * two underscores yields ("Unknown", "Unknown"). The year is not checked.
 */
module Metadata {
  import opened Strings

  const UnknownField := "Unknown"

  /**
   * With at least two underscores, the author is the text before the first
   * underscore and the year the text between the first and the second;
   * otherwise both are "Unknown".
   */
  function ExtractAuthorYear(filename: string): (r: (string, string))
    ensures multiset(filename)['_'] >= 2 ==>
      '_' !in r.0 && '_' !in r.1 && StartsWith(filename, r.0 + "_" + r.1 + "_")
    ensures multiset(filename)['_'] < 2 ==> r == (UnknownField, UnknownField)
  {
    var parts := SplitOn(filename, '_');
    SplitOnCount(filename, '_');
    if |parts| >= 3 then
      LeadingParts(filename, '_');
      (parts[0], parts[1])
    else
      (UnknownField, UnknownField)
  }

  /** With three parts or more, the name starts with the first two parts, each followed by the separator. */
  lemma LeadingParts(s: string, sep: char)
    requires |SplitOn(s, sep)| >= 3
    ensures var parts := SplitOn(s, sep);
      StartsWith(s, parts[0] + [sep] + parts[1] + [sep])
  {
    var parts := SplitOn(s, sep);
    SplitOnJoin(s, sep);
    assert Join(parts, [sep]) == parts[0] + [sep] + (parts[1] + [sep] + Join(parts[2..], [sep]));
    assert s == (parts[0] + [sep] + parts[1] + [sep]) + Join(parts[2..], [sep]);
  }

  /** Conversely, a name laid out as author_year_rest, with no underscore in author or year, yields that pair. */
  lemma ExtractAuthorYearOfLayout(author: string, year: string, rest: string)
    requires '_' !in author && '_' !in year
    ensures ExtractAuthorYear(author + "_" + year + "_" + rest) == (author, year)
  {
    var filename := author + "_" + year + "_" + rest;
    assert multiset(filename)['_'] >= 2 by {
      assert filename == (author + "_") + (year + "_" + rest);
      assert multiset(filename) == multiset(author + "_") + multiset(year + "_" + rest);
      assert multiset(author + "_")['_'] >= 1;
      assert multiset(year + "_" + rest)['_'] >= 1 by {
        assert (year + "_" + rest)[|year|] == '_';
      }
    }
    LayoutUnique(filename, ExtractAuthorYear(filename), author, year, rest);
  }

  lemma LayoutUnique(filename: string, r: (string, string), author: string, year: string, rest: string)
    requires '_' !in author && '_' !in year && '_' !in r.0 && '_' !in r.1
    requires filename == author + "_" + year + "_" + rest
    requires StartsWith(filename, r.0 + "_" + r.1 + "_")
    ensures r == (author, year)
  {
    var p := r.0 + "_" + r.1 + "_";
    var tail := filename[|p|..];
    assert filename == filename[..|p|] + tail;
    assert filename == p + tail;
    assert p + tail == r.0 + "_" + (r.1 + "_" + tail);
    assert filename == author + "_" + (year + "_" + rest);
    PrefixBeforeUnderscore(r.0, r.1 + "_" + tail, author, year + "_" + rest);
    assert r.1 + "_" + tail == year + "_" + rest;
    PrefixBeforeUnderscore(r.1, tail, year, rest);
  }

  /** The position of the first underscore, or the length when there is none. */
  function FirstUnderscore(s: string): nat
  {
    if s == [] || s[0] == '_' then 0 else 1 + FirstUnderscore(s[1..])
  }

  lemma {:induction false} FirstUnderscoreOfLayout(a: string, b: string)
    requires '_' !in a
    ensures FirstUnderscore(a + "_" + b) == |a|
  {
    if a != [] {
      assert (a + "_" + b)[0] == a[0];
      assert (a + "_" + b)[1..] == a[1..] + "_" + b;
      FirstUnderscoreOfLayout(a[1..], b);
    }
  }

  /** The text before the first underscore is unique. */
  lemma PrefixBeforeUnderscore(a: string, b: string, c: string, d: string)
    requires '_' !in a && '_' !in c
    requires a + "_" + b == c + "_" + d
    ensures a == c && b == d
  {
    var s := a + "_" + b;
    FirstUnderscoreOfLayout(a, b);
    FirstUnderscoreOfLayout(c, d);
    assert a == s[..|a|] && c == s[..|c|];
    assert b == s[|a| + 1..] && d == s[|c| + 1..];
  }

  /** "Smith_2023_StudyTitle.txt" yields ("Smith", "2023"). */
  lemma ExtractAuthorYearExample()
    ensures ExtractAuthorYear("Smith_2023_StudyTitle.txt") == ("Smith", "2023")
  {
    assert "Smith_2023_StudyTitle.txt" == "Smith" + "_" + "2023" + "_" + "StudyTitle.txt";
    ExtractAuthorYearOfLayout("Smith", "2023", "StudyTitle.txt");
  }

  /** "nounderscorehere.txt" yields ("Unknown", "Unknown"). */
  lemma ExtractAuthorYearFallbackExample()
    ensures ExtractAuthorYear("nounderscorehere.txt") == (UnknownField, UnknownField)
  {
    var f := "nounderscorehere.txt";
    assert forall i :: 0 <= i < |f| ==> f[i] != '_';
    assert multiset(f)['_'] == 0;
  }
}
