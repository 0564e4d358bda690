/**
 * Snippets of a résumé that start at a heading (`extract_section`).
 *
 * For each keyword in turn that occurs, as written, in the lower-cased text,
 * the pattern `keyword.*?(?:\n\s*\n|$)` is searched case-insensitively with
 * `.` matching line breaks: the snippet runs from the first occurrence of the
 * keyword, in any letter case, up to the first blank line after it (blank line included), or
 * to the end of the text, and is returned stripped.
 */
module Sections {
  import opened Wrappers
  import opened Text

  /** The headings the résumé screener looks for, in the order it tries them. */
  const EducationKeywords: seq<String> := ["education", "academic", "qualifications"]
  const ExperienceKeywords: seq<String> := ["experience", "employment", "work history"]

  // ---------------------------------------------------------------- the end of a snippet

  /** `\n\s*\n` matches `text[p..q]`. */
  ghost predicate BlankLineAt(text: String, p: nat, q: nat) {
    && p + 2 <= q <= |text|
    && text[p] == '\n' && text[q - 1] == '\n'
    && forall k :: p < k < q - 1 ==> IsSpace(text[k])
  }

  /** `$` without the multi-line flag: the end of the text, or just before a line break that ends it. */
  predicate EndAt(text: String, p: nat) {
    p == |text| || (p + 1 == |text| && text[p] == '\n')
  }

  /** The lazy `.*?` can stop at `p`: one of the two alternatives matches there. */
  ghost predicate StopsAt(text: String, p: nat) {
    EndAt(text, p) || exists q: nat :: BlankLineAt(text, p, q)
  }

  /** `s` is the first position at or after `p` where the lazy scan can stop. */
  ghost predicate FirstStop(text: String, p: nat, s: nat) {
    && p <= s <= |text|
    && StopsAt(text, s)
    && forall k :: p <= k < s ==> !StopsAt(text, k)
  }

  /**
   * Stopping at `s`, the match ends at `q`: the first alternative wins when it
   * matches, with the longest blank stretch its greedy `\s*` allows;
   * otherwise `$` matches and the match ends at `s`.
   */
  ghost predicate StopEnd(text: String, s: nat, q: nat) {
    || (BlankLineAt(text, s, q) && forall q': nat :: BlankLineAt(text, s, q') ==> q' <= q)
    || ((forall q': nat :: !BlankLineAt(text, s, q')) && EndAt(text, s) && q == s)
  }

  /**
   * Backtracking of the greedy `\s*` that starts at `start`: it is tried with
   * `w` characters, then fewer, and the first length followed by a line
   * break wins. The result is the end of the match, past that line break.
   */
  function BacktrackBlank(text: String, start: nat, w: nat): (q: Option<nat>)
    requires start + w <= |text|
    ensures q.Some? ==> start < q.value <= start + w + 1 && q.value <= |text| && text[q.value - 1] == '\n'
    ensures forall k :: start <= k <= start + w && k < |text| && text[k] == '\n' ==> q.Some? && k < q.value
    decreases w
  {
    if start + w < |text| && text[start + w] == '\n' then Some(start + w + 1)
    else if w == 0 then None
    else BacktrackBlank(text, start, w - 1)
  }

  /** The end of the `\n\s*\n` match that starts at `p`, if there is one. */
  function BlankLineEnd(text: String, p: nat): Option<nat>
    requires p <= |text|
  {
    if p == |text| || text[p] != '\n' then None
    else BacktrackBlank(text, p + 1, RunLength(text, p + 1, IsSpace))
  }

  lemma BlankLineEndSound(text: String, p: nat)
    requires p <= |text| && BlankLineEnd(text, p).Some?
    ensures BlankLineAt(text, p, BlankLineEnd(text, p).value)
  {
  }

  lemma BlankLineEndComplete(text: String, p: nat, q: nat)
    requires BlankLineAt(text, p, q)
    ensures BlankLineEnd(text, p).Some? && q <= BlankLineEnd(text, p).value
  {
    var n := RunLength(text, p + 1, IsSpace);
    assert q - 1 <= p + 1 + n;
  }

  /** `BlankLineEnd` finds the longest blank stretch at `p`, and finds one whenever there is one. */
  lemma BlankLineEndIsLongest(text: String, p: nat)
    requires p <= |text|
    ensures forall q: nat :: BlankLineAt(text, p, q) ==> BlankLineEnd(text, p).Some? && q <= BlankLineEnd(text, p).value
  {
    forall q: nat | BlankLineAt(text, p, q)
      ensures BlankLineEnd(text, p).Some? && q <= BlankLineEnd(text, p).value
    {
      BlankLineEndComplete(text, p, q);
    }
  }

  /**
   * The end of `.*?(?:\n\s*\n|$)` once the keyword has matched up to `p`:
   * positions are tried left to right, each with the blank-line alternative
   * first and then `$`.
   */
  function LazyEnd(text: String, p: nat): (q: nat)
    requires p <= |text|
    ensures p <= q <= |text|
    ensures exists s: nat :: FirstStop(text, p, s) && StopEnd(text, s, q)
    decreases |text| - p
  {
    BlankLineEndIsLongest(text, p);
    match BlankLineEnd(text, p)
    case Some(q) =>
      BlankLineEndSound(text, p);
      assert FirstStop(text, p, p) && StopEnd(text, p, q);
      q
    case None =>
      if EndAt(text, p) then
        assert FirstStop(text, p, p) && StopEnd(text, p, p);
        p
      else
        var q := LazyEnd(text, p + 1);
        StopLater(text, p, q);
        q
  }

  /** A position where the scan cannot stop passes it on to the next one. */
  lemma StopLater(text: String, p: nat, q: nat)
    requires p < |text| && !StopsAt(text, p)
    requires exists s: nat :: FirstStop(text, p + 1, s) && StopEnd(text, s, q)
    ensures exists s: nat :: FirstStop(text, p, s) && StopEnd(text, s, q)
  {
    var s: nat :| FirstStop(text, p + 1, s) && StopEnd(text, s, q);
    assert FirstStop(text, p, s);
  }

  // ---------------------------------------------------------------- the keyword

  /**
   * The search for `kw` with `re.IGNORECASE` matches at `i`, and `i` is the
   * leftmost such position.
   */
  ghost predicate FirstHeading(text: String, kw: String, i: nat) {
    && OccursAt(Lower(text), Lower(kw), i)
    && forall j :: 0 <= j < i ==> !OccursAt(Lower(text), Lower(kw), j)
  }

  /** `text[i..q]` is what the section pattern for `kw` matches. */
  ghost predicate SectionSpan(text: String, kw: String, i: nat, q: nat) {
    && FirstHeading(text, kw, i)
    && i + |kw| <= q <= |text|
    && exists s: nat :: FirstStop(text, i + |kw|, s) && StopEnd(text, s, q)
  }

  /**
   * One keyword's search, stripped: `None` when the keyword does not occur
   * in any letter case.
   */
  function SectionMatch(text: String, kw: String): (r: Option<String>)
    ensures r.None? <==> forall i: nat :: !OccursAt(Lower(text), Lower(kw), i)
    ensures r.Some? ==> exists i: nat, q: nat :: SectionSpan(text, kw, i, q) && r.value == Strip(text[i..q])
  {
    match FindFrom(Lower(text), Lower(kw), 0)
    case None => None
    case Some(i) =>
      var q := LazyEnd(text, i + |kw|);
      assert SectionSpan(text, kw, i, q);
      Some(Strip(text[i..q]))
  }

  /**
   * The guard `kw in text.lower()` can only hold for a keyword without
   * capitals, and then the case-insensitive search finds it too.
   */
  lemma GuardFindsMatch(text: String, kw: String)
    requires Contains(Lower(text), kw)
    ensures SectionMatch(text, kw).Some?
  {
    var i := FindFrom(Lower(text), kw, 0).value;
    var lower := Lower(text);
    assert forall k :: 0 <= k < |kw| ==> kw[k] == lower[i + k];
    LowerFixed(kw);
    assert OccursAt(Lower(text), Lower(kw), i);
  }

  /**
   * The keywords tried in order: the snippet of the first one the guard
   * lets through, or `None` when it lets none through.
   */
  function FindSection(text: String, keywords: seq<String>): (r: Option<String>)
    ensures r.None? <==> forall k :: 0 <= k < |keywords| ==> !Contains(Lower(text), keywords[k])
    ensures r.Some? ==> exists j :: FirstKeyword(text, keywords, j) && r == SectionMatch(text, keywords[j])
  {
    if keywords == [] then None
    else
      var kw := keywords[0];
      if Contains(Lower(text), kw) then
        GuardFindsMatch(text, kw);
        assert FirstKeyword(text, keywords, 0);
        SectionMatch(text, kw)
      else
        var r := FindSection(text, keywords[1..]);
        assert forall k :: 1 <= k < |keywords| ==> keywords[k] == keywords[1..][k - 1];
        if r.Some? then
          KeywordLater(text, keywords, r);
          r
        else
          r
  }

  /** `keywords[j]` is the first keyword that occurs in the lower-cased text. */
  ghost predicate FirstKeyword(text: String, keywords: seq<String>, j: int) {
    && 0 <= j < |keywords|
    && Contains(Lower(text), keywords[j])
    && forall k :: 0 <= k < j ==> !Contains(Lower(text), keywords[k])
  }

  /** A keyword the guard rejects passes the choice on to the keywords after it. */
  lemma KeywordLater(text: String, keywords: seq<String>, r: Option<String>)
    requires keywords != [] && !Contains(Lower(text), keywords[0])
    requires exists j :: FirstKeyword(text, keywords[1..], j) && r == SectionMatch(text, keywords[1..][j])
    ensures exists j :: FirstKeyword(text, keywords, j) && r == SectionMatch(text, keywords[j])
  {
    var j :| FirstKeyword(text, keywords[1..], j) && r == SectionMatch(text, keywords[1..][j]);
    assert keywords[j + 1] == keywords[1..][j];
    forall k | 1 <= k <= j
      ensures !Contains(Lower(text), keywords[k])
    {
      assert keywords[k] == keywords[1..][k - 1];
    }
    assert FirstKeyword(text, keywords, j + 1);
  }

  /** `extract_section`: the snippet, or `"Not found"` when no keyword occurs. */
  function ExtractSection(text: String, keywords: seq<String>): (r: String)
    ensures (forall k :: 0 <= k < |keywords| ==> !Contains(Lower(text), keywords[k])) ==> r == NotFound
    ensures r != NotFound ==> exists j :: FirstKeyword(text, keywords, j) && SectionMatch(text, keywords[j]) == Some(r)
    ensures (exists j :: FirstKeyword(text, keywords, j)) ==> exists j :: FirstKeyword(text, keywords, j) && SectionMatch(text, keywords[j]) == Some(r)
  {
    match FindSection(text, keywords)
    case None => NotFound
    case Some(r) => r
  }

  /**
   * A heading in another letter case: the snippet runs from the heading to
   * the blank line after it, and the blank line is stripped off.
   */
  lemma SectionExample()
    ensures ExtractSection("x\nEdu\nB\n\nZ", ["edu"]) == "Edu\nB"
  {
    var text := "x\nEdu\nB\n\nZ";
    ExampleHeading(text);
    ExampleEnd(text);
    ExampleStrip(text);
    assert FindSection(text, ["edu"]) == SectionMatch(text, "edu");
  }

  lemma ExampleHeading(text: String)
    requires text == "x\nEdu\nB\n\nZ"
    ensures Contains(Lower(text), "edu") && FindFrom(Lower(text), Lower("edu"), 0) == Some(2)
  {
    var lower := Lower(text);
    assert lower == "x\nedu\nb\n\nz";
    LowerFixed("edu");
    assert OccursAt(lower, "edu", 2);
    assert lower[0..3][0] == 'x' && lower[1..4][0] == '\n';
  }

  lemma ExampleEnd(text: String)
    requires text == "x\nEdu\nB\n\nZ"
    ensures LazyEnd(text, 5) == 9
  {
    assert RunLength(text, 6, IsSpace) == 0;
    assert BacktrackBlank(text, 6, 0) == None;
    assert BlankLineEnd(text, 5) == None;
    assert BlankLineEnd(text, 6) == None;
    assert RunLength(text, 9, IsSpace) == 0;
    assert RunLength(text, 8, IsSpace) == 1;
    assert BacktrackBlank(text, 8, 0) == Some(9);
    assert BlankLineEnd(text, 7) == Some(9);
    assert LazyEnd(text, 7) == 9;
    assert LazyEnd(text, 6) == 9;
  }

  lemma ExampleStrip(text: String)
    requires text == "x\nEdu\nB\n\nZ"
    ensures Strip(text[2..9]) == "Edu\nB"
  {
    assert text[2..9] == "Edu\nB\n\n";
    assert text[2..9][0..5] == "Edu\nB";
    StripIs(text[2..9], "Edu\nB", 0);
  }

  // ---------------------------------------------------------------- properties

  /** A keyword that begins and ends with an ASCII letter, and does not begin with an `n`. */
  predicate IsHeadingWord(kw: String) {
    |kw| > 0 && IsAsciiLetter(kw[0]) && IsAsciiLetter(kw[|kw| - 1]) && LowerChar(kw[0]) != 'n'
  }

  lemma ScreenerHeadingWords()
    ensures forall k :: 0 <= k < |EducationKeywords| ==> IsHeadingWord(EducationKeywords[k])
    ensures forall k :: 0 <= k < |ExperienceKeywords| ==> IsHeadingWord(ExperienceKeywords[k])
  {
  }

  /** Where a keyword that begins and ends with a letter occurs, the text has letters at both ends of it. */
  lemma HeadingEndsAreLetters(text: String, kw: String, i: nat)
    requires OccursAt(Lower(text), Lower(kw), i)
    requires |kw| > 0 && IsAsciiLetter(kw[0]) && IsAsciiLetter(kw[|kw| - 1])
    ensures IsAsciiLetter(text[i]) && IsAsciiLetter(text[i + |kw| - 1])
    ensures LowerChar(text[i]) == LowerChar(kw[0])
  {
    var h := text[i..i + |kw|];
    LowerSlice(text, i, i + |kw|);
    assert Lower(h)[0] == LowerChar(h[0]) && Lower(kw)[0] == LowerChar(kw[0]);
    assert Lower(h)[|kw| - 1] == LowerChar(h[|kw| - 1]) && Lower(kw)[|kw| - 1] == LowerChar(kw[|kw| - 1]);
  }

  /**
   * A snippet begins with the heading as it is written in the text, when the
   * keyword begins and ends with a letter.
   */
  lemma SnippetStartsWithHeading(text: String, kw: String, i: nat, q: nat)
    requires SectionSpan(text, kw, i, q)
    requires |kw| > 0 && IsAsciiLetter(kw[0]) && IsAsciiLetter(kw[|kw| - 1])
    ensures var r := Strip(text[i..q]); |kw| <= |r| && r[..|kw|] == text[i..i + |kw|]
  {
    var x := text[i..q];
    var h := text[i..i + |kw|];
    var r := Strip(x);
    HeadingEndsAreLetters(text, kw, i);
    assert h[0] == x[0] && h[|kw| - 1] == x[|kw| - 1];
    var a: nat :| TrimmedAt(r, x, a);
    assert a == 0;
    assert |kw| <= |r|;
    assert r[..|kw|] == x[..|kw|] == h;
  }

  /** The snippet for a heading word can never be mistaken for the `"Not found"` marker. */
  lemma SnippetIsNotMarker(text: String, kw: String, r: Option<String>)
    requires IsHeadingWord(kw)
    requires r.Some? && exists i: nat, q: nat :: SectionSpan(text, kw, i, q) && r.value == Strip(text[i..q])
    ensures r.value != NotFound
  {
    var i: nat, q: nat :| SectionSpan(text, kw, i, q) && r.value == Strip(text[i..q]);
    SnippetStartsWithHeading(text, kw, i, q);
    HeadingEndsAreLetters(text, kw, i);
    assert r.value[0] == text[i];
    assert LowerChar(NotFound[0]) == 'n';
  }

  /**
   * When every keyword is a heading word, `"Not found"` comes back exactly
   * when none of them occurs in the lower-cased text.
   */
  lemma NotFoundIffNoHeading(text: String, keywords: seq<String>)
    requires forall k :: 0 <= k < |keywords| ==> IsHeadingWord(keywords[k])
    ensures ExtractSection(text, keywords) == NotFound
        <==> forall k :: 0 <= k < |keywords| ==> !Contains(Lower(text), keywords[k])
  {
    var r := FindSection(text, keywords);
    if r.Some? {
      var j :| FirstKeyword(text, keywords, j) && r == SectionMatch(text, keywords[j]);
      SnippetIsNotMarker(text, keywords[j], r);
    }
  }

  /** The screener's education and experience snippets are `"Not found"` exactly when no heading occurs. */
  lemma ScreenerSectionsNotFound(text: String)
    ensures ExtractSection(text, EducationKeywords) == NotFound
        <==> forall k :: 0 <= k < |EducationKeywords| ==> !Contains(Lower(text), EducationKeywords[k])
    ensures ExtractSection(text, ExperienceKeywords) == NotFound
        <==> forall k :: 0 <= k < |ExperienceKeywords| ==> !Contains(Lower(text), ExperienceKeywords[k])
  {
    ScreenerHeadingWords();
    NotFoundIffNoHeading(text, EducationKeywords);
    NotFoundIffNoHeading(text, ExperienceKeywords);
  }
}
