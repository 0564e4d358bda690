/**
 * Skills: which vocabulary skills a résumé mentions (`extract_skills`), the
 * required skills typed by the user, and the match score (`match_score`).
 */
module Skills {
  import opened Text
  import opened Seqs

  /** The vocabulary searched in every résumé. */
  const SkillKeywords: seq<String> := [
    "python", "sql", "machine learning", "data analysis", "communication",
    "deep learning", "excel", "django", "html", "css", "power bi"]

  /** `s.lower() in text.lower()`: the text mentions `s` in some letter case. */
  predicate Mentions(text: String, s: String) {
    Contains(Lower(text), Lower(s))
  }

  /**
   * `extract_skills`: the vocabulary entries the text mentions, in
   * vocabulary order, each as often as the vocabulary lists it.
   */
  function ExtractSkills(text: String, vocabulary: seq<String>): (found: seq<String>)
    ensures IsSubsequence(found, vocabulary)
    ensures forall s :: multiset(found)[s] == if Mentions(text, s) then multiset(vocabulary)[s] else 0
  {
    Filter(vocabulary, s => Mentions(text, s))
  }

  /** `[s.lower() for s in xs]`. */
  function LowerAll(xs: seq<String>): (r: seq<String>)
    ensures |r| == |xs| && forall k :: 0 <= k < |xs| ==> r[k] == Lower(xs[k])
  {
    seq(|xs|, k requires 0 <= k < |xs| => Lower(xs[k]))
  }

  /** The outcome of `match_score`: the percentage and the required skills that were found. */
  datatype MatchResult = MatchResult(score: real, matched: seq<String>)

  /**
   * `match_score`: a required skill counts when its lower-case form is one of
   * the lower-cased extracted skills; the score is the share of required
   * skills that count, as a percentage, and 0 for an empty requirement.
   */
  function MatchScore(extracted: seq<String>, required: seq<String>): (m: MatchResult)
    ensures IsSubsequence(m.matched, required)
    ensures forall s :: multiset(m.matched)[s] == if IsFound(extracted, s) then multiset(required)[s] else 0
    ensures 0.0 <= m.score <= 100.0
    ensures required == [] ==> m.score == 0.0
    ensures IsShare(m.score, |m.matched|, |required|)
  {
    var matched := Filter(required, skill => IsFound(extracted, skill));
    if required == [] then
      MatchResult(0.0, matched)
    else
      MatchResult(Percent(|matched|, |required|), matched)
  }

  /** `skill.lower() in [s.lower() for s in extracted]`. */
  predicate IsFound(extracted: seq<String>, skill: String) {
    Lower(skill) in LowerAll(extracted)
  }

  /** `p` percent of `whole` is `part`. */
  predicate IsShare(p: real, part: nat, whole: nat) {
    p * whole as real == 100.0 * part as real
  }

  lemma ShareExtremes(p: real, part: nat, whole: nat)
    requires IsShare(p, part, whole) && whole > 0
    ensures p == 100.0 <==> part == whole
    ensures p == 0.0 <==> part == 0
  {
  }

  lemma ShareMonotone(p1: real, part1: nat, p2: real, part2: nat, whole: nat)
    requires IsShare(p1, part1, whole) && IsShare(p2, part2, whole) && whole > 0
    requires part1 <= part2
    ensures p1 <= p2
  {
    assert (p2 - p1) * whole as real == 100.0 * (part2 - part1) as real;
  }

  /** `part / whole * 100`, kept exact. */
  function Percent(part: nat, whole: nat): (p: real)
    requires part <= whole && whole > 0
    ensures 0.0 <= p <= 100.0
    ensures IsShare(p, part, whole)
  {
    var p := (100 * part) as real / whole as real;
    assert p * whole as real == (100 * part) as real;
    ShareBound(p, part, whole);
    p
  }

  lemma ShareBound(p: real, part: nat, whole: nat)
    requires IsShare(p, part, whole) && part <= whole && whole > 0
    ensures 0.0 <= p <= 100.0
  {
    if p > 100.0 {
      assert (p - 100.0) * whole as real > 0.0;
    }
  }

  /** The score is full exactly when every required skill was found, and zero exactly when none was. */
  lemma ScoreExtremes(extracted: seq<String>, required: seq<String>)
    requires required != []
    ensures var m := MatchScore(extracted, required);
      && (m.score == 100.0 <==> forall k :: 0 <= k < |required| ==> IsFound(extracted, required[k]))
      && (m.score == 0.0 <==> forall k :: 0 <= k < |required| ==> !IsFound(extracted, required[k]))
  {
    var m := MatchScore(extracted, required);
    FilterKeepsAll(required, skill => IsFound(extracted, skill));
    ShareExtremes(m.score, |m.matched|, |required|);
    if m.matched == [] {
      forall k | 0 <= k < |required|
        ensures !IsFound(extracted, required[k])
      {
        assert required[k] in multiset(required);
      }
    } else {
      assert m.matched[0] in multiset(m.matched);
    }
  }

  /** One of two required skills found, in another letter case, scores 50. */
  lemma ScoreHalfExample()
    ensures MatchScore(["python"], ["Python", "SQL"]) == MatchResult(50.0, ["Python"])
  {
    assert Lower("Python") == "python";
    LowerFixed("python");
    assert LowerAll(["python"]) == ["python"];
    assert Lower("SQL") == "sql";
    var found := skill => IsFound(["python"], skill);
    assert Filter(["SQL"], found) == [];
    assert Filter(["Python", "SQL"], found) == ["Python"] + Filter(["SQL"], found);
  }

  /** Extracting more skills never lowers the score. */
  lemma ScoreMonotone(e1: seq<String>, e2: seq<String>, required: seq<String>)
    requires forall s :: IsFound(e1, s) ==> IsFound(e2, s)
    ensures MatchScore(e1, required).score <= MatchScore(e2, required).score
  {
    FilterGrows(required, skill => IsFound(e1, skill), skill => IsFound(e2, skill));
    if required != [] {
      var m1, m2 := MatchScore(e1, required), MatchScore(e2, required);
      ShareMonotone(m1.score, |m1.matched|, m2.score, |m2.matched|, |required|);
    }
  }

  /** The vocabulary is written in lower case. */
  lemma SkillKeywordsAreLower()
    ensures forall k :: 0 <= k < |SkillKeywords| ==> Lower(SkillKeywords[k]) == SkillKeywords[k]
  {
    forall k | 0 <= k < |SkillKeywords|
      ensures Lower(SkillKeywords[k]) == SkillKeywords[k]
    {
      LowerFixed(SkillKeywords[k]);
    }
  }

  /** A skill is extracted exactly when it is in the vocabulary and the text mentions it. */
  lemma ExtractedIff(text: String, vocabulary: seq<String>, s: String)
    ensures s in ExtractSkills(text, vocabulary) <==> s in vocabulary && Mentions(text, s)
  {
    var found := ExtractSkills(text, vocabulary);
    assert s in found <==> multiset(found)[s] > 0;
    assert s in vocabulary <==> multiset(vocabulary)[s] > 0;
  }

  /** A required skill is matched exactly when it is required and found among the extracted ones. */
  lemma MatchedIff(extracted: seq<String>, required: seq<String>, s: String)
    ensures s in MatchScore(extracted, required).matched <==> s in required && IsFound(extracted, s)
  {
    var m := MatchScore(extracted, required);
    assert s in m.matched <==> multiset(m.matched)[s] > 0;
    assert s in required <==> multiset(required)[s] > 0;
  }

  /** Against a list already in lower case, finding a skill is plain membership of its lower-case form. */
  lemma FoundInLowerList(found: seq<String>, s: String)
    requires forall k :: 0 <= k < |found| ==> Lower(found[k]) == found[k]
    ensures IsFound(found, s) <==> Lower(s) in found
  {
    if Lower(s) in found {
      var k :| 0 <= k < |found| && found[k] == Lower(s);
      assert LowerAll(found)[k] == Lower(s);
    }
  }

  /**
   * In the screener, where the extracted skills come from the vocabulary, a
   * required skill is matched exactly when its lower-case form is a
   * vocabulary entry that the résumé mentions.
   */
  lemma ScreenerMatch(text: String, required: seq<String>, s: String)
    ensures var m := MatchScore(ExtractSkills(text, SkillKeywords), required);
      s in m.matched <==> s in required && Lower(s) in SkillKeywords && Mentions(text, Lower(s))
  {
    var found := ExtractSkills(text, SkillKeywords);
    SkillKeywordsAreLower();
    forall k | 0 <= k < |found|
      ensures Lower(found[k]) == found[k]
    {
      ExtractedIff(text, SkillKeywords, found[k]);
    }
    MatchedIff(found, required, s);
    FoundInLowerList(found, s);
    ExtractedIff(text, SkillKeywords, Lower(s));
  }

  // ---------------------------------------------------------------- required skills

  /** `[s.strip() for s in text.split(',')]`. */
  function ParseRequired(input: String): (skills: seq<String>)
    ensures |skills| == |Split(input, ',')| == multiset(input)[','] + 1
    ensures forall k :: 0 <= k < |skills| ==> ',' !in skills[k] && IsTrimOf(skills[k], Split(input, ',')[k])
  {
    var parts := Split(input, ',');
    SplitCount(input, ',');
    seq(|parts|, k requires 0 <= k < |parts| => Strip(parts[k]))
  }

  /** Holds no comma and no whitespace at either end: a skill as the user means it. */
  predicate IsSkillName(s: String) {
    ',' !in s && (s == [] || (!IsSpace(s[0]) && !IsSpace(s[|s| - 1])))
  }

  /** Skills typed with `", "` between them are read back exactly. */
  lemma ParseJoined(skills: seq<String>)
    requires skills != []
    requires forall k :: 0 <= k < |skills| ==> IsSkillName(skills[k])
    ensures ParseRequired(Join(skills, ", ")) == skills
  {
    SplitCommaSpace(skills);
    var parts := Split(Join(skills, ", "), ',');
    forall k | 0 <= k < |skills|
      ensures Strip(parts[k]) == skills[k]
    {
      StripSkillName(skills[k]);
    }
  }

  /** A skill name strips to itself, also after a leading space. */
  lemma StripSkillName(s: String)
    requires IsSkillName(s)
    ensures Strip(s) == s && Strip(" " + s) == s
  {
    assert TrimmedAt(s, s, 0);
    StripIs(s, s, 0);
    assert AllSpace(" ");
    StripAfterSpace(" ", s);
  }

  /** `", ".join(skills)` splits at its commas into the skills, each after the first led by a space. */
  lemma {:induction false} SplitCommaSpace(skills: seq<String>)
    requires skills != []
    requires forall k :: 0 <= k < |skills| ==> ',' !in skills[k]
    ensures var parts := Split(Join(skills, ", "), ',');
      && |parts| == |skills| && parts[0] == skills[0]
      && forall k :: 0 < k < |skills| ==> parts[k] == " " + skills[k]
    decreases |skills|
  {
    if |skills| == 1 {
      SplitWhole(skills[0], ',');
    } else {
      var tail := Join(skills[1..], ", ");
      SplitCommaSpace(skills[1..]);
      var inner := Split(tail, ',');
      assert Join(skills, ", ") == skills[0] + [','] + (" " + tail);
      SplitAt(skills[0], " " + tail, ',');
      assert (" " + tail)[1..] == tail;
      assert Split(" " + tail, ',') == [" " + inner[0]] + inner[1..];
    }
  }

  /** A requirement typed the way the default one is reads back as its skills. */
  lemma ParseTypedExample()
    ensures ParseRequired("Python, SQL, Power BI") == ["Python", "SQL", "Power BI"]
  {
    var skills := ["Python", "SQL", "Power BI"];
    assert Join(skills, ", ") == "Python, SQL, Power BI";
    ParseJoined(skills);
  }
}
