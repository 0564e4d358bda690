/**
 * Contact details found by pattern search (`extract_email`, `extract_phone`).
 *
 * Each pattern is matched by hand the way a backtracking regular-expression
 * engine runs it under `re.search`: start positions are tried left to right,
 * greedy repetitions take the longest run first and give characters back one
 * at a time. Each matcher is proved sound and complete against a plain
 * description of the strings the pattern accepts, so the result is the
 * leftmost match, and the longest one at that position.
 */
module Contact {
  import opened Wrappers
  import opened Text

  // ---------------------------------------------------------------- e-mail

  /** `[a-zA-Z0-9._%+-]`, the characters of the part before the `@`. */
  predicate IsLocalChar(c: char) {
    IsAsciiLetter(c) || IsDigit(c) || c == '.' || c == '_' || c == '%' || c == '+' || c == '-'
  }

  /** `[a-zA-Z0-9.-]`, the characters of the domain before its final dot. */
  predicate IsDomainChar(c: char) {
    IsAsciiLetter(c) || IsDigit(c) || c == '.' || c == '-'
  }

  /**
   * `text[i..e]` has the shape `[a-zA-Z0-9._%+-]+@[a-zA-Z0-9.-]+\.[a-zA-Z]{2,}`,
   * with its `@` at `at` and the dot before the letters at `dot`.
   */
  ghost predicate EmailParts(text: String, i: nat, at: nat, dot: nat, e: nat) {
    && i < at && at + 1 < dot && dot + 2 < e <= |text|
    && (forall k :: i <= k < at ==> IsLocalChar(text[k]))
    && text[at] == '@'
    && (forall k :: at < k < dot ==> IsDomainChar(text[k]))
    && text[dot] == '.'
    && (forall k :: dot < k < e ==> IsAsciiLetter(text[k]))
  }

  ghost predicate IsEmailSpan(text: String, i: nat, e: nat) {
    exists at: nat, dot: nat :: EmailParts(text, i, at, dot, e)
  }

  /** The string `s`, all of it, is an address of that shape. */
  ghost predicate IsEmail(s: String) {
    IsEmailSpan(s, 0, |s|)
  }

  /** `\.[a-zA-Z]{2,}` can start at `p`. */
  predicate TopLevelAt(text: String, p: nat)
    requires p < |text|
  {
    text[p] == '.' && RunLength(text, p + 1, IsAsciiLetter) >= 2
  }

  /**
   * Backtracking of the greedy `[a-zA-Z0-9.-]+` after the `@` at `at`: the
   * domain is tried with `d` characters, then `d - 1`, down to one, and the
   * first length followed by a top-level part wins. The result is the
   * position of that dot, the last usable one.
   */
  function BacktrackDomain(text: String, at: nat, d: nat): (dot: Option<nat>)
    requires 1 <= d && at + 1 + d <= |text|
    ensures dot.Some? ==> at + 1 < dot.value <= at + 1 + d && dot.value < |text| && TopLevelAt(text, dot.value)
    ensures forall p :: at + 1 < p <= at + 1 + d && p < |text| && TopLevelAt(text, p) ==> dot.Some? && p <= dot.value
    decreases d
  {
    var p := at + 1 + d;
    if p < |text| && TopLevelAt(text, p) then Some(p)
    else if d == 1 then None
    else BacktrackDomain(text, at, d - 1)
  }

  /** The end of the e-mail match that starts at `i`, if there is one. */
  function MatchEmailAt(text: String, i: nat): Option<nat>
    requires i <= |text|
  {
    var at := i + RunLength(text, i, IsLocalChar);
    if at == i || at == |text| || text[at] != '@' then None
    else
      var n := RunLength(text, at + 1, IsDomainChar);
      if n == 0 then None
      else match BacktrackDomain(text, at, n)
        case None => None
        case Some(dot) => Some(dot + 1 + RunLength(text, dot + 1, IsAsciiLetter))
  }

  /** A match found at `i` has the shape of an address. */
  lemma MatchEmailAtSound(text: String, i: nat)
    requires i <= |text| && MatchEmailAt(text, i).Some?
    ensures i < MatchEmailAt(text, i).value && IsEmailSpan(text, i, MatchEmailAt(text, i).value)
  {
    var at := i + RunLength(text, i, IsLocalChar);
    var n := RunLength(text, at + 1, IsDomainChar);
    var dot := BacktrackDomain(text, at, n).value;
    var e := dot + 1 + RunLength(text, dot + 1, IsAsciiLetter);
    assert EmailParts(text, i, at, dot, e);
  }

  /** Every address that starts at `i` is found by the matcher, which ends no earlier. */
  lemma MatchEmailAtComplete(text: String, i: nat, at: nat, dot: nat, e: nat)
    requires EmailParts(text, i, at, dot, e)
    ensures MatchEmailAt(text, i).Some? && e <= MatchEmailAt(text, i).value
  {
    var local := RunLength(text, i, IsLocalChar);
    assert i + local == at;
    var n := RunLength(text, at + 1, IsDomainChar);
    assert e <= at + 1 + n;
    assert TopLevelAt(text, dot);
  }

  /** Where the matcher gives up at `i`, no address starts at `i`. */
  lemma NoEmailAt(text: String, i: nat)
    requires i <= |text| && MatchEmailAt(text, i).None?
    ensures forall e: nat :: !IsEmailSpan(text, i, e)
  {
    forall e: nat | IsEmailSpan(text, i, e)
      ensures false
    {
      var at: nat, dot: nat :| EmailParts(text, i, at, dot, e);
      MatchEmailAtComplete(text, i, at, dot, e);
    }
  }

  /**
   * `re.search` for the e-mail pattern from position `from` on: the leftmost
   * start with a match, and the longest address at that start.
   */
  function SearchEmail(text: String, from: nat): (r: Option<(nat, nat)>)
    requires from <= |text|
    ensures r.Some? ==> from <= r.value.0 && IsEmailSpan(text, r.value.0, r.value.1)
    ensures r.Some? ==> forall i: nat, e: nat :: from <= i < r.value.0 ==> !IsEmailSpan(text, i, e)
    ensures r.Some? ==> forall e: nat :: IsEmailSpan(text, r.value.0, e) ==> e <= r.value.1
    ensures r.None? ==> forall i: nat, e: nat :: from <= i ==> !IsEmailSpan(text, i, e)
    decreases |text| - from
  {
    match MatchEmailAt(text, from)
    case Some(e) =>
      MatchEmailAtSound(text, from);
      assert forall e': nat :: IsEmailSpan(text, from, e') ==> e' <= e by {
        forall e': nat | IsEmailSpan(text, from, e')
          ensures e' <= e
        {
          var at: nat, dot: nat :| EmailParts(text, from, at, dot, e');
          MatchEmailAtComplete(text, from, at, dot, e');
        }
      }
      Some((from, e))
    case None =>
      NoEmailAt(text, from);
      if from == |text| then
        assert forall i: nat, e: nat :: from <= i ==> !IsEmailSpan(text, i, e);
        None
      else
        SearchEmail(text, from + 1)
  }

  /** An address found inside a text is an address on its own. */
  lemma EmailSpanShift(text: String, i: nat, e: nat)
    requires IsEmailSpan(text, i, e)
    ensures IsEmail(text[i..e])
  {
    var at: nat, dot: nat :| EmailParts(text, i, at, dot, e);
    assert EmailParts(text[i..e], 0, at - i, dot - i, e - i);
  }

  /** An address holds an `@`, so it is never the `"Not found"` marker. */
  lemma EmailIsNotMarker(text: String, i: nat, e: nat)
    requires IsEmailSpan(text, i, e)
    ensures text[i..e] != NotFound
  {
    var at: nat, dot: nat :| EmailParts(text, i, at, dot, e);
    assert text[i..e][at - i] == '@';
    assert '@' !in NotFound;
  }

  /**
   * `extract_email`: the first address in the text, or `"Not found"` exactly
   * when the text holds none.
   */
  function ExtractEmail(text: String): (r: String)
    ensures r == NotFound <==> forall i: nat, e: nat :: !IsEmailSpan(text, i, e)
    ensures r != NotFound ==> IsEmail(r) && exists i: nat, e: nat :: IsEmailSpan(text, i, e) && r == text[i..e]
  {
    match SearchEmail(text, 0)
    case Some((i, e)) =>
      EmailSpanShift(text, i, e);
      EmailIsNotMarker(text, i, e);
      text[i..e]
    case None => NotFound
  }

  /**
   * The address `extract_email` reports is the leftmost one in the text, and
   * the longest one that starts there.
   */
  lemma EmailIsFirst(text: String, i: nat, e: nat)
    requires IsEmailSpan(text, i, e)
    requires forall j: nat, f: nat :: j < i ==> !IsEmailSpan(text, j, f)
    requires forall f: nat :: IsEmailSpan(text, i, f) ==> f <= e
    ensures ExtractEmail(text) == text[i..e]
  {
    var r := SearchEmail(text, 0);
    assert r.Some?;
    var (i', e') := r.value;
    assert i' == i;
    assert e' == e;
  }

  /** Text without an `@` has no address in it. */
  lemma NoAtSignNoEmail(text: String)
    requires '@' !in text
    ensures ExtractEmail(text) == NotFound
  {
  }

  // ---------------------------------------------------------------- phone

  /** `[\d\s().-]`, the characters allowed between the first and the last digit. */
  predicate IsPhoneChar(c: char) {
    IsDigit(c) || IsSpace(c) || c == '(' || c == ')' || c == '.' || c == '-'
  }

  /** `text[k..e]` has the shape `\d[\d\s().-]{7,}\d`. */
  predicate PhoneBodyAt(text: String, k: nat, e: nat) {
    && k + 9 <= e <= |text|
    && IsDigit(text[k])
    && IsDigit(text[e - 1])
    && forall j :: k < j < e - 1 ==> IsPhoneChar(text[j])
  }

  /** `text[i..e]` has the shape `\+?\d[\d\s().-]{7,}\d`. */
  predicate IsPhoneSpan(text: String, i: nat, e: nat) {
    PhoneBodyAt(text, i, e) || (i < |text| && text[i] == '+' && PhoneBodyAt(text, i + 1, e))
  }

  /**
   * Backtracking of the greedy `[\d\s().-]{7,}` that starts at `start`: it
   * is tried with `m` characters, then fewer, down to seven, and the first
   * length followed by a digit wins. The result is the end of the match.
   */
  function BacktrackPhone(text: String, start: nat, m: nat): (e: Option<nat>)
    requires 7 <= m && start + m <= |text|
    ensures e.Some? ==> start + 8 <= e.value <= start + m + 1 && e.value <= |text| && IsDigit(text[e.value - 1])
    ensures forall p :: start + 7 <= p <= start + m && p < |text| && IsDigit(text[p]) ==> e.Some? && p < e.value
    decreases m
  {
    var p := start + m;
    if p < |text| && IsDigit(text[p]) then Some(p + 1)
    else if m == 7 then None
    else BacktrackPhone(text, start, m - 1)
  }

  /**
   * The end of the phone match that starts at `i`, if there is one. The
   * optional `+` is taken when present; giving it back cannot help, since a
   * `+` is not a digit.
   */
  function MatchPhoneAt(text: String, i: nat): Option<nat>
    requires i <= |text|
  {
    var k := if i < |text| && text[i] == '+' then i + 1 else i;
    if k == |text| || !IsDigit(text[k]) then None
    else
      var n := RunLength(text, k + 1, IsPhoneChar);
      if n < 7 then None else BacktrackPhone(text, k + 1, n)
  }

  /** A match found at `i` has the shape of a phone number. */
  lemma MatchPhoneAtSound(text: String, i: nat)
    requires i <= |text| && MatchPhoneAt(text, i).Some?
    ensures i < MatchPhoneAt(text, i).value && IsPhoneSpan(text, i, MatchPhoneAt(text, i).value)
  {
  }

  /** Every phone number that starts at `i` is found by the matcher, which ends no earlier. */
  lemma MatchPhoneAtComplete(text: String, i: nat, e: nat)
    requires IsPhoneSpan(text, i, e)
    ensures MatchPhoneAt(text, i).Some? && e <= MatchPhoneAt(text, i).value
  {
    var k := if i < |text| && text[i] == '+' then i + 1 else i;
    assert PhoneBodyAt(text, k, e);
    var n := RunLength(text, k + 1, IsPhoneChar);
    assert e - 1 <= k + 1 + n;
  }

  /** No phone number starting at `i` ends after the match found there; there is none if no match is found. */
  lemma PhoneAtMost(text: String, i: nat)
    requires i <= |text|
    ensures forall e: nat :: IsPhoneSpan(text, i, e) ==> MatchPhoneAt(text, i).Some? && e <= MatchPhoneAt(text, i).value
  {
    forall e: nat | IsPhoneSpan(text, i, e)
      ensures MatchPhoneAt(text, i).Some? && e <= MatchPhoneAt(text, i).value
    {
      MatchPhoneAtComplete(text, i, e);
    }
  }

  /**
   * `re.search` for the phone pattern from position `from` on: the leftmost
   * start with a match, and the longest number at that start.
   */
  function SearchPhone(text: String, from: nat): (r: Option<(nat, nat)>)
    requires from <= |text|
    ensures r.Some? ==> from <= r.value.0 && IsPhoneSpan(text, r.value.0, r.value.1)
    ensures r.Some? ==> forall i: nat, e: nat :: from <= i < r.value.0 ==> !IsPhoneSpan(text, i, e)
    ensures r.Some? ==> forall e: nat :: IsPhoneSpan(text, r.value.0, e) ==> e <= r.value.1
    ensures r.None? ==> forall i: nat, e: nat :: from <= i ==> !IsPhoneSpan(text, i, e)
    decreases |text| - from
  {
    match MatchPhoneAt(text, from)
    case Some(e) =>
      MatchPhoneAtSound(text, from);
      PhoneAtMost(text, from);
      Some((from, e))
    case None =>
      PhoneAtMost(text, from);
      if from == |text| then None else SearchPhone(text, from + 1)
  }

  /**
   * `extract_phone`: the first phone number in the text, or `"Not found"`
   * exactly when the text holds none.
   */
  function ExtractPhone(text: String): (r: String)
    ensures r == NotFound <==> forall i: nat, e: nat :: !IsPhoneSpan(text, i, e)
    ensures r != NotFound ==> IsPhoneSpan(r, 0, |r|) && exists i: nat, e: nat :: IsPhoneSpan(text, i, e) && r == text[i..e]
  {
    match SearchPhone(text, 0)
    case Some((i, e)) =>
      var r := text[i..e];
      assert IsPhoneSpan(r, 0, |r|) by {
        if !PhoneBodyAt(text, i, e) {
          assert PhoneBodyAt(r, 1, |r|);
        }
      }
      assert r[0] == '+' || IsDigit(r[0]);
      r
    case None => NotFound
  }

  /**
   * The number `extract_phone` reports is the leftmost one in the text, and
   * the longest one that starts there.
   */
  lemma PhoneIsFirst(text: String, i: nat, e: nat)
    requires IsPhoneSpan(text, i, e)
    requires forall j: nat, f: nat :: j < i ==> !IsPhoneSpan(text, j, f)
    requires forall f: nat :: IsPhoneSpan(text, i, f) ==> f <= e
    ensures ExtractPhone(text) == text[i..e]
  {
    var r := SearchPhone(text, 0);
    assert r.Some?;
    var (i', e') := r.value;
    assert i' == i;
    assert e' == e;
  }

  /**
   * A phone match holds at least two digits, its first and its last, so
   * text with fewer than two digits has none.
   */
  lemma FewerThanTwoDigitsNoPhone(text: String)
    requires forall p, q :: 0 <= p < q < |text| ==> !(IsDigit(text[p]) && IsDigit(text[q]))
    ensures ExtractPhone(text) == NotFound
  {
    forall i: nat, e: nat | IsPhoneSpan(text, i, e)
      ensures false
    {
    }
  }

  /**
   * Two digits are enough: the seven characters between them may all be
   * spaces or punctuation.
   */
  lemma TwoDigitsCanMatch()
    ensures ExtractPhone("1 - - - 2") == "1 - - - 2"
  {
    var text := "1 - - - 2";
    assert IsPhoneSpan(text, 0, 9);
    PhoneIsFirst(text, 0, 9);
    assert text[0..9] == text;
  }
}
