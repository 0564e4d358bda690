/**
 * The string primitives the screening code leans on, each with the meaning
 * Python gives it: `str.isspace`/`\s`, `str.lower`, `str.strip`,
 * `str.split(sep)`, `sep.join(parts)` and the substring test `p in s`.
 */
module Text {
  import opened Wrappers

  type String = seq<char>

  /** What the e-mail, phone and section extractors return when they find nothing. */
  const NotFound: String := "Not found"

  /** Python's `str.isspace()`; `\s` in a `str` pattern matches the same characters. */
  predicate IsSpace(c: char) {
    || c == ' '
    || '\t' <= c <= '\r'
    || '\U{1C}' <= c <= '\U{1F}'
    || c == '\U{85}' || c == '\U{A0}' || c == '\U{1680}'
    || '\U{2000}' <= c <= '\U{200A}'
    || c == '\U{2028}' || c == '\U{2029}' || c == '\U{202F}' || c == '\U{205F}' || c == '\U{3000}'
  }

  /** `\d`, restricted to the ASCII digits. */
  predicate IsDigit(c: char) {
    '0' <= c <= '9'
  }

  predicate IsUpper(c: char) {
    'A' <= c <= 'Z'
  }

  /** `[a-zA-Z]`. */
  predicate IsAsciiLetter(c: char) {
    'a' <= c <= 'z' || IsUpper(c)
  }

  predicate AllSpace(s: String) {
    forall k :: 0 <= k < |s| ==> IsSpace(s[k])
  }

  /** ASCII lower-casing of one character: upper-case letters move to their lower-case partner, nothing else moves. */
  function LowerChar(c: char): (d: char)
    ensures !IsUpper(d)
    ensures IsUpper(c) ==> 'a' <= d <= 'z' && d as int - 'a' as int == c as int - 'A' as int
    ensures !IsUpper(c) ==> d == c
  {
    if IsUpper(c) then (c as int - 'A' as int + 'a' as int) as char else c
  }

  /** `s.lower()`, character by character. */
  function Lower(s: String): (r: String)
    ensures |r| == |s|
    ensures forall k :: 0 <= k < |r| ==> !IsUpper(r[k])
  {
    seq(|s|, k requires 0 <= k < |s| => LowerChar(s[k]))
  }

  lemma LowerSlice(s: String, i: nat, j: nat)
    requires i <= j <= |s|
    ensures Lower(s)[i..j] == Lower(s[i..j])
  {
  }

  /** A string without upper-case letters is its own lower-case form. */
  lemma {:induction false} LowerFixed(s: String)
    requires forall k :: 0 <= k < |s| ==> !IsUpper(s[k])
    ensures Lower(s) == s
  {
    forall k | 0 <= k < |s|
      ensures Lower(s)[k] == s[k]
    {
      assert !IsUpper(s[k]);
    }
  }

  // ---------------------------------------------------------------- strip

  /** `s.lstrip()`. */
  function LStrip(s: String): String
    decreases |s|
  {
    if s != [] && IsSpace(s[0]) then LStrip(s[1..]) else s
  }

  /** `s.rstrip()`. */
  function RStrip(s: String): String
    decreases |s|
  {
    if s != [] && IsSpace(s[|s| - 1]) then RStrip(s[..|s| - 1]) else s
  }

  /** `lstrip` drops the leading whitespace and nothing else. */
  lemma {:induction false} LStripSpec(s: String)
    ensures var r := LStrip(s);
      && |r| <= |s| && r == s[|s| - |r|..]
      && (forall k :: 0 <= k < |s| - |r| ==> IsSpace(s[k]))
      && (r == [] || !IsSpace(r[0]))
    decreases |s|
  {
    if s != [] && IsSpace(s[0]) {
      LStripSpec(s[1..]);
    }
  }

  /** `rstrip` drops the trailing whitespace and nothing else. */
  lemma {:induction false} RStripSpec(s: String)
    ensures var r := RStrip(s);
      && |r| <= |s| && r == s[..|r|]
      && (forall k :: |r| <= k < |s| ==> IsSpace(s[k]))
      && (r == [] || !IsSpace(r[|r| - 1]))
    decreases |s|
  {
    if s != [] && IsSpace(s[|s| - 1]) {
      RStripSpec(s[..|s| - 1]);
    }
  }

  /**
   * `r` is what is left of `s` once the whitespace at both ends is gone:
   * the slice of `s` at `i`, with only whitespace around it, which is empty
   * or starts and ends with a non-whitespace character.
   */
  ghost predicate TrimmedAt(r: String, s: String, i: nat) {
    && i + |r| <= |s|
    && r == s[i..i + |r|]
    && (forall k :: 0 <= k < i ==> IsSpace(s[k]))
    && (forall k :: i + |r| <= k < |s| ==> IsSpace(s[k]))
    && (r == [] || (!IsSpace(s[i]) && !IsSpace(s[i + |r| - 1])))
  }

  ghost predicate IsTrimOf(r: String, s: String) {
    exists i: nat :: TrimmedAt(r, s, i)
  }

  /** `s.strip()`. */
  function Strip(s: String): (r: String)
    ensures IsTrimOf(r, s)
  {
    var l := LStrip(s);
    var r := RStrip(l);
    LStripSpec(s);
    RStripSpec(l);
    var i := |s| - |l|;
    assert r != [] ==> s[i] == l[0] && s[i + |r| - 1] == l[|r| - 1];
    assert forall k :: i + |r| <= k < |s| ==> s[k] == l[k - i];
    assert TrimmedAt(r, s, i);
    r
  }

  /** Whitespace trimming has one outcome: any trim of `s` is `Strip(s)`. */
  lemma TrimUnique(s: String, r1: String, r2: String)
    requires IsTrimOf(r1, s) && IsTrimOf(r2, s)
    ensures r1 == r2
  {
    var i1: nat :| TrimmedAt(r1, s, i1);
    var i2: nat :| TrimmedAt(r2, s, i2);
  }

  /** The usual way to compute a strip: exhibit the trimmed slice. */
  lemma StripIs(s: String, r: String, i: nat)
    requires TrimmedAt(r, s, i)
    ensures Strip(s) == r
  {
    TrimUnique(s, Strip(s), r);
  }

  /** Whitespace in front of a string does not change its strip. */
  lemma StripAfterSpace(w: String, x: String)
    requires AllSpace(w)
    ensures Strip(w + x) == Strip(x)
  {
    var r := Strip(x);
    var i: nat :| TrimmedAt(r, x, i);
    var s := w + x;
    assert s[|w| + i..|w| + i + |r|] == r;
    assert forall k :: |w| <= k < |s| ==> s[k] == x[k - |w|];
    StripIs(s, r, |w| + i);
  }

  /** Whitespace after a string does not change its strip. */
  lemma StripBeforeSpace(x: String, w: String)
    requires AllSpace(w)
    ensures Strip(x + w) == Strip(x)
  {
    var r := Strip(x);
    var i: nat :| TrimmedAt(r, x, i);
    var s := x + w;
    assert s[i..i + |r|] == r;
    assert forall k :: |x| <= k < |s| ==> s[k] == w[k - |x|];
    StripIs(s, r, i);
  }

  lemma StripIdempotent(s: String)
    ensures Strip(Strip(s)) == Strip(s)
  {
    var r := Strip(s);
    assert r[0..|r|] == r;
    StripIs(r, r, 0);
  }

  // ---------------------------------------------------------------- split and join

  /** `sep.join(parts)`. */
  function Join(parts: seq<String>, glue: String): String
  {
    if parts == [] then []
    else if |parts| == 1 then parts[0]
    else parts[0] + glue + Join(parts[1..], glue)
  }

  /** A join is empty for no parts; otherwise it starts with the first part and ends with the last. */
  lemma {:induction false} JoinEnds(parts: seq<String>, glue: String)
    ensures var r := Join(parts, glue);
      && (parts == [] ==> r == [])
      && (parts != [] ==> |parts[0]| <= |r| && r[..|parts[0]|] == parts[0])
      && (parts != [] ==> var last := parts[|parts| - 1]; |last| <= |r| && r[|r| - |last|..] == last)
    decreases |parts|
  {
    if |parts| > 1 {
      JoinEnds(parts[1..], glue);
      var rest := Join(parts[1..], glue);
      var r := parts[0] + glue + rest;
      assert r[|r| - |rest|..] == rest;
    }
  }

  /**
   * `s.split(sep)` for a one-character separator: the pieces between the
   * separators, never fewer than one.
   */
  function Split(s: String, sep: char): (parts: seq<String>)
    ensures |parts| >= 1
    ensures forall k :: 0 <= k < |parts| ==> sep !in parts[k]
    decreases |s|
  {
    if s == [] then [[]]
    else
      var rest := Split(s[1..], sep);
      if s[0] == sep then [[]] + rest
      else [[s[0]] + rest[0]] + rest[1..]
  }

  /** Joining the pieces of a split with the separator gives back the text. */
  lemma {:induction false} JoinSplit(s: String, sep: char)
    ensures Join(Split(s, sep), [sep]) == s
    decreases |s|
  {
    if s != [] {
      JoinSplit(s[1..], sep);
      var rest := Split(s[1..], sep);
      if s[0] == sep {
        assert Split(s, sep) == [[]] + rest;
        assert s == [sep] + s[1..];
      } else {
        assert s == [s[0]] + s[1..];
        if |rest| == 1 {
          assert Join(Split(s, sep), [sep]) == [s[0]] + rest[0];
        } else {
          assert Join(Split(s, sep), [sep]) == ([s[0]] + rest[0]) + [sep] + Join(rest[1..], [sep]);
          assert Join(rest, [sep]) == rest[0] + [sep] + Join(rest[1..], [sep]);
        }
      }
    }
  }

  /** A string without the separator is a single piece. */
  lemma {:induction false} SplitWhole(a: String, sep: char)
    requires sep !in a
    ensures Split(a, sep) == [a]
    decreases |a|
  {
    if a != [] {
      SplitWhole(a[1..], sep);
      assert a == [a[0]] + a[1..];
    }
  }

  /** Splitting at the first separator: the piece before it, then the split of the rest. */
  lemma {:induction false} SplitAt(a: String, b: String, sep: char)
    requires sep !in a
    ensures Split(a + [sep] + b, sep) == [a] + Split(b, sep)
    decreases |a|
  {
    var s := a + [sep] + b;
    if a == [] {
      assert s[1..] == b;
    } else {
      assert s[1..] == a[1..] + [sep] + b;
      SplitAt(a[1..], b, sep);
      assert [a[0]] + a[1..] == a;
    }
  }

  /** Split undoes Join when no piece holds the separator. */
  lemma {:induction false} SplitJoin(parts: seq<String>, sep: char)
    requires |parts| >= 1
    requires forall k :: 0 <= k < |parts| ==> sep !in parts[k]
    ensures Split(Join(parts, [sep]), sep) == parts
    decreases |parts|
  {
    if |parts| == 1 {
      SplitWhole(parts[0], sep);
    } else {
      SplitJoin(parts[1..], sep);
      SplitAt(parts[0], Join(parts[1..], [sep]), sep);
      assert [parts[0]] + parts[1..] == parts;
    }
  }

  /** The first piece of a split is the text up to the first separator. */
  lemma {:induction false} SplitHead(s: String, sep: char)
    ensures var h := Split(s, sep)[0];
      && |h| <= |s| && h == s[..|h|]
      && (|h| == |s| || s[|h|] == sep)
    decreases |s|
  {
    if s != [] && s[0] != sep {
      SplitHead(s[1..], sep);
    }
  }

  /** The last piece of a split is the text after the last separator, or all of `s` when it has none. */
  lemma {:induction false} SplitLast(s: String, sep: char)
    ensures var parts := Split(s, sep); var t := parts[|parts| - 1];
      && |t| <= |s| && t == s[|s| - |t|..]
      && (|t| == |s| || s[|s| - |t| - 1] == sep)
    decreases |s|
  {
    SplitHead(s, sep);
    var h := Split(s, sep)[0];
    if |h| == |s| {
      assert h == s;
      SplitWhole(s, sep);
    } else {
      var rest := s[|h| + 1..];
      assert s == h + [sep] + rest;
      SplitAt(h, rest, sep);
      SplitLast(rest, sep);
      var parts := Split(rest, sep);
      assert Split(s, sep)[|Split(s, sep)| - 1] == parts[|parts| - 1];
    }
  }

  /** There is one more piece than there are separators. */
  lemma {:induction false} SplitCount(s: String, sep: char)
    ensures |Split(s, sep)| == multiset(s)[sep] + 1
    decreases |s|
  {
    if s != [] {
      SplitCount(s[1..], sep);
      assert s == [s[0]] + s[1..];
    }
  }

  // ---------------------------------------------------------------- substrings

  predicate OccursAt(s: String, p: String, i: nat) {
    i + |p| <= |s| && s[i..i + |p|] == p
  }

  /** The leftmost occurrence of `p` in `s` at or after `from`, as a left-to-right scan finds it. */
  function FindFrom(s: String, p: String, from: nat): (r: Option<nat>)
    requires from <= |s|
    ensures r.Some? ==> from <= r.value && OccursAt(s, p, r.value)
    ensures r.Some? ==> forall i :: from <= i < r.value ==> !OccursAt(s, p, i)
    ensures r.None? ==> forall i :: from <= i ==> !OccursAt(s, p, i)
    decreases |s| - from
  {
    if from + |p| > |s| then None
    else if OccursAt(s, p, from) then Some(from)
    else FindFrom(s, p, from + 1)
  }

  /** Python's `p in s`. */
  predicate Contains(s: String, p: String) {
    FindFrom(s, p, 0).Some?
  }

  lemma ContainsIff(s: String, p: String)
    ensures Contains(s, p) <==> exists i: nat :: OccursAt(s, p, i)
  {
    if Contains(s, p) {
      assert OccursAt(s, p, FindFrom(s, p, 0).value);
    }
  }

  /** The length of the run of `inClass` characters that starts at `from`. */
  function RunLength(s: String, from: nat, inClass: char -> bool): (n: nat)
    requires from <= |s|
    ensures from + n <= |s|
    ensures forall k :: from <= k < from + n ==> inClass(s[k])
    ensures from + n == |s| || !inClass(s[from + n])
    decreases |s| - from
  {
    if from < |s| && inClass(s[from]) then 1 + RunLength(s, from + 1, inClass) else 0
  }
}
