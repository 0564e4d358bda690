/**
 * The candidate's name: the first line of the stripped text, itself stripped
 * (`extract_name`).
 */
module Name {
  import opened Text

  /**
   * `extract_name`. Splitting always yields at least one piece, so the
   * `"Unknown"` fallback of the source can never be taken: blank text gives
   * the empty name.
   */
  function ExtractName(text: String): (name: String)
    ensures name == [] <==> AllSpace(text)
    ensures '\n' !in name
    ensures name == [] || (!IsSpace(name[0]) && !IsSpace(name[|name| - 1]))
  {
    var t := Strip(text);
    var lines := Split(t, '\n');
    if |lines| > 0 then
      var name := Strip(lines[0]);
      FirstLineOfStrip(text, t, lines[0]);
      name
    else "Unknown"
  }

  /** The first line of a stripped text is blank exactly when the whole text is. */
  lemma FirstLineOfStrip(text: String, t: String, h: String)
    requires IsTrimOf(t, text) && h == Split(t, '\n')[0]
    ensures '\n' !in Strip(h)
    ensures Strip(h) == [] <==> AllSpace(text)
    ensures Strip(h) == [] || (!IsSpace(Strip(h)[0]) && !IsSpace(Strip(h)[|Strip(h)| - 1]))
  {
    var r := Strip(h);
    var j: nat :| TrimmedAt(r, h, j);
    assert forall k :: 0 <= k < |r| ==> r[k] == h[j + k];
    var i: nat :| TrimmedAt(t, text, i);
    SplitHead(t, '\n');
    if AllSpace(text) {
      StripBlank(h);
    } else {
      assert t != [] by {
        var k :| 0 <= k < |text| && !IsSpace(text[k]);
      }
      assert h[0] == t[0];
      StripNonBlank(h);
    }
  }

  /** Reading the lines top to bottom: the first one with a non-whitespace character, trimmed; empty if there is none. */
  function FirstNonBlankLine(lines: seq<String>): (r: String)
  {
    if lines == [] then []
    else if !AllSpace(lines[0]) then Strip(lines[0])
    else FirstNonBlankLine(lines[1..])
  }

  /** A string that is not all whitespace has a non-empty strip. */
  lemma StripNonBlank(s: String)
    requires !AllSpace(s)
    ensures Strip(s) != []
  {
    var r := Strip(s);
    var i: nat :| TrimmedAt(r, s, i);
  }

  /** A blank string strips to nothing. */
  lemma StripBlank(s: String)
    requires AllSpace(s)
    ensures Strip(s) == []
  {
    assert s[..0] == [] && s[0..0] == [] && s[0..] == s;
    StripIs(s, [], 0);
  }

  /**
   * Stripping text that starts with a trimmed word `m` keeps all of `m` and
   * some prefix of what follows it.
   */
  lemma TrimAfterWord(m: String, z: String, t: String, i: nat)
    requires m != [] && !IsSpace(m[0]) && !IsSpace(m[|m| - 1])
    requires TrimmedAt(t, m + z, i)
    ensures |m| <= |t| && t == m + z[..|t| - |m|]
  {
    var x := m + z;
    assert x[0] == m[0];
    assert x[|m| - 1] == m[|m| - 1];
    assert i == 0;
    assert t == x[..|t|];
    assert x[..|t|] == m + z[..|t| - |m|];
  }

  /**
   * The first line of `m + y`, where `y` is a prefix of `w2`, a line break
   * and more, is `m` followed by part of `w2`.
   */
  lemma FirstLineOfPrefix(m: String, w2: String, rest: String, y: String)
    requires '\n' !in m + w2
    requires |y| <= |w2| + 1 + |rest| && y == (w2 + ['\n'] + rest)[..|y|]
    ensures var head := Split(m + y, '\n')[0];
      |m| <= |head| <= |m| + |w2| && head == m + w2[..|head| - |m|]
  {
    if |y| > |w2| {
      var more := y[|w2| + 1..];
      assert m + y == (m + w2) + ['\n'] + more;
      SplitAt(m + w2, more, '\n');
    } else {
      assert y == w2[..|y|];
      assert '\n' !in m + y;
      SplitWhole(m + y, '\n');
    }
  }

  /** Stripping a line whose trimmed content is `m` keeps `m` and a prefix of what follows it. */
  lemma StripFromLine(h: String, rest: String, m: String, a: nat)
    requires m != [] && TrimmedAt(m, h, a)
    ensures var t := Strip(h + ['\n'] + rest); var z := h[a + |m|..] + ['\n'] + rest;
      |m| <= |t| <= |m| + |z| && t == m + z[..|t| - |m|]
  {
    var w, w2 := h[..a], h[a + |m|..];
    assert h == w + m + w2;
    var z := w2 + ['\n'] + rest;
    assert h + ['\n'] + rest == w + (m + z);
    assert AllSpace(w);
    StripAfterSpace(w, m + z);
    var t := Strip(m + z);
    var i: nat :| TrimmedAt(t, m + z, i);
    TrimAfterWord(m, z, t, i);
  }

  /** A trimmed word followed by whitespace strips to the word. */
  lemma StripWordThenSpace(m: String, g: String)
    requires m != [] && !IsSpace(m[0]) && !IsSpace(m[|m| - 1])
    requires AllSpace(g)
    ensures Strip(m + g) == m
  {
    assert TrimmedAt(m, m + g, 0);
    StripIs(m + g, m, 0);
  }

  /** When the first line `h` holds text, the source's name is that line, trimmed. */
  lemma HeadOfNonBlankLine(h: String, rest: String)
    requires '\n' !in h
    requires !AllSpace(h)
    ensures ExtractName(h + ['\n'] + rest) == Strip(h)
  {
    var m := Strip(h);
    StripNonBlank(h);
    var a: nat :| TrimmedAt(m, h, a);
    StripFromLine(h, rest, m, a);
    var w2 := h[a + |m|..];
    var t := Strip(h + ['\n'] + rest);
    var y := (w2 + ['\n'] + rest)[..|t| - |m|];
    FirstLineOfPrefix(m, w2, rest, y);
    var head := Split(t, '\n')[0];
    var g := w2[..|head| - |m|];
    assert head == m + g;
    assert AllSpace(g);
    StripWordThenSpace(m, g);
    assert ExtractName(h + ['\n'] + rest) == Strip(head);
  }

  /** Text without a line break: its name is the whole text, trimmed. */
  lemma NameOfSingleLine(text: String)
    requires '\n' !in text
    ensures ExtractName(text) == if AllSpace(text) then [] else Strip(text)
  {
    var t := Strip(text);
    var i: nat :| TrimmedAt(t, text, i);
    forall k | 0 <= k < |t|
      ensures t[k] != '\n'
    {
      assert t[k] == text[i + k];
    }
    SplitWhole(t, '\n');
    StripIdempotent(text);
    if AllSpace(text) {
      StripBlank(text);
    }
  }

  /** A blank first line changes neither the name nor whether the text is blank. */
  lemma NameSkipsBlankLine(h: String, rest: String)
    requires AllSpace(h)
    ensures ExtractName(h + ['\n'] + rest) == ExtractName(rest)
    ensures AllSpace(h + ['\n'] + rest) <==> AllSpace(rest)
  {
    var w := h + ['\n'];
    assert AllSpace(w);
    StripAfterSpace(w, rest);
    assert h + ['\n'] + rest == w + rest;
    assert forall k :: 0 <= k < |rest| ==> rest[k] == (w + rest)[|w| + k];
  }

  /** The name is the first non-blank line of the text, trimmed. */
  lemma {:induction false} NameIsFirstNonBlankLine(text: String)
    ensures ExtractName(text) == FirstNonBlankLine(Split(text, '\n'))
    ensures ExtractName(text) == [] <==> AllSpace(text)
    decreases |text|
  {
    SplitHead(text, '\n');
    var h := Split(text, '\n')[0];
    if |h| == |text| {
      assert h == text;
      SplitWhole(text, '\n');
      NameOfSingleLine(text);
      if !AllSpace(text) {
        StripNonBlank(text);
      }
    } else {
      var rest := text[|h| + 1..];
      assert text == h + ['\n'] + rest;
      SplitAt(h, rest, '\n');
      assert Split(text, '\n')[1..] == Split(rest, '\n');
      if AllSpace(h) {
        NameIsFirstNonBlankLine(rest);
        NameSkipsBlankLine(h, rest);
      } else {
        HeadOfNonBlankLine(h, rest);
        StripNonBlank(h);
        var k :| 0 <= k < |h| && !IsSpace(h[k]);
        assert text[k] == h[k];
      }
    }
  }
}
