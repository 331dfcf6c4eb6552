/**
 Python's `html.escape(s)` with its default `quote=True`. As written, it is a
 chain of single-character replacements, `&` first and then `<`, `>`, `"` and
 `'`. It is proved equal to a per-character mapping, and that mapping is proved
 to leave no raw markup character behind, to introduce `&` only as the start of
 an entity, to change nothing in plain text, and to be undone by `Unescape`.
 */
module HtmlEscape {
  import opened Strings

  /** `s.replace(c, r)` for a single character `c`. */
  function Replace(s: string, c: char, r: string): string
    decreases |s|
  {
    if |s| == 0 then ""
    else (if s[0] == c then r else [s[0]]) + Replace(s[1..], c, r)
  }

  /** `html.escape(s)` as the library writes it: five replacements, ampersand first. */
  function EscapeBySteps(s: string): string {
    QuoteSteps(Replace(Replace(s, '&', "&amp;"), '<', "&lt;"))
  }

  /** The last three replacements of the chain. */
  function QuoteSteps(s: string): string {
    Replace(Replace(Replace(s, '>', "&gt;"), '"', "&quot;"), '\'', "&#x27;")
  }

  /** The characters `html.escape` rewrites. */
  predicate NeedsEscape(c: char) {
    c == '&' || c == '<' || c == '>' || c == '"' || c == '\''
  }

  /** The characters that never survive escaping. */
  predicate IsRawMarkup(c: char) {
    c == '<' || c == '>' || c == '"' || c == '\''
  }

  function EscapeChar(c: char): (e: string)
    ensures |e| >= 1
    ensures NeedsEscape(c) <==> e != [c]
  {
    if c == '&' then "&amp;"
    else if c == '<' then "&lt;"
    else if c == '>' then "&gt;"
    else if c == '"' then "&quot;"
    else if c == '\'' then "&#x27;"
    else [c]
  }

  /** True when one of the five entities `html.escape` produces starts at index `i` of `s`. */
  predicate EntityAt(s: string, i: nat)
    requires i <= |s|
  {
    var t := s[i..];
    StartsWith(t, "&amp;") || StartsWith(t, "&lt;") || StartsWith(t, "&gt;")
    || StartsWith(t, "&quot;") || StartsWith(t, "&#x27;")
  }

  lemma EntityAtPrefix(a: string, b: string, i: nat)
    requires i < |a| && EntityAt(a, i)
    ensures EntityAt(a + b, i)
  {
    assert (a + b)[i..] == a[i..] + b;
  }

  lemma EntityAtSuffix(a: string, b: string, j: nat)
    requires j < |b| && EntityAt(b, j)
    ensures EntityAt(a + b, |a| + j)
  {
    assert (a + b)[|a| + j..] == b[j..];
  }

  /** The reference definition: every character mapped through `EscapeChar`. */
  function Escape(s: string): (e: string)
    ensures |e| >= |s|
    decreases |s|
  {
    if |s| == 0 then "" else EscapeChar(s[0]) + Escape(s[1..])
  }

  /** One escaped character: no raw markup, and an `&` only as the start of its entity. */
  lemma EscapeCharClean(c: char)
    ensures var e := EscapeChar(c); forall i :: 0 <= i < |e| ==> !IsRawMarkup(e[i]) && (e[i] == '&' ==> i == 0)
    ensures var e := EscapeChar(c); e[0] == '&' ==> EntityAt(e, 0)
  {
    var e := EscapeChar(c);
    if NeedsEscape(c) {
      assert e[0] == '&' && EntityAt(e, 0) by {
        StartsWithConcat(e, "");
        assert e[0..] == e;
      }
    }
  }

  /**
   Escaped text holds no raw `<`, `>`, `"` or `'`, and every `&` in it starts
   one of the five entities, so no text can close or open a tag or attribute.
   */
  lemma {:induction false} EscapeIsClean(s: string)
    ensures forall i :: 0 <= i < |Escape(s)| ==> !IsRawMarkup(Escape(s)[i])
    ensures forall i :: 0 <= i < |Escape(s)| && Escape(s)[i] == '&' ==> EntityAt(Escape(s), i)
    decreases |s|
  {
    if |s| > 0 {
      var head := EscapeChar(s[0]);
      var tail := Escape(s[1..]);
      EscapeIsClean(s[1..]);
      assert forall i :: 0 <= i < |tail| ==> !IsRawMarkup(tail[i]);
      assert forall i :: 0 <= i < |tail| && tail[i] == '&' ==> EntityAt(tail, i);
      EscapeCharClean(s[0]);
      assert Escape(s) == head + tail;
      EscapeConcatEntities(head, tail);
      forall i | 0 <= i < |head + tail| ensures !IsRawMarkup((head + tail)[i]) {
        if i >= |head| {
          assert (head + tail)[i] == tail[i - |head|];
        }
      }
    }
  }

  lemma EscapeConcatEntities(head: string, tail: string)
    requires forall i :: 0 <= i < |head| && head[i] == '&' ==> i == 0
    requires |head| > 0 && head[0] == '&' ==> EntityAt(head, 0)
    requires forall i :: 0 <= i < |tail| && tail[i] == '&' ==> EntityAt(tail, i)
    ensures forall i :: 0 <= i < |head + tail| && (head + tail)[i] == '&' ==> EntityAt(head + tail, i)
  {
    var e := head + tail;
    forall i | 0 <= i < |e| && e[i] == '&'
      ensures EntityAt(e, i)
    {
      if i < |head| {
        EntityAtPrefix(head, tail, i);
      } else {
        EntityAtSuffix(head, tail, i - |head|);
      }
    }
  }

  // ---------------------------------------------------------------------------
  // the replacement chain equals the per-character mapping

  lemma {:induction false} ReplaceConcat(a: string, b: string, c: char, r: string)
    ensures Replace(a + b, c, r) == Replace(a, c, r) + Replace(b, c, r)
    decreases |a|
  {
    if |a| == 0 {
      assert a + b == b;
    } else {
      assert (a + b)[1..] == a[1..] + b;
      ReplaceConcat(a[1..], b, c, r);
    }
  }

  lemma {:induction false} ReplaceAbsent(s: string, c: char, r: string)
    requires c !in s
    ensures Replace(s, c, r) == s
    decreases |s|
  {
    if |s| > 0 {
      ReplaceAbsent(s[1..], c, r);
      assert [s[0]] + s[1..] == s;
    }
  }

  lemma ReplaceSingle(x: char, c: char, r: string)
    ensures Replace([x], c, r) == if x == c then r else [x]
  {
    assert [x][1..] == "";
  }

  lemma EscapeByStepsConcat(a: string, b: string)
    ensures EscapeBySteps(a + b) == EscapeBySteps(a) + EscapeBySteps(b)
  {
    ReplaceConcat(a, b, '&', "&amp;");
    var a1, b1 := Replace(a, '&', "&amp;"), Replace(b, '&', "&amp;");
    ReplaceConcat(a1, b1, '<', "&lt;");
    var a2, b2 := Replace(a1, '<', "&lt;"), Replace(b1, '<', "&lt;");
    ReplaceConcat(a2, b2, '>', "&gt;");
    var a3, b3 := Replace(a2, '>', "&gt;"), Replace(b2, '>', "&gt;");
    ReplaceConcat(a3, b3, '"', "&quot;");
    var a4, b4 := Replace(a3, '"', "&quot;"), Replace(b3, '"', "&quot;");
    ReplaceConcat(a4, b4, '\'', "&#x27;");
  }

  lemma QuoteStepsFix(e: string)
    requires '>' !in e && '"' !in e && '\'' !in e
    ensures QuoteSteps(e) == e
  {
    ReplaceAbsent(e, '>', "&gt;");
    ReplaceAbsent(e, '"', "&quot;");
    ReplaceAbsent(e, '\'', "&#x27;");
  }

  lemma QuoteStepsChar(x: char)
    requires x != '&' && x != '<'
    ensures QuoteSteps([x]) == EscapeChar(x)
  {
    ReplaceSingle(x, '>', "&gt;");
    if x == '>' {
      QuoteStepsFix("&gt;");
      ReplaceAbsent("&gt;", '>', "&gt;");
    } else {
      ReplaceSingle(x, '"', "&quot;");
      if x == '"' {
        ReplaceAbsent("&quot;", '\'', "&#x27;");
      } else {
        ReplaceSingle(x, '\'', "&#x27;");
      }
    }
  }

  lemma AmpEntityHasNoMarkup()
    ensures '<' !in "&amp;" && '>' !in "&amp;" && '"' !in "&amp;" && '\'' !in "&amp;"
  {
  }

  lemma AmpEntitySurvivesLt()
    ensures Replace("&amp;", '<', "&lt;") == "&amp;"
  {
    AmpEntityHasNoMarkup();
    ReplaceAbsent("&amp;", '<', "&lt;");
  }

  lemma EscapeByStepsAmp()
    ensures EscapeBySteps("&") == "&amp;"
  {
    ReplaceSingle('&', '&', "&amp;");
    AmpEntitySurvivesLt();
    AmpEntityHasNoMarkup();
    QuoteStepsFix("&amp;");
  }

  lemma EscapeByStepsLt()
    ensures EscapeBySteps("<") == "&lt;"
  {
    ReplaceSingle('<', '&', "&amp;");
    ReplaceSingle('<', '<', "&lt;");
    QuoteStepsFix("&lt;");
  }

  lemma EscapeByStepsChar(x: char)
    ensures EscapeBySteps([x]) == EscapeChar(x)
  {
    if x == '&' {
      EscapeByStepsAmp();
    } else if x == '<' {
      EscapeByStepsLt();
    } else {
      ReplaceSingle(x, '&', "&amp;");
      ReplaceSingle(x, '<', "&lt;");
      QuoteStepsChar(x);
    }
  }

  /** `html.escape`'s chain of replacements is the per-character mapping `Escape`. */
  lemma {:induction false} EscapeByStepsIsEscape(s: string)
    ensures EscapeBySteps(s) == Escape(s)
    decreases |s|
  {
    if |s| == 0 {
      assert EscapeBySteps(s) == "";
    } else {
      assert s == [s[0]] + s[1..];
      EscapeByStepsConcat([s[0]], s[1..]);
      EscapeByStepsChar(s[0]);
      EscapeByStepsIsEscape(s[1..]);
    }
  }

  // ---------------------------------------------------------------------------
  // plain text is unchanged, and only plain text is

  lemma {:induction false} EscapeUnchangedIff(s: string)
    ensures Escape(s) == s <==> forall i :: 0 <= i < |s| ==> !NeedsEscape(s[i])
    decreases |s|
  {
    if |s| > 0 {
      EscapeUnchangedIff(s[1..]);
      var head := EscapeChar(s[0]);
      if NeedsEscape(s[0]) {
        assert |head| > 1;
        assert |Escape(s)| > |s|;
      } else {
        assert [s[0]] + s[1..] == s;
        if Escape(s) == s {
          assert Escape(s[1..]) == s[1..];
        }
        forall i | 1 <= i < |s|
          ensures s[i] == s[1..][i - 1]
        {
        }
      }
    }
  }

  // ---------------------------------------------------------------------------
  // decoding

  /** Decodes the five entities `html.escape` produces and copies every other character. */
  function Unescape(t: string): string
    decreases |t|
  {
    if |t| == 0 then ""
    else if StartsWith(t, "&amp;") then "&" + Unescape(t[5..])
    else if StartsWith(t, "&lt;") then "<" + Unescape(t[4..])
    else if StartsWith(t, "&gt;") then ">" + Unescape(t[4..])
    else if StartsWith(t, "&quot;") then "\"" + Unescape(t[6..])
    else if StartsWith(t, "&#x27;") then "'" + Unescape(t[6..])
    else [t[0]] + Unescape(t[1..])
  }

  lemma UnescapeAmp(rest: string)
    ensures Unescape("&amp;" + rest) == "&" + Unescape(rest)
  {
    StartsWithConcat("&amp;", rest);
  }

  lemma UnescapeLt(rest: string)
    ensures Unescape("&lt;" + rest) == "<" + Unescape(rest)
  {
    var t := "&lt;" + rest;
    StartsWithConcat("&lt;", rest);
    assert !StartsWith(t, "&amp;") by { assert t[1] == 'l'; }
  }

  lemma UnescapeGt(rest: string)
    ensures Unescape("&gt;" + rest) == ">" + Unescape(rest)
  {
    var t := "&gt;" + rest;
    StartsWithConcat("&gt;", rest);
    assert !StartsWith(t, "&amp;") && !StartsWith(t, "&lt;") by { assert t[1] == 'g'; }
  }

  lemma UnescapeQuot(rest: string)
    ensures Unescape("&quot;" + rest) == "\"" + Unescape(rest)
  {
    var t := "&quot;" + rest;
    StartsWithConcat("&quot;", rest);
    assert !StartsWith(t, "&amp;") && !StartsWith(t, "&lt;") && !StartsWith(t, "&gt;")
      by { assert t[1] == 'q'; }
  }

  lemma UnescapeApos(rest: string)
    ensures Unescape("&#x27;" + rest) == "'" + Unescape(rest)
  {
    var t := "&#x27;" + rest;
    StartsWithConcat("&#x27;", rest);
    assert !StartsWith(t, "&amp;") && !StartsWith(t, "&lt;") && !StartsWith(t, "&gt;")
      && !StartsWith(t, "&quot;") by { assert t[1] == '#'; }
  }

  lemma UnescapePlain(c: char, rest: string)
    requires c != '&'
    ensures Unescape([c] + rest) == [c] + Unescape(rest)
  {
    var t := [c] + rest;
    assert t[0] == c && t[1..] == rest;
  }

  lemma UnescapeAfterChar(c: char, rest: string)
    ensures Unescape(EscapeChar(c) + rest) == [c] + Unescape(rest)
  {
    if c == '&' {
      UnescapeAmp(rest);
    } else if c == '<' {
      UnescapeLt(rest);
    } else if c == '>' {
      UnescapeGt(rest);
    } else if c == '"' {
      UnescapeQuot(rest);
    } else if c == '\'' {
      UnescapeApos(rest);
    } else {
      UnescapePlain(c, rest);
    }
  }

  /** Escaping loses nothing: decoding the escaped text gives the text back. */
  lemma {:induction false} UnescapeEscape(s: string)
    ensures Unescape(Escape(s)) == s
    decreases |s|
  {
    if |s| > 0 {
      UnescapeAfterChar(s[0], Escape(s[1..]));
      UnescapeEscape(s[1..]);
      assert [s[0]] + s[1..] == s;
    }
  }
}
