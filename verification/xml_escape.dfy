/** `escapeForXML`: five global replacements applied one after another,
    ampersand first so that the references the later steps insert are not
    escaped again. */
module XmlEscape {
  import opened Common

  /** `string.replace(/c/g, reference)`: every occurrence of the character,
      left to right, replaced by the reference; the inserted text is not
      searched again. */
  function ReplaceChar(s: string, c: char, reference: string): (r: string)
    ensures c !in s ==> r == s
  {
    if |s| == 0 then []
    else (if s[0] == c then reference else [s[0]]) + ReplaceChar(s[1..], c, reference)
  }

  const AMP: string := "&amp;"
  const QUOT: string := "&quot;"
  const APOS: string := "&apos;"
  const LT: string := "&lt;"
  const GT: string := "&gt;"

  /** The replacement steps of `escapeForXML` in the order of its entity
      table, ampersand first. */
  function ReplaceSteps(s: string): string
  {
    ReplaceChar(ReplaceChar(ReplaceChar(ReplaceChar(ReplaceChar(s, '&', AMP), '"', QUOT), '\'', APOS), '<', LT), '>', GT)
  }

  /** `escapeForXML(str)`: the five steps, which amount to replacing each
      character by its own reference. */
  function EscapeForXML(s: string): (r: string)
    ensures r == EscapeEach(s)
  {
    EscapeIsPerCharacter(s);
    ReplaceSteps(s)
  }

  // ---------------------------------------------------------------- reference: one character at a time

  /** What a single character becomes. */
  function EscapeChar(c: char): string
  {
    match c
    case '&' => AMP
    case '"' => QUOT
    case '\'' => APOS
    case '<' => LT
    case '>' => GT
    case _ => [c]
  }

  function EscapeEach(s: string): string
  {
    if |s| == 0 then [] else EscapeChar(s[0]) + EscapeEach(s[1..])
  }

  lemma {:induction false} ReplaceCharConcat(a: string, b: string, c: char, reference: string)
    ensures ReplaceChar(a + b, c, reference) == ReplaceChar(a, c, reference) + ReplaceChar(b, c, reference)
  {
    if |a| > 0 {
      assert (a + b)[1..] == a[1..] + b;
      ReplaceCharConcat(a[1..], b, c, reference);
    } else {
      assert a + b == b;
    }
  }

  /** The five steps applied to one character give that character's
      reference: no reference contains a character a later step replaces. */
  lemma EscapeOneChar(c: char)
    ensures ReplaceSteps([c]) == EscapeChar(c)
  {
    assert '"' !in AMP && '\'' !in AMP && '<' !in AMP && '>' !in AMP;
    assert '\'' !in QUOT && '<' !in QUOT && '>' !in QUOT;
    assert '<' !in APOS && '>' !in APOS;
    assert '>' !in LT;
    assert ReplaceChar([c], '&', AMP) == if c == '&' then AMP else [c];
  }

  /** The sequential replacements agree with escaping character by character. */
  lemma {:induction false} EscapeIsPerCharacter(s: string)
    ensures ReplaceSteps(s) == EscapeEach(s)
  {
    if |s| > 0 {
      assert s == [s[0]] + s[1..];
      var head := [s[0]];
      ReplaceCharConcat(head, s[1..], '&', AMP);
      var a1, a2 := ReplaceChar(head, '&', AMP), ReplaceChar(s[1..], '&', AMP);
      ReplaceCharConcat(a1, a2, '"', QUOT);
      var b1, b2 := ReplaceChar(a1, '"', QUOT), ReplaceChar(a2, '"', QUOT);
      ReplaceCharConcat(b1, b2, '\'', APOS);
      var c1, c2 := ReplaceChar(b1, '\'', APOS), ReplaceChar(b2, '\'', APOS);
      ReplaceCharConcat(c1, c2, '<', LT);
      var d1, d2 := ReplaceChar(c1, '<', LT), ReplaceChar(c2, '<', LT);
      ReplaceCharConcat(d1, d2, '>', GT);
      assert ReplaceSteps(s) == ReplaceSteps(head) + ReplaceSteps(s[1..]);
      EscapeOneChar(s[0]);
      EscapeIsPerCharacter(s[1..]);
    }
  }

  // ---------------------------------------------------------------- properties

  predicate Special(c: char)
  {
    c == '&' || c == '"' || c == '\'' || c == '<' || c == '>'
  }

  /** Text without any of the five characters is returned unchanged. */
  lemma {:induction false} EscapeLeavesPlainText(s: string)
    requires forall i :: 0 <= i < |s| ==> !Special(s[i])
    ensures EscapeForXML(s) == s
  {
    assert forall i :: 0 <= i < |s| ==> s[i] != '&' && s[i] != '"' && s[i] != '\'' && s[i] != '<' && s[i] != '>';
  }

  /** No character that would open markup or close an attribute value. */
  predicate NoMarkup(r: string)
  {
    forall i :: 0 <= i < |r| ==> r[i] != '<' && r[i] != '>' && r[i] != '"' && r[i] != '\''
  }

  /** The escaped text contains no quote and no angle bracket. */
  lemma {:induction false} EscapedHasNoMarkup(s: string)
    ensures NoMarkup(EscapeForXML(s))
  {
    EscapeEachHasNoMarkup(s);
  }

  lemma {:induction false} EscapeEachHasNoMarkup(s: string)
    ensures NoMarkup(EscapeEach(s))
  {
    if |s| > 0 {
      EscapeEachHasNoMarkup(s[1..]);
      var head, tail := EscapeChar(s[0]), EscapeEach(s[1..]);
      assert NoMarkup(head) by {
        forall i | 0 <= i < |head| ensures head[i] != '<' && head[i] != '>' && head[i] != '"' && head[i] != '\'' {
          EscapeCharHasNoMarkup(s[0], i);
        }
      }
      NoMarkupConcat(head, tail);
    }
  }

  lemma NoMarkupConcat(a: string, b: string)
    requires NoMarkup(a) && NoMarkup(b)
    ensures NoMarkup(a + b)
  {
    forall i | 0 <= i < |a + b| ensures (a + b)[i] != '<' && (a + b)[i] != '>' && (a + b)[i] != '"' && (a + b)[i] != '\'' {
      if i < |a| {
        assert (a + b)[i] == a[i];
      } else {
        assert (a + b)[i] == b[i - |a|];
      }
    }
  }

  lemma EscapeCharHasNoMarkup(c: char, i: nat)
    requires i < |EscapeChar(c)|
    ensures EscapeChar(c)[i] != '<' && EscapeChar(c)[i] != '>' && EscapeChar(c)[i] != '"' && EscapeChar(c)[i] != '\''
  {
  }

  /** Text that begins with one of the five references. */
  predicate StartsReference(t: string)
  {
    AMP <= t || QUOT <= t || APOS <= t || LT <= t || GT <= t
  }

  /** Every ampersand begins a reference. */
  predicate AmpersandsStartReferences(r: string)
  {
    forall i :: 0 <= i < |r| && r[i] == '&' ==> StartsReference(r[i..])
  }

  /** In the escaped text every ampersand begins one of the five
      references: the input's own ampersands were replaced first. */
  lemma EscapedAmpersandsStartReferences(s: string)
    ensures AmpersandsStartReferences(EscapeForXML(s))
  {
    EscapeEachAmpersands(s);
  }

  lemma {:induction false} EscapeEachAmpersands(s: string)
    ensures AmpersandsStartReferences(EscapeEach(s))
  {
    if |s| > 0 {
      var head, rest := EscapeChar(s[0]), EscapeEach(s[1..]);
      EscapeEachAmpersands(s[1..]);
      var r := head + rest;
      forall i | 0 <= i < |r| && r[i] == '&' ensures StartsReference(r[i..]) {
        if i < |head| {
          assert r[i] == head[i];
          HeadAmpersand(s[0], i, rest);
        } else {
          assert r[i..] == rest[i - |head|..];
          assert rest[i - |head|] == '&';
        }
      }
    }
  }

  /** Within one character's escape an ampersand can only be the first
      character of a reference. */
  lemma HeadAmpersand(c: char, i: nat, rest: string)
    requires i < |EscapeChar(c)| && EscapeChar(c)[i] == '&'
    ensures i == 0 && StartsReference(EscapeChar(c) + rest)
  {
    var e := EscapeChar(c);
    assert (e + rest)[..|e|] == e;
  }

  // ---------------------------------------------------------------- the inverse

  /** A reader's entity decoding for the five predefined XML entities (section
      4.6 of the XML 1.0 recommendation); any other text is copied. */
  function Unescape(s: string): string
    decreases |s|
  {
    if |s| == 0 then []
    else if AMP <= s then ['&'] + Unescape(s[|AMP|..])
    else if QUOT <= s then ['"'] + Unescape(s[|QUOT|..])
    else if APOS <= s then ['\''] + Unescape(s[|APOS|..])
    else if LT <= s then ['<'] + Unescape(s[|LT|..])
    else if GT <= s then ['>'] + Unescape(s[|GT|..])
    else [s[0]] + Unescape(s[1..])
  }

  lemma UnescapeOneChar(c: char, rest: string)
    ensures Unescape(EscapeChar(c) + rest) == [c] + Unescape(rest)
  {
    var e := EscapeChar(c);
    assert (e + rest)[..|e|] == e;
    assert (e + rest)[|e|..] == rest;
    if !Special(c) {
      assert (e + rest)[0] == c;
      assert !(AMP <= e + rest) && !(QUOT <= e + rest) && !(APOS <= e + rest) && !(LT <= e + rest) && !(GT <= e + rest);
    } else if c == '"' {
      assert !(AMP <= e + rest) by { assert AMP[1] != QUOT[1]; }
    } else if c == '\'' {
      assert !(AMP <= e + rest) by { assert AMP[2] != APOS[2]; }
      assert !(QUOT <= e + rest) by { assert QUOT[1] != APOS[1]; }
    } else if c == '<' {
      assert !(AMP <= e + rest) by { assert AMP[1] != LT[1]; }
      assert !(QUOT <= e + rest) by { assert QUOT[1] != LT[1]; }
      assert !(APOS <= e + rest) by { assert APOS[1] != LT[1]; }
    } else if c == '>' {
      assert !(AMP <= e + rest) by { assert AMP[1] != GT[1]; }
      assert !(QUOT <= e + rest) by { assert QUOT[1] != GT[1]; }
      assert !(APOS <= e + rest) by { assert APOS[1] != GT[1]; }
      assert !(LT <= e + rest) by { assert LT[1] != GT[1]; }
    }
  }

  /** Decoding the escaped text gives back the original text. */
  lemma {:induction false} UnescapeEscape(s: string)
    ensures Unescape(EscapeForXML(s)) == s
  {
    UnescapeEach(s);
  }

  lemma {:induction false} UnescapeEach(s: string)
    ensures Unescape(EscapeEach(s)) == s
  {
    if |s| > 0 {
      var t := EscapeEach(s[1..]);
      assert Unescape(EscapeEach(s)) == [s[0]] + Unescape(t) by {
        UnescapeOneChar(s[0], t);
      }
      UnescapeEach(s[1..]);
      assert s == [s[0]] + s[1..];
    }
  }
}
