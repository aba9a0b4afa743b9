/** `makeSlug`: lower-case and decompose the text, then a chain of regular
    expression replacements that turns it into a file-name-safe identifier
    of ASCII word characters separated by single hyphens. Lower-casing and
    canonical decomposition depend on the Unicode tables and are passed in
    as one function. */
module Slug {
  import opened XmlEscape

  /** The characters JavaScript's `\s` matches (ECMAScript WhiteSpace and
      LineTerminator). */
  predicate IsJsSpace(c: char)
  {
    || c == '\t' || c == '\n' || c == '\U{000B}' || c == '\U{000C}' || c == '\r' || c == ' '
    || c == '\U{00A0}' || c == '\U{1680}' || ('\U{2000}' <= c <= '\U{200A}') || c == '\U{2028}' || c == '\U{2029}'
    || c == '\U{202F}' || c == '\U{205F}' || c == '\U{3000}' || c == '\U{FEFF}'
  }

  /** `[\x20-\x7E]`: printable ASCII. */
  predicate IsPrintable(c: char)
  {
    ' ' <= c <= '~'
  }

  /** `\w`: ASCII letters, digits and the underscore. */
  predicate IsWord(c: char)
  {
    ('a' <= c <= 'z') || ('A' <= c <= 'Z') || ('0' <= c <= '9') || c == '_'
  }

  /** `.replace(/\s/g, '-')` */
  function SpacesToHyphens(s: string): (r: string)
    ensures |r| == |s|
    ensures forall i :: 0 <= i < |s| ==> r[i] == if IsJsSpace(s[i]) then '-' else s[i]
  {
    if |s| == 0 then [] else [if IsJsSpace(s[0]) then '-' else s[0]] + SpacesToHyphens(s[1..])
  }

  /** `.replace(/[^\x20-\x7E]/g, '')` */
  function DropUnprintable(s: string): (r: string)
    ensures |r| <= |s|
    ensures forall i :: 0 <= i < |r| ==> IsPrintable(r[i])
    ensures (forall i :: 0 <= i < |s| ==> IsPrintable(s[i])) ==> r == s
  {
    if |s| == 0 then [] else (if IsPrintable(s[0]) then [s[0]] else []) + DropUnprintable(s[1..])
  }

  /** Removal acts character by character: a printable character is kept,
      any other is dropped, and text splits into the results of its parts. */
  lemma {:induction false} DropUnprintableSplits(a: string, b: string)
    ensures DropUnprintable(a + b) == DropUnprintable(a) + DropUnprintable(b)
    ensures |a| == 1 ==> DropUnprintable(a) == if IsPrintable(a[0]) then a else []
  {
    if |a| > 0 {
      assert (a + b)[1..] == a[1..] + b;
      DropUnprintableSplits(a[1..], b);
    } else {
      assert a + b == b;
    }
  }

  /** `.replace(/\W/g, '-')` */
  function NonWordToHyphens(s: string): (r: string)
    ensures |r| == |s|
    ensures forall i :: 0 <= i < |s| ==> r[i] == if IsWord(s[i]) then s[i] else '-'
    ensures forall i :: 0 <= i < |r| ==> IsWord(r[i]) || r[i] == '-'
  {
    if |s| == 0 then [] else [if IsWord(s[0]) then s[0] else '-'] + NonWordToHyphens(s[1..])
  }

  /** `.replace(/\-+/g, '-')`: every run of hyphens becomes one hyphen. */
  function CollapseHyphens(s: string): (r: string)
    ensures |s| > 0 ==> |r| > 0 && r[0] == s[0]
  {
    if |s| == 0 then []
    else if s[0] == '-' && |s| > 1 && s[1] == '-' then CollapseHyphens(s[1..])
    else [s[0]] + CollapseHyphens(s[1..])
  }

  /** The collapse position by position: each character from `j` on is kept
      unless it is a hyphen and the next character is a hyphen too. */
  function KeepUnrepeated(s: string, j: nat): string
    requires j <= |s|
    decreases |s| - j
  {
    if j == |s| then []
    else (if s[j] == '-' && j + 1 < |s| && s[j + 1] == '-' then [] else [s[j]]) + KeepUnrepeated(s, j + 1)
  }

  lemma {:induction false} KeepUnrepeatedShift(s: string, j: nat)
    requires 1 <= j <= |s|
    ensures KeepUnrepeated(s, j) == KeepUnrepeated(s[1..], j - 1)
    decreases |s| - j
  {
    if j < |s| {
      KeepUnrepeatedShift(s, j + 1);
      assert s[1..][j - 1] == s[j];
      if j + 1 < |s| {
        assert s[1..][j] == s[j + 1];
      }
    }
  }

  /** Collapsing runs of hyphens drops exactly the hyphens that another
      hyphen follows and keeps every other character in order. */
  lemma {:induction false} CollapseDropsRepeatedHyphens(s: string)
    ensures CollapseHyphens(s) == KeepUnrepeated(s, 0)
  {
    if |s| > 0 {
      CollapseDropsRepeatedHyphens(s[1..]);
      KeepUnrepeatedShift(s, 1);
    }
  }

  /** `.replace(/^\-+/, '')` */
  function TrimLeadingHyphens(s: string): (r: string)
    ensures |r| <= |s| && r == s[|s| - |r|..]
    ensures forall i :: 0 <= i < |s| - |r| ==> s[i] == '-'
    ensures |r| > 0 ==> r[0] != '-'
  {
    if |s| > 0 && s[0] == '-' then TrimLeadingHyphens(s[1..]) else s
  }

  /** `.replace(/\-+$/, '')` */
  function TrimTrailingHyphens(s: string): (r: string)
    ensures r <= s
    ensures forall i :: |r| <= i < |s| ==> s[i] == '-'
    ensures |r| > 0 ==> r[|r| - 1] != '-'
  {
    if |s| > 0 && s[|s| - 1] == '-' then TrimTrailingHyphens(s[..|s| - 1]) else s
  }

  /** The replacement chain of `makeSlug`, after lower-casing and
      normalization; whatever the input, the result is slug-shaped. */
  function SlugOf(s: string): (r: string)
    ensures IsSlug(r)
  {
    TrimmedCollapseIsSlug(NonWordToHyphens(DropUnprintable(SpacesToHyphens(s))));
    TrimTrailingHyphens(TrimLeadingHyphens(CollapseHyphens(NonWordToHyphens(DropUnprintable(SpacesToHyphens(s))))))
  }

  /** `makeSlug(str)`; `fold` stands for `.toLowerCase().normalize('NFD')`. */
  function MakeSlug(fold: string -> string, s: string): (r: string)
    ensures IsSlug(r)
    ensures IsSlug(fold(s)) ==> r == fold(s)
  {
    SlugFixedPoints(fold(s));
    SlugOf(fold(s))
  }

  // ---------------------------------------------------------------- the shape of a slug

  predicate NoDoubleHyphen(r: string)
  {
    forall i :: 0 <= i < |r| - 1 ==> !(r[i] == '-' && r[i + 1] == '-')
  }

  /** Word characters separated by single hyphens, with no hyphen at either end. */
  predicate IsSlug(r: string)
  {
    && (forall i :: 0 <= i < |r| ==> IsWord(r[i]) || r[i] == '-')
    && NoDoubleHyphen(r)
    && (|r| > 0 ==> r[0] != '-' && r[|r| - 1] != '-')
  }

  lemma {:induction false} CollapseKeepsCharacters(s: string)
    requires forall i :: 0 <= i < |s| ==> IsWord(s[i]) || s[i] == '-'
    ensures var r := CollapseHyphens(s);
      (forall i :: 0 <= i < |r| ==> IsWord(r[i]) || r[i] == '-') && NoDoubleHyphen(r)
  {
    if |s| > 0 {
      CollapseKeepsCharacters(s[1..]);
      var tail := CollapseHyphens(s[1..]);
      if !(s[0] == '-' && |s| > 1 && s[1] == '-') {
        var r := [s[0]] + tail;
        forall i | 0 <= i < |r| - 1 ensures !(r[i] == '-' && r[i + 1] == '-') {
          if i > 0 {
            assert r[i] == tail[i - 1] && r[i + 1] == tail[i];
          }
        }
        assert forall i :: 1 <= i < |r| ==> r[i] == tail[i - 1];
      }
    }
  }

  /** A slice of a slug-shaped string keeps its characters and single hyphens. */
  lemma SliceKeepsShape(s: string, a: nat, b: nat)
    requires a <= b <= |s|
    requires (forall i :: 0 <= i < |s| ==> IsWord(s[i]) || s[i] == '-') && NoDoubleHyphen(s)
    ensures var r := s[a..b];
      (forall i :: 0 <= i < |r| ==> IsWord(r[i]) || r[i] == '-') && NoDoubleHyphen(r)
  {
    var r := s[a..b];
    assert forall i :: 0 <= i < |r| ==> r[i] == s[a + i];
  }

  /** So does a suffix. */
  lemma SuffixKeepsShape(s: string, a: nat)
    requires a <= |s|
    requires (forall i :: 0 <= i < |s| ==> IsWord(s[i]) || s[i] == '-') && NoDoubleHyphen(s)
    ensures var r := s[a..];
      (forall i :: 0 <= i < |r| ==> IsWord(r[i]) || r[i] == '-') && NoDoubleHyphen(r)
  {
    var r := s[a..];
    assert forall i :: 0 <= i < |r| ==> r[i] == s[a + i];
  }

  /** The last three steps turn any string of word characters and hyphens
      into a slug. */
  lemma TrimmedCollapseIsSlug(w: string)
    requires forall i :: 0 <= i < |w| ==> IsWord(w[i]) || w[i] == '-'
    ensures IsSlug(TrimTrailingHyphens(TrimLeadingHyphens(CollapseHyphens(w))))
  {
    CollapseKeepsCharacters(w);
    TrimmedIsSlug(CollapseHyphens(w));
  }

  /** Trimming the hyphens at both ends of a string of word characters and
      single hyphens leaves a slug. */
  lemma TrimmedIsSlug(c: string)
    requires (forall i :: 0 <= i < |c| ==> IsWord(c[i]) || c[i] == '-') && NoDoubleHyphen(c)
    ensures IsSlug(TrimTrailingHyphens(TrimLeadingHyphens(c)))
  {
    var l := TrimLeadingHyphens(c);
    SuffixKeepsShape(c, |c| - |l|);
    TrailingTrimmedIsSlug(l);
  }

  lemma TrailingTrimmedIsSlug(l: string)
    requires (forall i :: 0 <= i < |l| ==> IsWord(l[i]) || l[i] == '-') && NoDoubleHyphen(l)
    requires |l| > 0 ==> l[0] != '-'
    ensures IsSlug(TrimTrailingHyphens(l))
  {
    var t := TrimTrailingHyphens(l);
    SliceKeepsShape(l, 0, |t|);
    assert t == l[0..|t|];
    if |t| > 0 {
      assert t[0] == l[0];
    }
  }


  // ---------------------------------------------------------------- fixed points

  lemma {:induction false} SpacesToHyphensKeepsSlug(r: string)
    requires forall i :: 0 <= i < |r| ==> IsWord(r[i]) || r[i] == '-'
    ensures SpacesToHyphens(r) == r
  {
    if |r| > 0 {
      SpacesToHyphensKeepsSlug(r[1..]);
    }
  }

  lemma {:induction false} DropUnprintableKeepsSlug(r: string)
    requires forall i :: 0 <= i < |r| ==> IsWord(r[i]) || r[i] == '-'
    ensures DropUnprintable(r) == r
  {
    if |r| > 0 {
      DropUnprintableKeepsSlug(r[1..]);
    }
  }

  lemma {:induction false} NonWordToHyphensKeepsSlug(r: string)
    requires forall i :: 0 <= i < |r| ==> IsWord(r[i]) || r[i] == '-'
    ensures NonWordToHyphens(r) == r
  {
    if |r| > 0 {
      NonWordToHyphensKeepsSlug(r[1..]);
    }
  }

  lemma {:induction false} CollapseKeepsSingleHyphens(r: string)
    requires NoDoubleHyphen(r)
    ensures CollapseHyphens(r) == r
  {
    if |r| > 0 {
      assert NoDoubleHyphen(r[1..]) by {
        assert forall i :: 0 <= i < |r| - 1 ==> r[1..][i] == r[i + 1];
      }
      CollapseKeepsSingleHyphens(r[1..]);
      if |r| > 1 {
        assert !(r[0] == '-' && r[1] == '-');
      }
    }
  }

  /** A string is its own slug exactly when it is already slug-shaped; in
      particular making a slug twice gives the slug. */
  lemma SlugFixedPoints(r: string)
    ensures SlugOf(r) == r <==> IsSlug(r)
  {
    if IsSlug(r) {
      SpacesToHyphensKeepsSlug(r);
      DropUnprintableKeepsSlug(r);
      NonWordToHyphensKeepsSlug(r);
      CollapseKeepsSingleHyphens(r);
    }
  }

  lemma SlugIdempotent(s: string)
    ensures SlugOf(SlugOf(s)) == SlugOf(s)
  {
    SlugFixedPoints(SlugOf(s));
  }

  /** A slug needs no escaping in XML. */
  lemma SlugNeedsNoEscaping(s: string)
    ensures EscapeForXML(SlugOf(s)) == SlugOf(s)
  {
    SlugShapeNeedsNoEscaping(SlugOf(s));
  }

  lemma SlugShapeNeedsNoEscaping(r: string)
    requires IsSlug(r)
    ensures EscapeForXML(r) == r
  {
    EscapeLeavesPlainText(r);
  }

  // ---------------------------------------------------------------- what a slug keeps

  /** The word characters of a string, in order. */
  function WordsOf(s: string): string
  {
    if |s| == 0 then [] else (if IsWord(s[0]) then [s[0]] else []) + WordsOf(s[1..])
  }

  lemma {:induction false} SpacesKeepWords(s: string)
    ensures WordsOf(SpacesToHyphens(s)) == WordsOf(s)
  {
    if |s| > 0 {
      SpacesKeepWords(s[1..]);
      assert SpacesToHyphens(s)[1..] == SpacesToHyphens(s[1..]);
    }
  }

  lemma {:induction false} DropKeepsWords(s: string)
    ensures WordsOf(DropUnprintable(s)) == WordsOf(s)
  {
    if |s| > 0 {
      DropKeepsWords(s[1..]);
      if IsPrintable(s[0]) {
        assert DropUnprintable(s) == [s[0]] + DropUnprintable(s[1..]);
        assert DropUnprintable(s)[1..] == DropUnprintable(s[1..]);
      } else {
        assert DropUnprintable(s) == DropUnprintable(s[1..]);
      }
    }
  }

  lemma {:induction false} NonWordKeepsWords(s: string)
    ensures WordsOf(NonWordToHyphens(s)) == WordsOf(s)
  {
    if |s| > 0 {
      NonWordKeepsWords(s[1..]);
      assert NonWordToHyphens(s)[1..] == NonWordToHyphens(s[1..]);
    }
  }

  lemma {:induction false} CollapseKeepsWords(s: string)
    ensures WordsOf(CollapseHyphens(s)) == WordsOf(s)
  {
    if |s| > 0 {
      CollapseKeepsWords(s[1..]);
      if !(s[0] == '-' && |s| > 1 && s[1] == '-') {
        assert CollapseHyphens(s)[1..] == CollapseHyphens(s[1..]);
      }
    }
  }

  lemma {:induction false} TrimLeadingKeepsWords(s: string)
    ensures WordsOf(TrimLeadingHyphens(s)) == WordsOf(s)
  {
    if |s| > 0 && s[0] == '-' {
      TrimLeadingKeepsWords(s[1..]);
    }
  }

  lemma {:induction false} WordsOfAppend(s: string, c: char)
    ensures WordsOf(s + [c]) == WordsOf(s) + (if IsWord(c) then [c] else [])
  {
    if |s| > 0 {
      assert (s + [c])[1..] == s[1..] + [c];
      WordsOfAppend(s[1..], c);
    } else {
      assert s + [c] == [c];
    }
  }

  lemma {:induction false} TrimTrailingKeepsWords(s: string)
    ensures WordsOf(TrimTrailingHyphens(s)) == WordsOf(s)
  {
    if |s| > 0 && s[|s| - 1] == '-' {
      TrimTrailingKeepsWords(s[..|s| - 1]);
      assert s == s[..|s| - 1] + ['-'];
      WordsOfAppend(s[..|s| - 1], '-');
    }
  }

  /** The slug keeps every ASCII word character of its input, in order, and
      only those: what it drops or turns into a hyphen is punctuation,
      whitespace or non-ASCII text. */
  lemma SlugKeepsWords(s: string)
    ensures WordsOf(SlugOf(s)) == WordsOf(s)
  {
    var a := SpacesToHyphens(s);
    var b := DropUnprintable(a);
    var c := NonWordToHyphens(b);
    var d := CollapseHyphens(c);
    var e := TrimLeadingHyphens(d);
    SpacesKeepWords(s);
    DropKeepsWords(a);
    NonWordKeepsWords(b);
    CollapseKeepsWords(c);
    TrimLeadingKeepsWords(d);
    TrimTrailingKeepsWords(e);
  }
}
