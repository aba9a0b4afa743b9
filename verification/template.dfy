/** `processTemplate`: every `{{ key }}` placeholder of a template is
    replaced by the key's value. A value is a string or a nested array of
    strings; an array is joined with a newline followed by as many spaces as
    the placeholder's column, so that multi-line values keep the template's
    indentation. All placeholder occurrences are located in the original
    template first, sorted by position, and then spliced in one pass. */
module Template {
  import opened Common

  datatype Value = Str(text: string) | Arr(items: seq<Value>)

  /** The replacements object: keys with their values, in the order a
      `for ... in` loop visits them. */
  type Replacements = seq<(string, Value)>

  /** A located placeholder: where it starts and ends in the template and
      what replaces it. */
  datatype Point = Point(start: nat, end: nat, value: Value)

  // ---------------------------------------------------------------- flatten

  /** The inner `flatten(value, join)`. */
  function FlattenValue(v: Value, join: string): string
    decreases v
  {
    match v
    case Str(text) => text
    case Arr(items) => JoinValues(items, join)
  }

  /** `items.map(x => flatten(x, join)).join(join)` */
  function JoinValues(items: seq<Value>, join: string): string
    decreases items
  {
    if |items| == 0 then ""
    else if |items| == 1 then FlattenValue(items[0], join)
    else FlattenValue(items[0], join) + join + JoinValues(items[1..], join)
  }

  /** `Array(n + 1).join(' ')` */
  function Spaces(n: nat): (s: string)
    ensures |s| == n && forall i :: 0 <= i < n ==> s[i] == ' '
  {
    if n == 0 then "" else Spaces(n - 1) + " "
  }

  // ---------------------------------------------------------------- locating placeholders

  function Placeholder(key: string): (p: string)
    ensures |p| == |key| + 6
  {
    "{{ " + key + " }}"
  }

  predicate OccursAt(s: string, pat: string, k: nat)
    requires k <= |s|
  {
    pat <= s[k..]
  }

  /** `s.indexOf(pat, from)` */
  function IndexOf(s: string, pat: string, from: nat): (r: int)
    requires from <= |s|
    ensures r == -1 || (from <= r && r + |pat| <= |s| && OccursAt(s, pat, r))
    ensures forall k :: from <= k <= |s| && (r == -1 || k < r) ==> !OccursAt(s, pat, k)
    decreases |s| - from
  {
    if pat <= s[from..] then from
    else if from == |s| then -1
    else IndexOf(s, pat, from + 1)
  }

  /** No occurrence of `pat` starts in [lo, hi). */
  predicate NoneBetween(s: string, pat: string, lo: nat, hi: nat)
    requires hi <= |s| + 1
  {
    forall k :: lo <= k < hi ==> !OccursAt(s, pat, k)
  }

  /** The starts the search loop of one key finds from `search` on: each
      search resumes after the previous placeholder. */
  function Occurrences(s: string, pat: string, search: nat): (r: seq<nat>)
    requires |pat| > 0 && search <= |s|
    ensures forall i :: 0 <= i < |r| ==> search <= r[i] && r[i] + |pat| <= |s| && OccursAt(s, pat, r[i])
    ensures forall i :: 0 < i < |r| ==> r[i - 1] + |pat| <= r[i]
    decreases |s| - search
  {
    var start := IndexOf(s, pat, search);
    if start == -1 then []
    else [start] + Occurrences(s, pat, start + |pat|)
  }

  /** `r` lists every occurrence of `pat` from `search` on except those
      overlapping an earlier listed one: none starts before the first start,
      in a gap between two listed placeholders, or after the last one. */
  predicate FindsAll(s: string, pat: string, search: nat, r: seq<nat>)
    requires forall i :: 0 <= i < |r| ==> r[i] + |pat| <= |s|
  {
    && NoneBetween(s, pat, search, if |r| == 0 then |s| + 1 else r[0])
    && (forall i :: 0 < i < |r| ==> NoneBetween(s, pat, r[i - 1] + |pat|, r[i]))
    && (|r| > 0 ==> NoneBetween(s, pat, r[|r| - 1] + |pat|, |s| + 1))
  }

  /** The search loop skips no occurrence except those overlapping a
      placeholder it already found. */
  lemma {:induction false} OccurrencesComplete(s: string, pat: string, search: nat)
    requires |pat| > 0 && search <= |s|
    ensures FindsAll(s, pat, search, Occurrences(s, pat, search))
    decreases |s| - search
  {
    var r := Occurrences(s, pat, search);
    var start := IndexOf(s, pat, search);
    if start == -1 {
      assert r == [];
    } else {
      var next := start + |pat|;
      var rest := Occurrences(s, pat, next);
      assert r == [start] + rest;
      OccurrencesComplete(s, pat, next);
      GapsCons(s, pat, search, start, rest, r);
    }
  }

  /** Prepending the first occurrence found from `search` on keeps the list
      complete: the gap before `rest` begins after the placeholder at
      `start`, and the others are those of `rest`. */
  lemma GapsCons(s: string, pat: string, search: nat, start: nat, rest: seq<nat>, r: seq<nat>)
    requires start + |pat| <= |s|
    requires forall i :: 0 <= i < |rest| ==> rest[i] + |pat| <= |s|
    requires r == [start] + rest
    requires NoneBetween(s, pat, search, start)
    requires FindsAll(s, pat, start + |pat|, rest)
    ensures FindsAll(s, pat, search, r)
  {
    forall i | 0 < i < |r| ensures NoneBetween(s, pat, r[i - 1] + |pat|, r[i]) {
      if i == 1 {
        assert r[0] == start && r[1] == rest[0];
      } else {
        assert r[i - 1] == rest[i - 2] && r[i] == rest[i - 1];
      }
    }
    if |rest| > 0 {
      assert r[|r| - 1] == rest[|rest| - 1];
    }
  }

  function PointsFor(starts: seq<nat>, length: nat, v: Value): (ps: seq<Point>)
    ensures |ps| == |starts|
    ensures forall i :: 0 <= i < |starts| ==> ps[i] == Point(starts[i], starts[i] + length, v)
  {
    seq(|starts|, i requires 0 <= i < |starts| => Point(starts[i], starts[i] + length, v))
  }

  /** Every point lies inside a text of length n. */
  predicate Within(ps: seq<Point>, n: nat)
  {
    forall i :: 0 <= i < |ps| ==> ps[i].start <= ps[i].end <= n
  }

  lemma WithinSubset(ps: seq<Point>, qs: seq<Point>, n: nat)
    requires Within(ps, n) && forall q :: q in qs ==> q in ps
    ensures Within(qs, n)
  {
    forall i | 0 <= i < |qs| ensures qs[i].start <= qs[i].end <= n {
      assert qs[i] in ps;
    }
  }

  /** The points the search loop of one key pushes. */
  function KeyPoints(template: string, rep: (string, Value)): seq<Point>
  {
    var pat := Placeholder(rep.0);
    PointsFor(Occurrences(template, pat, 0), |pat|, rep.1)
  }

  /** Every placeholder occurrence of every key, key by key. */
  function CollectPoints(template: string, reps: Replacements): (ps: seq<Point>)
    ensures Within(ps, |template|)
  {
    if |reps| == 0 then []
    else KeyPoints(template, reps[0]) + CollectPoints(template, reps[1..])
  }

  /** A point is collected exactly when the search loop of some key pushes it. */
  lemma {:induction false} CollectedPoints(template: string, reps: Replacements)
    ensures forall q :: q in CollectPoints(template, reps) <==>
      exists k :: 0 <= k < |reps| && q in KeyPoints(template, reps[k])
  {
    if |reps| > 0 {
      CollectedPoints(template, reps[1..]);
      var head, tail := KeyPoints(template, reps[0]), CollectPoints(template, reps[1..]);
      assert CollectPoints(template, reps) == head + tail;
      forall q | q in head + tail ensures exists k :: 0 <= k < |reps| && q in KeyPoints(template, reps[k]) {
        if q !in head {
          var k :| 0 <= k < |reps[1..]| && q in KeyPoints(template, reps[1..][k]);
          assert reps[1..][k] == reps[k + 1];
        }
      }
      forall q, k | 0 <= k < |reps| && q in KeyPoints(template, reps[k]) ensures q in head + tail {
        if k > 0 {
          assert reps[k] == reps[1..][k - 1];
        }
      }
    }
  }

  // ---------------------------------------------------------------- sorting

  predicate SortedByStart(ps: seq<Point>)
  {
    forall i, j :: 0 <= i < j < |ps| ==> ps[i].start <= ps[j].start
  }

  /** Puts `p` before the first point that does not start earlier. */
  function Insert(p: Point, ps: seq<Point>): (r: seq<Point>)
    ensures multiset(r) == multiset(ps) + multiset{p}
    ensures |r| == |ps| + 1
    ensures forall q :: q in r ==> q == p || q in ps
    ensures SortedByStart(ps) ==> SortedByStart(r)
  {
    if |ps| == 0 || p.start <= ps[0].start then [p] + ps
    else
      var rest := Insert(p, ps[1..]);
      assert ps == [ps[0]] + ps[1..];
      InsertSorted(ps[0], rest, ps[1..], p);
      [ps[0]] + rest
  }

  lemma InsertSorted(first: Point, rest: seq<Point>, tail: seq<Point>, p: Point)
    requires first.start < p.start
    requires forall q :: q in rest ==> q == p || q in tail
    requires SortedByStart([first] + tail) ==> SortedByStart(tail) && SortedByStart(rest)
    ensures SortedByStart([first] + tail) ==> SortedByStart([first] + rest)
  {
    if SortedByStart([first] + tail) {
      var r := [first] + rest;
      forall i, j | 0 <= i < j < |r| ensures r[i].start <= r[j].start {
        if i == 0 {
          assert r[j] == rest[j - 1];
          assert r[j] in rest;
          if r[j] != p {
            assert r[j] in tail;
            var k :| 0 <= k < |tail| && tail[k] == r[j];
            assert ([first] + tail)[k + 1] == r[j];
            assert ([first] + tail)[0] == first;
          }
        } else {
          assert r[i] == rest[i - 1] && r[j] == rest[j - 1];
        }
      }
    }
  }

  /** `replacementPoints.sort((a, b) => a.start - b.start)`, a stable sort. */
  function SortByStart(ps: seq<Point>): (r: seq<Point>)
    ensures multiset(r) == multiset(ps)
    ensures forall q :: q in r ==> q in ps
    ensures SortedByStart(r)
  {
    if |ps| == 0 then []
    else
      assert ps == [ps[0]] + ps[1..];
      Insert(ps[0], SortByStart(ps[1..]))
  }

  /** Sorting points that are already in order changes nothing. */
  lemma {:induction false} SortKeepsSorted(ps: seq<Point>)
    requires SortedByStart(ps)
    ensures SortByStart(ps) == ps
  {
    if |ps| > 0 {
      SortKeepsSorted(ps[1..]);
      assert ps == [ps[0]] + ps[1..];
    }
  }

  // ---------------------------------------------------------------- splicing

  /** `template.slice(a, b)` for positions inside the template. */
  function Slice(s: string, a: nat, b: nat): (r: string)
    requires a <= |s| && b <= |s|
    ensures a <= b ==> r == s[a..b]
    ensures a > b ==> r == ""
  {
    if a < b then s[a..b] else ""
  }

  /** How many UTF-16 code units JavaScript's `.length` counts for a
      character: two, a surrogate pair, beyond the Basic Multilingual Plane. */
  function CodeUnits(c: char): nat
  {
    if c as int >= 0x1_0000 then 2 else 1
  }

  /** `s.length` of a JavaScript string: its UTF-16 code units. */
  function Utf16Length(s: string): (n: nat)
    ensures n >= |s|
  {
    if |s| == 0 then 0 else Utf16Length(s[..|s| - 1]) + CodeUnits(s[|s| - 1])
  }

  lemma {:induction false} Utf16LengthConcat(a: string, b: string)
    ensures Utf16Length(a + b) == Utf16Length(a) + Utf16Length(b)
    decreases |b|
  {
    if |b| > 0 {
      var s := a + b;
      assert s[..|s| - 1] == a + b[..|b| - 1] && s[|s| - 1] == b[|b| - 1];
      Utf16LengthConcat(a, b[..|b| - 1]);
    } else {
      assert a + b == a;
    }
  }

  /** The column the next character of `s` would be written at, in the
      code units JavaScript counts: zero after a newline, and each other
      character moves it on by its length. */
  function Column(s: string): nat
  {
    if |s| == 0 || s[|s| - 1] == '\n' then 0 else Column(s[..|s| - 1]) + CodeUnits(s[|s| - 1])
  }

  /** `s.lastIndexOf('\n')`: the code-unit index of the last newline, or -1. */
  function LastNewline(s: string): (k: int)
    ensures k == -1 <==> LastIndexOf(s, '\n') == -1
  {
    var i := LastIndexOf(s, '\n');
    if i == -1 then -1 else Utf16Length(s[..i])
  }

  /** The column is the length of the text after the last newline. */
  lemma ColumnIsTailLength(s: string)
    ensures Column(s) == Utf16Length(s[LastIndexOf(s, '\n') + 1..])
  {
    var i := LastIndexOf(s, '\n');
    var h, t := s[..i + 1], s[i + 1..];
    NoNewlineAfterLast(s);
    assert s == h + t;
    ColumnAfterNewline(h, t);
  }

  /** Nothing after the last newline is a newline. */
  lemma NoNewlineAfterLast(s: string)
    ensures var i := LastIndexOf(s, '\n');
      && '\n' !in s[i + 1..]
      && (i == -1 || s[..i + 1][i] == '\n')
  {
    var i := LastIndexOf(s, '\n');
    var t := s[i + 1..];
    forall k | 0 <= k < |t| ensures t[k] != '\n' {
      assert t[k] == s[i + 1 + k];
    }
  }

  /** Text that starts on a fresh line stands at the column of its own length. */
  lemma ColumnAfterNewline(h: string, t: string)
    requires '\n' !in t
    requires |h| == 0 || h[|h| - 1] == '\n'
    ensures Column(h + t) == Utf16Length(t)
  {
    ColumnConcatPlain(h, t);
  }

  /** What the scan adds for a piece that holds a newline: the code units
      after the last newline are the piece's column. */
  lemma TailAfterNewline(x: string)
    requires LastNewline(x) != -1
    ensures Utf16Length(x) - LastNewline(x) - 1 == Column(x)
  {
    var i := LastIndexOf(x, '\n');
    var h, t := x[..i + 1], x[i + 1..];
    NoNewlineAfterLast(x);
    assert x == h + t;
    ColumnAfterNewline(h, t);
    Utf16LengthConcat(h, t);
    assert h[..|h| - 1] == x[..i];
  }

  /** The output loop: the text before each point, then its value joined
      at the point's column; the text after the last point closes it. */
  function Splice(template: string, ps: seq<Point>, nextChar: nat, output: seq<string>): (out: seq<string>)
    requires nextChar <= |template|
    requires Within(ps, |template|)
    decreases |ps|
  {
    if |ps| == 0 then output + [Slice(template, nextChar, |template|)]
    else
      var p := ps[0];
      var before := output + [Slice(template, nextChar, p.start)];
      var column := Column(Flatten(before));
      Splice(template, ps[1..], p.end, before + [FlattenValue(p.value, "\n" + Spaces(column))])
  }

  function ProcessTemplate(template: string, reps: Replacements): string
  {
    var ps := SortByStart(CollectPoints(template, reps));
    WithinSubset(CollectPoints(template, reps), ps, |template|);
    Flatten(Splice(template, ps, 0, []))
  }

  // ---------------------------------------------------------------- the column scan

  lemma ColumnConcat(a: string, b: string)
    ensures '\n' in b ==> Column(a + b) == Column(b)
    ensures '\n' !in b ==> Column(a + b) == Column(a) + Utf16Length(b)
  {
    if '\n' in b {
      ColumnConcatNewline(a, b);
    } else {
      ColumnConcatPlain(a, b);
    }
  }

  lemma {:induction false} ColumnConcatNewline(a: string, b: string)
    requires '\n' in b
    ensures Column(a + b) == Column(b)
    decreases |b|
  {
    var s := a + b;
    assert s[|s| - 1] == b[|b| - 1];
    if b[|b| - 1] != '\n' {
      assert s[..|s| - 1] == a + b[..|b| - 1];
      assert '\n' in b[..|b| - 1] by {
        var k :| 0 <= k < |b| && b[k] == '\n';
        assert b[..|b| - 1][k] == '\n';
      }
      ColumnConcatNewline(a, b[..|b| - 1]);
    }
  }

  lemma {:induction false} ColumnConcatPlain(a: string, b: string)
    requires '\n' !in b
    ensures Column(a + b) == Column(a) + Utf16Length(b)
    decreases |b|
  {
    var s := a + b;
    if |b| > 0 {
      assert s[|s| - 1] == b[|b| - 1];
      assert s[..|s| - 1] == a + b[..|b| - 1];
      assert '\n' !in b[..|b| - 1] by {
        assert forall k :: 0 <= k < |b| - 1 ==> b[..|b| - 1][k] == b[k];
      }
      ColumnConcatPlain(a, b[..|b| - 1]);
    } else {
      assert s == a;
    }
  }

  /** One step of the backward scan: a piece with a newline settles the
      column; a piece without one adds its length to the column before it. */
  lemma ScanStep(before: seq<string>, x: string)
    ensures LastNewline(x) != -1 ==> Column(Flatten(before + [x])) == Utf16Length(x) - LastNewline(x) - 1
    ensures LastNewline(x) == -1 ==> Column(Flatten(before + [x])) == Column(Flatten(before)) + Utf16Length(x)
  {
    FlattenAppend(before, x);
    ColumnConcat(Flatten(before), x);
    if LastNewline(x) != -1 {
      TailAfterNewline(x);
      assert '\n' in x;
    } else {
      assert '\n' !in x by {
        assert forall k :: 0 <= k < |x| ==> x[k] != '\n';
      }
    }
  }

  /** The backward scan of the output loop: walking back over the output
      pieces, it adds up whole pieces until one holds a newline and then
      adds what follows that newline, all in UTF-16 code units. It
      computes the column of the joined output. */
  method LineLength(output: seq<string>) returns (lineLength: nat)
    ensures lineLength == Column(Flatten(output))
  {
    lineLength := 0;
    var j := |output| - 1;
    assert output[..j + 1] == output;
    while j >= 0
      invariant -1 <= j < |output|
      invariant Column(Flatten(output)) == Column(Flatten(output[..j + 1])) + lineLength
    {
      var lastNewline := LastNewline(output[j]);
      assert output[..j + 1] == output[..j] + [output[j]];
      ScanStep(output[..j], output[j]);
      if lastNewline != -1 {
        assert Column(Flatten(output[..j + 1])) == Utf16Length(output[j]) - lastNewline - 1;
        lineLength := lineLength + Utf16Length(output[j]) - lastNewline - 1;
        return;
      } else {
        lineLength := lineLength + Utf16Length(output[j]);
      }
      j := j - 1;
    }
    assert output[..0] == [];
    assert Column(Flatten(output[..0])) == 0 by {
      assert Flatten<char>([]) == [];
      assert LastIndexOf<char>([], '\n') == -1;
    }
  }

  // ---------------------------------------------------------------- properties

  /** A template without any placeholder of the given keys comes back unchanged. */
  lemma TemplateWithoutPlaceholders(template: string, reps: Replacements)
    requires CollectPoints(template, reps) == []
    ensures ProcessTemplate(template, reps) == template
  {
    var ps := SortByStart(CollectPoints(template, reps));
    assert ps == [];
    assert Splice(template, ps, 0, []) == [] + [Slice(template, 0, |template|)];
    assert Slice(template, 0, |template|) == template;
    assert [] + [template] == [template];
    assert Flatten([template]) == template + Flatten([]);
  }

  /** Which keys leave no point: a key whose placeholder does not occur. */
  lemma {:induction false} NoOccurrenceNoPoints(template: string, reps: Replacements)
    requires forall i :: 0 <= i < |reps| ==> forall k :: 0 <= k <= |template| ==> !OccursAt(template, Placeholder(reps[i].0), k)
    ensures CollectPoints(template, reps) == []
  {
    if |reps| > 0 {
      assert IndexOf(template, Placeholder(reps[0].0), 0) == -1;
      NoOccurrenceNoPoints(template, reps[1..]);
    }
  }

  /** The reference: a plain left-to-right global replacement of `pat` by `text`. */
  function ReplaceAll(s: string, pat: string, text: string): string
    requires |pat| > 0
    decreases |s|
  {
    if pat <= s then text + ReplaceAll(s[|pat|..], pat, text)
    else if |s| == 0 then ""
    else [s[0]] + ReplaceAll(s[1..], pat, text)
  }

  /** Positions without an occurrence are copied through. */
  lemma {:induction false} ReplaceAllSkips(s: string, pat: string, text: string, a: nat, b: nat)
    requires |pat| > 0 && a <= b <= |s|
    requires forall k :: a <= k < b ==> !OccursAt(s, pat, k)
    ensures ReplaceAll(s[a..], pat, text) == s[a..b] + ReplaceAll(s[b..], pat, text)
    decreases b - a
  {
    if a < b {
      assert !OccursAt(s, pat, a);
      ReplaceAllCopies(s[a..], pat, text);
      assert s[a..][1..] == s[a + 1..];
      ReplaceAllSkips(s, pat, text, a + 1, b);
      assert s[a..b] == [s[a]] + s[a + 1..b];
    }
  }

  /** A position without an occurrence is copied. */
  lemma ReplaceAllCopies(t: string, pat: string, text: string)
    requires |pat| > 0 && |t| > 0 && !(pat <= t)
    ensures ReplaceAll(t, pat, text) == [t[0]] + ReplaceAll(t[1..], pat, text)
  {
  }

  /** The points one string-valued key leaves from `search` on. */
  function StringPoints(s: string, pat: string, text: string, search: nat): (ps: seq<Point>)
    requires |pat| > 0 && search <= |s|
    ensures Within(ps, |s|)
  {
    PointsFor(Occurrences(s, pat, search), |pat|, Str(text))
  }

  /** With a single key whose value is a string, the splice loop performs
      exactly the plain global replacement. */
  lemma {:induction false} SpliceIsReplaceAll(s: string, pat: string, text: string, search: nat, output: seq<string>)
    requires |pat| > 0 && search <= |s|
    ensures Flatten(Splice(s, StringPoints(s, pat, text, search), search, output))
         == Flatten(output) + ReplaceAll(s[search..], pat, text)
    decreases |s| - search
  {
    var start := IndexOf(s, pat, search);
    if start == -1 {
      SpliceAfterLast(s, pat, text, search, output);
    } else {
      var next := start + |pat|;
      var after := output + [s[search..start]] + [text];
      SpliceIsReplaceAll(s, pat, text, next, after);
      StringPointsStep(s, pat, text, search, start);
      SpliceAtOccurrence(s, pat, text, search, start, output,
                         StringPoints(s, pat, text, search), StringPoints(s, pat, text, next));
    }
  }

  /** At an occurrence the splice loop copies the text before it, puts in
      the value, and carries on after it. */
  lemma SpliceAtOccurrence(s: string, pat: string, text: string, search: nat, start: nat, output: seq<string>,
                           ps: seq<Point>, rest: seq<Point>)
    requires |pat| > 0 && search <= |s| && IndexOf(s, pat, search) == start && start + |pat| <= |s|
    requires Within(ps, |s|) && Within(rest, |s|)
    requires ps == [Point(start, start + |pat|, Str(text))] + rest
    requires Flatten(Splice(s, rest, start + |pat|, output + [s[search..start]] + [text]))
      == Flatten(output + [s[search..start]] + [text]) + ReplaceAll(s[start + |pat|..], pat, text)
    ensures Flatten(Splice(s, ps, search, output)) == Flatten(output) + ReplaceAll(s[search..], pat, text)
  {
    var next := start + |pat|;
    var after := output + [s[search..start]] + [text];
    assert ps[1..] == rest;
    SpliceStringStep(s, ps, search, output, text);
    var spliced := Splice(s, ps, search, output);
    assert spliced == Splice(s, rest, next, after);
    FlattenTwo(output, s[search..start], text);
    ReplaceAllAt(s, pat, text, search, start);
    Regroup(Flatten(spliced), Flatten(after), ReplaceAll(s[next..], pat, text), Flatten(output), s[search..start], text,
            ReplaceAll(s[search..], pat, text));
  }

  lemma Regroup(whole: string, front: string, back: string, out: string, before: string, text: string, replaced: string)
    requires whole == front + back && front == out + before + text && replaced == before + text + back
    ensures whole == out + replaced
  {
  }

  lemma StringPointsStep(s: string, pat: string, text: string, search: nat, start: nat)
    requires |pat| > 0 && search <= |s| && IndexOf(s, pat, search) == start
    ensures start + |pat| <= |s|
    ensures StringPoints(s, pat, text, search) == [Point(start, start + |pat|, Str(text))] + StringPoints(s, pat, text, start + |pat|)
  {
    OccurrencesStep(s, pat, search, start);
    PointsForCons([start] + Occurrences(s, pat, start + |pat|), |pat|, Str(text));
  }

  lemma OccurrencesStep(s: string, pat: string, search: nat, start: nat)
    requires |pat| > 0 && search <= |s| && IndexOf(s, pat, search) == start
    ensures start + |pat| <= |s|
    ensures Occurrences(s, pat, search) == [start] + Occurrences(s, pat, start + |pat|)
  {
  }

  lemma PointsForCons(starts: seq<nat>, length: nat, v: Value)
    requires |starts| > 0
    ensures PointsFor(starts, length, v) == [Point(starts[0], starts[0] + length, v)] + PointsFor(starts[1..], length, v)
  {
    var ps := PointsFor(starts, length, v);
    assert ps == [ps[0]] + ps[1..];
  }

  /** Past the last occurrence the rest of the template is copied. */
  lemma SpliceAfterLast(s: string, pat: string, text: string, search: nat, output: seq<string>)
    requires |pat| > 0 && search <= |s| && IndexOf(s, pat, search) == -1
    ensures Flatten(Splice(s, StringPoints(s, pat, text, search), search, output))
         == Flatten(output) + ReplaceAll(s[search..], pat, text)
  {
    ReplaceAllSkips(s, pat, text, search, |s|);
    assert ReplaceAll(s[|s|..], pat, text) == "" by {
      assert s[|s|..] == [];
    }
    var ps := StringPoints(s, pat, text, search);
    assert ps == [];
    assert Slice(s, search, |s|) == s[search..];
    assert Splice(s, ps, search, output) == output + [s[search..]];
    FlattenAppend(output, s[search..]);
    assert s[search..|s|] == s[search..];
  }

  /** One step of the splice loop for a string value. */
  lemma SpliceStringStep(s: string, ps: seq<Point>, search: nat, output: seq<string>, text: string)
    requires search <= |s| && Within(ps, |s|) && |ps| > 0
    requires ps[0].value == Str(text) && search <= ps[0].start
    ensures Splice(s, ps, search, output) == Splice(s, ps[1..], ps[0].end, output + [s[search..ps[0].start]] + [text])
  {
  }

  lemma FlattenTwo(output: seq<string>, a: string, b: string)
    ensures Flatten(output + [a] + [b]) == Flatten(output) + a + b
  {
    FlattenAppend(output, a);
    FlattenAppend(output + [a], b);
  }

  /** At the first occurrence from `search` on, the replacement copies the
      text before it and then puts in the value. */
  lemma ReplaceAllAt(s: string, pat: string, text: string, search: nat, start: nat)
    requires |pat| > 0 && search <= start && start + |pat| <= |s|
    requires OccursAt(s, pat, start)
    requires forall k :: search <= k < start ==> !OccursAt(s, pat, k)
    ensures ReplaceAll(s[search..], pat, text) == s[search..start] + text + ReplaceAll(s[start + |pat|..], pat, text)
  {
    ReplaceAllSkips(s, pat, text, search, start);
    assert s[start..][|pat|..] == s[start + |pat|..];
  }

  /** `processTemplate(t, { key: text })` is the global replacement of
      `{{ key }}` by `text`. */
  lemma SingleStringKey(template: string, key: string, text: string)
    ensures ProcessTemplate(template, [(key, Str(text))]) == ReplaceAll(template, Placeholder(key), text)
  {
    var pat := Placeholder(key);
    var ps := SingleKeyPoints(template, key, text);
    SortKeepsSorted(ps);
    SpliceIsReplaceAll(template, pat, text, 0, []);
    assert template[0..] == template;
  }

  /** The points of a single key, already in order. */
  lemma SingleKeyPoints(template: string, key: string, text: string) returns (ps: seq<Point>)
    ensures ps == StringPoints(template, Placeholder(key), text, 0)
    ensures CollectPoints(template, [(key, Str(text))]) == ps
    ensures SortedByStart(ps)
  {
    var pat := Placeholder(key);
    var reps: Replacements := [(key, Str(text))];
    ps := PointsFor(Occurrences(template, pat, 0), |pat|, Str(text));
    assert CollectPoints(template, reps) == ps + CollectPoints(template, reps[1..]);
    assert CollectPoints(template, reps) == ps;
    OccurrencesIncrease(template, pat, 0);
    var occ := Occurrences(template, pat, 0);
    forall i, j | 0 <= i < j < |ps| ensures ps[i].start <= ps[j].start {
      assert ps[i].start == occ[i] && ps[j].start == occ[j];
    }
  }

  predicate Increasing(r: seq<nat>)
  {
    forall i, j :: 0 <= i < j < |r| ==> r[i] < r[j]
  }

  lemma OccurrencesIncrease(s: string, pat: string, search: nat)
    requires |pat| > 0 && search <= |s|
    ensures Increasing(Occurrences(s, pat, search))
  {
    var r := Occurrences(s, pat, search);
    forall i, j | 0 <= i < j < |r| ensures r[i] < r[j] {
      var k := i;
      while k < j
        invariant i <= k <= j && r[i] <= r[k]
        invariant k > i ==> r[i] < r[k]
      {
        assert r[k] + |pat| <= r[k + 1];
        k := k + 1;
      }
    }
  }
}
