/** The Feedback page: how the browser turns the `entry` prop into what it shows. It splits
    the English text into its three headed parts, builds the text handed to speech synthesis,
    shortens the overall comment to its first sentence, and chooses which journal panel,
    which sections and how many tips to show. */
module FeedbackPage {

  import opened Wrappers
  import opened Strings
  import opened Schema
  import Seqs

  const MoodMarker := "Mood:"
  const WhatIDidMarker := "What I did:"
  const ThoughtsPlansMarker := "Thoughts & Plans:"

  /** The result of `parseEnglishJournal`: each part is present or undefined. */
  datatype EnglishSections = EnglishSections(mood: Option<string>, whatIDid: Option<string>, thoughtsPlans: Option<string>)

  const NoSections := EnglishSections(None, None, None)

  /** A part as the parser hands it out: non-empty and without surrounding whitespace. */
  predicate IsField(s: string) {
    s != "" && IsTrimmed(s, IsJsSpace)
  }

  predicate FieldOk(o: Option<string>) {
    o.None? || IsField(o.value)
  }

  /** `s.trim() || undefined`. */
  function NonBlank(s: string): (r: Option<string>)
    ensures r.None? <==> AllIn(s, IsJsSpace)
    ensures FieldOk(r)
  {
    TrimEmpty(s, IsJsSpace);
    TrimEnds(s, IsJsSpace);
    var t := JsTrim(s);
    if t == "" then None else Some(t)
  }

  /** The text begins with heading `h1` and has an `h2` after it and an `h3` after that. */
  ghost predicate HeadingsInOrder(text: string, h1: string, h2: string, h3: string) {
    && StartsWith(text, h1)
    && exists q, t :: |h1| <= q && q + |h2| <= t && OccursAt(text, h2, q) && OccursAt(text, h3, t)
  }

  /** The parsing pattern `^h1\s*(...)\s*h2\s*(...)\s*h3\s*(...)$` with two lazy groups and
      a final greedy one. It matches exactly when the headings occur in order; the first
      `h2` after `h1` and the first `h3` after that delimit the groups; and since the
      whitespace the pattern skips around a group is whitespace `trim` removes anyway, each
      part is the trimmed text between its heading and the next, or undefined when blank. */
  function ParseHeaded(text: string, h1: string, h2: string, h3: string): (r: EnglishSections)
    ensures FieldOk(r.mood) && FieldOk(r.whatIDid) && FieldOk(r.thoughtsPlans)
  {
    if !StartsWith(text, h1) then NoSections
    else
      var q := IndexOf(text, h2, |h1|);
      if q.None? then NoSections else ParseAfter(text, h1, h2, h3, q.value)
  }

  /** The parts once the second heading has been found at `q`. */
  function ParseAfter(text: string, h1: string, h2: string, h3: string, q: nat): (r: EnglishSections)
    requires |h1| <= q && q + |h2| <= |text|
    ensures FieldOk(r.mood) && FieldOk(r.whatIDid) && FieldOk(r.thoughtsPlans)
  {
    var t := IndexOf(text, h3, q + |h2|);
    if t.None? then NoSections else Parts(text, h1, h2, h3, q, t.value)
  }

  /** The three parts, cut at the second heading found at `q` and the third at `t`. */
  function Parts(text: string, h1: string, h2: string, h3: string, q: nat, t: nat): (r: EnglishSections)
    requires |h1| <= q && q + |h2| <= t && t + |h3| <= |text|
    ensures FieldOk(r.mood) && FieldOk(r.whatIDid) && FieldOk(r.thoughtsPlans)
  {
    EnglishSections(NonBlank(text[|h1|..q]), NonBlank(text[q + |h2|..t]), NonBlank(text[t + |h3|..]))
  }

  /** `parseEnglishJournal`: the pattern with the headings `Mood:`, `What I did:` and
      `Thoughts & Plans:`. */
  function ParseEnglishJournal(text: string): (r: EnglishSections)
    ensures FieldOk(r.mood) && FieldOk(r.whatIDid) && FieldOk(r.thoughtsPlans)
  {
    ParseHeaded(text, MoodMarker, WhatIDidMarker, ThoughtsPlansMarker)
  }

  /** The pattern matches only when the headings are in order, so without them every part is
      undefined. */
  lemma ParseNeedsHeadings(text: string, h1: string, h2: string, h3: string)
    ensures ParseHeaded(text, h1, h2, h3) != NoSections ==> HeadingsInOrder(text, h1, h2, h3)
  {
    if StartsWith(text, h1) {
      var q := IndexOf(text, h2, |h1|);
      if q.Some? {
        var t := IndexOf(text, h3, q.value + |h2|);
        if t.Some? {
          IndexOfSpec(text, h2, |h1|);
          IndexOfSpec(text, h3, q.value + |h2|);
          assert OccursAt(text, h2, q.value) && OccursAt(text, h3, t.value);
        }
      }
    }
  }

  /** When the headings are in order, the parts are cut at the first `h2` after `h1` and the
      first `h3` after that. */
  lemma ParseAtFirstHeadings(text: string, h1: string, h2: string, h3: string, q: nat, t: nat)
    requires StartsWith(text, h1)
    requires |h1| <= q && OccursAt(text, h2, q)
    requires forall j :: |h1| <= j < q ==> !OccursAt(text, h2, j)
    requires q + |h2| <= t && OccursAt(text, h3, t)
    requires forall j :: q + |h2| <= j < t ==> !OccursAt(text, h3, j)
    ensures t + |h3| <= |text|
    ensures ParseHeaded(text, h1, h2, h3) == Parts(text, h1, h2, h3, q, t)
  {
    IndexOfFirst(text, h2, |h1|, q);
    IndexOfFirst(text, h3, q + |h2|, t);
    ParseAtIndices(text, h1, h2, h3, q, t);
  }

  lemma ParseAtIndices(text: string, h1: string, h2: string, h3: string, q: nat, t: nat)
    requires StartsWith(text, h1) && IndexOf(text, h2, |h1|) == Some(q) && IndexOf(text, h3, q + |h2|) == Some(t)
    ensures t + |h3| <= |text|
    ensures ParseHeaded(text, h1, h2, h3) == Parts(text, h1, h2, h3, q, t)
  {
    ParseReachesAfter(text, h1, h2, h3, q);
    ParseAfterAt(text, h1, h2, h3, q, t);
  }

  lemma ParseReachesAfter(text: string, h1: string, h2: string, h3: string, q: nat)
    requires StartsWith(text, h1) && IndexOf(text, h2, |h1|) == Some(q)
    ensures q + |h2| <= |text| && ParseHeaded(text, h1, h2, h3) == ParseAfter(text, h1, h2, h3, q)
  {
  }

  lemma ParseAfterAt(text: string, h1: string, h2: string, h3: string, q: nat, t: nat)
    requires |h1| <= q && q + |h2| <= |text| && IndexOf(text, h3, q + |h2|) == Some(t)
    ensures q + |h2| <= t && t + |h3| <= |text|
    ensures ParseAfter(text, h1, h2, h3, q) == Parts(text, h1, h2, h3, q, t)
  {
  }

  /** The layout the parser is written for: each heading, a space, the part, a line break. */
  function Layout(h1: string, a: string, h2: string, b: string, h3: string, c: string): string {
    h1 + " " + a + "\n" + h2 + " " + b + "\n" + h3 + " " + c
  }

  function FormatEnglishJournal(mood: string, whatIDid: string, thoughtsPlans: string): string {
    Layout(MoodMarker, mood, WhatIDidMarker, whatIDid, ThoughtsPlansMarker, thoughtsPlans)
  }

  /** A heading that cannot overlap the padding around a part. */
  predicate HeadingOk(h: string) {
    h != [] && h[0] != ' ' && forall k :: 0 <= k < |h| ==> h[k] != '\n'
  }

  /** In `x + " " + a + "\n" + p ...` the first `p` at or after `|x|` is the one after the
      line break, when `a` does not contain `p`. */
  lemma MarkerFirstAt(s: string, x: string, a: string, p: string)
    requires x + " " + a + "\n" + p <= s
    requires HeadingOk(p) && !Contains(a, p)
    ensures IndexOf(s, p, |x|) == Some(|x| + |a| + 2)
  {
    var u := x + " " + a + "\n" + p;
    var q := |x| + |a| + 2;
    assert forall k :: 0 <= k < |u| ==> s[k] == u[k];
    assert s[q..q + |p|] == p by {
      forall k | 0 <= k < |p| ensures s[q + k] == p[k] {
        assert u[q + k] == p[k];
      }
    }
    forall j | |x| <= j < q ensures !OccursAt(s, p, j) {
      if j == |x| {
        assert s[j] == ' ';
      } else if j + |p| <= |x| + 1 + |a| {
        var m := j - |x| - 1;
        assert !OccursAt(a, p, m);
        var w, v := s[j..j + |p|], a[m..m + |p|];
        assert w == v by {
          forall k | 0 <= k < |p| ensures w[k] == v[k] {
            assert u[j + k] == a[m + k];
          }
        }
      } else if j + |p| <= |s| {
        var n := |x| + 1 + |a| - j;
        assert s[j + n] == u[|x| + 1 + |a|] == '\n';
        assert s[j..j + |p|][n] != p[n];
      }
    }
    IndexOfFirst(s, p, |x|, q);
  }

  /** A laid-out journal begins with its first heading, its first part and its second
      heading, and then its second part and its third heading. */
  lemma LayoutPrefixes(h1: string, a: string, h2: string, b: string, h3: string, c: string)
    ensures h1 + " " + a + "\n" + h2 <= Layout(h1, a, h2, b, h3, c)
    ensures h1 + " " + a + "\n" + h2 + " " + b + "\n" + h3 <= Layout(h1, a, h2, b, h3, c)
  {
  }

  /** Where the parser finds the second heading of a text laid out this way. */
  lemma SecondHeadingAt(s: string, h1: string, a: string, h2: string)
    requires h1 + " " + a + "\n" + h2 <= s
    requires HeadingOk(h2) && !Contains(a, h2)
    ensures IndexOf(s, h2, |h1|) == Some(|h1| + |a| + 2)
  {
    MarkerFirstAt(s, h1, a, h2);
  }

  /** Where the parser finds the third heading of a text laid out this way. */
  lemma ThirdHeadingAt(s: string, h1: string, a: string, h2: string, b: string, h3: string)
    requires h1 + " " + a + "\n" + h2 + " " + b + "\n" + h3 <= s
    requires HeadingOk(h3) && !Contains(b, h3)
    ensures IndexOf(s, h3, |h1| + |a| + 2 + |h2|) == Some(|h1| + |a| + |h2| + |b| + 4)
  {
    var x := h1 + " " + a + "\n" + h2;
    assert |x| == |h1| + |a| + 2 + |h2|;
    MarkerFirstAt(s, x, b, h3);
  }

  /** The text between the headings of a laid-out journal is each part with its padding. */
  lemma LayoutParts(h1: string, a: string, h2: string, b: string, h3: string, c: string)
    ensures StartsWith(Layout(h1, a, h2, b, h3, c), h1)
    ensures Layout(h1, a, h2, b, h3, c)[|h1|..|h1| + |a| + 2] == " " + a + "\n"
    ensures Layout(h1, a, h2, b, h3, c)[|h1| + |a| + 2 + |h2|..|h1| + |a| + |h2| + |b| + 4] == " " + b + "\n"
    ensures Layout(h1, a, h2, b, h3, c)[|h1| + |a| + |h2| + |b| + 4 + |h3|..] == " " + c + ""
  {
  }

  /** Round trip for any headings that cannot overlap the padding: the parser recovers the
      three parts, provided the first part does not contain the second heading and the second
      part does not contain the third. */
  lemma ParseLayout(h1: string, a: string, h2: string, b: string, h3: string, c: string)
    requires HeadingOk(h2) && HeadingOk(h3) && !Contains(a, h2) && !Contains(b, h3)
    requires IsField(a) && IsField(b) && IsField(c)
    ensures ParseHeaded(Layout(h1, a, h2, b, h3, c), h1, h2, h3) == EnglishSections(Some(a), Some(b), Some(c))
  {
    var s := Layout(h1, a, h2, b, h3, c);
    LayoutPrefixes(h1, a, h2, b, h3, c);
    SecondHeadingAt(s, h1, a, h2);
    ThirdHeadingAt(s, h1, a, h2, b, h3);
    ParseAtIndices(s, h1, h2, h3, |h1| + |a| + 2, |h1| + |a| + |h2| + |b| + 4);
    LayoutCut(h1, a, h2, b, h3, c);
  }

  /** Cut at its headings, the layout gives back its three parts. */
  lemma LayoutCut(h1: string, a: string, h2: string, b: string, h3: string, c: string)
    requires IsField(a) && IsField(b) && IsField(c)
    ensures Parts(Layout(h1, a, h2, b, h3, c), h1, h2, h3, |h1| + |a| + 2, |h1| + |a| + |h2| + |b| + 4) ==
      EnglishSections(Some(a), Some(b), Some(c))
  {
    LayoutParts(h1, a, h2, b, h3, c);
    NonBlankPadded(" ", a, "\n");
    NonBlankPadded(" ", b, "\n");
    NonBlankPadded(" ", c, "");
  }

  /** A part surrounded by whitespace is recovered whole. */
  lemma NonBlankPadded(pre: string, m: string, post: string)
    requires AllIn(pre, IsJsSpace) && AllIn(post, IsJsSpace) && IsField(m)
    ensures NonBlank(pre + m + post) == Some(m)
  {
    TrimPadded(pre, m, post, IsJsSpace);
  }

  /** Round trip: the parser recovers the three parts of a journal laid out with the
      headings, provided the mood does not itself contain `What I did:` and what was done
      does not contain `Thoughts & Plans:`. */
  lemma ParseFormatted(mood: string, whatIDid: string, thoughtsPlans: string)
    requires IsField(mood) && IsField(whatIDid) && IsField(thoughtsPlans)
    requires !Contains(mood, WhatIDidMarker) && !Contains(whatIDid, ThoughtsPlansMarker)
    ensures ParseEnglishJournal(FormatEnglishJournal(mood, whatIDid, thoughtsPlans)) ==
      EnglishSections(Some(mood), Some(whatIDid), Some(thoughtsPlans))
  {
    assert HeadingOk(WhatIDidMarker) && HeadingOk(ThoughtsPlansMarker);
    ParseLayout(MoodMarker, mood, WhatIDidMarker, whatIDid, ThoughtsPlansMarker, thoughtsPlans);
  }

  /** `Boolean(x)` of an optional string: present and non-empty. */
  predicate Truthy(o: Option<string>) {
    o.Some? && o.value != ""
  }

  /** `hasParsedEnglishSections`. */
  predicate HasParsedSections(p: EnglishSections) {
    Truthy(p.mood) || Truthy(p.whatIDid) || Truthy(p.thoughtsPlans)
  }

  /** A parse result has a part exactly when it is not the empty result. */
  lemma ParsedSectionsPresent(text: string)
    ensures HasParsedSections(ParseEnglishJournal(text)) <==> ParseEnglishJournal(text) != NoSections
  {
  }

  /** The parts `buildTtsText` pushes, in order. */
  function PresentParts(p: EnglishSections): seq<string> {
    (if Truthy(p.mood) then [p.mood.value] else [])
    + (if Truthy(p.whatIDid) then [p.whatIDid.value] else [])
    + (if Truthy(p.thoughtsPlans) then [p.thoughtsPlans.value] else [])
  }

  /** `buildTtsText`: the parts joined by spaces, or the English text when no part exists. */
  function BuildTtsText(englishText: Option<string>, p: EnglishSections): string {
    var parts := PresentParts(p);
    if |parts| > 0 then Join(parts, " ") else englishText.GetOr("")
  }

  /** `buildTtsText` as the page runs it: each present part is pushed onto a list, in order;
      a non-empty list is joined by spaces, an empty one gives way to the English text. */
  method BuildTts(englishText: Option<string>, p: EnglishSections) returns (text: string)
    ensures text == BuildTtsText(englishText, p)
  {
    var parts: seq<string> := [];
    if Truthy(p.mood) {
      parts := parts + [p.mood.value];
    }
    if Truthy(p.whatIDid) {
      parts := parts + [p.whatIDid.value];
    }
    if Truthy(p.thoughtsPlans) {
      parts := parts + [p.thoughtsPlans.value];
    }
    assert parts == PresentParts(p);
    if |parts| > 0 {
      return Join(parts, " ");
    }
    return englishText.GetOr("");
  }

  /** When the English text does not have the headed layout, the text read aloud is the
      English text itself. */
  lemma TtsOfUnparsed(text: string)
    requires !HeadingsInOrder(text, MoodMarker, WhatIDidMarker, ThoughtsPlansMarker)
    ensures BuildTtsText(Some(text), ParseEnglishJournal(text)) == text
  {
    ParseNeedsHeadings(text, MoodMarker, WhatIDidMarker, ThoughtsPlansMarker);
  }

  /** A journal in the headed layout is read aloud as its three parts separated by single
      spaces, without the headings. */
  lemma TtsOfFormatted(mood: string, whatIDid: string, thoughtsPlans: string)
    requires IsField(mood) && IsField(whatIDid) && IsField(thoughtsPlans)
    requires !Contains(mood, WhatIDidMarker) && !Contains(whatIDid, ThoughtsPlansMarker)
    ensures BuildTtsText(Some(FormatEnglishJournal(mood, whatIDid, thoughtsPlans)),
                         ParseEnglishJournal(FormatEnglishJournal(mood, whatIDid, thoughtsPlans)))
      == mood + " " + whatIDid + " " + thoughtsPlans
  {
    ParseFormatted(mood, whatIDid, thoughtsPlans);
    TtsOfParts(Some(FormatEnglishJournal(mood, whatIDid, thoughtsPlans)), mood, whatIDid, thoughtsPlans);
  }

  /** With all three parts present the text read aloud is the parts joined by spaces,
      whatever the English text. */
  lemma TtsOfParts(englishText: Option<string>, mood: string, whatIDid: string, thoughtsPlans: string)
    requires mood != "" && whatIDid != "" && thoughtsPlans != ""
    ensures BuildTtsText(englishText, EnglishSections(Some(mood), Some(whatIDid), Some(thoughtsPlans)))
      == mood + " " + whatIDid + " " + thoughtsPlans
  {
    var p := EnglishSections(Some(mood), Some(whatIDid), Some(thoughtsPlans));
    assert PresentParts(p) == [mood, whatIDid, thoughtsPlans];
    assert Join([whatIDid, thoughtsPlans], " ") == whatIDid + " " + thoughtsPlans;
  }

  // ---------------------------------------------------------------------------------------
  // `getFirstSentence`

  /** The sentence terminators of the pattern: `.`, `!`, `?` and their full-width forms. */
  predicate IsTerminator(c: char) {
    c == '.' || c == '!' || c == '?' || c == '\U{3002}' || c == '\U{FF01}' || c == '\U{FF1F}'
  }

  /** The first position at or after `from` that holds a non-terminator, or `|t|`. */
  function SkipTerminators(t: string, from: nat): (i: nat)
    requires from <= |t|
    decreases |t| - from
    ensures from <= i <= |t|
    ensures forall k :: from <= k < i ==> IsTerminator(t[k])
    ensures i < |t| ==> !IsTerminator(t[i])
  {
    if from == |t| || !IsTerminator(t[from]) then from else SkipTerminators(t, from + 1)
  }

  /** The first position at or after `from` that holds a terminator, or `|t|`. */
  function RunEnd(t: string, from: nat): (e: nat)
    requires from <= |t|
    decreases |t| - from
    ensures from <= e <= |t|
    ensures forall k :: from <= k < e ==> !IsTerminator(t[k])
    ensures e < |t| ==> IsTerminator(t[e])
  {
    if from == |t| || IsTerminator(t[from]) then from else RunEnd(t, from + 1)
  }

  /** `getFirstSentence`: after trimming, the leftmost match of one or more non-terminators
      followed by at most one terminator, trimmed; the trimmed text itself when it holds only
      terminators; "" for a blank text. */
  function GetFirstSentence(text: string): (r: string)
    ensures |r| <= |JsTrim(text)|
  {
    var t := JsTrim(text);
    if t == "" then ""
    else
      var i := SkipTerminators(t, 0);
      if i == |t| then t
      else
        var e := RunEnd(t, i);
        var stop := if e < |t| then e + 1 else e;
        JsTrim(t[i..stop])
  }

  /** The first sentence is empty exactly when the text is blank. */
  lemma FirstSentenceEmpty(text: string)
    ensures GetFirstSentence(text) == "" <==> AllIn(text, IsJsSpace)
  {
    var t := JsTrim(text);
    TrimEmpty(text, IsJsSpace);
    if t != "" {
      TrimEnds(text, IsJsSpace);
      var i := SkipTerminators(t, 0);
      if i < |t| {
        var e := RunEnd(t, i);
        var stop := if e < |t| then e + 1 else e;
        var piece := t[i..stop];
        assert !IsJsSpace(piece[stop - 1 - i]);
        TrimEmpty(piece, IsJsSpace);
      }
    }
  }

  /** When the trimmed text holds a non-terminator, the match runs from the first
      non-terminator `i` up to and including the first terminator after it, or to the end
      (`stop`); the result is that match trimmed, a piece of the text that starts at `k`
      inside the match and holds no terminator except possibly its last character. */
  lemma FirstSentenceShape(text: string) returns (i: nat, stop: nat, k: nat)
    requires exists m :: 0 <= m < |JsTrim(text)| && !IsTerminator(JsTrim(text)[m])
    ensures i < stop <= |JsTrim(text)|
    ensures forall m :: 0 <= m < i ==> IsTerminator(JsTrim(text)[m])
    ensures !IsTerminator(JsTrim(text)[i])
    ensures forall m :: i <= m < stop - 1 ==> !IsTerminator(JsTrim(text)[m])
    ensures stop == |JsTrim(text)| || IsTerminator(JsTrim(text)[stop - 1])
    ensures GetFirstSentence(text) == JsTrim(JsTrim(text)[i..stop])
    ensures i <= k && k + |GetFirstSentence(text)| <= stop
    ensures GetFirstSentence(text) == JsTrim(text)[k..k + |GetFirstSentence(text)|]
    ensures IsTrimmed(GetFirstSentence(text), IsJsSpace)
    ensures forall m :: 0 <= m < |GetFirstSentence(text)| - 1 ==> !IsTerminator(GetFirstSentence(text)[m])
  {
    i, stop := FirstMatch(text);
    k := TrimmedPiece(JsTrim(text), i, stop);
  }

  /** Trimming a run of non-terminators closed by at most one terminator and preceded only by
      terminators gives a piece of the text with the same properties. */
  lemma TrimmedPiece(t: string, i: nat, stop: nat) returns (k: nat)
    requires i < stop <= |t|
    requires forall m :: 0 <= m < i ==> IsTerminator(t[m])
    requires forall m :: i <= m < stop - 1 ==> !IsTerminator(t[m])
    ensures k + |JsTrim(t[i..stop])| <= |t| && JsTrim(t[i..stop]) == t[k..k + |JsTrim(t[i..stop])|]
    ensures IsTrimmed(JsTrim(t[i..stop]), IsJsSpace)
    ensures forall m :: 0 <= m < |JsTrim(t[i..stop])| - 1 ==> !IsTerminator(JsTrim(t[i..stop])[m])
    ensures i <= k && k + |JsTrim(t[i..stop])| <= stop
  {
    var piece := t[i..stop];
    var r := JsTrim(piece);
    var d := TrimSlice(piece, IsJsSpace);
    TrimEnds(piece, IsJsSpace);
    k := i + d;
    var w, v := piece[d..d + |r|], t[k..k + |r|];
    assert r == w;
    assert w == v by {
      forall j | 0 <= j < |r| ensures w[j] == v[j] {
        assert w[j] == piece[d + j];
        assert piece[d + j] == t[i + d + j];
        assert v[j] == t[k + j];
      }
    }
    forall m | 0 <= m < |r| - 1 ensures !IsTerminator(r[m]) {
      assert r[m] == t[k + m];
      assert i <= k + m < stop - 1;
    }
  }

  /** Where the match of the pattern starts and stops: at the first non-terminator, and
      just after the first terminator that follows it, or at the end. */
  lemma FirstMatch(text: string) returns (i: nat, stop: nat)
    requires exists m :: 0 <= m < |JsTrim(text)| && !IsTerminator(JsTrim(text)[m])
    ensures i < stop <= |JsTrim(text)|
    ensures GetFirstSentence(text) == JsTrim(JsTrim(text)[i..stop])
    ensures forall m :: 0 <= m < i ==> IsTerminator(JsTrim(text)[m])
    ensures !IsTerminator(JsTrim(text)[i])
    ensures forall m :: i <= m < stop - 1 ==> !IsTerminator(JsTrim(text)[m])
    ensures stop == |JsTrim(text)| || IsTerminator(JsTrim(text)[stop - 1])
  {
    var t := JsTrim(text);
    var m :| 0 <= m < |t| && !IsTerminator(t[m]);
    i := SkipTerminators(t, 0);
    assert i <= m;
    var e := RunEnd(t, i);
    stop := if e < |t| then e + 1 else e;
  }

  /** A text made only of terminators is returned trimmed but otherwise whole. */
  lemma FirstSentenceAllTerminators(text: string)
    requires forall m :: 0 <= m < |JsTrim(text)| ==> IsTerminator(JsTrim(text)[m])
    ensures GetFirstSentence(text) == JsTrim(text)
  {
  }

  // ---------------------------------------------------------------------------------------
  // Messages

  const SkippedJournalMessage :=
    "今回はとても短い日記だったので、英語フィードバックは生成していません。元の日記の内容だけを表示します。"
  const ErrorJournalMessage :=
    "英語フィードバックの生成に失敗しました。通信状況や時間をおいて、もう一度お試しください。"
  const NoFeedbackMessage := "まだフィードバックはありません。"

  /** `journalMessage`: a notice for a skipped or failed generation, none when `ok`. */
  function JournalMessage(status: FeedbackStatus): (r: Option<string>)
    ensures r.None? <==> status == Ok
  {
    match status
    case SkippedShort => Some(SkippedJournalMessage)
    case Error => Some(ErrorJournalMessage)
    case Ok => None
  }

  /** `feedback?.feedback_overall` as an option. */
  function OverallOf(feedback: Option<FeedbackData>): Option<string> {
    if feedback.Some? then feedback.value.feedbackOverall else None
  }

  /** `summarySource`: the overall comment when it is not null, otherwise the status notice,
      otherwise the "no feedback yet" text. */
  function SummarySource(status: FeedbackStatus, feedback: Option<FeedbackData>): string {
    match OverallOf(feedback)
    case Some(overall) => overall
    case None => JournalMessage(status).GetOr(NoFeedbackMessage)
  }

  /** `summaryMessage`: the first sentence of the overall comment when the status is `ok` and
      the comment is non-empty, otherwise the source unchanged. */
  function SummaryMessage(status: FeedbackStatus, feedback: Option<FeedbackData>): string {
    var source := SummarySource(status, feedback);
    if status == Ok && Truthy(OverallOf(feedback)) then GetFirstSentence(source) else source
  }

  /** What the summary shows, case by case. */
  lemma SummaryCases(status: FeedbackStatus, feedback: Option<FeedbackData>)
    ensures OverallOf(feedback).None? && status == SkippedShort ==> SummaryMessage(status, feedback) == SkippedJournalMessage
    ensures OverallOf(feedback).None? && status == Error ==> SummaryMessage(status, feedback) == ErrorJournalMessage
    ensures OverallOf(feedback).None? && status == Ok ==> SummaryMessage(status, feedback) == NoFeedbackMessage
    ensures OverallOf(feedback).Some? && status != Ok ==> SummaryMessage(status, feedback) == OverallOf(feedback).value
    ensures OverallOf(feedback).Some? && status == Ok ==> SummaryMessage(status, feedback) == GetFirstSentence(OverallOf(feedback).value)
  {
    if OverallOf(feedback) == Some("") {
      assert JsTrim("") == "";
    }
  }

  /** The summary is blank only when there is an overall comment and it is blank. */
  lemma SummaryNonEmpty(status: FeedbackStatus, feedback: Option<FeedbackData>)
    ensures SummaryMessage(status, feedback) == "" ==>
      OverallOf(feedback).Some? && AllIn(OverallOf(feedback).value, IsJsSpace)
  {
    SummaryCases(status, feedback);
    if OverallOf(feedback).Some? && status == Ok {
      FirstSentenceEmpty(OverallOf(feedback).value);
    }
  }

  /** `hasEnglishFeedback`. */
  predicate HasEnglishFeedback(status: FeedbackStatus, feedback: Option<FeedbackData>) {
    status == Ok && feedback.Some? && Truthy(feedback.value.englishText)
  }

  /** `hasKeyPhrase`. */
  predicate HasKeyPhrase(status: FeedbackStatus, feedback: Option<FeedbackData>) {
    status == Ok && feedback.Some? && Truthy(feedback.value.keyPhraseEn)
  }

  // ---------------------------------------------------------------------------------------
  // Sections and tips

  /** One element of `entry.sections` as the page declares it. */
  datatype PageSection = PageSection(name: string, labelEn: Option<string>, labelJa: Option<string>, text: string)

  datatype DisplaySection = DisplaySection(id: string, caption: string, text: string)

  /** `section.text.trim().length > 0`. */
  predicate HasVisibleText(d: DisplaySection) {
    JsTrim(d.text) != ""
  }

  /** `englishJournalSections`: the three parts with fixed ids and labels, blank ones dropped. */
  function EnglishDisplaySections(p: EnglishSections): seq<DisplaySection> {
    Seqs.Filter([
      DisplaySection("mood", "Mood", p.mood.GetOr("")),
      DisplaySection("what-i-did", "What I did", p.whatIDid.GetOr("")),
      DisplaySection("thoughts-plans", "Thoughts & Plans", p.thoughtsPlans.GetOr(""))], HasVisibleText)
  }

  /** A part the parser returns is kept, one the parser leaves out is dropped, and the order
      is mood, what I did, thoughts and plans. */
  lemma EnglishDisplayOf(p: EnglishSections)
    requires FieldOk(p.mood) && FieldOk(p.whatIDid) && FieldOk(p.thoughtsPlans)
    ensures EnglishDisplaySections(p) ==
      (if p.mood.Some? then [DisplaySection("mood", "Mood", p.mood.value)] else [])
      + (if p.whatIDid.Some? then [DisplaySection("what-i-did", "What I did", p.whatIDid.value)] else [])
      + (if p.thoughtsPlans.Some? then [DisplaySection("thoughts-plans", "Thoughts & Plans", p.thoughtsPlans.value)] else [])
    ensures EnglishDisplaySections(p) != [] <==> HasParsedSections(p)
  {
    var a := DisplaySection("mood", "Mood", p.mood.GetOr(""));
    var b := DisplaySection("what-i-did", "What I did", p.whatIDid.GetOr(""));
    var c := DisplaySection("thoughts-plans", "Thoughts & Plans", p.thoughtsPlans.GetOr(""));
    VisibleField(p.mood);
    VisibleField(p.whatIDid);
    VisibleField(p.thoughtsPlans);
    Seqs.FilterTriple(a, b, c, HasVisibleText);
  }

  /** A part the parser returns is visible; a missing one is the blank default. */
  lemma VisibleField(o: Option<string>)
    requires FieldOk(o)
    ensures (JsTrim(o.GetOr("")) != "") <==> o.Some?
  {
    if o.Some? {
      TrimEmpty(o.value, IsJsSpace);
    } else {
      assert JsTrim("") == "";
    }
  }

  /** `label: section.labelEn ?? section.labelJa ?? section.name`. */
  function LabelOf(s: PageSection): string {
    s.labelEn.GetOr(s.labelJa.GetOr(s.name))
  }

  function ToDisplay(s: PageSection): DisplaySection {
    DisplaySection(s.name, LabelOf(s), s.text)
  }

  /** `fallbackJournalSections`: the original sections with their labels, blank ones dropped. */
  function FallbackSections(sections: seq<PageSection>): seq<DisplaySection> {
    Seqs.Filter(Seqs.Map(sections, ToDisplay), HasVisibleText)
  }

  /** The fallback list works section by section and keeps their order. */
  lemma FallbackSectionsConcat(a: seq<PageSection>, b: seq<PageSection>)
    ensures FallbackSections(a + b) == FallbackSections(a) + FallbackSections(b)
  {
    Seqs.MapConcat(a, b, ToDisplay);
    Seqs.FilterConcat(Seqs.Map(a, ToDisplay), Seqs.Map(b, ToDisplay), HasVisibleText);
  }

  /** A section is shown, under its English label, else its Japanese label, else its name,
      exactly when its text is not blank. */
  lemma FallbackSectionsSingle(s: PageSection)
    ensures FallbackSections([s]) ==
      if AllIn(s.text, IsJsSpace) then [] else [DisplaySection(s.name, LabelOf(s), s.text)]
  {
    TrimEmpty(s.text, IsJsSpace);
    assert Seqs.Map([s], ToDisplay) == [ToDisplay(s)];
    Seqs.FilterSingle(ToDisplay(s), HasVisibleText);
  }

  /** A stored section as the page should read it: a null or missing text counts as empty
      (`section.text ?? ""`), and a missing name as an empty id. */
  function PageSectionOf(s: SectionInput): PageSection {
    PageSection(s.name.GetOr(""), s.labelEn, s.labelJa, s.text.GetOr(""))
  }

  /** `fallbackJournalSections` as written, on the sections the server sends: the filter
      calls `trim` on every text, which throws when a text is null or missing, and the page
      computes this list on every render. `None` stands for that exception. */
  function FallbackSectionsAsWritten(sections: seq<SectionInput>): Option<seq<DisplaySection>> {
    if forall k :: 0 <= k < |sections| ==> sections[k].text.Some? then
      Some(FallbackSections(Seqs.Map(sections, PageSectionOf)))
    else None
  }

  /** Read with a null text as empty, a stored section is shown, under its English label,
      else its Japanese label, else its name, exactly when it has a text and that text is
      not blank. */
  lemma StoredFallbackSingle(s: SectionInput)
    ensures FallbackSections([PageSectionOf(s)]) ==
      if s.text.None? || AllIn(s.text.value, IsJsSpace) then []
      else [DisplaySection(s.name.GetOr(""), s.labelEn.GetOr(s.labelJa.GetOr(s.name.GetOr(""))), s.text.value)]
  {
    FallbackSectionsSingle(PageSectionOf(s));
  }

  /** Read with a null text as empty, the stored sections shown are exactly those with a
      text that is not blank, in their stored order. */
  lemma {:induction false} StoredFallbackSections(sections: seq<SectionInput>)
    ensures FallbackSections(Seqs.Map(sections, PageSectionOf)) ==
      Seqs.Map(Seqs.Filter(sections, HasStoredText), StoredDisplay)
  {
    if sections != [] {
      var head := if HasStoredText(sections[0]) then [sections[0]] else [];
      var rest := Seqs.Filter(sections[1..], HasStoredText);
      assert Seqs.Filter(sections, HasStoredText) == head + rest;
      StoredFallbackCons(sections);
      StoredFallbackSingle(sections[0]);
      assert FallbackSections([PageSectionOf(sections[0])]) == Seqs.Map(head, StoredDisplay);
      StoredFallbackSections(sections[1..]);
      Seqs.MapConcat(head, rest, StoredDisplay);
    }
  }

  /** The original sections of a non-empty list are those of its first section followed by
      those of the rest. */
  lemma StoredFallbackCons(sections: seq<SectionInput>)
    requires sections != []
    ensures FallbackSections(Seqs.Map(sections, PageSectionOf)) ==
      FallbackSections([PageSectionOf(sections[0])]) + FallbackSections(Seqs.Map(sections[1..], PageSectionOf))
  {
    assert Seqs.Map(sections, PageSectionOf) == [PageSectionOf(sections[0])] + Seqs.Map(sections[1..], PageSectionOf);
    FallbackSectionsConcat([PageSectionOf(sections[0])], Seqs.Map(sections[1..], PageSectionOf));
  }

  /** A stored section with a text that `trim` does not empty. */
  predicate HasStoredText(s: SectionInput) {
    s.text.Some? && !AllIn(s.text.value, IsJsSpace)
  }

  /** How a stored section with text appears among the original sections. */
  function StoredDisplay(s: SectionInput): DisplaySection {
    DisplaySection(s.name.GetOr(""), s.labelEn.GetOr(s.labelJa.GetOr(s.name.GetOr(""))), s.text.GetOr(""))
  }

  /** `visibleCorrections`: all tips, or the first two until the toggle is used. */
  function VisibleCorrections(corrections: seq<Correction>, showAll: bool): seq<Correction> {
    if showAll then corrections else Seqs.Take(corrections, 2)
  }

  /** `shouldShowToggle`. */
  predicate ShouldShowToggle(corrections: seq<Correction>) {
    |corrections| > 2
  }

  /** The collapsed list is the first tips, at most two of them, and the toggle is offered
      exactly when the collapsed list hides some tip. */
  lemma ToggleHidesTips(corrections: seq<Correction>)
    ensures VisibleCorrections(corrections, false) <= corrections
    ensures |VisibleCorrections(corrections, false)| == if |corrections| < 2 then |corrections| else 2
    ensures ShouldShowToggle(corrections) <==> VisibleCorrections(corrections, false) != corrections
    ensures VisibleCorrections(corrections, true) == corrections
  {
  }

  /** What the journal panel of the page holds. */
  datatype JournalPanel =
    | EnglishPartsPanel(parts: seq<DisplaySection>)
    | EnglishTextPanel(text: string)
    | EmptyPanel
    | OriginalPanel(sections: seq<DisplaySection>)

  /** The journal panel: with English feedback, the parsed parts when there are any and the
      whole English text otherwise; without it, the original sections. */
  function PanelOf(status: FeedbackStatus, feedback: Option<FeedbackData>, sections: seq<PageSection>): JournalPanel {
    var englishText := if feedback.Some? then feedback.value.englishText.GetOr("") else "";
    var parsed := ParseEnglishJournal(englishText);
    if HasEnglishFeedback(status, feedback) then
      if HasParsedSections(parsed) then EnglishPartsPanel(EnglishDisplaySections(parsed))
      else if englishText != "" then EnglishTextPanel(englishText)
      else EmptyPanel
    else OriginalPanel(FallbackSections(sections))
  }

  /** With English feedback the panel is never empty: it shows parsed parts, or else the
      English text; without it, it shows the original sections. */
  lemma PanelCases(status: FeedbackStatus, feedback: Option<FeedbackData>, sections: seq<PageSection>)
    ensures HasEnglishFeedback(status, feedback) ==> !PanelOf(status, feedback, sections).EmptyPanel?
    ensures HasEnglishFeedback(status, feedback) && !HeadingsInOrder(feedback.value.englishText.value, MoodMarker, WhatIDidMarker, ThoughtsPlansMarker) ==>
      PanelOf(status, feedback, sections) == EnglishTextPanel(feedback.value.englishText.value)
    ensures PanelOf(status, feedback, sections).EnglishPartsPanel? ==> PanelOf(status, feedback, sections).parts != []
    ensures !HasEnglishFeedback(status, feedback) ==> PanelOf(status, feedback, sections) == OriginalPanel(FallbackSections(sections))
  {
    if HasEnglishFeedback(status, feedback) {
      ParseNeedsHeadings(feedback.value.englishText.value, MoodMarker, WhatIDidMarker, ThoughtsPlansMarker);
      EnglishDisplayOf(ParseEnglishJournal(feedback.value.englishText.value));
    }
  }
}
