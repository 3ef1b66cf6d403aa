/** The paragraph classifier: what each forward scan of the processor
    extracts from the paragraph sequence (title, authors, abstract, body and
    references).

    For every scan there are two definitions. The `...Scan` function follows
    the source loop step by step (mode flag, accumulator, early exit) and is
    what the processor's loops are proved against. The `...Spec` function
    says what the result is in terms of marker lines: the lines between the
    first opening marker and the first closing marker after it that pass the
    section's filter. The `...ScanIsSpec` lemmas prove the two equal. */
module Classifier {
  import opened Prelude
  import opened Text
  import opened Patterns
  import opened Manuscript

  function Stripped(p: RawParagraph): string {
    Strip(p.text)
  }

  /** The stripped texts of the paragraphs, the `text` every scan looks at. */
  function Lines(ps: seq<RawParagraph>): (ts: seq<string>)
    ensures |ts| == |ps| && forall i :: 0 <= i < |ps| ==> ts[i] == Stripped(ps[i])
  {
    seq(|ps|, i requires 0 <= i < |ps| => Stripped(ps[i]))
  }

  // ---------------------------------------------------------------------------
  // First-index search

  /** The least index in `lo..hi` whose element passes `test`, or `hi` if none does. */
  function FirstFrom<T>(xs: seq<T>, lo: nat, hi: nat, test: T -> bool): (r: nat)
    requires lo <= hi <= |xs|
    ensures lo <= r <= hi
    ensures r < hi ==> test(xs[r])
    ensures forall j :: lo <= j < r ==> !test(xs[j])
    decreases hi - lo
  {
    if lo == hi then hi
    else if test(xs[lo]) then lo
    else FirstFrom(xs, lo + 1, hi, test)
  }

  /** The search returns the index that is first to pass. */
  lemma FirstFromIs<T>(xs: seq<T>, lo: nat, hi: nat, test: T -> bool, k: nat)
    requires lo <= k < hi <= |xs| && test(xs[k])
    requires forall j :: lo <= j < k ==> !test(xs[j])
    ensures FirstFrom(xs, lo, hi, test) == k
  {
  }

  predicate NonBlank(t: string) { t != "" }

  // ---------------------------------------------------------------------------
  // Title

  /** The title test of the first ten paragraphs: a bold first run, "title:"
      anywhere in the lower-cased text, or a style name containing "Title". */
  predicate IsTitleCandidate(p: RawParagraph) {
    p.firstRunBold || Contains(Lower(p.text), "title:") ||
    (p.styleName.Some? && Contains(p.styleName.value, "Title"))
  }

  predicate IsTitleLine(p: RawParagraph) {
    Stripped(p) != "" && IsTitleCandidate(p)
  }

  /** The number of leading paragraphs searched for a title candidate. */
  const TitleWindow: nat := 10

  /** The title the scan finds: the first non-blank candidate among the first
      ten paragraphs with every "Title:" removed (one pass) and stripped,
      otherwise the first non-blank paragraph, stripped; `None` when every
      paragraph is blank (the title is then left as it was). */
  function TitleOf(ps: seq<RawParagraph>): Option<string> {
    var hi := Min(TitleWindow, |ps|);
    var i := FirstFrom(ps, 0, hi, IsTitleLine);
    if i < hi then Some(Strip(RemoveAll(ps[i].text, "Title:")))
    else
      var ts := Lines(ps);
      var j := FirstFrom(ts, 0, |ts|, NonBlank);
      if j < |ts| then Some(ts[j]) else None
  }

  /** A title is found exactly when some paragraph is not blank. */
  lemma TitleFoundIff(ps: seq<RawParagraph>)
    ensures TitleOf(ps).Some? <==> exists i :: 0 <= i < |ps| && Stripped(ps[i]) != ""
  {
    var hi := Min(TitleWindow, |ps|);
    var i := FirstFrom(ps, 0, hi, IsTitleLine);
    var ts := Lines(ps);
    var j := FirstFrom(ts, 0, |ts|, NonBlank);
    if exists k :: 0 <= k < |ps| && Stripped(ps[k]) != "" {
      var k :| 0 <= k < |ps| && Stripped(ps[k]) != "";
      assert NonBlank(ts[k]);
    }
    if i < hi {
      assert Stripped(ps[i]) != "";
    } else if j < |ts| {
      assert Stripped(ps[j]) != "";
    }
  }

  /** Without a candidate among the first ten paragraphs the title is the
      first non-blank paragraph, stripped. */
  lemma TitleFallback(ps: seq<RawParagraph>, j: nat)
    requires forall i :: 0 <= i < Min(TitleWindow, |ps|) ==> !IsTitleLine(ps[i])
    requires j < |ps| && Stripped(ps[j]) != ""
    requires forall i :: 0 <= i < j ==> Stripped(ps[i]) == ""
    ensures TitleOf(ps) == Some(Stripped(ps[j]))
  {
    var ts := Lines(ps);
    assert FirstFrom(ps, 0, Min(TitleWindow, |ps|), IsTitleLine) == Min(TitleWindow, |ps|);
    FirstFromIs(ts, 0, |ts|, NonBlank, j);
  }

  /** A non-blank candidate among the first ten paragraphs wins, whatever
      follows it. */
  lemma TitleFromCandidate(ps: seq<RawParagraph>, i: nat)
    requires i < Min(TitleWindow, |ps|) && IsTitleLine(ps[i])
    requires forall j :: 0 <= j < i ==> !IsTitleLine(ps[j])
    ensures TitleOf(ps) == Some(Strip(RemoveAll(ps[i].text, "Title:")))
  {
    FirstFromIs(ps, 0, Min(TitleWindow, |ps|), IsTitleLine, i);
  }

  // ---------------------------------------------------------------------------
  // Authors

  /** The number of leading paragraphs the author scan looks at. */
  const AuthorWindow: nat := 30

  /** The line that ends the author scan once it is in the author section:
      neither a marker nor an author line, and "abstract" in its lower-cased text. */
  predicate EndsAuthors(t: string) {
    !IsAuthorMarker(t) && !IsAuthorLine(t) && Contains(Lower(t), "abstract")
  }

  /** The shape of the author scan from index `i` of the window `ts[..hi]`,
      with the section flag and the lines collected so far: a `marker` line
      switches the section on and is not collected, a `collect` line inside
      the section is collected, and an `ends` line inside the section stops
      the scan. */
  function MarkedScan(marker: string -> bool, collect: string -> bool, ends: string -> bool,
                      ts: seq<string>, i: nat, hi: nat, inSection: bool, acc: seq<string>): seq<string>
    requires hi <= |ts|
    decreases hi - i
  {
    if i >= hi then acc
    else if marker(ts[i]) then MarkedScan(marker, collect, ends, ts, i + 1, hi, true, acc)
    else if inSection && collect(ts[i]) then MarkedScan(marker, collect, ends, ts, i + 1, hi, true, acc + [ts[i]])
    else if inSection && ends(ts[i]) then acc
    else MarkedScan(marker, collect, ends, ts, i + 1, hi, inSection, acc)
  }

  /** The lines a stretch inside the section contributes. */
  function Collected(marker: string -> bool, collect: string -> bool, ts: seq<string>): (r: seq<string>)
    ensures forall k :: 0 <= k < |r| ==> collect(r[k]) && !marker(r[k])
    decreases |ts|
  {
    if ts == [] then []
    else (if !marker(ts[0]) && collect(ts[0]) then [ts[0]] else []) + Collected(marker, collect, ts[1..])
  }

  lemma {:induction false} MarkedScanInside(marker: string -> bool, collect: string -> bool, ends: string -> bool,
                                            ts: seq<string>, i: nat, hi: nat, acc: seq<string>)
    requires i <= hi <= |ts|
    requires forall t :: ends(t) ==> !marker(t) && !collect(t)
    ensures MarkedScan(marker, collect, ends, ts, i, hi, true, acc) ==
            acc + Collected(marker, collect, ts[i..FirstFrom(ts, i, hi, ends)])
    decreases hi - i
  {
    var e := FirstFrom(ts, i, hi, ends);
    if i == hi || ends(ts[i]) {
      assert ts[i..e] == [];
    } else {
      MarkedScanInside(marker, collect, ends, ts, i + 1, hi,
                       if !marker(ts[i]) && collect(ts[i]) then acc + [ts[i]] else acc);
      assert e == FirstFrom(ts, i + 1, hi, ends);
      assert ts[i..e][0] == ts[i];
      assert ts[i..e][1..] == ts[i + 1..e];
    }
  }

  lemma {:induction false} MarkedScanBefore(marker: string -> bool, collect: string -> bool, ends: string -> bool,
                                            ts: seq<string>, i: nat, hi: nat)
    requires i <= hi <= |ts|
    ensures var m := FirstFrom(ts, i, hi, marker);
      MarkedScan(marker, collect, ends, ts, i, hi, false, []) ==
      if m == hi then [] else MarkedScan(marker, collect, ends, ts, m + 1, hi, true, [])
    decreases hi - i
  {
    if i < hi && !marker(ts[i]) {
      MarkedScanBefore(marker, collect, ends, ts, i + 1, hi);
    }
  }

  /** The authors as the scan finds them. */
  function AuthorScan(ts: seq<string>): seq<string> {
    MarkedScan(IsAuthorMarker, IsAuthorLine, EndsAuthors, ts, 0, Min(AuthorWindow, |ts|), false, [])
  }

  /** The authors: within the first thirty lines, after the first line that
      mentions "author" or "affiliation", every line containing '@' or a
      digit followed by a comma that is not itself such a marker, up to the
      first other line that mentions "abstract". */
  function AuthorsSpec(ts: seq<string>): (r: seq<string>)
    ensures forall k :: 0 <= k < |r| ==> IsAuthorLine(r[k]) && !IsAuthorMarker(r[k])
  {
    var hi := Min(AuthorWindow, |ts|);
    var m := FirstFrom(ts, 0, hi, IsAuthorMarker);
    if m == hi then [] else Collected(IsAuthorMarker, IsAuthorLine, ts[m + 1..FirstFrom(ts, m + 1, hi, EndsAuthors)])
  }

  /** The author scan collects exactly what `AuthorsSpec` describes. */
  lemma AuthorScanIsSpec(ts: seq<string>)
    ensures AuthorScan(ts) == AuthorsSpec(ts)
  {
    var hi := Min(AuthorWindow, |ts|);
    MarkedScanBefore(IsAuthorMarker, IsAuthorLine, EndsAuthors, ts, 0, hi);
    var m := FirstFrom(ts, 0, hi, IsAuthorMarker);
    if m < hi {
      MarkedScanInside(IsAuthorMarker, IsAuthorLine, EndsAuthors, ts, m + 1, hi, []);
    }
  }

  /** Without a marker line among the first thirty there are no authors. */
  lemma AuthorsNeedMarker(ts: seq<string>)
    requires forall i :: 0 <= i < Min(AuthorWindow, |ts|) ==> !IsAuthorMarker(ts[i])
    ensures AuthorsSpec(ts) == []
  {
    assert FirstFrom(ts, 0, Min(AuthorWindow, |ts|), IsAuthorMarker) == Min(AuthorWindow, |ts|);
  }

  // ---------------------------------------------------------------------------
  // Abstract and references: sections between full-line markers

  /** The scan of a marker-bounded section from index `i`: an `opens` line
      switches collection on and is never collected, a `closes` line ends the
      scan once collection is on, other non-empty lines are collected while
      it is on. */
  function SectionScan(opens: string -> bool, closes: string -> bool,
                       ts: seq<string>, i: nat, inside: bool, acc: seq<string>): seq<string>
    decreases |ts| - i
  {
    if i >= |ts| then acc
    else if opens(ts[i]) then SectionScan(opens, closes, ts, i + 1, true, acc)
    else if inside && closes(ts[i]) then acc
    else SectionScan(opens, closes, ts, i + 1, inside, if inside && ts[i] != "" then acc + [ts[i]] else acc)
  }

  /** The lines of a stretch that the section keeps: non-empty, not an opening line. */
  function SectionLines(opens: string -> bool, ts: seq<string>): (r: seq<string>)
    ensures forall k :: 0 <= k < |r| ==> r[k] != "" && !opens(r[k])
    decreases |ts|
  {
    if ts == [] then []
    else (if ts[0] != "" && !opens(ts[0]) then [ts[0]] else []) + SectionLines(opens, ts[1..])
  }

  /** The section: the non-empty lines strictly between the first opening line
      and the first closing line after it (or the end), without further
      opening lines; empty when there is no opening line. */
  function SectionSpec(opens: string -> bool, closes: string -> bool, ts: seq<string>): seq<string> {
    var a := FirstFrom(ts, 0, |ts|, opens);
    if a == |ts| then [] else SectionLines(opens, ts[a + 1..FirstFrom(ts, a + 1, |ts|, closes)])
  }

  lemma {:induction false} SectionScanInside(opens: string -> bool, closes: string -> bool,
                                             ts: seq<string>, i: nat, acc: seq<string>)
    requires i <= |ts|
    requires forall t :: opens(t) ==> !closes(t)
    ensures SectionScan(opens, closes, ts, i, true, acc) ==
            acc + SectionLines(opens, ts[i..FirstFrom(ts, i, |ts|, closes)])
    decreases |ts| - i
  {
    var e := FirstFrom(ts, i, |ts|, closes);
    if i == |ts| || closes(ts[i]) {
      assert ts[i..e] == [];
    } else {
      SectionScanInside(opens, closes, ts, i + 1, if ts[i] != "" && !opens(ts[i]) then acc + [ts[i]] else acc);
      assert e == FirstFrom(ts, i + 1, |ts|, closes);
      assert ts[i..e][0] == ts[i];
      assert ts[i..e][1..] == ts[i + 1..e];
    }
  }

  lemma {:induction false} SectionScanBefore(opens: string -> bool, closes: string -> bool, ts: seq<string>, i: nat)
    requires i <= |ts|
    ensures var a := FirstFrom(ts, i, |ts|, opens);
      SectionScan(opens, closes, ts, i, false, []) ==
      if a == |ts| then [] else SectionScan(opens, closes, ts, a + 1, true, [])
    decreases |ts| - i
  {
    if i < |ts| && !opens(ts[i]) {
      SectionScanBefore(opens, closes, ts, i + 1);
    }
  }

  /** The section scan collects exactly what `SectionSpec` describes. */
  lemma SectionScanIsSpec(opens: string -> bool, closes: string -> bool, ts: seq<string>)
    requires forall t :: opens(t) ==> !closes(t)
    ensures SectionScan(opens, closes, ts, 0, false, []) == SectionSpec(opens, closes, ts)
  {
    SectionScanBefore(opens, closes, ts, 0);
    var a := FirstFrom(ts, 0, |ts|, opens);
    if a < |ts| {
      SectionScanInside(opens, closes, ts, a + 1, []);
    }
  }

  /** Without an opening line the section is empty. */
  lemma SectionAbsent(opens: string -> bool, closes: string -> bool, ts: seq<string>)
    requires forall i :: 0 <= i < |ts| ==> !opens(ts[i])
    ensures SectionSpec(opens, closes, ts) == []
  {
    assert FirstFrom(ts, 0, |ts|, opens) == |ts|;
  }

  /** The lines of the abstract, in order. */
  function AbstractLines(ts: seq<string>): seq<string> {
    SectionSpec(IsAbstractHeading, IsAbstractEnd, ts)
  }

  /** The abstract: its lines joined with single spaces. */
  function AbstractOf(ts: seq<string>): string {
    Join(" ", AbstractLines(ts))
  }

  /** The abstract scan collects exactly the lines between the first
      "Abstract" heading and the first "Introduction", "Methods" or
      "Keywords" heading after it. */
  lemma AbstractScanIsSpec(ts: seq<string>)
    ensures SectionScan(IsAbstractHeading, IsAbstractEnd, ts, 0, false, []) == AbstractLines(ts)
    ensures forall k :: 0 <= k < |AbstractLines(ts)| ==>
      AbstractLines(ts)[k] != "" && !IsAbstractHeading(AbstractLines(ts)[k])
  {
    forall t | IsAbstractHeading(t) ensures !IsAbstractEnd(t) {
      AbstractHeadingNotEnd(t);
    }
    SectionScanIsSpec(IsAbstractHeading, IsAbstractEnd, ts);
  }

  /** The references: the lines between the first "References" heading and
      the first line starting with "figure" or "table" after it. */
  function ReferencesOf(ts: seq<string>): seq<string> {
    SectionSpec(IsReferencesHeading, StartsFigureOrTable, ts)
  }

  lemma ReferencesScanIsSpec(ts: seq<string>)
    ensures SectionScan(IsReferencesHeading, StartsFigureOrTable, ts, 0, false, []) == ReferencesOf(ts)
    ensures forall k :: 0 <= k < |ReferencesOf(ts)| ==>
      ReferencesOf(ts)[k] != "" && !IsReferencesHeading(ReferencesOf(ts)[k])
  {
    forall t | IsReferencesHeading(t) ensures !StartsFigureOrTable(t) {
      ReferencesHeadingNotFigure(t);
    }
    SectionScanIsSpec(IsReferencesHeading, StartsFigureOrTable, ts);
  }

  // ---------------------------------------------------------------------------
  // Body

  /** `_is_heading`: with a style, exactly whether its name contains
      "Heading"; only without a style, a bold first run and fewer than 100
      characters of (unstripped) text. */
  predicate IsHeading(p: RawParagraph) {
    if p.styleName.Some? then Contains(p.styleName.value, "Heading")
    else p.firstRunBold && |p.text| < 100
  }

  /** When a paragraph has a style, boldness and length play no part. */
  lemma HeadingByStyleOnly(p: RawParagraph, bold: bool, text: string)
    requires p.styleName.Some?
    ensures IsHeading(p) == IsHeading(RawParagraph(text, p.styleName, bold))
    ensures IsHeading(p) <==> Contains(p.styleName.value, "Heading")
  {
  }

  /** The body entry recorded for a kept paragraph. */
  function MakeBody(p: RawParagraph): (b: BodyParagraph)
    ensures b.text == Stripped(p) && b.isHeading == IsHeading(p)
    ensures b.style == (if p.styleName.Some? then p.styleName.value else "Normal")
  {
    BodyParagraph(Stripped(p), if p.styleName.Some? then p.styleName.value else "Normal", IsHeading(p))
  }

  /** The shape of the body scan from index `i` over the stripped lines `ts`
      of the paragraphs `ps`, with the body flag and the entries so far: a
      `starts` line switches the body on (and is itself considered), a
      `stops` line inside the body ends the scan, a `skips` line is passed
      over, and any other non-empty line inside the body is recorded as
      `make` of its paragraph. */
  function BodyScanFrom(starts: string -> bool, stops: string -> bool, skips: string -> bool,
                        make: RawParagraph -> BodyParagraph, ts: seq<string>, ps: seq<RawParagraph>,
                        i: nat, inBody: bool, acc: seq<BodyParagraph>): seq<BodyParagraph>
    requires |ts| == |ps|
    decreases |ps| - i
  {
    if i >= |ps| then acc
    else
      var b := inBody || starts(ts[i]);
      if b && stops(ts[i]) then acc
      else if skips(ts[i]) then BodyScanFrom(starts, stops, skips, make, ts, ps, i + 1, b, acc)
      else BodyScanFrom(starts, stops, skips, make, ts, ps, i + 1, b, if b && ts[i] != "" then acc + [make(ps[i])] else acc)
  }

  /** The entries a stretch inside the body contributes. */
  function BodyEntries(skips: string -> bool, make: RawParagraph -> BodyParagraph,
                       ts: seq<string>, ps: seq<RawParagraph>): (r: seq<BodyParagraph>)
    requires |ts| == |ps|
    ensures |r| <= |ps|
    decreases |ps|
  {
    if ps == [] then []
    else (if ts[0] != "" && !skips(ts[0]) then [make(ps[0])] else []) + BodyEntries(skips, make, ts[1..], ps[1..])
  }

  lemma {:induction false} BodyScanInside(starts: string -> bool, stops: string -> bool, skips: string -> bool,
                                          make: RawParagraph -> BodyParagraph, ts: seq<string>, ps: seq<RawParagraph>,
                                          i: nat, acc: seq<BodyParagraph>)
    requires i <= |ps| == |ts|
    ensures var e := FirstFrom(ts, i, |ps|, stops);
      BodyScanFrom(starts, stops, skips, make, ts, ps, i, true, acc) ==
      acc + BodyEntries(skips, make, ts[i..e], ps[i..e])
    decreases |ps| - i
  {
    var e := FirstFrom(ts, i, |ps|, stops);
    if i == |ps| || stops(ts[i]) {
      assert ps[i..e] == [];
    } else {
      BodyScanInside(starts, stops, skips, make, ts, ps, i + 1,
                     if ts[i] != "" && !skips(ts[i]) then acc + [make(ps[i])] else acc);
      assert e == FirstFrom(ts, i + 1, |ps|, stops);
      assert ps[i..e][0] == ps[i] && ts[i..e][0] == ts[i];
      assert ps[i..e][1..] == ps[i + 1..e] && ts[i..e][1..] == ts[i + 1..e];
    }
  }

  lemma {:induction false} BodyScanBefore(starts: string -> bool, stops: string -> bool, skips: string -> bool,
                                          make: RawParagraph -> BodyParagraph, ts: seq<string>, ps: seq<RawParagraph>,
                                          i: nat)
    requires i <= |ps| == |ts|
    ensures var s := FirstFrom(ts, i, |ps|, starts);
      BodyScanFrom(starts, stops, skips, make, ts, ps, i, false, []) ==
      if s == |ps| then [] else BodyScanFrom(starts, stops, skips, make, ts, ps, s, true, [])
    decreases |ps| - i
  {
    if i < |ps| && !starts(ts[i]) {
      BodyScanBefore(starts, stops, skips, make, ts, ps, i + 1);
    }
  }

  /** Every entry of a stretch is `make` of one of its non-blank, non-skipped paragraphs. */
  lemma {:induction false} BodyEntriesFrom(skips: string -> bool, make: RawParagraph -> BodyParagraph,
                                           ts: seq<string>, ps: seq<RawParagraph>, b: BodyParagraph)
    requires |ts| == |ps|
    requires b in BodyEntries(skips, make, ts, ps)
    ensures exists k :: 0 <= k < |ps| && ts[k] != "" && !skips(ts[k]) && b == make(ps[k])
    decreases |ps|
  {
    if !(b in (if ts[0] != "" && !skips(ts[0]) then [make(ps[0])] else [])) {
      BodyEntriesFrom(skips, make, ts[1..], ps[1..], b);
      var k :| 0 <= k < |ps| - 1 && ts[1..][k] != "" && !skips(ts[1..][k]) && b == make(ps[1..][k]);
      assert ps[1..][k] == ps[k + 1] && ts[1..][k] == ts[k + 1];
    }
  }

  /** The same for a stretch given by its bounds. */
  lemma BodySliceOrigin(skips: string -> bool, make: RawParagraph -> BodyParagraph,
                        ts: seq<string>, ps: seq<RawParagraph>, s: nat, e: nat, b: BodyParagraph)
    requires s <= e <= |ts| == |ps|
    requires b in BodyEntries(skips, make, ts[s..e], ps[s..e])
    ensures exists j :: s <= j < e && ts[j] != "" && !skips(ts[j]) && b == make(ps[j])
  {
    BodyEntriesFrom(skips, make, ts[s..e], ps[s..e], b);
    var k :| 0 <= k < e - s && ts[s..e][k] != "" && !skips(ts[s..e][k]) && b == make(ps[s..e][k]);
    assert ps[s..e][k] == ps[s + k] && ts[s..e][k] == ts[s + k];
  }

  /** The body as the scan finds it. */
  function BodyScan(ps: seq<RawParagraph>): seq<BodyParagraph> {
    BodyScanFrom(StartsBody, IsReferencesHeading, IsSkipLine, MakeBody, Lines(ps), ps, 0, false, [])
  }

  /** The body: from the first line that starts with "introduction",
      "background" or "methods" up to (not including) the first full-line
      references heading at or after it, every non-empty line that matches
      none of the skip patterns, in order. */
  function BodySpec(ps: seq<RawParagraph>): seq<BodyParagraph> {
    var ts := Lines(ps);
    var s := FirstFrom(ts, 0, |ts|, StartsBody);
    var e := FirstFrom(ts, s, |ts|, IsReferencesHeading);
    if s == |ts| then [] else BodyEntries(IsSkipLine, MakeBody, ts[s..e], ps[s..e])
  }

  /** The body scan records exactly what `BodySpec` describes. */
  lemma BodyScanIsSpec(ps: seq<RawParagraph>)
    ensures BodyScan(ps) == BodySpec(ps)
  {
    var ts := Lines(ps);
    BodyScanBefore(StartsBody, IsReferencesHeading, IsSkipLine, MakeBody, ts, ps, 0);
    var s := FirstFrom(ts, 0, |ps|, StartsBody);
    if s < |ps| {
      BodyScanInside(StartsBody, IsReferencesHeading, IsSkipLine, MakeBody, ts, ps, s, []);
    }
  }

  /** The line that opens the body is itself the first body entry. */
  lemma BodyStartsWithOpeningLine(ps: seq<RawParagraph>, s: nat)
    requires s < |ps| && StartsBody(Stripped(ps[s]))
    requires forall j :: 0 <= j < s ==> !StartsBody(Stripped(ps[j]))
    ensures |BodySpec(ps)| > 0 && BodySpec(ps)[0] == MakeBody(ps[s])
  {
    var ts := Lines(ps);
    BodyStartIsKept(ts[s]);
    FirstFromIs(ts, 0, |ts|, StartsBody, s);
    var e := FirstFrom(ts, s, |ts|, IsReferencesHeading);
    assert e > s;
    assert ps[s..e][0] == ps[s] && ts[s..e][0] == ts[s];
  }

  /** Every body entry is the entry of a non-blank, non-skipped paragraph at
      or after the opening line and before the references heading. */
  lemma BodyEntryOrigin(ps: seq<RawParagraph>, b: BodyParagraph)
    requires b in BodySpec(ps)
    ensures var ts := Lines(ps);
      var s := FirstFrom(ts, 0, |ts|, StartsBody);
      var e := FirstFrom(ts, s, |ts|, IsReferencesHeading);
      exists j :: s <= j < e && ts[j] != "" && !IsSkipLine(ts[j]) && b == MakeBody(ps[j])
  {
    var ts := Lines(ps);
    var s := FirstFrom(ts, 0, |ts|, StartsBody);
    var e := FirstFrom(ts, s, |ts|, IsReferencesHeading);
    BodySliceOrigin(IsSkipLine, MakeBody, ts, ps, s, e, b);
  }
}
