/** The fixed regular expressions of the manuscript pipeline, written out as
    predicates and matchers over strings. Every expression in the source is
    used with `re.IGNORECASE`; here that is ASCII case folding (`MatchesCI`
    compares against a lower-case word).

    Each matcher below is deterministic: for every pattern, whenever the
    greedy choice of a quantifier leads to failure, every backtracking
    alternative fails as well (the next pattern element cannot match the
    character the quantifier gave back), with one exception that is modelled
    explicitly: the `[.:)\s]+(.+)` tail of the caption patterns, see
    `GroupStart`. */
module Patterns {
  import opened Prelude
  import opened Text

  /** The class `[\.:)\s]` of the caption patterns. */
  predicate IsDelimiter(c: char) {
    c == '.' || c == ':' || c == ')' || IsSpace(c)
  }

  /** The length of the run of characters from index `i` that `\\s*` takes. */
  function SpaceRun(t: string, i: nat): (n: nat)
    ensures i + n <= |t| || n == 0
    ensures forall k :: i <= k < i + n ==> IsSpace(t[k])
    ensures i + n < |t| ==> !(IsSpace(t[i + n]))
    decreases |t| - i
  {
    if i < |t| && IsSpace(t[i]) then 1 + SpaceRun(t, i + 1) else 0
  }

  /** The length of the run of characters from index `i` that `\\d*` takes. */
  function DigitRun(t: string, i: nat): (n: nat)
    ensures i + n <= |t| || n == 0
    ensures forall k :: i <= k < i + n ==> IsDigit(t[k])
    ensures i + n < |t| ==> !(IsDigit(t[i + n]))
    decreases |t| - i
  {
    if i < |t| && IsDigit(t[i]) then 1 + DigitRun(t, i + 1) else 0
  }

  /** The length of the run of characters from index `i` that `\\**` takes. */
  function StarRun(t: string, i: nat): (n: nat)
    ensures i + n <= |t| || n == 0
    ensures forall k :: i <= k < i + n ==> t[k] == '*'
    ensures i + n < |t| ==> !(t[i + n] == '*')
    decreases |t| - i
  {
    if i < |t| && t[i] == '*' then 1 + StarRun(t, i + 1) else 0
  }

  /** The length of the run of characters from index `i` that `[\\.:)\\s]*` takes. */
  function DelimiterRun(t: string, i: nat): (n: nat)
    ensures i + n <= |t| || n == 0
    ensures forall k :: i <= k < i + n ==> IsDelimiter(t[k])
    ensures i + n < |t| ==> !(IsDelimiter(t[i + n]))
    decreases |t| - i
  {
    if i < |t| && IsDelimiter(t[i]) then 1 + DelimiterRun(t, i + 1) else 0
  }

  /** The length of the run of characters from index `i` that `.*` takes. */
  function LineRun(t: string, i: nat): (n: nat)
    ensures i + n <= |t| || n == 0
    ensures forall k :: i <= k < i + n ==> t[k] != '\n'
    ensures i + n < |t| ==> !(t[i + n] != '\n')
    decreases |t| - i
  {
    if i < |t| && t[i] != '\n' then 1 + LineRun(t, i + 1) else 0
  }

  /** Python's `$`: the end of the string, or just before a final newline. */
  predicate EndAnchor(t: string, i: nat) {
    i == |t| || (i + 1 == |t| && t[i] == '\n')
  }

  /** `^<word>:?$` for a lower-case word. */
  predicate IsLabelLine(t: string, word: string) {
    MatchesCI(t, 0, word) &&
    (EndAnchor(t, |word|) || (|word| < |t| && t[|word|] == ':' && EndAnchor(t, |word| + 1)))
  }

  /** `^abstract:?$` */
  predicate IsAbstractHeading(t: string) {
    IsLabelLine(t, "abstract")
  }

  /** `^(introduction|methods|keywords):?$` */
  predicate IsAbstractEnd(t: string) {
    IsLabelLine(t, "introduction") || IsLabelLine(t, "methods") || IsLabelLine(t, "keywords")
  }

  /** `^references?:?$` */
  predicate IsReferencesHeading(t: string) {
    IsLabelLine(t, "reference") || IsLabelLine(t, "references")
  }

  /** `^(introduction|background|methods)` */
  predicate StartsBody(t: string) {
    MatchesCI(t, 0, "introduction") || MatchesCI(t, 0, "background") || MatchesCI(t, 0, "methods")
  }

  /** `^<prefix>\d+:`, where the prefix is a word and one literal space. */
  predicate IsLegendLine(t: string, prefix: string) {
    var n := DigitRun(t, |prefix|);
    MatchesCI(t, 0, prefix) && n > 0 && |prefix| + n < |t| && t[|prefix| + n] == ':'
  }

  /** Any of the four skip patterns of the body scan:
      `^(title|authors?|abstract|keywords?):`, `^figure \d+:`, `^table \d+:`
      and `^references?:?$`. */
  predicate IsSkipLine(t: string) {
    MatchesCI(t, 0, "title:") || MatchesCI(t, 0, "author:") || MatchesCI(t, 0, "authors:") ||
    MatchesCI(t, 0, "abstract:") || MatchesCI(t, 0, "keyword:") || MatchesCI(t, 0, "keywords:") ||
    IsLegendLine(t, "figure ") || IsLegendLine(t, "table ") ||
    IsReferencesHeading(t)
  }

  /** `^(figure|table)` */
  predicate StartsFigureOrTable(t: string) {
    MatchesCI(t, 0, "figure") || MatchesCI(t, 0, "table")
  }

  /** `re.search(r'author|affiliation', t, re.IGNORECASE)` */
  predicate IsAuthorMarker(t: string) {
    ContainsCI(t, "author") || ContainsCI(t, "affiliation")
  }

  /** `re.search(r'\d+\s*,', t)`: some digit is followed, after optional
      whitespace, by a comma. (A match of the greedy `\d+` ends at such a digit.) */
  predicate HasDigitComma(t: string) {
    DigitCommaFrom(t, 0)
  }

  /** The search for a digit followed by optional whitespace and a comma,
      from index `i` on. */
  predicate DigitCommaFrom(t: string, i: nat)
    decreases |t| - i
  {
    i < |t| && ((IsDigit(t[i]) && CommaAfterSpaces(t, i + 1)) || DigitCommaFrom(t, i + 1))
  }

  /** The search succeeds exactly when some digit at or after `i` is followed,
      after optional whitespace, by a comma. */
  lemma {:induction false} DigitCommaFromIff(t: string, i: nat)
    ensures DigitCommaFrom(t, i) <==> exists j :: i <= j < |t| && IsDigit(t[j]) && CommaAfterSpaces(t, j + 1)
    decreases |t| - i
  {
    if i < |t| {
      DigitCommaFromIff(t, i + 1);
    }
  }

  predicate CommaAfterSpaces(t: string, i: nat) {
    var j := i + SpaceRun(t, i);
    j < |t| && t[j] == ','
  }

  /** The collection test of the author scan: `'@' in t or re.search(r'\d+\s*,', t)`. */
  predicate IsAuthorLine(t: string) {
    Contains(t, "@") || HasDigitComma(t)
  }

  // ---------------------------------------------------------------------------
  // Captions: re.match(rf'^\*?\*?{word}\s+{n}[\.:)\s]+(.+)', t, re.IGNORECASE)

  /** Where the group `(.+)` starts, given that the delimiter class matched a
      run of `l` characters from `e`: the regex engine gives characters of the
      run back one at a time until `.` (anything but a newline) can match the
      next character. */
  function GroupStart(t: string, e: nat, l: nat): (r: Option<nat>)
    ensures r.Some? ==> e < r.value <= e + l && r.value < |t| && t[r.value] != '\n'
    decreases l
  {
    if l == 0 then None
    else if e + l < |t| && t[e + l] != '\n' then Some(e + l)
    else GroupStart(t, e, l - 1)
  }

  /** The numbered-caption prefix up to the end of the number, if present:
      returns the index just after the digits of `n`. */
  function CaptionNumberEnd(t: string, word: string, n: nat): (r: Option<nat>)
    ensures r.Some? ==> r.value <= |t|
  {
    var s := StarRun(t, 0);
    if s > 2 || !MatchesCI(t, s, word) then None
    else
      var p := s + |word|;
      var w := SpaceRun(t, p);
      var num := NatToString(n);
      if w == 0 || !OccursAt(t, num, p + w) then None
      else Some(p + w + |num|)
  }

  /** The stripped caption group when `t` is a caption of item `n` of kind
      `word` ("figure" or "table"), and `None` when the pattern does not match. */
  function CaptionMatch(t: string, word: string, n: nat): Option<string> {
    match CaptionNumberEnd(t, word, n)
    case None => None
    case Some(e) =>
      match GroupStart(t, e, DelimiterRun(t, e))
      case None => None
      case Some(g) => Some(Strip(t[g..g + LineRun(t, g)]))
  }

  /** Where the number of a caption starts: after the stars, the word and the whitespace. */
  function CaptionNumberStart(t: string, word: string): nat {
    var s := StarRun(t, 0);
    s + |word| + SpaceRun(t, s + |word|)
  }

  /** `num` sits at index `d` of `t` and the character after it is not a digit. */
  predicate DelimitedAt(t: string, d: nat, num: string) {
    d + |num| < |t| && t[d..d + |num|] == num && !IsDigit(t[d + |num|])
  }

  /** A matching caption has the digits of `n` at `CaptionNumberStart`,
      followed by a character that is not a digit. */
  lemma CaptionMatchNumber(t: string, word: string, n: nat)
    requires CaptionMatch(t, word, n).Some?
    ensures DelimitedAt(t, CaptionNumberStart(t, word), NatToString(n))
  {
    var e := CaptionNumberEnd(t, word, n).value;
    assert GroupStart(t, e, DelimiterRun(t, e)).Some?;
    CaptionNumberEndAt(t, word, n, e);
    FollowedByDelimiter(t, CaptionNumberStart(t, word), NatToString(n), e);
  }

  lemma CaptionNumberEndAt(t: string, word: string, n: nat, e: nat)
    requires CaptionNumberEnd(t, word, n) == Some(e)
    ensures e == CaptionNumberStart(t, word) + |NatToString(n)|
    ensures OccursAt(t, NatToString(n), CaptionNumberStart(t, word))
  {
  }

  lemma FollowedByDelimiter(t: string, d: nat, num: string, e: nat)
    requires e == d + |num| && OccursAt(t, num, d)
    requires GroupStart(t, e, DelimiterRun(t, e)).Some?
    ensures DelimitedAt(t, d, num)
  {
    var l := DelimiterRun(t, e);
    assert l > 0;
    DelimiterNotDigit(t, e, l);
  }

  lemma DelimiterNotDigit(t: string, e: nat, l: nat)
    requires l > 0 && l == DelimiterRun(t, e)
    ensures e < |t| && !IsDigit(t[e])
  {
    assert IsDelimiter(t[e]);
    if IsSpace(t[e]) {
      SpaceNotDigit(t[e]);
    }
  }

  /** Two digit strings found at the same index, each followed by a non-digit,
      are the same string. */
  lemma DelimitedDigitsEqual(t: string, d: nat, a: string, b: string)
    requires AllDigits(a) && AllDigits(b)
    requires DelimitedAt(t, d, a) && DelimitedAt(t, d, b)
    ensures a == b
  {
    DigitsAt(t, d, a);
    DigitsAt(t, d, b);
  }

  lemma DigitsAt(t: string, d: nat, a: string)
    requires AllDigits(a) && d + |a| <= |t| && t[d..d + |a|] == a
    ensures forall k :: d <= k < d + |a| ==> IsDigit(t[k])
  {
    forall k | d <= k < d + |a| ensures IsDigit(t[k]) {
      assert t[k] == a[k - d];
    }
  }

  /** A paragraph is the caption of at most one number: the number must be
      followed by a delimiter, so a caption of figure 12 is never taken for
      a caption of figure 1. */
  lemma CaptionNumberUnique(t: string, word: string, n: nat, m: nat)
    requires CaptionMatch(t, word, n).Some? && CaptionMatch(t, word, m).Some?
    ensures n == m
  {
    CaptionDigitsEqual(t, word, n, m);
    NatToStringInjective(n, m);
  }

  lemma CaptionDigitsEqual(t: string, word: string, n: nat, m: nat)
    requires CaptionMatch(t, word, n).Some? && CaptionMatch(t, word, m).Some?
    ensures NatToString(n) == NatToString(m)
  {
    CaptionMatchNumber(t, word, n);
    CaptionMatchNumber(t, word, m);
    DelimitedDigitsEqual(t, CaptionNumberStart(t, word), NatToString(n), NatToString(m));
  }

  // ---------------------------------------------------------------------------
  // Citations

  /** One of the six citation patterns of the locator:
      parenthesised `\(\s*\*?\*?<word>[\.]?\s+(\d+[A-Z]?)\s*\)` or bare
      `\*?\*?<word>\s+(\d+[A-Z]?)\*?\*?`; `dot` says whether `\.?` follows the
      word and `suffix` whether `[A-Z]?` follows the digits. */
  datatype CitePattern = CitePattern(parenthesised: bool, word: string, dot: bool, suffix: bool)

  /** `(Fig. 1A)`, `**Figure 1A**`, `(Figure 1A)` */
  const FigurePatterns: seq<CitePattern> := [
    CitePattern(true, "fig", true, true),
    CitePattern(false, "figure", false, true),
    CitePattern(true, "figure", false, true)
  ]

  /** `(Tab. 1)`, `**Table 1**`, `(Table 1)` */
  const TablePatterns: seq<CitePattern> := [
    CitePattern(true, "tab", true, false),
    CitePattern(false, "table", false, false),
    CitePattern(true, "table", false, false)
  ]

  /** A match: `t[start..end]` is `match.group(0)`, `group` is `match.group(1)`. */
  datatype Match = Match(start: nat, end: nat, group: string)

  /** What group 1 of a citation pattern can capture: digits, and for the
      figure patterns possibly one trailing letter of either case. */
  predicate NumberShape(g: string, suffix: bool) {
    |g| > 0 &&
    (AllDigits(g) || (suffix && |g| > 1 && AllDigits(g[..|g| - 1]) && IsLetter(g[|g| - 1])))
  }

  function Min(a: nat, b: nat): nat { if a < b then a else b }

  /** The index where the digits of a citation start, when the text from `p`
      matches the pattern up to and including the whitespace before them. */
  function NumberStart(pat: CitePattern, t: string, p: nat): (r: Option<nat>)
    requires p <= |t|
    ensures r.Some? ==> p < r.value <= |t| && DigitRun(t, r.value) > 0
  {
    if pat.parenthesised && !(p < |t| && t[p] == '(') then None
    else
      var a := if pat.parenthesised then p + 1 + SpaceRun(t, p + 1) else p;
      var s := StarRun(t, a);
      if s > 2 || !MatchesCI(t, a + s, pat.word) || |pat.word| == 0 then None
      else
        var b := a + s + |pat.word|;
        var c := if pat.dot && b < |t| && t[b] == '.' then b + 1 else b;
        var w := SpaceRun(t, c);
        if w == 0 || DigitRun(t, c + w) == 0 then None
        else Some(c + w)
  }

  /** The end of group 1 from its first digit `d`: all the digits, then one
      letter when the pattern allows a suffix and one follows. */
  function NumberEnd(t: string, d: nat, suffix: bool): (g: nat)
    requires d <= |t| && DigitRun(t, d) > 0
    ensures d < g <= |t| && NumberShape(t[d..g], suffix)
  {
    var nd := DigitRun(t, d);
    var g := if suffix && d + nd < |t| && IsLetter(t[d + nd]) then d + nd + 1 else d + nd;
    var run := t[d..d + nd];
    assert AllDigits(run) by {
      forall k | 0 <= k < |run| ensures IsDigit(run[k]) {
        assert run[k] == t[d + k];
      }
    }
    if g > d + nd then
      assert t[d..g][..nd] == run && t[d..g][nd] == t[d + nd];
      g
    else
      assert t[d..g] == run;
      g
  }

  /** Python's `pattern.match(t, p)` for a citation pattern. */
  function MatchAt(pat: CitePattern, t: string, p: nat): (r: Option<Match>)
    requires p <= |t|
    ensures r.Some? ==> r.value.start == p < r.value.end <= |t|
    ensures r.Some? ==> NumberShape(r.value.group, pat.suffix)
  {
    match NumberStart(pat, t, p)
    case None => None
    case Some(d) =>
      var g := NumberEnd(t, d, pat.suffix);
      if pat.parenthesised then
        var h := g + SpaceRun(t, g);
        if h < |t| && t[h] == ')' then Some(Match(p, h + 1, t[d..g])) else None
      else
        Some(Match(p, g + Min(2, StarRun(t, g)), t[d..g]))
  }

  /** Python's `re.finditer(pattern, t)` from index `p`: the leftmost match,
      then the search resumes where it ended. */
  function FindAll(pat: CitePattern, t: string, p: nat): (r: seq<Match>)
    requires p <= |t|
    ensures forall k :: 0 <= k < |r| ==> p <= r[k].start < r[k].end <= |t|
    ensures forall k :: 0 <= k < |r| - 1 ==> r[k].end <= r[k + 1].start
    ensures forall k :: 0 <= k < |r| ==> NumberShape(r[k].group, pat.suffix)
    decreases |t| - p
  {
    if p >= |t| then []
    else match MatchAt(pat, t, p)
      case Some(m) =>
        var rest := FindAll(pat, t, m.end);
        MatchesCons(m, rest, |t|, pat.suffix);
        [m] + rest
      case None => FindAll(pat, t, p + 1)
  }

  /** `\d` takes digits of any script: `re.finditer` finds `Figure ٣` (Arabic-Indic
      three) as one citation whose group is that digit. */
  lemma FindAllNonAsciiNumber()
    ensures FindAll(FigurePatterns[1], "Figure \U{0663}", 0) == [Match(0, 8, "\U{0663}")]
  {
    var t := "Figure \U{0663}";
    NonAsciiNumberStart(t);
    assert NumberEnd(t, 7, true) == 8;
    assert StarRun(t, 8) == 0;
    assert MatchAt(FigurePatterns[1], t, 0) == Some(Match(0, 8, t[7..8]));
    assert t[7..8] == "\U{0663}";
    assert FindAll(FigurePatterns[1], t, 8) == [];
  }

  /** The legend skip `^figure \d+:` takes a digit of any script. */
  lemma NonAsciiLegend()
    ensures IsSkipLine("Figure \U{0661}: x")
  {
    var legend := "Figure \U{0661}: x";
    assert MatchesCI(legend, 0, "figure ");
    assert DigitZero('\U{0661}') == 0x660 && legend[7] == '\U{0661}';
    assert IsDigit(legend[7]) && !IsDigit(legend[8]);
    assert DigitRun(legend, 8) == 0 && DigitRun(legend, 7) == 1;
  }

  /** The author test `\d+\s*,` takes a digit of any script. */
  lemma NonAsciiAuthor()
    ensures IsAuthorLine("Smith \U{0661}, Jones")
  {
    var author := "Smith \U{0661}, Jones";
    assert DigitZero('\U{0661}') == 0x660 && author[6] == '\U{0661}';
    assert IsDigit(author[6]) && SpaceRun(author, 7) == 0 && CommaAfterSpaces(author, 7);
    DigitCommaFromIff(author, 0);
  }

  lemma NonAsciiNumberStart(t: string)
    requires t == "Figure \U{0663}"
    ensures NumberStart(FigurePatterns[1], t, 0) == Some(7) && DigitRun(t, 7) == 1
  {
    assert MatchesCI(t, 0, "figure");
    assert StarRun(t, 0) == 0;
    assert SpaceRun(t, 7) == 0;
    assert SpaceRun(t, 6) == 1;
    assert DigitZero('\U{0663}') == 0x660 && t[7] == '\U{0663}';
    assert IsDigit(t[7]);
    assert DigitRun(t, 8) == 0;
  }

  /** A match ahead of matches that start after it keeps the matches
      ordered, in range and of the right shape. */
  lemma MatchesCons(m: Match, rest: seq<Match>, n: nat, suffix: bool)
    requires m.start < m.end <= n && NumberShape(m.group, suffix)
    requires forall k :: 0 <= k < |rest| ==> m.end <= rest[k].start < rest[k].end <= n
    requires forall k :: 0 <= k < |rest| - 1 ==> rest[k].end <= rest[k + 1].start
    requires forall k :: 0 <= k < |rest| ==> NumberShape(rest[k].group, suffix)
    ensures forall k :: 0 <= k < |rest| + 1 ==> m.start <= ([m] + rest)[k].start < ([m] + rest)[k].end <= n
    ensures forall k :: 0 <= k < |rest| ==> ([m] + rest)[k].end <= ([m] + rest)[k + 1].start
    ensures forall k :: 0 <= k < |rest| + 1 ==> NumberShape(([m] + rest)[k].group, suffix)
  {
    var r := [m] + rest;
    assert forall k :: 0 < k < |r| ==> r[k] == rest[k - 1];
  }

  // ---------------------------------------------------------------------------
  // Facts about how the line patterns exclude each other

  /** A line that opens the body is never skipped, never a references heading
      and never empty: the body scan keeps its first line. */
  lemma BodyStartIsKept(t: string)
    requires StartsBody(t)
    ensures !IsSkipLine(t) && !IsReferencesHeading(t) && t != ""
  {
    assert t != "" && LowerChar(t[0]) in {'i', 'b', 'm'} by {
      if MatchesCI(t, 0, "introduction") { assert LowerChar(t[0]) == "introduction"[0]; }
      else if MatchesCI(t, 0, "background") { assert LowerChar(t[0]) == "background"[0]; }
      else { assert LowerChar(t[0]) == "methods"[0]; }
    }
    FirstLetterExcludes(t, "title:");
    FirstLetterExcludes(t, "author:");
    FirstLetterExcludes(t, "authors:");
    FirstLetterExcludes(t, "abstract:");
    FirstLetterExcludes(t, "keyword:");
    FirstLetterExcludes(t, "keywords:");
    FirstLetterExcludes(t, "figure ");
    FirstLetterExcludes(t, "table ");
    FirstLetterExcludes(t, "reference");
    FirstLetterExcludes(t, "references");
  }

  lemma FirstLetterExcludes(t: string, w: string)
    requires |t| > 0 && |w| > 0 && LowerChar(t[0]) != w[0]
    ensures !MatchesCI(t, 0, w)
  {
  }

  /** A references heading never starts with "figure" or "table". */
  lemma ReferencesHeadingNotFigure(t: string)
    requires IsReferencesHeading(t)
    ensures !StartsFigureOrTable(t)
  {
    assert LowerChar(t[0]) == 'r' by {
      if IsLabelLine(t, "reference") { assert LowerChar(t[0]) == "reference"[0]; }
      else { assert LowerChar(t[0]) == "references"[0]; }
    }
    FirstLetterExcludes(t, "figure");
    FirstLetterExcludes(t, "table");
  }

  /** An abstract heading never closes the abstract. */
  lemma AbstractHeadingNotEnd(t: string)
    requires IsAbstractHeading(t)
    ensures !IsAbstractEnd(t)
  {
    assert LowerChar(t[0]) == "abstract"[0];
    FirstLetterExcludes(t, "introduction");
    FirstLetterExcludes(t, "methods");
    FirstLetterExcludes(t, "keywords");
  }
}
