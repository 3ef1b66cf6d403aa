/** The citation locator: the figure and table citations found in the body,
    with duplicates (same kind, number and paragraph) removed on a
    first-come basis and the result ordered by paragraph. */
module Citations {
  import opened Prelude
  import opened Text
  import opened Patterns
  import opened Manuscript

  // ---------------------------------------------------------------------------
  // Raw detection

  function ToCitation(kind: CitationKind, t: string, pos: nat, m: Match): Citation
    requires m.start <= m.end <= |t|
  {
    Citation(kind, m.group, pos, t, t[m.start..m.end])
  }

  /** The citations one pattern finds in a paragraph, in text order. */
  function PatternCitations(kind: CitationKind, pat: CitePattern, t: string, pos: nat): (r: seq<Citation>)
    ensures forall k :: 0 <= k < |r| ==>
      r[k].kind == kind && r[k].position == pos && r[k].context == t && NumberShape(r[k].number, pat.suffix)
  {
    var ms := FindAll(pat, t, 0);
    seq(|ms|, k requires 0 <= k < |ms| => ToCitation(kind, t, pos, ms[k]))
  }

  /** The citations a list of patterns of one kind finds, pattern by pattern. */
  function KindCitations(kind: CitationKind, pats: seq<CitePattern>, t: string, pos: nat): seq<Citation>
    decreases |pats|
  {
    if pats == [] then [] else PatternCitations(kind, pats[0], t, pos) + KindCitations(kind, pats[1..], t, pos)
  }

  /** Every citation of a kind's patterns has that kind, the paragraph's
      position and text, and the number shape all of the patterns share. */
  lemma {:induction false} KindCitationsShape(kind: CitationKind, pats: seq<CitePattern>, suffix: bool, t: string, pos: nat)
    requires forall k :: 0 <= k < |pats| ==> pats[k].suffix == suffix
    ensures forall c :: c in KindCitations(kind, pats, t, pos) ==>
      c.kind == kind && c.position == pos && c.context == t && NumberShape(c.number, suffix)
    decreases |pats|
  {
    if pats != [] {
      KindCitationsShape(kind, pats[1..], suffix, t, pos);
    }
  }

  /** The citations of one paragraph: the figure patterns first, then the table patterns. */
  function ParagraphCitations(t: string, pos: nat): seq<Citation> {
    KindCitations(FigureKind, FigurePatterns, t, pos) + KindCitations(TableKind, TablePatterns, t, pos)
  }

  /** The citations of the body paragraphs from index `i` on, paragraph by paragraph. */
  function RawCitations(body: seq<BodyParagraph>, i: nat): seq<Citation>
    decreases |body| - i
  {
    if i >= |body| then [] else ParagraphCitations(body[i].text, i) + RawCitations(body, i + 1)
  }

  /** What a well-formed citation of the body looks like: a figure or table
      kind, the index and text of a body paragraph, and a number of digits
      (for figures possibly followed by one letter). */
  predicate WellFormed(c: Citation, body: seq<BodyParagraph>) {
    0 <= c.position < |body| && c.context == body[c.position].text &&
    (c.kind == FigureKind || c.kind == TableKind) &&
    NumberShape(c.number, c.kind == FigureKind)
  }

  lemma ParagraphCitationsShape(body: seq<BodyParagraph>, i: nat)
    requires i < |body|
    ensures forall c :: c in ParagraphCitations(body[i].text, i) ==> WellFormed(c, body) && c.position == i
  {
    var t := body[i].text;
    KindCitationsShape(FigureKind, FigurePatterns, true, t, i);
    KindCitationsShape(TableKind, TablePatterns, false, t, i);
  }

  /** Raw citations from index `i` are well formed, lie in paragraphs `i`
      and later, and come in paragraph order. */
  lemma {:induction false} RawCitationsShape(body: seq<BodyParagraph>, i: nat)
    ensures forall k :: 0 <= k < |RawCitations(body, i)| ==>
      WellFormed(RawCitations(body, i)[k], body) && RawCitations(body, i)[k].position >= i
    ensures SortedByPosition(RawCitations(body, i))
    decreases |body| - i
  {
    if i < |body| {
      RawCitationsShape(body, i + 1);
      ParagraphCitationsShape(body, i);
      var head := ParagraphCitations(body[i].text, i);
      var rest := RawCitations(body, i + 1);
      forall k | 0 <= k < |head| ensures WellFormed(head[k], body) && head[k].position == i {
        assert head[k] in head;
      }
      AppendInOrder(head, rest, i, body);
    }
  }

  /** Citations all at paragraph `i` followed by well-formed citations in
      order at paragraph `i` or later are well formed, at `i` or later, and in order. */
  lemma AppendInOrder(head: seq<Citation>, rest: seq<Citation>, i: nat, body: seq<BodyParagraph>)
    requires forall k :: 0 <= k < |head| ==> WellFormed(head[k], body) && head[k].position == i
    requires forall k :: 0 <= k < |rest| ==> WellFormed(rest[k], body) && rest[k].position >= i
    requires SortedByPosition(rest)
    ensures forall k :: 0 <= k < |head + rest| ==> WellFormed((head + rest)[k], body) && (head + rest)[k].position >= i
    ensures SortedByPosition(head + rest)
  {
    var all := head + rest;
    forall k | 0 <= k < |all| ensures WellFormed(all[k], body) && all[k].position >= i {
      if k >= |head| { assert all[k] == rest[k - |head|]; }
    }
    forall a, b | 0 <= a < b < |all| ensures all[a].position <= all[b].position {
      if a >= |head| {
        assert all[a] == rest[a - |head|] && all[b] == rest[b - |head|];
      } else if b >= |head| {
        assert all[b] == rest[b - |head|];
      }
    }
  }

  // ---------------------------------------------------------------------------
  // Duplicate removal

  type Key = (CitationKind, string, int)

  function KeyOf(c: Citation): Key {
    (c.kind, c.number, c.position)
  }

  /** One pass over the citations with the set of keys already seen: a
      citation whose key was seen is dropped, any other is kept and its key
      recorded. */
  function Dedupe(cs: seq<Citation>, seen: set<Key>): seq<Citation>
    decreases |cs|
  {
    if cs == [] then []
    else if KeyOf(cs[0]) in seen then Dedupe(cs[1..], seen)
    else [cs[0]] + Dedupe(cs[1..], seen + {KeyOf(cs[0])})
  }

  /** The kept citations have pairwise different keys, none of them seen before. */
  lemma {:induction false} DedupeDistinct(cs: seq<Citation>, seen: set<Key>)
    ensures forall k :: 0 <= k < |Dedupe(cs, seen)| ==> KeyOf(Dedupe(cs, seen)[k]) !in seen
    ensures forall a, b :: 0 <= a < b < |Dedupe(cs, seen)| ==> KeyOf(Dedupe(cs, seen)[a]) != KeyOf(Dedupe(cs, seen)[b])
    decreases |cs|
  {
    if cs != [] {
      if KeyOf(cs[0]) in seen {
        DedupeDistinct(cs[1..], seen);
      } else {
        var s' := seen + {KeyOf(cs[0])};
        DedupeDistinct(cs[1..], s');
        var rest := Dedupe(cs[1..], s');
        var r := Dedupe(cs, seen);
        assert r == [cs[0]] + rest;
        forall k | 0 < k < |r| ensures r[k] == rest[k - 1] { }
      }
    }
  }

  /** `cs[j]` is `c` and no earlier citation of `cs` has its key. */
  predicate FirstWithKey(cs: seq<Citation>, j: int, c: Citation) {
    0 <= j < |cs| && cs[j] == c && forall i :: 0 <= i < j ==> KeyOf(cs[i]) != KeyOf(c)
  }

  /** A citation is kept exactly when it is the first occurrence of its key
      and that key was not seen before. */
  lemma DedupeKeepsFirst(cs: seq<Citation>, seen: set<Key>, c: Citation)
    ensures c in Dedupe(cs, seen) <==> KeyOf(c) !in seen && exists j :: FirstWithKey(cs, j, c)
  {
    if c in Dedupe(cs, seen) {
      KeptIsFirst(cs, seen, c);
    }
    if KeyOf(c) !in seen && exists j :: FirstWithKey(cs, j, c) {
      var j :| FirstWithKey(cs, j, c);
      FirstIsKept(cs, seen, c, j);
    }
  }

  lemma {:induction false} KeptIsFirst(cs: seq<Citation>, seen: set<Key>, c: Citation)
    requires c in Dedupe(cs, seen)
    ensures KeyOf(c) !in seen && exists j :: FirstWithKey(cs, j, c)
    decreases |cs|
  {
    var x, rest := cs[0], cs[1..];
    if KeyOf(x) !in seen && c == x {
      assert FirstWithKey(cs, 0, c);
    } else {
      var s' := if KeyOf(x) in seen then seen else seen + {KeyOf(x)};
      assert c in Dedupe(rest, s');
      KeptIsFirst(rest, s', c);
      var j :| FirstWithKey(rest, j, c);
      assert cs[j + 1] == c;
      forall i | 0 <= i < j + 1 ensures KeyOf(cs[i]) != KeyOf(c) {
        if i > 0 { assert cs[i] == rest[i - 1]; }
      }
      assert FirstWithKey(cs, j + 1, c);
    }
  }

  lemma {:induction false} FirstIsKept(cs: seq<Citation>, seen: set<Key>, c: Citation, j: int)
    requires KeyOf(c) !in seen && FirstWithKey(cs, j, c)
    ensures c in Dedupe(cs, seen)
    decreases |cs|
  {
    var x, rest := cs[0], cs[1..];
    if j > 0 {
      assert KeyOf(x) != KeyOf(c);
      var s' := if KeyOf(x) in seen then seen else seen + {KeyOf(x)};
      forall i | 0 <= i < j - 1 ensures KeyOf(rest[i]) != KeyOf(c) {
        assert rest[i] == cs[i + 1];
      }
      assert FirstWithKey(rest, j - 1, c);
      FirstIsKept(rest, s', c, j - 1);
      assert c in Dedupe(rest, s');
    }
  }

  /** A list whose keys are already distinct and unseen passes unchanged. */
  lemma {:induction false} DedupeOfDistinct(cs: seq<Citation>, seen: set<Key>)
    requires forall k :: 0 <= k < |cs| ==> KeyOf(cs[k]) !in seen
    requires forall a, b :: 0 <= a < b < |cs| ==> KeyOf(cs[a]) != KeyOf(cs[b])
    ensures Dedupe(cs, seen) == cs
    decreases |cs|
  {
    if cs != [] {
      var s' := seen + {KeyOf(cs[0])};
      forall k | 0 <= k < |cs| - 1 ensures KeyOf(cs[1..][k]) !in s' {
        assert cs[1..][k] == cs[k + 1];
      }
      DedupeOfDistinct(cs[1..], s');
      assert [cs[0]] + cs[1..] == cs;
    }
  }

  /** Removing duplicates twice removes nothing more. */
  lemma DedupeIdempotent(cs: seq<Citation>)
    ensures Dedupe(Dedupe(cs, {}), {}) == Dedupe(cs, {})
  {
    DedupeDistinct(cs, {});
    DedupeOfDistinct(Dedupe(cs, {}), {});
  }

  /** Every citation duplicate removal keeps comes from its input. */
  lemma {:induction false} DedupeFromInput(cs: seq<Citation>, seen: set<Key>)
    ensures forall c :: c in Dedupe(cs, seen) ==> c in cs
    decreases |cs|
  {
    if cs != [] {
      var s' := if KeyOf(cs[0]) in seen then seen else seen + {KeyOf(cs[0])};
      DedupeFromInput(cs[1..], s');
      assert cs == [cs[0]] + cs[1..];
    }
  }

  /** Duplicate removal keeps the relative order: a list in paragraph order
      stays in paragraph order, with every kept citation taken from the input. */
  lemma {:induction false} DedupeSorted(cs: seq<Citation>, seen: set<Key>)
    requires SortedByPosition(cs)
    ensures SortedByPosition(Dedupe(cs, seen))
    ensures forall k :: 0 <= k < |Dedupe(cs, seen)| ==> Dedupe(cs, seen)[k] in cs
    decreases |cs|
  {
    DedupeFromInput(cs, seen);
    if cs != [] && KeyOf(cs[0]) !in seen {
      var s' := seen + {KeyOf(cs[0])};
      DedupeSorted(cs[1..], s');
      DedupeFromInput(cs[1..], s');
      DedupeSortedCons(cs, Dedupe(cs[1..], s'));
    } else if cs != [] {
      DedupeSorted(cs[1..], seen);
    }
  }

  /** Putting the head of a sorted list before a sorted list drawn from its
      tail keeps the order. */
  lemma DedupeSortedCons(cs: seq<Citation>, rest: seq<Citation>)
    requires SortedByPosition(cs) && cs != []
    requires SortedByPosition(rest)
    requires forall c :: c in rest ==> c in cs[1..]
    ensures SortedByPosition([cs[0]] + rest)
  {
    forall k | 0 <= k < |rest| ensures cs[0].position <= rest[k].position {
      assert rest[k] in cs[1..];
      var j :| 0 <= j < |cs| - 1 && cs[1..][j] == rest[k];
      assert cs[j + 1] == rest[k];
    }
    var r := [cs[0]] + rest;
    forall k | 0 < k < |r| ensures r[k] == rest[k - 1] { }
  }

  predicate SortedByPosition(cs: seq<Citation>) {
    forall a, b :: 0 <= a < b < |cs| ==> cs[a].position <= cs[b].position
  }

  /** Places `c` before the first citation whose position is not smaller,
      so that it stays ahead of the citations of its own paragraph. */
  function Insert(c: Citation, cs: seq<Citation>): (r: seq<Citation>)
    ensures multiset(r) == multiset(cs) + multiset{c}
    decreases |cs|
  {
    if cs == [] || c.position <= cs[0].position then [c] + cs
    else
      assert cs == [cs[0]] + cs[1..];
      [cs[0]] + Insert(c, cs[1..])
  }

  /** Insertion sort by position that keeps equal positions in input order. */
  function SortByPosition(cs: seq<Citation>): (r: seq<Citation>)
    ensures multiset(r) == multiset(cs)
    decreases |cs|
  {
    if cs == [] then []
    else
      assert cs == [cs[0]] + cs[1..];
      Insert(cs[0], SortByPosition(cs[1..]))
  }

  /** Inserting keeps a lower bound that both `c` and every element of `cs` meet. */
  lemma {:induction false} InsertAbove(c: Citation, cs: seq<Citation>, p: int)
    requires c.position >= p && forall k :: 0 <= k < |cs| ==> cs[k].position >= p
    ensures forall k :: 0 <= k < |Insert(c, cs)| ==> Insert(c, cs)[k].position >= p
    decreases |cs|
  {
    if !(cs == [] || c.position <= cs[0].position) {
      InsertAbove(c, cs[1..], p);
      var rest := Insert(c, cs[1..]);
      forall k | 0 < k < |rest| + 1 ensures ([cs[0]] + rest)[k].position >= p {
        assert ([cs[0]] + rest)[k] == rest[k - 1];
      }
    }
  }

  lemma {:induction false} InsertSorted(c: Citation, cs: seq<Citation>)
    requires SortedByPosition(cs)
    ensures SortedByPosition(Insert(c, cs))
    decreases |cs|
  {
    if !(cs == [] || c.position <= cs[0].position) {
      assert SortedByPosition(cs[1..]) by {
        forall a, b | 0 <= a < b < |cs| - 1 ensures cs[1..][a].position <= cs[1..][b].position {
          assert cs[1..][a] == cs[a + 1] && cs[1..][b] == cs[b + 1];
        }
      }
      InsertSorted(c, cs[1..]);
      forall k | 0 <= k < |cs| - 1 ensures cs[1..][k].position >= cs[0].position {
        assert cs[1..][k] == cs[k + 1];
      }
      InsertAbove(c, cs[1..], cs[0].position);
      var rest := Insert(c, cs[1..]);
      var r := [cs[0]] + rest;
      forall a, b | 0 <= a < b < |r| ensures r[a].position <= r[b].position {
        assert r[b] == rest[b - 1];
        if a > 0 { assert r[a] == rest[a - 1]; }
      }
    }
  }

  /** The sort orders by position. */
  lemma {:induction false} SortByPositionSorted(cs: seq<Citation>)
    ensures SortedByPosition(SortByPosition(cs))
    decreases |cs|
  {
    if cs != [] {
      SortByPositionSorted(cs[1..]);
      InsertSorted(cs[0], SortByPosition(cs[1..]));
    }
  }

  /** Being stable, the sort leaves a list that is already in order as it is. */
  lemma {:induction false} SortByPositionOfSorted(cs: seq<Citation>)
    requires SortedByPosition(cs)
    ensures SortByPosition(cs) == cs
    decreases |cs|
  {
    if cs != [] {
      assert SortedByPosition(cs[1..]) by {
        forall a, b | 0 <= a < b < |cs| - 1 ensures cs[1..][a].position <= cs[1..][b].position {
          assert cs[1..][a] == cs[a + 1] && cs[1..][b] == cs[b + 1];
        }
      }
      SortByPositionOfSorted(cs[1..]);
      assert |cs| > 1 ==> cs[0].position <= cs[1..][0].position;
      assert [cs[0]] + cs[1..] == cs;
    }
  }

  // ---------------------------------------------------------------------------
  // The locator

  /** `detect_citations`: the raw citations with duplicates removed, sorted by paragraph. */
  function CitationsOf(body: seq<BodyParagraph>): seq<Citation> {
    SortByPosition(Dedupe(RawCitations(body, 0), {}))
  }

  /** The raw citations are already in paragraph order, so the final sort
      changes nothing: the result is the de-duplicated raw list. Every
      citation in it is well formed, and no two share kind, number and
      paragraph. */
  lemma CitationsOfShape(body: seq<BodyParagraph>)
    ensures CitationsOf(body) == Dedupe(RawCitations(body, 0), {})
    ensures SortedByPosition(CitationsOf(body))
    ensures forall k :: 0 <= k < |CitationsOf(body)| ==> WellFormed(CitationsOf(body)[k], body)
    ensures forall a, b :: 0 <= a < b < |CitationsOf(body)| ==>
      KeyOf(CitationsOf(body)[a]) != KeyOf(CitationsOf(body)[b])
  {
    var raw := RawCitations(body, 0);
    RawCitationsShape(body, 0);
    DedupeSorted(raw, {});
    SortByPositionOfSorted(Dedupe(raw, {}));
    DedupeDistinct(raw, {});
    var r := Dedupe(raw, {});
    forall k | 0 <= k < |r| ensures WellFormed(r[k], body) {
      var j :| 0 <= j < |raw| && raw[j] == r[k];
    }
  }

  /** A citation is reported exactly when it is the first raw citation with its
      kind, number and paragraph. */
  lemma CitationsOfFirst(body: seq<BodyParagraph>, c: Citation)
    ensures c in CitationsOf(body) <==> exists j :: FirstWithKey(RawCitations(body, 0), j, c)
  {
    CitationsOfShape(body);
    DedupeKeepsFirst(RawCitations(body, 0), {}, c);
  }

  // ---------------------------------------------------------------------------
  // Numbers as the formatter reads them

  /** A table citation's number always converts with `int`. */
  lemma TableNumberParses(c: Citation, body: seq<BodyParagraph>)
    requires WellFormed(c, body) && c.kind == TableKind
    ensures ParseInt(c.number).Some?
  {
  }

  /** A figure citation's number converts after its trailing capitals are
      stripped exactly when it does not end in a lower-case letter: the
      pattern accepts `Figure 2b` (the letter class ignores case) but only
      capitals are stripped. */
  lemma FigureNumberParses(c: Citation, body: seq<BodyParagraph>)
    requires WellFormed(c, body) && c.kind == FigureKind
    ensures ParseInt(RStripUpper(c.number)).Some? <==> !('a' <= c.number[|c.number| - 1] <= 'z')
  {
    var g := c.number;
    var r := RStripUpper(g);
    if AllDigits(g) {
      assert r == g;
    } else if IsUpper(g[|g| - 1]) {
      assert RStripUpper(g[..|g| - 1]) == g[..|g| - 1];
      assert r == g[..|g| - 1];
    } else {
      assert r == g;
    }
  }
}
