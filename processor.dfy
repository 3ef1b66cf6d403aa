/** The document processor: one object per source document, whose
    `Extract...` methods scan the document and fill in the content model
    field by field, and whose `DetectCitations` method reads the extracted
    body. Each method runs the loop of the source and is proved to produce
    what the corresponding specification function describes. */
module Processor {
  import opened Prelude
  import opened Text
  import opened Patterns
  import opened Manuscript
  import opened Classifier
  import opened Assets
  import opened Citations

  /** The title the processor ends up with, starting from `initial`. */
  function TitleAfter(ps: seq<RawParagraph>, initial: string): string {
    match TitleOf(ps)
    case Some(t) => t
    case None => initial
  }

  /** The content model a freshly loaded document yields. */
  function ContentOf(ps: seq<RawParagraph>, rels: seq<Relationship>, src: seq<SourceTable>): Content {
    var ts := Lines(ps);
    Content(TitleAfter(ps, ""), AuthorsSpec(ts), AbstractOf(ts), BodySpec(ps), ReferencesOf(ts),
            FiguresOf(rels, ts), TablesOf(src, ts))
  }

  /** Every body entry of the content model has non-empty text that matches
      none of the skip patterns, and its heading flag is `_is_heading` of a
      paragraph with that stripped text. */
  lemma BodyEntriesKept(ps: seq<RawParagraph>)
    ensures forall b :: b in BodySpec(ps) ==> b.text != "" && !IsSkipLine(b.text)
    ensures forall b :: b in BodySpec(ps) ==>
      exists j :: 0 <= j < |ps| && b.text == Stripped(ps[j]) && b.isHeading == IsHeading(ps[j])
  {
    forall b | b in BodySpec(ps)
      ensures b.text != "" && !IsSkipLine(b.text)
      ensures exists j :: 0 <= j < |ps| && b.text == Stripped(ps[j]) && b.isHeading == IsHeading(ps[j])
    {
      BodyEntryOrigin(ps, b);
    }
  }

  lemma KindCitationsStep(kind: CitationKind, pats: seq<CitePattern>, j: nat, t: string, pos: nat)
    requires j < |pats|
    ensures KindCitations(kind, pats[j..], t, pos) ==
            PatternCitations(kind, pats[j], t, pos) + KindCitations(kind, pats[j + 1..], t, pos)
  {
    assert pats[j..][1..] == pats[j + 1..];
  }

  lemma RawCitationsStep(body: seq<BodyParagraph>, i: nat, before: seq<Citation>)
    requires i < |body|
    ensures before + RawCitations(body, i) ==
            before + KindCitations(FigureKind, FigurePatterns, body[i].text, i)
            + KindCitations(TableKind, TablePatterns, body[i].text, i) + RawCitations(body, i + 1)
  {
    var figures := KindCitations(FigureKind, FigurePatterns, body[i].text, i);
    var tables := KindCitations(TableKind, TablePatterns, body[i].text, i);
    assert RawCitations(body, i) == figures + tables + RawCitations(body, i + 1);
    AppendAssoc(before, figures, tables, RawCitations(body, i + 1));
  }

  /** Appends the citations that one pattern finds in the paragraph text `t`
      at body index `pos`: every match of `re.finditer`, in text order. */
  method AppendPatternCitations(cs: seq<Citation>, kind: CitationKind, pat: CitePattern, t: string, pos: nat)
    returns (r: seq<Citation>)
    ensures r == cs + PatternCitations(kind, pat, t, pos)
  {
    var ms := FindAll(pat, t, 0);
    ghost var all := PatternCitations(kind, pat, t, pos);
    r := cs;
    for m := 0 to |ms|
      invariant r == cs + all[..m]
    {
      assert all[..m + 1] == all[..m] + [all[m]];
      r := r + [ToCitation(kind, t, pos, ms[m])];
    }
    assert all[..|ms|] == all;
  }

  /** Appends the citations that the patterns `pats` of one kind find in the
      paragraph text `t` at body index `pos`, pattern by pattern. */
  method AppendCitations(cs: seq<Citation>, kind: CitationKind, pats: seq<CitePattern>, t: string, pos: nat)
    returns (r: seq<Citation>)
    ensures r == cs + KindCitations(kind, pats, t, pos)
  {
    r := cs;
    assert pats[0..] == pats;
    for j := 0 to |pats|
      invariant r + KindCitations(kind, pats[j..], t, pos) == cs + KindCitations(kind, pats, t, pos)
    {
      KindCitationsStep(kind, pats, j, t, pos);
      ghost var before := r;
      r := AppendPatternCitations(r, kind, pats[j], t, pos);
      AppendAssoc3(before, PatternCitations(kind, pats[j], t, pos), KindCitations(kind, pats[j + 1..], t, pos));
    }
    assert pats[|pats|..] == [];
  }

  /** The first loop of `detect_citations`: all matches of every paragraph,
      figure patterns before table patterns. */
  method CollectCitations(body: seq<BodyParagraph>) returns (citations: seq<Citation>)
    ensures citations == RawCitations(body, 0)
  {
    citations := [];
    for i := 0 to |body|
      invariant citations + RawCitations(body, i) == RawCitations(body, 0)
    {
      var text := body[i].text;
      ghost var before := citations;
      citations := AppendCitations(citations, FigureKind, FigurePatterns, text, i);
      citations := AppendCitations(citations, TableKind, TablePatterns, text, i);
      RawCitationsStep(body, i, before);
    }
  }

  /** The second loop of `detect_citations`: keeps a citation when its key
      (kind, number, position) is not in the `seen` set, and records the key. */
  method RemoveDuplicates(citations: seq<Citation>) returns (unique: seq<Citation>)
    ensures unique == Dedupe(citations, {})
    ensures forall a, b :: 0 <= a < b < |unique| ==> KeyOf(unique[a]) != KeyOf(unique[b])
  {
    unique := [];
    var seen: set<Key> := {};
    for k := 0 to |citations|
      invariant unique + Dedupe(citations[k..], seen) == Dedupe(citations, {})
    {
      assert citations[k..][1..] == citations[k + 1..];
      var key := KeyOf(citations[k]);
      if key !in seen {
        seen := seen + {key};
        unique := unique + [citations[k]];
      }
    }
    assert citations[|citations|..] == [];
    DedupeDistinct(citations, {});
  }

  /** The stripped cell texts of a table, read row by row. */
  method ReadTableData(rows: seq<seq<string>>) returns (tableData: seq<seq<string>>)
    ensures tableData == StripCells(rows)
  {
    tableData := [];
    for r := 0 to |rows|
      invariant |tableData| == r && forall k :: 0 <= k < r ==> tableData[k] == StripRow(rows[k])
    {
      tableData := tableData + [StripRow(rows[r])];
    }
  }

  class DocumentProcessor {
    /** The source document as the reader hands it over. */
    const paragraphs: seq<RawParagraph>
    const rels: seq<Relationship>
    const sourceTables: seq<SourceTable>

    /** The content model, filled in by the extraction methods. */
    var title: string
    var authors: seq<string>
    var abstractText: string
    var body: seq<BodyParagraph>
    var references: seq<string>
    var figures: seq<Figure>
    var tables: seq<Table>

    function Content(): Content
      reads this
    {
      Manuscript.Content(title, authors, abstractText, body, references, figures, tables)
    }

    /** A loaded document starts with an empty content model. */
    constructor (paragraphs: seq<RawParagraph>, rels: seq<Relationship>, sourceTables: seq<SourceTable>)
      ensures this.paragraphs == paragraphs && this.rels == rels && this.sourceTables == sourceTables
      ensures Content() == Manuscript.Content("", [], "", [], [], [], [])
    {
      this.paragraphs := paragraphs;
      this.rels := rels;
      this.sourceTables := sourceTables;
      title, authors, abstractText, body, references, figures, tables := "", [], "", [], [], [], [];
    }

    /** `extract_all_content`: the seven extraction passes in order. */
    method ExtractAllContent()
      modifies this
      ensures Content() == ContentOf(paragraphs, rels, sourceTables).(title := TitleAfter(paragraphs, old(title)))
    {
      ExtractTitle();
      ExtractAuthors();
      ExtractAbstract();
      ExtractBody();
      ExtractReferences();
      ExtractFigures();
      ExtractTables();
    }

    /** `_extract_title`: the first non-blank title candidate among the first
        ten paragraphs, else the first non-blank paragraph; unchanged when
        every paragraph is blank. */
    method ExtractTitle()
      modifies this`title
      ensures Content() == old(Content()).(title := TitleAfter(paragraphs, old(title)))
    {
      var hi := Min(TitleWindow, |paragraphs|);
      for i := 0 to hi
        invariant forall j :: 0 <= j < i ==> !IsTitleLine(paragraphs[j])
      {
        var para := paragraphs[i];
        if Strip(para.text) != "" {
          if IsTitleCandidate(para) {
            title := Strip(RemoveAll(para.text, "Title:"));
            TitleFromCandidate(paragraphs, i);
            return;
          }
        }
      }
      for i := 0 to |paragraphs|
        invariant forall j :: 0 <= j < i ==> Stripped(paragraphs[j]) == ""
      {
        var text := Strip(paragraphs[i].text);
        if text != "" {
          title := text;
          TitleFallback(paragraphs, i);
          return;
        }
      }
      TitleFoundIff(paragraphs);
    }

    /** `_extract_authors`: the author scan over the first thirty paragraphs. */
    method ExtractAuthors()
      modifies this`authors
      ensures Content() == old(Content()).(authors := AuthorsSpec(Lines(paragraphs)))
    {
      var ts := Lines(paragraphs);
      var hi := Min(AuthorWindow, |paragraphs|);
      var authorSection := false;
      var found: seq<string> := [];
      for i := 0 to hi
        invariant AuthorScan(ts) == MarkedScan(IsAuthorMarker, IsAuthorLine, EndsAuthors, ts, i, hi, authorSection, found)
      {
        var text := Strip(paragraphs[i].text);
        if IsAuthorMarker(text) {
          authorSection := true;
          continue;
        }
        if authorSection {
          if IsAuthorLine(text) {
            found := found + [text];
          } else if Contains(Lower(text), "abstract") {
            assert AuthorScan(ts) == found;
            break;
          }
        }
      }
      authors := found;
      AuthorScanIsSpec(ts);
    }

    /** `_extract_abstract`: the lines of the abstract section joined with spaces. */
    method ExtractAbstract()
      modifies this`abstractText
      ensures Content() == old(Content()).(abstractText := AbstractOf(Lines(paragraphs)))
    {
      var ts := Lines(paragraphs);
      var lines: seq<string> := [];
      var inAbstract := false;
      for i := 0 to |paragraphs|
        invariant SectionScan(IsAbstractHeading, IsAbstractEnd, ts, 0, false, []) ==
                  SectionScan(IsAbstractHeading, IsAbstractEnd, ts, i, inAbstract, lines)
      {
        var text := Strip(paragraphs[i].text);
        if IsAbstractHeading(text) {
          inAbstract := true;
          continue;
        }
        if inAbstract && IsAbstractEnd(text) {
          assert SectionScan(IsAbstractHeading, IsAbstractEnd, ts, 0, false, []) == lines;
          break;
        }
        if inAbstract && text != "" {
          lines := lines + [text];
        }
      }
      AbstractScanIsSpec(ts);
      abstractText := Join(" ", lines);
    }

    /** `_extract_body`: the body entries from the opening line up to the
        references heading, without blank and skipped lines. */
    method ExtractBody()
      modifies this`body
      ensures Content() == old(Content()).(body := BodySpec(paragraphs))
    {
      var ts := Lines(paragraphs);
      var entries: seq<BodyParagraph> := [];
      var inBody := false;
      for i := 0 to |paragraphs|
        invariant BodyScan(paragraphs) ==
                  BodyScanFrom(StartsBody, IsReferencesHeading, IsSkipLine, MakeBody, ts, paragraphs, i, inBody, entries)
      {
        var text := Strip(paragraphs[i].text);
        if StartsBody(text) {
          inBody := true;
        }
        if inBody && IsReferencesHeading(text) {
          assert BodyScan(paragraphs) == entries;
          break;
        }
        if IsSkipLine(text) {
          continue;
        }
        if inBody && text != "" {
          var para := paragraphs[i];
          entries := entries + [BodyParagraph(text, if para.styleName.Some? then para.styleName.value else "Normal",
                                              IsHeading(para))];
        }
      }
      BodyScanIsSpec(paragraphs);
      body := entries;
    }

    /** `_extract_references`: the non-empty lines after the references
        heading, up to a line starting with "figure" or "table". */
    method ExtractReferences()
      modifies this`references
      ensures Content() == old(Content()).(references := ReferencesOf(Lines(paragraphs)))
    {
      var ts := Lines(paragraphs);
      var found: seq<string> := [];
      var inReferences := false;
      for i := 0 to |paragraphs|
        invariant SectionScan(IsReferencesHeading, StartsFigureOrTable, ts, 0, false, []) ==
                  SectionScan(IsReferencesHeading, StartsFigureOrTable, ts, i, inReferences, found)
      {
        var text := Strip(paragraphs[i].text);
        if IsReferencesHeading(text) {
          inReferences := true;
          continue;
        }
        if inReferences && StartsFigureOrTable(text) {
          assert SectionScan(IsReferencesHeading, StartsFigureOrTable, ts, 0, false, []) == found;
          break;
        }
        if inReferences && text != "" {
          found := found + [text];
        }
      }
      ReferencesScanIsSpec(ts);
      references := found;
    }

    /** `_extract_figures`: every image relationship whose part reads becomes
        the next figure; the counter advances only for those. */
    method ExtractFigures()
      modifies this`figures
      ensures Content() == old(Content()).(figures := FiguresOf(rels, Lines(paragraphs)))
    {
      var ts := Lines(paragraphs);
      var found: seq<Figure> := [];
      var figureCounter: nat := 0;
      for i := 0 to |rels|
        invariant found + FiguresFrom(rels[i..], ts, figureCounter) == FiguresFrom(rels, ts, 0)
      {
        assert rels[i..][1..] == rels[i + 1..];
        var rel := rels[i];
        if Contains(rel.targetRef, "image") {
          match rel.blob
          case None =>
            // reading the part raised: the image is passed over
          case Some(imageData) =>
            var caption := FigureCaption(ts, figureCounter + 1);
            found := found + [Figure(figureCounter + 1, imageData, caption, rel.id)];
            figureCounter := figureCounter + 1;
        }
      }
      assert rels[|rels|..] == [];
      figures := found;
    }

    /** `_extract_tables`: every source table whose rows read becomes the
        table numbered by its position, its cells stripped. */
    method ExtractTables()
      modifies this`tables
      ensures Content() == old(Content()).(tables := TablesOf(sourceTables, Lines(paragraphs)))
    {
      var ts := Lines(paragraphs);
      var found: seq<Table> := [];
      for idx := 0 to |sourceTables|
        invariant found + TablesFrom(sourceTables[idx..], ts, idx) == TablesOf(sourceTables, ts)
      {
        assert sourceTables[idx..][1..] == sourceTables[idx + 1..];
        match sourceTables[idx].rows
        case None =>
          // reading the table raised: it is passed over and its number unused
        case Some(rows) =>
          var tableData := ReadTableData(rows);
          var caption := TableCaption(ts, idx + 1);
          found := found + [Table(idx + 1, tableData, caption)];
      }
      assert sourceTables[|sourceTables|..] == [];
      tables := found;
    }

    /** `detect_citations`: every match of the figure patterns and then the
        table patterns in every body paragraph, duplicates on kind, number
        and paragraph dropped (the first is kept), ordered by paragraph. */
    method DetectCitations() returns (result: seq<Citation>)
      ensures result == CitationsOf(body)
      ensures SortedByPosition(result)
      ensures forall k :: 0 <= k < |result| ==> WellFormed(result[k], body)
      ensures forall a, b :: 0 <= a < b < |result| ==> KeyOf(result[a]) != KeyOf(result[b])
    {
      var citations := CollectCitations(body);
      var unique := RemoveDuplicates(citations);
      result := SortByPosition(unique);
      CitationsOfShape(body);
    }
  }
}
