/** The journal formatter: the block stream it writes for a content model
    and its citations. The output document is an append-only list of
    blocks; each formatter method appends to it step by step and is proved
    to append what the corresponding `...Blocks` function describes. */
module Formatter {
  import opened Prelude
  import opened Text
  import opened Manuscript
  import opened Assets
  import opened Citations

  /** The blocks the formatter writes, with the formatting roles that tell
      them apart (fonts, sizes and spacing are left to the renderer). */
  datatype Block =
    | TitleLine(text: string)        // centred bold title paragraph
    | AuthorLine(text: string)       // centred author paragraph
    | Label(text: string)            // bold paragraph opening the abstract or the references
    | Heading(text: string)          // level-1 heading of the body
    | Para(text: string)             // body-text paragraph with the configured size and spacing
    | ReferenceLine(text: string)    // reference with a hanging indent
    | Empty                          // empty paragraph (also one whose picture was refused)
    | PageBreak
    | Image(data: Bytes, width: real)  // centred picture, width in inches
    | Caption(text: string)          // centred bold caption
    | Grid(rows: nat, cols: nat, cells: seq<seq<string>>, boldHeader: bool)
    | Placeholder(text: string)      // italic note that an insertion failed

  /** The output document: the blocks appended so far. */
  class OutputDocument {
    var blocks: seq<Block>

    constructor ()
      ensures blocks == []
    {
      blocks := [];
    }

    method Add(b: Block)
      modifies this
      ensures blocks == old(blocks) + [b]
    {
      blocks := blocks + [b];
    }
  }

  /** The image decoder (PIL) and the picture embedder (python-docx
      `add_picture`), as oracles on the image bytes: the pixel size the
      decoder reports, if it can decode the bytes, and whether the embedder
      accepts them. */
  datatype Imaging = Imaging(decode: Bytes -> Option<(nat, nat)>, embeds: Bytes -> bool)

  /** `_convert_line_spacing`: the three labels of the settings and 2.0 for
      anything else. */
  function ConvertLineSpacing(spacing: string): (r: real)
    ensures spacing == "Single" ==> r == 1.0
    ensures spacing == "1.5 lines" ==> r == 1.5
    ensures spacing != "Single" && spacing != "1.5 lines" ==> r == 2.0
  {
    if spacing == "Single" then 1.0 else if spacing == "1.5 lines" then 1.5 else 2.0
  }

  function MinReal(a: real, b: real): real { if a <= b then a else b }

  /** The widest a figure is set when its size is known, in inches. */
  const MaxFigureWidth: real := 6.5

  // ---------------------------------------------------------------------------
  // Figures

  /** The aspect-ratio computation succeeds: the decoder reads the image
      and reports a non-zero width. */
  predicate SizeKnown(img: Imaging, data: Bytes) {
    img.decode(data).Some? && img.decode(data).value.0 > 0
  }

  function FigurePlaceholder(number: string): string {
    "[Figure " + number + " - insertion failed]"
  }

  /** What `_insert_figure` appends for a citation number. The number with
      its trailing capitals stripped must convert with `int`, else the
      placeholder. No figure with that number: nothing. Otherwise an empty
      paragraph, then the picture at the clamped width when its size is
      known (a refused picture leaves an empty paragraph), else or after
      that refusal the picture at the configured width; if that is refused
      as well, an empty paragraph and the placeholder, else the caption and
      an empty paragraph. */
  function FigureBlocks(figures: seq<Figure>, number: string, figureWidth: real, img: Imaging): seq<Block> {
    match ParseInt(RStripUpper(number))
    case None => [Placeholder(FigurePlaceholder(number))]
    case Some(n) =>
      match FigureNumbered(figures, n)
      case None => []
      case Some(f) =>
        var first := SizeKnown(img, f.imageData);
        if img.embeds(f.imageData) then
          [Empty, Image(f.imageData, if first then MinReal(figureWidth, MaxFigureWidth) else figureWidth),
           Caption("Figure " + NatToString(n) + ": " + f.caption), Empty]
        else
          [Empty] + (if first then [Empty] else []) + [Empty, Placeholder(FigurePlaceholder(number))]
  }

  /** A figure citation is placed as a picture exactly when its number
      converts, a figure carries that number and the embedder accepts it;
      the picture is then the figure's bytes, at the clamped width when its
      size is known and the configured width otherwise, followed by its
      caption. */
  lemma FigurePlaced(figures: seq<Figure>, number: string, figureWidth: real, img: Imaging)
    ensures var bs := FigureBlocks(figures, number, figureWidth, img);
      (exists k :: 0 <= k < |bs| && bs[k].Image?) <==>
      (ParseInt(RStripUpper(number)).Some? &&
       FigureNumbered(figures, ParseInt(RStripUpper(number)).value).Some? &&
       img.embeds(FigureNumbered(figures, ParseInt(RStripUpper(number)).value).value.imageData))
    ensures var bs := FigureBlocks(figures, number, figureWidth, img);
      forall k :: 0 <= k < |bs| && bs[k].Image? ==>
        (exists f :: f in figures && f.imageData == bs[k].data &&
           FigureNumbered(figures, f.number) == Some(f) &&
           bs[k + 1] == Caption("Figure " + NatToString(f.number) + ": " + f.caption)) &&
        bs[k].width == (if SizeKnown(img, bs[k].data) then MinReal(figureWidth, MaxFigureWidth) else figureWidth)
  {
    var bs := FigureBlocks(figures, number, figureWidth, img);
    match ParseInt(RStripUpper(number))
    case None =>
    case Some(n) =>
      match FigureNumbered(figures, n)
      case None =>
      case Some(f) =>
        if img.embeds(f.imageData) {
          assert bs[1].Image?;
          forall k | 0 <= k < |bs| && bs[k].Image? ensures k == 1 { }
          assert f.number == n && bs[1].data == f.imageData;
          assert f in figures && FigureNumbered(figures, f.number) == Some(f) &&
                 bs[2] == Caption("Figure " + NatToString(f.number) + ": " + f.caption);
        } else {
          forall k | 0 <= k < |bs| ensures !bs[k].Image? { }
        }
  }

  /** The width a figure is set at never exceeds the larger of the
      configured width and the clamp. */
  lemma FigureWidthBound(figures: seq<Figure>, number: string, figureWidth: real, img: Imaging)
    ensures var bs := FigureBlocks(figures, number, figureWidth, img);
      forall k :: 0 <= k < |bs| && bs[k].Image? ==>
        bs[k].width <= figureWidth && (SizeKnown(img, bs[k].data) ==> bs[k].width <= MaxFigureWidth)
  {
    FigurePlaced(figures, number, figureWidth, img);
  }

  /** A sub-panel letter (a capital) is ignored: "Figure 1A" places what
      "Figure 1" places, block for block, except that a placeholder names
      the number as cited. */
  lemma FigureSubPanel(figures: seq<Figure>, digits: string, letter: char, figureWidth: real, img: Imaging)
    requires |digits| > 0 && AllDigits(digits) && IsUpper(letter)
    ensures var a := FigureBlocks(figures, digits + [letter], figureWidth, img);
      var b := FigureBlocks(figures, digits, figureWidth, img);
      |a| == |b| &&
      forall k :: 0 <= k < |a| ==>
        a[k] == b[k] ||
        (a[k] == Placeholder(FigurePlaceholder(digits + [letter])) && b[k] == Placeholder(FigurePlaceholder(digits)))
  {
    var s := digits + [letter];
    assert s[..|s| - 1] == digits;
    assert IsDigit(digits[|digits| - 1]);
    assert RStripUpper(digits) == digits;
    assert RStripUpper(s) == digits;
  }

  /** A lower-case sub-panel letter is captured by the pattern but not
      stripped: the number does not convert and only the placeholder is
      written. */
  lemma FigureLowerCaseSuffix(figures: seq<Figure>, figureWidth: real, img: Imaging)
    ensures FigureBlocks(figures, "2b", figureWidth, img) == [Placeholder("[Figure 2b - insertion failed]")]
  {
    assert !IsUpper("2b"[1]);
    assert RStripUpper("2b") == "2b";
    assert !IsDigit("2b"[1]);
    assert ParseInt("2b") == None;
    assert FigurePlaceholder("2b") == "[Figure 2b - insertion failed]";
  }

  /** For a figure citation found by the locator, the placeholder is written
      alone exactly when its number ends in a lower-case letter. */
  lemma FigureCitationFails(c: Citation, body: seq<BodyParagraph>, figures: seq<Figure>, figureWidth: real, img: Imaging)
    requires WellFormed(c, body) && c.kind == FigureKind
    ensures FigureBlocks(figures, c.number, figureWidth, img) == [Placeholder(FigurePlaceholder(c.number))] <==>
            'a' <= c.number[|c.number| - 1] <= 'z'
  {
    FigureNumberParses(c, body);
    var bs := FigureBlocks(figures, c.number, figureWidth, img);
    match ParseInt(RStripUpper(c.number))
    case None =>
    case Some(n) =>
      match FigureNumbered(figures, n)
      case None =>
        assert bs == [];
      case Some(f) =>
        assert |bs| >= 3;
  }

  /** For the figures of a document, a citation number that converts finds
      a figure exactly when it lies between 1 and the number of images
      extracted, and then finds the image extracted in that place. */
  lemma FigureLookupInExtracted(rels: seq<Relationship>, ts: seq<string>, n: nat)
    ensures var fs := FiguresOf(rels, ts);
      (FigureNumbered(fs, n).Some? <==> 1 <= n <= |ImageRels(rels)|) &&
      (1 <= n <= |ImageRels(rels)| ==>
         FigureNumbered(fs, n) == Some(Figure(n, ImageRels(rels)[n - 1].blob.value, FigureCaption(ts, n),
                                              ImageRels(rels)[n - 1].id)))
  {
    var fs := FiguresOf(rels, ts);
    FigureNumberedConsecutive(fs, n, 0);
  }

  /** An existing figure number with no extracted figure is skipped
      silently: no block at all, not even a placeholder. */
  lemma MissingFigureSkipped(rels: seq<Relationship>, ts: seq<string>, n: nat, figureWidth: real, img: Imaging)
    requires n > |ImageRels(rels)|
    ensures FigureBlocks(FiguresOf(rels, ts), NatToString(n), figureWidth, img) == []
  {
    ParseNatToString(n);
    FigureLookupInExtracted(rels, ts, n);
    assert RStripUpper(NatToString(n)) == NatToString(n) by {
      var s := NatToString(n);
      assert !IsUpper(s[|s| - 1]);
    }
  }

  // ---------------------------------------------------------------------------
  // Tables

  /** The length of the longest row, 0 for no rows. */
  function MaxRowLength(data: seq<seq<string>>): (m: nat)
    ensures forall i :: 0 <= i < |data| ==> |data[i]| <= m
    ensures |data| > 0 ==> exists i :: 0 <= i < |data| && |data[i]| == m
    ensures |data| == 0 ==> m == 0
    decreases |data|
  {
    if data == [] then 0
    else
      var rest := MaxRowLength(data[1..]);
      assert forall i :: 1 <= i < |data| ==> data[i] == data[1..][i - 1];
      if |data[0]| >= rest then |data[0]| else rest
  }

  /** The text of cell (i, j) of the grid: the row's entry when the row has
      one, and the empty text of a new cell otherwise. */
  function CellText(data: seq<seq<string>>, i: nat, j: nat): string
    requires i < |data|
  {
    if j < |data[i]| then data[i][j] else ""
  }

  /** The grid of a table: `|data|` rows of `cols` cells. */
  predicate IsGridOf(cells: seq<seq<string>>, data: seq<seq<string>>, cols: nat) {
    |cells| == |data| &&
    forall i :: 0 <= i < |data| ==> |cells[i]| == cols && forall j :: 0 <= j < cols ==> cells[i][j] == CellText(data, i, j)
  }

  function PaddedCells(data: seq<seq<string>>, cols: nat): (cells: seq<seq<string>>)
    ensures IsGridOf(cells, data, cols)
  {
    seq(|data|, i requires 0 <= i < |data| => seq(cols, j requires 0 <= j < cols => CellText(data, i, j)))
  }

  /** A grid has one content: two grids of the same table agree. */
  lemma GridUnique(a: seq<seq<string>>, b: seq<seq<string>>, data: seq<seq<string>>, cols: nat)
    requires IsGridOf(a, data, cols) && IsGridOf(b, data, cols)
    ensures a == b
  {
    forall i | 0 <= i < |data| ensures a[i] == b[i] { }
  }

  /** A table whose rows all have the same non-zero length reappears in its
      grid cell for cell, with the same number of rows and columns. */
  lemma GridRoundTrip(data: seq<seq<string>>, cols: nat)
    requires |data| > 0 && cols > 0 && forall i :: 0 <= i < |data| ==> |data[i]| == cols
    ensures MaxRowLength(data) == cols
    ensures PaddedCells(data, MaxRowLength(data)) == data
  {
    var cells := PaddedCells(data, cols);
    forall i | 0 <= i < |data| ensures cells[i] == data[i] { }
  }

  /** The cells of an output table, row by row. */
  function GridRows(grid: array2<string>): (cells: seq<seq<string>>)
    reads grid
    ensures |cells| == grid.Length0 && forall i :: 0 <= i < grid.Length0 ==> |cells[i]| == grid.Length1
  {
    seq(grid.Length0, i requires 0 <= i < grid.Length0 reads grid =>
      seq(grid.Length1, j requires 0 <= j < grid.Length1 reads grid => grid[i, j]))
  }

  /** `doc.add_table(rows, cols)` and the loops that fill it: a grid of new
      (empty) cells, in which every row's entries are written into the
      cells that exist. */
  method FillGrid(data: seq<seq<string>>, cols: nat) returns (cells: seq<seq<string>>)
    requires forall i :: 0 <= i < |data| ==> |data[i]| <= cols
    ensures IsGridOf(cells, data, cols)
  {
    var grid := new string[|data|, cols]((i, j) => "");
    for i := 0 to |data|
      invariant forall r, c :: 0 <= r < |data| && 0 <= c < cols ==>
        grid[r, c] == if r < i then CellText(data, r, c) else ""
    {
      for j := 0 to |data[i]|
        invariant forall r, c :: 0 <= r < |data| && 0 <= c < cols ==>
          grid[r, c] == if r < i || (r == i && c < j) then CellText(data, r, c) else ""
      {
        if j < grid.Length1 {
          grid[i, j] := data[i][j];
        }
      }
    }
    cells := GridRows(grid);
  }

  function TablePlaceholder(number: string): string {
    "[Table " + number + " - insertion failed]"
  }

  /** What `_insert_table` appends for a citation number: the placeholder
      when the number does not convert; nothing when no table carries it or
      its data is empty; otherwise an empty paragraph, the caption, the grid
      (rows by the widest row, first row bold) when there is a column, and
      an empty paragraph. */
  function TableBlocks(tables: seq<Table>, number: string): seq<Block> {
    match ParseInt(number)
    case None => [Placeholder(TablePlaceholder(number))]
    case Some(n) =>
      match TableNumbered(tables, n)
      case None => []
      case Some(t) =>
        if t.data == [] then []
        else
          var cols := MaxRowLength(t.data);
          [Empty, Caption("Table " + NatToString(n) + ": " + t.caption)] +
          (if cols > 0 then [Grid(|t.data|, cols, PaddedCells(t.data, cols), true)] else []) +
          [Empty]
  }

  /** For the tables of a document, table `n` is placed exactly when the
      `n`-th source table read and has rows; its grid then has those rows,
      the width of the widest, and the stripped cell texts, with the first
      row bold. */
  lemma TablePlacedFromSource(src: seq<SourceTable>, ts: seq<string>, n: nat)
    ensures var bs := TableBlocks(TablesOf(src, ts), NatToString(n));
      (bs != [] <==> 1 <= n <= |src| && src[n - 1].rows.Some? && src[n - 1].rows.value != []) &&
      (bs != [] ==>
        var data := StripCells(src[n - 1].rows.value);
        bs[1] == Caption("Table " + NatToString(n) + ": " + TableCaption(ts, n)) &&
        (MaxRowLength(data) > 0 ==> bs[2] == Grid(|data|, MaxRowLength(data), PaddedCells(data, MaxRowLength(data)), true)))
  {
    ParseNatToString(n);
    TableNumberedIff(src, ts, n);
    var r := TableNumbered(TablesOf(src, ts), n);
    if r.Some? {
      TableBlocksOfTable(r.value, n);
    }
  }

  /** The blocks of a table that the lookup found: none when it has no rows,
      otherwise its caption second and, when some row has a cell, its grid third. */
  lemma TableBlocksOfTable(t: Table, n: nat)
    ensures var bs := [Empty, Caption("Table " + NatToString(n) + ": " + t.caption)] +
                      (if MaxRowLength(t.data) > 0
                       then [Grid(|t.data|, MaxRowLength(t.data), PaddedCells(t.data, MaxRowLength(t.data)), true)]
                       else []) + [Empty];
      bs[1] == Caption("Table " + NatToString(n) + ": " + t.caption) &&
      (MaxRowLength(t.data) > 0 ==> bs[2] == Grid(|t.data|, MaxRowLength(t.data), PaddedCells(t.data, MaxRowLength(t.data)), true))
  {
  }

  // ---------------------------------------------------------------------------
  // Body placement

  /** The block of a body paragraph. */
  function ParagraphBlock(p: BodyParagraph): Block {
    if p.isHeading then Heading(p.text) else Para(p.text)
  }

  /** The blocks of the body paragraphs from index `i`, one each, in order. */
  function ParagraphBlocks(body: seq<BodyParagraph>, i: nat): (r: seq<Block>)
    ensures |r| == if i <= |body| then |body| - i else 0
    ensures forall k :: 0 <= k < |r| ==> r[k] == ParagraphBlock(body[i + k])
    decreases |body| - i
  {
    if i >= |body| then [] else [ParagraphBlock(body[i])] + ParagraphBlocks(body, i + 1)
  }

  predicate IsTextBlock(b: Block) { b.Heading? || b.Para? }

  /** Blocks that only the insertion of a figure or table writes. */
  predicate IsAssetBlock(b: Block) { b.Empty? || b.Image? || b.Caption? || b.Grid? || b.Placeholder? }

  /** The citations anchored at body paragraph `i`, in citation order. */
  function AnchoredAt(cs: seq<Citation>, i: int): seq<Citation>
    decreases |cs|
  {
    if cs == [] then []
    else (if cs[0].position == i then [cs[0]] else []) + AnchoredAt(cs[1..], i)
  }

  lemma {:induction false} AnchoredAtAppend(a: seq<Citation>, b: seq<Citation>, i: int)
    ensures AnchoredAt(a + b, i) == AnchoredAt(a, i) + AnchoredAt(b, i)
    decreases |a|
  {
    if a == [] {
      assert a + b == b;
    } else {
      assert (a + b)[0] == a[0];
      assert (a + b)[1..] == a[1..] + b;
      AnchoredAtAppend(a[1..], b, i);
      AppendAssoc3(if a[0].position == i then [a[0]] else [], AnchoredAt(a[1..], i), AnchoredAt(b, i));
    }
  }

  lemma AnchoredAtSingle(c: Citation, i: int)
    ensures AnchoredAt([c], i) == if c.position == i then [c] else []
  {
    assert [c][1..] == [];
  }

  /** Nothing is anchored at a paragraph no citation names. */
  lemma {:induction false} AnchoredAtNone(cs: seq<Citation>, i: int)
    requires forall k :: 0 <= k < |cs| ==> cs[k].position != i
    ensures AnchoredAt(cs, i) == []
    decreases |cs|
  {
    if cs != [] {
      AnchoredAtNone(cs[1..], i);
    }
  }

  /** A list anchored entirely at `i` is its own anchored list. */
  lemma {:induction false} AnchoredAtAll(cs: seq<Citation>, i: int)
    requires forall k :: 0 <= k < |cs| ==> cs[k].position == i
    ensures AnchoredAt(cs, i) == cs
    decreases |cs|
  {
    if cs != [] {
      AnchoredAtAll(cs[1..], i);
      assert [cs[0]] + cs[1..] == cs;
    }
  }

  /** The blocks for one citation: its figure or table, nothing for another kind. */
  function CitationBlocks(c: Citation, content: Content, figureWidth: real, img: Imaging): seq<Block> {
    if c.kind == FigureKind then FigureBlocks(content.figures, c.number, figureWidth, img)
    else if c.kind == TableKind then TableBlocks(content.tables, c.number)
    else []
  }

  /** `CitationBlocks` for one document and one configuration. */
  function Placer(content: Content, figureWidth: real, img: Imaging): Citation -> seq<Block> {
    c => CitationBlocks(c, content, figureWidth, img)
  }

  /** The blocks for a list of citations, one after the other. */
  function CitationsBlocks(cs: seq<Citation>, place: Citation -> seq<Block>): seq<Block>
    decreases |cs|
  {
    if cs == [] then [] else place(cs[0]) + CitationsBlocks(cs[1..], place)
  }

  /** The body stream from paragraph `i`: each paragraph followed by the
      blocks of the citations anchored at it. */
  function BodyFrom(body: seq<BodyParagraph>, cs: seq<Citation>, i: nat, place: Citation -> seq<Block>): seq<Block>
    decreases |body| - i
  {
    if i >= |body| then []
    else [ParagraphBlock(body[i])] + CitationsBlocks(AnchoredAt(cs, i), place) + BodyFrom(body, cs, i + 1, place)
  }

  function BodyBlocks(content: Content, cs: seq<Citation>, figureWidth: real, img: Imaging): seq<Block> {
    BodyFrom(content.body, cs, 0, Placer(content, figureWidth, img))
  }

  lemma {:induction false} CitationsBlocksAppend(a: seq<Citation>, b: seq<Citation>, place: Citation -> seq<Block>)
    ensures CitationsBlocks(a + b, place) == CitationsBlocks(a, place) + CitationsBlocks(b, place)
    decreases |a|
  {
    if a == [] {
      assert a + b == b;
    } else {
      assert (a + b)[0] == a[0];
      assert (a + b)[1..] == a[1..] + b;
      CitationsBlocksAppend(a[1..], b, place);
    }
  }

  lemma CitationsBlocksStep(cs: seq<Citation>, k: nat, place: Citation -> seq<Block>)
    requires k < |cs|
    ensures CitationsBlocks(cs[k..], place) == place(cs[k]) + CitationsBlocks(cs[k + 1..], place)
  {
    assert cs[k..][0] == cs[k];
    assert cs[k..][1..] == cs[k + 1..];
  }

  lemma PlacerStep(cs: seq<Citation>, k: nat, content: Content, figureWidth: real, img: Imaging)
    requires k < |cs|
    ensures CitationsBlocks(cs[k..], Placer(content, figureWidth, img)) ==
            CitationBlocks(cs[k], content, figureWidth, img) + CitationsBlocks(cs[k + 1..], Placer(content, figureWidth, img))
  {
    CitationsBlocksStep(cs, k, Placer(content, figureWidth, img));
  }

  /** A placement that writes only asset blocks. */
  ghost predicate PlacesOnly(place: Citation -> seq<Block>, keep: Block -> bool) {
    forall c, k :: 0 <= k < |place(c)| ==> keep(place(c)[k])
  }

  /** The formatter's placement of a citation writes only asset blocks. */
  lemma PlacerPlacesAssets(content: Content, figureWidth: real, img: Imaging)
    ensures PlacesOnly(Placer(content, figureWidth, img), IsAssetBlock)
  {
    forall c: Citation, k | 0 <= k < |Placer(content, figureWidth, img)(c)|
      ensures IsAssetBlock(Placer(content, figureWidth, img)(c)[k])
    {
      var bs := CitationBlocks(c, content, figureWidth, img);
      if c.kind == FigureKind {
        assert forall j :: 0 <= j < |bs| ==> IsAssetBlock(bs[j]);
      } else if c.kind == TableKind {
        assert forall j :: 0 <= j < |bs| ==> IsAssetBlock(bs[j]);
      }
    }
  }

  lemma AllKeptAppend(a: seq<Block>, b: seq<Block>, keep: Block -> bool)
    requires forall k :: 0 <= k < |a| ==> keep(a[k])
    requires forall k :: 0 <= k < |b| ==> keep(b[k])
    ensures forall k :: 0 <= k < |a + b| ==> keep((a + b)[k])
  {
    forall k | 0 <= k < |a + b| ensures keep((a + b)[k]) {
      if k >= |a| { assert (a + b)[k] == b[k - |a|]; }
    }
  }

  /** Citations only ever produce asset blocks, never text. */
  lemma {:induction false} CitationsBlocksOnly(cs: seq<Citation>, place: Citation -> seq<Block>, keep: Block -> bool)
    requires PlacesOnly(place, keep)
    ensures forall k :: 0 <= k < |CitationsBlocks(cs, place)| ==> keep(CitationsBlocks(cs, place)[k])
    decreases |cs|
  {
    if cs != [] {
      CitationsBlocksOnly(cs[1..], place, keep);
      AllKeptAppend(place(cs[0]), CitationsBlocks(cs[1..], place), keep);
    }
  }

  /** Filtering a paragraph, its assets and the rest for `keep`, when `keep`
      holds of none of the assets. */
  lemma FilterStep(p: Block, assets: seq<Block>, rest: seq<Block>, keep: Block -> bool)
    requires forall k :: 0 <= k < |assets| ==> !keep(assets[k])
    ensures Filter([p] + assets + rest, keep) == (if keep(p) then [p] else []) + Filter(rest, keep)
  {
    FilterNone(assets, keep);
    FilterAppend([p], assets, keep);
    assert Filter([p] + assets, keep) == Filter([p], keep) + [];
    FilterAppend([p] + assets, rest, keep);
    FilterSingle(p, keep);
  }

  /** Every body paragraph is written exactly once, in order, as a heading
      or a paragraph according to its flag, and no other text block is
      written: paragraphs are neither merged, reordered nor dropped. */
  lemma {:induction false} BodyTextPreserved(body: seq<BodyParagraph>, cs: seq<Citation>, i: nat, place: Citation -> seq<Block>)
    requires PlacesOnly(place, IsAssetBlock)
    ensures Filter(BodyFrom(body, cs, i, place), IsTextBlock) == ParagraphBlocks(body, i)
    decreases |body| - i
  {
    if i < |body| {
      BodyTextPreserved(body, cs, i + 1, place);
      CitationsBlocksOnly(AnchoredAt(cs, i), place, IsAssetBlock);
      FilterStep(ParagraphBlock(body[i]), CitationsBlocks(AnchoredAt(cs, i), place), BodyFrom(body, cs, i + 1, place), IsTextBlock);
    }
  }

  /** A citation the formatter places: a figure or table anchored in the body. */
  predicate Placeable(c: Citation, paragraphs: nat) {
    0 <= c.position < paragraphs && (c.kind == FigureKind || c.kind == TableKind)
  }

  /** Citations anchored outside the body, and citations of another kind,
      add nothing: any selection of the citations that keeps every placeable
      one gives the same body. */
  lemma StrayCitationsIgnored(content: Content, cs: seq<Citation>, keep: Citation -> bool, figureWidth: real, img: Imaging)
    requires forall c :: Placeable(c, |content.body|) ==> keep(c)
    ensures BodyBlocks(content, cs, figureWidth, img) == BodyBlocks(content, Filter(cs, keep), figureWidth, img)
  {
    var place := Placer(content, figureWidth, img);
    forall c: Citation | 0 <= c.position < |content.body| && !keep(c) ensures place(c) == [] {
      assert !Placeable(c, |content.body|);
    }
    UnkeptIgnored(content.body, cs, keep, 0, place);
  }

  lemma {:induction false} UnkeptIgnored(body: seq<BodyParagraph>, cs: seq<Citation>, keep: Citation -> bool, i: nat,
                                         place: Citation -> seq<Block>)
    requires forall c: Citation :: 0 <= c.position < |body| && !keep(c) ==> place(c) == []
    ensures BodyFrom(body, cs, i, place) == BodyFrom(body, Filter(cs, keep), i, place)
    decreases |body| - i
  {
    if i < |body| {
      UnkeptIgnored(body, cs, keep, i + 1, place);
      AnchoredKept(cs, keep, i, |body|, place);
    }
  }

  lemma {:induction false} AnchoredKept(cs: seq<Citation>, keep: Citation -> bool, i: nat, paragraphs: nat,
                                        place: Citation -> seq<Block>)
    requires i < paragraphs
    requires forall c: Citation :: 0 <= c.position < paragraphs && !keep(c) ==> place(c) == []
    ensures CitationsBlocks(AnchoredAt(cs, i), place) == CitationsBlocks(AnchoredAt(Filter(cs, keep), i), place)
    decreases |cs|
  {
    if cs != [] {
      var c := cs[0];
      AnchoredKept(cs[1..], keep, i, paragraphs, place);
      var head := if c.position == i then [c] else [];
      var kept := if keep(c) then [c] else [];
      assert AnchoredAt(cs, i) == head + AnchoredAt(cs[1..], i);
      assert Filter(cs, keep) == kept + Filter(cs[1..], keep);
      AnchoredAtAppend(kept, Filter(cs[1..], keep), i);
      CitationsBlocksAppend(head, AnchoredAt(cs[1..], i), place);
      CitationsBlocksAppend(AnchoredAt(kept, i), AnchoredAt(Filter(cs[1..], keep), i), place);
      if keep(c) {
        assert AnchoredAt(kept, i) == head;
      } else {
        assert AnchoredAt(kept, i) == [];
        if c.position == i {
          assert CitationsBlocks(head, place) == place(c) + [];
        }
      }
    }
  }

  /** The number of leading citations anchored at `i`. */
  function LeadingAt(cs: seq<Citation>, i: int): (n: nat)
    ensures n <= |cs|
    ensures forall k :: 0 <= k < n ==> cs[k].position == i
    ensures n < |cs| ==> cs[n].position != i
    decreases |cs|
  {
    if cs == [] || cs[0].position != i then 0
    else
      var m := LeadingAt(cs[1..], i);
      assert forall k :: 1 <= k < m + 1 ==> cs[k] == cs[1..][k - 1];
      1 + m
  }

  /** In a sorted list whose positions are at least `i`, the citations
      anchored at `i` are its leading ones, and everything after them lies
      beyond `i`. */
  lemma SplitAnchored(cs: seq<Citation>, i: int, n: nat)
    requires SortedByPosition(cs)
    requires forall k :: 0 <= k < |cs| ==> i <= cs[k].position
    requires n == LeadingAt(cs, i)
    ensures AnchoredAt(cs, i) == cs[..n]
    ensures forall k :: 0 <= k < |cs| - n ==> cs[n..][k].position > i
  {
    BeyondLeading(cs, i, n);
    AnchoredLeading(cs, i, n);
  }

  lemma BeyondLeading(cs: seq<Citation>, i: int, n: nat)
    requires SortedByPosition(cs)
    requires forall k :: 0 <= k < |cs| ==> i <= cs[k].position
    requires n == LeadingAt(cs, i)
    ensures forall k :: 0 <= k < |cs| - n ==> cs[n..][k].position > i
  {
    forall k | 0 <= k < |cs| - n ensures cs[n..][k].position > i {
      assert cs[n..][k] == cs[n + k];
      assert cs[n].position <= cs[n + k].position;
    }
  }

  lemma AnchoredLeading(cs: seq<Citation>, i: int, n: nat)
    requires n <= |cs|
    requires forall k :: 0 <= k < n ==> cs[k].position == i
    requires forall k :: 0 <= k < |cs| - n ==> cs[n..][k].position > i
    ensures AnchoredAt(cs, i) == cs[..n]
  {
    var here, later := cs[..n], cs[n..];
    assert forall k :: 0 <= k < |here| ==> here[k].position == i by {
      forall k | 0 <= k < |here| ensures here[k].position == i {
        assert here[k] == cs[k];
      }
    }
    AnchoredAtAll(here, i);
    AnchoredAtNone(later, i);
    assert cs == here + later;
    AnchoredAtAppend(here, later, i);
  }

  lemma AssetsCombine(p: Block, assets: seq<Block>, rest: seq<Block>, restAssets: seq<Block>, keep: Block -> bool)
    requires forall k :: 0 <= k < |assets| ==> keep(assets[k])
    requires !keep(p)
    requires Filter(rest, keep) == restAssets
    ensures Filter([p] + assets + rest, keep) == assets + restAssets
  {
    AssetsStep(p, assets, rest, keep);
  }

  /** Filtering a paragraph, its assets and the rest for asset blocks. */
  lemma AssetsStep(p: Block, assets: seq<Block>, rest: seq<Block>, keep: Block -> bool)
    requires forall k :: 0 <= k < |assets| ==> keep(assets[k])
    requires !keep(p)
    ensures Filter([p] + assets + rest, keep) == assets + Filter(rest, keep)
  {
    FilterSingle(p, keep);
    FilterAll(assets, keep);
    FilterAppend([p], assets, keep);
    assert Filter([p] + assets, keep) == assets;
    FilterAppend([p] + assets, rest, keep);
  }

  lemma SortedSuffix(cs: seq<Citation>, n: nat)
    requires SortedByPosition(cs) && n <= |cs|
    ensures SortedByPosition(cs[n..])
  {
    var later := cs[n..];
    forall a, b | 0 <= a < b < |later| ensures later[a].position <= later[b].position {
      assert later[a] == cs[n + a] && later[b] == cs[n + b];
    }
  }

  /** `keep` holds of no paragraph block of the body. */
  predicate DropsParagraphs(body: seq<BodyParagraph>, keep: Block -> bool) {
    forall k :: 0 <= k < |body| ==> !keep(ParagraphBlock(body[k]))
  }

  /** Every citation of `cs` is anchored at a paragraph in `lo..hi`. */
  predicate AnchoredWithin(cs: seq<Citation>, lo: int, hi: int) {
    forall k :: 0 <= k < |cs| ==> lo <= cs[k].position < hi
  }

  /** The citations anchored at paragraphs `i` up to `hi`, paragraph by
      paragraph, each paragraph's in citation order. */
  function AnchoredFrom(cs: seq<Citation>, i: nat, hi: nat): seq<Citation>
    decreases hi - i
  {
    if i >= hi then [] else AnchoredAt(cs, i) + AnchoredFrom(cs, i + 1, hi)
  }

  /** For any citations, the asset blocks of the body stream from paragraph
      `i` are the blocks of the citations anchored at each paragraph, one
      paragraph after the other. */
  lemma {:induction false} AssetsByParagraph(body: seq<BodyParagraph>, cs: seq<Citation>, i: nat, place: Citation -> seq<Block>,
                                             keep: Block -> bool)
    requires PlacesOnly(place, keep) && DropsParagraphs(body, keep)
    ensures Filter(BodyFrom(body, cs, i, place), keep) == CitationsBlocks(AnchoredFrom(cs, i, |body|), place)
    decreases |body| - i
  {
    if i < |body| {
      AssetsByParagraph(body, cs, i + 1, place, keep);
      var here := AnchoredAt(cs, i);
      var later := AnchoredFrom(cs, i + 1, |body|);
      assert !keep(ParagraphBlock(body[i]));
      CitationsBlocksOnly(here, place, keep);
      AssetsCombine(ParagraphBlock(body[i]), CitationsBlocks(here, place), BodyFrom(body, cs, i + 1, place),
                    CitationsBlocks(later, place), keep);
      CitationsBlocksAppend(here, later, place);
    }
  }

  /** Nothing is anchored anywhere in an empty list. */
  lemma {:induction false} AnchoredFromEmpty(i: nat, hi: nat)
    ensures AnchoredFrom([], i, hi) == []
    decreases hi - i
  {
    if i < hi {
      AnchoredFromEmpty(i + 1, hi);
    }
  }

  /** Every citation is anchored before paragraph `j`. */
  predicate AnchoredBefore(cs: seq<Citation>, j: int) {
    forall k :: 0 <= k < |cs| ==> cs[k].position < j
  }

  /** Citations anchored before `j` are anchored before `j + 1` too, and
      none of them is anchored at `j`. */
  lemma AnchoredBeforeStep(front: seq<Citation>, j: int)
    requires AnchoredBefore(front, j)
    ensures AnchoredBefore(front, j + 1) && AnchoredAt(front, j) == []
  {
    AnchoredAtNone(front, j);
  }

  /** Citations anchored before `j` play no part from paragraph `j` on. */
  lemma {:induction false} AnchoredFromIgnoresFront(front: seq<Citation>, cs: seq<Citation>, j: nat, hi: nat)
    requires AnchoredBefore(front, j)
    ensures AnchoredFrom(front + cs, j, hi) == AnchoredFrom(cs, j, hi)
    decreases hi - j
  {
    if j < hi {
      AnchoredBeforeStep(front, j);
      AnchoredFromIgnoresFront(front, cs, j + 1, hi);
      AnchoredAtAppend(front, cs, j);
      assert AnchoredAt(front + cs, j) == AnchoredAt(cs, j);
    }
  }

  /** Grouping citations in paragraph order by paragraph gives them back
      unchanged: none is lost, repeated or moved. */
  lemma {:induction false} AnchoredFromSorted(cs: seq<Citation>, i: nat, hi: nat)
    requires SortedByPosition(cs) && AnchoredWithin(cs, i, hi)
    ensures AnchoredFrom(cs, i, hi) == cs
    decreases hi - i
  {
    if cs == [] {
      AnchoredFromEmpty(i, hi);
    } else {
      var n := LeadingAt(cs, i);
      LaterAnchoredBeyond(cs, i, n, hi);
      AnchoredFromSorted(cs[n..], i + 1, hi);
      AnchoredFromSplit(cs, i, hi, n);
    }
  }

  /** Paragraph `i` takes the first `n` citations and the later paragraphs
      take the rest: together they take the whole list. */
  lemma AnchoredFromSplit(cs: seq<Citation>, i: nat, hi: nat, n: nat)
    requires i < hi && n <= |cs|
    requires AnchoredAt(cs, i) == cs[..n]
    requires forall k :: 0 <= k < n ==> cs[k].position == i
    requires AnchoredFrom(cs[n..], i + 1, hi) == cs[n..]
    ensures AnchoredFrom(cs, i, hi) == cs
  {
    AnchoredFromIgnoresFront(cs[..n], cs[n..], i + 1, hi);
    assert cs[..n] + cs[n..] == cs;
  }

  /** When the citations are in paragraph order and all anchored in the
      body, the asset blocks of the stream are exactly the blocks of the
      citations, one after the other: no asset is reordered or lost. */
  lemma AssetsInCitationOrder(body: seq<BodyParagraph>, cs: seq<Citation>, i: nat, place: Citation -> seq<Block>,
                              keep: Block -> bool)
    requires PlacesOnly(place, keep) && DropsParagraphs(body, keep)
    requires SortedByPosition(cs) && AnchoredWithin(cs, i, |body|)
    ensures Filter(BodyFrom(body, cs, i, place), keep) == CitationsBlocks(cs, place)
  {
    AssetsByParagraph(body, cs, i, place, keep);
    AnchoredFromSorted(cs, i, |body|);
  }

  /** The citations after those anchored at paragraph `i` are sorted and
      anchored at later paragraphs, and paragraph `i` exists. */
  lemma LaterAnchoredBeyond(cs: seq<Citation>, i: int, n: nat, paragraphs: int)
    requires SortedByPosition(cs) && cs != [] && AnchoredWithin(cs, i, paragraphs)
    requires n == LeadingAt(cs, i)
    ensures i < paragraphs
    ensures AnchoredAt(cs, i) == cs[..n]
    ensures SortedByPosition(cs[n..]) && AnchoredWithin(cs[n..], i + 1, paragraphs)
  {
    assert cs[0].position < paragraphs;
    SplitAnchored(cs, i, n);
    SortedSuffix(cs, n);
    forall k | 0 <= k < |cs[n..]| ensures cs[n..][k].position < paragraphs {
      assert cs[n..][k] == cs[n + k];
    }
  }


  /** The formatter places the figures and tables of sorted, well-formed
      citations in citation order. */
  lemma BodyAssetsInCitationOrder(content: Content, cs: seq<Citation>, figureWidth: real, img: Imaging)
    requires SortedByPosition(cs)
    requires forall k :: 0 <= k < |cs| ==> WellFormed(cs[k], content.body)
    ensures Filter(BodyBlocks(content, cs, figureWidth, img), IsAssetBlock) ==
            CitationsBlocks(cs, Placer(content, figureWidth, img))
  {
    PlacerPlacesAssets(content, figureWidth, img);
    ParagraphsAreNotAssets(content.body);
    WellFormedAnchored(cs, content.body);
    AssetsInCitationOrder(content.body, cs, 0, Placer(content, figureWidth, img), IsAssetBlock);
  }

  lemma ParagraphsAreNotAssets(body: seq<BodyParagraph>)
    ensures DropsParagraphs(body, IsAssetBlock)
  {
  }

  lemma WellFormedAnchored(cs: seq<Citation>, body: seq<BodyParagraph>)
    requires forall k :: 0 <= k < |cs| ==> WellFormed(cs[k], body)
    ensures AnchoredWithin(cs, 0, |body|)
  {
  }

  /** `add_heading` of an empty text fails (the heading has no run to
      format), so the formatter needs text in every heading entry. */
  predicate HeadingsHaveText(body: seq<BodyParagraph>) {
    forall k :: 0 <= k < |body| ==> body[k].isHeading ==> body[k].text != ""
  }

  // ---------------------------------------------------------------------------
  // The document

  function AuthorBlocks(authors: seq<string>): (r: seq<Block>)
    ensures |r| == |authors| && forall k :: 0 <= k < |authors| ==> r[k] == AuthorLine(authors[k])
  {
    seq(|authors|, k requires 0 <= k < |authors| => AuthorLine(authors[k]))
  }

  function ReferenceLines(references: seq<string>): (r: seq<Block>)
    ensures |r| == |references| && forall k :: 0 <= k < |references| ==> r[k] == ReferenceLine(references[k])
  {
    seq(|references|, k requires 0 <= k < |references| => ReferenceLine(references[k]))
  }

  function TitlePageBlocks(content: Content): seq<Block> {
    (if content.title != "" then [TitleLine(content.title)] else []) + AuthorBlocks(content.authors) + [PageBreak]
  }

  function AbstractBlocks(content: Content): seq<Block> {
    if content.abstractText != "" then [Label("Abstract"), Para(content.abstractText), Empty] else []
  }

  function ReferencesBlocks(content: Content): seq<Block> {
    if content.references == [] then [] else [PageBreak, Label("References")] + ReferenceLines(content.references)
  }

  /** `format_document`: title page, abstract, body with its figures and
      tables, references. */
  function DocumentBlocks(content: Content, cs: seq<Citation>, figureWidth: real, img: Imaging): seq<Block> {
    TitlePageBlocks(content) + AbstractBlocks(content) + BodyBlocks(content, cs, figureWidth, img) + ReferencesBlocks(content)
  }

  /** Filtering the four sections of a document. */
  lemma FilterSections(t: seq<Block>, a: seq<Block>, b: seq<Block>, r: seq<Block>, keep: Block -> bool)
    ensures Filter(t + a + b + r, keep) == Filter(t, keep) + Filter(a, keep) + Filter(b, keep) + Filter(r, keep)
  {
    FilterAppend(t + a + b, r, keep);
    FilterAppend(t + a, b, keep);
    FilterAppend(t, a, keep);
  }

  /** The title page keeps nothing under a filter that drops its blocks. */
  lemma TitlePageFiltered(content: Content, keep: Block -> bool)
    requires forall b: Block :: (b.TitleLine? || b.AuthorLine? || b.PageBreak?) ==> !keep(b)
    ensures Filter(TitlePageBlocks(content), keep) == []
  {
    var head := if content.title != "" then [TitleLine(content.title)] else [];
    var au := AuthorBlocks(content.authors);
    FilterAppend(head + au, [PageBreak], keep);
    FilterAppend(head, au, keep);
    FilterNone(head, keep);
    FilterNone(au, keep);
    FilterNone([PageBreak], keep);
  }

  /** Filtering the four sections of a document whose first and last
      sections keep nothing. */
  lemma FilterAroundBody(t: seq<Block>, a: seq<Block>, b: seq<Block>, r: seq<Block>, keep: Block -> bool)
    requires Filter(t, keep) == [] && Filter(r, keep) == []
    ensures Filter(t + a + b + r, keep) == Filter(a, keep) + Filter(b, keep)
  {
    FilterSections(t, a, b, r, keep);
    var fa, fb := Filter(a, keep), Filter(b, keep);
    assert [] + fa == fa;
    assert fa + fb + [] == fa + fb;
  }

  /** The text blocks around a body: those of the abstract, then those of
      the body. */
  lemma SectionsText(content: Content, body: seq<Block>, keep: Block -> bool)
    requires forall b: Block :: (b.TitleLine? || b.AuthorLine? || b.PageBreak? || b.Label? || b.Empty? || b.ReferenceLine?) ==> !keep(b)
    requires keep(Para(content.abstractText))
    ensures Filter(TitlePageBlocks(content) + AbstractBlocks(content) + body + ReferencesBlocks(content), keep) ==
            (if content.abstractText != "" then [Para(content.abstractText)] else []) + Filter(body, keep)
  {
    assert Filter(TitlePageBlocks(content), keep) == [] by {
      TitlePageFiltered(content, keep);
    }
    assert Filter(ReferencesBlocks(content), keep) == [] by {
      ReferencesFiltered(content, keep);
      FilterNone(ReferenceLines(content.references), keep);
    }
    AbstractFiltered(content, keep);
    FilterAroundBody(TitlePageBlocks(content), AbstractBlocks(content), body, ReferencesBlocks(content), keep);
  }

  /** The references section keeps what a filter keeps of its lines, when
      the filter drops page breaks and labels. */
  lemma ReferencesFiltered(content: Content, keep: Block -> bool)
    requires !keep(PageBreak) && !keep(Label("References"))
    ensures Filter(ReferencesBlocks(content), keep) == Filter(ReferenceLines(content.references), keep)
  {
    if content.references != [] {
      FilterAppend([PageBreak, Label("References")], ReferenceLines(content.references), keep);
      FilterNone([PageBreak, Label("References")], keep);
    } else {
      assert ReferenceLines(content.references) == [];
    }
  }

  /** The abstract section under a filter that keeps paragraphs and drops
      labels and empty paragraphs. */
  lemma AbstractFiltered(content: Content, keep: Block -> bool)
    requires !keep(Label("Abstract")) && !keep(Empty) && keep(Para(content.abstractText))
    ensures Filter(AbstractBlocks(content), keep) ==
            if content.abstractText != "" then [Para(content.abstractText)] else []
  {
    if content.abstractText != "" {
      var l, p := Label("Abstract"), Para(content.abstractText);
      assert AbstractBlocks(content) == [l] + [p] + [Empty];
      FilterAppend([l] + [p], [Empty], keep);
      FilterAppend([l], [p], keep);
      FilterSingle(l, keep);
      FilterSingle(p, keep);
      FilterSingle(Empty, keep);
    }
  }

  /** The text blocks of the document are the abstract (if any) and then
      the body paragraphs, in order. */
  lemma DocumentText(content: Content, cs: seq<Citation>, figureWidth: real, img: Imaging)
    ensures Filter(DocumentBlocks(content, cs, figureWidth, img), IsTextBlock) ==
            (if content.abstractText != "" then [Para(content.abstractText)] else []) + ParagraphBlocks(content.body, 0)
  {
    var b := BodyBlocks(content, cs, figureWidth, img);
    assert Filter(b, IsTextBlock) == ParagraphBlocks(content.body, 0) by {
      PlacerPlacesAssets(content, figureWidth, img);
      BodyTextPreserved(content.body, cs, 0, Placer(content, figureWidth, img));
    }
    SectionsText(content, b, IsTextBlock);
  }

  predicate IsReferenceLine(b: Block) { b.ReferenceLine? }

  /** The body stream holds no reference lines. */
  lemma {:induction false} BodyHasNoReferenceLines(body: seq<BodyParagraph>, cs: seq<Citation>, i: nat, place: Citation -> seq<Block>)
    requires PlacesOnly(place, IsAssetBlock)
    ensures Filter(BodyFrom(body, cs, i, place), IsReferenceLine) == []
    decreases |body| - i
  {
    if i < |body| {
      BodyHasNoReferenceLines(body, cs, i + 1, place);
      CitationsBlocksOnly(AnchoredAt(cs, i), place, IsAssetBlock);
      FilterStep(ParagraphBlock(body[i]), CitationsBlocks(AnchoredAt(cs, i), place), BodyFrom(body, cs, i + 1, place), IsReferenceLine);
    }
  }

  /** The reference lines of the document are the references, in order,
      and the references section closes the document. */
  lemma DocumentReferences(content: Content, cs: seq<Citation>, figureWidth: real, img: Imaging)
    ensures Filter(DocumentBlocks(content, cs, figureWidth, img), IsReferenceLine) == ReferenceLines(content.references)
    ensures EndsWith(DocumentBlocks(content, cs, figureWidth, img), ReferencesBlocks(content))
  {
    var b := BodyBlocks(content, cs, figureWidth, img);
    assert Filter(b, IsReferenceLine) == [] by {
      PlacerPlacesAssets(content, figureWidth, img);
      BodyHasNoReferenceLines(content.body, cs, 0, Placer(content, figureWidth, img));
    }
    SectionsReferences(content, b);
    var front := TitlePageBlocks(content) + AbstractBlocks(content) + b;
    assert EndsWith(front + ReferencesBlocks(content), ReferencesBlocks(content));
  }

  /** `s` ends with `tail`. */
  predicate EndsWith(s: seq<Block>, tail: seq<Block>) {
    |tail| <= |s| && s[|s| - |tail|..] == tail
  }

  /** Around a body without reference lines, the reference lines of the
      document are those of the references section. */
  lemma SectionsReferences(content: Content, body: seq<Block>)
    requires Filter(body, IsReferenceLine) == []
    ensures Filter(TitlePageBlocks(content) + AbstractBlocks(content) + body + ReferencesBlocks(content), IsReferenceLine) ==
            ReferenceLines(content.references)
  {
    TitlePageNoReferences(content);
    AbstractNoReferences(content);
    ReferencesSectionLines(content);
    FilterOnlyLast(TitlePageBlocks(content), AbstractBlocks(content), body, ReferencesBlocks(content), IsReferenceLine);
  }

  lemma TitlePageNoReferences(content: Content)
    ensures Filter(TitlePageBlocks(content), IsReferenceLine) == []
  {
    TitlePageFiltered(content, IsReferenceLine);
  }

  lemma AbstractNoReferences(content: Content)
    ensures Filter(AbstractBlocks(content), IsReferenceLine) == []
  {
    FilterNone(AbstractBlocks(content), IsReferenceLine);
  }

  /** The references section keeps all of its reference lines and nothing else. */
  lemma ReferencesSectionLines(content: Content)
    ensures Filter(ReferencesBlocks(content), IsReferenceLine) == ReferenceLines(content.references)
  {
    ReferencesFiltered(content, IsReferenceLine);
    FilterAll(ReferenceLines(content.references), IsReferenceLine);
  }

  /** When the filter drops the first three sections, it keeps what it
      keeps of the last. */
  lemma FilterOnlyLast(t: seq<Block>, a: seq<Block>, b: seq<Block>, r: seq<Block>, keep: Block -> bool)
    requires Filter(t, keep) == [] && Filter(a, keep) == [] && Filter(b, keep) == []
    ensures Filter(t + a + b + r, keep) == Filter(r, keep)
  {
    FilterSections(t, a, b, r, keep);
    var fr := Filter(r, keep);
    assert [] + [] + [] + fr == fr;
  }

  // ---------------------------------------------------------------------------
  // The formatter

  class JournalFormatter {
    const fontSize: int
    const lineSpacing: real
    const figureWidth: real

    constructor (fontSize: int := 12, lineSpacing: string := "Double", figureWidth: real := 6.0)
      ensures this.fontSize == fontSize && this.lineSpacing == ConvertLineSpacing(lineSpacing)
      ensures this.figureWidth == figureWidth
    {
      this.fontSize := fontSize;
      this.lineSpacing := ConvertLineSpacing(lineSpacing);
      this.figureWidth := figureWidth;
    }

    /** `format_document`: a new document holding the title page, the
        abstract, the body with its figures and tables, and the references. */
    method FormatDocument(content: Content, citations: seq<Citation>, img: Imaging) returns (doc: OutputDocument)
      requires HeadingsHaveText(content.body)
      ensures fresh(doc)
      ensures doc.blocks == DocumentBlocks(content, citations, figureWidth, img)
    {
      doc := new OutputDocument();
      AddTitlePage(doc, content);
      assert doc.blocks == TitlePageBlocks(content);
      AddAbstract(doc, content);
      AddBodyWithCitations(doc, content, citations, img);
      AddReferences(doc, content);
    }

    /** `_add_title_page`: the title if there is one, each author, a page break. */
    method AddTitlePage(doc: OutputDocument, content: Content)
      modifies doc
      ensures doc.blocks == old(doc.blocks) + TitlePageBlocks(content)
    {
      if content.title != "" {
        doc.Add(TitleLine(content.title));
      }
      ghost var start := doc.blocks;
      for k := 0 to |content.authors|
        invariant doc.blocks == start + AuthorBlocks(content.authors[..k])
      {
        doc.Add(AuthorLine(content.authors[k]));
      }
      doc.Add(PageBreak);
    }

    /** `_add_abstract`: the label, the text and an empty paragraph, when
        there is an abstract. */
    method AddAbstract(doc: OutputDocument, content: Content)
      modifies doc
      ensures doc.blocks == old(doc.blocks) + AbstractBlocks(content)
    {
      if content.abstractText != "" {
        doc.Add(Label("Abstract"));
        doc.Add(Para(content.abstractText));
        doc.Add(Empty);
      }
    }

    /** `_add_references`: a page break, the label and each reference, when
        there are references. */
    method AddReferences(doc: OutputDocument, content: Content)
      modifies doc
      ensures doc.blocks == old(doc.blocks) + ReferencesBlocks(content)
    {
      if content.references != [] {
        doc.Add(PageBreak);
        doc.Add(Label("References"));
        ghost var start := doc.blocks;
        for k := 0 to |content.references|
          invariant doc.blocks == start + ReferenceLines(content.references[..k])
        {
          doc.Add(ReferenceLine(content.references[k]));
        }
      }
    }

    /** `_add_body_with_citations`: the insertion map, then each body
        paragraph followed by the figures and tables cited in it. */
    method AddBodyWithCitations(doc: OutputDocument, content: Content, citations: seq<Citation>, img: Imaging)
      requires HeadingsHaveText(content.body)
      modifies doc
      ensures doc.blocks == old(doc.blocks) + BodyBlocks(content, citations, figureWidth, img)
    {
      var insertionMap := BuildInsertionMap(citations);
      for idx := 0 to |content.body|
        invariant doc.blocks + BodyFrom(content.body, citations, idx, Placer(content, figureWidth, img)) ==
                  old(doc.blocks) + BodyBlocks(content, citations, figureWidth, img)
      {
        ghost var before := doc.blocks;
        var para := content.body[idx];
        if para.isHeading {
          doc.Add(Heading(para.text));
        } else {
          doc.Add(Para(para.text));
        }
        ghost var mid := doc.blocks;
        assert mid == before + [ParagraphBlock(para)];
        if idx in insertionMap {
          InsertAnchored(doc, content, insertionMap[idx], img);
        } else {
          AnchoredAtNone(citations, idx);
        }
        ghost var anchoredBlocks := CitationsBlocks(AnchoredAt(citations, idx), Placer(content, figureWidth, img));
        assert doc.blocks == mid + anchoredBlocks;
        ghost var rest := BodyFrom(content.body, citations, idx + 1, Placer(content, figureWidth, img));
        assert BodyFrom(content.body, citations, idx, Placer(content, figureWidth, img)) == [ParagraphBlock(para)] + anchoredBlocks + rest;
        AppendAssoc(before, [ParagraphBlock(para)], anchoredBlocks, rest);
      }
    }

    /** The inner loop of `_add_body_with_citations`: each citation of a
        paragraph's list, figure or table, in turn. */
    method InsertAnchored(doc: OutputDocument, content: Content, anchored: seq<Citation>, img: Imaging)
      modifies doc
      ensures doc.blocks == old(doc.blocks) + CitationsBlocks(anchored, Placer(content, figureWidth, img))
    {
      for k := 0 to |anchored|
        invariant doc.blocks + CitationsBlocks(anchored[k..], Placer(content, figureWidth, img)) ==
                  old(doc.blocks) + CitationsBlocks(anchored, Placer(content, figureWidth, img))
      {
        ghost var before := doc.blocks;
        InsertCitation(doc, content, anchored[k], img);
        PlacerStep(anchored, k, content, figureWidth, img);
        AppendAssoc3(before, CitationBlocks(anchored[k], content, figureWidth, img),
                     CitationsBlocks(anchored[k + 1..], Placer(content, figureWidth, img)));
      }
      assert anchored[|anchored|..] == [];
    }

    /** One citation of the inner loop: its figure or its table. */
    method InsertCitation(doc: OutputDocument, content: Content, citation: Citation, img: Imaging)
      modifies doc
      ensures doc.blocks == old(doc.blocks) + CitationBlocks(citation, content, figureWidth, img)
    {
      if citation.kind == FigureKind {
        InsertFigure(doc, content.figures, citation.number, img);
      } else if citation.kind == TableKind {
        InsertTable(doc, content.tables, citation.number);
      }
    }

    /** `_insert_figure`, following its two nested `try` blocks. */
    method InsertFigure(doc: OutputDocument, figures: seq<Figure>, number: string, img: Imaging)
      modifies doc
      ensures doc.blocks == old(doc.blocks) + FigureBlocks(figures, number, figureWidth, img)
    {
      var parsed := ParseInt(RStripUpper(number));
      if parsed.None? {
        doc.Add(Placeholder(FigurePlaceholder(number)));
        return;
      }
      var figNum := parsed.value;
      var matching := FigureNumbered(figures, figNum);
      if matching.None? {
        return;
      }
      var figure := matching.value;
      doc.Add(Empty);
      var inserted := false;
      if SizeKnown(img, figure.imageData) {
        var widthInches := MinReal(figureWidth, MaxFigureWidth);
        if img.embeds(figure.imageData) {
          doc.Add(Image(figure.imageData, widthInches));
          inserted := true;
        } else {
          doc.Add(Empty);
        }
      }
      if !inserted {
        // fallback: a new paragraph with the picture at the configured width
        if img.embeds(figure.imageData) {
          doc.Add(Image(figure.imageData, figureWidth));
          inserted := true;
        } else {
          doc.Add(Empty);
        }
      }
      if !inserted {
        doc.Add(Placeholder(FigurePlaceholder(number)));
        return;
      }
      doc.Add(Caption("Figure " + NatToString(figNum) + ": " + figure.caption));
      doc.Add(Empty);
    }

    /** `_insert_table`. */
    method InsertTable(doc: OutputDocument, tables: seq<Table>, number: string)
      modifies doc
      ensures doc.blocks == old(doc.blocks) + TableBlocks(tables, number)
    {
      var parsed := ParseInt(number);
      if parsed.None? {
        doc.Add(Placeholder(TablePlaceholder(number)));
        return;
      }
      var tableNum := parsed.value;
      var matching := TableNumbered(tables, tableNum);
      if matching.None? {
        return;
      }
      var tableData := matching.value.data;
      if tableData == [] {
        return;
      }
      doc.Add(Empty);
      doc.Add(Caption("Table " + NatToString(tableNum) + ": " + matching.value.caption));
      var rows := |tableData|;
      var cols := MaxRowLength(tableData);
      if rows > 0 && cols > 0 {
        var cells := FillGrid(tableData, cols);
        GridUnique(cells, PaddedCells(tableData, cols), tableData, cols);
        doc.Add(Grid(rows, cols, cells, true));
      }
      doc.Add(Empty);
    }
  }

  /** `insertion_map`: for every paragraph index that some citation is
      anchored at, the citations anchored there, in citation order. */
  method BuildInsertionMap(citations: seq<Citation>) returns (m: map<int, seq<Citation>>)
    ensures forall p :: p in m <==> exists k :: 0 <= k < |citations| && citations[k].position == p
    ensures forall p :: p in m ==> m[p] == AnchoredAt(citations, p)
  {
    m := map[];
    for i := 0 to |citations|
      invariant forall p :: p in m <==> exists k :: 0 <= k < i && citations[k].position == p
      invariant forall p :: p in m ==> m[p] == AnchoredAt(citations[..i], p)
    {
      var c := citations[i];
      assert citations[..i + 1] == citations[..i] + [c];
      forall p ensures AnchoredAt(citations[..i + 1], p) == AnchoredAt(citations[..i], p) + (if c.position == p then [c] else []) {
        AnchoredAtAppend(citations[..i], [c], p);
        AnchoredAtSingle(c, p);
      }
      if c.position !in m {
        AnchoredAtNone(citations[..i], c.position);
        m := m[c.position := []];
      }
      m := m[c.position := m[c.position] + [c]];
    }
    assert citations[..|citations|] == citations;
  }
}
