# Manuscript formatter: a Dafny model of extraction, citation detection and placement

This project models the core of a manuscript formatter. The formatter reads a
word-processor manuscript and classifies its paragraphs into title, authors,
abstract, body and references. It extracts the embedded figures and tables
with their captions, and finds the in-text citations `Figure 2`, `(Fig. 1A)`
and `(Table 3)`. It then writes a new document: the title page, the abstract,
each body paragraph followed by the figures and tables cited in it, and the
references.

The model has these modules:

- `Prelude`: Option, a sequence filter and associativity helpers.
- `Text`: the Python string operations the source relies on: `strip`,
  `lower`, `int`, `str`, `rstrip` of capitals and `replace`.
- `Patterns`: every fixed regular expression of the source, written out as
  predicates and matchers, including `re.finditer` for the six citation
  patterns.
- `Manuscript`: the content model, a record of title, authors, abstract, body
  entries, references, figures and tables.
- `Classifier`: the forward scans that find the title, authors, abstract, body
  and references. Each scan is written as the loop runs it and again as a
  marker-based specification, and a `...ScanIsSpec` lemma proves the two
  equal.
- `Assets`: figure and table extraction and the caption lookup.
- `Citations`: the citation locator, which finds every match, removes
  duplicates by kind, number and paragraph, and sorts by paragraph.
- `Processor`: the `DocumentProcessor` class. Its fields are the content model
  and its methods are the extraction passes. Each method is proved to set its
  own field to the specification function and to leave the others alone.
- `Formatter`: the `JournalFormatter` class and the output document, an
  append-only list of blocks. Each formatter method is proved to append what a
  `...Blocks` specification function describes. The lemmas about those
  functions state the placement properties:
  - body text is preserved;
  - assets appear in citation order;
  - a missing asset is skipped silently;
  - a failed insertion leaves a placeholder;
  - the references come last.

The image decoder and the picture embedder are the parameters `decode` and
`embeds` of `Formatter.Imaging`. The source document arrives as the
constructor's parameters: the paragraphs with their text, style and first-run
boldness, the package relationships with their readable or unreadable parts,
and the tables with their rows, readable or not.

Where the code and its documentation differ, the model follows the code:

- Only capital letters are stripped from a figure number. `Figure 2b` matches
  the citation pattern, which ignores case, but `int("2b")` fails. The citation
  gets the placeholder, not figure 2 (`Formatter.FigureLowerCaseSuffix`).
- The figure caption is `Figure {int(number)}`, and the table caption likewise
  uses the converted number. A cited `Table 01` is captioned `Table 1`.
- A citation of a number with no extracted asset writes nothing, not even a
  placeholder.
- Figure and table insertion also write empty spacing paragraphs.

## Model

| member | source | states |
|---|---|---|
| Text.StripShape | document_processor.py:85 | `strip()` keeps the slice between the first and the last non-whitespace character; everything it cuts off is whitespace in the sense of `str.isspace` |
| Text.StripEmptyIff | document_processor.py:65 | a paragraph's stripped text is empty exactly when the whole text is whitespace |
| Text.ParseInt | formatter.py:193 | `int(s)` succeeds exactly on a non-empty string of decimal digits of any script (Unicode category Nd) |
| Text.AsciiDigits | document_processor.py:280-282 | the ASCII digits are exactly the decimal digits below code point 128, with their usual values |
| Text.NonAsciiDigits | formatter.py:193 | `int` reads Arabic-Indic three as 3 and fullwidth one, two as 12 |
| Text.NatToString | document_processor.py:228 | `str(n)` of a count is a non-empty string of digits |
| Text.ParseNatToString | formatter.py:260 | `int(str(n)) == n`: a number written by the processor reads back as itself |
| Text.NatToStringInjective | document_processor.py:220 | different figure or table numbers give different caption-pattern numbers |
| Text.RStripUpper | formatter.py:192 | `rstrip` of the capitals leaves a prefix that does not end in a capital, and removes only capitals |
| Text.RemoveAllAbsent | document_processor.py:70 | `replace('Title:', '')` leaves a text without `Title:` unchanged |
| Text.RemoveAllSinglePass | document_processor.py:70 | the deletion is one pass: `TiTitle:tle:` becomes `Title:`, so a title can still contain `Title:` |
| Patterns.DelimiterRun | document_processor.py:220 | `[\.:)\s]*` takes the maximal run of delimiters: all of them, and nothing after them |
| Patterns.GroupStart | document_processor.py:220 | the caption group `(.+)` starts after at least one delimiter of the run, on a character that is not a newline |
| Patterns.CaptionMatchNumber | document_processor.py:220 | a caption line of item `n` carries the digits of `n` where the number goes, followed by a non-digit |
| Patterns.CaptionNumberUnique | document_processor.py:220-226 | a line is the caption of at most one number, so `Figure 12: x` is not the caption of figure 1 |
| Patterns.NumberEnd | document_processor.py:280-282 | group 1 of a citation is decimal digits of any script, then for figures at most one letter of either case |
| Patterns.MatchAt | document_processor.py:280-288 | a pattern match starts where it is tried, is non-empty, and its group has the number shape of the pattern |
| Patterns.FindAll | document_processor.py:296 | `re.finditer` yields matches inside the text, non-overlapping and in text order, each group of the pattern's number shape |
| Patterns.FindAllNonAsciiNumber | document_processor.py:280-296 | `Figure ٣` is found as one citation whose group is the Arabic-Indic digit |
| Patterns.NonAsciiLegend | document_processor.py:127-130 | a figure legend numbered with a non-ASCII digit is a skipped line |
| Patterns.NonAsciiAuthor | document_processor.py:94 | a line with a non-ASCII digit before a comma is an author line |
| Patterns.DigitCommaFromIff | document_processor.py:94 | the search for `\d+\s*,` succeeds exactly when some digit is followed, after optional whitespace, by a comma |
| Text.SpaceNotDigit | document_processor.py:220 | no whitespace character is a decimal digit, so the delimiter run `[\.:)\s]+` after a caption number never extends the number |
| Patterns.BodyStartIsKept | document_processor.py:127-149 | a line that opens the body is never skipped, never a references heading and never empty |
| Patterns.ReferencesHeadingNotFigure | document_processor.py:179-185 | the references heading never closes the references section |
| Patterns.AbstractHeadingNotEnd | document_processor.py:110-116 | the abstract heading never closes the abstract |
| Classifier.TitleFoundIff | document_processor.py:62-77 | a title is set exactly when some paragraph is not blank |
| Classifier.TitleFromCandidate | document_processor.py:64-71 | the first non-blank candidate among the first ten paragraphs gives the title, with `Title:` removed and stripped, whatever follows |
| Classifier.TitleFallback | document_processor.py:73-77 | without a candidate in the first ten paragraphs, the title is the first non-blank paragraph, stripped |
| Classifier.AuthorsSpec | document_processor.py:93-95 | every author line has an `@` or a number before a comma, and is not itself a marker line |
| Classifier.AuthorScanIsSpec | document_processor.py:79-99 | the author loop collects the author lines after the first marker line among the first thirty, up to the first later line that mentions "abstract" |
| Classifier.AuthorsNeedMarker | document_processor.py:84-90 | without an `author` or `affiliation` line among the first thirty paragraphs there are no authors |
| Classifier.SectionScanIsSpec | document_processor.py:106-119 | a heading-delimited scan collects the non-empty lines after the first opening heading up to the first closing line, skipping repeated headings |
| Classifier.SectionAbsent | document_processor.py:106-119 | without an opening heading a section is empty |
| Classifier.AbstractScanIsSpec | document_processor.py:101-121 | the abstract loop collects exactly the abstract's lines; none is empty or an abstract heading |
| Classifier.ReferencesScanIsSpec | document_processor.py:170-190 | the references loop collects exactly the lines after the references heading up to the first line starting with "figure" or "table"; none is empty or a references heading |
| Classifier.HeadingByStyleOnly | document_processor.py:159-168 | with a style, a paragraph is a heading exactly when the style name contains `Heading`, whatever its boldness or length |
| Classifier.MakeBody | document_processor.py:151-155 | a body entry holds the stripped text, the heading flag and the style name, or `Normal` without a style |
| Classifier.BodyScanIsSpec | document_processor.py:123-157 | the body loop records exactly the non-blank, non-skipped paragraphs from the first opening line up to the references heading |
| Classifier.BodyStartsWithOpeningLine | document_processor.py:137-155 | the paragraph that opens the body is the first body entry |
| Classifier.BodyEntryOrigin | document_processor.py:134-155 | every body entry comes from a non-blank, non-skipped paragraph at or after the opening line and before the references heading |
| Assets.FindCaptionFirstMatch | document_processor.py:222-226 | the caption is the stripped group of the first paragraph that matches the caption pattern |
| Assets.FindCaptionDefault | document_processor.py:261-267 | without a matching paragraph the caption is `Figure n` or `Table n` |
| Assets.CaptionLineDecidesNumber | document_processor.py:259 | a paragraph that gives the caption of item `n` gives no other item's caption |
| Assets.ImageRels | document_processor.py:197-200 | a relationship is kept exactly when it is an image relationship with a readable part: none is missed and nothing else is kept |
| Assets.FiguresFromNumbered | document_processor.py:195-214 | the `k`-th figure comes from the `k`-th readable image and is numbered after the figures before it; unreadable images use no number |
| Assets.FiguresOf | document_processor.py:192-216 | figure `k+1` holds the bytes, relationship id and caption of the `k`-th readable image |
| Prelude.FirstNumbered | formatter.py:195-200 | the lookup returns an item of that number, and returns nothing only when no item has it; figures and tables share it |
| Prelude.FirstNumberedIsFirst | formatter.py:195-200 | the item returned is the first with that number, as `matching_figures[0]` and `matching_tables[0]` take |
| Assets.FigureNumberedConsecutive | formatter.py:195-200 | in figures numbered 1, 2, ... figure `n` is found exactly for `1 <= n <= count`, and it is the `n`-th |
| Assets.StripCells | document_processor.py:237-240 | table data has one row per source row, with every cell text stripped |
| Assets.TablesFromIncreasing | document_processor.py:234-253 | table numbers are the source indices plus one, strictly increasing, and an unreadable table's number is never reused |
| Assets.TablesFromLookup | document_processor.py:234-253 | the table numbered `n` exists exactly when the source table at that index reads, and it holds that table's stripped cells and the caption of table `n` |
| Assets.TableNumberedIff | document_processor.py:230-255 | table `n` is found exactly when the `n`-th source table reads, and it holds that table's stripped cells and caption |
| Assets.ImageSize | document_processor.py:327-341 | the decoder's pixel size when it reads the image, 800 by 600 otherwise |
| Citations.PatternCitations | document_processor.py:296-303 | every citation of a pattern has that kind, the paragraph's index and text, and the pattern's number shape |
| Citations.KindCitationsShape | document_processor.py:295-314 | every citation of a kind's patterns has that kind, the paragraph's index and text, and the number shape its patterns share |
| Citations.ParagraphCitationsShape | document_processor.py:291-314 | every citation of a paragraph is well formed and anchored at that paragraph |
| Citations.RawCitationsShape | document_processor.py:291-314 | the collected citations are well formed and already in paragraph order |
| Citations.DedupeDistinct | document_processor.py:316-323 | no two kept citations share kind, number and paragraph |
| Citations.DedupeKeepsFirst | document_processor.py:316-323 | a citation is kept exactly when it is the first with its key (first occurrence wins) |
| Citations.DedupeOfDistinct | document_processor.py:316-323 | a list whose keys are already distinct passes unchanged |
| Citations.DedupeIdempotent | document_processor.py:316-323 | removing duplicates twice removes nothing more |
| Citations.DedupeFromInput | document_processor.py:316-323 | every citation duplicate removal keeps is one of its input |
| Citations.DedupeSorted | document_processor.py:316-323 | duplicate removal keeps the relative order and takes every kept citation from the input |
| Citations.SortByPosition | document_processor.py:325 | the sort is a permutation of its input |
| Citations.SortByPositionSorted | document_processor.py:325 | the sort orders citations by paragraph |
| Citations.SortByPositionOfSorted | document_processor.py:325 | the sort is stable: a list already in paragraph order is left as it is, so ties keep their discovery order |
| Citations.CitationsOfShape | document_processor.py:269-325 | the locator's result is the de-duplicated raw list, sorted by paragraph, well formed, with distinct keys |
| Citations.CitationsOfFirst | document_processor.py:316-325 | a citation is reported exactly when it is the first raw match with its kind, number and paragraph |
| Citations.TableNumberParses | formatter.py:260 | a table citation's number always converts with `int` |
| Citations.FigureNumberParses | formatter.py:192-193 | a figure citation's number converts, after its capitals are stripped, exactly when it does not end in a lower-case letter |
| Processor.BodyEntriesKept | document_processor.py:149-155 | every body entry has non-empty text that no skip pattern matches, and comes from a paragraph of the document |
| Processor.AppendPatternCitations | document_processor.py:296-303 | the `finditer` loop appends the pattern's citations, in match order |
| Processor.AppendCitations | document_processor.py:295-314 | the loop over one kind's patterns appends their citations, pattern by pattern |
| Processor.CollectCitations | document_processor.py:291-314 | the first loop collects the raw citations of every paragraph, in paragraph order |
| Processor.RemoveDuplicates | document_processor.py:316-323 | the `seen`-set loop keeps what duplicate removal keeps, with pairwise distinct keys |
| Processor.ReadTableData | document_processor.py:237-240 | the row loop reads every row's stripped cell texts |
| Processor.DocumentProcessor.constructor | document_processor.py:21-41 | a loaded document starts with an empty content model |
| Processor.DocumentProcessor.ExtractAllContent | document_processor.py:43-60 | after the seven passes the content model is the one the document defines; the title keeps its old value when every paragraph is blank |
| Processor.DocumentProcessor.ExtractTitle | document_processor.py:62-77 | sets only the title: the first non-blank candidate, else the first non-blank paragraph, else unchanged |
| Processor.DocumentProcessor.ExtractAuthors | document_processor.py:79-99 | sets only the authors, to the author lines of the author section |
| Processor.DocumentProcessor.ExtractAbstract | document_processor.py:101-121 | sets only the abstract, to the abstract's lines joined with single spaces |
| Processor.DocumentProcessor.ExtractBody | document_processor.py:123-157 | sets only the body, to the entries of the body section |
| Processor.DocumentProcessor.ExtractReferences | document_processor.py:170-190 | sets only the references, to the lines of the references section |
| Processor.DocumentProcessor.ExtractFigures | document_processor.py:192-216 | sets only the figures, to the readable images numbered from 1 with their captions |
| Processor.DocumentProcessor.ExtractTables | document_processor.py:230-255 | sets only the tables, to the readable tables numbered by source index, with their stripped cells and captions |
| Processor.DocumentProcessor.DetectCitations | document_processor.py:269-325 | returns the locator's citations: sorted by paragraph, well formed, with no two sharing kind, number and paragraph |
| Formatter.ConvertLineSpacing | formatter.py:45-52 | `Single` gives 1.0, `1.5 lines` gives 1.5, and any other label 2.0 |
| Formatter.FigurePlaced | formatter.py:179-248 | a picture is placed exactly when the number converts, a figure has it and the embedder accepts it. The picture is that figure's bytes at the clamped width when the size is known, else at the configured width, followed by its caption |
| Formatter.FigureWidthBound | formatter.py:216 | a picture is never wider than the configured width, nor than 6.5 inches when its size is known |
| Formatter.FigureSubPanel | formatter.py:192-195 | `Figure 1A` places what `Figure 1` places, block for block, except for the number named in a placeholder |
| Formatter.FigureLowerCaseSuffix | formatter.py:192-193 | `Figure 2b` yields only the placeholder `[Figure 2b - insertion failed]` |
| Formatter.FigureCitationFails | formatter.py:244-248 | for a detected figure citation, the placeholder alone is written exactly when its number ends in a lower-case letter |
| Formatter.FigureLookupInExtracted | formatter.py:195-200 | for extracted figures, number `n` is found exactly when `1 <= n <=` the number of readable images, and it is the `n`-th image |
| Formatter.MissingFigureSkipped | formatter.py:197-198 | citing a figure number beyond the extracted figures writes no block at all |
| Formatter.MaxRowLength | formatter.py:286 | the column count is at least every row's length and equals some row's length; 0 for no rows |
| Formatter.PaddedCells | formatter.py:288-297 | the grid has one row per data row and the column count of cells, each cell holding the row's entry or empty text |
| Formatter.GridUnique | formatter.py:288-297 | two grids of the same table agree cell for cell |
| Formatter.GridRoundTrip | formatter.py:285-297 | a table whose rows all have the same non-zero length reappears in its grid unchanged |
| Formatter.FillGrid | formatter.py:289-297 | the fill loops leave every cell holding its row's entry, or the empty text of a new cell |
| Formatter.TablePlacedFromSource | formatter.py:250-318 | table `n` is placed exactly when the `n`-th source table read and has rows, with its caption and a grid of its stripped cells as wide as the widest row |
| Formatter.ParagraphBlocks | formatter.py:159-169 | one heading or paragraph block per body entry, in order, chosen by its heading flag |
| Formatter.PlacerPlacesAssets | formatter.py:173-177 | inserting a citation writes only spacing, picture, caption, grid and placeholder blocks |
| Formatter.BodyTextPreserved | formatter.py:159-177 | every body paragraph is written once, in order, and no other text block is written |
| Formatter.StrayCitationsIgnored | formatter.py:171-177 | citations outside the body or of another kind add nothing to the body |
| Formatter.BodyAssetsInCitationOrder | formatter.py:141-177 | for sorted, well-formed citations, the body's asset blocks are the citations' blocks in citation order, none reordered or lost |
| Formatter.AssetsByParagraph | formatter.py:158-177 | for any citations, the asset blocks of the body are those of the citations anchored at each paragraph, paragraph after paragraph |
| Formatter.AnchoredFromSorted | formatter.py:150-155 | grouping citations in paragraph order by paragraph, as the insertion map does, gives them back unchanged |
| Formatter.AssetsInCitationOrder | formatter.py:159-177 | the same from any paragraph on, for any placement that writes only asset blocks |
| Formatter.AuthorBlocks | formatter.py:108-115 | one centred author line per author, in order |
| Formatter.ReferenceLines | formatter.py:335-344 | one hanging-indent line per reference, in order |
| Formatter.DocumentText | formatter.py:54-84 | the text blocks of the document are the abstract, if any, then the body paragraphs in order |
| Formatter.DocumentReferences | formatter.py:320-344 | the reference lines of the document are exactly the references, in order, and the references section closes the document |
| Formatter.OutputDocument.Add | formatter.py:99 | adding a block appends it to the document |
| Formatter.JournalFormatter.constructor | formatter.py:31-43 | keeps the font size and figure width and converts the spacing label, with the source's defaults 12, `Double` and 6.0 |
| Formatter.JournalFormatter.FormatDocument | formatter.py:54-84 | a new document holding the title page, abstract, body with its figures and tables, and references, in that order |
| Formatter.JournalFormatter.AddTitlePage | formatter.py:95-118 | appends the title if there is one, each author, then a page break |
| Formatter.JournalFormatter.AddAbstract | formatter.py:120-139 | appends the label, the text and an empty paragraph when there is an abstract, else nothing |
| Formatter.JournalFormatter.AddReferences | formatter.py:320-344 | appends a page break, the label and each reference when there are references, else nothing |
| Formatter.JournalFormatter.AddBodyWithCitations | formatter.py:141-177 | appends each body paragraph followed by the blocks of the citations anchored at it |
| Formatter.JournalFormatter.InsertAnchored | formatter.py:173-177 | appends the blocks of a paragraph's citations one after the other |
| Formatter.JournalFormatter.InsertCitation | formatter.py:174-177 | a figure citation appends its figure, a table citation its table, and any other kind nothing |
| Formatter.JournalFormatter.InsertFigure | formatter.py:179-248 | appends what the figure-placement specification describes, including both fallbacks and the placeholder |
| Formatter.JournalFormatter.InsertTable | formatter.py:250-318 | appends what the table-placement specification describes: the placeholder, nothing, or the caption and grid |
| Formatter.BuildInsertionMap | formatter.py:151-156 | the map has a key exactly for the paragraphs some citation names, each holding that paragraph's citations in citation order |

## Left out

- Loading errors are not modelled. The source wraps loader and extraction failures in `ValueError` and `RuntimeError` and prints warnings; the model takes an already parsed document as its input.
- Fonts, sizes, margins (`_set_margins`), paragraph spacing (`_set_paragraph_spacing`), alignment and indents are not modelled. Blocks carry their role only, and the configured font size and line spacing are stored but not applied.
- The picture height from the aspect ratio is not modelled. Only the width reaches python-docx; the aspect-ratio step matters only for whether it raises, which `SizeKnown` captures.
- The `metadata` entry of the content model and the `table_obj` entry of a table are left out, because nothing reads them.
- Case-insensitive matching and `lower()` cover ASCII letters only. Unicode case folding, such as `ſ` matching `s`, is not modelled.
- `\d` and `int()` follow the decimal digits of Unicode 15.0 (Python 3.12); a Python built on another Unicode version may differ in a few recently added scripts. `int()` also accepts signs, surrounding whitespace and underscores, none of which a citation pattern can capture.
- PIL and python-docx are replaced by the `decode` and `embeds` oracles. The model assumes `embeds` gives the same answer when the fallback retries the same bytes.
- The web front end (app.py) is not part of this model.
- Formatter.JournalFormatter.FormatDocument: requires every heading entry to have text, because `add_heading` of an empty text fails on `runs[0]`. Extracted bodies always meet this (`Processor.BodyEntriesKept`).
- Formatter.JournalFormatter.AddBodyWithCitations: the same heading-text requirement as `FormatDocument`.
- The `style` name of a body entry is recorded but not used by the formatter, as in the source.
