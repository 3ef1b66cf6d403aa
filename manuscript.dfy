/** The records that flow through the pipeline: what the source reader hands
    over (paragraphs, package relationships, tables) and the content model the
    processor builds from them. */
module Manuscript {
  import opened Prelude

  type Bytes = seq<bv8>

  /** A paragraph of the source document: its text as stored (not stripped),
      the name of its style when it has one, and whether its first run is
      bold (false as well when it has no runs or the run's bold is unset). */
  datatype RawParagraph = RawParagraph(text: string, styleName: Option<string>, firstRunBold: bool)

  /** An entry of the document part's relationship table, in storage order:
      its id, its target reference, and the target part's bytes (`None` when
      reading them raises). */
  datatype Relationship = Relationship(id: string, targetRef: string, blob: Option<Bytes>)

  /** A table of the source document: its rows of cell texts as stored
      (`None` when reading its rows or cells raises). */
  datatype SourceTable = SourceTable(rows: Option<seq<seq<string>>>)

  /** An entry of the extracted body: stripped text, style name ("Normal" for
      a paragraph without a style) and the heading flag. */
  datatype BodyParagraph = BodyParagraph(text: string, style: string, isHeading: bool)

  datatype Figure = Figure(number: nat, imageData: Bytes, caption: string, relId: string)

  datatype Table = Table(number: nat, data: seq<seq<string>>, caption: string)

  /** The `type` of a citation: "figure", "table", or any other string a
      caller may put there. */
  datatype CitationKind = FigureKind | TableKind | OtherKind(name: string)

  /** A citation found in the body: kind, the captured number text, the
      index of the body paragraph, that paragraph's text and the matched text. */
  datatype Citation = Citation(kind: CitationKind, number: string, position: int, context: string, matchText: string)

  /** The content model built by the processor. */
  datatype Content = Content(
    title: string,
    authors: seq<string>,
    abstractText: string,
    body: seq<BodyParagraph>,
    references: seq<string>,
    figures: seq<Figure>,
    tables: seq<Table>)
}
