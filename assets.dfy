/** Figures, tables and their captions: which parts of the package become
    figures and how they are numbered, which source tables become tables,
    and how a caption is looked up among the paragraphs. */
module Assets {
  import opened Prelude
  import opened Text
  import opened Patterns
  import opened Manuscript

  // ---------------------------------------------------------------------------
  // Captions

  /** The first value `f` gives for the lines from index `i` on. */
  function FirstSome<T>(ts: seq<string>, i: nat, f: string -> Option<T>): Option<T>
    decreases |ts| - i
  {
    if i >= |ts| then None
    else match f(ts[i])
      case Some(c) => Some(c)
      case None => FirstSome(ts, i + 1, f)
  }

  /** The search finds the value of the first line with one, and nothing
      exactly when no line from `i` on has one. */
  lemma {:induction false} FirstSomeIs<T>(ts: seq<string>, i: nat, f: string -> Option<T>)
    requires i <= |ts|
    ensures FirstSome(ts, i, f).None? <==> forall j :: i <= j < |ts| ==> f(ts[j]).None?
    ensures FirstSome(ts, i, f).Some? ==>
      exists j :: i <= j < |ts| && f(ts[j]) == FirstSome(ts, i, f) && forall k :: i <= k < j ==> f(ts[k]).None?
    decreases |ts| - i
  {
    if i < |ts| && f(ts[i]).None? {
      FirstSomeIs(ts, i + 1, f);
    }
  }

  /** The caption pattern of item `n` of kind `word`, as a function of the line. */
  function CaptionPattern(word: string, n: nat): string -> Option<string> {
    t => CaptionMatch(t, word, n)
  }

  /** `_find_figure_caption` and `_find_table_caption`: the stripped caption
      group of the first paragraph that captions item `n`, or the default
      "<name> <n>". */
  function FindCaption(ts: seq<string>, word: string, name: string, n: nat): string {
    match FirstSome(ts, 0, CaptionPattern(word, n))
    case Some(c) => c
    case None => name + " " + NatToString(n)
  }

  /** The caption is the group of the first paragraph that matches. */
  lemma FindCaptionFirstMatch(ts: seq<string>, word: string, name: string, n: nat, j: nat)
    requires j < |ts| && CaptionMatch(ts[j], word, n).Some?
    requires forall k :: 0 <= k < j ==> CaptionMatch(ts[k], word, n).None?
    ensures FindCaption(ts, word, name, n) == CaptionMatch(ts[j], word, n).value
  {
    var f := CaptionPattern(word, n);
    FirstSomeIs(ts, 0, f);
    var c := FirstSome(ts, 0, f);
    assert f(ts[j]).Some?;
    var j' :| 0 <= j' < |ts| && f(ts[j']) == c && forall k :: 0 <= k < j' ==> f(ts[k]).None?;
    assert j' == j;
  }

  /** Without a matching paragraph the caption is the default. */
  lemma FindCaptionDefault(ts: seq<string>, word: string, name: string, n: nat)
    requires forall j :: 0 <= j < |ts| ==> CaptionMatch(ts[j], word, n).None?
    ensures FindCaption(ts, word, name, n) == name + " " + NatToString(n)
  {
    var f := CaptionPattern(word, n);
    FirstSomeIs(ts, 0, f);
  }

  /** A paragraph that supplies the caption of item `n` supplies no other
      item's caption. */
  lemma CaptionLineDecidesNumber(ts: seq<string>, word: string, n: nat, m: nat, j: nat)
    requires j < |ts| && CaptionMatch(ts[j], word, n).Some?
    requires n != m
    ensures CaptionMatch(ts[j], word, m).None?
  {
    if CaptionMatch(ts[j], word, m).Some? {
      CaptionNumberUnique(ts[j], word, n, m);
    }
  }

  function FigureCaption(ts: seq<string>, n: nat): string {
    FindCaption(ts, "figure", "Figure", n)
  }

  function TableCaption(ts: seq<string>, n: nat): string {
    FindCaption(ts, "table", "Table", n)
  }

  // ---------------------------------------------------------------------------
  // Figures

  /** A relationship whose target reference contains "image". */
  predicate IsImageRel(r: Relationship) {
    Contains(r.targetRef, "image")
  }

  /** A relationship that yields a figure: an image whose part can be read. */
  predicate YieldsFigure(r: Relationship) {
    IsImageRel(r) && r.blob.Some?
  }

  /** The relationships that yield figures, in storage order: every one that
      yields a figure, and no other. */
  function ImageRels(rels: seq<Relationship>): (r: seq<Relationship>)
    ensures |r| <= |rels|
    ensures forall k :: 0 <= k < |r| ==> YieldsFigure(r[k])
    ensures forall x :: x in r <==> x in rels && YieldsFigure(x)
  {
    FilterComplete(rels, YieldsFigure);
    Filter(rels, YieldsFigure)
  }

  function MakeFigure(ts: seq<string>, r: Relationship, n: nat): Figure
    requires r.blob.Some?
  {
    Figure(n, r.blob.value, FigureCaption(ts, n), r.id)
  }

  /** The figure loop from the counter value `count`: an image relationship
      whose part reads becomes the next figure; one that is not an image, or
      whose part raises, is passed over without using a number. */
  function FiguresFrom(rels: seq<Relationship>, ts: seq<string>, count: nat): seq<Figure>
    decreases |rels|
  {
    if rels == [] then []
    else if YieldsFigure(rels[0]) then [MakeFigure(ts, rels[0], count + 1)] + FiguresFrom(rels[1..], ts, count + 1)
    else FiguresFrom(rels[1..], ts, count)
  }

  /** The `k`-th figure is made from the `k`-th relationship that yields one,
      and numbered `count + k + 1`: numbers are consecutive, with no gaps for
      the relationships passed over. */
  lemma {:induction false} FiguresFromNumbered(rels: seq<Relationship>, ts: seq<string>, count: nat)
    ensures |FiguresFrom(rels, ts, count)| == |ImageRels(rels)|
    ensures forall k :: 0 <= k < |FiguresFrom(rels, ts, count)| ==>
      FiguresFrom(rels, ts, count)[k] == MakeFigure(ts, ImageRels(rels)[k], count + k + 1)
  {
    FiguresFromAsNumbered(rels, ts, count);
  }

  /** Figures made from relationships `gs`, numbered on from `count`. */
  function NumberFigures(ts: seq<string>, gs: seq<Relationship>, count: nat): seq<Figure>
    requires forall k :: 0 <= k < |gs| ==> gs[k].blob.Some?
  {
    seq(|gs|, k requires 0 <= k < |gs| => MakeFigure(ts, gs[k], count + k + 1))
  }

  /** The figure loop numbers the relationships that yield figures one after the other. */
  lemma {:induction false} FiguresFromAsNumbered(rels: seq<Relationship>, ts: seq<string>, count: nat)
    ensures FiguresFrom(rels, ts, count) == NumberFigures(ts, ImageRels(rels), count)
    decreases |rels|
  {
    if rels != [] {
      var gs := ImageRels(rels[1..]);
      if YieldsFigure(rels[0]) {
        FiguresFromAsNumbered(rels[1..], ts, count + 1);
        NumberFiguresCons(ts, rels[0], gs, count);
        assert ImageRels(rels) == [rels[0]] + gs;
      } else {
        FiguresFromAsNumbered(rels[1..], ts, count);
        assert ImageRels(rels) == gs;
      }
    }
  }

  /** Numbering one more figure in front shifts the others' numbers by one. */
  lemma NumberFiguresCons(ts: seq<string>, r: Relationship, gs: seq<Relationship>, count: nat)
    requires r.blob.Some? && forall k :: 0 <= k < |gs| ==> gs[k].blob.Some?
    ensures NumberFigures(ts, [r] + gs, count) == [MakeFigure(ts, r, count + 1)] + NumberFigures(ts, gs, count + 1)
  {
    var lhs, rhs := NumberFigures(ts, [r] + gs, count), [MakeFigure(ts, r, count + 1)] + NumberFigures(ts, gs, count + 1);
    forall k | 0 < k < |lhs| ensures lhs[k] == rhs[k] {
      assert ([r] + gs)[k] == gs[k - 1];
      assert rhs[k] == NumberFigures(ts, gs, count + 1)[k - 1];
    }
  }

  /** `_extract_figures`: the figures of the document. */
  function FiguresOf(rels: seq<Relationship>, ts: seq<string>): (fs: seq<Figure>)
    ensures |fs| == |ImageRels(rels)|
    ensures forall k :: 0 <= k < |fs| ==>
      (fs[k].number == k + 1 &&
       fs[k].imageData == ImageRels(rels)[k].blob.value &&
       fs[k].relId == ImageRels(rels)[k].id &&
       fs[k].caption == FigureCaption(ts, k + 1))
  {
    FiguresFromNumbered(rels, ts, 0);
    FiguresFrom(rels, ts, 0)
  }

  function FigureNumber(f: Figure): nat { f.number }

  /** The first figure numbered `n`, as the formatter looks it up. */
  function FigureNumbered(fs: seq<Figure>, n: nat): Option<Figure> {
    FirstNumbered(fs, FigureNumber, n)
  }

  /** In a list numbered 1, 2, ... the figure numbered `n` exists exactly for
      `1 <= n <= |fs|` and is the `n`-th. */
  lemma {:induction false} FigureNumberedConsecutive(fs: seq<Figure>, n: nat, base: nat)
    requires forall k :: 0 <= k < |fs| ==> fs[k].number == base + k + 1
    ensures FigureNumbered(fs, n).Some? <==> base < n <= base + |fs|
    ensures base < n <= base + |fs| ==> FigureNumbered(fs, n) == Some(fs[n - base - 1])
    decreases |fs|
  {
    if fs != [] && fs[0].number != n {
      FigureNumberedConsecutive(fs[1..], n, base + 1);
    }
  }

  // ---------------------------------------------------------------------------
  // Tables

  /** The cell texts of one row, each stripped. */
  function StripRow(row: seq<string>): (r: seq<string>)
    ensures |r| == |row| && forall j :: 0 <= j < |row| ==> r[j] == Strip(row[j])
  {
    seq(|row|, j requires 0 <= j < |row| => Strip(row[j]))
  }

  /** The cell texts of a table, row by row, each stripped. */
  function StripCells(rows: seq<seq<string>>): (r: seq<seq<string>>)
    ensures |r| == |rows| && forall i :: 0 <= i < |rows| ==> r[i] == StripRow(rows[i])
  {
    seq(|rows|, i requires 0 <= i < |rows| => StripRow(rows[i]))
  }

  function MakeTable(ts: seq<string>, rows: seq<seq<string>>, n: nat): Table {
    Table(n, StripCells(rows), TableCaption(ts, n))
  }

  /** The table loop from the index `idx`: a table whose rows can be read
      becomes the table numbered by its position (`idx + 1`); one whose
      reading raises is passed over, and its number is not reused. */
  function TablesFrom(src: seq<SourceTable>, ts: seq<string>, idx: nat): seq<Table>
    decreases |src|
  {
    if src == [] then []
    else match src[0].rows
      case None => TablesFrom(src[1..], ts, idx + 1)
      case Some(rows) => [MakeTable(ts, rows, idx + 1)] + TablesFrom(src[1..], ts, idx + 1)
  }

  /** Numbers lie in `idx + 1 .. idx + |src|` and strictly increase. */
  lemma {:induction false} TablesFromIncreasing(src: seq<SourceTable>, ts: seq<string>, idx: nat)
    ensures forall k :: 0 <= k < |TablesFrom(src, ts, idx)| ==>
      idx < TablesFrom(src, ts, idx)[k].number <= idx + |src|
    ensures forall k :: 0 <= k < |TablesFrom(src, ts, idx)| - 1 ==>
      TablesFrom(src, ts, idx)[k].number < TablesFrom(src, ts, idx)[k + 1].number
    decreases |src|
  {
    if src != [] {
      TablesFromIncreasing(src[1..], ts, idx + 1);
      var tbs := TablesFrom(src, ts, idx);
      var rest := TablesFrom(src[1..], ts, idx + 1);
      if src[0].rows.Some? {
        assert tbs == [MakeTable(ts, src[0].rows.value, idx + 1)] + rest;
        forall k | 0 < k < |tbs| ensures tbs[k] == rest[k - 1] { }
        if |rest| > 0 {
          assert tbs[1] == rest[0];
          assert rest[0].number > idx + 1;
        }
      } else {
        assert tbs == rest;
      }
    }
  }

  function TableNumber(t: Table): nat { t.number }

  /** The first table numbered `n`, as the formatter looks it up. */
  function TableNumbered(tbs: seq<Table>, n: nat): Option<Table> {
    FirstNumbered(tbs, TableNumber, n)
  }

  /** The table numbered `n` is there exactly when the source table at
      position `n` reads, and then holds that table's stripped cells and the
      caption of table `n`. */
  lemma {:induction false} TablesFromLookup(src: seq<SourceTable>, ts: seq<string>, idx: nat, n: nat)
    ensures TableNumbered(TablesFrom(src, ts, idx), n) ==
      if idx < n <= idx + |src| && src[n - idx - 1].rows.Some?
      then Some(MakeTable(ts, src[n - idx - 1].rows.value, n)) else None
    decreases |src|
  {
    if src != [] {
      TablesFromLookup(src[1..], ts, idx + 1, n);
      if n != idx + 1 && idx + 1 < n <= idx + |src| {
        assert src[1..][n - (idx + 1) - 1] == src[n - idx - 1];
      }
    }
  }

  /** `_extract_tables`: the tables of the document. */
  function TablesOf(src: seq<SourceTable>, ts: seq<string>): seq<Table> {
    TablesFrom(src, ts, 0)
  }

  /** The formatter finds table `n` exactly when the `n`-th source table
      reads, and then finds that table's stripped cells and caption. */
  lemma TableNumberedIff(src: seq<SourceTable>, ts: seq<string>, n: nat)
    ensures var r := TableNumbered(TablesOf(src, ts), n);
      (r.Some? <==> 1 <= n <= |src| && src[n - 1].rows.Some?) &&
      (r.Some? ==> r.value == Table(n, StripCells(src[n - 1].rows.value), TableCaption(ts, n)))
  {
    TablesFromLookup(src, ts, 0, n);
  }

  // ---------------------------------------------------------------------------
  // Image size

  /** `get_image_size`: the pixel size the image decoder reports, or 800 by
      600 when it cannot decode the bytes. */
  function ImageSize(decode: Bytes -> Option<(nat, nat)>, data: Bytes): (r: (nat, nat))
    ensures decode(data).Some? ==> r == decode(data).value
    ensures decode(data).None? ==> r == (800, 600)
  {
    match decode(data)
    case Some(size) => size
    case None => (800, 600)
  }
}
