/** The paragraph driver of the digest: the assembled text is split on blank lines and each
    paragraph becomes one `multi_cell` block of the document, formatted for Braille or passed
    through as it is, followed by a vertical gap. */
module PressDigest {
  import opened PyStr
  import opened BrailleFormat

  /** The paragraph delimiter. */
  const PARAGRAPH_BREAK: string := "\n\n"

  /** The width budget handed to the Braille formatter. */
  const BRAILLE_LINE_WIDTH: real := 180.0

  /** The two output languages offered to the reader. */
  datatype Language = French | Braille

  /** What one paragraph puts in the document: the font size set before it, the line height
      and text given to `multi_cell`, and the gap given to `ln` after it. */
  datatype Cell = Cell(fontSize: nat, lineHeight: nat, body: string, gapAfter: nat)

  /** The block for one paragraph: Braille text is formatted at size 17 with 12-unit lines
      and a gap of 1; French text is passed through at size 12 with 10-unit lines and a gap of 5. */
  function CellFor(para: string, language: Language, measure: string -> real): (cell: Cell)
    ensures language == French ==> cell.body == para
    ensures language == Braille ==> INDENT <= cell.body && cell.body[|cell.body| - 1] == BLANK
  {
    match language
    case Braille => Cell(17, 12, Format(para, BRAILLE_LINE_WIDTH, measure), 1)
    case French => Cell(12, 10, para, 5)
  }

  /** The texts of the blocks, in order. */
  function Bodies(cells: seq<Cell>): seq<string>
  {
    seq(|cells|, i requires 0 <= i < |cells| => cells[i].body)
  }

  /** The loop over `digest.split("\n\n")`: one block per paragraph, in order, each made from
      its own paragraph alone. */
  method LayOut(digest: string, language: Language, measure: string -> real)
    returns (cells: seq<Cell>)
    ensures |cells| == |Split(digest, PARAGRAPH_BREAK)| == Count(digest, PARAGRAPH_BREAK) + 1
    ensures forall i :: 0 <= i < |cells| ==>
      cells[i] == CellFor(Split(digest, PARAGRAPH_BREAK)[i], language, measure)
    ensures language == French ==> Join(Bodies(cells), PARAGRAPH_BREAK) == digest
    ensures language == Braille ==> forall i :: 0 <= i < |cells| ==>
      INDENT <= cells[i].body && cells[i].body[|cells[i].body| - 1] == BLANK
  {
    var paras := Split(digest, PARAGRAPH_BREAK);
    cells := [];
    for i := 0 to |paras|
      invariant |cells| == i
      invariant forall k :: 0 <= k < i ==> cells[k] == CellFor(paras[k], language, measure)
    {
      var cell := LayOutParagraph(paras[i], language, measure);
      cells := cells + [cell];
    }
    ParagraphsPartitionDigest(digest);
    if language == French {
      FrenchCellsRejoin(digest, cells, measure);
    } else {
      BrailleCellsFramed(digest, cells, measure);
    }
  }

  /** The loop body: one paragraph set in the font of the chosen language. */
  method LayOutParagraph(para: string, language: Language, measure: string -> real)
    returns (cell: Cell)
    ensures cell == CellFor(para, language, measure)
  {
    if language == Braille {
      var body := FormatParagraph(para, BRAILLE_LINE_WIDTH, measure);
      cell := Cell(17, 12, body, 1);
    } else {
      cell := Cell(12, 10, para, 5);
    }
  }

  /** In French the blocks hold the paragraphs untouched, so together they give back the digest. */
  lemma FrenchCellsRejoin(digest: string, cells: seq<Cell>, measure: string -> real)
    requires |cells| == |Split(digest, PARAGRAPH_BREAK)|
    requires forall i :: 0 <= i < |cells| ==>
      cells[i] == CellFor(Split(digest, PARAGRAPH_BREAK)[i], French, measure)
    ensures Join(Bodies(cells), PARAGRAPH_BREAK) == digest
  {
    assert Bodies(cells) == Split(digest, PARAGRAPH_BREAK);
    JoinSplit(digest, PARAGRAPH_BREAK);
  }

  /** In Braille every block opens with the indent and ends with a blank cell. */
  lemma BrailleCellsFramed(digest: string, cells: seq<Cell>, measure: string -> real)
    requires |cells| == |Split(digest, PARAGRAPH_BREAK)|
    requires forall i :: 0 <= i < |cells| ==>
      cells[i] == CellFor(Split(digest, PARAGRAPH_BREAK)[i], Braille, measure)
    ensures forall i :: 0 <= i < |cells| ==>
      INDENT <= cells[i].body && cells[i].body[|cells[i].body| - 1] == BLANK
  {
    forall k | 0 <= k < |cells|
      ensures INDENT <= cells[k].body && cells[k].body[|cells[k].body| - 1] == BLANK
    {
      assert cells[k] == CellFor(Split(digest, PARAGRAPH_BREAK)[k], Braille, measure);
    }
  }

  /** The digest's paragraph count is its number of blank-line delimiters plus one, and the
      paragraphs, put back together with the delimiter, are the digest. */
  lemma ParagraphsPartitionDigest(digest: string)
    ensures |Split(digest, PARAGRAPH_BREAK)| == Count(digest, PARAGRAPH_BREAK) + 1
    ensures Join(Split(digest, PARAGRAPH_BREAK), PARAGRAPH_BREAK) == digest
  {
    SplitCount(digest, PARAGRAPH_BREAK);
    JoinSplit(digest, PARAGRAPH_BREAK);
  }
}
