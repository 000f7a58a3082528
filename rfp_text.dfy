/** The text of an uploaded RFP (document_processing.py): `process_rfp`
    picks a reader by the file's suffix. A Word document is read table by
    table and row by row, then paragraph by paragraph; a PDF page by page;
    a Markdown or text file whole. Every piece is cleaned on the way, so the
    result is already clean.

    What python-docx, PyPDF2 and the UTF-8 reader produce for a file is
    given as values: the cell texts of each table row, the style name and
    text of each paragraph, the text of each page, the decoded content. */
module RfpText {
  import opened Wrappers
  import opened TextOps
  import opened Sanitizer

  datatype Paragraph = Paragraph(style: string, text: string)

  /** The tables (rows of cell texts) and the paragraphs of a document. */
  datatype DocxDocument = DocxDocument(tables: seq<seq<seq<string>>>, paragraphs: seq<Paragraph>)

  /** `remove_problematic_chars(x.strip())`, applied to cells and
      paragraphs alike. */
  function CleanCell(s: string): (r: string)
    ensures IsSanitized(r)
  {
    RemoveProblematicChars(Strip(s))
  }

  function OptList(o: Option<string>): (r: seq<string>)
    ensures |r| <= 1 && (o.Some? ==> r == [o.value]) && (o.None? ==> r == [])
  {
    if o.Some? then [o.value] else []
  }

  // ---------------------------------------------------------------------
  // Table rows

  /** Every cell of a row, cleaned. */
  function CleanCells(row: seq<string>): (r: seq<string>)
    ensures |r| == |row|
  {
    seq(|row|, i requires 0 <= i < |row| => CleanCell(row[i]))
  }

  /** The non-empty texts, in order. */
  function NonEmpty(texts: seq<string>): (r: seq<string>)
    ensures |r| <= |texts|
  {
    if texts == [] then []
    else
      var last := texts[|texts| - 1];
      NonEmpty(texts[..|texts| - 1]) + (if last != [] then [last] else [])
  }

  /** The cleaned cells of a row that are not empty, in order. */
  function KeptCells(row: seq<string>): seq<string> {
    NonEmpty(CleanCells(row))
  }

  /** A row becomes its kept cells joined by `" | "`; a row with none is
      dropped. */
  function RowLine(row: seq<string>): Option<string> {
    var cells := KeptCells(row);
    if cells == [] then None else Some(Join(cells, " | "))
  }

  /** The lines of the rows of one table. */
  function RowLines(rows: seq<seq<string>>): seq<string> {
    if rows == [] then []
    else RowLines(rows[..|rows| - 1]) + OptList(RowLine(rows[|rows| - 1]))
  }

  /** The lines of all tables, table after table. */
  function TableLines(tables: seq<seq<seq<string>>>): seq<string> {
    if tables == [] then []
    else TableLines(tables[..|tables| - 1]) + RowLines(tables[|tables| - 1])
  }

  // ---------------------------------------------------------------------
  // Paragraphs

  predicate IsHeadingStyle(style: string) {
    StartsWith(style, "Heading")
  }

  /** The level of a heading style: its last character when that is a
      digit ("Heading 2" is 2, "Heading 10" is 0), otherwise 1. */
  function HeadingLevel(style: string): (r: nat)
    requires IsHeadingStyle(style)
    ensures r < 10
  {
    var last := style[|style| - 1];
    if IsDigit(last) then last as int - '0' as int else 1
  }

  /** A non-empty cleaned paragraph; a heading gets `'#' * level + ' '` in
      front of it. */
  function ParagraphLine(p: Paragraph): (r: Option<string>)
    ensures r.Some? <==> CleanCell(p.text) != []
    ensures r.Some? ==> EndsWith(r.value, CleanCell(p.text))
  {
    var t := CleanCell(p.text);
    if t == [] then None
    else if IsHeadingStyle(p.style) then Some(Repeat('#', HeadingLevel(p.style)) + " " + t)
    else Some(t)
  }

  function ParagraphLines(ps: seq<Paragraph>): seq<string> {
    if ps == [] then []
    else ParagraphLines(ps[..|ps| - 1]) + OptList(ParagraphLine(ps[|ps| - 1]))
  }

  /** `extract_text_from_docx`: the table lines, then the paragraph lines,
      joined by newlines. */
  function DocxText(doc: DocxDocument): string {
    Join(TableLines(doc.tables) + ParagraphLines(doc.paragraphs), "\n")
  }

  /** The cells of one row, cleaned and kept when non-empty. */
  method ReadRow(row: seq<string>) returns (line: Option<string>)
    ensures line == RowLine(row)
  {
    var rowText: seq<string> := [];
    for c := 0 to |row|
      invariant rowText == NonEmpty(CleanCells(row)[..c])
    {
      var cleaned := RemoveProblematicChars(Strip(row[c]));
      if cleaned != [] {
        rowText := rowText + [cleaned];
      }
      assert CleanCells(row)[..c + 1][..c] == CleanCells(row)[..c];
    }
    assert CleanCells(row)[..|row|] == CleanCells(row);
    line := if rowText != [] then Some(Join(rowText, " | ")) else None;
  }

  /** The loop over the rows of one table. */
  method ReadRows(rows: seq<seq<string>>) returns (lines: seq<string>)
    ensures lines == RowLines(rows)
  {
    lines := [];
    for r := 0 to |rows|
      invariant lines == RowLines(rows[..r])
    {
      var line := ReadRow(rows[r]);
      assert rows[..r + 1][..r] == rows[..r];
      lines := lines + OptList(line);
    }
    assert rows[..|rows|] == rows;
  }

  /** The loop over `doc.tables`, each read row by row. */
  method ReadTables(tables: seq<seq<seq<string>>>) returns (lines: seq<string>)
    ensures lines == TableLines(tables)
  {
    lines := [];
    for t := 0 to |tables|
      invariant lines == TableLines(tables[..t])
    {
      var rowLines := ReadRows(tables[t]);
      assert tables[..t + 1][..t] == tables[..t];
      lines := lines + rowLines;
    }
    assert tables[..|tables|] == tables;
  }

  /** One paragraph: cleaned, dropped when empty, a heading prefixed by
      its level in `#`s. */
  method ReadParagraph(p: Paragraph) returns (line: Option<string>)
    ensures line == ParagraphLine(p)
  {
    var cleaned := RemoveProblematicChars(Strip(p.text));
    line := None;
    if cleaned != [] {
      if IsHeadingStyle(p.style) {
        var level := if IsDigit(p.style[|p.style| - 1]) then p.style[|p.style| - 1] as int - '0' as int else 1;
        line := Some(Repeat('#', level) + " " + cleaned);
      } else {
        line := Some(cleaned);
      }
    }
  }

  /** The loop over `doc.paragraphs`. */
  method ReadParagraphs(ps: seq<Paragraph>) returns (lines: seq<string>)
    ensures lines == ParagraphLines(ps)
  {
    lines := [];
    for i := 0 to |ps|
      invariant lines == ParagraphLines(ps[..i])
    {
      var line := ReadParagraph(ps[i]);
      assert ps[..i + 1][..i] == ps[..i];
      lines := lines + OptList(line);
    }
    assert ps[..|ps|] == ps;
  }

  method ExtractTextFromDocx(doc: DocxDocument) returns (text: string)
    ensures text == DocxText(doc)
  {
    var tableLines := ReadTables(doc.tables);
    var paragraphLines := ReadParagraphs(doc.paragraphs);
    text := Join(tableLines + paragraphLines, "\n");
  }

  // ---------------------------------------------------------------------
  // PDF pages

  /** Each page cleaned. */
  function CleanPages(pages: seq<string>): (r: seq<string>)
    ensures |r| == |pages|
  {
    seq(|pages|, i requires 0 <= i < |pages| => RemoveProblematicChars(pages[i]))
  }

  /** `extract_text_from_pdf`: the cleaned pages joined by newlines. */
  function PdfText(pages: seq<string>): string {
    Join(CleanPages(pages), "\n")
  }

  method ExtractTextFromPdf(pages: seq<string>) returns (text: string)
    ensures text == PdfText(pages)
  {
    var parts: seq<string> := [];
    for i := 0 to |pages|
      invariant parts == CleanPages(pages[..i])
    {
      parts := parts + [RemoveProblematicChars(pages[i])];
    }
    assert pages[..|pages|] == pages;
    text := Join(parts, "\n");
  }

  // ---------------------------------------------------------------------
  // Dispatch

  datatype Format = DocxFormat | PdfFormat | PlainFormat

  const UnsupportedFormat := "Unsupported file format. Please use DOCX, PDF, TXT or MD file."

  /** The reader `process_rfp` picks: the suffixes are compared as
      written, so "RFP.PDF" is not a PDF. */
  function FormatOf(path: string): Result<Format, string> {
    if EndsWith(path, ".docx") then Ok(DocxFormat)
    else if EndsWith(path, ".pdf") then Ok(PdfFormat)
    else if EndsWith(path, ".md") || EndsWith(path, ".txt") then Ok(PlainFormat)
    else Err(UnsupportedFormat)
  }

  /** What each reader yields for the file at a path. */
  datatype FileContents = FileContents(docx: DocxDocument, pages: seq<string>, content: string)

  /** `process_rfp`: the text of the file by the reader its suffix names;
      plain files are cleaned after reading. */
  function ProcessRfp(path: string, file: FileContents): Result<string, string> {
    match FormatOf(path)
    case Err(e) => Err(e)
    case Ok(DocxFormat) => Ok(DocxText(file.docx))
    case Ok(PdfFormat) => Ok(PdfText(file.pages))
    case Ok(PlainFormat) => Ok(RemoveProblematicChars(file.content))
  }

  // ---------------------------------------------------------------------
  // Properties

  /** A cell is kept exactly when it is non-empty once stripped and
      cleaned. */
  lemma {:induction false} NonEmptyMembership(texts: seq<string>, c: string)
    ensures c in NonEmpty(texts) <==> c != [] && c in texts
  {
    if texts != [] {
      var n := |texts| - 1;
      NonEmptyMembership(texts[..n], c);
      assert texts == texts[..n] + [texts[n]];
    }
  }

  /** Every text `NonEmpty` keeps is non-empty. */
  lemma {:induction false} NonEmptyKeeps(texts: seq<string>)
    ensures forall i :: 0 <= i < |NonEmpty(texts)| ==> NonEmpty(texts)[i] != []
  {
    if texts != [] {
      NonEmptyKeeps(texts[..|texts| - 1]);
    }
  }

  lemma KeptCellsMembership(row: seq<string>, c: string)
    ensures c in KeptCells(row) <==> c != [] && exists i :: 0 <= i < |row| && CleanCell(row[i]) == c
  {
    var cells := CleanCells(row);
    NonEmptyMembership(cells, c);
    if c in cells {
      var i :| 0 <= i < |cells| && cells[i] == c;
      assert CleanCell(row[i]) == c;
    }
    if exists i :: 0 <= i < |row| && CleanCell(row[i]) == c {
      var i :| 0 <= i < |row| && CleanCell(row[i]) == c;
      assert cells[i] == c;
    }
  }

  /** Kept cells are non-empty and clean. */
  lemma {:induction false} KeptCellsClean(row: seq<string>)
    ensures forall i :: 0 <= i < |KeptCells(row)| ==> KeptCells(row)[i] != [] && IsSanitized(KeptCells(row)[i])
  {
    var cells := KeptCells(row);
    NonEmptyKeeps(CleanCells(row));
    forall i | 0 <= i < |cells| ensures IsSanitized(cells[i]) {
      NonEmptyMembership(CleanCells(row), cells[i]);
    }
  }

  /** A row is dropped exactly when every cell is blank once cleaned. */
  lemma RowDroppedIff(row: seq<string>)
    ensures RowLine(row).None? <==> forall i :: 0 <= i < |row| ==> CleanCell(row[i]) == []
  {
    var cells := KeptCells(row);
    if cells != [] {
      KeptCellsMembership(row, cells[0]);
    } else {
      forall i | 0 <= i < |row| ensures CleanCell(row[i]) == [] {
        KeptCellsMembership(row, CleanCell(row[i]));
      }
    }
  }

  /** A row of one non-empty cell is that cell, cleaned. */
  lemma SingleCellRow(cell: string)
    requires CleanCell(cell) != []
    ensures RowLine([cell]) == Some(CleanCell(cell))
  {
    var cells := CleanCells([cell]);
    assert cells == [CleanCell(cell)];
    assert cells[..0] == [];
    assert KeptCells([cell]) == [CleanCell(cell)];
  }

  lemma BlankCell()
    ensures CleanCell("  ") == []
  {
    assert LeadingBlanks(" ") == 1;
    assert "  "[1..] == " ";
    assert LeadingBlanks("  ") == 2;
  }

  /** Two non-empty cells around a blank one: the blank one is dropped and
      the others are joined by " | ". */
  lemma RowSkipsBlankCell(a: string, b: string)
    requires CleanCell(a) != [] && CleanCell(b) != []
    ensures RowLine([a, "  ", b]) == Some(CleanCell(a) + " | " + CleanCell(b))
  {
    BlankCell();
    var cells := CleanCells([a, "  ", b]);
    assert cells == [CleanCell(a), [], CleanCell(b)];
    assert cells[..2][..1][..0] == [];
    assert NonEmpty(cells[..2][..1]) == [CleanCell(a)];
    assert NonEmpty(cells[..2]) == [CleanCell(a)];
    assert NonEmpty(cells) == [CleanCell(a), CleanCell(b)];
    assert [CleanCell(a), CleanCell(b)][1..] == [CleanCell(b)];
    assert Join([CleanCell(a), CleanCell(b)], " | ") == CleanCell(a) + " | " + CleanCell(b);
  }

  /** "Heading 2" gives the prefix "## ". */
  lemma HeadingTwoPrefix(t: string)
    requires CleanCell(t) != []
    ensures ParagraphLine(Paragraph("Heading 2", t)) == Some("## " + CleanCell(t))
  {
    assert IsHeadingStyle("Heading 2") by {
      assert "Heading 2"[..7] == "Heading";
    }
    assert HeadingLevel("Heading 2") == 2;
    assert Repeat('#', 2) + " " == "## ";
  }

  /** A bare "Heading" style is level 1. */
  lemma BareHeadingPrefix(t: string)
    requires CleanCell(t) != []
    ensures ParagraphLine(Paragraph("Heading", t)) == Some("# " + CleanCell(t))
  {
    assert IsHeadingStyle("Heading") by {
      assert "Heading"[..7] == "Heading";
    }
    assert HeadingLevel("Heading") == 1;
    assert Repeat('#', 1) + " " == "# ";
  }

  /** Any other style adds no prefix. */
  lemma BodyParagraph(t: string)
    requires CleanCell(t) != []
    ensures ParagraphLine(Paragraph("Normal", t)) == Some(CleanCell(t))
  {
    assert !IsHeadingStyle("Normal");
  }

  /** A style whose last character is 0 ("Heading 10") gets a bare blank
      in front: the level is the last digit only. */
  lemma HeadingTenPrefix(t: string)
    requires CleanCell(t) != []
    ensures ParagraphLine(Paragraph("Heading 10", t)) == Some(" " + CleanCell(t))
  {
    assert IsHeadingStyle("Heading 10") by {
      assert "Heading 10"[..7] == "Heading";
    }
    assert HeadingLevel("Heading 10") == 0;
    assert Repeat('#', 0) + " " == " ";
  }

  /** Every line read from a document is non-empty and clean. */
  lemma {:induction false} RowLinesClean(rows: seq<seq<string>>)
    ensures forall i :: 0 <= i < |RowLines(rows)| ==> RowLines(rows)[i] != [] && IsSanitized(RowLines(rows)[i])
  {
    if rows != [] {
      RowLinesClean(rows[..|rows| - 1]);
      var cells := KeptCells(rows[|rows| - 1]);
      if cells != [] {
        KeptCellsClean(rows[|rows| - 1]);
        JoinSanitized(cells, " | ");
        assert Join(cells, " | ") != [] by {
          if |cells| > 1 {
            assert |Join(cells, " | ")| >= |cells[0]|;
          }
        }
      }
    }
  }

  lemma {:induction false} TableLinesClean(tables: seq<seq<seq<string>>>)
    ensures forall i :: 0 <= i < |TableLines(tables)| ==> TableLines(tables)[i] != [] && IsSanitized(TableLines(tables)[i])
  {
    if tables != [] {
      TableLinesClean(tables[..|tables| - 1]);
      RowLinesClean(tables[|tables| - 1]);
    }
  }

  lemma {:induction false} ParagraphLinesClean(ps: seq<Paragraph>)
    ensures forall i :: 0 <= i < |ParagraphLines(ps)| ==> ParagraphLines(ps)[i] != [] && IsSanitized(ParagraphLines(ps)[i])
  {
    if ps != [] {
      ParagraphLinesClean(ps[..|ps| - 1]);
      var p := ps[|ps| - 1];
      var t := CleanCell(p.text);
      if t != [] && IsHeadingStyle(p.style) {
        var prefix := Repeat('#', HeadingLevel(p.style)) + " ";
        assert IsSanitized(prefix);
        var line := prefix + t;
        assert forall i :: 0 <= i < |line| ==> Allowed(line[i]) by {
          forall i | 0 <= i < |line| ensures Allowed(line[i]) {
            if i >= |prefix| {
              assert line[i] == t[i - |prefix|];
            }
          }
        }
      }
    }
  }

  /** The text of a Word document is already clean: cleaning it again
      changes nothing. */
  lemma DocxTextClean(doc: DocxDocument)
    ensures IsSanitized(DocxText(doc))
    ensures RemoveProblematicChars(DocxText(doc)) == DocxText(doc)
  {
    var a := TableLines(doc.tables);
    var b := ParagraphLines(doc.paragraphs);
    TableLinesClean(doc.tables);
    ParagraphLinesClean(doc.paragraphs);
    assert forall i :: 0 <= i < |a + b| ==> IsSanitized((a + b)[i]) by {
      forall i | 0 <= i < |a + b| ensures IsSanitized((a + b)[i]) {
        if i >= |a| {
          assert (a + b)[i] == b[i - |a|];
        }
      }
    }
    JoinSanitized(a + b, "\n");
    SanitizeFixedPoint(DocxText(doc));
  }

  /** Cleaning the pages one by one and joining them is cleaning the joined
      pages: the newline is kept and cleaning works character by
      character. */
  lemma {:induction false} PdfTextIsCleanedJoin(pages: seq<string>)
    ensures PdfText(pages) == RemoveProblematicChars(Join(pages, "\n"))
  {
    if |pages| == 1 {
      assert CleanPages(pages) == [RemoveProblematicChars(pages[0])];
    } else if |pages| > 1 {
      PdfTextIsCleanedJoin(pages[1..]);
      var cleaned := CleanPages(pages);
      assert cleaned[1..] == CleanPages(pages[1..]);
      var rest := Join(pages[1..], "\n");
      assert IsSanitized("\n");
      SanitizeFixedPoint("\n");
      SanitizeConcat(pages[0] + "\n", rest);
      SanitizeConcat(pages[0], "\n");
    }
  }

  /** The text of a PDF is already clean. */
  lemma PdfTextClean(pages: seq<string>)
    ensures IsSanitized(PdfText(pages))
    ensures RemoveProblematicChars(PdfText(pages)) == PdfText(pages)
  {
    PdfTextIsCleanedJoin(pages);
    SanitizeIdempotent(Join(pages, "\n"));
  }

  /** `process_rfp` fails exactly on the suffixes it does not know, with
      the `ValueError` message. */
  lemma FormatOfFails(path: string)
    ensures FormatOf(path).Err? <==>
      !(EndsWith(path, ".docx") || EndsWith(path, ".pdf") || EndsWith(path, ".md") || EndsWith(path, ".txt"))
    ensures FormatOf(path).Err? ==> FormatOf(path).error == UnsupportedFormat
  {
  }

  lemma ProcessRfpFails(path: string, file: FileContents)
    ensures ProcessRfp(path, file).Err? <==> FormatOf(path).Err?
    ensures ProcessRfp(path, file).Err? ==> ProcessRfp(path, file).error == UnsupportedFormat
  {
  }

  /** Whatever reader is used, the text returned is clean. */
  lemma ProcessRfpClean(path: string, file: FileContents)
    requires ProcessRfp(path, file).Ok?
    ensures RemoveProblematicChars(ProcessRfp(path, file).value) == ProcessRfp(path, file).value
  {
    match FormatOf(path)
    case Ok(DocxFormat) => DocxTextClean(file.docx);
    case Ok(PdfFormat) => PdfTextClean(file.pages);
    case Ok(PlainFormat) => SanitizeIdempotent(file.content);
  }

  /** Suffixes are compared as written: upper-case ones are refused. */
  lemma UpperCaseSuffixRefused(file: FileContents)
    ensures ProcessRfp("RFP.PDF", file) == Err(UnsupportedFormat)
  {
    assert "RFP.PDF"[3..] == ".PDF";
    assert "RFP.PDF"[2..] != ".docx";
  }

  /** A text file is read and cleaned; the other readers are not used. */
  lemma PlainFileCleaned(name: string, file: FileContents)
    ensures ProcessRfp(name + ".txt", file) == Ok(RemoveProblematicChars(file.content))
  {
    var p := name + ".txt";
    assert p[|p| - 4..] == ".txt";
    assert p[|p| - 1] == 't';
  }
}
