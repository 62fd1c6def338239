/**
 * The document format `ParseText` reads, written out: cells quoted and
 * joined by `","`, lines joined by the line terminator. Parsing a rendered
 * table gives the table back, normalised to the first row's width.
 */
module RoundTrip {
  import opened Wrappers
  import opened Text
  import opened ParserService
  import opened ParserLaws

  /** One line of a document: `"cell1","cell2",...`. */
  function Quote(cells: seq<string>): (line: string)
    requires |cells| >= 1
    ensures |line| >= 2 && line[0] == '"' && line[|line| - 1] == '"'
    ensures line[1..|line| - 1] == Join(cells, CellSeparator)
  {
    "\"" + Join(cells, CellSeparator) + "\""
  }

  /** True when every row has at least one cell. */
  predicate NonEmptyRows(rows: seq<seq<string>>) {
    forall i :: 0 <= i < |rows| ==> |rows[i]| >= 1
  }

  /** The lines of a document, one per row. */
  function QuoteAll(rows: seq<seq<string>>): (lines: seq<string>)
    requires NonEmptyRows(rows)
    ensures |lines| == |rows| && forall i :: 0 <= i < |rows| ==> lines[i] == Quote(rows[i])
  {
    if rows == [] then [] else [Quote(rows[0])] + QuoteAll(rows[1..])
  }

  /** A whole document. */
  function Render(rows: seq<seq<string>>, newLine: string): string
    requires |rows| >= 1 && NonEmptyRows(rows)
  {
    Join(QuoteAll(rows), newLine)
  }

  /** A character that is in neither the separator nor any piece is not in their join. */
  lemma {:induction false} JoinAvoids(pieces: seq<string>, sep: string, c: char)
    requires |pieces| >= 1 && c !in sep
    requires forall k :: 0 <= k < |pieces| ==> c !in pieces[k]
    ensures c !in Join(pieces, sep)
  {
    if |pieces| > 1 {
      JoinAvoids(pieces[1..], sep, c);
      assert Join(pieces, sep) == pieces[0] + sep + Join(pieces[1..], sep);
    }
  }

  /** A quoted line holds only quotes, commas and the characters of its cells. */
  lemma QuoteAvoids(cells: seq<string>, c: char)
    requires |cells| >= 1 && c != '"' && c != ','
    requires forall k :: 0 <= k < |cells| ==> c !in cells[k]
    ensures c !in Quote(cells)
  {
    JoinAvoids(cells, CellSeparator, c);
  }

  /** The cells of a quoted line are the cells it was made from, when no cell contains a quote. */
  lemma RawCellsOfQuote(cells: seq<string>)
    requires |cells| >= 1 && forall k :: 0 <= k < |cells| ==> '"' !in cells[k]
    ensures RawCells(Quote(cells)) == Ok(cells)
  {
    SplitOfJoin(cells, CellSeparator);
  }

  /** The conditions under which a table can be written as a document and read back. */
  ghost predicate Renderable(rows: seq<seq<string>>, newLine: string) {
    |rows| >= 1 && NonEmptyRows(rows) &&
    |newLine| > 0 && newLine[0] != '"' && newLine[0] != ',' &&
    forall i, k :: 0 <= i < |rows| && 0 <= k < |rows[i]| ==> '"' !in rows[i][k] && newLine[0] !in rows[i][k]
  }

  /** The lines `ParseText` finds in a rendered document are the quoted rows. */
  lemma SplitRender(rows: seq<seq<string>>, newLine: string)
    requires Renderable(rows, newLine)
    ensures Split(Render(rows, newLine), newLine) == QuoteAll(rows)
    ensures Render(rows, newLine)[0] == '"'
  {
    var lines := QuoteAll(rows);
    forall i | 0 <= i < |lines| ensures newLine[0] !in lines[i] {
      QuoteAvoids(rows[i], newLine[0]);
    }
    SplitOfJoin(lines, newLine);
    JoinStartsWith(lines, newLine);
  }

  /** A rendered document is never blank, so its parse is the parse of its quoted lines. */
  lemma ParseOfRender<T>(rows: seq<seq<string>>, newLine: string, isWhiteSpace: char -> bool,
                         conv: string -> Option<T>)
    requires Renderable(rows, newLine) && !isWhiteSpace('"')
    ensures Parse(Some(Render(rows, newLine)), newLine, isWhiteSpace, conv) == ParseLines(QuoteAll(rows), conv)
  {
    SplitRender(rows, newLine);
    TrimEmptyIff(Render(rows, newLine), isWhiteSpace);
  }

  /**
   * Parsing a rendered document yields one row per row, each as wide as the
   * first, each value the conversion of its cell cleaned of control
   * characters, or the conversion of "" where a row was shorter.
   */
  lemma ParseRender<T>(rows: seq<seq<string>>, newLine: string, isWhiteSpace: char -> bool,
                       conv: string -> Option<T>)
    requires Renderable(rows, newLine) && !isWhiteSpace('"')
    requires forall i, k :: 0 <= i < |rows| && 0 <= k < |rows[i]| ==> conv(StripControl(rows[i][k])).Some?
    requires (exists i :: 0 < i < |rows| && |rows[i]| < |rows[0]|) ==> conv([]).Some?
    ensures Parse(Some(Render(rows, newLine)), newLine, isWhiteSpace, conv).Ok?
    ensures var table := Parse(Some(Render(rows, newLine)), newLine, isWhiteSpace, conv).value;
            |table| == |rows| &&
            (forall i :: 0 <= i < |rows| ==> |table[i]| == |rows[0]|) &&
            forall i, k :: 0 <= i < |rows| && 0 <= k < |rows[0]| ==> CellFrom(rows[i], k, conv, table[i][k])
  {
    var lines := QuoteAll(rows);
    ParseOfRender(rows, newLine, isWhiteSpace, conv);
    RenderedLinesParse(rows, conv);
    var table := ParseLines(lines, conv).value;
    ParsedRows(lines, conv, table);
    RawCellsOfQuote(rows[0]);
    assert |table| == |rows| && |table[0]| == |rows[0]|;
    forall i, k | 0 <= i < |rows| && 0 <= k < |rows[0]| ensures CellFrom(rows[i], k, conv, table[i][k]) {
      RawCellsOfQuote(rows[i]);
      assert CellFrom(RawCells(lines[i]).value, k, conv, table[i][k]);
    }
  }

  /** The quoted rows, as lines, parse when every cell converts and padding is available where needed. */
  lemma RenderedLinesParse<T>(rows: seq<seq<string>>, conv: string -> Option<T>)
    requires |rows| >= 1 && NonEmptyRows(rows)
    requires forall i, k :: 0 <= i < |rows| && 0 <= k < |rows[i]| ==> '"' !in rows[i][k]
    requires forall i, k :: 0 <= i < |rows| && 0 <= k < |rows[i]| ==> conv(StripControl(rows[i][k])).Some?
    requires (exists i :: 0 < i < |rows| && |rows[i]| < |rows[0]|) ==> conv([]).Some?
    ensures ParseLines(QuoteAll(rows), conv).Ok?
  {
    var lines := QuoteAll(rows);
    forall i | 0 <= i < |lines| ensures RawCells(lines[i]) == Ok(rows[i]) && ParseRow(lines[i], conv).Ok? {
      RawCellsOfQuote(rows[i]);
    }
    if NeedsPadding(lines, conv) {
      var i :| 0 < i < |lines| && ParseRow(lines[i], conv).Ok? && ParseRow(lines[0], conv).Ok?
               && |ParseRow(lines[i], conv).value| < |ParseRow(lines[0], conv).value|;
      assert |rows[i]| < |rows[0]|;
    }
    ParseLinesSucceeds(lines, conv);
  }

  /**
   * A rendered document whose later rows are sometimes narrower than the
   * first fails on the padding when "" does not convert, even though every
   * cell converts.
   */
  lemma RenderPaddingFailure<T>(rows: seq<seq<string>>, newLine: string, isWhiteSpace: char -> bool,
                                conv: string -> Option<T>)
    requires Renderable(rows, newLine) && !isWhiteSpace('"')
    requires forall i, k :: 0 <= i < |rows| && 0 <= k < |rows[i]| ==> conv(StripControl(rows[i][k])).Some?
    requires exists i :: 0 < i < |rows| && |rows[i]| < |rows[0]|
    requires conv([]).None?
    ensures Parse(Some(Render(rows, newLine)), newLine, isWhiteSpace, conv) == Err(ConversionFailure([]))
  {
    var lines := QuoteAll(rows);
    ParseOfRender(rows, newLine, isWhiteSpace, conv);
    forall i | 0 <= i < |lines| ensures RawCells(lines[i]) == Ok(rows[i]) && ParseRow(lines[i], conv).Ok? {
      RawCellsOfQuote(rows[i]);
    }
    var i :| 0 < i < |rows| && |rows[i]| < |rows[0]|;
    assert |ParseRow(lines[i], conv).value| < |ParseRow(lines[0], conv).value|;
    PaddingFailure(lines, conv);
  }

  /** The conversion `Convert.ChangeType(_, typeof(string))`: every text is its own value. */
  function AsString(text: string): Option<string> {
    Some(text)
  }

  /**
   * For `ParserService<string>`: a rectangular table of cells without control
   * characters (cells the filter leaves as they are) survives being written out and parsed back unchanged.
   */
  lemma RenderRoundTrip(rows: seq<seq<string>>, newLine: string, isWhiteSpace: char -> bool)
    requires Renderable(rows, newLine) && !isWhiteSpace('"')
    requires forall i :: 0 <= i < |rows| ==> |rows[i]| == |rows[0]|
    requires forall i, k :: 0 <= i < |rows| && 0 <= k < |rows[i]| ==> StripControl(rows[i][k]) == rows[i][k]
    ensures Parse(Some(Render(rows, newLine)), newLine, isWhiteSpace, AsString) == Ok(rows)
  {
    ParseRender(rows, newLine, isWhiteSpace, AsString);
    var p := Parse(Some(Render(rows, newLine)), newLine, isWhiteSpace, AsString);
    StringCellsKept(rows, p.value);
  }

  /** Values that are their own clean cells, at the cells' places, make up the table of cells. */
  lemma StringCellsKept(rows: seq<seq<string>>, table: seq<seq<string>>)
    requires |rows| >= 1 && |table| == |rows|
    requires forall i :: 0 <= i < |rows| ==> |rows[i]| == |rows[0]| && |table[i]| == |rows[0]|
    requires forall i, k :: 0 <= i < |rows| && 0 <= k < |rows[i]| ==> StripControl(rows[i][k]) == rows[i][k]
    requires forall i, k :: 0 <= i < |rows| && 0 <= k < |rows[0]| ==> CellFrom(rows[i], k, AsString, table[i][k])
    ensures table == rows
  {
    forall i | 0 <= i < |rows| ensures table[i] == rows[i] {
      forall k | 0 <= k < |rows[i]| ensures table[i][k] == rows[i][k] {
        assert CellFrom(rows[i], k, AsString, table[i][k]);
      }
    }
  }
}
