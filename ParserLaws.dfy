/**
 * What `ParseText` promises, stated about the specification functions of
 * module ParserService and proved from their definitions.
 */
module ParserLaws {
  import opened Wrappers
  import opened Text
  import opened ParserService

  /** Every line parses into a row on its own (no line is too short, no cell fails to convert). */
  predicate AllRowsParse<T>(lines: seq<string>, conv: string -> Option<T>) {
    forall i :: 0 <= i < |lines| ==> ParseRow(lines[i], conv).Ok?
  }

  /** Some line after the first has fewer cells than the first, so padding is needed. */
  predicate NeedsPadding<T>(lines: seq<string>, conv: string -> Option<T>) {
    exists i :: 0 < i < |lines| && ParseRow(lines[i], conv).Ok? && ParseRow(lines[0], conv).Ok?
                && |ParseRow(lines[i], conv).value| < |ParseRow(lines[0], conv).value|
  }

  /**
   * One row per line, in order: the first row is the first line's values
   * unaltered, every later row is its line's values filled out to that width.
   */
  lemma {:induction false} ParseLinesRows<T>(lines: seq<string>, conv: string -> Option<T>)
    requires ParseLines(lines, conv).Ok?
    ensures AllRowsParse(lines, conv)
    ensures lines != [] ==> ParseLines(lines, conv).value[0] == ParseRow(lines[0], conv).value
    ensures forall i :: 0 < i < |lines| ==>
              FillOut(|ParseLines(lines, conv).value[0]|, ParseRow(lines[i], conv).value, conv)
                == Ok(ParseLines(lines, conv).value[i])
  {
    EveryRowParses(lines, conv);
    FirstRowKept(lines, conv);
    LaterRowsFilled(lines, conv);
  }

  /** A table parses only when each of its lines parses on its own. */
  lemma {:induction false} EveryRowParses<T>(lines: seq<string>, conv: string -> Option<T>)
    requires ParseLines(lines, conv).Ok?
    ensures AllRowsParse(lines, conv)
    decreases |lines|
  {
    if lines != [] {
      var n := |lines| - 1;
      var front := lines[..n];
      EveryRowParses(front, conv);
      forall i | 0 <= i < |lines| ensures ParseRow(lines[i], conv).Ok? {
        if i < n {
          assert lines[i] == front[i];
        }
      }
    }
  }

  /** The first line's cells are taken as they are and fix the width of the table. */
  lemma {:induction false} FirstRowKept<T>(lines: seq<string>, conv: string -> Option<T>)
    requires ParseLines(lines, conv).Ok?
    ensures lines != [] ==> ParseRow(lines[0], conv) == Ok(ParseLines(lines, conv).value[0])
    decreases |lines|
  {
    if |lines| > 1 {
      var front := lines[..|lines| - 1];
      FirstRowKept(front, conv);
      assert front[0] == lines[0];
    }
  }

  /** Each later line is fitted to the width of the first. */
  lemma {:induction false} LaterRowsFilled<T>(lines: seq<string>, conv: string -> Option<T>)
    requires ParseLines(lines, conv).Ok?
    requires AllRowsParse(lines, conv)
    ensures forall i :: 0 < i < |lines| ==>
              FillOut(|ParseLines(lines, conv).value[0]|, ParseRow(lines[i], conv).value, conv)
                == Ok(ParseLines(lines, conv).value[i])
    decreases |lines|
  {
    if |lines| > 1 {
      var n := |lines| - 1;
      var front := lines[..n];
      var t := ParseLines(lines, conv).value;
      var rows := ParseLines(front, conv).value;
      forall i | 0 <= i < |front| ensures ParseRow(front[i], conv).Ok? {
        assert front[i] == lines[i];
      }
      LaterRowsFilled(front, conv);
      assert t == rows + [FillOut(|rows[0]|, ParseRow(lines[n], conv).value, conv).value];
      forall i | 0 < i < |lines| ensures FillOut(|t[0]|, ParseRow(lines[i], conv).value, conv) == Ok(t[i]) {
        if i < n {
          assert lines[i] == front[i] && t[i] == rows[i];
        }
      }
    }
  }

  /** Rows that all parse, and padding that is available where needed, make the parse succeed. */
  lemma {:induction false} ParseLinesSucceeds<T>(lines: seq<string>, conv: string -> Option<T>)
    requires AllRowsParse(lines, conv)
    requires NeedsPadding(lines, conv) ==> conv([]).Some?
    ensures ParseLines(lines, conv).Ok?
    decreases |lines|
  {
    if lines != [] {
      var front := lines[..|lines| - 1];
      PaddingOfFront(lines, conv);
      assert AllRowsParse(front, conv) by {
        assert forall i :: 0 <= i < |front| ==> front[i] == lines[i];
      }
      ParseLinesSucceeds(front, conv);
      if front != [] {
        LastRowFits(lines, conv);
      }
    }
  }

  /** Padding needed before the last line is padding needed in the whole. */
  lemma PaddingOfFront<T>(lines: seq<string>, conv: string -> Option<T>)
    requires lines != []
    ensures NeedsPadding(lines[..|lines| - 1], conv) ==> NeedsPadding(lines, conv)
  {
    var front := lines[..|lines| - 1];
    if NeedsPadding(front, conv) {
      var i :| 0 < i < |front| && ParseRow(front[i], conv).Ok? && ParseRow(front[0], conv).Ok?
               && |ParseRow(front[i], conv).value| < |ParseRow(front[0], conv).value|;
      assert front[0] == lines[0] && front[i] == lines[i];
    }
  }

  /** After lines that parse, a last line that parses and can be padded where needed keeps the parse going. */
  lemma LastRowFits<T>(lines: seq<string>, conv: string -> Option<T>)
    requires |lines| > 1 && ParseLines(lines[..|lines| - 1], conv).Ok?
    requires ParseRow(lines[0], conv).Ok? && ParseRow(lines[|lines| - 1], conv).Ok?
    requires NeedsPadding(lines, conv) ==> conv([]).Some?
    ensures ParseLines(lines, conv).Ok?
  {
    var n := |lines| - 1;
    var front := lines[..n];
    var rows := ParseLines(front, conv).value;
    FirstRowKept(front, conv);
    assert ParseRow(lines[0], conv) == Ok(rows[0]) by {
      assert front[0] == lines[0];
    }
    var row := ParseRow(lines[n], conv).value;
    if |row| < |rows[0]| {
      assert NeedsPadding(lines, conv);
    }
    assert FillOut(|rows[0]|, row, conv).Ok?;
  }

  /**
   * The parse of a sequence of lines succeeds exactly when every line parses
   * on its own and, if a later line is narrower than the first, the empty
   * string converts.
   */
  lemma ParseLinesOkIff<T>(lines: seq<string>, conv: string -> Option<T>)
    ensures ParseLines(lines, conv).Ok? <==>
              AllRowsParse(lines, conv) && (NeedsPadding(lines, conv) ==> conv([]).Some?)
  {
    if ParseLines(lines, conv).Ok? {
      ParseLinesRows(lines, conv);
      if NeedsPadding(lines, conv) {
        var i :| 0 < i < |lines| && ParseRow(lines[i], conv).Ok? && ParseRow(lines[0], conv).Ok?
                 && |ParseRow(lines[i], conv).value| < |ParseRow(lines[0], conv).value|;
        assert FillOut(|ParseLines(lines, conv).value[0]|, ParseRow(lines[i], conv).value, conv).Ok?;
      }
    } else if AllRowsParse(lines, conv) && (NeedsPadding(lines, conv) ==> conv([]).Some?) {
      ParseLinesSucceeds(lines, conv);
    }
  }

  /**
   * When every line parses but a later line is narrower than the first and
   * "" does not convert, the parse fails on the padding: the first error is
   * the conversion of the empty string.
   */
  lemma PaddingFailure<T>(lines: seq<string>, conv: string -> Option<T>)
    requires AllRowsParse(lines, conv) && NeedsPadding(lines, conv) && conv([]).None?
    ensures ParseLines(lines, conv) == Err(ConversionFailure([]))
  {
    var i :| 0 < i < |lines| && ParseRow(lines[i], conv).Ok? && ParseRow(lines[0], conv).Ok?
             && |ParseRow(lines[i], conv).value| < |ParseRow(lines[0], conv).value|;
    PaddingFailureAt(lines, conv, i);
  }

  /** `PaddingFailure` with the narrow line named: induction on the lines before it and after it. */
  lemma {:induction false} PaddingFailureAt<T>(lines: seq<string>, conv: string -> Option<T>, i: nat)
    requires AllRowsParse(lines, conv) && conv([]).None?
    requires 0 < i < |lines| && |ParseRow(lines[i], conv).value| < |ParseRow(lines[0], conv).value|
    ensures ParseLines(lines, conv) == Err(ConversionFailure([]))
    decreases |lines|, 0
  {
    var n := |lines| - 1;
    var front := lines[..n];
    assert AllRowsParse(front, conv) by {
      assert forall j :: 0 <= j < n ==> front[j] == lines[j];
    }
    if i < n {
      assert front[0] == lines[0] && front[i] == lines[i];
      PaddingFailureAt(front, conv, i);
    } else if ParseLines(front, conv).Err? {
      EarlierPaddingFailure(front, conv);
    } else {
      assert i == n;
      LastRowUnpadded(lines, conv);
    }
  }

  /** Lines that each parse fail together only on a padding that does not convert. */
  lemma EarlierPaddingFailure<T>(front: seq<string>, conv: string -> Option<T>)
    requires AllRowsParse(front, conv) && conv([]).None? && ParseLines(front, conv).Err?
    ensures ParseLines(front, conv) == Err(ConversionFailure([]))
    decreases |front|, 1
  {
    ParseLinesOkIff(front, conv);
    var j :| 0 < j < |front| && ParseRow(front[j], conv).Ok? && ParseRow(front[0], conv).Ok?
             && |ParseRow(front[j], conv).value| < |ParseRow(front[0], conv).value|;
    PaddingFailureAt(front, conv, j);
  }

  /** The padding failure when the narrow row is the last one and the lines before it parse. */
  lemma LastRowUnpadded<T>(lines: seq<string>, conv: string -> Option<T>)
    requires |lines| > 1 && AllRowsParse(lines, conv) && conv([]).None?
    requires ParseLines(lines[..|lines| - 1], conv).Ok?
    requires |ParseRow(lines[|lines| - 1], conv).value| < |ParseRow(lines[0], conv).value|
    ensures ParseLines(lines, conv) == Err(ConversionFailure([]))
  {
    var n := |lines| - 1;
    var front := lines[..n];
    var rows := ParseLines(front, conv).value;
    FirstRowKept(front, conv);
    assert ParseRow(lines[0], conv) == Ok(rows[0]) by {
      assert front[0] == lines[0];
    }
    assert FillOut(|rows[0]|, ParseRow(lines[n], conv).value, conv) == Err(ConversionFailure([]));
  }

  /** The value in column `k` of a row whose raw cells are `cells`: its own cell converted, or the padding. */
  ghost predicate CellFrom<T>(cells: seq<string>, k: nat, conv: string -> Option<T>, v: T) {
    if k < |cells| then conv(StripControl(cells[k])) == Some(v) else conv([]) == Some(v)
  }

  /**
   * A successful parse, cell by cell: one row per newline-separated piece of
   * the input, every piece at least two characters long, every row as wide as
   * the first line has cells, and each value the conversion of its raw cell
   * with control characters removed, or the conversion of "" where a short
   * row was padded. Cells beyond the first row's width are dropped.
   */
  lemma ParsedTable<T>(text: string, newLine: string, isWhiteSpace: char -> bool,
                       conv: string -> Option<T>, table: seq<seq<T>>)
    requires Parse(Some(text), newLine, isWhiteSpace, conv) == Ok(table)
    ensures exists i :: 0 <= i < |text| && !isWhiteSpace(text[i])
    ensures |table| == |Split(text, newLine)|
    ensures forall i :: 0 <= i < |table| ==> |Split(text, newLine)[i]| >= 2
    ensures |table[0]| == |RawCells(Split(text, newLine)[0]).value|
    ensures forall i :: 0 <= i < |table| ==> |table[i]| == |table[0]|
    ensures forall i, k :: 0 <= i < |table| && 0 <= k < |table[0]| ==>
              CellFrom(RawCells(Split(text, newLine)[i]).value, k, conv, table[i][k])
  {
    TrimEmptyIff(text, isWhiteSpace);
    ParsedRows(Split(text, newLine), conv, table);
  }

  /** `ParsedTable` for the lines once they are split apart. */
  lemma ParsedRows<T>(lines: seq<string>, conv: string -> Option<T>, table: seq<seq<T>>)
    requires ParseLines(lines, conv) == Ok(table) && lines != []
    ensures |table| == |lines|
    ensures forall i :: 0 <= i < |lines| ==> |lines[i]| >= 2
    ensures |table[0]| == |RawCells(lines[0]).value|
    ensures forall i :: 0 <= i < |table| ==> |table[i]| == |table[0]|
    ensures forall i, k :: 0 <= i < |table| && 0 <= k < |table[0]| ==>
              CellFrom(RawCells(lines[i]).value, k, conv, table[i][k])
  {
    ParseLinesRows(lines, conv);
    forall i | 0 <= i < |lines| ensures |lines[i]| >= 2 {
      assert ParseRow(lines[i], conv).Ok?;
    }
    forall i, k | 0 <= i < |table| && 0 <= k < |table[0]|
      ensures CellFrom(RawCells(lines[i]).value, k, conv, table[i][k])
    {
      CellOfRow(lines, conv, table, i, k);
    }
  }

  /** One value of the table: its own cell converted, or the padding. */
  lemma CellOfRow<T>(lines: seq<string>, conv: string -> Option<T>, table: seq<seq<T>>, i: nat, k: nat)
    requires ParseLines(lines, conv) == Ok(table) && AllRowsParse(lines, conv)
    requires 0 <= i < |table| && k < |table[0]|
    requires i == 0 ==> table[0] == ParseRow(lines[0], conv).value
    requires i > 0 ==> FillOut(|table[0]|, ParseRow(lines[i], conv).value, conv) == Ok(table[i])
    ensures CellFrom(RawCells(lines[i]).value, k, conv, table[i][k])
  {
    var row := ParseRow(lines[i], conv).value;
    if i > 0 && k < |row| {
      if |table[0]| <= |row| {
        assert table[i] == row[..|table[0]|];
      } else {
        assert table[i][..|row|] == row;
      }
      assert table[i][k] == row[k];
    }
  }

  /** The null-input error is raised for a null input and for nothing else. */
  lemma NullInputIff<T>(input: Option<string>, newLine: string, isWhiteSpace: char -> bool,
                        conv: string -> Option<T>)
    ensures Parse(input, newLine, isWhiteSpace, conv) == Err(ArgumentError(NullMessage)) <==> input.None?
  {
    assert |NullMessage| != |EmptyMessage|;
  }

  /**
   * The empty-input error is raised exactly for an input made only of white
   * space, "" and " " included; no line of such an input is parsed.
   */
  lemma BlankInputIff<T>(text: string, newLine: string, isWhiteSpace: char -> bool,
                         conv: string -> Option<T>)
    ensures Parse(Some(text), newLine, isWhiteSpace, conv) == Err(ArgumentError(EmptyMessage))
            <==> forall i :: 0 <= i < |text| ==> isWhiteSpace(text[i])
  {
    TrimEmptyIff(text, isWhiteSpace);
  }

  /** A line shorter than two characters, even an empty one, makes the whole parse fail. */
  lemma ShortLineFails<T>(text: string, newLine: string, isWhiteSpace: char -> bool,
                          conv: string -> Option<T>, i: nat)
    requires i < |Split(text, newLine)| && |Split(text, newLine)[i]| < 2
    ensures Parse(Some(text), newLine, isWhiteSpace, conv).Err?
  {
    var r := Parse(Some(text), newLine, isWhiteSpace, conv);
    if r.Ok? {
      ParsedTable(text, newLine, isWhiteSpace, conv, r.value);
    }
  }

  /**
   * Input that ends with the line terminator ("\n" or "\r\n") always fails:
   * the terminator leaves an empty last line behind.
   */
  lemma TrailingNewLineFails<T>(text: string, newLine: string, isWhiteSpace: char -> bool,
                                conv: string -> Option<T>)
    requires |newLine| > 0 && NoBorder(newLine)
    ensures Parse(Some(text + newLine), newLine, isWhiteSpace, conv).Err?
  {
    SplitTrailingSeparator(text, newLine);
    var lines := Split(text + newLine, newLine);
    ShortLineFails(text + newLine, newLine, isWhiteSpace, conv, |lines| - 1);
  }
}
