/**
 * `ParserService<T>.ParseText` of Core/ParserService.cs: turns text made of
 * lines of the form "a","b","c" into a table of values of type `T`.
 *
 * The .NET environment enters as parameters: `newLine` is `Environment.NewLine`,
 * `isWhiteSpace` is `char.IsWhiteSpace` (used by `Trim`), and `conv` is
 * `Convert.ChangeType(_, typeof(T))`, which yields `None` where it throws.
 * A `null` input is `None`. Exceptions become `Err` values.
 *
 * The spec functions below recurse from the back of a sequence, the way the
 * source's loops grow their lists with `Add`; the methods run those loops and
 * are proved to produce exactly what the functions define.
 */
module ParserService {
  import opened Wrappers
  import opened Text

  const NullMessage: string := "Input text can't be null"
  const EmptyMessage: string := "Input text can't be empty"

  /** The three-character separator between two quoted cells: `","`. */
  const CellSeparator: string := "\",\""

  /** The exceptions `ParseText` lets escape. */
  datatype ParseError =
    | ArgumentError(message: string)   // the ArgumentException thrown for a null or blank input
    | MalformedLine(line: string)       // Substring(1, Length - 2) on a line shorter than 2 characters
    | ConversionFailure(text: string)   // Convert.ChangeType could not convert this cleaned text

  // ---------------------------------------------------------------------------
  // Specification functions

  /** `GetValue<T>`: the conversion of `text`, or the failure it throws. */
  function GetValue<T>(text: string, conv: string -> Option<T>): (r: Result<T, ParseError>)
    ensures r.Ok? <==> conv(text).Some?
    ensures r.Ok? ==> conv(text) == Some(r.value)
    ensures r.Err? ==> r.error == ConversionFailure(text)
  {
    match conv(text)
    case Some(v) => Ok(v)
    case None => Err(ConversionFailure(text))
  }

  /**
   * The raw cell texts of one line: the line without its first and last
   * character, split on `","`. A line shorter than two characters has no
   * such inner text and is malformed.
   */
  function RawCells(line: string): (r: Result<seq<string>, ParseError>)
    ensures r.Err? <==> |line| < 2
    ensures r.Err? ==> r.error == MalformedLine(line)
    ensures r.Ok? ==> |r.value| >= 1
  {
    if |line| < 2 then Err(MalformedLine(line))
    else Ok(Split(line[1..|line| - 1], CellSeparator))
  }

  /**
   * The cells of a line of at least two characters: joined back with the
   * separator they give the text between its first and last character, and
   * none of them contains the separator.
   */
  lemma RawCellsRejoin(line: string)
    requires |line| >= 2
    ensures RawCells(line).Ok? && Join(RawCells(line).value, CellSeparator) == line[1..|line| - 1]
    ensures forall k, i :: 0 <= k < |RawCells(line).value| ==> !OccursAt(RawCells(line).value[k], CellSeparator, i)
  {
    SplitJoin(line[1..|line| - 1], CellSeparator);
    SplitPiecesFree(line[1..|line| - 1], CellSeparator);
  }

  /**
   * Every cell, cleaned of control characters and converted, in order.
   * The first cell whose conversion fails decides the error.
   */
  function ConvertCells<T>(cells: seq<string>, conv: string -> Option<T>): (r: Result<seq<T>, ParseError>)
    ensures r.Ok? <==> forall i :: 0 <= i < |cells| ==> conv(StripControl(cells[i])).Some?
    ensures r.Ok? ==> |r.value| == |cells|
    ensures r.Ok? ==> forall i :: 0 <= i < |cells| ==> conv(StripControl(cells[i])) == Some(r.value[i])
    ensures r.Err? ==> exists i :: 0 <= i < |cells| && conv(StripControl(cells[i])).None?
                          && r.error == ConversionFailure(StripControl(cells[i]))
                          && forall j :: 0 <= j < i ==> conv(StripControl(cells[j])).Some?
    decreases |cells|
  {
    if cells == [] then Ok([])
    else
      var front := cells[..|cells| - 1];
      match ConvertCells(front, conv)
      case Err(e) => Err(e)
      case Ok(values) =>
        match GetValue(StripControl(cells[|cells| - 1]), conv)
        case Err(e) => Err(e)
        case Ok(v) => Ok(values + [v])
  }

  /** The values of one line before its width is reconciled with the first row. */
  function ParseRow<T>(line: string, conv: string -> Option<T>): (r: Result<seq<T>, ParseError>)
    ensures r.Ok? ==> |r.value| >= 1
    ensures |line| < 2 ==> r == Err(MalformedLine(line))
    ensures r.Err? ==> r.error == MalformedLine(line) || r.error.ConversionFailure?
  {
    match RawCells(line)
    case Err(e) => Err(e)
    case Ok(cells) => ConvertCells(cells, conv)
  }

  /**
   * `FillOutEmptyColumns`: a row made exactly `columnsCount` wide. Its first
   * cells are the row's own; a short row is extended with the conversion of
   * the empty string, and fails only if that conversion fails.
   */
  function FillOut<T>(columnsCount: nat, row: seq<T>, conv: string -> Option<T>): (r: Result<seq<T>, ParseError>)
    ensures r.Err? <==> |row| < columnsCount && conv([]).None?
    ensures r.Err? ==> r.error == ConversionFailure([])
    ensures r.Ok? ==> |r.value| == columnsCount
    ensures r.Ok? && columnsCount <= |row| ==> r.value == row[..columnsCount]
    ensures r.Ok? && |row| < columnsCount ==>
              r.value[..|row|] == row && forall k :: |row| <= k < columnsCount ==> conv([]) == Some(r.value[k])
  {
    if |row| > columnsCount then Ok(row[..columnsCount])
    else if |row| == columnsCount then Ok(row)
    else
      match conv([])
      case None => Err(ConversionFailure([]))
      case Some(empty) => Ok(row + seq(columnsCount - |row|, _ => empty))
  }

  /**
   * The table for a sequence of lines: one row per line, in order; the first
   * row as parsed, every later row filled out to the first row's width.
   * The first line that fails decides the error.
   */
  function ParseLines<T>(lines: seq<string>, conv: string -> Option<T>): (r: Result<seq<seq<T>>, ParseError>)
    ensures r.Ok? ==> |r.value| == |lines|
    ensures r.Ok? && lines != [] ==> |r.value[0]| >= 1
    ensures r.Ok? ==> forall i :: 0 <= i < |r.value| ==> |r.value[i]| == |r.value[0]|
    ensures r.Err? ==> r.error.MalformedLine? || r.error.ConversionFailure?
    decreases |lines|
  {
    if lines == [] then Ok([])
    else
      match ParseLines(lines[..|lines| - 1], conv)
      case Err(e) => Err(e)
      case Ok(rows) =>
        match ParseRow(lines[|lines| - 1], conv)
        case Err(e) => Err(e)
        case Ok(row) =>
          if rows == [] then Ok([row])
          else
            match FillOut(|rows[0]|, row, conv)
            case Err(e) => Err(e)
            case Ok(filled) => Ok(rows + [filled])
  }

  /**
   * `ParseText` as a function of its input: a table has one row per line of
   * the split, all as wide as the first. When the argument errors are raised
   * is stated by `NullInputIff` and `BlankInputIff` in module ParserLaws.
   */
  function Parse<T>(input: Option<string>, newLine: string, isWhiteSpace: char -> bool,
                    conv: string -> Option<T>): (r: Result<seq<seq<T>>, ParseError>)
    ensures r.Ok? ==> input.Some? && |r.value| == |Split(input.value, newLine)|
    ensures r.Ok? ==> forall i :: 0 <= i < |r.value| ==> |r.value[i]| == |r.value[0]| >= 1
  {
    match input
    case None => Err(ArgumentError(NullMessage))
    case Some(text) =>
      if Trim(text, isWhiteSpace) == [] then Err(ArgumentError(EmptyMessage))
      else ParseLines(Split(text, newLine), conv)
  }

  /** The first `i` elements of a sequence are the first `i` of its first `i + 1`. */
  lemma PrefixOfPrefix<E>(s: seq<E>, i: nat)
    requires i < |s|
    ensures s[..i + 1][..i] == s[..i]
  {
  }

  /** Once a prefix of the lines fails, the whole sequence fails with the same error. */
  lemma {:induction false} ParseLinesErrorPersists<T>(lines: seq<string>, k: nat, e: ParseError,
                                                      conv: string -> Option<T>)
    requires k <= |lines| && ParseLines(lines[..k], conv) == Err(e)
    ensures ParseLines(lines, conv) == Err(e)
    decreases |lines|
  {
    if k < |lines| {
      var front := lines[..|lines| - 1];
      assert front[..k] == lines[..k];
      ParseLinesErrorPersists(front, k, e, conv);
    } else {
      assert lines[..k] == lines;
    }
  }

  /*
   * The steps the loop of `ParseText` takes at line `i`, given the table of
   * the lines before it: a line that fails, or whose row cannot be filled
   * out, ends the whole parse with its error; otherwise the table grows by
   * that line's row.
   */

  /** A line that does not parse ends the lines up to it with its own error. */
  lemma PrefixLineFails<T>(lines: seq<string>, i: nat, rows: seq<seq<T>>, conv: string -> Option<T>)
    requires i < |lines| && ParseLines(lines[..i], conv) == Ok(rows) && ParseRow(lines[i], conv).Err?
    ensures ParseLines(lines[..i + 1], conv) == Err(ParseRow(lines[i], conv).error)
  {
    PrefixOfPrefix(lines, i);
  }

  /** The first line's row is taken as it is. */
  lemma StepFirstRow<T>(lines: seq<string>, i: nat, conv: string -> Option<T>)
    requires i < |lines| && ParseLines(lines[..i], conv) == Ok([]) && ParseRow(lines[i], conv).Ok?
    ensures ParseLines(lines[..i + 1], conv) == Ok([ParseRow(lines[i], conv).value])
  {
    PrefixOfPrefix(lines, i);
  }

  /** A later row that cannot be filled out to the first row's width ends the lines up to it. */
  lemma PrefixFillFails<T>(lines: seq<string>, i: nat, rows: seq<seq<T>>, conv: string -> Option<T>)
    requires i < |lines| && ParseLines(lines[..i], conv) == Ok(rows) && rows != []
    requires ParseRow(lines[i], conv).Ok? && FillOut(|rows[0]|, ParseRow(lines[i], conv).value, conv).Err?
    ensures ParseLines(lines[..i + 1], conv) == Err(ConversionFailure([]))
  {
    PrefixOfPrefix(lines, i);
  }

  /** A later row filled out to the first row's width is appended to the table. */
  lemma StepFilled<T>(lines: seq<string>, i: nat, rows: seq<seq<T>>, conv: string -> Option<T>)
    requires i < |lines| && ParseLines(lines[..i], conv) == Ok(rows) && rows != []
    requires ParseRow(lines[i], conv).Ok? && FillOut(|rows[0]|, ParseRow(lines[i], conv).value, conv).Ok?
    ensures ParseLines(lines[..i + 1], conv)
            == Ok(rows + [FillOut(|rows[0]|, ParseRow(lines[i], conv).value, conv).value])
  {
    PrefixOfPrefix(lines, i);
  }

  /** Once a prefix of the cells fails to convert, converting all of them fails with the same error. */
  lemma {:induction false} ConvertCellsErrorPersists<T>(cells: seq<string>, k: nat, conv: string -> Option<T>)
    requires k <= |cells| && ConvertCells(cells[..k], conv).Err?
    ensures ConvertCells(cells, conv) == ConvertCells(cells[..k], conv)
    decreases |cells|
  {
    if k < |cells| {
      var front := cells[..|cells| - 1];
      assert front[..k] == cells[..k];
      ConvertCellsErrorPersists(front, k, conv);
    } else {
      assert cells[..k] == cells;
    }
  }

  // ---------------------------------------------------------------------------
  // The operations, as the source runs them

  /** `FillOutEmptyColumns(columnsCount, ref rowItems)`: returns the new value of `rowItems`. */
  method FillOutEmptyColumns<T>(columnsCount: nat, rowItems: seq<T>, conv: string -> Option<T>)
    returns (r: Result<seq<T>, ParseError>)
    ensures r == FillOut(columnsCount, rowItems, conv)
  {
    if |rowItems| > columnsCount {
      return Ok(rowItems[..columnsCount]);
    }
    var row := rowItems;
    while |row| < columnsCount
      invariant |rowItems| <= |row| <= columnsCount
      invariant row[..|rowItems|] == rowItems
      invariant forall k :: |rowItems| <= k < |row| ==> conv([]) == Some(row[k])
      decreases columnsCount - |row|
    {
      var v := GetValue([], conv);
      if v.Err? {
        return Err(v.error);
      }
      row := row + [v.value];
    }
    if |rowItems| < columnsCount {
      var empty := row[|rowItems|];
      assert row == rowItems + seq(columnsCount - |rowItems|, _ => empty);
    } else {
      assert row == rowItems;
    }
    return Ok(row);
  }

  /**
   * The body of the outer loop of `ParseText` up to the width check: the
   * line's cells, each cleaned of control characters and converted, in order.
   */
  method ParseLine<T>(line: string, conv: string -> Option<T>) returns (r: Result<seq<T>, ParseError>)
    ensures r == ParseRow(line, conv)
  {
    if |line| < 2 {
      return Err(MalformedLine(line));
    }
    var cells := Split(line[1..|line| - 1], CellSeparator);
    var rowItems: seq<T> := [];
    var j := 0;
    while j < |cells|
      invariant 0 <= j <= |cells|
      invariant ConvertCells(cells[..j], conv) == Ok(rowItems)
    {
      var filteredCellText := StripControl(cells[j]);
      var value := GetValue(filteredCellText, conv);
      PrefixOfPrefix(cells, j);
      if value.Err? {
        ConvertCellsErrorPersists(cells, j + 1, conv);
        return Err(value.error);
      }
      rowItems := rowItems + [value.value];
      j := j + 1;
    }
    assert cells[..j] == cells;
    return Ok(rowItems);
  }

  /** `ParseText(inputText)`. */
  method ParseText<T>(inputText: Option<string>, newLine: string, isWhiteSpace: char -> bool,
                      conv: string -> Option<T>)
    returns (r: Result<seq<seq<T>>, ParseError>)
    ensures r == Parse(inputText, newLine, isWhiteSpace, conv)
    ensures inputText.None? ==> r == Err(ArgumentError(NullMessage))
    ensures (inputText.Some? && forall i :: 0 <= i < |inputText.value| ==> isWhiteSpace(inputText.value[i]))
            ==> r == Err(ArgumentError(EmptyMessage))
    ensures r.Ok? ==> inputText.Some? && |r.value| == |Split(inputText.value, newLine)|
    ensures r.Ok? ==> forall i :: 0 <= i < |r.value| ==> |r.value[i]| == |r.value[0]| >= 1
  {
    if inputText.None? {
      return Err(ArgumentError(NullMessage));
    }
    var text := inputText.value;
    var inputTextArray := Split(text, newLine);
    TrimEmptyIff(text, isWhiteSpace);
    if Trim(text, isWhiteSpace) == [] {
      return Err(ArgumentError(EmptyMessage));
    }
    r := ParseEachLine(inputTextArray, conv);
  }

  /**
   * The `foreach` over the lines in `ParseText`: each line's row, the first
   * one fixing `columnsCount`, every later one filled out to it.
   */
  method ParseEachLine<T>(inputTextArray: seq<string>, conv: string -> Option<T>)
    returns (r: Result<seq<seq<T>>, ParseError>)
    ensures r == ParseLines(inputTextArray, conv)
  {
    var result: seq<seq<T>> := [];
    var columnsCount := 0;
    var i := 0;
    while i < |inputTextArray|
      invariant 0 <= i <= |inputTextArray|
      invariant ParseLines(inputTextArray[..i], conv) == Ok(result)
      invariant columnsCount == if i == 0 then 0 else |result[0]|
    {
      var line := inputTextArray[i];
      var parsed := ParseLine(line, conv);
      if parsed.Err? {
        PrefixLineFails(inputTextArray, i, result, conv);
        ParseLinesErrorPersists(inputTextArray, i + 1, parsed.error, conv);
        return Err(parsed.error);
      }
      var rowItems := parsed.value;
      if columnsCount == 0 {
        assert i == 0 && result == [] && result + [rowItems] == [rowItems];
        StepFirstRow(inputTextArray, i, conv);
        columnsCount := |rowItems|;
      } else {
        var filled := FillOutEmptyColumns(columnsCount, rowItems, conv);
        if filled.Err? {
          PrefixFillFails(inputTextArray, i, result, conv);
          ParseLinesErrorPersists(inputTextArray, i + 1, filled.error, conv);
          return Err(filled.error);
        }
        StepFilled(inputTextArray, i, result, conv);
        rowItems := filled.value;
        assert (result + [rowItems])[0] == result[0];
      }
      result := result + [rowItems];
      i := i + 1;
    }
    assert inputTextArray[..i] == inputTextArray;
    return Ok(result);
  }
}
