/**
 * Small instances of the scenarios in CoreTests/ParseServiceTests.cs, with a
 * "\n" line terminator. The documents are written with `Render`, the way the
 * tests build theirs with `string.Join(Environment.NewLine, lines)`.
 */
module ParserExamples {
  import opened Wrappers
  import opened Text
  import opened ParserService
  import opened ParserLaws
  import opened RoundTrip

  const NewLine: string := "\n"

  /** The ASCII white space characters; `char.IsWhiteSpace` accepts these and more. */
  predicate AsciiWhiteSpace(c: char) {
    c == ' ' || c == '\t' || c == '\n' || c == '\r' || c == '\U{B}' || c == '\U{C}'
  }

  /**
   * `Convert.ChangeType(_, typeof(int))` on plain decimal digits: a value
   * for a non-empty digit string, a failure otherwise (the empty string included).
   */
  function DecimalDigits(s: string, acc: int): Option<int> {
    if s == [] then Some(acc)
    else if '0' <= s[0] <= '9' then DecimalDigits(s[1..], acc * 10 + (s[0] as int - '0' as int))
    else None
  }

  function ParseDecimal(s: string): Option<int> {
    if s == [] then None else DecimalDigits(s, 0)
  }

  /** returns_warning_when_input_is_null. */
  lemma NullInputExample()
    ensures Parse(None, NewLine, AsciiWhiteSpace, AsString) == Err(ArgumentError("Input text can't be null"))
  {
  }

  /** returns_warning_when_input_is_empty and returns_warning_when_input_contains_only_whitespaces. */
  lemma BlankInputExamples()
    ensures Parse(Some(""), NewLine, AsciiWhiteSpace, AsString) == Err(ArgumentError("Input text can't be empty"))
    ensures Parse(Some(" "), NewLine, AsciiWhiteSpace, AsString) == Err(ArgumentError("Input text can't be empty"))
  {
    BlankInputIff("", NewLine, AsciiWhiteSpace, AsString);
    BlankInputIff(" ", NewLine, AsciiWhiteSpace, AsString);
  }

  /** A cell the document format can carry unchanged: no quote, no line break, no control character. */
  ghost predicate PlainCell(x: string) {
    '"' !in x && '\n' !in x && StripControl(x) == x
  }

  /** returns_empty_values_when_row_missing_columns: a short row is padded with "". */
  lemma MissingColumnPadded(a: string, b: string, c: string)
    requires PlainCell(a) && PlainCell(b) && PlainCell(c)
    ensures Parse(Some(Render([[a, b], [c]], NewLine)), NewLine, AsciiWhiteSpace, AsString)
            == Ok([[a, b], [c, ""]])
  {
    var rows := [[a, b], [c]];
    ParseRender(rows, NewLine, AsciiWhiteSpace, AsString);
    var t := Parse(Some(Render(rows, NewLine)), NewLine, AsciiWhiteSpace, AsString).value;
    assert CellFrom(rows[0], 0, AsString, t[0][0]) && CellFrom(rows[0], 1, AsString, t[0][1]);
    assert CellFrom(rows[1], 0, AsString, t[1][0]) && CellFrom(rows[1], 1, AsString, t[1][1]);
    SquareOf(t, a, b, c, "");
  }

  /** ignores_additional_values_when_row_has_extra_columns: cells past the header's width are dropped. */
  lemma ExtraColumnDropped(a: string, b: string, c: string)
    requires PlainCell(a) && PlainCell(b) && PlainCell(c)
    ensures Parse(Some(Render([[a], [b, c]], NewLine)), NewLine, AsciiWhiteSpace, AsString)
            == Ok([[a], [b]])
  {
    var rows := [[a], [b, c]];
    ParseRender(rows, NewLine, AsciiWhiteSpace, AsString);
    var t := Parse(Some(Render(rows, NewLine)), NewLine, AsciiWhiteSpace, AsString).value;
    assert CellFrom(rows[0], 0, AsString, t[0][0]) && CellFrom(rows[1], 0, AsString, t[1][0]);
    assert t[0] == [a] && t[1] == [b];
    assert t == [[a], [b]];
  }

  /** U+0002 between two clean texts is the only character the control filter removes. */
  lemma ControlCharacterRemoved(a: string, b: string)
    requires StripControl(a) == a && StripControl(b) == b
    ensures StripControl(a + "\U{2}" + b) == a + b
  {
    StripControlConcat(a + "\U{2}", b);
    StripControlConcat(a, "\U{2}");
  }

  /** filters_control_characters: U+0002 inside a cell is removed, the rest kept in order. */
  lemma ControlCharacterFiltered(a: string, b: string)
    requires PlainCell(a) && PlainCell(b)
    ensures Parse(Some(Render([[a + "\U{2}" + b]], NewLine)), NewLine, AsciiWhiteSpace, AsString)
            == Ok([[a + b]])
  {
    var rows := [[a + "\U{2}" + b]];
    ControlCharacterRemoved(a, b);
    ParseRender(rows, NewLine, AsciiWhiteSpace, AsString);
    var t := Parse(Some(Render(rows, NewLine)), NewLine, AsciiWhiteSpace, AsString).value;
    assert CellFrom(rows[0], 0, AsString, t[0][0]);
    assert t[0] == [a + b];
    assert t == [[a + b]];
  }

  /** The decimal conversion on the numbers of the integer test, and its failure on "". */
  lemma DecimalExamples()
    ensures ParseDecimal("20") == Some(20) && ParseDecimal("500") == Some(500)
    ensures ParseDecimal("54") == Some(54) && ParseDecimal("635") == Some(635)
    ensures ParseDecimal("") == None && ParseDecimal("x") == None
  {
    assert DecimalDigits("0", 2) == Some(20) && DecimalDigits("00", 5) == Some(500);
    assert DecimalDigits("4", 5) == Some(54) && DecimalDigits("35", 6) == Some(635);
  }

  /** Cell by cell: each of the four values of a two-by-two table is the conversion of its cell. */
  lemma SquareTableCells<T>(a: string, b: string, c: string, d: string, conv: string -> Option<T>)
    requires PlainCell(a) && PlainCell(b) && PlainCell(c) && PlainCell(d)
    requires conv(a).Some? && conv(b).Some? && conv(c).Some? && conv(d).Some?
    ensures var r := Parse(Some(Render([[a, b], [c, d]], NewLine)), NewLine, AsciiWhiteSpace, conv);
            r.Ok? && |r.value| == 2 && |r.value[0]| == 2 && |r.value[1]| == 2
            && Some(r.value[0][0]) == conv(a) && Some(r.value[0][1]) == conv(b)
            && Some(r.value[1][0]) == conv(c) && Some(r.value[1][1]) == conv(d)
  {
    var rows := [[a, b], [c, d]];
    ParseRender(rows, NewLine, AsciiWhiteSpace, conv);
    var t := Parse(Some(Render(rows, NewLine)), NewLine, AsciiWhiteSpace, conv).value;
    assert CellFrom(rows[0], 0, conv, t[0][0]) && CellFrom(rows[0], 1, conv, t[0][1]);
    assert CellFrom(rows[1], 0, conv, t[1][0]) && CellFrom(rows[1], 1, conv, t[1][1]);
  }

  /** A two-by-two table parses into the conversions of its four cells, whatever the conversion. */
  lemma SquareTable<T>(a: string, b: string, c: string, d: string, conv: string -> Option<T>)
    requires PlainCell(a) && PlainCell(b) && PlainCell(c) && PlainCell(d)
    requires conv(a).Some? && conv(b).Some? && conv(c).Some? && conv(d).Some?
    ensures Parse(Some(Render([[a, b], [c, d]], NewLine)), NewLine, AsciiWhiteSpace, conv)
            == Ok([[conv(a).value, conv(b).value], [conv(c).value, conv(d).value]])
  {
    SquareTableCells(a, b, c, d, conv);
    var t := Parse(Some(Render([[a, b], [c, d]], NewLine)), NewLine, AsciiWhiteSpace, conv).value;
    SquareOf(t, conv(a).value, conv(b).value, conv(c).value, conv(d).value);
  }

  /** A two-by-two table is determined by its four values. */
  lemma SquareOf<T>(t: seq<seq<T>>, w: T, x: T, y: T, z: T)
    requires |t| == 2 && |t[0]| == 2 && |t[1]| == 2
    requires t[0][0] == w && t[0][1] == x && t[1][0] == y && t[1][1] == z
    ensures t == [[w, x], [y, z]]
  {
    assert t[0] == [w, x] && t[1] == [y, z];
  }

  /**
   * make_sure_generic_implementation_is_kept: with an integer target every
   * cell becomes its number (for "20","500" / "54","635" the numbers of
   * DecimalExamples).
   */
  lemma IntegerCells(a: string, b: string, c: string, d: string, x: int, y: int, z: int, w: int)
    requires PlainCell(a) && PlainCell(b) && PlainCell(c) && PlainCell(d)
    requires ParseDecimal(a) == Some(x) && ParseDecimal(b) == Some(y)
    requires ParseDecimal(c) == Some(z) && ParseDecimal(d) == Some(w)
    ensures Parse(Some(Render([[a, b], [c, d]], NewLine)), NewLine, AsciiWhiteSpace, ParseDecimal)
            == Ok([[x, y], [z, w]])
  {
    SquareTable(a, b, c, d, ParseDecimal);
  }

  /** A second row narrower than the first fails to parse when "" does not convert. */
  lemma NarrowRowUnconvertible<T>(a: string, b: string, c: string, conv: string -> Option<T>)
    requires PlainCell(a) && PlainCell(b) && PlainCell(c)
    requires conv(a).Some? && conv(b).Some? && conv(c).Some? && conv([]).None?
    ensures Parse(Some(Render([[a, b], [c]], NewLine)), NewLine, AsciiWhiteSpace, conv)
            == Err(ConversionFailure(""))
  {
    var rows := [[a, b], [c]];
    assert |rows[1]| < |rows[0]|;
    RenderPaddingFailure(rows, NewLine, AsciiWhiteSpace, conv);
  }

  /**
   * With an integer target a short row cannot be padded: converting "" to a
   * number fails, and so does the whole parse.
   */
  lemma IntegerPaddingFails(a: string, b: string, c: string)
    requires PlainCell(a) && PlainCell(b) && PlainCell(c)
    requires ParseDecimal(a).Some? && ParseDecimal(b).Some? && ParseDecimal(c).Some?
    ensures Parse(Some(Render([[a, b], [c]], NewLine)), NewLine, AsciiWhiteSpace, ParseDecimal)
            == Err(ConversionFailure(""))
  {
    NarrowRowUnconvertible(a, b, c, ParseDecimal);
  }
}
