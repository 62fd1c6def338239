# ParserService model

A Dafny model of the parsing engine of the `henryscheine` document parser,
`Core/ParserService.cs`. `ParserService<T>.ParseText` takes a text whose lines
have the form `"a","b","c"` and returns a table of values of type `T`. It works as follows:

- it rejects a null input and an input that is empty after trimming, each with
  its own message;
- it splits the text into lines on the platform line terminator;
- it takes off each line's first and last character and splits the rest on the
  literal `","`;
- it removes every control character from each cell and converts the cell with
  `GetValue`, which is `Convert.ChangeType`;
- it fixes the table's width from the first row. Every later row goes through
  `FillOutEmptyColumns`, which cuts a longer row down and pads a shorter one
  with the conversion of `""`.

The project has these modules:

- `Wrappers`: `Option` and `Result`.
- `Text`: the .NET string operations the engine calls, written as functions
  with their documented behaviour proved as lemmas. These are
  `string.Split(string)`, `Trim` and the `char.IsControl` filter. `Join`
  (`string.Join`) is not called by the engine. It stands for the way the
  unit tests build their documents (`CoreTests/ParseServiceTests.cs:30`), and
  it serves as the inverse that `Split` is proved against.
- `ParserService`: the exceptions as a `ParseError` datatype and the
  specification functions `GetValue`, `RawCells`, `ConvertCells`, `ParseRow`,
  `FillOut`, `ParseLines` and `Parse`. It also holds the imperative methods
  `FillOutEmptyColumns`, `ParseLine`, `ParseEachLine` and `ParseText`, which
  keep the source's loops and are proved equal to those functions.
- `ParserLaws`: what a successful or failed parse means. It covers the row
  count, the rectangular shape, where every value comes from, when the parse
  succeeds (both directions), when padding fails, and the null and blank input
  errors.
- `RoundTrip`: the document format written out (`Render`). Parsing a rendered
  table gives it back, normalised to the first row's width.
- `ParserExamples`: small instances of the scenarios in
  `CoreTests/ParseServiceTests.cs`.

The platform enters as parameters:

- `newLine` is `Environment.NewLine`;
- `isWhiteSpace` is `char.IsWhiteSpace`;
- `conv: string -> Option<T>` is `Convert.ChangeType(_, typeof(T))`, and it
  gives `None` where that call throws.

A `null` input is `None`. The exceptions that `ParseText` lets escape are `Err`
values:

- `ArgumentError` carries the exact message of the source;
- `MalformedLine` stands for the `Substring` failure on a line shorter than two
  characters;
- `ConversionFailure` carries the cleaned text that could not be converted.

When several lines or cells fail, the first one decides the error, as in the
source.

A successful parse has one row per piece of the split
(`ParserService.ParseText`). Every piece is parsed, empty pieces included.
So an empty line fails (`ParserLaws.ShortLineFails`), and so does an input
that ends with the line terminator (`ParserLaws.TrailingNewLineFails`).

## Model

| member | source | states |
|---|---|---|
| ParserService.ParseText | henryscheine/Core/ParserService.cs:9-45 | The loop over the lines computes exactly `Parse`. A null input fails with "Input text can't be null". An input made only of white space fails with "Input text can't be empty". A successful table has one row per line of the split, and all its rows have the first row's width, which is at least 1. |
| ParserService.FillOutEmptyColumns | henryscheine/Core/ParserService.cs:52-64 | The truncate-or-pad-with-a-while-loop code computes exactly `FillOut`. |
| ParserService.ParseLine | henryscheine/Core/ParserService.cs:29-35 | The inner loop over a line's cells computes exactly `ParseRow`: the cells cleaned and converted in order, or the first failure. |
| ParserService.ParseEachLine | henryscheine/Core/ParserService.cs:25-43 | The `foreach` over the lines, with `columnsCount` fixed by the first row, computes exactly `ParseLines`. |
| ParserService.Parse | henryscheine/Core/ParserService.cs:9-45 | The reference definition of `ParseText`. A successful table has one row per piece of the split, and every row has the first row's width, which is at least 1. |
| ParserService.ParseRow | henryscheine/Core/ParserService.cs:29-35 | A line shorter than two characters fails with MalformedLine for that line. Any other failure is a ConversionFailure. A parsed row has at least one value. |
| ParserService.GetValue | henryscheine/Core/ParserService.cs:47-50 | Succeeds exactly when the conversion does, with the converted value. Otherwise it fails with a ConversionFailure that carries the text. |
| ParserService.RawCells | henryscheine/Core/ParserService.cs:29 | A line fails with MalformedLine exactly when it is shorter than two characters. Otherwise it gives at least one cell. |
| ParserService.RawCellsRejoin | henryscheine/Core/ParserService.cs:29 | The cells of a line, joined back with `","`, are the line without its first and last character. No cell contains `","`. |
| ParserService.ConvertCells | henryscheine/Core/ParserService.cs:31-35 | Succeeds exactly when every cleaned cell converts, and then gives one value per cell, each the conversion of its cell's cleaned text. On failure the error names the first cell whose conversion fails. |
| ParserService.FillOut | henryscheine/Core/ParserService.cs:52-63 | Fails exactly when the row is too short and `""` does not convert. Otherwise the result is exactly `columnsCount` wide. A long row keeps its first `columnsCount` values, and a short row keeps all its values followed by converted `""` padding. |
| ParserService.ParseLines | henryscheine/Core/ParserService.cs:25-43 | A table has one row per line. The first row has at least one value, and every row has the first row's width. Errors are only MalformedLine or ConversionFailure. |
| ParserService.ParseLinesErrorPersists | henryscheine/Core/ParserService.cs:27-43 | Once the lines up to some point fail, the whole parse fails with the same error. The first failure wins. |
| ParserService.PrefixLineFails | henryscheine/Core/ParserService.cs:29-35 | A line that does not parse ends the parse of the lines up to it with that line's error. |
| ParserService.StepFirstRow | henryscheine/Core/ParserService.cs:37-38 | The first line's row is taken as it is and becomes the whole table so far. |
| ParserService.PrefixFillFails | henryscheine/Core/ParserService.cs:39-40 | A later row that cannot be padded ends the parse with the failure to convert `""`. |
| ParserService.StepFilled | henryscheine/Core/ParserService.cs:39-42 | A later row, filled out to the first row's width, is appended to the table. |
| ParserService.ConvertCellsErrorPersists | henryscheine/Core/ParserService.cs:31-35 | Once a prefix of the cells fails to convert, converting all of them fails with the same error. |
| Text.StripControl | henryscheine/Core/ParserService.cs:33 | The cleaned text contains no control character and is no longer than the input. |
| Text.StripControlCount | henryscheine/Core/ParserService.cs:33 | A character occurs in the cleaned text as often as in the input when it is not a control character, and never when it is. |
| Text.StripControlConcat | henryscheine/Core/ParserService.cs:33 | Cleaning distributes over concatenation, so the kept characters stay in their order. |
| Text.StripControlClean | henryscheine/Core/ParserService.cs:33 | A text without control characters is left unchanged. |
| Text.TrimStart | henryscheine/Core/ParserService.cs:20 | The result is a suffix of the input, only white space was removed, and the result does not start with white space. |
| Text.TrimEnd | henryscheine/Core/ParserService.cs:20 | The result is a prefix of the input, only white space was removed, and the result does not end with white space. |
| Text.TrimEmptyIff | henryscheine/Core/ParserService.cs:20 | `Trim(s) == ""` exactly when every character of `s` is white space, including when `s` is empty. |
| Text.Split | henryscheine/Core/ParserService.cs:18 | A split always gives at least one piece. |
| Text.SplitAtFirstOccurrence | henryscheine/Core/ParserService.cs:18-29 | The split cuts at the leftmost occurrence of the separator. The first piece is the text before that occurrence, and the rest is the split of the text after it. This fixes the pieces even for `","`, which overlaps itself. |
| Text.SplitWithoutOccurrence | henryscheine/Core/ParserService.cs:18-29 | A text in which the separator never occurs is one piece. |
| Text.SplitJoin | henryscheine/Core/ParserService.cs:18 | Joining the pieces of a split with the same separator gives the text back. |
| Text.SplitPiecesFree | henryscheine/Core/ParserService.cs:29 | No piece of a split contains the separator. |
| Text.SplitTrailingSeparator | henryscheine/Core/ParserService.cs:18 | A text that ends with the separator splits into the pieces of the text before it plus an empty last piece. |
| Text.SplitOfJoin | henryscheine/Core/ParserService.cs:29 | Splitting a join gives back the pieces, provided none of them contains the separator's first character. |
| ParserLaws.ParseLinesRows | henryscheine/Core/ParserService.cs:27-43 | In a successful table every line parsed on its own. The first row is the first line's values unaltered, and every later row is its line's values filled out to the first row's width. |
| ParserLaws.EveryRowParses | henryscheine/Core/ParserService.cs:27-35 | A table parses only if each of its lines parses on its own. |
| ParserLaws.FirstRowKept | henryscheine/Core/ParserService.cs:37-38 | The first row of a successful table is its line's row unaltered. |
| ParserLaws.LaterRowsFilled | henryscheine/Core/ParserService.cs:39-40 | Every later row of a successful table is its line's row, reconciled with the first row's width. |
| ParserLaws.ParseLinesSucceeds | henryscheine/Core/ParserService.cs:27-43 | If every line parses and `""` converts wherever some later row is narrower than the first, the parse succeeds. |
| ParserLaws.ParseLinesOkIff | henryscheine/Core/ParserService.cs:27-43 | The lines parse exactly when every line parses on its own and padding is available wherever it is needed. |
| ParserLaws.PaddingFailure | henryscheine/Core/ParserService.cs:59-62 | Lines that each parse still fail, with the failure to convert `""`, when a later row is narrower than the first and `""` does not convert. |
| ParserLaws.PaddingFailureAt | henryscheine/Core/ParserService.cs:59-62 | The same padding failure, with the narrow line named. |
| ParserLaws.ParsedTable | henryscheine/Core/ParserService.cs:9-45 | A successful parse implies the following. The input had a non-white-space character. There is one row per line, and every line had at least two characters. The width is the first line's cell count, and the table is rectangular. Each value is either its line's own cell, cleaned and converted, or converted `""` padding past the end of a short line. |
| ParserLaws.ParsedRows | henryscheine/Core/ParserService.cs:27-43 | `ParsedTable` for lines already split apart. |
| ParserLaws.CellOfRow | henryscheine/Core/ParserService.cs:31-40 | One value of a table is either its own cell converted or the padding. |
| ParserLaws.NullInputIff | henryscheine/Core/ParserService.cs:13-16 | The null-input error is raised for a null input and for nothing else. |
| ParserLaws.BlankInputIff | henryscheine/Core/ParserService.cs:18-23 | The empty-input error is raised exactly for inputs made only of white space, `""` and `" "` included. |
| ParserLaws.ShortLineFails | henryscheine/Core/ParserService.cs:29 | Any line shorter than two characters, an empty one included, makes the whole parse fail. |
| ParserLaws.TrailingNewLineFails | henryscheine/Core/ParserService.cs:18-29 | An input that ends with the line terminator always fails. |
| RoundTrip.Quote | henryscheine/Core/ParserService.cs:29 | A rendered line starts and ends with a quote, and between them holds the cells joined by `","`. |
| RoundTrip.QuoteAll | henryscheine/Core/ParserService.cs:27-29 | One quoted line per row, in order. |
| RoundTrip.RawCellsOfQuote | henryscheine/Core/ParserService.cs:29 | The cells read from a quoted line are the cells it was made from, provided no cell contains a quote. |
| RoundTrip.SplitRender | henryscheine/Core/ParserService.cs:18 | The lines split out of a rendered document are its quoted rows. |
| RoundTrip.ParseOfRender | henryscheine/Core/ParserService.cs:13-23 | A rendered document is never blank, so its parse is the parse of its quoted lines. |
| RoundTrip.RenderedLinesParse | henryscheine/Core/ParserService.cs:27-43 | Quoted rows whose cells convert, with padding available where it is needed, parse. |
| RoundTrip.ParseRender | henryscheine/Core/ParserService.cs:9-45 | Parsing a rendered table gives one row per row, with the first row's width. Each value is its own cell, cleaned and converted, or the converted `""` padding. |
| RoundTrip.RenderPaddingFailure | henryscheine/Core/ParserService.cs:37-40 | A rendered table with a row narrower than the first fails on the conversion of `""` when `""` does not convert. |
| RoundTrip.RenderRoundTrip | henryscheine/Core/ParserService.cs:9-45 | For `T = string`, a rectangular table of clean cells is exactly what parsing its rendering gives back. |
| ParserExamples.NullInputExample | henryscheine/CoreTests/ParseServiceTests.cs:71-76 | A null input fails with "Input text can't be null". |
| ParserExamples.BlankInputExamples | henryscheine/CoreTests/ParseServiceTests.cs:78-90 | `""` and `" "` fail with "Input text can't be empty". |
| ParserExamples.MissingColumnPadded | henryscheine/CoreTests/ParseServiceTests.cs:92-118 | A second row with one cell missing is padded with `""`. |
| ParserExamples.ExtraColumnDropped | henryscheine/CoreTests/ParseServiceTests.cs:120-146 | A second row with an extra cell loses it. |
| ParserExamples.ControlCharacterRemoved | henryscheine/Core/ParserService.cs:33 | A control character in the middle of a cell disappears, and the characters on both sides are joined. |
| ParserExamples.ControlCharacterFiltered | henryscheine/CoreTests/ParseServiceTests.cs:148-174 | A cell that contains a control character is parsed without it. |
| ParserExamples.DecimalExamples | henryscheine/CoreTests/ParseServiceTests.cs:176-204 | The stand-in integer conversion turns the test's digit strings into their numbers and rejects `""`. |
| ParserExamples.SquareTableCells | henryscheine/CoreTests/ParseServiceTests.cs:176-204 | In a two-by-two document whose cells all convert, each value is the conversion of its cell. |
| ParserExamples.SquareTable | henryscheine/CoreTests/ParseServiceTests.cs:176-204 | A two-by-two document whose cells all convert parses to the table of their conversions. |
| ParserExamples.IntegerCells | henryscheine/CoreTests/ParseServiceTests.cs:176-204 | Parsing into integers gives the numbers written in the cells. |
| ParserExamples.NarrowRowUnconvertible | henryscheine/Core/ParserService.cs:59-62 | A short second row fails whenever `""` does not convert. |
| ParserExamples.IntegerPaddingFails | henryscheine/Core/ParserService.cs:59-62 | Parsing into integers, a short second row fails with ConversionFailure(`""`), because `""` is not a number. |

## Left out

- The HTTP controller (`Api/Controllers/DocumentParserController.cs`) and its logging, and the `IParserService<T>` interface. They wrap or declare the engine and compute nothing of their own.
- `Convert.ChangeType` is an abstract parameter `conv`. Its behaviour for each target type, culture and format is not modelled. `ParseDecimal` in the examples stands in for the conversion to `int` on plain digit strings.
- `Environment.NewLine` and `char.IsWhiteSpace` are the parameters `newLine` and `isWhiteSpace`. The examples fix them to `"\n"` and to the ASCII white-space characters.
- Text.IsControl: models `char.IsControl` as the Unicode category Cc, U+0000 to U+001F and U+007F to U+009F. Surrogate code units, which .NET can see alone, are not in Cc, so the filter is unaffected by the code-point counting noted under `ParserService.RawCells`.
- Exceptions are `Err` values. The stack trace and the exception types are not modelled, only the message or the failing text.
- ParserService.FillOutEmptyColumns: takes the row and returns the new row instead of updating a `ref List<T>`. Aliasing of the list is not modelled; the source's list is local to the call.
- ParserService.ParseLine: the inner loop of `ParseText` (lines 29-35) as its own method. The source has it inline.
- ParserService.ParseText: returns a `seq` of rows rather than a `List<List<T>>`. The method splits before the blank-input check, as the source does. The function `ParserService.Parse` splits only after the check passes, and the two agree because the split has no effect when the check fails.
- ParserService.ParseEachLine: the `foreach` over the lines of `ParseText` (lines 25-43) as its own method. The source has it inline.
- ParserService.RawCells: counts lengths, and takes the first and last character, in code points rather than UTF-16 code units, because Dafny's `char` is a Unicode scalar value. A line that starts or ends with a character outside the Basic Multilingual Plane parses differently. For example, a line that is a single U+1F600 is a one-cell row `GetValue("")` in the source but MalformedLine in the model.
- ParserExamples: the scenarios use small generic cells (any quote-free, line-break-free, control-free strings) rather than the literal patient records of the tests. The tests on header width and row count (`CoreTests/ParseServiceTests.cs:25-69`) are covered in general by `ParserService.ParseText` and `ParserLaws.ParsedTable`.
