# CSVParser row engine in Dafny

A model of the eager row engine of `CSVParser<Types...>` (CSVParser.h), with proofs. The parser
reads a stream line by line with `std::getline` and the row divider. It first throws away
`skip_count` lines, then stores one row per further line. Each line is cut into exactly one field
per column with `find`, `substr` and `erase`. Each field goes through `ConvertValue`: it is read
into its tuple slot with a `std::istringstream`, written back with a `std::ostringstream`, and
rejected when the two texts differ. A rejected cell is reported as `Bad value at (line,column)!`
on `std::cerr`. The slot keeps what was read, the remaining columns are still converted, and the
row is stored all the same.

Modules, one per file:

- `StdText` (std_text.dfy): the pieces of the C++ standard library that the engine relies on,
  as functions on values.
  - `std::string::find`, `substr(0, n)` and `erase(0, n)`, with `size_t` arithmetic made
    explicit: `npos + 1` wraps to 0 (`SizeSucc`).
  - `std::getline` on a stream whose content is a string and whose read position is an index
    (`GetLine`, `LinesFrom`, `Lines`).
  - `Segments` and `JoinWith`: a reference definition of splitting at a divider.
- `Tuples` (tuples.dfy): the anonymous-namespace helpers.
  - A row `std::tuple<Types...>` is a `seq<V>`. Each column type is a `Column`: how text is read
    into a slot (the earlier value of the slot is an argument), how a slot is written, and the
    value-initialised slot.
  - `ConvertValue`, the `iterate_tuple_insert` recursion (`InsertUpTo`) and the loop that runs it
    (`InsertForEach`).
  - `PrintValue`, the `iterate_tuple_print` recursion (`PrintUpTo`) and `PrintForEach`, as
    string building.
- `CsvParser` (csv_parser.dfy): the engine.
  - The cutting loop, as the function `Fields` and the method `CutFields`.
  - One pass of the `while` loop (`StoreRow`) and the whole loop over a list of lines
    (`Ingest`), which specify the class `CSVParser`.
  - The class has the fields `data`, `rowDiv` and `columnDiv`, plus `diagnostics`, the reports
    written to `std::cerr`.
  - Its methods are the constructors, `Pars` (the skip loop `SkipLines` and the read loop
    `ReadRows`, whose body is `StoreLine`), `SetDividers` and `GetRow`.
- `DecimalColumn` (decimal_column.dfy): one concrete column type, an unsigned integer written in
  decimal and read, after leading white space, as its leading decimal digits. An empty or
  all-blank text leaves the slot as it was. With it the round-trip check is shown to
  accept exactly the canonical decimals.
- `Scenarios` (scenarios.dfy): worked examples, proved about the model, on a two-column unsigned
  row type.

Three behaviours of the code differ from what a CSV reader is usually expected to do. The model
follows the code in each:

- A line with fewer dividers than columns does not give empty missing fields. Once no divider is
  left, `find` returns `npos` and `erase(0, npos + 1)` erases nothing. So every later field
  repeats the remainder: `"1,2"` on three columns gives `"1"`, `"2"`, `"2"` (`MissingField`).
- A rejected cell keeps the value that the stream extraction stored, not a default.
- Text (`std::string`) columns are round-trip checked like every other column. They are not
  accepted unconditionally: every column of the `Schema` goes through the same check.

`Pars` called a second time starts again at row 0. `resize(line_count + 1)` truncates the rows
already held, keeping the first one, which the first new line is then converted into. If no line
is read, the rows stay as they were. The model does this too (`StartRow`).

## Model

| member | source | states |
|---|---|---|
| StdText.SizeSucc | CSVParser.h:222 | `pos + 1` in `size_t` arithmetic: one more than `pos`, except that npos + 1 wraps around to 0; FieldsWhole states what this does to the remainder |
| StdText.Find | CSVParser.h:219 | `line.find(column_div)`: the first index of the divider in the line, or npos when there is none; FindMeaning states this |
| StdText.Substr | CSVParser.h:220 | `substr(0, n)`: the first n characters, or the whole text when n reaches its length (as npos always does) |
| StdText.Erase | CSVParser.h:222 | `erase(0, n)`: the text without its first n characters, or the empty text when n reaches its length; with `n = npos + 1`, which wraps to 0, nothing is erased |
| StdText.FindMeaning | CSVParser.h:219 | `find` gives the first index of the column divider when the rest of the line holds one, and npos otherwise |
| StdText.LinesFrom | CSVParser.h:209-213 | the lines `getline` reads, one after the other, from a read position until it fails; LinesFromPartition states what they are |
| StdText.Lines | CSVParser.h:209-213 | the lines of the whole stream, from the start; SkipLines and Pars read from them |
| StdText.GetLine | CSVParser.h:213 | `getline` fails only when nothing is left to read; otherwise the line holds no delimiter and is followed by a delimiter in the stream, or else it is the whole unterminated rest |
| StdText.LinesFromPartition | CSVParser.h:213 | the lines read until `getline` fails hold no delimiter, and each followed by the delimiter gives back the rest of the stream (plus one delimiter if it was unterminated): an empty text between two delimiters is a line, and a final unterminated text is a line only when it is non-empty |
| StdText.SegmentsJoin | CSVParser.h:217-223 | the divider-separated segments that the cutting loop follows, joined with the divider, give the line back |
| StdText.SegmentsFree | CSVParser.h:217-223 | no segment holds the divider |
| StdText.SegmentsCount | CSVParser.h:217-223 | there is one segment more than the line has dividers |
| CsvParser.Fields | CSVParser.h:217-223 | the cutting loop: one field per column, each cut with `find`, `substr` and `erase` from what the earlier ones left; it returns exactly `sizeof...(Types)` fields, and FieldsAreSegments states which |
| CsvParser.FieldsCut | CSVParser.h:219-222 | with a divider left, the field is the text before the first divider, and that text and the divider are erased from the remainder |
| CsvParser.FieldsWhole | CSVParser.h:219-222 | with no divider left, the field is the whole remainder, and the remainder stays as it is because `npos + 1` wraps to 0 |
| CsvParser.FieldsAreSegments | CSVParser.h:217-223 | the fields are the first `sizeof...(Types)` segments of the line; once the segments run out every later field repeats the last one; segments past the arity are dropped |
| CsvParser.FieldsAreSegmentsCut | CSVParser.h:217-223 | the inductive step of FieldsAreSegments on a line holding the divider |
| CsvParser.FieldsAreSegmentsWhole | CSVParser.h:217-223 | the inductive step of FieldsAreSegments on a line without the divider |
| CsvParser.FieldsFollowSegments | CSVParser.h:217-223 | field i is segment i while there is one, and the last segment after that |
| CsvParser.FieldsWithoutDivider | CSVParser.h:219-222 | a line without the divider gives the whole line as every field |
| CsvParser.CutFields | CSVParser.h:216-223 | the loop fills a fresh array of `sizeof...(Types)` strings with exactly the fields |
| CsvParser.Resize | CSVParser.h:215 | `resize(n)`: n rows, those held before kept up to n, any new one value-initialised |
| CsvParser.StoreRow | CSVParser.h:215-225 | one pass of the loop body on values: resize to `n + 1` rows, then convert the line's fields into row n as line `n + 1`; every row keeps one slot per column |
| CsvParser.Ingest | CSVParser.h:212-226 | the `while` loop over a list of lines, storing line k as row k; it has one row per line, or the rows held before when there is no line |
| CsvParser.ParsResult | CSVParser.h:205-226 | Pars on values: store the lines of the stream left after the first `skip_count` into the rows held before; SkipEverything, ParsFromEmpty and the class method Pars state what it gives |
| CsvParser.SkipLines | CSVParser.h:208-211 | after the skip loop the lines still to be read are those of the stream without its first `skip_count`; a skip past the end reads nothing |
| CsvParser.SkipEverything | CSVParser.h:208-213 | when `skip_count` reaches the number of lines, no row is stored (the rows stay as they were) and nothing is reported |
| CsvParser.ReadFromIsIngest | CSVParser.h:212-226 | the `while` loop, as it runs from a read position, stores and reports what storing the remaining lines one after the other does |
| CsvParser.IngestRows | CSVParser.h:212-226 | with no line, rows and reports are unchanged; otherwise there is one row per line, in input order, and row k is its starting row converted from the fields of line k as line number k + 1 |
| CsvParser.IngestRow | CSVParser.h:212-226 | row k of IngestRows, by induction on the number of lines |
| CsvParser.IngestLast | CSVParser.h:215-224 | the last line read is resized into a new row (value-initialised, or the first row kept by `resize(1)`) and converted into it |
| CsvParser.IngestKeeps | CSVParser.h:215 | storing a further line leaves the rows of earlier lines unchanged |
| CsvParser.ParsFromEmpty | CSVParser.h:212-226 | from an empty parser, `data` holds one row per line after the skipped ones, in input order, each the value-initialised row converted from that line's fields |
| CsvParser.IngestErrors | CSVParser.h:213-226 | a cell is reported, once, exactly when its stored value does not write back as its field text; the reports come line by line, within a line by ascending column, and name the 1-based count of non-skipped lines |
| CsvParser.CSVParser.constructor | CSVParser.h:188-191 | a new parser holds no row, has the default dividers `'\n'` and `','`, and has reported nothing |
| CsvParser.CSVParser.FromStream | CSVParser.h:193-203 | the stream constructors hold exactly the rows and reports of Pars on an empty parser with the default dividers |
| CsvParser.CSVParser.Pars | CSVParser.h:205-227 | the rows are those of storing every line left after the skipped ones into the rows held before, and the reports are appended to those already written |
| CsvParser.CSVParser.ReadRows | CSVParser.h:212-226 | the `while (getline)` loop stores every remaining line as the next row, counted from 0, and appends its reports |
| CsvParser.CSVParser.StoreLine | CSVParser.h:215-225 | one pass of the loop body: resize, cut, convert into row `line_count` and report as line `line_count + 1` |
| CsvParser.CSVParser.SetDividers | CSVParser.h:229-233 | sets the two dividers to its arguments and changes nothing else |
| CsvParser.CSVParser.GetRow | CSVParser.h:235-238 | returns the stored row at the index, which has one slot per column |
| Tuples.DefaultRow | CSVParser.h:215 | the value-initialised tuple that `resize` appends: one slot per column, each the column's zero value |
| Tuples.ConvertValue | CSVParser.h:54-67 | read the field text into the slot over its earlier value, write the slot back, and accept exactly when the written text equals the field text; the slot keeps what was read either way |
| Tuples.InsertUpTo | CSVParser.h:15-45 | the `iterate_tuple_insert` recursion: columns 0 to index converted in order, with one report (line, index + 1) per rejected column; the row keeps its arity, and InsertSlots, InsertReports and InsertOrder state the rest |
| Tuples.InsertSlots | CSVParser.h:15-52 | every column is converted, including those after a rejected one: slot i holds what reading field i over the slot's earlier value gives |
| Tuples.InsertReports | CSVParser.h:54-67 | a report (line, i + 1) is made exactly for each column i whose stored value does not write back as field i |
| Tuples.InsertOrder | CSVParser.h:15-45 | the reports of a row name columns 1 to the arity, in strictly ascending order, because column index - 1 is converted before index |
| Tuples.InsertForEach | CSVParser.h:47-52 | the loop over the columns, index 0 first, gives the row and reports of the template recursion |
| Tuples.PrintValue | CSVParser.h:99-113 | a slot's text, followed by ", " unless it ends the row |
| Tuples.PrintUpTo | CSVParser.h:73-90 | the `iterate_tuple_print` recursion: the slots up to index printed in order, only the last one told whether it ends the row; PrintUpToJoins states the text |
| Tuples.PrintForEach | CSVParser.h:92-97 | prints every slot, the last one as the end of the row; PrintForEachJoins states the text |
| Tuples.PrintUpToJoins | CSVParser.h:73-90 | printing up to a column gives the slot texts up to it separated by ", ", with one more ", " when it does not end the row |
| Tuples.PrintForEachJoins | CSVParser.h:92-120 | a printed row is its slot texts separated by ", ", with no trailing separator |
| Tuples.PrintAcceptedRow | CSVParser.h:54-113 | a row converted without any report prints as its field texts separated by ", " |
| DecimalColumn.Decimal | CSVParser.h:60-61 | `ss << t` (and `std::cout << t` at CSVParser.h:106, 110) on an unsigned slot: its decimal digits, most significant first, with no leading zero; DecimalCanonical and ReadsBack state this |
| DecimalColumn.ReadDecimal | CSVParser.h:59 | `std::istringstream(text) >> t` on an unsigned slot: leading white space is skipped; an empty or all-blank text keeps the slot; otherwise the leading digits are read, or 0 is stored when none comes first; ReadsBack, WritesBack, UnsignedAccepts and BlankKeepsSlot state its meaning |
| DecimalColumn.DecimalCanonical | CSVParser.h:60-61 | writing a number gives digits only, at least one, and a leading zero only for 0 |
| DecimalColumn.ReadsBack | CSVParser.h:59-61 | reading back what was written gives the number |
| DecimalColumn.WritesBack | CSVParser.h:59-62 | writing out the value of a canonical text gives that text back |
| DecimalColumn.UnsignedAccepts | CSVParser.h:59-65 | on this column the round-trip check accepts exactly the canonical decimals, and the slot then holds their value |
| DecimalColumn.BlankKeepsSlot | CSVParser.h:59-65 | an empty or all-blank field leaves the slot as it was (the extraction fails before reading anything) and is rejected, because nothing written back is empty |
| Scenarios.LinesOfStream | CSVParser.h:213 | `"a\n\nb\n"` is read as the lines `"a"`, `""`, `"b"` |
| Scenarios.TwoFields | CSVParser.h:217-223 | a line with one divider, anywhere in it, cuts into the texts before and after it; either may be empty |
| Scenarios.MissingField | CSVParser.h:217-223 | a line with one divider on three columns gives the text before it, then the text after it twice: the missing third field repeats the remainder |
| Scenarios.CutAtDivider | CSVParser.h:219-222 | at the first divider of the line, the first field is the text before it and the rest are cut from the text after it |
| Scenarios.RemainderRepeats | CSVParser.h:219-222 | with no divider left, two more fields are both the whole remainder |
| Scenarios.LeadingEmptyField | CSVParser.h:217-223 | a line that starts with its only divider gives an empty first field and the rest as the second |
| Scenarios.TrailingEmptyField | CSVParser.h:217-223 | a line that ends with its only divider gives the text before it and an empty second field |
| Scenarios.ExtraField | CSVParser.h:217-223 | `"1,2,3"` on two columns gives `"1"`, `"2"`: the third field is dropped |
| Scenarios.LeadingZeros | CSVParser.h:59-65 | `"007"` is read as 7, which writes back as `"7"`, so the cell is rejected and keeps 7 |
| Scenarios.FirstRow | CSVParser.h:213-226 | the line `"1,2"` is stored as the row (1, 2) with no report |
| Scenarios.RejectedRow | CSVParser.h:213-226 | the line `"007,3"` is stored as (7, 3) and reported once, at (1,1) |
| Scenarios.HeaderSkipped | CSVParser.h:205-227 | with `skip_count` 1, a header line is dropped and the next line is line 1 of the reports |

## Left out

- `InputIterator`, `begin` and `end` (CSVParser.h:127-186), an iterator over the rows already
  stored in `data` (it parses nothing): the code does not form a coherent design (`begin` passes an integer to a pointer
  constructor, `operator++` uses a `data` that is not in scope, equality compares only the parser).
- main.cpp is not part of this model: it opens a file and prints rows.
- Exact `std::istringstream`/`std::ostringstream` behaviour (locale, whitespace skipping,
  overflow, failbit): each column type is an abstract read/write pair. The concrete
  `DecimalColumn` has no sign and no overflow; a text whose first non-blank character is not a
  digit stores 0.
- The writes to `std::cerr` and `std::cout` (CSVParser.h:27, 42, 106, 110): the reports are a list
  in the parser, and printing builds a string. `operator<<` writes to `std::cout` whatever stream it
  is given; the model only builds the text.
- The `new std::string[]` array that Pars allocates for each line and never frees (CSVParser.h:216).
- CsvParser.SkipLines: the skip loop's counter is an `int` compared with a `size_t`; the model counts
  with an unbounded natural, so skip counts beyond the range of `int` are not modelled.
- CsvParser.CSVParser.GetRow: the C++ code does not check the index and returns a reference into
  `data`; the model requires a valid index and returns the row as a value.
- Line lengths: the lemmas about fields assume a line shorter than npos, as every `std::string` is.
