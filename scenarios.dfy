/** Worked examples of the row engine on two unsigned columns, as in a
    CSVParser<size_t, size_t>. */
module Scenarios {
  import opened StdText
  import opened Tuples
  import opened DecimalColumn
  import opened CsvParser

  const Pair: Schema<nat> := [Unsigned, Unsigned]

  /** getline keeps an empty line between two row dividers and makes no line of
      the nothing after a final divider. */
  lemma LinesOfStream()
    ensures Lines("a\n\nb\n", '\n') == ["a", "", "b"]
  {
    var s := "a\n\nb\n";
    GetLineAt(s, 0, '\n', 1);
    GetLineAt(s, 2, '\n', 2);
    GetLineAt(s, 3, '\n', 4);
    assert s[0..1] == "a" && s[2..2] == "" && s[3..4] == "b";
    assert LinesFrom(s, 5, '\n') == [];
    assert LinesFrom(s, 3, '\n') == ["b"];
    assert LinesFrom(s, 2, '\n') == ["", "b"];
  }

  /** Cutting a line with one divider into two fields; either may be empty when
      the divider starts or ends the line. */
  lemma TwoFields(line: string, k: nat)
    requires |line| < NPOS && k < |line| && line[k] == ',' && ',' !in line[..k] && ',' !in line[k + 1..]
    ensures Fields(line, ',', 2) == [line[..k], line[k + 1..]]
  {
    assert forall j :: 0 <= j < k ==> line[j] == line[..k][j];
    IndexFromAt(line, ',', 0, k);
    FieldsCut(line, ',', 2, k);
    IndexFirst(line[k + 1..], ',');
    FieldsWhole(line[k + 1..], ',', 1);
  }

  /** A line with one divider on three columns: once no divider is left, npos + 1
      wraps to 0 and nothing is erased, so the third field repeats the second. */
  lemma MissingField(line: string, k: nat)
    requires |line| < NPOS && k < |line| && line[k] == ',' && ',' !in line[..k] && ',' !in line[k + 1..]
    ensures Fields(line, ',', 3) == [line[..k], line[k + 1..], line[k + 1..]]
  {
    var first, rest := line[..k], line[k + 1..];
    CutAtDivider(line, k, 3);
    RemainderRepeats(rest);
    assert Fields(line, ',', 3) == [first] + [rest, rest];
  }

  /** At the first divider of a line, the first field is the text before it and the
      others are cut from the text after it. */
  lemma CutAtDivider(line: string, k: nat, count: nat)
    requires |line| < NPOS && k < |line| && line[k] == ',' && ',' !in line[..k] && count > 0
    ensures Fields(line, ',', count) == [line[..k]] + Fields(line[k + 1..], ',', count - 1)
  {
    assert forall j :: 0 <= j < k ==> line[j] == line[..k][j];
    IndexFromAt(line, ',', 0, k);
    FieldsCut(line, ',', count, k);
  }

  /** With no divider left, both remaining fields are the whole remainder. */
  lemma RemainderRepeats(rest: string)
    requires |rest| < NPOS && ',' !in rest
    ensures Fields(rest, ',', 2) == [rest, rest]
  {
    FieldsWithoutDivider(rest, ',', 2);
  }

  /** A line that starts with the divider has an empty first field. */
  lemma LeadingEmptyField(rest: string)
    requires |rest| < NPOS - 1 && ',' !in rest
    ensures Fields([','] + rest, ',', 2) == ["", rest]
  {
    var line := [','] + rest;
    assert line[..0] == [] && line[1..] == rest;
    TwoFields(line, 0);
  }

  /** A line that ends with the divider has an empty last field. */
  lemma TrailingEmptyField(first: string)
    requires |first| < NPOS - 1 && ',' !in first
    ensures Fields(first + [','], ',', 2) == [first, ""]
  {
    var line := first + [','];
    var k := |first|;
    assert line[..k] == first;
    assert line[k + 1..] == [];
    assert line[k] == ',';
    TwoFields(line, k);
  }

  /** A line with more fields than columns loses the extra ones. */
  lemma ExtraField()
    ensures Fields("1,2,3", ',', 2) == ["1", "2"]
  {
    var s, rest := "1,2,3", "2,3";
    IndexFromAt(s, ',', 0, 1);
    FieldsCut(s, ',', 2, 1);
    assert s[..1] == "1" && s[2..] == rest;
    IndexFromAt(rest, ',', 0, 1);
    FieldsCut(rest, ',', 1, 1);
    assert rest[..1] == "2";
  }

  /** Converting a canonical decimal: the cell passes and holds its value. */
  lemma Accepted(text: string, slot: nat, value: nat)
    requires Canonical(text) && ValueOf(text) == value
    ensures ConvertValue(Unsigned, text, slot) == Converted(value, true)
  {
    UnsignedAccepts(text, slot);
  }

  /** Converting a row of two cells, column 1 first. */
  lemma ConvertTwo(row: seq<nat>, args: seq<string>, line: nat, a: Converted<nat>, b: Converted<nat>)
    requires |row| == |args| == 2
    requires ConvertValue(Unsigned, args[0], row[0]) == a && ConvertValue(Unsigned, args[1], row[1]) == b
    ensures InsertUpTo(Pair, row, args, line, 2) ==
      Filled([a.value, b.value], (if a.accepted then [] else [BadValue(line, 1)]) +
                                 (if b.accepted then [] else [BadValue(line, 2)]))
  {
    var first := InsertUpTo(Pair, row, args, line, 1);
    assert InsertUpTo(Pair, row, args, line, 0) == Filled(row, []);
    assert first.row == row[0 := a.value];
    assert first.errors == [] + if a.accepted then [] else [BadValue(line, 1)];
  }

  /** "007" is read as 7, which writes back as "7": the cell is rejected. */
  lemma LeadingZeros()
    ensures ConvertValue(Unsigned, "007", 0) == Converted(7, false)
  {
    UnsignedAccepts("007", 0);
    assert DigitRun("007", 0) == 3 && "007"[..3] == "007";
    assert "007"[..2] == "00" && "00"[..1] == "0" && "0"[..0] == [];
    assert ValueOf("007") == 7;
  }

  /** The first line, "1,2": both cells pass and nothing is reported. */
  lemma FirstRow()
    ensures StoreRow(Pair, [], "1,2", ',', 0) == Parsed([[1, 2]], [])
  {
    FirstFields();
    FreshRow();
    FirstConverted();
  }

  lemma FirstFields()
    ensures Fields("1,2", ',', 2) == ["1", "2"]
  {
    TwoFields("1,2", 1);
    assert "1,2"[..1] == "1" && "1,2"[2..] == "2";
  }

  lemma FirstConverted()
    ensures InsertUpTo(Pair, [0, 0], ["1", "2"], 1, 2) == Filled([1, 2], [])
  {
    Accepted("1", 0, 1);
    Accepted("2", 0, 2);
    ConvertTwo([0, 0], ["1", "2"], 1, Converted(1, true), Converted(2, true));
  }

  /** The line "007,3": 007 is read as 7 and stored, but writes back as "7", so
      column 1 is reported; column 2 is still converted and the row is stored. */
  lemma RejectedRow()
    ensures StoreRow(Pair, [], "007,3", ',', 0) == Parsed([[7, 3]], [BadValue(1, 1)])
  {
    RejectedFields();
    FreshRow();
    RejectedConverted();
  }

  lemma RejectedFields()
    ensures Fields("007,3", ',', 2) == ["007", "3"]
  {
    TwoFields("007,3", 3);
    assert "007,3"[..3] == "007" && "007,3"[4..] == "3";
  }

  /** A first row is value-initialised. */
  lemma FreshRow()
    ensures Resize([], 1, DefaultRow(Pair)) == [[0, 0]]
  {
    assert DefaultRow(Pair) == [0, 0];
  }

  lemma RejectedConverted()
    ensures InsertUpTo(Pair, [0, 0], ["007", "3"], 1, 2) == Filled([7, 3], [BadValue(1, 1)])
  {
    LeadingZeros();
    Accepted("3", 0, 3);
    ConvertTwo([0, 0], ["007", "3"], 1, Converted(7, false), Converted(3, true));
  }

  /** A header line skipped with skip_count 1: the line after it is line 1 of the
      reports. */
  lemma HeaderSkipped()
    ensures ParsResult(Pair, [], "a,b\n007,3\n", 1, '\n', ',') == Parsed([[7, 3]], [BadValue(1, 1)])
  {
    HeaderLines();
    RejectedRow();
    IngestOne(Pair, [], "007,3", ',');
  }

  lemma HeaderLines()
    ensures Drop(Lines("a,b\n007,3\n", '\n'), 1) == ["007,3"]
  {
    var s := "a,b\n007,3\n";
    GetLineAt(s, 0, '\n', 3);
    GetLineAt(s, 4, '\n', 9);
    assert s[0..3] == "a,b" && s[4..9] == "007,3";
    assert LinesFrom(s, 10, '\n') == [];
    assert LinesFrom(s, 4, '\n') == ["007,3"];
    assert Lines(s, '\n') == ["a,b", "007,3"];
  }

  /** Ingesting a single line is one pass of the loop body, as line 1. */
  lemma IngestOne<V>(schema: Schema<V>, prior: seq<seq<V>>, line: string, columnDiv: char)
    requires AllFit(schema, prior)
    ensures Ingest(schema, prior, [line], columnDiv) == StoreRow(schema, prior, line, columnDiv, 0)
  {
    assert [line][..0] == [];
    var step := StoreRow(schema, prior, line, columnDiv, 0);
    assert [] + step.errors == step.errors;
  }
}
