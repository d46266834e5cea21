/** The eager row engine: CSVParser reads every line of a stream (after skipping
    a number of them), cuts each line into exactly one field per column, converts
    the fields into a new row with ConvertValue and stores the rows in data.

    The stream is its remaining content, a string, read by std::getline at a
    position that Pars advances. std::cerr, where rejected cells are reported, is
    the diagnostics field: Pars appends one report per rejected cell. */
module CsvParser {
  import opened StdText
  import opened Tuples

  function Min(a: nat, b: nat): nat
  {
    if a < b then a else b
  }

  /** The cutting loop of Pars: count times, find the column divider, take the text
      before it as the next field and erase that text and the divider. When no
      divider is left, find gives npos, so the field is the whole remainder and
      erase(0, npos + 1) erases nothing, the size_t sum having wrapped to 0. */
  function Fields(line: string, columnDiv: char, count: nat): (r: seq<string>)
    ensures |r| == count
    decreases count
  {
    if count == 0 then []
    else
      var pos := Find(line, columnDiv);
      [Substr(line, pos)] + Fields(Erase(line, SizeSucc(pos)), columnDiv, count - 1)
  }

  /** One step of the cutting loop on a line that holds the divider, first at k:
      the field is the text before it and the rest follows it. */
  lemma FieldsCut(line: string, columnDiv: char, count: nat, k: nat)
    requires |line| < NPOS && count > 0 && k == Index(line, columnDiv) && k < |line|
    ensures Fields(line, columnDiv, count) == [line[..k]] + Fields(line[k + 1..], columnDiv, count - 1)
  {
    var pos := Find(line, columnDiv);
    assert pos == k && SizeSucc(pos) == k + 1;
    assert Substr(line, pos) == line[..k] && Erase(line, k + 1) == line[k + 1..];
  }

  /** One step of the cutting loop on a line without the divider: find gives npos,
      so the field is the whole line and erase(0, npos + 1) leaves it as it is. */
  lemma FieldsWhole(line: string, columnDiv: char, count: nat)
    requires |line| < NPOS && count > 0 && Index(line, columnDiv) == |line|
    ensures Fields(line, columnDiv, count) == [line] + Fields(line, columnDiv, count - 1)
  {
    assert Find(line, columnDiv) == NPOS && SizeSucc(NPOS) == 0;
    assert Substr(line, NPOS) == line && Erase(line, 0) == line;
  }

  /** The first count parts, the last part repeated once the parts run out:
      a reference for what the cutting loop yields. */
  function Padded<T>(parts: seq<T>, count: nat): (r: seq<T>)
    requires |parts| >= 1
    ensures |r| == count
    decreases count
  {
    if count == 0 then []
    else [parts[0]] + Padded(if |parts| > 1 then parts[1..] else parts, count - 1)
  }

  /** Element i of Padded is part i while there is one, and the last part after. */
  lemma {:induction false} PaddedAt<T>(parts: seq<T>, count: nat, i: nat)
    requires |parts| >= 1 && i < count
    ensures Padded(parts, count)[i] == parts[Min(i, |parts| - 1)]
    decreases count
  {
    if i > 0 {
      var tail := if |parts| > 1 then parts[1..] else parts;
      PaddedAt(tail, count - 1, i - 1);
      assert Padded(parts, count)[i] == Padded(tail, count - 1)[i - 1];
    }
  }

  /** The fields are the divider-separated segments of the line, the first count
      of them; once the dividers run out every later field repeats the last
      segment (missing fields are not empty), and segments past the arity are
      dropped. A std::string is shorter than npos. */
  lemma {:induction false} FieldsAreSegments(line: string, columnDiv: char, count: nat)
    requires |line| < NPOS
    ensures Fields(line, columnDiv, count) == Padded(Segments(line, columnDiv), count)
    decreases count
  {
    if count > 0 {
      var k := Index(line, columnDiv);
      if k < |line| {
        FieldsAreSegments(line[k + 1..], columnDiv, count - 1);
        FieldsAreSegmentsCut(line, columnDiv, count, k);
      } else {
        FieldsAreSegments(line, columnDiv, count - 1);
        FieldsAreSegmentsWhole(line, columnDiv, count);
      }
    }
  }

  /** The step of FieldsAreSegments on a line whose first divider is at k. */
  lemma FieldsAreSegmentsCut(line: string, columnDiv: char, count: nat, k: nat)
    requires |line| < NPOS && count > 0 && k == Index(line, columnDiv) && k < |line|
    requires Fields(line[k + 1..], columnDiv, count - 1) == Padded(Segments(line[k + 1..], columnDiv), count - 1)
    ensures Fields(line, columnDiv, count) == Padded(Segments(line, columnDiv), count)
  {
    var head, rest := line[..k], line[k + 1..];
    FieldsCut(line, columnDiv, count, k);
    SegmentsCut(line, columnDiv, k);
    PaddedStep(Fields(line, columnDiv, count), Fields(rest, columnDiv, count - 1),
               Segments(line, columnDiv), Segments(rest, columnDiv), head, count);
  }

  /** The step of FieldsAreSegments on a line without the divider. */
  lemma FieldsAreSegmentsWhole(line: string, columnDiv: char, count: nat)
    requires |line| < NPOS && count > 0 && Index(line, columnDiv) == |line|
    requires Fields(line, columnDiv, count - 1) == Padded(Segments(line, columnDiv), count - 1)
    ensures Fields(line, columnDiv, count) == Padded(Segments(line, columnDiv), count)
  {
    FieldsWhole(line, columnDiv, count);
    SegmentsStep(line, columnDiv);
    assert Padded([line], count) == [line] + Padded([line], count - 1);
  }

  /** If xs is head before ys, ys pads parts and whole is head before parts, then
      xs pads whole. */
  lemma PaddedStep<T>(xs: seq<T>, ys: seq<T>, whole: seq<T>, parts: seq<T>, head: T, count: nat)
    requires |parts| >= 1 && count > 0
    requires xs == [head] + ys && ys == Padded(parts, count - 1) && whole == [head] + parts
    ensures xs == Padded(whole, count)
  {
    PaddedCons(head, parts, count);
  }

  /** Padded, unfolded once on a list of at least two parts. */
  lemma PaddedCons<T>(head: T, parts: seq<T>, count: nat)
    requires |parts| >= 1 && count > 0
    ensures Padded([head] + parts, count) == [head] + Padded(parts, count - 1)
  {
    assert ([head] + parts)[1..] == parts;
  }

  /** Field i is the i-th divider-separated segment of the line while there are
      enough of them, and the last segment after that. */
  lemma FieldsFollowSegments(line: string, columnDiv: char, count: nat)
    requires |line| < NPOS
    ensures forall i :: 0 <= i < count ==>
      Fields(line, columnDiv, count)[i] == Segments(line, columnDiv)[Min(i, |Segments(line, columnDiv)| - 1)]
  {
    FieldsAreSegments(line, columnDiv, count);
    forall i | 0 <= i < count
      ensures Padded(Segments(line, columnDiv), count)[i] == Segments(line, columnDiv)[Min(i, |Segments(line, columnDiv)| - 1)]
    {
      PaddedAt(Segments(line, columnDiv), count, i);
    }
  }

  /** A line without the column divider gives that whole line as every field. */
  lemma FieldsWithoutDivider(line: string, columnDiv: char, count: nat)
    requires |line| < NPOS && columnDiv !in line
    ensures forall i :: 0 <= i < count ==> Fields(line, columnDiv, count)[i] == line
  {
    FieldsFollowSegments(line, columnDiv, count);
  }

  /** std::vector::resize(n): keeps the first n elements and value-initialises the new ones. */
  function Resize<T>(xs: seq<T>, n: nat, fill: T): (r: seq<T>)
    ensures |r| == n
    ensures forall i :: 0 <= i < n && i < |xs| ==> r[i] == xs[i]
    ensures forall i :: |xs| <= i < n ==> r[i] == fill
  {
    if n <= |xs| then xs[..n] else xs + seq(n - |xs|, _ => fill)
  }

  /** Every stored row has one slot per column. */
  predicate AllFit<V>(schema: Schema<V>, data: seq<seq<V>>)
  {
    forall i :: 0 <= i < |data| ==> |data[i]| == |schema|
  }

  /** The stored rows and the reports that parsing produced. */
  datatype Parsed<V> = Parsed(data: seq<seq<V>>, errors: seq<BadValue>)

  /** One pass of the while loop of Pars, for the line with 0-based count n:
      resize data to n + 1 rows, cut the line into fields and convert them into
      row n as line number n + 1. The reports are those of that row alone. */
  function StoreRow<V>(schema: Schema<V>, data: seq<seq<V>>, line: string, columnDiv: char, n: nat): (r: Parsed<V>)
    requires AllFit(schema, data)
    ensures AllFit(schema, r.data) && |r.data| == n + 1
  {
    var resized := Resize(data, n + 1, DefaultRow(schema));
    var filled := InsertUpTo(schema, resized[n], Fields(line, columnDiv, |schema|), n + 1, |schema|);
    Parsed(resized[n := filled.row], filled.errors)
  }

  /** The while loop of Pars over the given lines, starting from the rows in prior. */
  function Ingest<V>(schema: Schema<V>, prior: seq<seq<V>>, lines: seq<string>, columnDiv: char): (r: Parsed<V>)
    requires AllFit(schema, prior)
    ensures AllFit(schema, r.data)
    ensures |r.data| == if lines == [] then |prior| else |lines|
    decreases |lines|
  {
    if lines == [] then Parsed(prior, [])
    else
      var count := |lines| - 1;
      var before := Ingest(schema, prior, lines[..count], columnDiv);
      var step := StoreRow(schema, before.data, lines[count], columnDiv, count);
      Parsed(step.data, before.errors + step.errors)
  }

  /** Pars(input, skipCount) on a parser holding the rows prior: the lines of input
      left after the first skipCount, ingested. */
  function ParsResult<V>(schema: Schema<V>, prior: seq<seq<V>>, input: string, skipCount: nat,
                         rowDiv: char, columnDiv: char): Parsed<V>
    requires AllFit(schema, prior)
  {
    Ingest(schema, prior, Drop(Lines(input, rowDiv), skipCount), columnDiv)
  }

  /** Ingest over one more line is Ingest over the earlier lines followed by one
      more pass of the loop body, for the new line. */
  lemma IngestSnoc<V>(schema: Schema<V>, prior: seq<seq<V>>, lines: seq<string>, line: string, columnDiv: char)
    requires AllFit(schema, prior)
    ensures
      var before := Ingest(schema, prior, lines, columnDiv);
      var step := StoreRow(schema, before.data, line, columnDiv, |lines|);
      Ingest(schema, prior, lines + [line], columnDiv) == Parsed(step.data, before.errors + step.errors)
  {
    assert (lines + [line])[..|lines|] == lines;
  }

  /** AppendEmpty, AppendEmptyRight and AppendAssoc restate facts Dafny already
      knows about sequences. They model nothing: a proof calls them instead of
      asserting the fact in a large context, where the assertion is costly. */
  lemma AppendEmpty<T>(xs: seq<T>)
    ensures [] + xs == xs
  {
  }

  lemma AppendEmptyRight<T>(xs: seq<T>)
    ensures xs + [] == xs
  {
  }

  lemma AppendAssoc<T>(a: seq<T>, b: seq<T>, c: seq<T>)
    ensures a + (b + c) == (a + b) + c
  {
  }

  /** The while loop of Pars from read position at, as the loop runs it: the
      rows data so far, n lines stored, and the reports still to come. It is a
      third form of the loop, beside Ingest and ReadRows, and exists only to state
      the loop invariant of ReadRows; ReadFromIsIngest ties it to Ingest. */
  function ReadFrom<V>(schema: Schema<V>, data: seq<seq<V>>, input: string, at: nat,
                       rowDiv: char, columnDiv: char, n: nat): (r: Parsed<V>)
    requires AllFit(schema, data) && at <= |input|
    ensures AllFit(schema, r.data)
    decreases |input| - at
  {
    match GetLine(input, at, rowDiv)
    case None => Parsed(data, [])
    case Some(got) =>
      var step := StoreRow(schema, data, got.line, columnDiv, n);
      var later := ReadFrom(schema, step.data, input, got.next, rowDiv, columnDiv, n + 1);
      Parsed(later.data, step.errors + later.errors)
  }

  /** ReadFrom, unfolded once on a line that std::getline delivers. */
  lemma ReadFromStep<V>(schema: Schema<V>, data: seq<seq<V>>, input: string, at: nat,
                        rowDiv: char, columnDiv: char, n: nat)
    requires AllFit(schema, data) && at <= |input| && GetLine(input, at, rowDiv).Some?
    ensures
      var got := GetLine(input, at, rowDiv).value;
      var step := StoreRow(schema, data, got.line, columnDiv, n);
      var later := ReadFrom(schema, step.data, input, got.next, rowDiv, columnDiv, n + 1);
      ReadFrom(schema, data, input, at, rowDiv, columnDiv, n) == Parsed(later.data, step.errors + later.errors)
  {
  }

  /** ReadFrom once std::getline fails: the rows stay and nothing more is reported. */
  lemma ReadFromEnd<V>(schema: Schema<V>, data: seq<seq<V>>, input: string, at: nat,
                       rowDiv: char, columnDiv: char, n: nat)
    requires AllFit(schema, data) && at <= |input| && GetLine(input, at, rowDiv).None?
    ensures ReadFrom(schema, data, input, at, rowDiv, columnDiv, n) == Parsed(data, [])
  {
  }

  /** Running the loop from position at, after the lines done have been stored,
      gives what Ingest gives on done followed by every line left. */
  lemma {:induction false} ReadFromIngest<V>(schema: Schema<V>, prior: seq<seq<V>>, done: seq<string>,
                                             input: string, at: nat, rowDiv: char, columnDiv: char)
    requires AllFit(schema, prior) && at <= |input|
    ensures
      var before := Ingest(schema, prior, done, columnDiv);
      var rest := ReadFrom(schema, before.data, input, at, rowDiv, columnDiv, |done|);
      Ingest(schema, prior, done + LinesFrom(input, at, rowDiv), columnDiv) == Parsed(rest.data, before.errors + rest.errors)
    decreases |input| - at
  {
    var before := Ingest(schema, prior, done, columnDiv);
    var got := GetLine(input, at, rowDiv);
    if got.None? {
      assert LinesFrom(input, at, rowDiv) == [];
      assert done + [] == done;
    } else {
      var line, next := got.value.line, got.value.next;
      var step := StoreRow(schema, before.data, line, columnDiv, |done|);
      var later := ReadFrom(schema, step.data, input, next, rowDiv, columnDiv, |done| + 1);
      assert ReadFrom(schema, before.data, input, at, rowDiv, columnDiv, |done|) ==
        Parsed(later.data, step.errors + later.errors);
      IngestSnoc(schema, prior, done, line, columnDiv);
      assert Ingest(schema, prior, done + [line], columnDiv) == Parsed(step.data, before.errors + step.errors);
      ReadFromIngest(schema, prior, done + [line], input, next, rowDiv, columnDiv);
      assert |done + [line]| == |done| + 1;
      assert LinesFrom(input, at, rowDiv) == [line] + LinesFrom(input, next, rowDiv);
      AppendAssoc(done, [line], LinesFrom(input, next, rowDiv));
      AppendAssoc(before.errors, step.errors, later.errors);
    }
  }

  /** From the start of the loop, ReadFrom is Ingest over the lines left. */
  lemma ReadFromIsIngest<V>(schema: Schema<V>, prior: seq<seq<V>>, input: string, at: nat, rowDiv: char, columnDiv: char)
    requires AllFit(schema, prior) && at <= |input|
    ensures Ingest(schema, prior, LinesFrom(input, at, rowDiv), columnDiv) == ReadFrom(schema, prior, input, at, rowDiv, columnDiv, 0)
  {
    ReadFromIngest(schema, prior, [], input, at, rowDiv, columnDiv);
    AppendEmpty(LinesFrom(input, at, rowDiv));
    AppendEmpty(ReadFrom(schema, prior, input, at, rowDiv, columnDiv, 0).errors);
  }

  /** The skipping loop of Pars: skipCount calls of std::getline from the start of
      the stream, whose lines are dropped; a call on an exhausted stream reads
      nothing. The position reached is where the lines after the first skipCount
      begin. */
  method SkipLines(input: string, rowDiv: char, skipCount: nat) returns (pos: nat)
    ensures pos <= |input|
    ensures LinesFrom(input, pos, rowDiv) == Drop(Lines(input, rowDiv), skipCount)
  {
    pos := 0;
    for i := 0 to skipCount
      invariant pos <= |input|
      invariant LinesFrom(input, pos, rowDiv) == Drop(Lines(input, rowDiv), i)
    {
      var skipped := GetLine(input, pos, rowDiv);
      if skipped.Some? {
        pos := skipped.value.next;
      }
      assert Drop(Lines(input, rowDiv), i + 1) == Drop(Drop(Lines(input, rowDiv), i), 1);
    }
  }

  /** The row that line k is converted into before conversion: resize(1) keeps an
      earlier first row, and every other row is value-initialised. */
  function StartRow<V>(schema: Schema<V>, prior: seq<seq<V>>, k: nat): seq<V>
  {
    if k == 0 && |prior| > 0 then prior[0] else DefaultRow(schema)
  }

  /** With no line, the rows are left as they were and nothing is reported.
      Otherwise there is one row per line, in input order: row k is what
      converting the fields of line k, as line number k + 1, makes of its
      starting row. From an empty parser every starting row is value-initialised. */
  lemma IngestRows<V>(schema: Schema<V>, prior: seq<seq<V>>, lines: seq<string>, columnDiv: char)
    requires AllFit(schema, prior)
    ensures lines == [] ==> Ingest(schema, prior, lines, columnDiv) == Parsed(prior, [])
    ensures forall k :: 0 <= k < |lines| ==>
      |StartRow(schema, prior, k)| == |schema| &&
      Ingest(schema, prior, lines, columnDiv).data[k] ==
        InsertUpTo(schema, StartRow(schema, prior, k), Fields(lines[k], columnDiv, |schema|), k + 1, |schema|).row
  {
    forall k | 0 <= k < |lines|
      ensures |StartRow(schema, prior, k)| == |schema|
      ensures Ingest(schema, prior, lines, columnDiv).data[k] ==
        InsertUpTo(schema, StartRow(schema, prior, k), Fields(lines[k], columnDiv, |schema|), k + 1, |schema|).row
    {
      StartRowFits(schema, prior, k);
      IngestRow(schema, prior, lines, columnDiv, k);
    }
  }

  /** Row k of IngestRows, by induction on the number of lines. */
  lemma {:induction false} IngestRow<V>(schema: Schema<V>, prior: seq<seq<V>>, lines: seq<string>, columnDiv: char, k: nat)
    requires AllFit(schema, prior) && k < |lines|
    ensures Ingest(schema, prior, lines, columnDiv).data[k] ==
      InsertUpTo(schema, StartRow(schema, prior, k), Fields(lines[k], columnDiv, |schema|), k + 1, |schema|).row
    decreases |lines|
  {
    var count := |lines| - 1;
    if k == count {
      IngestLast(schema, prior, lines, columnDiv);
    } else {
      var front := lines[..count];
      IngestRow(schema, prior, front, columnDiv, k);
      IngestKeeps(schema, prior, lines, columnDiv, k);
      assert front[k] == lines[k];
    }
  }

  /** A starting row has one slot per column. */
  lemma StartRowFits<V>(schema: Schema<V>, prior: seq<seq<V>>, k: nat)
    requires AllFit(schema, prior)
    ensures |StartRow(schema, prior, k)| == |schema|
  {
  }

  /** The last line of a non-empty run is converted from its starting row into the
      last row. */
  lemma IngestLast<V>(schema: Schema<V>, prior: seq<seq<V>>, lines: seq<string>, columnDiv: char)
    requires AllFit(schema, prior) && lines != []
    ensures
      var count := |lines| - 1;
      Ingest(schema, prior, lines, columnDiv).data[count] ==
        InsertUpTo(schema, StartRow(schema, prior, count), Fields(lines[count], columnDiv, |schema|), count + 1, |schema|).row
  {
    var count := |lines| - 1;
    var before := Ingest(schema, prior, lines[..count], columnDiv);
    var data := Resize(before.data, count + 1, DefaultRow(schema));
    if count == 0 {
      assert before.data == prior;
    }
    assert data[count] == StartRow(schema, prior, count);
  }

  /** Storing the last line of a run leaves the rows of the earlier lines as they were. */
  lemma IngestKeeps<V>(schema: Schema<V>, prior: seq<seq<V>>, lines: seq<string>, columnDiv: char, k: nat)
    requires AllFit(schema, prior) && k < |lines| - 1
    ensures Ingest(schema, prior, lines, columnDiv).data[k] == Ingest(schema, prior, lines[..|lines| - 1], columnDiv).data[k]
  {
  }

  /** A skip count that reaches the number of lines leaves no line to store: the
      rows stay as they were (none, from an empty parser) and nothing is reported. */
  lemma SkipEverything<V>(schema: Schema<V>, prior: seq<seq<V>>, input: string, skipCount: nat,
                          rowDiv: char, columnDiv: char)
    requires AllFit(schema, prior) && skipCount >= |Lines(input, rowDiv)|
    ensures ParsResult(schema, prior, input, skipCount, rowDiv, columnDiv) == Parsed(prior, [])
  {
    assert Drop(Lines(input, rowDiv), skipCount) == [];
  }

  /** Pars on an empty parser: one row per line left after the skipped ones, in
      input order, row k being the value-initialised row converted from the fields
      of that line as line number k + 1. */
  lemma ParsFromEmpty<V>(schema: Schema<V>, input: string, skipCount: nat, rowDiv: char, columnDiv: char)
    ensures
      var lines := Drop(Lines(input, rowDiv), skipCount);
      var r := ParsResult(schema, [], input, skipCount, rowDiv, columnDiv);
      && |r.data| == |lines|
      && forall k :: 0 <= k < |lines| ==>
           r.data[k] == InsertUpTo(schema, DefaultRow(schema), Fields(lines[k], columnDiv, |schema|), k + 1, |schema|).row
  {
    var lines := Drop(Lines(input, rowDiv), skipCount);
    IngestRows(schema, [], lines, columnDiv);
    forall k | 0 <= k < |lines| ensures StartRow(schema, [], k) == DefaultRow(schema) {
    }
  }

  /** A report for a cell of the stored rows: the cell's stored value does not write
      back as the field text it was read from. */
  predicate Rejected<V>(schema: Schema<V>, data: seq<seq<V>>, lines: seq<string>, columnDiv: char, e: BadValue)
  {
    && 1 <= e.line <= |lines| && e.line <= |data|
    && 1 <= e.column <= |schema| && e.column <= |data[e.line - 1]|
    && schema[e.column - 1].format(data[e.line - 1][e.column - 1])
       != Fields(lines[e.line - 1], columnDiv, |schema|)[e.column - 1]
  }

  /** Report a comes before report b: an earlier line, or the same line and an earlier column. */
  predicate Earlier(a: BadValue, b: BadValue)
  {
    a.line < b.line || (a.line == b.line && a.column < b.column)
  }

  predicate InOrder(errors: seq<BadValue>)
  {
    forall i, j :: 0 <= i < j < |errors| ==> Earlier(errors[i], errors[j])
  }

  /** A cell is reported exactly when its stored value does not write back as its
      field text, once per such cell, and the reports come line by line and,
      within a line, in ascending column order. A rejected cell stops neither
      its row nor the parse. */
  lemma {:induction false} IngestErrors<V>(schema: Schema<V>, prior: seq<seq<V>>, lines: seq<string>, columnDiv: char)
    requires AllFit(schema, prior)
    ensures forall e :: e in Ingest(schema, prior, lines, columnDiv).errors <==>
      Rejected(schema, Ingest(schema, prior, lines, columnDiv).data, lines, columnDiv, e)
    ensures InOrder(Ingest(schema, prior, lines, columnDiv).errors)
    decreases |lines|
  {
    if lines != [] {
      var count := |lines| - 1;
      var front := lines[..count];
      IngestErrors(schema, prior, front, columnDiv);
      var before := Ingest(schema, prior, front, columnDiv);
      var data := Resize(before.data, count + 1, DefaultRow(schema));
      var args := Fields(lines[count], columnDiv, |schema|);
      InsertReports(schema, data[count], args, count + 1, |schema|);
      InsertOrder(schema, data[count], args, count + 1, |schema|);
      var filled := InsertUpTo(schema, data[count], args, count + 1, |schema|);
      var r := Ingest(schema, prior, lines, columnDiv);
      assert r.data == data[count := filled.row];
      assert r.errors == before.errors + filled.errors;
      forall e
        ensures e in r.errors <==> Rejected(schema, r.data, lines, columnDiv, e)
      {
        if 1 <= e.line <= count {
          assert r.data[e.line - 1] == before.data[e.line - 1];
          assert lines[e.line - 1] == front[e.line - 1];
          assert e !in filled.errors;
          assert Rejected(schema, r.data, lines, columnDiv, e) == Rejected(schema, before.data, front, columnDiv, e);
        } else if e.line == count + 1 {
          assert e !in before.errors;
        } else {
          assert e !in before.errors && e !in filled.errors;
        }
      }
      forall i, j | 0 <= i < j < |r.errors| ensures Earlier(r.errors[i], r.errors[j]) {
        if j < |before.errors| {
          assert r.errors[i] == before.errors[i] && r.errors[j] == before.errors[j];
        } else if i < |before.errors| {
          assert r.errors[i] == before.errors[i] && r.errors[i] in before.errors;
          assert r.errors[j] == filled.errors[j - |before.errors|] && r.errors[j] in filled.errors;
        } else {
          assert r.errors[i] == filled.errors[i - |before.errors|] && r.errors[i] in filled.errors;
          assert r.errors[j] == filled.errors[j - |before.errors|];
          assert AscendingColumns(filled.errors);
        }
      }
    }
  }

  /** The cutting loop of Pars, on its own: a fresh array of count fields. */
  method CutFields(line: string, columnDiv: char, count: nat) returns (args: array<string>)
    ensures fresh(args) && args[..] == Fields(line, columnDiv, count)
  {
    args := new string[count];
    var rest := line;
    for i := 0 to count
      invariant args[..i] + Fields(rest, columnDiv, count - i) == Fields(line, columnDiv, count)
    {
      ghost var done := args[..i];
      var pos := Find(rest, columnDiv);
      var arg := Substr(rest, pos);
      args[i] := arg;
      rest := Erase(rest, SizeSucc(pos));
      assert args[..i + 1] == done + [arg];
      AppendAssoc(done, [arg], Fields(rest, columnDiv, count - i - 1));
    }
  }

  class CSVParser<V> {
    /** The column types Types..., fixed when the parser is made. */
    const schema: Schema<V>
    var data: seq<seq<V>>
    var rowDiv: char
    var columnDiv: char
    /** What Pars has written to std::cerr. */
    var diagnostics: seq<BadValue>

    ghost predicate Valid()
      reads this
    {
      AllFit(schema, data)
    }

    /** CSVParser(): no rows, the default dividers. */
    constructor (schema: Schema<V>)
      ensures Valid() && this.schema == schema && data == []
      ensures rowDiv == '\n' && columnDiv == ',' && diagnostics == []
    {
      this.schema := schema;
      data := [];
      rowDiv := '\n';
      columnDiv := ',';
      diagnostics := [];
    }

    /** CSVParser(input) and CSVParser(input, skip_count): no rows, then Pars with the
        default dividers (skipCount 0 for the one-argument form). */
    constructor FromStream(schema: Schema<V>, input: string, skipCount: nat)
      ensures Valid() && this.schema == schema && rowDiv == '\n' && columnDiv == ','
      ensures data == ParsResult(schema, [], input, skipCount, '\n', ',').data
      ensures diagnostics == ParsResult(schema, [], input, skipCount, '\n', ',').errors
    {
      this.schema := schema;
      data := [];
      rowDiv := '\n';
      columnDiv := ',';
      diagnostics := [];
      new;
      Pars(input, skipCount);
    }

    /** Pars: skipCount getline calls whose lines are dropped, then one stored row per
        further line. Rows already held are overwritten from the first on; when no
        line is left, they all stay. */
    method Pars(input: string, skipCount: nat)
      requires Valid()
      modifies this`data, this`diagnostics
      ensures Valid()
      ensures data == ParsResult(schema, old(data), input, skipCount, rowDiv, columnDiv).data
      ensures diagnostics == old(diagnostics) + ParsResult(schema, old(data), input, skipCount, rowDiv, columnDiv).errors
    {
      var pos := SkipLines(input, rowDiv, skipCount);
      ReadRows(input, pos);
    }

    /** The while loop of Pars: std::getline from pos until it fails, each line
        stored as the next row, counted from 0. */
    method ReadRows(input: string, pos: nat)
      requires Valid() && pos <= |input|
      modifies this`data, this`diagnostics
      ensures Valid()
      ensures data == Ingest(schema, old(data), LinesFrom(input, pos, rowDiv), columnDiv).data
      ensures diagnostics == old(diagnostics) + Ingest(schema, old(data), LinesFrom(input, pos, rowDiv), columnDiv).errors
    {
      ghost var final := ReadFrom(schema, data, input, pos, rowDiv, columnDiv, 0);
      ghost var reported := diagnostics;
      ReadFromIsIngest(schema, data, input, pos, rowDiv, columnDiv);
      AppendEmpty(final.errors);
      var at := pos;
      var lineCount := 0;
      ghost var rest := final;
      var next := GetLine(input, at, rowDiv);
      while next.Some?
        invariant at <= |input| && next == GetLine(input, at, rowDiv)
        invariant Valid()
        invariant rest == ReadFrom(schema, data, input, at, rowDiv, columnDiv, lineCount)
        invariant rest.data == final.data && diagnostics + rest.errors == reported + final.errors
        decreases |input| - at
      {
        var line := next.value.line;
        ReadFromStep(schema, data, input, at, rowDiv, columnDiv, lineCount);
        ghost var step := StoreRow(schema, data, line, columnDiv, lineCount);
        ghost var before := diagnostics;
        at := next.value.next;
        StoreLine(line, lineCount);
        lineCount := lineCount + 1;
        rest := ReadFrom(schema, data, input, at, rowDiv, columnDiv, lineCount);
        AppendAssoc(before, step.errors, rest.errors);
        next := GetLine(input, at, rowDiv);
      }
      ReadFromEnd(schema, data, input, at, rowDiv, columnDiv, lineCount);
      AppendEmptyRight(diagnostics);
    }

    /** The body of the while loop of Pars for one line, numbered lineCount from 0:
        data.resize(lineCount + 1), the fields cut into a new array, and
        InsertForEach converting them into data[lineCount] in place, its reports
        written out. */
    method StoreLine(line: string, lineCount: nat)
      requires Valid()
      modifies this`data, this`diagnostics
      ensures Valid()
      ensures data == StoreRow(schema, old(data), line, columnDiv, lineCount).data
      ensures diagnostics == old(diagnostics) + StoreRow(schema, old(data), line, columnDiv, lineCount).errors
    {
      data := Resize(data, lineCount + 1, DefaultRow(schema));
      var args := CutFields(line, columnDiv, |schema|);
      var filled := InsertForEach(schema, data[lineCount], lineCount + 1, args);
      data := data[lineCount := filled.row];
      diagnostics := diagnostics + filled.errors;
    }

    /** SetDividers: the two dividers, and nothing else. */
    method SetDividers(rowDivider: char, columnDivider: char)
      modifies this`rowDiv, this`columnDiv
      ensures rowDiv == rowDivider && columnDiv == columnDivider
    {
      rowDiv := rowDivider;
      columnDiv := columnDivider;
    }

    /** GetRow: the stored row at index (the C++ code does not check the bound). */
    method GetRow(index: nat) returns (row: seq<V>)
      requires Valid() && index < |data|
      ensures row == data[index] && |row| == |schema|
    {
      row := data[index];
    }
  }
}
