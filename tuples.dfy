/** The helpers that walk a row tuple column by column: ConvertValue and
    InsertForEach (iterate_tuple_insert), which fill a row from its field texts
    with a round-trip check per cell, and PrintValue and PrintForEach
    (iterate_tuple_print), which render a row as text.

    A row of the C++ type std::tuple<Types...> is a seq<V> with one slot per
    column; each column type contributes a Column: how a std::istringstream
    reads text into a slot of that type (it may look at what the slot held
    before), how a std::ostringstream writes the slot, and the value a slot
    holds when first created. */
module Tuples {
  import opened StdText

  datatype Column<!V> = Column(parse: (string, V) -> V, format: V -> string, zero: V)

  /** The column types, in tuple order; their number is the row arity. */
  type Schema<!V> = seq<Column<V>>

  /** The report "Bad value at (line,column)!" for one cell; column is 1-based. */
  datatype BadValue = BadValue(line: nat, column: nat)

  /** One converted cell: what was stored in the slot and whether it passed the check. */
  datatype Converted<V> = Converted(value: V, accepted: bool)

  /** A row after conversion, with the reports it produced in the order they were made. */
  datatype Filled<V> = Filled(row: seq<V>, errors: seq<BadValue>)

  /** ConvertValue: read the text into the slot, then write the slot back out; the
      cell is rejected (the C++ code throws) when the two texts differ. The slot
      keeps the value that was read either way. */
  function ConvertValue<V>(column: Column<V>, text: string, slot: V): Converted<V>
  {
    var value := column.parse(text, slot);
    Converted(value, column.format(value) == text)
  }

  /** A value-initialised row (what std::vector::resize appends). */
  function DefaultRow<V>(schema: Schema<V>): (r: seq<V>)
    ensures |r| == |schema|
  {
    seq(|schema|, i requires 0 <= i < |schema| => schema[i].zero)
  }

  /** iterate_tuple_insert<count - 1>::next: converts the columns below count,
      the lower index first, catching each rejection and reporting it as
      (line, index + 1) before going on with the next column. */
  function InsertUpTo<V>(schema: Schema<V>, row: seq<V>, args: seq<string>, line: nat, count: nat): (r: Filled<V>)
    requires |row| == |schema| == |args| && count <= |schema|
    ensures |r.row| == |schema|
    decreases count
  {
    if count == 0 then Filled(row, [])
    else
      var done := InsertUpTo(schema, row, args, line, count - 1);
      var index := count - 1;
      var cell := ConvertValue(schema[index], args[index], done.row[index]);
      Filled(done.row[index := cell.value],
             done.errors + if cell.accepted then [] else [BadValue(line, index + 1)])
  }

  /** The reports name strictly ascending columns. */
  predicate AscendingColumns(errors: seq<BadValue>)
  {
    forall i, j :: 0 <= i < j < |errors| ==> errors[i].column < errors[j].column
  }

  /** The slots after converting the first count columns: slot i holds what the
      column's parse made of field i and the slot's earlier value, and the later
      slots are untouched. */
  lemma {:induction false} InsertSlots<V>(schema: Schema<V>, row: seq<V>, args: seq<string>, line: nat, count: nat)
    requires |row| == |schema| == |args| && count <= |schema|
    ensures forall i :: 0 <= i < count ==>
      InsertUpTo(schema, row, args, line, count).row[i] == schema[i].parse(args[i], row[i])
    ensures forall i :: count <= i < |schema| ==> InsertUpTo(schema, row, args, line, count).row[i] == row[i]
    decreases count
  {
    if count > 0 {
      InsertSlots(schema, row, args, line, count - 1);
      var done := InsertUpTo(schema, row, args, line, count - 1);
      var index := count - 1;
      assert InsertUpTo(schema, row, args, line, count).row ==
        done.row[index := schema[index].parse(args[index], done.row[index])];
    }
  }

  /** The reports after converting the first count columns: a report (line, c)
      exists exactly for each converted column c whose stored value does not
      write back as its field. */
  lemma {:induction false} InsertReports<V>(schema: Schema<V>, row: seq<V>, args: seq<string>, line: nat, count: nat)
    requires |row| == |schema| == |args| && count <= |schema|
    ensures forall e :: e in InsertUpTo(schema, row, args, line, count).errors <==>
      e.line == line && 1 <= e.column <= count &&
      schema[e.column - 1].format(InsertUpTo(schema, row, args, line, count).row[e.column - 1]) != args[e.column - 1]
    decreases count
  {
    if count > 0 {
      InsertReports(schema, row, args, line, count - 1);
      var done := InsertUpTo(schema, row, args, line, count - 1);
      var r := InsertUpTo(schema, row, args, line, count);
      var index := count - 1;
      var cell := ConvertValue(schema[index], args[index], done.row[index]);
      assert r.row == done.row[index := cell.value];
      assert r.errors == done.errors + if cell.accepted then [] else [BadValue(line, count)];
      forall e
        ensures e in r.errors <==>
          e.line == line && 1 <= e.column <= count && schema[e.column - 1].format(r.row[e.column - 1]) != args[e.column - 1]
      {
        if 1 <= e.column <= index {
          assert r.row[e.column - 1] == done.row[e.column - 1];
        }
      }
    }
  }

  /** The reports after converting the first count columns name columns 1 to
      count, in strictly ascending order: lower columns are converted first. */
  lemma {:induction false} InsertOrder<V>(schema: Schema<V>, row: seq<V>, args: seq<string>, line: nat, count: nat)
    requires |row| == |schema| == |args| && count <= |schema|
    ensures forall k :: 0 <= k < |InsertUpTo(schema, row, args, line, count).errors| ==>
      1 <= InsertUpTo(schema, row, args, line, count).errors[k].column <= count
    ensures AscendingColumns(InsertUpTo(schema, row, args, line, count).errors)
    decreases count
  {
    if count > 0 {
      InsertOrder(schema, row, args, line, count - 1);
      var done := InsertUpTo(schema, row, args, line, count - 1);
      var r := InsertUpTo(schema, row, args, line, count);
      var index := count - 1;
      var cell := ConvertValue(schema[index], args[index], done.row[index]);
      var added := if cell.accepted then [] else [BadValue(line, count)];
      assert r.errors == done.errors + added;
      forall k | 0 <= k < |r.errors| ensures 1 <= r.errors[k].column <= count {
        if k < |done.errors| {
          assert r.errors[k] == done.errors[k];
        }
      }
      forall i, j | 0 <= i < j < |r.errors| ensures r.errors[i].column < r.errors[j].column {
        assert r.errors[i] == done.errors[i];
        if j < |done.errors| {
          assert r.errors[j] == done.errors[j];
        }
      }
    }
  }

  /** InsertForEach: converts every column of the row, index 0 first. */
  method InsertForEach<V>(schema: Schema<V>, row: seq<V>, line: nat, args: array<string>) returns (r: Filled<V>)
    requires |row| == |schema| == args.Length
    ensures r == InsertUpTo(schema, row, args[..], line, |schema|)
  {
    var slots, errors := row, [];
    var index := 0;
    while index < |schema|
      invariant index <= |schema|
      invariant Filled(slots, errors) == InsertUpTo(schema, row, args[..], line, index)
    {
      var cell := ConvertValue(schema[index], args[index], slots[index]);
      slots := slots[index := cell.value];
      if !cell.accepted {
        errors := errors + [BadValue(line, index + 1)];
      }
      index := index + 1;
    }
    r := Filled(slots, errors);
  }

  /** PrintValue: a slot's text, followed by ", " unless it ends the row. */
  function PrintValue(text: string, endOfLine: bool): string
  {
    if endOfLine then text else text + ", "
  }

  /** iterate_tuple_print<index>::next: prints the columns up to index, the lower first. */
  function PrintUpTo<V>(schema: Schema<V>, row: seq<V>, index: nat, endOfLine: bool): string
    requires |row| == |schema| && index < |schema|
    decreases index
  {
    (if index == 0 then [] else PrintUpTo(schema, row, index - 1, false))
      + PrintValue(schema[index].format(row[index]), endOfLine)
  }

  /** PrintForEach (and operator<< on a row): the whole row, the last column ending the line.
      A row type with no columns does not compile in C++, hence the requirement. */
  function PrintForEach<V>(schema: Schema<V>, row: seq<V>): string
    requires |row| == |schema| >= 1
  {
    PrintUpTo(schema, row, |schema| - 1, true)
  }

  /** The text of each slot, in column order. */
  function Formatted<V>(schema: Schema<V>, row: seq<V>): (r: seq<string>)
    requires |row| == |schema|
    ensures |r| == |schema| && forall i :: 0 <= i < |r| ==> r[i] == schema[i].format(row[i])
  {
    seq(|schema|, i requires 0 <= i < |schema| => schema[i].format(row[i]))
  }

  /** Printing up to index gives the slot texts up to index joined by ", ", with one
      more ", " when it does not end the row. */
  lemma {:induction false} PrintUpToJoins<V>(schema: Schema<V>, row: seq<V>, index: nat, endOfLine: bool)
    requires |row| == |schema| && index < |schema|
    ensures PrintUpTo(schema, row, index, endOfLine) ==
      JoinWith(Formatted(schema, row)[..index + 1], ", ") + (if endOfLine then "" else ", ")
    decreases index
  {
    var texts := Formatted(schema, row);
    var last := texts[index];
    assert texts[..index + 1] == texts[..index] + [last];
    JoinWithSnoc(texts[..index], last, ", ");
    if index > 0 {
      PrintUpToJoins(schema, row, index - 1, false);
      assert texts[..index - 1 + 1] == texts[..index];
    }
  }

  /** A printed row is the slot texts separated by ", ", with no trailing separator. */
  lemma PrintForEachJoins<V>(schema: Schema<V>, row: seq<V>)
    requires |row| == |schema| >= 1
    ensures PrintForEach(schema, row) == JoinWith(Formatted(schema, row), ", ")
  {
    PrintUpToJoins(schema, row, |schema| - 1, true);
    assert Formatted(schema, row)[..|schema|] == Formatted(schema, row);
  }

  /** A row converted without any report prints as its field texts separated by ", ". */
  lemma PrintAcceptedRow<V>(schema: Schema<V>, row: seq<V>, args: seq<string>, line: nat)
    requires |row| == |schema| == |args| >= 1
    requires InsertUpTo(schema, row, args, line, |schema|).errors == []
    ensures PrintForEach(schema, InsertUpTo(schema, row, args, line, |schema|).row) == JoinWith(args, ", ")
  {
    var filled := InsertUpTo(schema, row, args, line, |schema|).row;
    InsertReports(schema, row, args, line, |schema|);
    PrintForEachJoins(schema, filled);
    forall i | 0 <= i < |schema| ensures Formatted(schema, filled)[i] == args[i] {
      assert BadValue(line, i + 1) !in InsertUpTo(schema, row, args, line, |schema|).errors;
    }
    assert Formatted(schema, filled) == args;
  }
}
