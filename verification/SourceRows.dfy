/** Harmonized archive files and the rows the replay scripts read from them.
    Times are integers (microseconds since the epoch, UTC). */
module SourceRows {
  import opened Wrappers

  /** A parsed CSV line below the header: no usable timestamp; a timestamp and
      nothing else; or a timestamp with a value column. */
  datatype Line = Undated | Bare(ts: int) | Reading(ts: int, value: Option<string>)

  /** A file, named by its place in path order. A file without a header has no lines. */
  datatype SourceFile = SourceFile(path: nat, lines: seq<Line>)

  datatype Row = Row(ts: int, sequence: nat, path: nat, number: nat, value: Option<string>)

  /** Line numbers count from the header, which is line 1. */
  const FIRST_ROW_NUMBER: nat := 2

  predicate Wanted(line: Line, start: Option<int>) {
    line.Reading? && (start.None? || start.value <= line.ts)
  }

  function RowAt(f: SourceFile, sequence: nat, i: nat): Row
    requires i < |f.lines| && f.lines[i].Reading?
  {
    Row(f.lines[i].ts, sequence, f.path, i + FIRST_ROW_NUMBER, f.lines[i].value)
  }

  /** The row carries a wanted line of the file under that line's own number. */
  predicate IsRowOf(x: Row, f: SourceFile, sequence: nat, start: Option<int>) {
    && FIRST_ROW_NUMBER <= x.number < |f.lines| + FIRST_ROW_NUMBER
    && Wanted(f.lines[x.number - FIRST_ROW_NUMBER], start)
    && x == RowAt(f, sequence, x.number - FIRST_ROW_NUMBER)
  }

  /** iter_source_rows, from line i on. */
  function ReadFrom(f: SourceFile, sequence: nat, start: Option<int>, i: nat): (rows: seq<Row>)
    requires i <= |f.lines|
    ensures forall k :: 0 <= k < |rows| ==>
              IsRowOf(rows[k], f, sequence, start) && i + FIRST_ROW_NUMBER <= rows[k].number
    ensures NumbersIncrease(rows)
    decreases |f.lines| - i
  {
    if i == |f.lines| then []
    else if Wanted(f.lines[i], start) then [RowAt(f, sequence, i)] + ReadFrom(f, sequence, start, i + 1)
    else ReadFrom(f, sequence, start, i + 1)
  }

  function ReadRows(f: SourceFile, sequence: nat, start: Option<int>): seq<Row> {
    ReadFrom(f, sequence, start, 0)
  }

  ghost predicate NumbersIncrease(rows: seq<Row>) {
    forall j, k :: 0 <= j < k < |rows| ==> rows[j].number < rows[k].number
  }

  /** One stream per selected file, tagged with the file's place in the selection. */
  function Streams(files: seq<SourceFile>, start: Option<int>): (streams: seq<seq<Row>>)
    ensures |streams| == |files|
    ensures forall i :: 0 <= i < |files| ==> streams[i] == ReadRows(files[i], i, start)
  {
    seq(|files|, i requires 0 <= i < |files| => ReadRows(files[i], i, start))
  }

  /** The key both merges order rows by. */
  predicate RowLess(a: Row, b: Row) {
    || a.ts < b.ts
    || (a.ts == b.ts && a.sequence < b.sequence)
    || (a.ts == b.ts && a.sequence == b.sequence && a.number < b.number)
  }

  ghost predicate Ascending(rows: seq<Row>) {
    forall j, k :: 0 <= j < k < |rows| ==> RowLess(rows[j], rows[k])
  }

  ghost predicate TimeOrdered(rows: seq<Row>) {
    forall j, k :: 0 <= j < k < |rows| ==> rows[j].ts <= rows[k].ts
  }

  /** Dated lines never go back in time. */
  ghost predicate TimeSorted(lines: seq<Line>) {
    forall j, k :: 0 <= j < k < |lines| && !lines[j].Undated? && !lines[k].Undated? ==> lines[j].ts <= lines[k].ts
  }

  ghost predicate AllTimeSorted(files: seq<SourceFile>) {
    forall i :: 0 <= i < |files| ==> TimeSorted(files[i].lines)
  }

  /** The rows stamped at or after t, in order. */
  function From(rows: seq<Row>, t: int): seq<Row> {
    if rows == [] then []
    else if t <= rows[0].ts then [rows[0]] + From(rows[1..], t)
    else From(rows[1..], t)
  }

  /** Reading yields exactly the wanted lines, each under its own line number. */
  lemma {:induction false} ReadFromElements(f: SourceFile, sequence: nat, start: Option<int>, i: nat)
    requires i <= |f.lines|
    ensures forall x :: x in ReadFrom(f, sequence, start, i) <==>
              IsRowOf(x, f, sequence, start) && i + FIRST_ROW_NUMBER <= x.number
    decreases |f.lines| - i
  {
    if i < |f.lines| {
      ReadFromElements(f, sequence, start, i + 1);
    }
  }

  /** Reading a time-sorted file gives rows ascending in the merge key. */
  lemma ReadAscending(f: SourceFile, sequence: nat, start: Option<int>)
    requires TimeSorted(f.lines)
    ensures Ascending(ReadRows(f, sequence, start))
  {
    var rows := ReadRows(f, sequence, start);
    forall j, k | 0 <= j < k < |rows|
      ensures RowLess(rows[j], rows[k])
    {
      assert IsRowOf(rows[j], f, sequence, start) && IsRowOf(rows[k], f, sequence, start);
    }
  }

  /** Starting a reader at t is reading everything and dropping what is older. */
  lemma {:induction false} ReadPushDown(f: SourceFile, sequence: nat, t: int, i: nat)
    requires i <= |f.lines|
    ensures ReadFrom(f, sequence, Some(t), i) == From(ReadFrom(f, sequence, None, i), t)
    decreases |f.lines| - i
  {
    if i < |f.lines| {
      ReadPushDown(f, sequence, t, i + 1);
      var rest := ReadFrom(f, sequence, None, i + 1);
      if f.lines[i].Reading? {
        assert ([RowAt(f, sequence, i)] + rest)[1..] == rest;
      }
    }
  }

  /** The reader in terms of the file alone: the k-th row is the k-th line, counted from the header
      as line 1, that has a timestamp not older than the start and a value column, with that
      line's time and value, and no such line is missing. */
  lemma ReadingsOfFile(f: SourceFile, sequence: nat, start: Option<int>)
    ensures var rows := ReadRows(f, sequence, start);
            && (forall k :: 0 <= k < |rows| ==> CarriesLine(rows[k], f, sequence, start))
            && (forall j, k :: 0 <= j < k < |rows| ==> rows[j].number < rows[k].number)
            && (forall i ::
                  0 <= i < |f.lines| && f.lines[i].Reading? && (start.Some? ==> start.value <= f.lines[i].ts) ==>
                    Numbered(rows, i + 2))
  {
    forall k | 0 <= k < |ReadRows(f, sequence, start)|
      ensures CarriesLine(ReadRows(f, sequence, start)[k], f, sequence, start)
    {
      assert IsRowOf(ReadRows(f, sequence, start)[k], f, sequence, start);
    }
    forall i | 0 <= i < |f.lines| && f.lines[i].Reading? && (start.Some? ==> start.value <= f.lines[i].ts)
      ensures Numbered(ReadRows(f, sequence, start), i + 2)
    {
      WantedLineIsRead(f, sequence, start, i);
    }
  }

  /** The row is the reading on its own line of the file, counted from the header as line 1. */
  predicate CarriesLine(x: Row, f: SourceFile, sequence: nat, start: Option<int>) {
    && 2 <= x.number < |f.lines| + 2 && f.lines[x.number - 2] == Reading(x.ts, x.value)
    && x.path == f.path && x.sequence == sequence && (start.Some? ==> start.value <= x.ts)
  }

  predicate Numbered(rows: seq<Row>, number: int) {
    exists k :: 0 <= k < |rows| && rows[k].number == number
  }

  lemma WantedLineIsRead(f: SourceFile, sequence: nat, start: Option<int>, i: nat)
    requires i < |f.lines| && Wanted(f.lines[i], start)
    ensures Numbered(ReadRows(f, sequence, start), i + 2)
  {
    ReadFromElements(f, sequence, start, 0);
    var x := RowAt(f, sequence, i);
    assert IsRowOf(x, f, sequence, start);
    assert x in ReadRows(f, sequence, start);
  }
}
