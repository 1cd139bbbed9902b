/** Replaying a chunk from the cache of its local day emits the archive's rows of that chunk,
    in the same order, under the line numbers of the cached copies. */
module CacheReplay {
  import opened Wrappers
  import opened SourceRows
  import opened Merge
  import opened MergeMeaning
  import opened Injector
  import opened Supervisor
  import opened Timeline
  import opened DayCache

  /** What the injector posts for a row; path and number make its source event id. */
  datatype Event = Event(ts: int, path: nat, number: nat, value: Option<string>)

  function EventOf(x: Row): Event {
    Event(x.ts, x.path, x.number, x.value)
  }

  function EventsOf(rows: seq<Row>): (events: seq<Event>)
    ensures |events| == |rows|
    ensures forall k :: 0 <= k < |rows| ==> events[k] == EventOf(rows[k])
  {
    seq(|rows|, k requires 0 <= k < |rows| => EventOf(rows[k]))
  }

  predicate EventLess(a: Event, b: Event) {
    || a.ts < b.ts
    || (a.ts == b.ts && a.path < b.path)
    || (a.ts == b.ts && a.path == b.path && a.number < b.number)
  }

  ghost predicate EventsAscending(events: seq<Event>) {
    forall j, k :: 0 <= j < k < |events| ==> EventLess(events[j], events[k])
  }

  /** Files listed in path order. */
  ghost predicate PathOrder(files: seq<SourceFile>) {
    forall i, j :: 0 <= i < j < |files| ==> files[i].path < files[j].path
  }

  lemma {:induction false} EventsUnique(a: seq<Event>, b: seq<Event>)
    requires EventsAscending(a) && EventsAscending(b)
    requires forall e :: e in a <==> e in b
    ensures a == b
  {
    assert a != [] ==> a[0] in a;
    assert b != [] ==> b[0] in b;
    if a != [] {
      assert a[0] in b && b[0] in a;
      assert a[0] == b[0];
      forall e
        ensures e in a[1..] <==> e in b[1..]
      {
        assert a == [a[0]] + a[1..] && b == [b[0]] + b[1..];
        assert e in a <==> e == a[0] || e in a[1..];
        assert e in b <==> e == b[0] || e in b[1..];
        assert !EventLess(a[0], a[0]);
      }
      EventsUnique(a[1..], b[1..]);
    }
  }

  // ----- The rows of a window ------------------------------------------------------------

  /** Line i of file j is a reading of the window. */
  predicate Holds(files: seq<SourceFile>, lo: int, hi: int, j: nat, i: nat) {
    j < |files| && i < |files[j].lines| && files[j].lines[i].Reading? && lo <= files[j].lines[i].ts < hi
  }

  function WindowRows(files: seq<SourceFile>, lo: int, hi: int): seq<Row> {
    InWindow(MergedRows(files, None), lo, hi)
  }

  lemma {:induction false} InWindowElements(rows: seq<Row>, lo: int, hi: int, x: Row)
    ensures x in InWindow(rows, lo, hi) <==> x in rows && lo <= x.ts < hi
  {
    if rows != [] {
      InWindowElements(rows[1..], lo, hi, x);
      assert rows == [rows[0]] + rows[1..];
    }
  }

  lemma MergedElements(files: seq<SourceFile>, x: Row)
    ensures x in MergedRows(files, None) <==> x.sequence < |files| && x in ReadRows(files[x.sequence], x.sequence, None)
  {
    var streams: seq<seq<Row>> := Streams(files, None);
    MergeElements(streams, x);
    StreamsTagged(files, None);
    if j :| 0 <= j < |streams| && x in streams[j] {
      assert x.sequence == j;
    }
  }

  lemma WindowRowsElements(files: seq<SourceFile>, lo: int, hi: int, x: Row)
    ensures x in WindowRows(files, lo, hi) <==>
            FIRST_ROW_NUMBER <= x.number && Holds(files, lo, hi, x.sequence, x.number - FIRST_ROW_NUMBER)
            && x == RowAt(files[x.sequence], x.sequence, x.number - FIRST_ROW_NUMBER)
  {
    InWindowElements(MergedRows(files, None), lo, hi, x);
    MergedElements(files, x);
    if x.sequence < |files| {
      ReadFromElements(files[x.sequence], x.sequence, None, 0);
    }
  }

  lemma InWindowAscending(rows: seq<Row>, lo: int, hi: int)
    requires Ascending(rows) && TimeOrdered(rows) && lo <= hi
    ensures Ascending(InWindow(rows, lo, hi))
  {
    WindowIsSlice(rows, lo, hi);
  }

  lemma WindowEventsAscending(files: seq<SourceFile>, lo: int, hi: int)
    requires AllTimeSorted(files) && PathOrder(files) && lo <= hi
    ensures Ascending(WindowRows(files, lo, hi)) && EventsAscending(EventsOf(WindowRows(files, lo, hi)))
  {
    MergedAscending(files, None);
    InWindowAscending(MergedRows(files, None), lo, hi);
    var rows := WindowRows(files, lo, hi);
    forall j, k | 0 <= j < k < |rows|
      ensures EventLess(EventOf(rows[j]), EventOf(rows[k]))
    {
      WindowRowsElements(files, lo, hi, rows[j]);
      WindowRowsElements(files, lo, hi, rows[k]);
      assert RowLess(rows[j], rows[k]);
    }
  }

  /** The window lies inside one local day. */
  predicate WithinDay(day: int, offset: int, lo: int, hi: int) {
    day * DAY - offset <= lo && hi <= day * DAY + DAY - offset
  }

  lemma DayOfTime(day: int, offset: int, t: int)
    requires day * DAY - offset <= t < day * DAY + DAY - offset
    ensures LocalDay(t, offset) == day
  {
  }

  lemma WindowRowOnDay(files: seq<SourceFile>, day: int, offset: int, lo: int, hi: int, x: Row)
    requires WithinDay(day, offset, lo, hi) && x in WindowRows(files, lo, hi)
    ensures FIRST_ROW_NUMBER <= x.number && Holds(files, lo, hi, x.sequence, x.number - FIRST_ROW_NUMBER)
    ensures x == RowAt(files[x.sequence], x.sequence, x.number - FIRST_ROW_NUMBER)
    ensures OnDay(files[x.sequence].lines[x.number - FIRST_ROW_NUMBER], day, offset)
  {
    WindowRowsElements(files, lo, hi, x);
    DayOfTime(day, offset, x.ts);
  }

  lemma HeldRowIsReplayed(files: seq<SourceFile>, lo: int, hi: int, j: nat, i: nat)
    requires Holds(files, lo, hi, j, i)
    ensures RowAt(files[j], j, i) in WindowRows(files, lo, hi)
    ensures EventOf(RowAt(files[j], j, i)) in EventsOf(WindowRows(files, lo, hi))
  {
    var y := RowAt(files[j], j, i);
    WindowRowsElements(files, lo, hi, y);
    var n :| 0 <= n < |WindowRows(files, lo, hi)| && WindowRows(files, lo, hi)[n] == y;
    assert EventsOf(WindowRows(files, lo, hi))[n] == EventOf(y);
  }

  // ----- Copies --------------------------------------------------------------------------

  /** The cached copy of line i stands behind the copies of the day's earlier lines. */
  function CopyNumber(f: SourceFile, day: int, offset: int, i: nat): nat
    requires i <= |f.lines|
  {
    |DayLines(f.lines[..i], day, offset)| + FIRST_ROW_NUMBER
  }

  /** What posting the cached copy of an archive row posts. */
  function CopyOf(archive: seq<SourceFile>, day: int, offset: int, x: Row): Event {
    if x.sequence < |archive| && FIRST_ROW_NUMBER <= x.number <= |archive[x.sequence].lines| + FIRST_ROW_NUMBER
    then Event(x.ts, x.path, CopyNumber(archive[x.sequence], day, offset, x.number - FIRST_ROW_NUMBER), x.value)
    else EventOf(x)
  }

  function CopiesOf(archive: seq<SourceFile>, day: int, offset: int, rows: seq<Row>): (events: seq<Event>)
    ensures |events| == |rows|
    ensures forall k :: 0 <= k < |rows| ==> events[k] == CopyOf(archive, day, offset, rows[k])
  {
    seq(|rows|, k requires 0 <= k < |rows| => CopyOf(archive, day, offset, rows[k]))
  }

  lemma CopyMember(archive: seq<SourceFile>, day: int, offset: int, rows: seq<Row>, x: Row)
    requires x in rows
    ensures CopyOf(archive, day, offset, x) in CopiesOf(archive, day, offset, rows)
  {
    var n :| 0 <= n < |rows| && rows[n] == x;
    assert CopiesOf(archive, day, offset, rows)[n] == CopyOf(archive, day, offset, x);
  }

  lemma {:induction false} DayLinesPrefix(lines: seq<Line>, day: int, offset: int, i: nat, j: nat)
    requires i <= j <= |lines|
    ensures |DayLines(lines[..i], day, offset)| <= |DayLines(lines[..j], day, offset)|
    ensures DayLines(lines[..i], day, offset)
              == DayLines(lines[..j], day, offset)[..|DayLines(lines[..i], day, offset)|]
    decreases j - i
  {
    if i < j {
      DayLinesPrefix(lines, day, offset, i, j - 1);
      DayLinesStep(lines, j - 1, day, offset);
    }
  }

  /** A line of the day is found in the day's lines at its copy's place. */
  lemma DayLinePlace(lines: seq<Line>, day: int, offset: int, i: nat)
    requires i < |lines| && OnDay(lines[i], day, offset)
    ensures var place := |DayLines(lines[..i], day, offset)|;
            place < |DayLines(lines, day, offset)| && DayLines(lines, day, offset)[place] == lines[i]
  {
    DayLinesStep(lines, i, day, offset);
    DayLinesPrefix(lines, day, offset, i + 1, |lines|);
    assert lines[..|lines|] == lines;
  }

  /** Every cached line is the copy of one line of the day. */
  lemma {:induction false} DayLineOrigin(lines: seq<Line>, day: int, offset: int, place: nat) returns (i: nat)
    requires place < |DayLines(lines, day, offset)|
    ensures i < |lines| && OnDay(lines[i], day, offset)
    ensures |DayLines(lines[..i], day, offset)| == place && lines[i] == DayLines(lines, day, offset)[place]
  {
    var front := lines[..|lines| - 1];
    if place < |DayLines(front, day, offset)| {
      i := DayLineOrigin(front, day, offset, place);
      assert front[..i] == lines[..i];
    } else {
      i := |lines| - 1;
    }
  }

  lemma CopiesAscending(archive: seq<SourceFile>, day: int, offset: int, lo: int, hi: int)
    requires AllTimeSorted(archive) && PathOrder(archive) && lo <= hi
    requires WithinDay(day, offset, lo, hi)
    ensures EventsAscending(CopiesOf(archive, day, offset, WindowRows(archive, lo, hi)))
  {
    WindowEventsAscending(archive, lo, hi);
    var rows := WindowRows(archive, lo, hi);
    forall j, k | 0 <= j < k < |rows|
      ensures EventLess(CopyOf(archive, day, offset, rows[j]), CopyOf(archive, day, offset, rows[k]))
    {
      assert RowLess(rows[j], rows[k]);
      CopiesKeepOrder(archive, day, offset, lo, hi, rows[j], rows[k]);
    }
  }

  lemma CopiesKeepOrder(archive: seq<SourceFile>, day: int, offset: int, lo: int, hi: int, x: Row, y: Row)
    requires PathOrder(archive) && WithinDay(day, offset, lo, hi)
    requires x in WindowRows(archive, lo, hi) && y in WindowRows(archive, lo, hi) && RowLess(x, y)
    ensures EventLess(CopyOf(archive, day, offset, x), CopyOf(archive, day, offset, y))
  {
    WindowRowOnDay(archive, day, offset, lo, hi, x);
    WindowRowOnDay(archive, day, offset, lo, hi, y);
    LaterLineLaterCopy(archive, day, offset, x.sequence, x.number - FIRST_ROW_NUMBER, y.sequence,
                       y.number - FIRST_ROW_NUMBER);
  }

  /** Reading i of file j and reading l of file k, both of the day. */
  lemma LaterLineLaterCopy(archive: seq<SourceFile>, day: int, offset: int, j: nat, i: nat, k: nat, l: nat)
    requires PathOrder(archive) && j < |archive| && k < |archive|
    requires i < |archive[j].lines| && archive[j].lines[i].Reading? && OnDay(archive[j].lines[i], day, offset)
    requires l < |archive[k].lines| && archive[k].lines[l].Reading?
    requires RowLess(RowAt(archive[j], j, i), RowAt(archive[k], k, l))
    ensures EventLess(CopyOf(archive, day, offset, RowAt(archive[j], j, i)),
                      CopyOf(archive, day, offset, RowAt(archive[k], k, l)))
  {
    if j == k && i < l {
      CopyNumbersIncrease(archive[j], day, offset, i, l);
    }
  }

  lemma CopyNumbersIncrease(f: SourceFile, day: int, offset: int, i: nat, j: nat)
    requires i < j < |f.lines| && OnDay(f.lines[i], day, offset)
    ensures CopyNumber(f, day, offset, i) < CopyNumber(f, day, offset, j)
  {
    DayLinesStep(f.lines, i, day, offset);
    DayLinesPrefix(f.lines, day, offset, i + 1, j);
  }

  // ----- The cache root of one day -------------------------------------------------------

  /** File j of the root holds the day's lines of archive file k. */
  ghost predicate CopyOfFile(archive: seq<SourceFile>, root: seq<SourceFile>, day: int, offset: int, j: nat, k: nat)
    requires j < |root|
  {
    k < |archive| && root[j].path == archive[k].path && root[j].lines == DayLines(archive[k].lines, day, offset)
    && root[j].lines != []
  }

  ghost predicate Leftover(archive: seq<SourceFile>, root: seq<SourceFile>, day: int, offset: int, j: nat)
    requires j < |root|
  {
    forall k :: 0 <= k < |archive| && archive[k].path == root[j].path ==> DayLines(archive[k].lines, day, offset) == []
  }

  /** The cache directory of a day after an overwriting build: every archive file with lines
      of the day has its copy there, and any other file is left over from before. */
  ghost predicate CacheRoot(archive: seq<SourceFile>, root: seq<SourceFile>, day: int, offset: int) {
    && PathOrder(root)
    && (forall j :: 0 <= j < |root| ==>
          Leftover(archive, root, day, offset, j) || exists k :: CopyOfFile(archive, root, day, offset, j, k))
    && (forall k :: 0 <= k < |archive| && DayLines(archive[k].lines, day, offset) != [] ==>
          exists j :: 0 <= j < |root| && CopyOfFile(archive, root, day, offset, j, k))
  }

  /** A file left over from an earlier build would be replayed with the chunk. */
  ghost predicate LeftoverReplayed(archive: seq<SourceFile>, root: seq<SourceFile>, day: int, offset: int, lo: int,
                                   hi: int) {
    exists j, i :: 0 <= j < |root| && Leftover(archive, root, day, offset, j) && Holds(root, lo, hi, j, i)
  }

  /** Every archive row of the chunk is replayed from the cache as its copy. */
  lemma CopyIsReplayed(archive: seq<SourceFile>, root: seq<SourceFile>, day: int, offset: int, lo: int, hi: int, x: Row)
    requires CacheRoot(archive, root, day, offset)
    requires WithinDay(day, offset, lo, hi)
    requires x in WindowRows(archive, lo, hi)
    ensures CopyOf(archive, day, offset, x) in EventsOf(WindowRows(root, lo, hi))
  {
    WindowRowOnDay(archive, day, offset, lo, hi, x);
    var k, i := x.sequence, x.number - FIRST_ROW_NUMBER;
    DayLinePlace(archive[k].lines, day, offset, i);
    var j :| 0 <= j < |root| && CopyOfFile(archive, root, day, offset, j, k);
    CopyIsReplayedFrom(archive, root, day, offset, lo, hi, j, k, i);
  }

  lemma CopyIsReplayedFrom(archive: seq<SourceFile>, root: seq<SourceFile>, day: int, offset: int, lo: int, hi: int,
                           j: nat, k: nat, i: nat)
    requires j < |root| && CopyOfFile(archive, root, day, offset, j, k) && Holds(archive, lo, hi, k, i)
    requires OnDay(archive[k].lines[i], day, offset)
    ensures CopyOf(archive, day, offset, RowAt(archive[k], k, i)) in EventsOf(WindowRows(root, lo, hi))
  {
    DayLinePlace(archive[k].lines, day, offset, i);
    HeldRowIsReplayed(root, lo, hi, j, |DayLines(archive[k].lines[..i], day, offset)|);
  }

  /** A reading of a copied file is the copy of an archive row of the chunk. */
  lemma CopiedReadingHasOrigin(archive: seq<SourceFile>, root: seq<SourceFile>, day: int, offset: int, lo: int, hi: int,
                               j: nat, place: nat, k: nat) returns (x: Row)
    requires Holds(root, lo, hi, j, place) && CopyOfFile(archive, root, day, offset, j, k)
    ensures x in WindowRows(archive, lo, hi) && CopyOf(archive, day, offset, x) == EventOf(RowAt(root[j], j, place))
  {
    var i := DayLineOrigin(archive[k].lines, day, offset, place);
    HeldRowIsReplayed(archive, lo, hi, k, i);
    x := RowAt(archive[k], k, i);
  }

  /** Every reading replayed from a copy is the copy of an archive row of the chunk. */
  lemma ReplayedIsCopy(archive: seq<SourceFile>, root: seq<SourceFile>, day: int, offset: int, lo: int, hi: int,
                       j: nat, place: nat)
    requires CacheRoot(archive, root, day, offset) && Holds(root, lo, hi, j, place)
             && !Leftover(archive, root, day, offset, j)
    ensures EventOf(RowAt(root[j], j, place)) in CopiesOf(archive, day, offset, WindowRows(archive, lo, hi))
  {
    var k: nat :| CopyOfFile(archive, root, day, offset, j, k);
    var x := CopiedReadingHasOrigin(archive, root, day, offset, lo, hi, j, place, k);
    CopyMember(archive, day, offset, WindowRows(archive, lo, hi), x);
  }

  lemma NotFromLeftover(archive: seq<SourceFile>, root: seq<SourceFile>, day: int, offset: int, lo: int, hi: int,
                        j: nat, x: Row)
    requires WithinDay(day, offset, lo, hi) && j < |root| && Leftover(archive, root, day, offset, j)
    requires x in WindowRows(archive, lo, hi)
    ensures CopyOf(archive, day, offset, x).path != root[j].path
  {
    WindowRowOnDay(archive, day, offset, lo, hi, x);
    DayLinePlace(archive[x.sequence].lines, day, offset, x.number - FIRST_ROW_NUMBER);
  }

  /** A leftover reading is not the copy of anything. */
  lemma LeftoverIsNoCopy(archive: seq<SourceFile>, root: seq<SourceFile>, day: int, offset: int, lo: int, hi: int,
                         j: nat, i: nat)
    requires WithinDay(day, offset, lo, hi)
    requires j < |root| && Leftover(archive, root, day, offset, j) && Holds(root, lo, hi, j, i)
    ensures EventOf(RowAt(root[j], j, i)) in EventsOf(WindowRows(root, lo, hi))
    ensures EventOf(RowAt(root[j], j, i)) !in CopiesOf(archive, day, offset, WindowRows(archive, lo, hi))
  {
    HeldRowIsReplayed(root, lo, hi, j, i);
    var rows := WindowRows(archive, lo, hi);
    var copies := CopiesOf(archive, day, offset, rows);
    forall m | 0 <= m < |copies|
      ensures copies[m] != EventOf(RowAt(root[j], j, i))
    {
      NotFromLeftover(archive, root, day, offset, lo, hi, j, rows[m]);
    }
  }

  lemma ReplayedEventIsCopy(archive: seq<SourceFile>, root: seq<SourceFile>, day: int, offset: int, lo: int, hi: int,
                            e: Event)
    requires CacheRoot(archive, root, day, offset) && !LeftoverReplayed(archive, root, day, offset, lo, hi)
    requires e in EventsOf(WindowRows(root, lo, hi))
    ensures e in CopiesOf(archive, day, offset, WindowRows(archive, lo, hi))
  {
    var y := RowOfEvent(WindowRows(root, lo, hi), e);
    WindowRowsElements(root, lo, hi, y);
    ReplayedIsCopy(archive, root, day, offset, lo, hi, y.sequence, y.number - FIRST_ROW_NUMBER);
  }

  lemma RowOfEvent(rows: seq<Row>, e: Event) returns (x: Row)
    requires e in EventsOf(rows)
    ensures x in rows && EventOf(x) == e
  {
    var n :| 0 <= n < |rows| && EventsOf(rows)[n] == e;
    x := rows[n];
  }

  lemma CopyEventIsReplayed(archive: seq<SourceFile>, root: seq<SourceFile>, day: int, offset: int, lo: int, hi: int,
                            e: Event)
    requires CacheRoot(archive, root, day, offset) && WithinDay(day, offset, lo, hi)
    requires e in CopiesOf(archive, day, offset, WindowRows(archive, lo, hi))
    ensures e in EventsOf(WindowRows(root, lo, hi))
  {
    var rows := WindowRows(archive, lo, hi);
    var n :| 0 <= n < |rows| && CopiesOf(archive, day, offset, rows)[n] == e;
    CopyIsReplayed(archive, root, day, offset, lo, hi, rows[n]);
  }

  /** For time-sorted files, the window replayed from the day's cache is the archive's window,
      copy for copy and in the same order, if and only if no file left over from an earlier
      build holds a reading of that window. */
  lemma CacheAgreesIff(archive: seq<SourceFile>, root: seq<SourceFile>, day: int, offset: int, lo: int, hi: int)
    requires AllTimeSorted(archive) && PathOrder(archive) && AllTimeSorted(root)
             && CacheRoot(archive, root, day, offset)
    requires lo <= hi && WithinDay(day, offset, lo, hi)
    ensures EventsOf(WindowRows(root, lo, hi)) == CopiesOf(archive, day, offset, WindowRows(archive, lo, hi))
            <==> !LeftoverReplayed(archive, root, day, offset, lo, hi)
  {
    var replayed := EventsOf(WindowRows(root, lo, hi));
    var copies := CopiesOf(archive, day, offset, WindowRows(archive, lo, hi));
    if LeftoverReplayed(archive, root, day, offset, lo, hi) {
      var j, i :| 0 <= j < |root| && Leftover(archive, root, day, offset, j) && Holds(root, lo, hi, j, i);
      LeftoverIsNoCopy(archive, root, day, offset, lo, hi, j, i);
    } else {
      forall e
        ensures e in replayed <==> e in copies
      {
        if e in replayed {
          ReplayedEventIsCopy(archive, root, day, offset, lo, hi, e);
        }
        if e in copies {
          CopyEventIsReplayed(archive, root, day, offset, lo, hi, e);
        }
      }
      WindowEventsAscending(root, lo, hi);
      CopiesAscending(archive, day, offset, lo, hi);
      EventsUnique(replayed, copies);
    }
  }
}
