/** From a build to a replayed chunk: an overwriting build gives the cache directory that the
    supervisor then replays a chunk from. */
module CacheBuild {
  import opened Wrappers
  import opened SourceRows
  import opened Merge
  import opened Injector
  import opened Supervisor
  import opened DayCache
  import opened CacheReplay

  /** What file discovery finds under the cache directory of a day. */
  ghost predicate ListsDay(root: seq<SourceFile>, store: Store, day: int) {
    && PathOrder(root)
    && (forall j :: 0 <= j < |root| ==> Lookup(store, CacheKey(day, root[j].path)) == Some(root[j].lines))
    && (forall key :: key in store && key.day == day ==> exists j :: 0 <= j < |root| && root[j].path == key.path)
  }

  ghost predicate Built(archive: seq<SourceFile>, args: BuildArgs, before: Store, after: Store) {
    forall key :: Lookup(after, key) == AfterBuild(archive, args, Lookup(before, key), key)
  }

  /** Stopping at the first line past the range loses no line of a day in range, when the
      file is time-sorted. */
  lemma {:induction false} BreakLosesNothing(lines: seq<Line>, args: BuildArgs, day: int)
    requires TimeSorted(lines) && day <= args.endDay
    ensures DayLines(UntilEnd(lines, args.EndUtc()), day, args.offset) == DayLines(lines, day, args.offset)
  {
    if lines != [] {
      var front, last := lines[..|lines| - 1], lines[|lines| - 1];
      BreakLosesNothing(front, args, day);
      UntilEndLast(lines, args.EndUtc());
      OneLineMore(UntilEnd(front, args.EndUtc()), last, day, args.offset);
      LateLineIsOffDay(last, args, day);
    }
  }

  lemma LateLineIsOffDay(line: Line, args: BuildArgs, day: int)
    requires day <= args.endDay
    ensures !line.Undated? && args.EndUtc() <= line.ts ==> !OnDay(line, day, args.offset)
  {
  }

  /** Appending a line to a time-sorted file appends it to the cut file, or it is past the end
      or without a date. */
  lemma {:induction false} UntilEndLast(lines: seq<Line>, end: int)
    requires lines != [] && TimeSorted(lines)
    ensures UntilEnd(lines, end) == UntilEnd(lines[..|lines| - 1], end) + [lines[|lines| - 1]]
            || (UntilEnd(lines, end) == UntilEnd(lines[..|lines| - 1], end)
                && (lines[|lines| - 1].Undated? || end <= lines[|lines| - 1].ts))
  {
    if |lines| > 1 && (lines[0].Undated? || lines[0].ts < end) {
      UntilEndLast(lines[1..], end);
      assert lines[1..][..|lines| - 2] == lines[..|lines| - 1][1..];
    }
  }

  /** After an overwriting build a day in range holds each archive file's lines of that day,
      and what it held before where a file has none. */
  lemma {:induction false} AfterBuildAt(archive: seq<SourceFile>, args: BuildArgs, before: Option<seq<Line>>,
                                        key: CacheKey)
    requires PathOrder(archive) && AllTimeSorted(archive) && args.overwrite && args.startDay <= key.day <= args.endDay
    ensures forall k :: 0 <= k < |archive| && archive[k].path == key.path ==>
              var kept := DayLines(archive[k].lines, key.day, args.offset);
              kept != [] ==> AfterBuild(archive, args, before, key) == Some(kept)
    ensures (forall k :: 0 <= k < |archive| && archive[k].path == key.path ==>
               DayLines(archive[k].lines, key.day, args.offset) == [])
            ==> AfterBuild(archive, args, before, key) == before
  {
    if archive != [] {
      var f := archive[|archive| - 1];
      AfterBuildAt(archive[..|archive| - 1], args, before, key);
      BreakLosesNothing(f.lines, args, key.day);
    }
  }

  /** An overwriting build over a range that holds the day leaves the day's cache directory. */
  lemma BuildGivesCacheRoot(archive: seq<SourceFile>, args: BuildArgs, before: Store, after: Store,
                            root: seq<SourceFile>, day: int)
    requires PathOrder(archive) && AllTimeSorted(archive) && args.overwrite && args.startDay <= day <= args.endDay
    requires Built(archive, args, before, after) && ListsDay(root, after, day)
    ensures CacheRoot(archive, root, day, args.offset)
    ensures forall j :: 0 <= j < |root| && Leftover(archive, root, day, args.offset, j) ==>
              Lookup(before, CacheKey(day, root[j].path)) == Some(root[j].lines)
  {
    forall j | 0 <= j < |root|
      ensures Leftover(archive, root, day, args.offset, j)
              || exists k :: CopyOfFile(archive, root, day, args.offset, j, k)
      ensures Leftover(archive, root, day, args.offset, j) ==>
                Lookup(before, CacheKey(day, root[j].path)) == Some(root[j].lines)
    {
      var key := CacheKey(day, root[j].path);
      AfterBuildAt(archive, args, Lookup(before, key), key);
      if k :| 0 <= k < |archive| && archive[k].path == key.path && DayLines(archive[k].lines, day, args.offset) != [] {
        assert CopyOfFile(archive, root, day, args.offset, j, k);
      }
    }
    forall k | 0 <= k < |archive| && DayLines(archive[k].lines, day, args.offset) != []
      ensures exists j :: 0 <= j < |root| && CopyOfFile(archive, root, day, args.offset, j, k)
    {
      var key := CacheKey(day, archive[k].path);
      AfterBuildAt(archive, args, Lookup(before, key), key);
      assert key in after;
      var j :| 0 <= j < |root| && root[j].path == key.path;
      assert CopyOfFile(archive, root, day, args.offset, j, k);
    }
  }

  lemma DayLinesSorted(lines: seq<Line>, day: int, offset: int)
    requires TimeSorted(lines)
    ensures TimeSorted(DayLines(lines, day, offset))
  {
    var kept := DayLines(lines, day, offset);
    forall a, b | 0 <= a < b < |kept| && !kept[a].Undated? && !kept[b].Undated?
      ensures kept[a].ts <= kept[b].ts
    {
      var i := DayLineOrigin(lines, day, offset, a);
      var j := DayLineOrigin(lines, day, offset, b);
      if j <= i {
        DayLinesPrefix(lines, day, offset, j, i);
      }
    }
  }

  lemma CacheRootSorted(archive: seq<SourceFile>, before: Store, root: seq<SourceFile>, day: int, offset: int)
    requires AllTimeSorted(archive) && CacheRoot(archive, root, day, offset)
    requires forall key :: key in before && key.day == day ==> TimeSorted(before[key])
    requires forall j :: 0 <= j < |root| && Leftover(archive, root, day, offset, j) ==>
               Lookup(before, CacheKey(day, root[j].path)) == Some(root[j].lines)
    ensures AllTimeSorted(root)
  {
    forall j | 0 <= j < |root|
      ensures TimeSorted(root[j].lines)
    {
      if !Leftover(archive, root, day, offset, j) {
        var k: nat :| CopyOfFile(archive, root, day, offset, j, k);
        DayLinesSorted(archive[k].lines, day, offset);
      }
    }
  }

  /** The supervisor's chunk from `start`, replayed from the cache of start's own local day,
      posts the archive's rows of the chunk in the archive's order, under their copies' line
      numbers; the chunk end never crosses local midnight, so one day's cache is enough. */
  lemma ChunkFromCacheIsChunkFromArchive(archive: seq<SourceFile>, args: BuildArgs, before: Store, after: Store,
                                         root: seq<SourceFile>, c: Config, start: int)
    requires PathOrder(archive) && AllTimeSorted(archive) && args.overwrite && Built(archive, args, before, after)
    requires c.Valid() && c.dayCache && c.offset == args.offset && start < c.targetEnd
    requires args.startDay <= LocalDay(start, c.offset) <= args.endDay
             && ListsDay(root, after, LocalDay(start, c.offset))
    requires forall key :: key in before && key.day == LocalDay(start, c.offset) ==> TimeSorted(before[key])
    requires !LeftoverReplayed(archive, root, LocalDay(start, c.offset), c.offset, start, ChunkEnd(c, start))
    ensures var end := Some(ChunkEnd(c, start));
            EventsOf(Emission(MergedRows(root, Some(start)), c.maxEvents, Some(start), end, 0))
            == CopiesOf(archive, LocalDay(start, c.offset), c.offset,
                        Emission(MergedRows(archive, Some(start)), c.maxEvents, Some(start), end, 0))
  {
    var day, end := LocalDay(start, c.offset), ChunkEnd(c, start);
    BuildGivesCacheRoot(archive, args, before, after, root, day);
    CacheRootSorted(archive, before, root, day, c.offset);
    ChunkEndBounds(c, start);
    MidnightBoundsTheDay(start, start, c.offset);
    CacheAgreesIff(archive, root, day, c.offset, start, end);
    ReplayEmitsWindow(archive, c.maxEvents, start, end);
    ReplayEmitsWindow(root, c.maxEvents, start, end);
    TakeOfCopies(archive, day, c.offset, WindowRows(root, start, end), WindowRows(archive, start, end), c.maxEvents);
  }

  lemma TakeOfCopies(archive: seq<SourceFile>, day: int, offset: int, replayed: seq<Row>, rows: seq<Row>, n: nat)
    requires EventsOf(replayed) == CopiesOf(archive, day, offset, rows)
    ensures EventsOf(Take(replayed, n)) == CopiesOf(archive, day, offset, Take(rows, n))
  {
    forall k | 0 <= k < |replayed|
      ensures EventOf(replayed[k]) == CopyOf(archive, day, offset, rows[k])
    {
      assert EventsOf(replayed)[k] == CopiesOf(archive, day, offset, rows)[k];
    }
  }

  /** A post without its line number: what the ledger learns about the meter. */
  datatype Post = Post(ts: int, path: nat, value: Option<string>)

  function PostOf(x: Row): Post {
    Post(x.ts, x.path, x.value)
  }

  function Posted(rows: seq<Row>): (posts: seq<Post>)
    ensures |posts| == |rows|
    ensures forall k :: 0 <= k < |rows| ==> posts[k] == PostOf(rows[k])
  {
    seq(|rows|, k requires 0 <= k < |rows| => PostOf(rows[k]))
  }

  lemma SamePosted(archive: seq<SourceFile>, day: int, offset: int, replayed: seq<Row>, rows: seq<Row>)
    requires EventsOf(replayed) == CopiesOf(archive, day, offset, rows)
    ensures Posted(replayed) == Posted(rows)
  {
    forall k | 0 <= k < |replayed|
      ensures Posted(replayed)[k] == Posted(rows)[k]
    {
      assert EventsOf(replayed)[k] == CopiesOf(archive, day, offset, rows)[k];
    }
  }

  /** A day that held nothing before the build has nothing left over. */
  lemma FreshDayHasNoLeftovers(archive: seq<SourceFile>, args: BuildArgs, before: Store, after: Store,
                               root: seq<SourceFile>,
                               day: int, lo: int, hi: int)
    requires PathOrder(archive) && AllTimeSorted(archive) && args.overwrite && args.startDay <= day <= args.endDay
    requires Built(archive, args, before, after) && ListsDay(root, after, day)
    requires forall key :: key in before ==> key.day != day
    ensures !LeftoverReplayed(archive, root, day, args.offset, lo, hi)
  {
    BuildGivesCacheRoot(archive, args, before, after, root, day);
  }

  // A one-file archive, and a cache directory that an earlier build left another file in.
  const SMALL_ARCHIVE: seq<SourceFile> := [SourceFile(1, [Reading(10, None)])]
  const ONE_DAY: BuildArgs := BuildArgs(0, 0, 0, true)
  const STALE_STORE: Store := map[CacheKey(0, 7) := [Reading(20, None)]]
  const REBUILT_STORE: Store := map[CacheKey(0, 7) := [Reading(20, None)], CacheKey(0, 1) := [Reading(10, None)]]
  const REBUILT_ROOT: seq<SourceFile> := [SourceFile(1, [Reading(10, None)]), SourceFile(7, [Reading(20, None)])]

  lemma SmallArchiveDayLines(day: int)
    ensures DayLines([Reading(10, None)], day, 0) == if day == 0 then [Reading(10, None)] else []
    ensures UntilEnd([Reading(10, None)], ONE_DAY.EndUtc()) == [Reading(10, None)]
  {
    var lines := [Reading(10, None)];
    assert lines[..0] == [] && lines[1..] == [];
    assert DayLines(lines[..0], day, 0) == [] && UntilEnd(lines[1..], ONE_DAY.EndUtc()) == [];
  }

  lemma RebuiltStoreIsBuilt()
    ensures Built(SMALL_ARCHIVE, ONE_DAY, STALE_STORE, REBUILT_STORE)
  {
    forall key
      ensures Lookup(REBUILT_STORE, key) == AfterBuild(SMALL_ARCHIVE, ONE_DAY, Lookup(STALE_STORE, key), key)
    {
      SmallArchiveDayLines(key.day);
      var before := Lookup(STALE_STORE, key);
      assert SMALL_ARCHIVE[..0] == [];
      assert AfterBuild(SMALL_ARCHIVE[..0], ONE_DAY, before, key) == before;
    }
  }

  lemma RebuiltRootIsListed()
    ensures ListsDay(REBUILT_ROOT, REBUILT_STORE, 0) && Leftover(SMALL_ARCHIVE, REBUILT_ROOT, 0, 0, 1)
    ensures Holds(REBUILT_ROOT, 0, 30, 1, 0) && WithinDay(0, 0, 0, 30)
  {
    assert REBUILT_ROOT[0].path == 1 && REBUILT_ROOT[1].path == 7;
  }

  /** Overwriting does not clear a directory: a file that the archive no longer has for the
      day survives the build and is replayed. */
  lemma StaleFileIsReplayed()
    ensures Built(SMALL_ARCHIVE, ONE_DAY, STALE_STORE, REBUILT_STORE) && ListsDay(REBUILT_ROOT, REBUILT_STORE, 0)
    ensures EventsOf(WindowRows(REBUILT_ROOT, 0, 30)) != CopiesOf(SMALL_ARCHIVE, 0, 0, WindowRows(SMALL_ARCHIVE, 0, 30))
  {
    RebuiltStoreIsBuilt();
    RebuiltRootIsListed();
    LeftoverIsNoCopy(SMALL_ARCHIVE, REBUILT_ROOT, 0, 0, 0, 30, 1, 0);
  }

  /** Line p of the file carries a value. */
  predicate ReadingAt(lines: seq<Line>, p: nat) {
    p < |lines| && lines[p].Reading?
  }

  /** Two rows of two copies of one file have the same source event id, which is made of the
      run, the path and the line number. */
  predicate SameEventId(a: Row, b: Row) {
    a.path == b.path && a.number == b.number
  }

  lemma CopyRow(path: nat, lines: seq<Line>, p: nat)
    requires ReadingAt(lines, p)
    ensures RowAt(SourceFile(path, lines), 0, p) in ReadRows(SourceFile(path, lines), 0, None)
  {
    ReadFromElements(SourceFile(path, lines), 0, None, 0);
  }

  lemma RowIsCopy(path: nat, lines: seq<Line>, x: Row)
    requires x in ReadRows(SourceFile(path, lines), 0, None)
    ensures FIRST_ROW_NUMBER <= x.number && ReadingAt(lines, x.number - FIRST_ROW_NUMBER)
    ensures x == RowAt(SourceFile(path, lines), 0, x.number - FIRST_ROW_NUMBER)
  {
    ReadFromElements(SourceFile(path, lines), 0, None, 0);
  }

  /** The copies of one file in two days' caches share a source event id if and only if some
      line number carries a reading in both; copies that share one have different timestamps. */
  lemma SharedEventIdIff(f: SourceFile, first: int, second: int, offset: int)
    requires first != second
    ensures var early, late := DayLines(f.lines, first, offset), DayLines(f.lines, second, offset);
            var a, b := ReadRows(SourceFile(f.path, early), 0, None), ReadRows(SourceFile(f.path, late), 0, None);
            && ((exists x, y :: x in a && y in b && SameEventId(x, y))
                <==> exists p: nat :: ReadingAt(early, p) && ReadingAt(late, p))
            && (forall x, y :: x in a && y in b && SameEventId(x, y) ==> x.ts != y.ts)
  {
    var early, late := DayLines(f.lines, first, offset), DayLines(f.lines, second, offset);
    var a, b := ReadRows(SourceFile(f.path, early), 0, None), ReadRows(SourceFile(f.path, late), 0, None);
    forall x, y | x in a && y in b && SameEventId(x, y)
      ensures ReadingAt(early, x.number - FIRST_ROW_NUMBER) && ReadingAt(late, x.number - FIRST_ROW_NUMBER)
      ensures x.ts != y.ts
    {
      RowIsCopy(f.path, early, x);
      RowIsCopy(f.path, late, y);
      var i := DayLineOrigin(f.lines, first, offset, x.number - FIRST_ROW_NUMBER);
      var j := DayLineOrigin(f.lines, second, offset, x.number - FIRST_ROW_NUMBER);
    }
    if p: nat :| ReadingAt(early, p) && ReadingAt(late, p) {
      CopyRow(f.path, early, p);
      CopyRow(f.path, late, p);
      var x, y := RowAt(SourceFile(f.path, early), 0, p), RowAt(SourceFile(f.path, late), 0, p);
      assert x in a && y in b && SameEventId(x, y);
    }
    if x, y :| x in a && y in b && SameEventId(x, y) {
      RowIsCopy(f.path, early, x);
      assert ReadingAt(early, x.number - FIRST_ROW_NUMBER) && ReadingAt(late, x.number - FIRST_ROW_NUMBER);
    }
  }

  /** The cached copies of one file restart their line numbers every day, so the first copies
      of two days post different readings under one source event id. */
  lemma CachedIdsRestart(f: SourceFile, first: int, second: int, offset: int)
    requires first != second
    requires DayLines(f.lines, first, offset) != [] && DayLines(f.lines, first, offset)[0].Reading?
    requires DayLines(f.lines, second, offset) != [] && DayLines(f.lines, second, offset)[0].Reading?
    ensures var a := ReadRows(SourceFile(f.path, DayLines(f.lines, first, offset)), 0, None);
            var b := ReadRows(SourceFile(f.path, DayLines(f.lines, second, offset)), 0, None);
            && a != [] && b != []
            && a[0].path == b[0].path && a[0].number == b[0].number && a[0].ts != b[0].ts
  {
    var i := DayLineOrigin(f.lines, first, offset, 0);
    var j := DayLineOrigin(f.lines, second, offset, 0);
  }
}
