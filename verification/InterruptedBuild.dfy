/** Replaying from a cache directory that a build left, wherever the build stopped: what part of
    the archive it stands for, and exactly when a chunk from it is the archive's chunk. */
module InterruptedBuild {
  import opened Wrappers
  import opened SourceRows
  import opened Merge
  import opened MergeMeaning
  import opened Injector
  import opened Supervisor
  import opened DayCache
  import opened CacheReplay
  import opened CacheBuild

  /** How far a build got: through this many files and this many lines of the next one. */
  datatype Reach = Reach(files: nat, lines: nat) {
    predicate Within(archive: seq<SourceFile>) {
      files <= |archive| && (files < |archive| ==> lines <= |archive[files].lines|)
    }

    /** Line i of file j was split. */
    predicate Covers(j: nat, i: nat) {
      j < files || (j == files && i < lines)
    }

    predicate CoversRow(x: Row) {
      FIRST_ROW_NUMBER <= x.number && Covers(x.sequence, x.number - FIRST_ROW_NUMBER)
    }
  }

  /** The part of the archive that a build which stopped there has split. */
  function SplitPart(archive: seq<SourceFile>, reach: Reach): seq<SourceFile>
    requires reach.Within(archive)
  {
    if reach.files == |archive| then archive
    else
      var last := archive[reach.files];
      archive[..reach.files] + [SourceFile(last.path, last.lines[..reach.lines])]
  }

  lemma SplitPartSorted(archive: seq<SourceFile>, reach: Reach)
    requires reach.Within(archive) && PathOrder(archive) && AllTimeSorted(archive)
    ensures PathOrder(SplitPart(archive, reach)) && AllTimeSorted(SplitPart(archive, reach))
  {
    var part := SplitPart(archive, reach);
    forall j | 0 <= j < |part|
      ensures part[j].path == archive[j].path && TimeSorted(part[j].lines)
    {
    }
  }

  lemma SplitReading(archive: seq<SourceFile>, reach: Reach, lo: int, hi: int, j: nat, i: nat)
    requires reach.Within(archive)
    ensures var part := SplitPart(archive, reach);
            && (Holds(part, lo, hi, j, i) <==> Holds(archive, lo, hi, j, i) && reach.Covers(j, i))
            && (Holds(part, lo, hi, j, i) ==> RowAt(part[j], j, i) == RowAt(archive[j], j, i))
  {
  }

  /** The rows of a stream that were split. */
  function Kept(rows: seq<Row>, reach: Reach): seq<Row> {
    if rows == [] then []
    else if reach.CoversRow(rows[0]) then [rows[0]] + Kept(rows[1..], reach)
    else Kept(rows[1..], reach)
  }

  lemma {:induction false} KeptElements(rows: seq<Row>, reach: Reach, x: Row)
    ensures x in Kept(rows, reach) <==> x in rows && reach.CoversRow(x)
  {
    if rows != [] {
      KeptElements(rows[1..], reach, x);
      assert rows == [rows[0]] + rows[1..];
    }
  }

  lemma {:induction false} KeptAscending(rows: seq<Row>, reach: Reach)
    requires Ascending(rows)
    ensures Ascending(Kept(rows, reach))
  {
    if rows != [] {
      KeptAscending(rows[1..], reach);
      forall x | x in Kept(rows[1..], reach)
        ensures RowLess(rows[0], x)
      {
        KeptElements(rows[1..], reach, x);
      }
      var rest := Kept(rows[1..], reach);
      assert forall k :: 0 <= k < |rest| ==> rest[k] in rest;
    }
  }

  lemma SplitWindowElements(archive: seq<SourceFile>, reach: Reach, lo: int, hi: int, x: Row)
    requires reach.Within(archive)
    ensures x in WindowRows(SplitPart(archive, reach), lo, hi)
            <==> x in WindowRows(archive, lo, hi) && reach.CoversRow(x)
  {
    WindowRowsElements(SplitPart(archive, reach), lo, hi, x);
    WindowRowsElements(archive, lo, hi, x);
    if FIRST_ROW_NUMBER <= x.number {
      SplitReading(archive, reach, lo, hi, x.sequence, x.number - FIRST_ROW_NUMBER);
    }
  }

  /** The split part's window is the archive's window without the rows that were not split. */
  lemma WindowOfSplitPart(archive: seq<SourceFile>, reach: Reach, lo: int, hi: int)
    requires reach.Within(archive) && PathOrder(archive) && AllTimeSorted(archive) && lo <= hi
    ensures WindowRows(SplitPart(archive, reach), lo, hi) == Kept(WindowRows(archive, lo, hi), reach)
  {
    var part, rows := SplitPart(archive, reach), WindowRows(archive, lo, hi);
    SplitPartSorted(archive, reach);
    WindowEventsAscending(part, lo, hi);
    WindowEventsAscending(archive, lo, hi);
    KeptAscending(rows, reach);
    forall x
      ensures x in WindowRows(part, lo, hi) <==> x in Kept(rows, reach)
    {
      KeptElements(rows, reach, x);
      SplitWindowElements(archive, reach, lo, hi, x);
    }
    AscendingUnique(WindowRows(part, lo, hi), Kept(rows, reach));
  }

  /** Ascending rows under line numbers, those of one path from one file. */
  ghost predicate WindowLike(rows: seq<Row>) {
    && Ascending(rows)
    && (forall i :: 0 <= i < |rows| ==> FIRST_ROW_NUMBER <= rows[i].number)
    && (forall i, j :: 0 <= i < j < |rows| && rows[i].path == rows[j].path ==> rows[i].sequence == rows[j].sequence)
  }

  lemma WindowIsWindowLike(archive: seq<SourceFile>, lo: int, hi: int)
    requires PathOrder(archive) && AllTimeSorted(archive) && lo <= hi
    ensures WindowLike(WindowRows(archive, lo, hi))
  {
    var rows := WindowRows(archive, lo, hi);
    WindowEventsAscending(archive, lo, hi);
    forall i | 0 <= i < |rows|
      ensures FIRST_ROW_NUMBER <= rows[i].number
      ensures rows[i].sequence < |archive| && rows[i].path == archive[rows[i].sequence].path
    {
      WindowRowsElements(archive, lo, hi, rows[i]);
    }
  }

  lemma TailIsWindowLike(rows: seq<Row>)
    requires WindowLike(rows) && rows != []
    ensures WindowLike(rows[1..])
  {
  }

  /** A split row after one that was not split posts something else. */
  lemma LaterSplitRowDiffers(reach: Reach, x: Row, y: Row)
    requires RowLess(x, y) && !reach.CoversRow(x) && reach.CoversRow(y) && FIRST_ROW_NUMBER <= x.number
    requires x.path == y.path ==> x.sequence == y.sequence
    ensures PostOf(x) != PostOf(y)
  {
  }

  /** Taking the head off both sides of two windows that start with it. */
  lemma HeadCancels(head: Row, kept: seq<Row>, tail: seq<Row>, n: nat)
    requires n > 0
    ensures Posted(Take([head] + kept, n)) == Posted(Take([head] + tail, n))
            <==> Posted(Take(kept, n - 1)) == Posted(Take(tail, n - 1))
  {
    TakeHead(head, kept, n);
    TakeHead(head, tail, n);
    HeadPosted(head, Take(kept, n - 1));
    HeadPosted(head, Take(tail, n - 1));
    var a, b := Posted(Take(kept, n - 1)), Posted(Take(tail, n - 1));
    assert ([PostOf(head)] + a)[1..] == a && ([PostOf(head)] + b)[1..] == b;
  }

  lemma HeadPosted(head: Row, rest: seq<Row>)
    ensures Posted([head] + rest) == [PostOf(head)] + Posted(rest)
  {
  }

  /** Windows that start with different posts differ. */
  lemma HeadsDiffer(kept: seq<Row>, rows: seq<Row>, n: nat)
    requires n > 0 && rows != [] && (kept != [] ==> PostOf(kept[0]) != PostOf(rows[0]))
    ensures Posted(Take(kept, n)) != Posted(Take(rows, n))
  {
    assert Posted(Take(rows, n))[0] == PostOf(rows[0]);
    if kept != [] {
      assert Posted(Take(kept, n))[0] == PostOf(kept[0]);
    }
  }

  ghost predicate AllCovered(rows: seq<Row>, reach: Reach) {
    forall x :: x in rows ==> reach.CoversRow(x)
  }

  lemma TakeCovered(rows: seq<Row>, reach: Reach, n: nat)
    requires rows != [] && n > 0
    ensures AllCovered(Take(rows, n), reach) <==> reach.CoversRow(rows[0]) && AllCovered(Take(rows[1..], n - 1), reach)
  {
    assert rows == [rows[0]] + rows[1..];
    TakeHead(rows[0], rows[1..], n);
  }

  lemma FirstKeptDiffers(rows: seq<Row>, reach: Reach)
    requires WindowLike(rows) && rows != [] && !reach.CoversRow(rows[0])
    ensures var kept := Kept(rows, reach);
            kept != [] ==> PostOf(kept[0]) != PostOf(rows[0])
  {
    var kept := Kept(rows, reach);
    if kept != [] {
      KeptElements(rows, reach, kept[0]);
      var k :| 0 <= k < |rows| && rows[k] == kept[0];
      LaterSplitRowDiffers(reach, rows[0], kept[0]);
    }
  }

  ghost predicate PostsSurvive(rows: seq<Row>, reach: Reach, n: nat) {
    Posted(Take(Kept(rows, reach), n)) == Posted(Take(rows, n))
  }

  lemma CoveredHead(rows: seq<Row>, reach: Reach, n: nat)
    requires rows != [] && n > 0 && reach.CoversRow(rows[0])
    ensures PostsSurvive(rows, reach, n) <==> PostsSurvive(rows[1..], reach, n - 1)
  {
    assert rows == [rows[0]] + rows[1..];
    HeadCancels(rows[0], Kept(rows[1..], reach), rows[1..], n);
  }

  lemma UncoveredHead(rows: seq<Row>, reach: Reach, n: nat)
    requires WindowLike(rows) && rows != [] && n > 0 && !reach.CoversRow(rows[0])
    ensures !PostsSurvive(rows, reach, n)
  {
    FirstKeptDiffers(rows, reach);
    HeadsDiffer(Kept(rows, reach), rows, n);
  }

  /** The first n posts survive dropping the rows that were not split if and only if all of
      their rows were split. */
  lemma {:induction false} KeptPostsIff(rows: seq<Row>, reach: Reach, n: nat)
    requires WindowLike(rows)
    ensures PostsSurvive(rows, reach, n) <==> AllCovered(Take(rows, n), reach)
  {
    if rows != [] && n > 0 {
      TakeCovered(rows, reach, n);
      if reach.CoversRow(rows[0]) {
        TailIsWindowLike(rows);
        KeptPostsIff(rows[1..], reach, n - 1);
        CoveredHead(rows, reach, n);
      } else {
        UncoveredHead(rows, reach, n);
      }
    }
  }

  /** A chunk from what a build has split posts what the archive posts if and only if every row
      of the archive's chunk was split. */
  lemma SplitChunkIff(archive: seq<SourceFile>, reach: Reach, c: Config, start: int)
    requires reach.Within(archive) && PathOrder(archive) && AllTimeSorted(archive) && c.Valid() && start < c.targetEnd
    ensures Posted(ChunkPosts(SplitPart(archive, reach), c, start)) == Posted(ChunkPosts(archive, c, start))
            <==> AllCovered(ChunkPosts(archive, c, start), reach)
  {
    var end := ChunkEnd(c, start);
    var rows := WindowRows(archive, start, end);
    ChunkEndBounds(c, start);
    SplitPartSorted(archive, reach);
    ReplayEmitsWindow(archive, c.maxEvents, start, end);
    ReplayEmitsWindow(SplitPart(archive, reach), c.maxEvents, start, end);
    WindowOfSplitPart(archive, reach, start, end);
    WindowIsWindowLike(archive, start, end);
    KeptPostsIff(rows, reach, c.maxEvents);
  }

  // ----- Chunks from the day's directory -------------------------------------------------

  /** An overwriting build of the day, which stopped at the reach, over earlier files that were
      sorted, and what discovery lists afterwards. */
  ghost predicate DayBuilt(archive: seq<SourceFile>, reach: Reach, args: BuildArgs, before: Store, after: Store,
                           root: seq<SourceFile>, day: int, offset: int) {
    && reach.Within(archive) && args.overwrite && args.offset == offset && args.startDay <= day <= args.endDay
    && Built(SplitPart(archive, reach), args, before, after) && ListsDay(root, after, day)
    && forall key :: key in before && key.day == day ==> TimeSorted(before[key])
  }

  /** Replaying a chunk from the directory of its day, wherever the build of that directory
      stopped, posts what the archive posts if and only if every row of the archive's chunk was
      split, given that no leftover file has a reading in the chunk. */
  lemma CachedChunkIff(archive: seq<SourceFile>, reach: Reach, args: BuildArgs, before: Store, after: Store,
                       root: seq<SourceFile>, c: Config, start: int)
    requires PathOrder(archive) && AllTimeSorted(archive) && c.Valid() && c.dayCache && start < c.targetEnd
    requires DayBuilt(archive, reach, args, before, after, root, LocalDay(start, c.offset), c.offset)
    requires var day := LocalDay(start, c.offset);
             !LeftoverReplayed(SplitPart(archive, reach), root, day, c.offset, start, ChunkEnd(c, start))
    ensures Posted(ChunkPosts(root, c, start)) == Posted(ChunkPosts(archive, c, start))
            <==> AllCovered(ChunkPosts(archive, c, start), reach)
  {
    var part := SplitPart(archive, reach);
    SplitPartSorted(archive, reach);
    ChunkFromCacheIsChunkFromArchive(part, args, before, after, root, c, start);
    SamePosted(part, LocalDay(start, c.offset), c.offset, ChunkPosts(root, c, start), ChunkPosts(part, c, start));
    SplitChunkIff(archive, reach, c, start);
  }

  // ----- The choice of the root ----------------------------------------------------------

  /** The cache directories that exist, by local day, with what discovery lists in them. */
  type Roots = map<int, seq<SourceFile>>

  /** source_root_for_start: the directory of start's local day if day caching is on and that
      directory exists, the archive otherwise. */
  function SourceRoot(archive: seq<SourceFile>, roots: Roots, c: Config, start: int): seq<SourceFile> {
    var day := LocalDay(start, c.offset);
    if c.dayCache && day in roots then roots[day] else archive
  }

  /** Replaying [lo, hi) from the directory of the day, if there is one, loses and adds nothing:
      every archive reading of the window was split, and no leftover file has one. */
  ghost predicate DayServed(archive: seq<SourceFile>, reach: Reach, args: BuildArgs, before: Store, after: Store,
                            roots: Roots, day: int, offset: int, lo: int, hi: int) {
    day in roots ==>
      && DayBuilt(archive, reach, args, before, after, roots[day], day, offset)
      && (forall j, i :: 0 <= j && 0 <= i && Holds(archive, lo, hi, j, i) ==> reach.Covers(j, i))
      && !LeftoverReplayed(SplitPart(archive, reach), roots[day], day, offset, lo, hi)
  }

  /** Whichever root the supervisor chooses, a chunk inside the served window posts the same
      readings in the same order, up to their line numbers. */
  lemma ChosenRootPostsTheChunk(archive: seq<SourceFile>, reach: Reach, args: BuildArgs, before: Store, after: Store,
                                roots: Roots, c: Config, start: int, lo: int, hi: int)
    requires PathOrder(archive) && AllTimeSorted(archive) && c.Valid() && lo <= start < c.targetEnd
    requires ChunkEnd(c, start) <= hi
    requires c.dayCache ==>
               DayServed(archive, reach, args, before, after, roots, LocalDay(start, c.offset), c.offset, lo, hi)
    ensures Posted(ChunkPosts(SourceRoot(archive, roots, c, start), c, start)) == Posted(ChunkPosts(archive, c, start))
  {
    if c.dayCache && LocalDay(start, c.offset) in roots {
      var root, part := roots[LocalDay(start, c.offset)], SplitPart(archive, reach);
      LeftoverInPart(part, root, LocalDay(start, c.offset), c.offset, start, ChunkEnd(c, start), lo, hi);
      ChunkCovered(archive, reach, c, start, lo, hi);
      CachedChunkIff(archive, reach, args, before, after, root, c, start);
    }
  }

  lemma LeftoverInPart(archive: seq<SourceFile>, root: seq<SourceFile>, day: int, offset: int,
                       start: int, end: int, lo: int, hi: int)
    requires lo <= start && end <= hi
    ensures LeftoverReplayed(archive, root, day, offset, start, end) ==>
              LeftoverReplayed(archive, root, day, offset, lo, hi)
  {
    if j, i :| 0 <= j < |root| && Leftover(archive, root, day, offset, j) && Holds(root, start, end, j, i) {
      assert Holds(root, lo, hi, j, i);
    }
  }

  lemma ChunkCovered(archive: seq<SourceFile>, reach: Reach, c: Config, start: int, lo: int, hi: int)
    requires AllTimeSorted(archive) && lo <= start && ChunkEnd(c, start) <= hi
    requires forall j, i :: 0 <= j && 0 <= i && Holds(archive, lo, hi, j, i) ==> reach.Covers(j, i)
    ensures AllCovered(ChunkPosts(archive, c, start), reach)
  {
    ReplayEmitsWindow(archive, c.maxEvents, start, ChunkEnd(c, start));
    forall x | x in ChunkPosts(archive, c, start)
      ensures reach.CoversRow(x)
    {
      WindowRowsElements(archive, start, ChunkEnd(c, start), x);
      assert Holds(archive, lo, hi, x.sequence, x.number - FIRST_ROW_NUMBER);
    }
  }
}
