/** Whole supervisor runs that replay each chunk from the cache directory of its local day. */
module CachedRun {
  import opened Wrappers
  import opened SourceRows
  import opened Merge
  import opened MergeMeaning
  import opened Injector
  import opened Supervisor
  import opened DayCache
  import opened CacheReplay
  import opened CacheBuild
  import opened InterruptedBuild

  /** With day caching on, replaying the target window's part of its first local day from that
      day's directory, if there is one, loses and adds nothing. Other days may hold anything. */
  ghost predicate FirstDayServed(archive: seq<SourceFile>, reach: Reach, args: BuildArgs, before: Store, after: Store,
                                 roots: Roots, c: Config) {
    && PathOrder(archive) && AllTimeSorted(archive) && c.Valid()
    && (c.dayCache ==>
          DayServed(archive, reach, args, before, after, roots, LocalDay(c.targetStart, c.offset), c.offset,
                    c.targetStart, NextLocalMidnight(c.targetStart, c.offset)))
  }

  ghost function AfterChosenChunk(archive: seq<SourceFile>, roots: Roots, c: Config,
                                  posted: seq<Row>, crashAfter: Option<nat>): seq<Row> {
    var start := ChooseResumeStart(c, posted);
    posted + Survivors(ChunkPosts(SourceRoot(archive, roots, c, start), c, start), crashAfter)
  }

  /** The ledger after a run whose every chunk chooses between cache and archive. */
  ghost function AfterCachedRun(archive: seq<SourceFile>, roots: Roots, c: Config,
                                posted: seq<Row>, crashes: seq<Option<nat>>): seq<Row>
    decreases |crashes|
  {
    if crashes == [] then posted
    else AfterCachedRun(archive, roots, c, AfterChosenChunk(archive, roots, c, posted, crashes[0]),
                        crashes[1..])
  }

  /** The supervisor with its choice between cache and archive. */
  class CachedSession {
    var posted: seq<Row>

    constructor ()
      ensures posted == []
    {
      posted := [];
    }

    /** One turn of the supervisor loop from whichever root is chosen. */
    method RunChunk(archive: seq<SourceFile>, roots: Roots, c: Config, scale: real,
                    crashAfter: Option<nat>)
      returns (complete: bool)
      requires c.Valid() && scale > 0.0
      modifies this
      ensures complete <==> c.targetEnd <= ChooseResumeStart(c, old(posted))
      ensures posted == if complete then old(posted)
                        else AfterChosenChunk(archive, roots, c, old(posted), crashAfter)
      ensures !complete ==>
                var start := ChooseResumeStart(c, old(posted));
                var day := LocalDay(start, c.offset);
                && (c.dayCache && day in roots ==>
                      posted == old(posted) + Survivors(ChunkPosts(roots[day], c, start), crashAfter))
                && (!c.dayCache || day !in roots ==>
                      posted == old(posted) + Survivors(ChunkPosts(archive, c, start), crashAfter))
    {
      var start := ChooseResumeStart(c, posted);
      if start >= c.targetEnd {
        return true;
      }
      var merged := BoundedMerge(SourceRoot(archive, roots, c, start), Some(start));
      var emitted, _ := Run(merged, c.maxEvents, Some(start), Some(ChunkEnd(c, start)), 0, scale);
      posted := posted + Survivors(emitted, crashAfter);
      complete := false;
    }

    /** The loop; crashes says where each chunk is cut, if it is. */
    method RunSupervisor(archive: seq<SourceFile>, roots: Roots, c: Config, scale: real,
                         crashes: seq<Option<nat>>)
      returns (complete: bool)
      requires c.Valid() && scale > 0.0
      modifies this
      ensures !complete
      ensures posted == AfterCachedRun(archive, roots, c, old(posted), crashes)
    {
      ghost var before := posted;
      var i := 0;
      complete := false;
      while i < |crashes|
        invariant 0 <= i <= |crashes| && !complete
        invariant AfterCachedRun(archive, roots, c, posted, crashes[i..])
               == AfterCachedRun(archive, roots, c, before, crashes)
      {
        NeverComplete(c, posted);
        OneChunkMore(archive, roots, c, posted, crashes, i);
        complete := RunChunk(archive, roots, c, scale, crashes[i]);
        i := i + 1;
      }
    }
  }

  lemma OneChunkMore(archive: seq<SourceFile>, roots: Roots, c: Config, posted: seq<Row>, crashes: seq<Option<nat>>,
                     i: nat)
    requires i < |crashes|
    ensures AfterCachedRun(archive, roots, c, posted, crashes[i..])
         == AfterCachedRun(archive, roots, c, AfterChosenChunk(archive, roots, c, posted, crashes[i]), crashes[i + 1..])
  {
    assert crashes[i..][0] == crashes[i] && crashes[i..][1..] == crashes[i + 1..];
  }

  // ----- Day caching never leaves the first local day ------------------------------------

  ghost predicate StaysInFirstDay(c: Config, posted: seq<Row>) {
    c.dayCache ==> forall x :: x in posted ==> x.ts < NextLocalMidnight(c.targetStart, c.offset)
  }

  lemma ResumeInFirstDay(c: Config, posted: seq<Row>)
    requires c.Valid() && c.dayCache && StaysInFirstDay(c, posted)
    ensures LocalDay(ChooseResumeStart(c, posted), c.offset) == LocalDay(c.targetStart, c.offset)
  {
    NeverComplete(c, posted);
    LatestEventIsMaximum(c, posted);
    MidnightBoundsTheDay(c.targetStart, ChooseResumeStart(c, posted), c.offset);
  }

  lemma ChunkStaysInFirstDay(rows: seq<Row>, c: Config, posted: seq<Row>, crashAfter: Option<nat>)
    requires c.Valid() && StaysInFirstDay(c, posted)
    ensures StaysInFirstDay(c, AfterChunk(rows, c, posted, crashAfter))
  {
    if c.dayCache {
      var start := ChooseResumeStart(c, posted);
      ResumeInFirstDay(c, posted);
      MidnightBoundsTheDay(start, start, c.offset);
      forall x | x in ChunkRows(rows, c, start)
        ensures x.ts < NextLocalMidnight(c.targetStart, c.offset)
      {
        InWindowElements(rows, start, ChunkEnd(c, start), x);
      }
    }
  }

  // ----- Cached runs against archive runs ------------------------------------------------

  /** Resuming looks at timestamps alone, so line numbers do not move it. */
  lemma ResumeIgnoresNumbers(c: Config, cached: seq<Row>, direct: seq<Row>)
    requires Posted(cached) == Posted(direct)
    ensures ChooseResumeStart(c, cached) == ChooseResumeStart(c, direct)
  {
    LatestIgnoresNumbers(c, cached, direct);
  }

  lemma {:induction false} LatestIgnoresNumbers(c: Config, cached: seq<Row>, direct: seq<Row>)
    requires Posted(cached) == Posted(direct)
    ensures LatestEvent(c, cached) == LatestEvent(c, direct)
  {
    assert |cached| == |direct|;
    if cached != [] {
      var last := |cached| - 1;
      assert Posted(cached)[last] == Posted(direct)[last];
      assert Posted(cached[..last]) == Posted(cached)[..last] && Posted(direct[..last]) == Posted(direct)[..last];
      LatestIgnoresNumbers(c, cached[..last], direct[..last]);
    }
  }

  /** One chunk keeps the two ledgers equal up to line numbers, crashed at the same post. */
  lemma ChosenChunkFollows(archive: seq<SourceFile>, reach: Reach, args: BuildArgs, before: Store, after: Store,
                           roots: Roots,
                           c: Config,
                           cached: seq<Row>, direct: seq<Row>, crashAfter: Option<nat>)
    requires FirstDayServed(archive, reach, args, before, after, roots, c)
    requires Posted(cached) == Posted(direct) && StaysInFirstDay(c, direct)
    ensures Posted(AfterChosenChunk(archive, roots, c, cached, crashAfter))
         == Posted(AfterChunk(MergedRows(archive, None), c, direct, crashAfter))
  {
    var start := ChooseResumeStart(c, cached);
    ResumeIgnoresNumbers(c, cached, direct);
    NeverComplete(c, cached);
    if c.dayCache {
      ResumeInFirstDay(c, direct);
    }
    MidnightBoundsTheDay(c.targetStart, start, c.offset);
    ChosenRootPostsTheChunk(archive, reach, args, before, after, roots, c, start, c.targetStart,
                            if c.dayCache then NextLocalMidnight(c.targetStart, c.offset) else ChunkEnd(c, start));
    ReplayEmitsWindow(archive, c.maxEvents, start, ChunkEnd(c, start));
    var left := ChunkPosts(SourceRoot(archive, roots, c, start), c, start);
    var right := ChunkRows(MergedRows(archive, None), c, start);
    SurvivorsIgnoreNumbers(left, right, crashAfter);
    PostedAppend(cached, Survivors(left, crashAfter));
    PostedAppend(direct, Survivors(right, crashAfter));
  }

  lemma PostedAppend(xs: seq<Row>, ys: seq<Row>)
    ensures Posted(xs + ys) == Posted(xs) + Posted(ys)
  {
  }

  lemma SurvivorsIgnoreNumbers(left: seq<Row>, right: seq<Row>, crashAfter: Option<nat>)
    requires Posted(left) == Posted(right)
    ensures Posted(Survivors(left, crashAfter)) == Posted(Survivors(right, crashAfter))
  {
    assert |left| == |right|;
    if crashAfter.Some? && crashAfter.value < |left| {
      var n := crashAfter.value;
      assert Posted(left[..n]) == Posted(left)[..n] && Posted(right[..n]) == Posted(right)[..n];
    }
  }

  lemma {:induction false} CachedRunFollows(archive: seq<SourceFile>, reach: Reach, args: BuildArgs, before: Store,
                                            after: Store,
                                            roots: Roots,
                                            c: Config, cached: seq<Row>, direct: seq<Row>, crashes: seq<Option<nat>>)
    requires FirstDayServed(archive, reach, args, before, after, roots, c)
    requires Posted(cached) == Posted(direct) && StaysInFirstDay(c, direct)
    ensures Posted(AfterCachedRun(archive, roots, c, cached, crashes))
         == Posted(AfterRun(MergedRows(archive, None), c, direct, crashes))
    decreases |crashes|
  {
    if crashes != [] {
      ChosenChunkFollows(archive, reach, args, before, after, roots, c, cached, direct, crashes[0]);
      ChunkStaysInFirstDay(MergedRows(archive, None), c, direct, crashes[0]);
      CachedRunFollows(archive, reach, args, before, after, roots, c,
                       AfterChosenChunk(archive, roots, c, cached, crashes[0]),
                       AfterChunk(MergedRows(archive, None), c, direct, crashes[0]), crashes[1..]);
    }
  }

  /** Over every run, however often and wherever it crashes, choosing between day cache and
      archive for every chunk posts what replaying from the archive posts, post for post, up to line numbers. */
  lemma CachedRunIsArchiveRun(archive: seq<SourceFile>, reach: Reach, args: BuildArgs, before: Store, after: Store,
                              roots: Roots,
                              c: Config, crashes: seq<Option<nat>>)
    requires FirstDayServed(archive, reach, args, before, after, roots, c)
    ensures Posted(AfterCachedRun(archive, roots, c, [], crashes))
         == Posted(AfterRun(MergedRows(archive, None), c, [], crashes))
  {
    CachedRunFollows(archive, reach, args, before, after, roots, c, [], [], crashes);
  }

  /** Resume safety over day caches: every eligible archive row stamped before the resume point
      of a cached run has its post in the ledger, and the ledger has nothing else. */
  lemma CachedResumeSkipsNothing(archive: seq<SourceFile>, reach: Reach, args: BuildArgs, before: Store, after: Store,
                                 roots: Roots,
                                 c: Config, crashes: seq<Option<nat>>)
    requires FirstDayServed(archive, reach, args, before, after, roots, c)
    ensures var rows, posted := MergedRows(archive, None), AfterCachedRun(archive, roots, c, [], crashes);
            && (forall x :: x in rows && Eligible(c, x) && x.ts < ChooseResumeStart(c, posted) ==>
                 PostOf(x) in Posted(posted))
            && (forall p :: p in Posted(posted) ==> exists x :: x in rows && Eligible(c, x) && PostOf(x) == p)
  {
    var rows, posted := MergedRows(archive, None), AfterCachedRun(archive, roots, c, [], crashes);
    var direct := AfterRun(rows, c, [], crashes);
    CachedRunIsArchiveRun(archive, reach, args, before, after, roots, c, crashes);
    ResumeIgnoresNumbers(c, posted, direct);
    MergedAscending(archive, None);
    forall x | x in rows && Eligible(c, x) && x.ts < ChooseResumeStart(c, posted)
      ensures PostOf(x) in Posted(posted)
    {
      ResumeSkipsNothing(rows, c, crashes, x);
      var k :| 0 <= k < |direct| && direct[k] == x;
      assert Posted(direct)[k] == PostOf(x);
    }
    forall p | p in Posted(posted)
      ensures exists x :: x in rows && Eligible(c, x) && PostOf(x) == p
    {
      var k :| 0 <= k < |direct| && Posted(direct)[k] == p;
      ResumeSkipsNothing(rows, c, crashes, direct[k]);
      assert direct[k] in direct;
    }
  }

  // ----- What the day's directory changes ------------------------------------------------

  /** Rows are emitted from the window only, whatever order the stream has. */
  lemma EmittedInWindow(rows: seq<Row>, cap: nat, lo: int, hi: int, x: Row)
    requires x in Emission(rows, cap, Some(lo), Some(hi), 0)
    ensures lo <= x.ts < hi
  {
    if rows != [] {
      var m, positions := EmissionByPosition(rows, cap, Some(lo), Some(hi), 0);
      var k :| 0 <= k < |Emission(rows, cap, Some(lo), Some(hi), 0)|
      && Emission(rows, cap, Some(lo), Some(hi), 0)[k] == x;
      assert positions[k] in positions;
    }
  }

  lemma FileChunkStaysInFirstDay(files: seq<SourceFile>, c: Config, posted: seq<Row>, crashAfter: Option<nat>)
    requires c.Valid() && c.dayCache && StaysInFirstDay(c, posted)
    ensures StaysInFirstDay(c, AfterFileChunk(files, c, posted, crashAfter))
  {
    var start := ChooseResumeStart(c, posted);
    ResumeInFirstDay(c, posted);
    MidnightBoundsTheDay(start, start, c.offset);
    forall x | x in ChunkPosts(files, c, start)
      ensures x.ts < NextLocalMidnight(c.targetStart, c.offset)
    {
      EmittedInWindow(MergedRows(files, Some(start)), c.maxEvents, start, ChunkEnd(c, start), x);
    }
  }

  lemma {:induction false} FirstDayRun(archive: seq<SourceFile>, roots: Roots, c: Config, posted: seq<Row>,
                                       crashes: seq<Option<nat>>)
    requires c.Valid() && StaysInFirstDay(c, posted)
    ensures var day := LocalDay(c.targetStart, c.offset);
            AfterCachedRun(archive, roots, c, posted, crashes)
            == AfterFileRun(if c.dayCache && day in roots then roots[day] else archive, c, posted, crashes)
    decreases |crashes|
  {
    if crashes != [] {
      if c.dayCache {
        ResumeInFirstDay(c, posted);
        FileChunkStaysInFirstDay(SourceRoot(archive, roots, c, c.targetStart), c, posted, crashes[0]);
      }
      FirstDayRun(archive, roots, c, AfterChosenChunk(archive, roots, c, posted, crashes[0]), crashes[1..]);
    }
  }

  /** A whole cached run, over any files and however it crashes, is the run over one root: the
      directory of the local day the target starts on if day caching is on and the directory
      exists, and the archive otherwise. No other day's directory is ever replayed. */
  lemma RunUsesFirstDayOnly(archive: seq<SourceFile>, roots: Roots, c: Config, crashes: seq<Option<nat>>)
    requires c.Valid()
    ensures var day := LocalDay(c.targetStart, c.offset);
            && (c.dayCache && day in roots ==>
                  AfterCachedRun(archive, roots, c, [], crashes) == AfterFileRun(roots[day], c, [], crashes))
            && (!c.dayCache || day !in roots ==>
                  AfterCachedRun(archive, roots, c, [], crashes) == AfterFileRun(archive, c, [], crashes))
  {
    FirstDayRun(archive, roots, c, [], crashes);
  }

  lemma PrefixOfSplitFile(archive: seq<SourceFile>, reach: Reach, j: nat, i: nat)
    requires reach.Within(archive) && j < |archive| && i < |archive[j].lines| && reach.Covers(j, i)
    ensures var part := SplitPart(archive, reach);
            j < |part| && i < |part[j].lines| && part[j].lines[..i] == archive[j].lines[..i]
  {
  }

  lemma CopyOfSplitRow(archive: seq<SourceFile>, reach: Reach, day: int, offset: int, x: Row)
    requires reach.Within(archive) && reach.CoversRow(x) && x.sequence < |archive|
    requires x.number < |archive[x.sequence].lines| + FIRST_ROW_NUMBER
    ensures CopyOf(SplitPart(archive, reach), day, offset, x) == CopyOf(archive, day, offset, x)
  {
    PrefixOfSplitFile(archive, reach, x.sequence, x.number - FIRST_ROW_NUMBER);
  }

  lemma SplitChunkIsChunk(archive: seq<SourceFile>, reach: Reach, c: Config, start: int)
    requires reach.Within(archive) && PathOrder(archive) && AllTimeSorted(archive) && c.Valid() && start < c.targetEnd
    requires forall x :: x in WindowRows(archive, start, ChunkEnd(c, start)) ==> reach.CoversRow(x)
    ensures ChunkPosts(SplitPart(archive, reach), c, start) == ChunkPosts(archive, c, start)
  {
    var end := ChunkEnd(c, start);
    ChunkEndBounds(c, start);
    SplitPartSorted(archive, reach);
    ReplayEmitsWindow(archive, c.maxEvents, start, end);
    ReplayEmitsWindow(SplitPart(archive, reach), c.maxEvents, start, end);
    WindowOfSplitPart(archive, reach, start, end);
    KeptAll(WindowRows(archive, start, end), reach);
  }

  lemma {:induction false} KeptAll(rows: seq<Row>, reach: Reach)
    requires forall x :: x in rows ==> reach.CoversRow(x)
    ensures Kept(rows, reach) == rows
  {
    if rows != [] {
      KeptAll(rows[1..], reach);
    }
  }

  /** With every archive reading of the window split, the day's directory, wherever its build
      stopped, gives the chunk as copies of the archive's rows. */
  lemma BuiltChunkPostsCopies(archive: seq<SourceFile>, reach: Reach, args: BuildArgs, before: Store, after: Store,
                              root: seq<SourceFile>, c: Config, start: int)
    requires PathOrder(archive) && AllTimeSorted(archive) && c.Valid() && c.dayCache && start < c.targetEnd
    requires DayBuilt(archive, reach, args, before, after, root, LocalDay(start, c.offset), c.offset)
    requires AllCovered(WindowRows(archive, start, ChunkEnd(c, start)), reach)
    requires !LeftoverReplayed(SplitPart(archive, reach), root, LocalDay(start, c.offset), c.offset, start,
                               ChunkEnd(c, start))
    ensures EventsOf(ChunkPosts(root, c, start))
         == CopiesOf(archive, LocalDay(start, c.offset), c.offset, ChunkPosts(archive, c, start))
  {
    var part := SplitPart(archive, reach);
    SplitPartSorted(archive, reach);
    SplitChunkIsChunk(archive, reach, c, start);
    ChunkFromCacheIsChunkFromArchive(part, args, before, after, root, c, start);
    PostsInWindow(archive, c, start);
    CopiesOfWindowRows(archive, reach, LocalDay(start, c.offset), c.offset, start, ChunkEnd(c, start),
                       ChunkPosts(archive, c, start));
  }

  lemma PostsInWindow(files: seq<SourceFile>, c: Config, start: int)
    requires AllTimeSorted(files)
    ensures forall k :: 0 <= k < |ChunkPosts(files, c, start)| ==>
              ChunkPosts(files, c, start)[k] in WindowRows(files, start, ChunkEnd(c, start))
  {
    ReplayEmitsWindow(files, c.maxEvents, start, ChunkEnd(c, start));
  }

  lemma CopiesOfWindowRows(archive: seq<SourceFile>, reach: Reach, day: int, offset: int, lo: int, hi: int,
                           rows: seq<Row>)
    requires reach.Within(archive) && AllCovered(WindowRows(archive, lo, hi), reach)
    requires forall k :: 0 <= k < |rows| ==> rows[k] in WindowRows(archive, lo, hi)
    ensures CopiesOf(SplitPart(archive, reach), day, offset, rows) == CopiesOf(archive, day, offset, rows)
  {
    forall k | 0 <= k < |rows|
      ensures CopyOf(SplitPart(archive, reach), day, offset, rows[k]) == CopyOf(archive, day, offset, rows[k])
    {
      CopyOfWindowRow(archive, reach, day, offset, lo, hi, rows[k]);
    }
  }

  lemma CopyOfWindowRow(archive: seq<SourceFile>, reach: Reach, day: int, offset: int, lo: int, hi: int, x: Row)
    requires reach.Within(archive) && x in WindowRows(archive, lo, hi) && reach.CoversRow(x)
    ensures CopyOf(SplitPart(archive, reach), day, offset, x) == CopyOf(archive, day, offset, x)
  {
    WindowRowsElements(archive, lo, hi, x);
    CopyOfSplitRow(archive, reach, day, offset, x);
  }

  lemma ServedWindowIsSplit(archive: seq<SourceFile>, reach: Reach, lo: int, hi: int)
    requires forall j, i :: 0 <= j && 0 <= i && Holds(archive, lo, hi, j, i) ==> reach.Covers(j, i)
    ensures AllCovered(WindowRows(archive, lo, hi), reach)
  {
    forall x | x in WindowRows(archive, lo, hi)
      ensures reach.CoversRow(x)
    {
      WindowRowsElements(archive, lo, hi, x);
    }
  }

  /** With day caching on and the start's day served from its directory, the next chunk posts, event
      for event, the copies of the archive's rows of the chunk: their times, paths and values under
      the line numbers of the copies. */
  lemma ServedChunkPostsCopies(archive: seq<SourceFile>, reach: Reach, args: BuildArgs, before: Store, after: Store,
                               roots: Roots, c: Config, posted: seq<Row>)
    requires PathOrder(archive) && AllTimeSorted(archive) && c.Valid() && c.dayCache
    requires var start := ChooseResumeStart(c, posted);
             var day := LocalDay(start, c.offset);
             && day in roots
             && DayServed(archive, reach, args, before, after, roots, day, c.offset, start, ChunkEnd(c, start))
    ensures var start := ChooseResumeStart(c, posted);
            EventsOf(AfterChosenChunk(archive, roots, c, posted, None)[|posted|..])
            == CopiesOf(archive, LocalDay(start, c.offset), c.offset, ChunkPosts(archive, c, start))
  {
    var start := ChooseResumeStart(c, posted);
    NeverComplete(c, posted);
    ServedWindowIsSplit(archive, reach, start, ChunkEnd(c, start));
    NextPosts(archive, roots, c, posted);
    BuiltChunkPostsCopies(archive, reach, args, before, after, roots[LocalDay(start, c.offset)], c, start);
  }

  lemma NextPosts(archive: seq<SourceFile>, roots: Roots, c: Config, posted: seq<Row>)
    requires c.dayCache && LocalDay(ChooseResumeStart(c, posted), c.offset) in roots
    ensures var start := ChooseResumeStart(c, posted);
            AfterChosenChunk(archive, roots, c, posted, None)[|posted|..]
            == ChunkPosts(roots[LocalDay(start, c.offset)], c, start)
  {
  }

  /** Reading i of a leftover file j lies in the chunk of the directory, which is not cut short. */
  ghost predicate LeftoverInChunk(archive: seq<SourceFile>, root: seq<SourceFile>, c: Config, start: int, j: nat,
                                  i: nat) {
    && AllTimeSorted(root) && j < |root|
    && Leftover(archive, root, LocalDay(start, c.offset), c.offset, j)
    && Holds(root, start, ChunkEnd(c, start), j, i)
    && |WindowRows(root, start, ChunkEnd(c, start))| <= c.maxEvents
  }

  lemma WholeWindowPosted(files: seq<SourceFile>, c: Config, start: int)
    requires AllTimeSorted(files) && c.Valid() && start < c.targetEnd
    requires |WindowRows(files, start, ChunkEnd(c, start))| <= c.maxEvents
    ensures ChunkPosts(files, c, start) == WindowRows(files, start, ChunkEnd(c, start))
  {
    ChunkEndBounds(c, start);
    ReplayEmitsWindow(files, c.maxEvents, start, ChunkEnd(c, start));
  }

  lemma ChunkWithinDay(c: Config, start: int)
    requires c.dayCache
    ensures WithinDay(LocalDay(start, c.offset), c.offset, start, ChunkEnd(c, start))
  {
    MidnightBoundsTheDay(start, start, c.offset);
  }

  lemma LeftoverOfRoot(archive: seq<SourceFile>, root: seq<SourceFile>, c: Config, start: int, j: nat, i: nat)
    requires c.Valid() && c.dayCache && start < c.targetEnd && LeftoverInChunk(archive, root, c, start, j, i)
    ensures var event := Event(root[j].lines[i].ts, root[j].path, i + 2, root[j].lines[i].value);
            && event in EventsOf(ChunkPosts(root, c, start))
            && event !in CopiesOf(archive, LocalDay(start, c.offset), c.offset,
                                  WindowRows(archive, start, ChunkEnd(c, start)))
  {
    WholeWindowPosted(root, c, start);
    ChunkWithinDay(c, start);
    LeftoverIsNoCopy(archive, root, LocalDay(start, c.offset), c.offset, start, ChunkEnd(c, start), j, i);
  }

  /** A leftover file of the day's directory is replayed: if the chunk is not cut short, each of its
      readings in the chunk is posted under its own path and line number, and it is the copy of no
      archive row. */
  lemma LeftoverIsPosted(archive: seq<SourceFile>, roots: Roots, c: Config, posted: seq<Row>, j: nat, i: nat)
    requires c.Valid() && c.dayCache
    requires var start := ChooseResumeStart(c, posted);
             var day := LocalDay(start, c.offset);
             day in roots && LeftoverInChunk(archive, roots[day], c, start, j, i)
    ensures var start := ChooseResumeStart(c, posted);
            var day := LocalDay(start, c.offset);
            var line := roots[day][j].lines[i];
            var event := Event(line.ts, roots[day][j].path, i + 2, line.value);
            && event in EventsOf(AfterChosenChunk(archive, roots, c, posted, None)[|posted|..])
            && event !in CopiesOf(archive, day, c.offset, WindowRows(archive, start, ChunkEnd(c, start)))
  {
    NeverComplete(c, posted);
    var start := ChooseResumeStart(c, posted);
    NextPosts(archive, roots, c, posted);
    LeftoverOfRoot(archive, roots[LocalDay(start, c.offset)], c, start, j, i);
  }
}
