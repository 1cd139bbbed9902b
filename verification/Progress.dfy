/** When the supervisor gets through its window: exactly when a chunk advances, exactly when
    every long enough run commits everything, and why day caching stops it at midnight. */
module Progress {
  import opened Wrappers
  import opened SourceRows
  import opened Merge
  import opened MergeMeaning
  import opened Injector
  import opened Supervisor

  function CountAt(rows: seq<Row>, t: int): int {
    Before(rows, t + 1) - Before(rows, t)
  }

  ghost predicate RowBetween(rows: seq<Row>, lo: int, hi: int) {
    exists i :: 0 <= i < |rows| && lo < rows[i].ts < hi
  }

  lemma RowBetweenByCount(rows: seq<Row>, lo: int, hi: int)
    requires TimeOrdered(rows)
    ensures RowBetween(rows, lo, hi) <==> Before(rows, lo + 1) < Before(rows, hi)
  {
    BeforeSplits(rows, lo + 1);
    BeforeSplits(rows, hi);
    if Before(rows, lo + 1) < Before(rows, hi) {
      assert lo < rows[Before(rows, lo + 1)].ts < hi;
    }
  }

  /** A later position resumes later exactly if it is past all rows stamped at the resume point. */
  lemma ResumeAtLater(rows: seq<Row>, c: Config, m: nat, next: nat)
    requires TimeOrdered(rows) && m <= next <= |rows|
    requires Before(rows, c.targetStart) <= m <= Before(rows, ResumeAt(rows, c, m) + 1)
    ensures ResumeAt(rows, c, next) > ResumeAt(rows, c, m) <==> Before(rows, ResumeAt(rows, c, m) + 1) < next
    ensures ResumeAt(rows, c, next) >= ResumeAt(rows, c, m)
  {
    var r := ResumeAt(rows, c, m);
    BeforeSplits(rows, r + 1);
    BeforeSplits(rows, c.targetStart);
  }

  /** Where a completed chunk gets to from position m. */
  lemma NextAdvancesIff(rows: seq<Row>, c: Config, posted: seq<Row>, m: nat)
    requires TimeOrdered(rows) && c.Valid() && Frontier(rows, c, posted, m)
    ensures NextFrontier(rows, c, m, None) <= |rows|
    ensures var r := ResumeAt(rows, c, m);
            ResumeAt(rows, c, NextFrontier(rows, c, m, None)) > r
            <==> RowBetween(rows, r, ChunkEnd(c, r)) && CountAt(rows, r) < c.maxEvents
  {
    var r, next := ResumeAt(rows, c, m), NextFrontier(rows, c, m, None);
    FrontierResume(rows, c, posted, m);
    ChunkRowsAreSlice(rows, c, r);
    ResumeAtLater(rows, c, m, next);
    RowBetweenByCount(rows, r, ChunkEnd(c, r));
  }

  /** A completed chunk strictly advances the resume point exactly when an eligible row lies
      strictly between it and the chunk end and fewer than max_events rows share its stamp. */
  lemma ChunkAdvancesIff(rows: seq<Row>, c: Config, crashes: seq<Option<nat>>)
    requires TimeOrdered(rows) && c.Valid()
    ensures var posted := AfterRun(rows, c, [], crashes);
            var r := ChooseResumeStart(c, posted);
            ChooseResumeStart(c, AfterChunk(rows, c, posted, None)) > r
            <==> RowBetween(rows, r, ChunkEnd(c, r)) && CountAt(rows, r) < c.maxEvents
  {
    LedgerIsGapFreePrefix(rows, c, crashes);
    var posted := AfterRun(rows, c, [], crashes);
    var m: nat :| Frontier(rows, c, posted, m);
    FrontierResume(rows, c, posted, m);
    ChunkMovesFrontier(rows, c, posted, m, None);
    FrontierResume(rows, c, AfterChunk(rows, c, posted, None), NextFrontier(rows, c, m, None));
    NextAdvancesIff(rows, c, posted, m);
  }

  // ----- Saturation ----------------------------------------------------------------------

  /** A timestamp at which a chunk can resume: the target start or an eligible row's stamp. */
  ghost predicate ResumePoint(rows: seq<Row>, c: Config, r: int) {
    c.targetStart <= r < c.targetEnd && (r == c.targetStart || exists i :: 0 <= i < |rows| && rows[i].ts == r)
  }

  /** A chunk that resumes at r can finish r's own rows and, if eligible rows follow, get to
      one of them. */
  ghost predicate PassesAt(rows: seq<Row>, c: Config, r: int) {
    && CountAt(rows, r) <= c.maxEvents
    && (RowBetween(rows, r, c.targetEnd) ==>
          CountAt(rows, r) < c.maxEvents && RowBetween(rows, r, ChunkEnd(c, r)))
  }

  ghost predicate Flows(rows: seq<Row>, c: Config) {
    forall r :: ResumePoint(rows, c, r) ==> PassesAt(rows, c, r)
  }

  ghost predicate Saturated(rows: seq<Row>, c: Config, posted: seq<Row>) {
    forall x :: x in rows && Eligible(c, x) ==> x in posted
  }

  function EligibleCount(rows: seq<Row>, c: Config): int {
    Before(rows, c.targetEnd) - Before(rows, c.targetStart)
  }

  lemma FrontierSaturates(rows: seq<Row>, c: Config, posted: seq<Row>, m: nat)
    requires TimeOrdered(rows) && Frontier(rows, c, posted, m) && m == Before(rows, c.targetEnd)
    ensures Saturated(rows, c, posted)
  {
    BeforeSplits(rows, c.targetStart);
    BeforeSplits(rows, c.targetEnd);
    forall x | x in rows && Eligible(c, x)
      ensures x in posted
    {
      var i :| 0 <= i < |rows| && rows[i] == x;
      assert rows[Before(rows, c.targetStart)..m][i - Before(rows, c.targetStart)] == x;
    }
  }

  lemma ResumeAtIsResumePoint(rows: seq<Row>, c: Config, posted: seq<Row>, m: nat)
    requires TimeOrdered(rows) && c.Valid() && Frontier(rows, c, posted, m)
    ensures ResumePoint(rows, c, ResumeAt(rows, c, m))
  {
    FrontierResume(rows, c, posted, m);
  }

  /** Under Flows a completed chunk always commits a row that was missing. */
  lemma CompletedChunkGains(rows: seq<Row>, c: Config, posted: seq<Row>, m: nat)
    requires TimeOrdered(rows) && c.Valid() && Flows(rows, c)
    requires Frontier(rows, c, posted, m) && m < Before(rows, c.targetEnd)
    ensures m < NextFrontier(rows, c, m, None)
  {
    FrontierResume(rows, c, posted, m);
    ResumeAtIsResumePoint(rows, c, posted, m);
    var r := ResumeAt(rows, c, m);
    assert PassesAt(rows, c, r);
    RowBetweenByCount(rows, r, c.targetEnd);
    RowBetweenByCount(rows, r, ChunkEnd(c, r));
    ChunkEndBounds(c, r);
    BeforeMonotone(rows, r + 1, ChunkEnd(c, r));
  }

  lemma {:induction false} EnoughChunksReachTheEnd(rows: seq<Row>, c: Config, posted: seq<Row>, m: nat,
                                                   crashes: seq<Option<nat>>)
    requires TimeOrdered(rows) && c.Valid() && Flows(rows, c) && Frontier(rows, c, posted, m)
    requires Before(rows, c.targetEnd) - m <= Completed(crashes)
    ensures FrontierAfter(rows, c, m, crashes) == Before(rows, c.targetEnd)
    decreases |crashes|
  {
    RunMovesFrontier(rows, c, posted, m, crashes);
    if crashes != [] && m < Before(rows, c.targetEnd) {
      ChunkMovesFrontier(rows, c, posted, m, crashes[0]);
      if crashes[0].None? {
        CompletedChunkGains(rows, c, posted, m);
      }
      EnoughChunksReachTheEnd(rows, c, AfterChunk(rows, c, posted, crashes[0]), NextFrontier(rows, c, m, crashes[0]),
                              crashes[1..]);
    }
  }

  /** When every resume point passes, any run with as many completed chunks as there are
      eligible rows has committed all of them, whatever crashes fall in between. */
  lemma FlowSaturates(rows: seq<Row>, c: Config, crashes: seq<Option<nat>>)
    requires TimeOrdered(rows) && c.Valid() && Flows(rows, c)
    requires EligibleCount(rows, c) <= Completed(crashes)
    ensures Saturated(rows, c, AfterRun(rows, c, [], crashes))
  {
    var b := Before(rows, c.targetStart);
    BeforeMonotone(rows, c.targetStart, c.targetEnd);
    assert rows[b..b] == [];
    assert Frontier(rows, c, [], b);
    EnoughChunksReachTheEnd(rows, c, [], b, crashes);
    RunMovesFrontier(rows, c, [], b, crashes);
    FrontierSaturates(rows, c, AfterRun(rows, c, [], crashes), FrontierAfter(rows, c, b, crashes));
  }

  /** The position no chunk gets past when r does not pass. */
  function Wall(rows: seq<Row>, c: Config, r: int): int {
    Min(Before(rows, r) + c.maxEvents, Before(rows, r + 1))
  }

  lemma BlockedPoint(rows: seq<Row>, c: Config, r: int)
    requires TimeOrdered(rows) && c.Valid() && c.targetStart <= r < c.targetEnd && !PassesAt(rows, c, r)
    ensures Before(rows, c.targetStart) <= Wall(rows, c, r) < Before(rows, c.targetEnd)
    ensures Reach(rows, c, r) <= Wall(rows, c, r)
  {
    BeforeMonotone(rows, c.targetStart, r);
    BeforeMonotone(rows, r, r + 1);
    BeforeMonotone(rows, r + 1, c.targetEnd);
    RowBetweenByCount(rows, r, c.targetEnd);
    RowBetweenByCount(rows, r, ChunkEnd(c, r));
  }

  /** No chunk that resumes at or before a blocked point gets past its wall. */
  lemma ChunkStopsAtWall(rows: seq<Row>, c: Config, posted: seq<Row>, m: nat, crashAfter: Option<nat>, r: int)
    requires TimeOrdered(rows) && c.Valid() && c.targetStart <= r < c.targetEnd && !PassesAt(rows, c, r)
    requires Frontier(rows, c, posted, m) && m <= Wall(rows, c, r)
    ensures NextFrontier(rows, c, m, crashAfter) <= Wall(rows, c, r)
  {
    FrontierResume(rows, c, posted, m);
    BlockedPoint(rows, c, r);
    BeforeSplits(rows, r + 1);
    var s := ResumeAt(rows, c, m);
    assert s <= r;
    ChunkEndMonotone(c, s, r);
    BeforeMonotone(rows, ChunkEnd(c, s), ChunkEnd(c, r));
    BeforeMonotone(rows, s, r);
  }

  lemma {:induction false} RunStopsAtWall(rows: seq<Row>, c: Config, posted: seq<Row>, m: nat,
                                          crashes: seq<Option<nat>>, r: int)
    requires TimeOrdered(rows) && c.Valid() && c.targetStart <= r < c.targetEnd && !PassesAt(rows, c, r)
    requires Frontier(rows, c, posted, m) && m <= Wall(rows, c, r)
    ensures FrontierAfter(rows, c, m, crashes) <= Wall(rows, c, r)
    decreases |crashes|
  {
    if crashes != [] {
      ChunkMovesFrontier(rows, c, posted, m, crashes[0]);
      ChunkStopsAtWall(rows, c, posted, m, crashes[0], r);
      RunStopsAtWall(rows, c, AfterChunk(rows, c, posted, crashes[0]), NextFrontier(rows, c, m, crashes[0]),
                     crashes[1..], r);
    }
  }

  lemma AscendingIsTimeOrdered(rows: seq<Row>)
    requires Ascending(rows)
    ensures TimeOrdered(rows)
  {
    forall j, k | 0 <= j < k < |rows|
      ensures rows[j].ts <= rows[k].ts
    {
      assert RowLess(rows[j], rows[k]);
    }
  }

  /** When one resume point does not pass, no run, however long, commits the row behind it. */
  lemma BlockedRowNeverCommitted(rows: seq<Row>, c: Config, crashes: seq<Option<nat>>, r: int)
    requires Ascending(rows) && c.Valid() && c.targetStart <= r < c.targetEnd && !PassesAt(rows, c, r)
    ensures !Saturated(rows, c, AfterRun(rows, c, [], crashes))
  {
    AscendingIsTimeOrdered(rows);
    var b := Before(rows, c.targetStart);
    BlockedPoint(rows, c, r);
    assert rows[b..b] == [];
    assert Frontier(rows, c, [], b);
    RunStopsAtWall(rows, c, [], b, crashes, r);
    RunMovesFrontier(rows, c, [], b, crashes);
    var posted, m := AfterRun(rows, c, [], crashes), FrontierAfter(rows, c, b, crashes);
    var x := rows[Wall(rows, c, r)];
    BeforeSplits(rows, c.targetStart);
    BeforeSplits(rows, c.targetEnd);
    assert x in rows && Eligible(c, x);
    NotInEarlierSlice(rows, b, m, Wall(rows, c, r));
  }

  lemma NotInEarlierSlice(rows: seq<Row>, b: nat, m: nat, w: nat)
    requires Ascending(rows) && b <= m <= w < |rows|
    ensures rows[w] !in rows[b..m]
  {
    forall k | 0 <= k < m - b
      ensures rows[b..m][k] != rows[w]
    {
      assert RowLess(rows[b + k], rows[w]);
    }
  }

  /** Every run with as many completed chunks as eligible rows commits all of them if and only
      if every resume point passes: its own rows fit under the event cap and, when eligible
      rows follow, one of them lies inside the chunk and the cap is not used up. */
  lemma SaturatesIff(rows: seq<Row>, c: Config)
    requires Ascending(rows) && c.Valid()
    ensures Flows(rows, c) <==>
            forall crashes :: EligibleCount(rows, c) <= Completed(crashes) ==>
              Saturated(rows, c, AfterRun(rows, c, [], crashes))
  {
    AscendingIsTimeOrdered(rows);
    if Flows(rows, c) {
      forall crashes | EligibleCount(rows, c) <= Completed(crashes)
        ensures Saturated(rows, c, AfterRun(rows, c, [], crashes))
      {
        FlowSaturates(rows, c, crashes);
      }
    } else {
      var r :| ResumePoint(rows, c, r) && !PassesAt(rows, c, r);
      BeforeMonotone(rows, c.targetStart, c.targetEnd);
      var calm := CalmRun(EligibleCount(rows, c));
      assert EligibleCount(rows, c) <= Completed(calm);
      BlockedRowNeverCommitted(rows, c, calm, r);
    }
  }

  /** The same for the supervisor over an archive of time-sorted files. */
  lemma ArchiveRunSaturatesIff(files: seq<SourceFile>, c: Config)
    requires AllTimeSorted(files) && c.Valid()
    ensures var rows := MergedRows(files, None);
            Flows(rows, c) <==>
            forall crashes :: EligibleCount(rows, c) <= Completed(crashes) ==>
              Saturated(rows, c, AfterRun(rows, c, [], crashes))
  {
    MergedAscending(files, None);
    SaturatesIff(MergedRows(files, None), c);
  }

  /** n chunks, none of which crashes. */
  function CalmRun(n: nat): (crashes: seq<Option<nat>>)
    ensures Completed(crashes) == n
  {
    if n == 0 then [] else [None] + CalmRun(n - 1)
  }

  // ----- With and without day caching ----------------------------------------------------

  /** From the target start on, the next eligible row is less than a chunk away. */
  ghost predicate ShortGaps(rows: seq<Row>, c: Config) {
    var b, e := Before(rows, c.targetStart), Before(rows, c.targetEnd);
    && (b < e ==> rows[b].ts - c.targetStart < c.chunk)
    && (forall i :: b < i < e ==> rows[i].ts - rows[i - 1].ts < c.chunk)
  }

  /** The next eligible row after a resume point comes less than a chunk later. */
  lemma NextRowIsNear(rows: seq<Row>, c: Config, r: int, next: nat)
    requires TimeOrdered(rows) && c.Valid() && ShortGaps(rows, c) && c.targetStart <= r
    requires next == Before(rows, r + 1) && RowBetween(rows, r, c.targetEnd)
    ensures next < |rows| && r < rows[next].ts < c.targetEnd && rows[next].ts - r < c.chunk
  {
    RowBetweenByCount(rows, r, c.targetEnd);
    BeforeSplits(rows, r + 1);
    BeforeSplits(rows, c.targetEnd);
    BeforeMonotone(rows, c.targetStart, r + 1);
    assert Before(rows, c.targetStart) < next ==> rows[next - 1].ts <= r;
  }

  /** Without day caching, source gaps shorter than a chunk and timestamps shared by fewer rows
      than the event cap are enough. */
  lemma ShortGapsFlow(rows: seq<Row>, c: Config)
    requires TimeOrdered(rows) && c.Valid() && !c.dayCache && ShortGaps(rows, c)
    requires forall r :: ResumePoint(rows, c, r) ==> CountAt(rows, r) < c.maxEvents
    ensures Flows(rows, c)
  {
    forall r | ResumePoint(rows, c, r)
      ensures PassesAt(rows, c, r)
    {
      if RowBetween(rows, r, c.targetEnd) {
        NextRowIsNear(rows, c, r, Before(rows, r + 1));
        assert rows[Before(rows, r + 1)].ts < ChunkEnd(c, r);
      }
    }
  }

  lemma {:induction false} RunStopsAtMidnight(rows: seq<Row>, c: Config, posted: seq<Row>, m: nat,
                                              crashes: seq<Option<nat>>)
    requires TimeOrdered(rows) && c.Valid() && c.dayCache
    requires Frontier(rows, c, posted, m) && m <= Before(rows, NextLocalMidnight(c.targetStart, c.offset))
    ensures FrontierAfter(rows, c, m, crashes) <= Before(rows, NextLocalMidnight(c.targetStart, c.offset))
    decreases |crashes|
  {
    if crashes != [] {
      var midnight := NextLocalMidnight(c.targetStart, c.offset);
      ChunkMovesFrontier(rows, c, posted, m, crashes[0]);
      FrontierResume(rows, c, posted, m);
      BeforeSplits(rows, midnight);
      var r := ResumeAt(rows, c, m);
      MidnightBoundsTheDay(c.targetStart, c.targetStart, c.offset);
      assert c.targetStart <= r < midnight;
      MidnightBoundsTheDay(c.targetStart, r, c.offset);
      assert ChunkEnd(c, r) <= midnight;
      BeforeMonotone(rows, ChunkEnd(c, r), midnight);
      RunStopsAtMidnight(rows, c, AfterChunk(rows, c, posted, crashes[0]), NextFrontier(rows, c, m, crashes[0]),
                         crashes[1..]);
    }
  }

  /** With day caching on, no run ever commits a row stamped at or after the first local
      midnight: the chunk is cut there and the resume point stays before it. */
  lemma DayCachingStopsAtFirstMidnight(rows: seq<Row>, c: Config, crashes: seq<Option<nat>>, x: Row)
    requires TimeOrdered(rows) && c.Valid() && c.dayCache
    ensures x in AfterRun(rows, c, [], crashes) ==> x.ts < NextLocalMidnight(c.targetStart, c.offset)
  {
    var midnight := NextLocalMidnight(c.targetStart, c.offset);
    var b := Before(rows, c.targetStart);
    MidnightBoundsTheDay(c.targetStart, c.targetStart, c.offset);
    BeforeMonotone(rows, c.targetStart, c.targetEnd);
    BeforeMonotone(rows, c.targetStart, midnight);
    assert rows[b..b] == [];
    assert Frontier(rows, c, [], b);
    RunMovesFrontier(rows, c, [], b, crashes);
    RunStopsAtMidnight(rows, c, [], b, crashes);
    BeforeSplits(rows, midnight);
    var posted, m := AfterRun(rows, c, [], crashes), FrontierAfter(rows, c, b, crashes);
    if x in posted {
      var k :| 0 <= k < m - b && rows[b..m][k] == x;
      assert rows[b + k] == x;
    }
  }

  /** So with day caching on, a window holding an eligible row past the first local midnight
      is never finished. */
  lemma DayCachingNeverFinishes(rows: seq<Row>, c: Config, crashes: seq<Option<nat>>, x: Row)
    requires TimeOrdered(rows) && c.Valid() && c.dayCache
    requires x in rows && Eligible(c, x) && NextLocalMidnight(c.targetStart, c.offset) <= x.ts
    ensures !Saturated(rows, c, AfterRun(rows, c, [], crashes))
  {
    DayCachingStopsAtFirstMidnight(rows, c, crashes, x);
  }

  /** The bound on the chunks is the number of eligible rows. */
  lemma EligibleCountIsSize(rows: seq<Row>, c: Config)
    requires TimeOrdered(rows) && c.Valid()
    ensures EligibleCount(rows, c) == |InWindow(rows, c.targetStart, c.targetEnd)|
  {
    WindowIsSlice(rows, c.targetStart, c.targetEnd);
  }
}
