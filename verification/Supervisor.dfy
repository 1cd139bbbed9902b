/** The live-source supervisor: chunk after chunk of replay, resumed from the latest committed
    timestamp, with a crash possible between any two posts. */
module Supervisor {
  import opened Wrappers
  import opened SourceRows
  import opened Merge
  import opened MergeMeaning
  import opened Injector
  import opened Timeline

  // ----- Calendar ------------------------------------------------------------------------

  function LocalDay(t: int, offset: int): int {
    (t + offset) / DAY
  }

  /** Midnight of the local day of t, plus one day, back in UTC. */
  function NextLocalMidnight(t: int, offset: int): int {
    LocalDay(t, offset) * DAY + DAY - offset
  }

  /** The times from t up to the next local midnight are those of t's own local day. */
  lemma MidnightBoundsTheDay(t: int, u: int, offset: int)
    ensures t < NextLocalMidnight(t, offset)
    ensures t <= u ==> (u < NextLocalMidnight(t, offset) <==> LocalDay(u, offset) == LocalDay(t, offset))
  {
  }

  lemma MidnightMonotone(s: int, t: int, offset: int)
    requires s <= t
    ensures NextLocalMidnight(s, offset) <= NextLocalMidnight(t, offset)
  {
    MidnightBoundsTheDay(s, t, offset);
    MidnightBoundsTheDay(t, t, offset);
  }

  // ----- One chunk -----------------------------------------------------------------------

  datatype Config = Config(targetStart: int, targetEnd: int, chunk: int, dayCache: bool, offset: int, maxEvents: nat) {
    predicate Valid() {
      targetStart < targetEnd && 0 < chunk
    }
  }

  function ChunkEnd(c: Config, start: int): int {
    var end := Min(start + c.chunk, c.targetEnd);
    if c.dayCache then Min(Min(end, NextLocalMidnight(start, c.offset)), c.targetEnd) else end
  }

  predicate Eligible(c: Config, x: Row) {
    c.targetStart <= x.ts < c.targetEnd
  }

  /** SELECT max(event_ts) over the committed rows of the run inside the target window. */
  function LatestEvent(c: Config, posted: seq<Row>): Option<int> {
    if posted == [] then None
    else
      var rest := LatestEvent(c, posted[..|posted| - 1]);
      var last := posted[|posted| - 1];
      if !Eligible(c, last) then rest
      else if rest.Some? then Some(Max(rest.value, last.ts))
      else Some(last.ts)
  }

  function ChooseResumeStart(c: Config, posted: seq<Row>): int {
    var latest := LatestEvent(c, posted);
    if latest.None? then c.targetStart else Max(c.targetStart, Min(latest.value, c.targetEnd))
  }

  /** The rows a chunk posts when nothing interrupts it. */
  function ChunkRows(rows: seq<Row>, c: Config, start: int): seq<Row> {
    Take(InWindow(rows, start, ChunkEnd(c, start)), c.maxEvents)
  }

  /** The posts that reach the ledger before the crash, if there is one. */
  function Survivors(chunk: seq<Row>, crashAfter: Option<nat>): seq<Row> {
    if crashAfter.Some? then Take(chunk, crashAfter.value) else chunk
  }

  function AfterChunk(rows: seq<Row>, c: Config, posted: seq<Row>, crashAfter: Option<nat>): seq<Row> {
    posted + Survivors(ChunkRows(rows, c, ChooseResumeStart(c, posted)), crashAfter)
  }

  /** The ledger after a run of chunks, crashed or completed. */
  function AfterRun(rows: seq<Row>, c: Config, posted: seq<Row>, crashes: seq<Option<nat>>): seq<Row>
    decreases |crashes|
  {
    if crashes == [] then posted
    else AfterRun(rows, c, AfterChunk(rows, c, posted, crashes[0]), crashes[1..])
  }

  /** What a chunk from these files posts when nothing interrupts it, sorted files or not. */
  function ChunkPosts(files: seq<SourceFile>, c: Config, start: int): seq<Row> {
    Emission(MergedRows(files, Some(start)), c.maxEvents, Some(start), Some(ChunkEnd(c, start)), 0)
  }

  function AfterFileChunk(files: seq<SourceFile>, c: Config, posted: seq<Row>, crashAfter: Option<nat>): seq<Row> {
    posted + Survivors(ChunkPosts(files, c, ChooseResumeStart(c, posted)), crashAfter)
  }

  function AfterFileRun(files: seq<SourceFile>, c: Config, posted: seq<Row>, crashes: seq<Option<nat>>): seq<Row>
    decreases |crashes|
  {
    if crashes == [] then posted
    else AfterFileRun(files, c, AfterFileChunk(files, c, posted, crashes[0]), crashes[1..])
  }

  /** Over time-sorted files a run depends only on the merged rows. */
  lemma {:induction false} FileRunIsRowRun(files: seq<SourceFile>, c: Config, posted: seq<Row>,
                                           crashes: seq<Option<nat>>)
    requires AllTimeSorted(files)
    ensures AfterFileRun(files, c, posted, crashes) == AfterRun(MergedRows(files, None), c, posted, crashes)
    decreases |crashes|
  {
    if crashes != [] {
      var start := ChooseResumeStart(c, posted);
      ReplayEmitsWindow(files, c.maxEvents, start, ChunkEnd(c, start));
      FileRunIsRowRun(files, c, AfterFileChunk(files, c, posted, crashes[0]), crashes[1..]);
    }
  }

  function Completed(crashes: seq<Option<nat>>): nat {
    if crashes == [] then 0 else (if crashes[0].None? then 1 else 0) + Completed(crashes[1..])
  }

  /** The supervisor over its ledger of accepted posts. */
  class LedgerSession {
    var posted: seq<Row>

    constructor ()
      ensures posted == []
    {
      posted := [];
    }

    /** One turn of the supervisor loop, merging and replaying the archive. */
    method RunChunk(files: seq<SourceFile>, c: Config, scale: real, crashAfter: Option<nat>) returns (complete: bool)
      requires c.Valid() && scale > 0.0
      modifies this
      ensures complete <==> c.targetEnd <= ChooseResumeStart(c, old(posted))
      ensures posted == if complete then old(posted) else AfterFileChunk(files, c, old(posted), crashAfter)
    {
      var start := ChooseResumeStart(c, posted);
      if start >= c.targetEnd {
        return true;
      }
      var merged := BoundedMerge(files, Some(start));
      var emitted, _ := Run(merged, c.maxEvents, Some(start), Some(ChunkEnd(c, start)), 0, scale);
      posted := posted + Survivors(emitted, crashAfter);
      complete := false;
    }

    /** The loop; crashes says where each chunk is cut, if it is. */
    method RunSupervisor(files: seq<SourceFile>, c: Config, scale: real, crashes: seq<Option<nat>>)
      returns (complete: bool)
      requires c.Valid() && scale > 0.0
      modifies this
      ensures !complete
      ensures posted == AfterFileRun(files, c, old(posted), crashes)
      ensures AllTimeSorted(files) ==> posted == AfterRun(MergedRows(files, None), c, old(posted), crashes)
    {
      ghost var before := posted;
      var i := 0;
      complete := false;
      while i < |crashes|
        invariant 0 <= i <= |crashes| && !complete
        invariant AfterFileRun(files, c, posted, crashes[i..]) == AfterFileRun(files, c, before, crashes)
      {
        NeverComplete(c, posted);
        assert crashes[i..][0] == crashes[i] && crashes[i..][1..] == crashes[i + 1..];
        complete := RunChunk(files, c, scale, crashes[i]);
        i := i + 1;
      }
      if AllTimeSorted(files) {
        FileRunIsRowRun(files, c, before, crashes);
      }
    }
  }

  // ----- The resume query ----------------------------------------------------------------

  lemma {:induction false} LatestEventIsMaximum(c: Config, posted: seq<Row>)
    ensures LatestEvent(c, posted).None? <==> forall x :: x in posted ==> !Eligible(c, x)
    ensures LatestEvent(c, posted).Some? ==>
              && (exists x :: x in posted && Eligible(c, x) && x.ts == LatestEvent(c, posted).value)
              && (forall x :: x in posted && Eligible(c, x) ==> x.ts <= LatestEvent(c, posted).value)
  {
    if posted != [] {
      var front, last := posted[..|posted| - 1], posted[|posted| - 1];
      LatestEventIsMaximum(c, front);
      assert forall x :: x in posted <==> x in front || x == last by { assert posted == front + [last]; }
      if Eligible(c, last) {
        assert last in posted;
        if LatestEvent(c, front).Some? {
          var x :| x in front && Eligible(c, x) && x.ts == LatestEvent(c, front).value;
          assert x in posted;
        }
      }
    }
  }

  /** The query keeps the resume point below the target end, so the test that ends the loop
      never succeeds, whatever the ledger holds. */
  lemma NeverComplete(c: Config, posted: seq<Row>)
    requires c.Valid()
    ensures c.targetStart <= ChooseResumeStart(c, posted) < c.targetEnd
  {
    LatestEventIsMaximum(c, posted);
  }

  lemma ChunkEndBounds(c: Config, start: int)
    requires c.Valid() && start < c.targetEnd
    ensures start < ChunkEnd(c, start) <= c.targetEnd
  {
    MidnightBoundsTheDay(start, start, c.offset);
  }

  lemma ChunkEndMonotone(c: Config, s: int, t: int)
    requires s <= t
    ensures ChunkEnd(c, s) <= ChunkEnd(c, t)
  {
    MidnightMonotone(s, t, c.offset);
  }

  // ----- The ledger is always a prefix of the eligible rows ------------------------------

  /** The committed rows are exactly the eligible rows up to position m of the sorted stream. */
  ghost predicate Frontier(rows: seq<Row>, c: Config, posted: seq<Row>, m: nat) {
    && Before(rows, c.targetStart) <= m <= Before(rows, c.targetEnd)
    && forall x :: x in posted <==> x in rows[Before(rows, c.targetStart)..m]
  }

  lemma InSlice(rows: seq<Row>, b: nat, m: nat, x: Row)
    requires b <= m <= |rows|
    ensures x in rows[b..m] <==> exists i :: b <= i < m && rows[i] == x
  {
    if i :| b <= i < m && rows[i] == x {
      assert rows[b..m][i - b] == x;
    }
  }

  function ResumeAt(rows: seq<Row>, c: Config, m: nat): int
    requires m <= |rows|
  {
    if m <= Before(rows, c.targetStart) then c.targetStart else rows[m - 1].ts
  }

  /** Where an undisturbed chunk that resumes at r ends in the sorted stream. */
  function Reach(rows: seq<Row>, c: Config, r: int): int {
    Min(Before(rows, ChunkEnd(c, r)), Before(rows, r) + c.maxEvents)
  }

  lemma FrontierResume(rows: seq<Row>, c: Config, posted: seq<Row>, m: nat)
    requires TimeOrdered(rows) && c.Valid() && Frontier(rows, c, posted, m)
    ensures ChooseResumeStart(c, posted) == ResumeAt(rows, c, m)
    ensures c.targetStart <= ResumeAt(rows, c, m) < c.targetEnd
    ensures Before(rows, ResumeAt(rows, c, m)) <= m <= Before(rows, ResumeAt(rows, c, m) + 1)
  {
    var b := Before(rows, c.targetStart);
    LatestEventIsMaximum(c, posted);
    BeforeSplits(rows, c.targetStart);
    BeforeSplits(rows, c.targetEnd);
    BeforeSplits(rows, ResumeAt(rows, c, m));
    BeforeSplits(rows, ResumeAt(rows, c, m) + 1);
    if m == b {
      assert forall x :: x !in posted;
      BeforeMonotone(rows, c.targetStart, c.targetStart + 1);
    } else {
      var last := rows[m - 1];
      InSlice(rows, b, m, last);
      assert last in posted && Eligible(c, last);
      var top :| top in posted && Eligible(c, top) && top.ts == LatestEvent(c, posted).value;
      InSlice(rows, b, m, top);
    }
  }

  lemma ChunkRowsAreSlice(rows: seq<Row>, c: Config, r: int)
    requires TimeOrdered(rows) && c.Valid() && r < c.targetEnd
    ensures Before(rows, r) <= Reach(rows, c, r) <= Before(rows, c.targetEnd)
    ensures ChunkRows(rows, c, r) == rows[Before(rows, r)..Reach(rows, c, r)]
  {
    ChunkEndBounds(c, r);
    WindowIsSlice(rows, r, ChunkEnd(c, r));
    BeforeMonotone(rows, ChunkEnd(c, r), c.targetEnd);
  }

  /** Where a chunk that resumes at r ends when it may be cut short. */
  function CutReach(rows: seq<Row>, c: Config, r: int, crashAfter: Option<nat>): int {
    if crashAfter.Some? then Min(Reach(rows, c, r), Before(rows, r) + crashAfter.value) else Reach(rows, c, r)
  }

  function NextFrontier(rows: seq<Row>, c: Config, m: nat, crashAfter: Option<nat>): nat
    requires m <= |rows|
  {
    Max(m, CutReach(rows, c, ResumeAt(rows, c, m), crashAfter))
  }

  lemma SurvivorsAreSlice(rows: seq<Row>, c: Config, r: int, crashAfter: Option<nat>)
    requires TimeOrdered(rows) && c.Valid() && r < c.targetEnd
    ensures Before(rows, r) <= CutReach(rows, c, r, crashAfter) <= Before(rows, c.targetEnd)
    ensures Survivors(ChunkRows(rows, c, r), crashAfter) == rows[Before(rows, r)..CutReach(rows, c, r, crashAfter)]
  {
    ChunkRowsAreSlice(rows, c, r);
    if crashAfter.Some? {
      TakeSlice(rows, Before(rows, r), Reach(rows, c, r), crashAfter.value);
    }
  }

  /** One chunk, crashed anywhere or not, moves the frontier and leaves no hole behind it. */
  lemma ChunkMovesFrontier(rows: seq<Row>, c: Config, posted: seq<Row>, m: nat, crashAfter: Option<nat>)
    requires TimeOrdered(rows) && c.Valid() && Frontier(rows, c, posted, m)
    ensures Frontier(rows, c, AfterChunk(rows, c, posted, crashAfter), NextFrontier(rows, c, m, crashAfter))
  {
    FrontierResume(rows, c, posted, m);
    var r := ResumeAt(rows, c, m);
    SurvivorsAreSlice(rows, c, r, crashAfter);
    BeforeMonotone(rows, c.targetStart, r);
    SlicesJoin(rows, Before(rows, c.targetStart), m, Before(rows, r), CutReach(rows, c, r, crashAfter));
  }

  lemma SlicesJoin(rows: seq<Row>, b: nat, m: nat, lo: nat, reach: nat)
    requires b <= lo <= m <= |rows| && lo <= reach <= |rows|
    ensures forall x :: x in rows[b..Max(m, reach)] <==> x in rows[b..m] || x in rows[lo..reach]
  {
    if m <= reach {
      assert rows[b..reach] == rows[b..lo] + rows[lo..reach];
      assert rows[b..m] == rows[b..lo] + rows[lo..m];
      assert rows[lo..reach] == rows[lo..m] + rows[m..reach];
    } else {
      assert rows[b..m] == rows[b..lo] + rows[lo..m];
      assert rows[lo..m] == rows[lo..reach] + rows[reach..m];
    }
  }

  function FrontierAfter(rows: seq<Row>, c: Config, m: nat, crashes: seq<Option<nat>>): nat
    requires m <= |rows|
    decreases |crashes|
  {
    if crashes == [] then m
    else
      var next := NextFrontier(rows, c, m, crashes[0]);
      if next <= |rows| then FrontierAfter(rows, c, next, crashes[1..]) else next
  }

  lemma {:induction false} RunMovesFrontier(rows: seq<Row>, c: Config, posted: seq<Row>, m: nat,
                                            crashes: seq<Option<nat>>)
    requires TimeOrdered(rows) && c.Valid() && Frontier(rows, c, posted, m)
    ensures Frontier(rows, c, AfterRun(rows, c, posted, crashes), FrontierAfter(rows, c, m, crashes))
    ensures m <= FrontierAfter(rows, c, m, crashes)
    decreases |crashes|
  {
    if crashes != [] {
      ChunkMovesFrontier(rows, c, posted, m, crashes[0]);
      RunMovesFrontier(rows, c, AfterChunk(rows, c, posted, crashes[0]), NextFrontier(rows, c, m, crashes[0]),
                       crashes[1..]);
    }
  }

  /** Over every run of chunks, event caps and crashes, the ledger is a gap-free prefix of the
      eligible rows in replay order. */
  lemma LedgerIsGapFreePrefix(rows: seq<Row>, c: Config, crashes: seq<Option<nat>>)
    requires TimeOrdered(rows) && c.Valid()
    ensures exists m: nat :: Frontier(rows, c, AfterRun(rows, c, [], crashes), m)
  {
    BeforeMonotone(rows, c.targetStart, c.targetEnd);
    var b := Before(rows, c.targetStart);
    assert rows[b..b] == [];
    assert Frontier(rows, c, [], b);
    RunMovesFrontier(rows, c, [], b, crashes);
  }

  /** Resuming never skips a row: every eligible row stamped before the chosen resume point is
      committed, and nothing but eligible rows is. */
  lemma ResumeSkipsNothing(rows: seq<Row>, c: Config, crashes: seq<Option<nat>>, x: Row)
    requires TimeOrdered(rows) && c.Valid()
    ensures var posted := AfterRun(rows, c, [], crashes);
            && (x in rows && Eligible(c, x) && x.ts < ChooseResumeStart(c, posted) ==> x in posted)
            && (x in posted ==> x in rows && Eligible(c, x))
  {
    LedgerIsGapFreePrefix(rows, c, crashes);
    var posted := AfterRun(rows, c, [], crashes);
    var m: nat :| Frontier(rows, c, posted, m);
    FrontierResume(rows, c, posted, m);
    BeforeSplits(rows, c.targetStart);
    BeforeSplits(rows, c.targetEnd);
    BeforeSplits(rows, ResumeAt(rows, c, m));
    InSlice(rows, Before(rows, c.targetStart), m, x);
  }

  /** The inclusive restart posts again only rows stamped exactly at the resume point. */
  lemma OnlyTheBoundaryRepeats(rows: seq<Row>, c: Config, crashes: seq<Option<nat>>, x: Row)
    requires TimeOrdered(rows) && c.Valid()
    ensures var posted := AfterRun(rows, c, [], crashes);
            var r := ChooseResumeStart(c, posted);
            x in posted && x in ChunkRows(rows, c, r) ==> x.ts == r
  {
    var posted := AfterRun(rows, c, [], crashes);
    var r := ChooseResumeStart(c, posted);
    if x in posted && x in ChunkRows(rows, c, r) {
      NeverComplete(c, posted);
      ResumeSkipsNothing(rows, c, crashes, x);
      CommittedUpToResume(c, posted, x);
      PostedFromResume(rows, c, r, x);
    }
  }

  lemma CommittedUpToResume(c: Config, posted: seq<Row>, x: Row)
    requires c.Valid() && x in posted && Eligible(c, x)
    ensures x.ts <= ChooseResumeStart(c, posted)
  {
    LatestEventIsMaximum(c, posted);
  }

  lemma PostedFromResume(rows: seq<Row>, c: Config, r: int, x: Row)
    requires TimeOrdered(rows) && c.Valid() && r < c.targetEnd && x in ChunkRows(rows, c, r)
    ensures r <= x.ts
  {
    ChunkRowsAreSlice(rows, c, r);
    BeforeSplits(rows, r);
    var k :| 0 <= k < |ChunkRows(rows, c, r)| && ChunkRows(rows, c, r)[k] == x;
    assert x == rows[Before(rows, r) + k];
  }

  // ----- Chunks, days and crashes in plain terms -----------------------------------------

  /** The local day of t, counted from the epoch, is the one that the shifted time falls in. */
  lemma LocalDayIff(t: int, offset: int, day: int)
    ensures LocalDay(t, offset) == day <==> day * 86_400_000_000 <= t + offset < (day + 1) * 86_400_000_000
  {
  }

  /** From its start on, a chunk reaches the times less than the chunk length away, before the
      target end and, with day caching on, on the start's own local day. */
  lemma ChunkEndIff(c: Config, start: int, t: int)
    requires start <= t
    ensures t < ChunkEnd(c, start) <==>
            && t < start + c.chunk && t < c.targetEnd
            && (c.dayCache ==> LocalDay(t, c.offset) == LocalDay(start, c.offset))
  {
    MidnightBoundsTheDay(start, t, c.offset);
  }

  /** Over time-sorted files an undisturbed chunk from s posts the first max_events rows of the
      merged stream that are stamped from s on, less than a chunk after it, before the target end
      and, with day caching on, on s's own local day. */
  lemma ChunkPostsIff(files: seq<SourceFile>, c: Config, start: int) returns (a: nat, b: nat)
    requires AllTimeSorted(files) && c.Valid() && start < c.targetEnd
    ensures var rows := MergedRows(files, None);
            && a <= b <= |rows| && ChunkPosts(files, c, start) == rows[a..Min(b, a + c.maxEvents)]
            && forall i :: 0 <= i < |rows| ==>
                 (a <= i < b <==>
                   && start <= rows[i].ts < start + c.chunk && rows[i].ts < c.targetEnd
                   && (c.dayCache ==> LocalDay(rows[i].ts, c.offset) == LocalDay(start, c.offset)))
  {
    var rows, end := MergedRows(files, None), ChunkEnd(c, start);
    ReplayEmitsWindow(files, c.maxEvents, start, end);
    MergedAscending(files, None);
    ChunkEndBounds(c, start);
    WindowIsSlice(rows, start, end);
    BeforeSplits(rows, start);
    BeforeSplits(rows, end);
    a, b := Before(rows, start), Before(rows, end);
    forall i | 0 <= i < |rows|
      ensures a <= i < b <==>
              && start <= rows[i].ts < start + c.chunk && rows[i].ts < c.targetEnd
              && (c.dayCache ==> LocalDay(rows[i].ts, c.offset) == LocalDay(start, c.offset))
    {
      assert a <= i < b <==> start <= rows[i].ts < end;
      if start <= rows[i].ts {
        ChunkEndIff(c, start, rows[i].ts);
      }
    }
    TakeSlice(rows, a, b, c.maxEvents);
  }

  /** A crash after n posts leaves the first n posts of the chunk, or all if there are fewer. */
  lemma CrashKeepsFirstPosts(chunk: seq<Row>, n: nat)
    ensures Survivors(chunk, None) == chunk
    ensures Survivors(chunk, Some(n)) == chunk[..Min(n, |chunk|)]
  {
  }

  /** The resume point: the target start if no post lies in the target window, and otherwise the
      greatest timestamp of those that do. */
  lemma ResumePointIff(c: Config, posted: seq<Row>, t: int)
    requires c.Valid()
    ensures ChooseResumeStart(c, posted) == t <==>
            if forall x :: x in posted ==> !(c.targetStart <= x.ts < c.targetEnd) then t == c.targetStart
            else
              && c.targetStart <= t < c.targetEnd && (exists x :: x in posted && x.ts == t)
              && (forall x :: x in posted && x.ts < c.targetEnd ==> x.ts <= t)
  {
    LatestEventIsMaximum(c, posted);
  }
}
