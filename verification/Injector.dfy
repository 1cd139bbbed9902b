/** The replay window of the injector: which merged rows it emits and how long it sleeps. */
module Injector {
  import opened Wrappers
  import opened SourceRows
  import opened Merge
  import opened MergeMeaning

  // ----- What one run emits --------------------------------------------------------------

  /** The row ends a run whose window opened at lo. */
  predicate Stops(row: Row, lo: int, end: Option<int>, duration: nat) {
    lo <= row.ts && ((end.Some? && end.value <= row.ts) || (0 < duration && duration < row.ts - lo))
  }

  function UntilStop(rows: seq<Row>, lo: int, end: Option<int>, duration: nat): seq<Row> {
    if rows == [] || Stops(rows[0], lo, end, duration) then []
    else [rows[0]] + UntilStop(rows[1..], lo, end, duration)
  }

  /** The window opens at start_ts or, without one, at the first merged row. */
  function WindowStart(rows: seq<Row>, start: Option<int>): int {
    if start.Some? then start.value else if rows != [] then rows[0].ts else 0
  }

  function Take(rows: seq<Row>, n: int): seq<Row> {
    if n <= 0 then [] else if n < |rows| then rows[..n] else rows
  }

  /** What a run whose window opened at lo emits from these rows, without a cap. */
  function Replayed(rows: seq<Row>, lo: int, end: Option<int>, duration: nat): seq<Row> {
    From(UntilStop(rows, lo, end, duration), lo)
  }

  /** Rows no older than the window start that precede the first row past its end, at most
      cap of them. */
  function Emission(rows: seq<Row>, cap: nat, start: Option<int>, end: Option<int>, duration: nat): seq<Row> {
    var lo := WindowStart(rows, start);
    Take(Replayed(rows, lo, end, duration), cap)
  }

  function ReplayDelay(previous: int, current: int, scale: real): (delay: real)
    requires scale > 0.0
    ensures delay >= 0.0
  {
    var scaled := (current - previous) as real / scale;
    if scaled < 0.0 then 0.0 else scaled
  }

  /** A gap waits its own length divided by the scale; going back in time waits nothing. */
  lemma ReplayDelayScaled(previous: int, current: int, scale: real)
    requires scale > 0.0
    ensures previous <= current ==> ReplayDelay(previous, current, scale) * scale == (current - previous) as real
    ensures current < previous ==> ReplayDelay(previous, current, scale) == 0.0
  {
    var gap := (current - previous) as real;
    assert gap / scale * scale == gap;
    if previous <= current {
      assert gap / scale >= 0.0;
    }
  }

  function TotalDelay(rows: seq<Row>, scale: real): real
    requires scale > 0.0
  {
    if |rows| < 2 then 0.0
    else TotalDelay(rows[..|rows| - 1], scale) + ReplayDelay(rows[|rows| - 2].ts, rows[|rows| - 1].ts, scale)
  }

  lemma ReplayedStep(rows: seq<Row>, i: nat, lo: int, end: Option<int>, duration: nat)
    requires i < |rows|
    ensures Stops(rows[i], lo, end, duration) ==> Replayed(rows[i..], lo, end, duration) == []
    ensures rows[i].ts < lo ==> Replayed(rows[i..], lo, end, duration) == Replayed(rows[i + 1..], lo, end, duration)
    ensures lo <= rows[i].ts && !Stops(rows[i], lo, end, duration) ==>
              Replayed(rows[i..], lo, end, duration) == [rows[i]] + Replayed(rows[i + 1..], lo, end, duration)
  {
    var tail := UntilStop(rows[i + 1..], lo, end, duration);
    assert rows[i..][0] == rows[i] && rows[i..][1..] == rows[i + 1..];
    assert ([rows[i]] + tail)[1..] == tail;
  }

  /** Progress of a run: what it emitted and what it would still emit make up the whole. */
  ghost predicate OnTrack(rows: seq<Row>, i: nat, emitted: seq<Row>, cap: nat, start: Option<int>, end: Option<int>,
                          duration: nat)
  {
    var lo := WindowStart(rows, start);
    && i <= |rows|
    && |emitted| <= cap
    && emitted + Take(Replayed(rows[i..], lo, end, duration), cap - |emitted|)
         == Emission(rows, cap, start, end, duration)
  }

  lemma StepOnTrack(rows: seq<Row>, i: nat, emitted: seq<Row>, cap: nat, start: Option<int>, end: Option<int>,
                    duration: nat)
    requires OnTrack(rows, i, emitted, cap, start, end, duration)
    ensures var lo := WindowStart(rows, start);
            && (i == |rows| || |emitted| == cap || Stops(rows[i], lo, end, duration)
                ==> emitted == Emission(rows, cap, start, end, duration))
            && (i < |rows| && rows[i].ts < lo ==> OnTrack(rows, i + 1, emitted, cap, start, end, duration))
            && (i < |rows| && |emitted| < cap && lo <= rows[i].ts && !Stops(rows[i], lo, end, duration)
                ==> OnTrack(rows, i + 1, emitted + [rows[i]], cap, start, end, duration))
  {
    var lo := WindowStart(rows, start);
    if i < |rows| {
      ReplayedStep(rows, i, lo, end, duration);
      var rest := Replayed(rows[i + 1..], lo, end, duration);
      if |emitted| < cap && lo <= rows[i].ts && !Stops(rows[i], lo, end, duration) {
        TakeHead(rows[i], rest, cap - |emitted|);
        AppendAssociative(emitted, [rows[i]], Take(rest, cap - |emitted| - 1));
      }
    }
  }

  function LastStamp(rows: seq<Row>): Option<int> {
    if rows == [] then None else Some(rows[|rows| - 1].ts)
  }

  lemma TotalDelayStep(rows: seq<Row>, row: Row, scale: real)
    requires scale > 0.0
    ensures TotalDelay(rows + [row], scale)
         == if rows == [] then 0.0 else TotalDelay(rows, scale) + ReplayDelay(rows[|rows| - 1].ts, row.ts, scale)
    ensures LastStamp(rows + [row]) == Some(row.ts)
  {
    assert (rows + [row])[..|rows|] == rows;
  }

  /** The loop of run over the merged rows, posting on the event-time clock. */
  method Run(rows: seq<Row>, cap: nat, start: Option<int>, end: Option<int>, duration: nat, scale: real)
    returns (emitted: seq<Row>, slept: real)
    requires scale > 0.0
    ensures emitted == Emission(rows, cap, start, end, duration)
    ensures slept == TotalDelay(emitted, scale)
  {
    emitted, slept := [], 0.0;
    var windowStart, previous := start, None;
    var i := 0;
    while i < |rows|
      invariant 0 <= i <= |rows|
      invariant windowStart == if start.None? && i == 0 then None else Some(WindowStart(rows, start))
      invariant previous == LastStamp(emitted)
      invariant slept == TotalDelay(emitted, scale)
      invariant OnTrack(rows, i, emitted, cap, start, end, duration)
    {
      var row := rows[i];
      StepOnTrack(rows, i, emitted, cap, start, end, duration);
      if |emitted| >= cap {
        return;
      }
      if windowStart.Some? && row.ts < windowStart.value {
        i := i + 1;
        continue;
      }
      if end.Some? && row.ts >= end.value {
        return;
      }
      if windowStart.None? {
        windowStart := Some(row.ts);
      } else if 0 < duration && row.ts - windowStart.value > duration {
        return;
      }
      TotalDelayStep(emitted, row, scale);
      if previous.Some? {
        slept := slept + ReplayDelay(previous.value, row.ts, scale);
      }
      emitted := emitted + [row];
      previous := Some(row.ts);
      i := i + 1;
    }
    StepOnTrack(rows, i, emitted, cap, start, end, duration);
  }

  lemma TakeHead(row: Row, rest: seq<Row>, n: nat)
    requires n > 0
    ensures Take([row] + rest, n) == [row] + Take(rest, n - 1)
  {
  }

  lemma QuotientsAdd(a: int, b: int, scale: real)
    requires scale > 0.0
    ensures a as real / scale + b as real / scale == (a + b) as real / scale
  {
  }

  lemma DelayForward(previous: int, current: int, scale: real)
    requires scale > 0.0 && previous <= current
    ensures ReplayDelay(previous, current, scale) == (current - previous) as real / scale
  {
  }

  /** One more row of a time-ordered run adds the gap before it. */
  lemma SleepGrows(slept: real, scale: real, first: int, middle: int, last: int)
    requires scale > 0.0 && middle <= last && slept == (middle - first) as real / scale
    ensures slept + ReplayDelay(middle, last, scale) == (last - first) as real / scale
  {
    DelayForward(middle, last, scale);
    QuotientsAdd(middle - first, last - middle, scale);
  }

  lemma {:induction false} SleepIsSpan(rows: seq<Row>, scale: real)
    requires scale > 0.0 && TimeOrdered(rows) && rows != []
    ensures TotalDelay(rows, scale) == (rows[|rows| - 1].ts - rows[0].ts) as real / scale
  {
    if |rows| > 1 {
      SleepIsSpan(rows[..|rows| - 1], scale);
      SleepGrows(TotalDelay(rows[..|rows| - 1], scale), scale, rows[0].ts, rows[|rows| - 2].ts, rows[|rows| - 1].ts);
    }
  }

  /** On the event-time clock a time-ordered run sleeps its own time span, scaled. */
  lemma ReplayClockTelescopes(rows: seq<Row>, scale: real)
    requires scale > 0.0 && TimeOrdered(rows) && rows != []
    ensures TotalDelay(rows, scale) * scale == (rows[|rows| - 1].ts - rows[0].ts) as real
  {
    SleepIsSpan(rows, scale);
  }

  /** A run over rows that the readers already cut at start_ts emits what it would emit over
      all rows, sorted or not. */
  lemma {:induction false} CutStream(rows: seq<Row>, lo: int, end: Option<int>, duration: nat)
    ensures From(UntilStop(From(rows, lo), lo, end, duration), lo) == From(UntilStop(rows, lo, end, duration), lo)
  {
    if rows != [] {
      CutStream(rows[1..], lo, end, duration);
      var tail := UntilStop(rows[1..], lo, end, duration);
      assert ([rows[0]] + tail)[1..] == tail;
      if lo <= rows[0].ts {
        var cut := From(rows, lo);
        assert cut[0] == rows[0] && cut[1..] == From(rows[1..], lo);
        var cutTail := UntilStop(cut[1..], lo, end, duration);
        assert ([rows[0]] + cutTail)[1..] == cutTail;
      }
    }
  }

  /** Pushing start_ts into the readers never changes what a run emits, for any files. */
  lemma PushDownEmission(files: seq<SourceFile>, cap: nat, lo: int, end: Option<int>, duration: nat)
    ensures Emission(MergedRows(files, Some(lo)), cap, Some(lo), end, duration)
         == Emission(MergedRows(files, None), cap, Some(lo), end, duration)
  {
    StartPushDown(files, lo);
    CutStream(MergedRows(files, None), lo, end, duration);
  }

  // ----- Time-ordered streams ------------------------------------------------------------

  /** How many of these rows are stamped before t. */
  function Before(rows: seq<Row>, t: int): (n: nat)
    ensures n <= |rows|
  {
    if rows == [] then 0 else (if rows[0].ts < t then 1 else 0) + Before(rows[1..], t)
  }

  /** The rows stamped in [lo, hi), in order. */
  function InWindow(rows: seq<Row>, lo: int, hi: int): seq<Row> {
    if rows == [] then []
    else if lo <= rows[0].ts < hi then [rows[0]] + InWindow(rows[1..], lo, hi)
    else InWindow(rows[1..], lo, hi)
  }

  lemma {:induction false} BeforeSplits(rows: seq<Row>, t: int)
    requires TimeOrdered(rows)
    ensures forall i :: 0 <= i < |rows| ==> (i < Before(rows, t) <==> rows[i].ts < t)
  {
    if rows != [] {
      BeforeSplits(rows[1..], t);
      if |rows| > 1 {
        assert rows[0].ts <= rows[1].ts && rows[1..][0] == rows[1];
      }
      forall i | 0 <= i < |rows|
        ensures i < Before(rows, t) <==> rows[i].ts < t
      {
        assert i > 0 ==> rows[i] == rows[1..][i - 1];
      }
    }
  }

  lemma BeforeMonotone(rows: seq<Row>, s: int, t: int)
    requires TimeOrdered(rows) && s <= t
    ensures Before(rows, s) <= Before(rows, t)
  {
    BeforeSplits(rows, s);
    BeforeSplits(rows, t);
    var i := Before(rows, t);
    assert i < |rows| ==> rows[i].ts >= s;
  }

  /** In a time-ordered stream a window is a slice. */
  lemma {:induction false} WindowIsSlice(rows: seq<Row>, lo: int, hi: int)
    requires TimeOrdered(rows) && lo <= hi
    ensures Before(rows, lo) <= Before(rows, hi)
    ensures InWindow(rows, lo, hi) == rows[Before(rows, lo)..Before(rows, hi)]
  {
    BeforeMonotone(rows, lo, hi);
    if rows != [] {
      WindowIsSlice(rows[1..], lo, hi);
      BeforeSplits(rows, lo);
      BeforeSplits(rows, hi);
      var a, b := Before(rows[1..], lo), Before(rows[1..], hi);
      if rows[0].ts < lo {
        assert rows[1..][a..b] == rows[a + 1..b + 1];
      } else if rows[0].ts < hi {
        assert rows[..b + 1] == [rows[0]] + rows[1..][..b];
      }
    }
  }

  /** Consecutive half-open windows lose nothing and repeat nothing. */
  lemma WindowsConcatenate(rows: seq<Row>, a: int, b: int, c: int)
    requires TimeOrdered(rows) && a <= b <= c
    ensures InWindow(rows, a, b) + InWindow(rows, b, c) == InWindow(rows, a, c)
  {
    WindowIsSlice(rows, a, b);
    WindowIsSlice(rows, b, c);
    WindowIsSlice(rows, a, c);
  }

  /** Over a time-ordered stream, stopping at the first row past the end is filtering. */
  lemma {:induction false} StopIsFilter(rows: seq<Row>, lo: int, hi: int)
    requires TimeOrdered(rows)
    ensures From(UntilStop(rows, lo, Some(hi), 0), lo) == InWindow(rows, lo, hi)
  {
    if rows != [] {
      StopIsFilter(rows[1..], lo, hi);
      var tail := UntilStop(rows[1..], lo, Some(hi), 0);
      assert ([rows[0]] + tail)[1..] == tail;
      if Stops(rows[0], lo, Some(hi), 0) {
        EmptyPastEnd(rows, lo, hi);
      }
    }
  }

  lemma {:induction false} EmptyPastEnd(rows: seq<Row>, lo: int, hi: int)
    requires forall i :: 0 <= i < |rows| ==> hi <= rows[i].ts
    ensures InWindow(rows, lo, hi) == []
  {
    if rows != [] {
      EmptyPastEnd(rows[1..], lo, hi);
    }
  }

  /** A replay of [lo, hi) over time-sorted files emits the first cap rows of that window of
      the sorted stream. */
  lemma ReplayEmitsWindow(files: seq<SourceFile>, cap: nat, lo: int, hi: int)
    requires AllTimeSorted(files)
    ensures Emission(MergedRows(files, Some(lo)), cap, Some(lo), Some(hi), 0)
         == Take(InWindow(MergedRows(files, None), lo, hi), cap)
  {
    PushDownEmission(files, cap, lo, Some(hi), 0);
    MergedAscending(files, None);
    StopIsFilter(MergedRows(files, None), lo, hi);
  }

  /** The stream replayer of ingest_replay reads every row and treats the end as inclusive. */
  method RunIngestReplay(rows: seq<Row>, cap: nat, start: Option<int>, lastIncluded: Option<int>, duration: nat)
    returns (emitted: seq<Row>)
    ensures emitted == Emission(rows, cap, start, ExclusiveEnd(lastIncluded), duration)
  {
    emitted := [];
    var windowStart := start;
    ghost var end := ExclusiveEnd(lastIncluded);
    var i := 0;
    while i < |rows|
      invariant 0 <= i <= |rows|
      invariant windowStart == if start.None? && i == 0 then None else Some(WindowStart(rows, start))
      invariant OnTrack(rows, i, emitted, cap, start, end, duration)
    {
      var row := rows[i];
      StepOnTrack(rows, i, emitted, cap, start, end, duration);
      StopsPastLast(row, WindowStart(rows, start), lastIncluded, duration);
      if |emitted| >= cap {
        return;
      }
      if windowStart.Some? && row.ts < windowStart.value {
        i := i + 1;
        continue;
      }
      if lastIncluded.Some? && row.ts > lastIncluded.value {
        return;
      }
      if windowStart.None? {
        windowStart := Some(row.ts);
      } else if 0 < duration && row.ts - windowStart.value > duration {
        return;
      }
      emitted := emitted + [row];
      i := i + 1;
    }
    StepOnTrack(rows, i, emitted, cap, start, end, duration);
  }

  /** In whole microseconds an inclusive end is the exclusive end one later. */
  function ExclusiveEnd(lastIncluded: Option<int>): Option<int> {
    if lastIncluded.Some? then Some(lastIncluded.value + 1) else None
  }

  lemma StopsPastLast(row: Row, lo: int, lastIncluded: Option<int>, duration: nat)
    ensures Stops(row, lo, ExclusiveEnd(lastIncluded), duration) <==>
            lo <= row.ts && ((lastIncluded.Some? && lastIncluded.value < row.ts)
                             || (0 < duration && duration < row.ts - lo))
  {
  }

  // ----- A run in terms of its rows ------------------------------------------------------

  /** Rows picked out of a stream at increasing positions. */
  ghost predicate PickedAt(picked: seq<Row>, rows: seq<Row>, positions: seq<nat>) {
    && |positions| == |picked|
    && (forall k :: 0 <= k < |positions| ==> positions[k] < |rows| && picked[k] == rows[positions[k]])
    && (forall j, k :: 0 <= j < k < |positions| ==> positions[j] < positions[k])
  }

  /** Positions in the tail, seen from the whole. */
  lemma TailPicked(picked: seq<Row>, rows: seq<Row>, positions: seq<nat>)
    requires rows != [] && PickedAt(picked, rows[1..], positions)
    ensures PickedAt(picked, rows, Shifted(positions))
  {
  }

  lemma HeadPicked(picked: seq<Row>, rows: seq<Row>, positions: seq<nat>)
    requires rows != [] && PickedAt(picked, rows, positions) && (positions != [] ==> 0 < positions[0])
    ensures PickedAt([rows[0]] + picked, rows, [0] + positions)
  {
    var all := [0] + positions;
    forall k | 0 <= k < |all|
      ensures all[k] < |rows| && ([rows[0]] + picked)[k] == rows[all[k]]
    {
      if k > 0 {
        assert all[k] == positions[k - 1] && ([rows[0]] + picked)[k] == picked[k - 1];
      }
    }
    forall j, k | 0 <= j < k < |all|
      ensures all[j] < all[k]
    {
      assert all[k] == positions[k - 1] && positions[0] <= positions[k - 1];
    }
  }

  lemma {:induction false} FromPositions(rows: seq<Row>, lo: int) returns (positions: seq<nat>)
    ensures PickedAt(From(rows, lo), rows, positions)
    ensures forall i: nat :: i in positions <==> i < |rows| && lo <= rows[i].ts
  {
    positions := [];
    if rows != [] {
      var rest := FromPositions(rows[1..], lo);
      positions := if lo <= rows[0].ts then [0] + Shifted(rest) else Shifted(rest);
      TailPicked(From(rows[1..], lo), rows, rest);
      if lo <= rows[0].ts {
        HeadPicked(From(rows[1..], lo), rows, Shifted(rest));
      }
      forall i: nat
        ensures i in positions <==> i < |rows| && lo <= rows[i].ts
      {
        TailMembers(rows, rest, lo, i);
      }
    }
  }

  lemma TailMembers(rows: seq<Row>, rest: seq<nat>, lo: int, i: nat)
    requires rows != [] && forall k: nat :: k in rest <==> k < |rows| - 1 && lo <= rows[1..][k].ts
    ensures i in Shifted(rest) <==> 0 < i < |rows| && lo <= rows[i].ts
    ensures i in [0] + Shifted(rest) <==> i == 0 || (0 < i < |rows| && lo <= rows[i].ts)
  {
    ShiftedElements(rest, i);
    if 0 < i < |rows| {
      assert rows[i] == rows[1..][i - 1];
    }
  }

  function Shifted(positions: seq<nat>): (shifted: seq<nat>)
    ensures |shifted| == |positions| && forall k :: 0 <= k < |positions| ==> shifted[k] == positions[k] + 1
  {
    seq(|positions|, k requires 0 <= k < |positions| => positions[k] + 1)
  }

  lemma ShiftedElements(positions: seq<nat>, i: nat)
    ensures i in Shifted(positions) <==> i > 0 && i - 1 in positions
  {
    if i > 0 && i - 1 in positions {
      var k :| 0 <= k < |positions| && positions[k] == i - 1;
      assert Shifted(positions)[k] == i;
    }
  }

  /** Where the rows stop: at the first that is not older than lo and past the end or, with a
      positive duration, more than the duration after lo. */
  lemma {:induction false} StopPosition(rows: seq<Row>, lo: int, end: Option<int>, duration: nat) returns (m: nat)
    ensures m <= |rows| && UntilStop(rows, lo, end, duration) == rows[..m]
    ensures forall j :: 0 <= j < m && lo <= rows[j].ts ==>
              (end.Some? ==> rows[j].ts < end.value) && (duration > 0 ==> rows[j].ts - lo <= duration)
    ensures m < |rows| ==>
              lo <= rows[m].ts
              && ((end.Some? && end.value <= rows[m].ts) || (duration > 0 && duration < rows[m].ts - lo))
  {
    m := 0;
    if rows != [] && !Stops(rows[0], lo, end, duration) {
      var n := StopPosition(rows[1..], lo, end, duration);
      m := n + 1;
      assert rows[..m] == [rows[0]] + rows[1..][..n];
      forall j | 0 <= j < m && lo <= rows[j].ts
        ensures (end.Some? ==> rows[j].ts < end.value) && (duration > 0 ==> rows[j].ts - lo <= duration)
      {
        assert j > 0 ==> rows[j] == rows[1..][j - 1];
      }
    }
  }

  /** A run over any rows, sorted or not: it emits, in order, the first `cap` rows that are not
      older than the start (or than the first row, without one) and come before the first such
      row that is at or past the end or, with a positive duration, later than the start by more
      than the duration. */
  lemma EmissionByPosition(rows: seq<Row>, cap: nat, start: Option<int>, end: Option<int>, duration: nat)
    returns (m: nat, positions: seq<nat>)
    requires rows != []
    ensures var lo := if start.Some? then start.value else rows[0].ts;
            && m <= |rows|
            && (forall j :: 0 <= j < m && lo <= rows[j].ts ==>
                  (end.Some? ==> rows[j].ts < end.value) && (duration > 0 ==> rows[j].ts - lo <= duration))
            && (m < |rows| ==>
                  && lo <= rows[m].ts
                  && ((end.Some? && end.value <= rows[m].ts) || (duration > 0 && duration < rows[m].ts - lo)))
            && (forall i: nat :: i in positions <==> i < m && lo <= rows[i].ts)
            && (forall j, k :: 0 <= j < k < |positions| ==> positions[j] < positions[k])
            && |Emission(rows, cap, start, end, duration)| == Min(cap, |positions|)
            && (forall k :: 0 <= k < Min(cap, |positions|) ==>
                  positions[k] < |rows| && Emission(rows, cap, start, end, duration)[k] == rows[positions[k]])
  {
    var lo := WindowStart(rows, start);
    m := StopPosition(rows, lo, end, duration);
    positions := FromPositions(rows[..m], lo);
  }

  /** Over time-ordered rows the emission is the first `cap` rows between the start and the end,
      the end excluded, that are not more than a positive duration after the start. */
  lemma EmissionInOrder(rows: seq<Row>, cap: nat, start: Option<int>, end: Option<int>, duration: nat)
    returns (a: nat, b: nat)
    requires TimeOrdered(rows) && rows != []
    ensures a <= b <= |rows| && Emission(rows, cap, start, end, duration) == rows[a..Min(b, a + cap)]
    ensures var lo := if start.Some? then start.value else rows[0].ts;
            forall i :: 0 <= i < |rows| ==>
              (a <= i < b <==>
                && lo <= rows[i].ts && (end.Some? ==> rows[i].ts < end.value)
                && (duration > 0 ==> rows[i].ts - lo <= duration))
  {
    var lo := if start.Some? then start.value else rows[0].ts;
    var m := StopPosition(rows, lo, end, duration);
    var kept := rows[..m];
    SuffixFrom(kept, lo);
    BeforeSplits(kept, lo);
    a, b := Before(kept, lo), m;
    assert kept[a..] == rows[a..m];
    assert Emission(rows, cap, start, end, duration) == Take(rows[a..m], cap);
    TakeSlice(rows, a, m, cap);
    forall i | 0 <= i < |rows|
      ensures a <= i < b <==>
              && lo <= rows[i].ts && (end.Some? ==> rows[i].ts < end.value)
              && (duration > 0 ==> rows[i].ts - lo <= duration)
    {
      assert i < m ==> kept[i] == rows[i];
      assert m <= i ==> rows[m].ts <= rows[i].ts;
    }
  }

  /** The variant that includes the end timestamp: the first `cap` rows from the start to the end, the
      end included, that are not more than a positive duration after the start. */
  lemma IngestInOrder(rows: seq<Row>, cap: nat, start: Option<int>, lastIncluded: Option<int>, duration: nat)
    returns (a: nat, b: nat)
    requires TimeOrdered(rows) && rows != []
    ensures a <= b <= |rows|
            && Emission(rows, cap, start, ExclusiveEnd(lastIncluded), duration) == rows[a..Min(b, a + cap)]
    ensures var lo := if start.Some? then start.value else rows[0].ts;
            forall i :: 0 <= i < |rows| ==>
              (a <= i < b <==>
                && lo <= rows[i].ts && (lastIncluded.Some? ==> rows[i].ts <= lastIncluded.value)
                && (duration > 0 ==> rows[i].ts - lo <= duration))
  {
    a, b := EmissionInOrder(rows, cap, start, ExclusiveEnd(lastIncluded), duration);
  }

  lemma TakeSlice(rows: seq<Row>, lo: nat, hi: nat, n: nat)
    requires lo <= hi <= |rows|
    ensures Take(rows[lo..hi], n) == rows[lo..Min(hi, lo + n)]
  {
  }

  lemma {:induction false} SuffixFrom(rows: seq<Row>, lo: int)
    requires TimeOrdered(rows)
    ensures From(rows, lo) == rows[Before(rows, lo)..]
  {
    if rows != [] {
      SuffixFrom(rows[1..], lo);
      BeforeSplits(rows, lo);
      BeforeSplits(rows[1..], lo);
      assert rows == [rows[0]] + rows[1..];
      var n := Before(rows[1..], lo);
      if rows[0].ts < lo {
        assert rows[1..][n..] == rows[n + 1..];
      }
    }
  }
}
