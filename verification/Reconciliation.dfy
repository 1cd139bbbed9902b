/** Chunked reads of the live tables, the issues built from them, and exactly when the worker
    raises no false alarm. */
module Reconciliation {
  import opened Wrappers
  import opened Arithmetic
  import opened Coverage
  import opened Timeline

  // ----- Minute counts -------------------------------------------------------------------

  /** The keys stamped in [start, end). */
  function Within(keys: set<Key>, start: int, end: int): set<Key> {
    set k | k in keys && start <= k.ts < end
  }

  function InBucket(keys: set<Key>, bucket: Key, r: Resolution): set<Key> {
    set k | k in keys && Bucket(k, r) == bucket
  }

  /** Distinct stamps per minute, meter and measurement: what event_minute_counts builds from
      the source keys and what one grouped query returns for a window of the ledger. */
  function MinuteCounts(keys: set<Key>): map<Key, nat> {
    map b | b in Buckets(keys, OneMinute) :: |InBucket(keys, b, OneMinute)|
  }

  function CountOf(counts: map<Key, nat>, bucket: Key): nat {
    if bucket in counts then counts[bucket] else 0
  }

  /** An absent minute is one with no stamps in it. */
  lemma CountOfMinute(keys: set<Key>, bucket: Key)
    ensures CountOf(MinuteCounts(keys), bucket) == |InBucket(keys, bucket, OneMinute)|
    ensures bucket in MinuteCounts(keys) <==> InBucket(keys, bucket, OneMinute) != {}
  {
    if bucket !in Buckets(keys, OneMinute) {
      assert InBucket(keys, bucket, OneMinute) == {};
    } else {
      var k :| k in keys && Bucket(k, OneMinute) == bucket;
      assert k in InBucket(keys, bucket, OneMinute);
    }
  }

  /** SourceCoverage.event_minute_counts: one increment per exact key. */
  method EventMinuteCounts(exact: set<Key>) returns (counts: map<Key, nat>)
    ensures counts == MinuteCounts(exact)
  {
    counts := map[];
    var todo := exact;
    while todo != {}
      invariant todo <= exact && counts == MinuteCounts(exact - todo)
      decreases todo
    {
      var k :| k in todo;
      var bucket := Bucket(k, OneMinute);
      OneMoreKey(exact - todo, k);
      assert exact - (todo - {k}) == (exact - todo) + {k};
      counts := counts[bucket := CountOf(counts, bucket) + 1];
      todo := todo - {k};
    }
    assert exact - todo == exact;
  }

  lemma OneMoreKey(keys: set<Key>, k: Key)
    requires k !in keys
    ensures var bucket := Bucket(k, OneMinute);
            MinuteCounts(keys + {k}) == MinuteCounts(keys)[bucket := CountOf(MinuteCounts(keys), bucket) + 1]
  {
    var bucket := Bucket(k, OneMinute);
    BucketsGrow(keys, k, OneMinute);
    CountOfMinute(keys, bucket);
    forall b
      ensures |InBucket(keys + {k}, b, OneMinute)| == |InBucket(keys, b, OneMinute)| + if b == bucket then 1 else 0
    {
      BucketGrows(keys, k, b);
    }
  }

  lemma BucketGrows(keys: set<Key>, k: Key, b: Key)
    requires k !in keys
    ensures InBucket(keys + {k}, b, OneMinute)
         == InBucket(keys, b, OneMinute) + if b == Bucket(k, OneMinute) then {k} else {}
    ensures |InBucket(keys + {k}, b, OneMinute)|
         == |InBucket(keys, b, OneMinute)| + if b == Bucket(k, OneMinute) then 1 else 0
  {
    var more := InBucket(keys, b, OneMinute) + if b == Bucket(k, OneMinute) then {k} else {};
    assert InBucket(keys + {k}, b, OneMinute) == more;
  }

  // ----- Chunked reads -------------------------------------------------------------------

  /** What the chunk loop accumulates: a minute that two chunks return keeps the later count. */
  function ChunkedCounts(ledger: set<Key>, start: int, end: int, chunk: nat): map<Key, nat>
    requires chunk > 0
    decreases end - start
  {
    if start >= end then map[]
    else
      var next := Min(start + chunk * MINUTE, end);
      MinuteCounts(Within(ledger, start, next)) + ChunkedCounts(ledger, next, end, chunk)
  }

  /** fetch_event_minute_counts; a chunk length that is not positive raises. */
  method FetchEventMinuteCounts(ledger: set<Key>, start: int, end: int, chunkMinutes: int)
    returns (counts: Outcome<map<Key, nat>>)
    ensures counts.Raised? <==> chunkMinutes <= 0
    ensures chunkMinutes > 0 ==> counts == Returned(ChunkedCounts(ledger, start, end, chunkMinutes))
  {
    if chunkMinutes <= 0 {
      return Raised;
    }
    var found: map<Key, nat> := map[];
    var cursor := start;
    while cursor < end
      invariant found + ChunkedCounts(ledger, cursor, end, chunkMinutes)
                  == ChunkedCounts(ledger, start, end, chunkMinutes)
      decreases end - cursor
    {
      var next := Min(cursor + chunkMinutes * MINUTE, end);
      var part := MinuteCounts(Within(ledger, cursor, next));
      OverrideAssociative(found, part, ChunkedCounts(ledger, next, end, chunkMinutes));
      found := found + part;
      cursor := next;
    }
    assert found + map[] == found;
    counts := Returned(found);
  }

  lemma OverrideAssociative(a: map<Key, nat>, b: map<Key, nat>, c: map<Key, nat>)
    ensures a + b + c == a + (b + c)
  {
  }

  /** fetch_live_rollup_keys: the keys of one rollup table, chunk by chunk. */
  method FetchRollupKeys(table: set<Key>, start: int, end: int, chunkMinutes: int) returns (keys: Outcome<set<Key>>)
    ensures keys.Raised? <==> chunkMinutes <= 0
    ensures chunkMinutes > 0 ==> keys == Returned(Within(table, start, end))
  {
    if chunkMinutes <= 0 {
      return Raised;
    }
    var found: set<Key> := {};
    var cursor := start;
    while cursor < end
      invariant if start < end then start <= cursor <= end else cursor == start
      invariant found == Within(table, start, cursor)
      decreases end - cursor
    {
      var next := Min(cursor + chunkMinutes * MINUTE, end);
      found := found + Within(table, cursor, next);
      cursor := next;
    }
    assert start >= end ==> found == Within(table, start, end) == {};
    keys := Returned(found);
  }

  lemma WithinMonotone(ledger: set<Key>, a: int, b: int, c: int, d: int, bucket: Key)
    requires c <= a && b <= d
    ensures |InBucket(Within(ledger, a, b), bucket, OneMinute)| <= |InBucket(Within(ledger, c, d), bucket, OneMinute)|
  {
    SubsetSize(InBucket(Within(ledger, a, b), bucket, OneMinute), InBucket(Within(ledger, c, d), bucket, OneMinute));
  }

  lemma SubsetSize<T>(a: set<T>, b: set<T>)
    requires a <= b
    ensures |a| <= |b|
  {
    assert b == a + (b - a);
  }

  /** Chunked counts never exceed the counts of one read of the whole window. */
  lemma {:induction false} ChunkedNeverExceeds(ledger: set<Key>, start: int, end: int, chunk: nat, bucket: Key)
    requires chunk > 0
    ensures CountOf(ChunkedCounts(ledger, start, end, chunk), bucket)
         <= CountOf(MinuteCounts(Within(ledger, start, end)), bucket)
    decreases end - start
  {
    CountOfMinute(Within(ledger, start, end), bucket);
    if start < end {
      var next := Min(start + chunk * MINUTE, end);
      ChunkedNeverExceeds(ledger, next, end, chunk, bucket);
      CountOfMinute(Within(ledger, start, next), bucket);
      CountOfMinute(Within(ledger, next, end), bucket);
      WithinMonotone(ledger, start, next, start, end, bucket);
      WithinMonotone(ledger, next, end, start, end, bucket);
    }
  }

  /** A boundary on a whole minute splits no minute. */
  lemma CountsSplitAtMinute(ledger: set<Key>, start: int, next: int, end: int)
    requires start <= next <= end && next % MINUTE == 0
    ensures MinuteCounts(Within(ledger, start, end))
         == MinuteCounts(Within(ledger, start, next)) + MinuteCounts(Within(ledger, next, end))
  {
    var all, early, late := Within(ledger, start, end), Within(ledger, start, next), Within(ledger, next, end);
    forall bucket
      ensures bucket in MinuteCounts(all) <==> bucket in MinuteCounts(early) + MinuteCounts(late)
      ensures bucket in MinuteCounts(all) ==>
                MinuteCounts(all)[bucket] == (MinuteCounts(early) + MinuteCounts(late))[bucket]
    {
      CountOfMinute(all, bucket);
      CountOfMinute(early, bucket);
      CountOfMinute(late, bucket);
      MinuteOnOneSide(ledger, start, next, end, bucket);
    }
  }

  lemma MinuteOnOneSide(ledger: set<Key>, start: int, next: int, end: int, bucket: Key)
    requires start <= next <= end && next % MINUTE == 0
    ensures bucket.ts < next ==>
              && InBucket(Within(ledger, start, end), bucket, OneMinute)
                   == InBucket(Within(ledger, start, next), bucket, OneMinute)
              && InBucket(Within(ledger, next, end), bucket, OneMinute) == {}
    ensures next <= bucket.ts ==>
              && InBucket(Within(ledger, start, end), bucket, OneMinute)
                   == InBucket(Within(ledger, next, end), bucket, OneMinute)
              && InBucket(Within(ledger, start, next), bucket, OneMinute) == {}
  {
    forall k | k in ledger && Bucket(k, OneMinute) == bucket
      ensures next <= k.ts <==> next <= bucket.ts
    {
      FloorIsLastBoundary(k.ts, OneMinute);
      if next <= k.ts {
        FloorNotBelowBoundary(k.ts, OneMinute, next);
      }
    }
  }

  lemma {:induction false} AlignedChunksExact(ledger: set<Key>, start: int, end: int, chunk: nat)
    requires chunk > 0 && (start % MINUTE == 0 || end - start <= chunk * MINUTE)
    ensures ChunkedCounts(ledger, start, end, chunk) == MinuteCounts(Within(ledger, start, end))
    decreases end - start
  {
    if start < end {
      var next := Min(start + chunk * MINUTE, end);
      AlignedChunksExact(ledger, next, end, chunk);
      if next < end {
        CountsSplitAtMinute(ledger, start, next, end);
      } else {
        assert Within(ledger, end, end) == {};
      }
    } else {
      assert Within(ledger, start, end) == {};
    }
  }

  /** Two stamps on either side of a boundary. */
  function SplitMinute(next: int): set<Key> {
    {Key(next - 1, "", ""), Key(next, "", "")}
  }

  lemma SplitMinuteBuckets(start: int, next: int, end: int)
    requires start < next < end && next % MINUTE != 0
    ensures var ledger, bucket := SplitMinute(next), Bucket(Key(next, "", ""), OneMinute);
            && InBucket(Within(ledger, start, end), bucket, OneMinute) == ledger
            && InBucket(Within(ledger, start, next), bucket, OneMinute) == {Key(next - 1, "", "")}
            && InBucket(Within(ledger, next, end), bucket, OneMinute) == {Key(next, "", "")}
  {
    assert Bucket(Key(next - 1, "", ""), OneMinute) == Bucket(Key(next, "", ""), OneMinute);
  }

  /** The first chunk returns a minute's count unless a later one does. */
  lemma FirstChunkOrLater(ledger: set<Key>, start: int, next: int, end: int, chunk: nat, bucket: Key)
    requires chunk > 0 && start < next < end && next == start + chunk * MINUTE
    ensures CountOf(ChunkedCounts(ledger, start, end, chunk), bucket)
         == if bucket in ChunkedCounts(ledger, next, end, chunk) then ChunkedCounts(ledger, next, end, chunk)[bucket]
            else CountOf(MinuteCounts(Within(ledger, start, next)), bucket)
  {
  }

  lemma SplitAtChunkLoses(start: int, next: int, end: int, chunk: nat)
    requires chunk > 0 && start < next < end && next == start + chunk * MINUTE && next % MINUTE != 0
    ensures ChunkedCounts(SplitMinute(next), start, end, chunk) != MinuteCounts(Within(SplitMinute(next), start, end))
  {
    var ledger, bucket := SplitMinute(next), Bucket(Key(next, "", ""), OneMinute);
    SplitMinuteBuckets(start, next, end);
    CountOfMinute(Within(ledger, start, end), bucket);
    CountOfMinute(Within(ledger, start, next), bucket);
    CountOfMinute(Within(ledger, next, end), bucket);
    ChunkedNeverExceeds(ledger, next, end, chunk, bucket);
    FirstChunkOrLater(ledger, start, next, end, chunk, bucket);
    assert CountOf(ChunkedCounts(ledger, start, end, chunk), bucket) <= 1;
    assert CountOf(MinuteCounts(Within(ledger, start, end)), bucket) == |ledger| == 2;
  }

  lemma SplitMinuteLosesAPoint(start: int, end: int, chunk: nat)
    requires chunk > 0 && start % MINUTE != 0 && chunk * MINUTE < end - start
    ensures var ledger := SplitMinute(start + chunk * MINUTE);
            ChunkedCounts(ledger, start, end, chunk) != MinuteCounts(Within(ledger, start, end))
  {
    DivUnique(start + chunk * MINUTE, MINUTE, start / MINUTE + chunk, start % MINUTE);
    SplitAtChunkLoses(start, start + chunk * MINUTE, end, chunk);
  }

  /** Chunked counts equal those of one read, for every ledger, if and only if the window
      starts on a whole minute or fits in one chunk. */
  lemma ChunkedExactIff(start: int, end: int, chunk: nat)
    requires chunk > 0
    ensures (forall ledger :: ChunkedCounts(ledger, start, end, chunk) == MinuteCounts(Within(ledger, start, end)))
            <==> start % MINUTE == 0 || end - start <= chunk * MINUTE
  {
    if start % MINUTE == 0 || end - start <= chunk * MINUTE {
      forall ledger {
        AlignedChunksExact(ledger, start, end, chunk);
      }
    } else {
      SplitMinuteLosesAPoint(start, end, chunk);
    }
  }

  // ----- Issues --------------------------------------------------------------------------

  /** Which comparison found the gap. */
  datatype Kind = EventMinute | RollupKey(resolution: Resolution)

  datatype Issue = Issue(kind: Kind, bucket: Key, expected: nat, actual: nat, missing: int)

  /** The fields the coverage key is hashed from. */
  function CoverageKey(x: Issue): (Kind, Key) {
    (x.kind, x.bucket)
  }

  ghost predicate DistinctIssues(issues: seq<Issue>) {
    forall i, j :: 0 <= i < j < |issues| ==> CoverageKey(issues[i]) != CoverageKey(issues[j])
  }

  datatype Rollups = Rollups(minutes: set<Key>, quarters: set<Key>, hours: set<Key>) {
    function Table(r: Resolution): set<Key> {
      match r
      case OneMinute => minutes
      case QuarterHour => quarters
      case OneHour => hours
    }
  }

  ghost predicate UnderCounted(exact: set<Key>, counts: map<Key, nat>, x: Issue) {
    && x.kind == EventMinute
    && x.expected == CountOf(MinuteCounts(exact), x.bucket)
    && x.actual == CountOf(counts, x.bucket)
    && x.actual < x.expected
    && x.missing == x.expected - x.actual
  }

  ghost predicate MissingKey(exact: set<Key>, present: set<Key>, r: Resolution, x: Issue) {
    && x == Issue(RollupKey(r), x.bucket, 1, 0, 1)
    && x.bucket in Buckets(exact, r) - present
  }

  method EventMinuteIssues(exact: set<Key>, counts: map<Key, nat>) returns (issues: seq<Issue>)
    ensures DistinctIssues(issues)
    ensures forall x :: x in issues <==> UnderCounted(exact, counts, x)
  {
    issues := [];
    var expectedCounts := EventMinuteCounts(exact);
    var todo := expectedCounts.Keys;
    while todo != {}
      invariant todo <= expectedCounts.Keys && DistinctIssues(issues)
      invariant forall x :: x in issues <==> UnderCounted(exact, counts, x) && x.bucket !in todo
      decreases todo
    {
      var bucket :| bucket in todo;
      var expected, actual := expectedCounts[bucket], CountOf(counts, bucket);
      todo := todo - {bucket};
      if actual < expected {
        issues := issues + [Issue(EventMinute, bucket, expected, actual, expected - actual)];
      }
    }
  }

  method RollupIssues(exact: set<Key>, present: set<Key>, r: Resolution) returns (issues: seq<Issue>)
    ensures DistinctIssues(issues)
    ensures forall x :: x in issues <==> MissingKey(exact, present, r, x)
  {
    issues := [];
    var todo := Buckets(exact, r) - present;
    while todo != {}
      invariant todo <= Buckets(exact, r) - present && DistinctIssues(issues)
      invariant forall x :: x in issues <==> MissingKey(exact, present, r, x) && x.bucket !in todo
      decreases todo
    {
      var bucket :| bucket in todo;
      todo := todo - {bucket};
      issues := issues + [Issue(RollupKey(r), bucket, 1, 0, 1)];
    }
  }

  ghost predicate IsIssue(exact: set<Key>, counts: map<Key, nat>, rollups: Rollups, x: Issue) {
    UnderCounted(exact, counts, x) || exists r :: MissingKey(exact, rollups.Table(r), r, x)
  }

  /** build_coverage_issues: each under-counted minute and each missing key of each resolution
      once, and nothing else. */
  method BuildCoverageIssues(exact: set<Key>, counts: map<Key, nat>, rollups: Rollups) returns (issues: seq<Issue>)
    ensures DistinctIssues(issues)
    ensures forall x :: x in issues <==> IsIssue(exact, counts, rollups, x)
  {
    var events := EventMinuteIssues(exact, counts);
    var minutes := RollupIssues(exact, rollups.minutes, OneMinute);
    var quarters := RollupIssues(exact, rollups.quarters, QuarterHour);
    var hours := RollupIssues(exact, rollups.hours, OneHour);
    issues := events + minutes + quarters + hours;
    IssuesTogether(exact, counts, rollups, events, minutes, quarters, hours);
  }

  lemma IssuesTogether(exact: set<Key>, counts: map<Key, nat>, rollups: Rollups,
                       events: seq<Issue>, minutes: seq<Issue>, quarters: seq<Issue>, hours: seq<Issue>)
    requires DistinctIssues(events) && DistinctIssues(minutes) && DistinctIssues(quarters) && DistinctIssues(hours)
    requires forall x :: x in events <==> UnderCounted(exact, counts, x)
    requires forall x :: x in minutes <==> MissingKey(exact, rollups.minutes, OneMinute, x)
    requires forall x :: x in quarters <==> MissingKey(exact, rollups.quarters, QuarterHour, x)
    requires forall x :: x in hours <==> MissingKey(exact, rollups.hours, OneHour, x)
    ensures DistinctIssues(events + minutes + quarters + hours)
    ensures forall x :: x in events + minutes + quarters + hours <==> IsIssue(exact, counts, rollups, x)
  {
    forall x
      ensures IsIssue(exact, counts, rollups, x) <==> x in events || x in minutes || x in quarters || x in hours
    {
      assert MissingKey(exact, rollups.Table(OneMinute), OneMinute, x) <==> x in minutes;
      assert MissingKey(exact, rollups.Table(QuarterHour), QuarterHour, x) <==> x in quarters;
      assert MissingKey(exact, rollups.Table(OneHour), OneHour, x) <==> x in hours;
    }
    DistinctTogether(events, minutes);
    DistinctTogether(events + minutes, quarters);
    DistinctTogether(events + minutes + quarters, hours);
  }

  lemma DistinctTogether(a: seq<Issue>, b: seq<Issue>)
    requires DistinctIssues(a) && DistinctIssues(b)
    requires forall x, y :: x in a && y in b ==> x.kind != y.kind
    ensures DistinctIssues(a + b)
  {
  }

  // ----- One run of the worker -----------------------------------------------------------

  datatype RunArgs = RunArgs(start: int, end: int, eventChunk: int, rollupChunk: int, skipEvents: bool,
                             skipRollups: bool) {
    /** The window is not empty and the chunk lengths of the reads that are made are positive. */
    predicate Readable() {
      start < end && (skipEvents || 0 < eventChunk) && (skipRollups || 0 < rollupChunk)
    }
  }

  /** What the worker compares the source with. */
  function CountsRead(ledger: set<Key>, a: RunArgs): map<Key, nat>
    requires a.Readable()
  {
    if a.skipEvents then map[] else ChunkedCounts(ledger, a.start, a.end, a.eventChunk)
  }

  function RollupsRead(tables: Rollups, a: RunArgs): Rollups {
    if a.skipRollups then Rollups({}, {}, {})
    else Rollups(Within(tables.minutes, a.start, a.end), Within(tables.quarters, a.start, a.end),
                 Within(tables.hours, a.start, a.end))
  }

  /** main up to the issues: the reads, unless skipped, and the comparison. */
  method Reconcile(exact: set<Key>, ledger: set<Key>, tables: Rollups, a: RunArgs) returns (issues: Outcome<seq<Issue>>)
    ensures issues.Raised? <==> !a.Readable()
    ensures a.Readable() ==>
              && DistinctIssues(issues.value)
              && forall x :: x in issues.value <==> IsIssue(exact, CountsRead(ledger, a), RollupsRead(tables, a), x)
  {
    if a.end <= a.start {
      return Raised;
    }
    var counts: map<Key, nat> := map[];
    if !a.skipEvents {
      var read := FetchEventMinuteCounts(ledger, a.start, a.end, a.eventChunk);
      if read.Raised? {
        return Raised;
      }
      counts := read.value;
    }
    var rollups := Rollups({}, {}, {});
    if !a.skipRollups {
      var minutes := FetchRollupKeys(tables.minutes, a.start, a.end, a.rollupChunk);
      var quarters := FetchRollupKeys(tables.quarters, a.start, a.end, a.rollupChunk);
      var hours := FetchRollupKeys(tables.hours, a.start, a.end, a.rollupChunk);
      if minutes.Raised? || quarters.Raised? || hours.Raised? {
        return Raised;
      }
      rollups := Rollups(minutes.value, quarters.value, hours.value);
    }
    var found := BuildCoverageIssues(exact, counts, rollups);
    issues := Returned(found);
  }

  /** No gap goes unreported, whatever the alignment: a minute with fewer distinct stamps in
      the ledger than in the source, and a bucket absent from its rollup table. */
  lemma EveryGapIsReported(exact: set<Key>, ledger: set<Key>, tables: Rollups, a: RunArgs, bucket: Key, r: Resolution)
    requires a.Readable()
    ensures var held := CountOf(MinuteCounts(Within(ledger, a.start, a.end)), bucket);
            var expected := CountOf(MinuteCounts(exact), bucket);
            held < expected ==>
              exists x :: && IsIssue(exact, CountsRead(ledger, a), RollupsRead(tables, a), x)
                          && x.kind == EventMinute && x.bucket == bucket && x.missing >= expected - held
    ensures bucket in Buckets(exact, r) - tables.Table(r) ==>
              IsIssue(exact, CountsRead(ledger, a), RollupsRead(tables, a), Issue(RollupKey(r), bucket, 1, 0, 1))
  {
    var expected, actual := CountOf(MinuteCounts(exact), bucket), CountOf(CountsRead(ledger, a), bucket);
    if !a.skipEvents {
      ChunkedNeverExceeds(ledger, a.start, a.end, a.eventChunk, bucket);
    }
    if CountOf(MinuteCounts(Within(ledger, a.start, a.end)), bucket) < expected {
      var x := Issue(EventMinute, bucket, expected, actual, expected - actual);
      assert IsIssue(exact, CountsRead(ledger, a), RollupsRead(tables, a), x);
    }
    if bucket in Buckets(exact, r) - tables.Table(r) {
      assert MissingKey(exact, RollupsRead(tables, a).Table(r), r, Issue(RollupKey(r), bucket, 1, 0, 1));
    }
  }

  ghost predicate ScannedIn(exact: set<Key>, a: RunArgs) {
    forall k :: k in exact ==> a.start <= k.ts < a.end
  }

  /** The live side holds every key and every rollup of the source window. */
  ghost predicate HoldsAll(exact: set<Key>, ledger: set<Key>, tables: Rollups) {
    exact <= ledger && forall r :: Buckets(exact, r) <= tables.Table(r)
  }

  ghost predicate NoIssues(exact: set<Key>, ledger: set<Key>, tables: Rollups, a: RunArgs)
    requires a.Readable()
  {
    forall x :: !IsIssue(exact, CountsRead(ledger, a), RollupsRead(tables, a), x)
  }

  /** Minute by minute, a ledger that holds the source counts no less than the source. */
  lemma HeldMinuteIsQuiet(exact: set<Key>, ledger: set<Key>, a: RunArgs, x: Issue)
    requires a.Readable() && !a.skipEvents && a.start % MINUTE == 0 && ScannedIn(exact, a) && exact <= ledger
    ensures !UnderCounted(exact, CountsRead(ledger, a), x)
  {
    AlignedChunksExact(ledger, a.start, a.end, a.eventChunk);
    CountOfMinute(exact, x.bucket);
    CountOfMinute(Within(ledger, a.start, a.end), x.bucket);
    SubsetSize(InBucket(exact, x.bucket, OneMinute), InBucket(Within(ledger, a.start, a.end), x.bucket, OneMinute));
  }

  /** From a window that starts on a boundary, a rollup table that has every source bucket is
      read with every source bucket. */
  lemma HeldBucketIsRead(exact: set<Key>, table: set<Key>, a: RunArgs, r: Resolution)
    requires a.start % Width(r) == 0 && ScannedIn(exact, a) && Buckets(exact, r) <= table
    ensures Buckets(exact, r) <= Within(table, a.start, a.end)
  {
    forall bucket | bucket in Buckets(exact, r)
      ensures bucket in Within(table, a.start, a.end)
    {
      var k :| k in exact && Bucket(k, r) == bucket;
      FloorIsLastBoundary(k.ts, r);
      FloorNotBelowBoundary(k.ts, r, a.start);
    }
  }

  /** With nothing skipped and the window starting on a whole hour, a live side that holds
      everything gives no issue. */
  lemma AlignedRunIsQuiet(exact: set<Key>, ledger: set<Key>, tables: Rollups, a: RunArgs)
    requires a.Readable() && !a.skipEvents && !a.skipRollups && a.start % HOUR == 0
    requires ScannedIn(exact, a) && HoldsAll(exact, ledger, tables)
    ensures NoIssues(exact, ledger, tables, a)
  {
    HourIsBoundary(a.start, OneMinute);
    forall r: Resolution
      ensures Buckets(exact, r) <= RollupsRead(tables, a).Table(r)
    {
      HourIsBoundary(a.start, r);
      HeldBucketIsRead(exact, tables.Table(r), a, r);
    }
    forall x
      ensures !IsIssue(exact, CountsRead(ledger, a), RollupsRead(tables, a), x)
    {
      HeldMinuteIsQuiet(exact, ledger, a, x);
    }
  }

  lemma HourIsBoundary(t: int, r: Resolution)
    requires t % HOUR == 0
    ensures t % Width(r) == 0
  {
    var perHour := match r case OneMinute => 60 case QuarterHour => 4 case OneHour => 1;
    assert t == t / HOUR * HOUR;
    assert perHour * Width(r) == HOUR;
    assert t == t / HOUR * perHour * Width(r);
    DivUnique(t, Width(r), t / HOUR * perHour, 0);
  }

  /** The worker raises no false alarm on any source and any live side that holds it, if and
      only if nothing is skipped and the window starts on a whole hour. */
  lemma NoFalseAlarmIff(a: RunArgs)
    requires a.Readable()
    ensures (forall exact, ledger, tables ::
               ScannedIn(exact, a) && HoldsAll(exact, ledger, tables)
               ==> NoIssues(exact, ledger, tables, a))
            <==> !a.skipEvents && !a.skipRollups && a.start % HOUR == 0
  {
    if !a.skipEvents && !a.skipRollups && a.start % HOUR == 0 {
      forall exact, ledger, tables | ScannedIn(exact, a) && HoldsAll(exact, ledger, tables)
        ensures NoIssues(exact, ledger, tables, a)
      {
        AlignedRunIsQuiet(exact, ledger, tables, a);
      }
    } else {
      FalseAlarm(a);
    }
  }

  /** One reading at the very start of the window is enough: its hour bucket starts before
      the window, and a skipped comparison compares with nothing. */
  lemma FalseAlarm(a: RunArgs)
    requires a.Readable() && (a.skipEvents || a.skipRollups || a.start % HOUR != 0)
    ensures var exact := {Key(a.start, "", "")};
            var tables := Rollups(Buckets(exact, OneMinute), Buckets(exact, QuarterHour), Buckets(exact, OneHour));
            HoldsAll(exact, exact, tables) && !NoIssues(exact, exact, tables, a)
  {
    var k := Key(a.start, "", "");
    var exact := {k};
    var tables := Rollups(Buckets(exact, OneMinute), Buckets(exact, QuarterHour), Buckets(exact, OneHour));
    assert HoldsAll(exact, exact, tables) by {
      forall r: Resolution
        ensures Buckets(exact, r) <= tables.Table(r)
      {
      }
    }
    assert Bucket(k, OneHour) in Buckets(exact, OneHour);
    if a.skipEvents {
      var minute := Bucket(k, OneMinute);
      CountOfMinute(exact, minute);
      assert k in InBucket(exact, minute, OneMinute);
      var n := CountOf(MinuteCounts(exact), minute);
      assert UnderCounted(exact, CountsRead(exact, a), Issue(EventMinute, minute, n, 0, n));
      assert IsIssue(exact, CountsRead(exact, a), RollupsRead(tables, a), Issue(EventMinute, minute, n, 0, n));
    } else {
      var x := Issue(RollupKey(OneHour), Bucket(k, OneHour), 1, 0, 1);
      assert MissingKey(exact, RollupsRead(tables, a).Table(OneHour), OneHour, x);
      assert IsIssue(exact, CountsRead(exact, a), RollupsRead(tables, a), x);
    }
  }

  // ----- What equal counts hide ----------------------------------------------------------

  /** The stamps of a minute that its chunked count counts: those of the last chunk that has any. */
  function StampsCounted(ledger: set<Key>, start: int, end: int, chunk: nat, bucket: Key): set<Key>
    requires chunk > 0
    decreases end - start
  {
    if start >= end then {}
    else
      var next := Min(start + chunk * MINUTE, end);
      var later := StampsCounted(ledger, next, end, chunk, bucket);
      if later != {} then later else InBucket(Within(ledger, start, next), bucket, OneMinute)
  }

  lemma {:induction false} CountedStamps(ledger: set<Key>, start: int, end: int, chunk: nat, bucket: Key)
    requires chunk > 0
    ensures var stamps := StampsCounted(ledger, start, end, chunk, bucket);
            && CountOf(ChunkedCounts(ledger, start, end, chunk), bucket) == |stamps|
            && (bucket in ChunkedCounts(ledger, start, end, chunk) <==> stamps != {})
            && stamps <= InBucket(Within(ledger, start, end), bucket, OneMinute)
    decreases end - start
  {
    if start < end {
      var next := Min(start + chunk * MINUTE, end);
      CountedStamps(ledger, next, end, chunk, bucket);
      CountOfMinute(Within(ledger, start, next), bucket);
    }
  }

  /** The ledger stamps of a minute that the worker counts. */
  function StampsRead(ledger: set<Key>, a: RunArgs, bucket: Key): set<Key>
    requires a.Readable()
  {
    if a.skipEvents then {} else StampsCounted(ledger, a.start, a.end, a.eventChunk, bucket)
  }

  /** With whole minutes read, these are all the minute's stamps of the window. */
  lemma WholeMinutesRead(ledger: set<Key>, a: RunArgs, bucket: Key)
    requires a.Readable() && !a.skipEvents && (a.start % MINUTE == 0 || a.end - a.start <= a.eventChunk * MINUTE)
    ensures StampsRead(ledger, a, bucket) == InBucket(Within(ledger, a.start, a.end), bucket, OneMinute)
  {
    CountedStamps(ledger, a.start, a.end, a.eventChunk, bucket);
    AlignedChunksExact(ledger, a.start, a.end, a.eventChunk);
    CountOfMinute(Within(ledger, a.start, a.end), bucket);
    var read, all := StampsRead(ledger, a, bucket), InBucket(Within(ledger, a.start, a.end), bucket, OneMinute);
    SameSizeSubset(read, all);
  }

  lemma SameSizeSubset<T>(a: set<T>, b: set<T>)
    requires a <= b && |a| == |b|
    ensures a == b
  {
    assert b == a + (b - a);
    assert |b - a| == 0;
  }

  ghost predicate MinuteReported(exact: set<Key>, ledger: set<Key>, tables: Rollups, a: RunArgs, bucket: Key)
    requires a.Readable()
  {
    exists x :: && IsIssue(exact, CountsRead(ledger, a), RollupsRead(tables, a), x)
                && x.kind == EventMinute && x.bucket == bucket
  }

  /** A minute is reported if and only if fewer stamps were read that the source does not have
      than source stamps were not read: a missing stamp stays hidden exactly behind as many
      foreign ones. */
  lemma MinuteReportedIff(exact: set<Key>, ledger: set<Key>, tables: Rollups, a: RunArgs, bucket: Key)
    requires a.Readable()
    ensures var source, read := InBucket(exact, bucket, OneMinute), StampsRead(ledger, a, bucket);
            MinuteReported(exact, ledger, tables, a, bucket) <==> |read - source| < |source - read|
  {
    var source, read := InBucket(exact, bucket, OneMinute), StampsRead(ledger, a, bucket);
    CountOfMinute(exact, bucket);
    if !a.skipEvents {
      CountedStamps(ledger, a.start, a.end, a.eventChunk, bucket);
    }
    assert CountOf(CountsRead(ledger, a), bucket) == |read|;
    DifferenceOfSizes(source, read);
    if |read| < |source| {
      var x := Issue(EventMinute, bucket, |source|, |read|, |source| - |read|);
      assert UnderCounted(exact, CountsRead(ledger, a), x);
      assert IsIssue(exact, CountsRead(ledger, a), RollupsRead(tables, a), x);
    }
  }

  lemma DifferenceOfSizes<T>(a: set<T>, b: set<T>)
    ensures |b| - |a| == |b - a| - |a - b|
  {
    assert a == (a - b) + (a * b);
    assert b == (b - a) + (a * b);
  }

  /** So equal counts do not mean equal stamps: a ledger that holds a different second of the
      minute hides the missing one. */
  lemma CountsHideShiftedStamps()
    ensures var exact, ledger := {Key(0, "", "")}, {Key(1, "", "")};
            exact !! ledger
            && forall bucket :: CountOf(MinuteCounts(exact), bucket) == CountOf(MinuteCounts(ledger), bucket)
  {
    var a, b := Key(0, "", ""), Key(1, "", "");
    forall bucket
      ensures CountOf(MinuteCounts({a}), bucket) == CountOf(MinuteCounts({b}), bucket)
    {
      CountOfMinute({a}, bucket);
      CountOfMinute({b}, bucket);
      assert InBucket({a}, bucket, OneMinute) == if bucket == a then {a} else {};
      assert InBucket({b}, bucket, OneMinute) == if bucket == a then {b} else {};
    }
  }

  // ----- Writing the issues --------------------------------------------------------------

  /** Insert each issue whose coverage key the table does not have yet. */
  function InsertNew(rows: seq<Issue>, keys: set<(Kind, Key)>, issues: seq<Issue>): seq<Issue>
    decreases |issues|
  {
    if issues == [] then rows
    else if CoverageKey(issues[0]) in keys then InsertNew(rows, keys, issues[1..])
    else InsertNew(rows + [issues[0]], keys + {CoverageKey(issues[0])}, issues[1..])
  }

  function KeysOf(rows: seq<Issue>): set<(Kind, Key)> {
    set x | x in rows :: CoverageKey(x)
  }

  datatype InsertCounts = InsertCounts(attempted: nat, inserted: nat, skipped: nat)

  /** How the one transaction of a write ends: committed; cut off by the statement for the n-th
      issue, or by the commit after the last; or committed and reported as an error. */
  datatype Ending = Committed | StatementFails(at: nat) | CommittedButErrored

  predicate FailsBefore(ending: Ending, n: nat) {
    n > 0 && ending.StatementFails? && ending.at <= n
  }

  class LiveIssueTable {
    var rows: seq<Issue>

    constructor ()
      ensures rows == []
    {
      rows := [];
    }

    /** One transaction: the issues are in after the commit or, if a statement fails before it,
        not at all; no issues make no transaction. */
    method InsertLiveIssues(issues: seq<Issue>, ending: Ending) returns (counts: Outcome<InsertCounts>)
      modifies this
      ensures counts.Raised? <==> issues != [] && (ending == CommittedButErrored || FailsBefore(ending, |issues|))
      ensures rows == if FailsBefore(ending, |issues|) then old(rows)
                      else InsertNew(old(rows), KeysOf(old(rows)), issues)
      ensures counts.Returned? ==>
                && counts.value.attempted == |issues| == counts.value.inserted + counts.value.skipped
                && |rows| == |old(rows)| + counts.value.inserted
    {
      if issues == [] {
        return Returned(InsertCounts(0, 0, 0));
      }
      var pending, attempted, inserted, skipped := rows, 0, 0, 0;
      while attempted < |issues|
        invariant attempted <= |issues| && attempted == inserted + skipped
        invariant rows == old(rows) && |pending| == |rows| + inserted
        invariant ending.StatementFails? ==> attempted <= ending.at
        invariant InsertNew(pending, KeysOf(pending), issues[attempted..]) == InsertNew(rows, KeysOf(rows), issues)
      {
        if ending == StatementFails(attempted) {
          return Raised;
        }
        var issue := issues[attempted];
        assert issues[attempted..][0] == issue && issues[attempted..][1..] == issues[attempted + 1..];
        attempted := attempted + 1;
        if CoverageKey(issue) in KeysOf(pending) {
          skipped := skipped + 1;
        } else {
          KeysOfAppend(pending, issue);
          pending := pending + [issue];
          inserted := inserted + 1;
        }
      }
      if ending == StatementFails(attempted) {
        return Raised;
      }
      rows := pending;
      counts := if ending.CommittedButErrored? then Raised else Returned(InsertCounts(attempted, inserted, skipped));
    }
  }

  lemma KeysOfAppend(rows: seq<Issue>, x: Issue)
    ensures KeysOf(rows + [x]) == KeysOf(rows) + {CoverageKey(x)}
  {
  }

  /** After an insert every issue's key is in the table, the rows that were there stay in
      place, and a table without duplicate keys still has none. */
  lemma {:induction false} InsertCovers(rows: seq<Issue>, issues: seq<Issue>)
    ensures KeysOf(InsertNew(rows, KeysOf(rows), issues)) == KeysOf(rows) + KeysOf(issues)
    ensures rows <= InsertNew(rows, KeysOf(rows), issues)
    ensures DistinctIssues(rows) ==> DistinctIssues(InsertNew(rows, KeysOf(rows), issues))
    decreases |issues|
  {
    if issues != [] {
      var x := issues[0];
      assert KeysOf(issues) == {CoverageKey(x)} + KeysOf(issues[1..]) by {
        assert issues == [x] + issues[1..];
        forall k
          ensures k in KeysOf(issues) <==> k in {CoverageKey(x)} + KeysOf(issues[1..])
        {
          if k in KeysOf(issues[1..]) {
            var y :| y in issues[1..] && CoverageKey(y) == k;
            assert y in issues;
          }
          if k == CoverageKey(x) {
            assert x in issues;
          }
        }
      }
      if CoverageKey(x) in KeysOf(rows) {
        InsertCovers(rows, issues[1..]);
      } else {
        KeysOfAppend(rows, x);
        InsertCovers(rows + [x], issues[1..]);
      }
    }
  }

  /** Writing the same issues again inserts nothing. */
  lemma {:induction false} InsertAgainDoesNothing(rows: seq<Issue>, issues: seq<Issue>)
    requires KeysOf(issues) <= KeysOf(rows)
    ensures InsertNew(rows, KeysOf(rows), issues) == rows
    decreases |issues|
  {
    if issues != [] {
      assert issues[0] in issues;
      assert CoverageKey(issues[0]) in KeysOf(issues);
      assert KeysOf(issues[1..]) <= KeysOf(issues);
      InsertAgainDoesNothing(rows, issues[1..]);
    }
  }

  /** Issue i is for a coverage key that neither the table nor an earlier issue has. */
  ghost predicate FirstOfItsKey(rows: seq<Issue>, issues: seq<Issue>, i: nat) {
    && i < |issues|
    && AbsentFrom(rows, issues[i])
    && FirstAmong(issues, i)
  }

  ghost predicate Increasing(positions: seq<nat>, bound: nat) {
    && (forall k :: 0 <= k < |positions| ==> positions[k] < bound)
    && (forall j, k :: 0 <= j < k < |positions| ==> positions[j] < positions[k])
  }

  /** The issues at these positions. */
  function At(issues: seq<Issue>, positions: seq<nat>): (picked: seq<Issue>)
    requires forall k :: 0 <= k < |positions| ==> positions[k] < |issues|
    ensures |picked| == |positions| && forall k :: 0 <= k < |positions| ==> picked[k] == issues[positions[k]]
  {
    seq(|positions|, k requires 0 <= k < |positions| => issues[positions[k]])
  }

  /** The rows after an insert: those of before, and behind them, unchanged and in their order, the
      issues that are the first of their key. */
  lemma {:induction false} InsertedRows(rows: seq<Issue>, issues: seq<Issue>) returns (positions: seq<nat>)
    ensures Increasing(positions, |issues|)
    ensures InsertNew(rows, KeysOf(rows), issues) == rows + At(issues, positions)
    ensures forall i: nat :: i in positions <==> FirstOfItsKey(rows, issues, i)
    decreases |issues|
  {
    positions := [];
    if issues != [] {
      var x, known := issues[0], CoverageKey(issues[0]) in KeysOf(rows);
      KeysOfAppend(rows, x);
      var rest := InsertedRows(if known then rows else rows + [x], issues[1..]);
      positions := if known then Later(rest) else [0] + Later(rest);
      AtTail(rows, issues, rest);
      FirstsOfTail(rows, issues, rest);
    }
  }

  lemma AtTail(rows: seq<Issue>, issues: seq<Issue>, rest: seq<nat>)
    requires issues != [] && Increasing(rest, |issues| - 1)
    ensures Increasing(Later(rest), |issues|) && Increasing([0] + Later(rest), |issues|)
    ensures rows + At(issues, Later(rest)) == rows + At(issues[1..], rest)
    ensures rows + At(issues, [0] + Later(rest)) == rows + [issues[0]] + At(issues[1..], rest)
  {
    assert At(issues, Later(rest)) == At(issues[1..], rest);
    assert At(issues, [0] + Later(rest)) == [issues[0]] + At(issues[1..], rest);
  }

  lemma FirstsOfTail(rows: seq<Issue>, issues: seq<Issue>, rest: seq<nat>)
    requires issues != []
    requires var known := CoverageKey(issues[0]) in KeysOf(rows);
             forall i: nat ::
               i in rest <==> FirstOfItsKey(if known then rows else rows + [issues[0]], issues[1..], i)
    ensures var known := CoverageKey(issues[0]) in KeysOf(rows);
            forall i: nat ::
              i in (if known then Later(rest) else [0] + Later(rest)) <==> FirstOfItsKey(rows, issues, i)
  {
    forall i: nat
      ensures i in (if CoverageKey(issues[0]) in KeysOf(rows) then Later(rest) else [0] + Later(rest))
              <==> FirstOfItsKey(rows, issues, i)
    {
      LaterMembers(rest, i);
      FirstOfTail(rows, issues, i);
    }
  }

  function Later(positions: seq<nat>): (later: seq<nat>)
    ensures |later| == |positions| && forall k :: 0 <= k < |positions| ==> later[k] == positions[k] + 1
  {
    seq(|positions|, k requires 0 <= k < |positions| => positions[k] + 1)
  }

  lemma LaterMembers(positions: seq<nat>, i: nat)
    ensures i in Later(positions) <==> i > 0 && i - 1 in positions
  {
    if i > 0 && i - 1 in positions {
      var k :| 0 <= k < |positions| && positions[k] == i - 1;
      assert Later(positions)[k] == i;
    }
  }

  lemma FirstOfTail(rows: seq<Issue>, issues: seq<Issue>, i: nat)
    requires issues != []
    ensures var known := CoverageKey(issues[0]) in KeysOf(rows);
            FirstOfItsKey(rows, issues, i) <==>
            if i == 0 then !known
            else FirstOfItsKey(if known then rows else rows + [issues[0]], issues[1..], i - 1)
  {
    KnownIff(rows, issues[0]);
    if 0 < i < |issues| {
      FirstAmongTail(issues, i);
      AbsentAfterAppend(rows, issues[0], issues[i]);
    }
  }

  predicate AbsentFrom(rows: seq<Issue>, x: Issue) {
    forall n :: 0 <= n < |rows| ==> rows[n].kind != x.kind || rows[n].bucket != x.bucket
  }

  lemma FirstAmongTail(issues: seq<Issue>, i: nat)
    requires 0 < i < |issues|
    ensures issues[1..][i - 1] == issues[i]
    ensures FirstAmong(issues, i) <==>
            CoverageKey(issues[0]) != CoverageKey(issues[i]) && FirstAmong(issues[1..], i - 1)
  {
    assert issues == [issues[0]] + issues[1..];
    if CoverageKey(issues[0]) != CoverageKey(issues[i]) && FirstAmong(issues[1..], i - 1) {
      forall n | 0 <= n < i
        ensures issues[n].kind != issues[i].kind || issues[n].bucket != issues[i].bucket
      {
        assert n > 0 ==> issues[1..][n - 1] == issues[n];
      }
    }
  }

  /** A key that is absent after one more row was absent before, and is not that row's; where that
      row's key was there already, being absent is the same before. */
  lemma AbsentAfterAppend(rows: seq<Issue>, more: Issue, x: Issue)
    ensures AbsentFrom(rows + [more], x) <==> AbsentFrom(rows, x) && CoverageKey(more) != CoverageKey(x)
    ensures CoverageKey(more) in KeysOf(rows) && AbsentFrom(rows, x) ==> CoverageKey(more) != CoverageKey(x)
  {
    assert (rows + [more])[|rows|] == more;
    if AbsentFrom(rows + [more], x) {
      forall n | 0 <= n < |rows|
        ensures rows[n].kind != x.kind || rows[n].bucket != x.bucket
      {
        assert (rows + [more])[n] == rows[n];
      }
    }
    KnownIff(rows, more);
  }

  predicate FirstAmong(issues: seq<Issue>, i: nat)
    requires i < |issues|
  {
    forall n :: 0 <= n < i ==> issues[n].kind != issues[i].kind || issues[n].bucket != issues[i].bucket
  }

  lemma KnownIff(rows: seq<Issue>, x: Issue)
    ensures CoverageKey(x) in KeysOf(rows) <==>
            exists n :: 0 <= n < |rows| && rows[n].kind == x.kind && rows[n].bucket == x.bucket
  {
    if n :| 0 <= n < |rows| && rows[n].kind == x.kind && rows[n].bucket == x.bucket {
      assert rows[n] in rows && CoverageKey(rows[n]) == CoverageKey(x);
    }
  }
}
