/** The feature backfill: one grouped upsert per window, retried and then split by the hour,
    against a database that may refuse a call or commit it and still report an error. */
module FeatureLoader {
  import opened Wrappers
  import opened Database
  import opened Timeline

  datatype Measurement = P | U1 | PF | Qv | Tdiff | OtherMeasurement

  datatype ReferenceRow = ReferenceRow(ts: int, meter: string, measurement: Measurement, value: Option<real>)

  datatype FeatureKey = FeatureKey(ts: int, meter: string)

  datatype FeatureSet = Electric | Heat | Insufficient

  datatype Quality = Good | Warning | Bad

  datatype Feature = Feature(featureSet: FeatureSet, p: Option<real>, u1: Option<real>, pf: Option<real>,
                             qv: Option<real>, tdiff: Option<real>, quality: Quality, sources: multiset<ReferenceRow>)

  type FeatureTable = map<FeatureKey, Feature>

  // ----- The statement -------------------------------------------------------------------

  predicate Selected(x: ReferenceRow, start: int, end: int) {
    start <= x.ts < end && x.measurement != OtherMeasurement
  }

  /** The WHERE clause. */
  function SelectRows(rows: seq<ReferenceRow>, start: int, end: int): seq<ReferenceRow> {
    if rows == [] then []
    else if Selected(rows[0], start, end) then [rows[0]] + SelectRows(rows[1..], start, end)
    else SelectRows(rows[1..], start, end)
  }

  /** The rows of one group. */
  function GroupOf(rows: seq<ReferenceRow>, k: FeatureKey): seq<ReferenceRow> {
    if rows == [] then []
    else if rows[0].ts == k.ts && rows[0].meter == k.meter then [rows[0]] + GroupOf(rows[1..], k)
    else GroupOf(rows[1..], k)
  }

  /** max(value) FILTER (WHERE measurement = m): nulls do not count. */
  function MaxValue(group: seq<ReferenceRow>, m: Measurement): Option<real> {
    if group == [] then None
    else
      var rest := MaxValue(group[1..], m);
      if group[0].measurement != m || group[0].value.None? then rest
      else if rest.Some? && rest.value >= group[0].value.value then rest
      else group[0].value
  }

  function Shape(group: seq<ReferenceRow>): Feature {
    var p, u1, pf := MaxValue(group, P), MaxValue(group, U1), MaxValue(group, PF);
    var qv, tdiff := MaxValue(group, Qv), MaxValue(group, Tdiff);
    var featureSet :=
      if p.Some? && u1.Some? then Electric
      else if p.Some? && qv.Some? && tdiff.Some? then Heat
      else Insufficient;
    var quality := if p.None? then Bad else if u1.None? && qv.None? then Warning else Good;
    Feature(featureSet, p, u1, pf, qv, tdiff, quality, multiset(group))
  }

  function GroupKeys(rows: seq<ReferenceRow>): set<FeatureKey> {
    set x | x in rows :: FeatureKey(x.ts, x.meter)
  }

  /** What one INSERT ... SELECT over a window writes. */
  function Upserts(rows: seq<ReferenceRow>, start: int, end: int): FeatureTable {
    var selected := SelectRows(rows, start, end);
    map k | k in GroupKeys(selected) && Shape(GroupOf(selected, k)).featureSet != Insufficient ::
      Shape(GroupOf(selected, k))
  }

  // ----- What a window writes, in terms of the reference rows ----------------------------

  /** The reference table has a value of the measurement for the meter and the hour. */
  ghost predicate Measured(rows: seq<ReferenceRow>, k: FeatureKey, m: Measurement) {
    exists i :: 0 <= i < |rows| && ValueAt(rows[i], k, m)
  }

  predicate ValueAt(x: ReferenceRow, k: FeatureKey, m: Measurement) {
    x.ts == k.ts && x.meter == k.meter && x.measurement == m && x.value.Some?
  }

  /** The greatest of these values, and nothing exactly when there is none. */
  ghost predicate Greatest(v: Option<real>, rows: seq<ReferenceRow>, k: FeatureKey, m: Measurement) {
    if v.None? then !Measured(rows, k, m)
    else
      && (exists i :: 0 <= i < |rows| && ValueAt(rows[i], k, m) && rows[i].value == v)
      && (forall i :: 0 <= i < |rows| && ValueAt(rows[i], k, m) ==> rows[i].value.value <= v.value)
  }

  /** Electric meters need P and U1, heat meters P, qv and Tdiff. */
  ghost predicate Due(rows: seq<ReferenceRow>, start: int, end: int, k: FeatureKey) {
    && start <= k.ts < end && Measured(rows, k, P)
    && (Measured(rows, k, U1) || (Measured(rows, k, Qv) && Measured(rows, k, Tdiff)))
  }

  /** What is written for a key that is due: every value is the greatest of its own measurement, U1
      decides between the feature sets, the sources are the group's rows, and the quality is good:
      the worse grades belong to groups that are not written. */
  ghost predicate Describes(f: Feature, rows: seq<ReferenceRow>, k: FeatureKey) {
    && Greatest(f.p, rows, k, P) && Greatest(f.u1, rows, k, U1) && Greatest(f.pf, rows, k, PF)
    && Greatest(f.qv, rows, k, Qv) && Greatest(f.tdiff, rows, k, Tdiff)
    && f.featureSet == (if Measured(rows, k, U1) then Electric else Heat)
    && f.quality == Good
    && (forall x :: f.sources[x] == if x.ts == k.ts && x.meter == k.meter && x.measurement != OtherMeasurement
                                    then multiset(rows)[x] else 0)
  }

  /** Every key that is due has its feature row and every other key is as before. */
  ghost predicate WindowWritten(before: FeatureTable, after: FeatureTable, rows: seq<ReferenceRow>, start: int,
                                end: int)
  {
    forall k ::
      if Due(rows, start, end, k) then k in after && Describes(after[k], rows, k)
      else if k in before then k in after && after[k] == before[k]
      else k !in after
  }

  /** The rows of the window that belong to the group, in order. */
  function GroupRows(rows: seq<ReferenceRow>, start: int, end: int, k: FeatureKey): seq<ReferenceRow> {
    GroupOf(SelectRows(rows, start, end), k)
  }

  lemma GroupRowsStep(rows: seq<ReferenceRow>, start: int, end: int, k: FeatureKey)
    requires rows != []
    ensures GroupRows(rows, start, end, k)
         == if Selected(rows[0], start, end) && rows[0].ts == k.ts && rows[0].meter == k.meter
            then [rows[0]] + GroupRows(rows[1..], start, end, k)
            else GroupRows(rows[1..], start, end, k)
  {
    var rest := SelectRows(rows[1..], start, end);
    assert ([rows[0]] + rest)[1..] == rest;
  }

  lemma {:induction false} MaxIsGreatest(rows: seq<ReferenceRow>, start: int, end: int, k: FeatureKey, m: Measurement)
    requires start <= k.ts < end && m != OtherMeasurement
    ensures Greatest(MaxValue(GroupRows(rows, start, end, k), m), rows, k, m)
  {
    if rows != [] {
      MaxIsGreatest(rows[1..], start, end, k, m);
      GroupRowsStep(rows, start, end, k);
      MaxOfHead(rows[0], GroupRows(rows[1..], start, end, k), m);
      GreatestStep(MaxValue(GroupRows(rows[1..], start, end, k), m), rows, k, m);
    }
  }

  function Larger(v: Option<real>, w: Option<real>): Option<real> {
    if v.None? || (w.Some? && w.value >= v.value) then w else v
  }

  lemma MaxOfHead(x: ReferenceRow, rest: seq<ReferenceRow>, m: Measurement)
    ensures MaxValue([x] + rest, m) == if x.measurement == m
            then Larger(x.value, MaxValue(rest, m)) else MaxValue(rest, m)
  {
    assert ([x] + rest)[1..] == rest;
  }

  lemma GreatestStep(v: Option<real>, rows: seq<ReferenceRow>, k: FeatureKey, m: Measurement)
    requires rows != [] && Greatest(v, rows[1..], k, m)
    ensures Greatest(if ValueAt(rows[0], k, m) then Larger(rows[0].value, v) else v, rows, k, m)
  {
    var w := if ValueAt(rows[0], k, m) then Larger(rows[0].value, v) else v;
    forall i | 0 <= i < |rows| && ValueAt(rows[i], k, m)
      ensures w.Some? && rows[i].value.value <= w.value
    {
      assert i > 0 ==> rows[1..][i - 1] == rows[i];
    }
    if v.Some? {
      var i :| 0 <= i < |rows| - 1 && ValueAt(rows[1..][i], k, m) && rows[1..][i].value == v;
      assert rows[i + 1] == rows[1..][i];
    }
  }

  lemma {:induction false} GroupCounts(rows: seq<ReferenceRow>, start: int, end: int, k: FeatureKey, x: ReferenceRow)
    requires start <= k.ts < end
    ensures multiset(GroupRows(rows, start, end, k))[x]
         == if x.ts == k.ts && x.meter == k.meter && x.measurement != OtherMeasurement then multiset(rows)[x] else 0
  {
    if rows != [] {
      GroupCounts(rows[1..], start, end, k, x);
      GroupRowsStep(rows, start, end, k);
      assert rows == [rows[0]] + rows[1..];
    }
  }

  lemma GroupIsDescribed(rows: seq<ReferenceRow>, start: int, end: int, k: FeatureKey)
    requires start <= k.ts < end
    ensures var f := Shape(GroupRows(rows, start, end, k));
            && (f.featureSet != Insufficient <==> Due(rows, start, end, k))
            && (f.featureSet != Insufficient ==> Describes(f, rows, k))
  {
    MaxIsGreatest(rows, start, end, k, P);
    MaxIsGreatest(rows, start, end, k, U1);
    MaxIsGreatest(rows, start, end, k, PF);
    MaxIsGreatest(rows, start, end, k, Qv);
    MaxIsGreatest(rows, start, end, k, Tdiff);
    forall x
      ensures multiset(GroupRows(rows, start, end, k))[x]
           == if x.ts == k.ts && x.meter == k.meter && x.measurement != OtherMeasurement then multiset(rows)[x] else 0
    {
      GroupCounts(rows, start, end, k, x);
    }
    GreatestGivesMeasured(rows, start, end, k);
  }

  lemma GreatestGivesMeasured(rows: seq<ReferenceRow>, start: int, end: int, k: FeatureKey)
    ensures forall v, m :: Greatest(v, rows, k, m) ==> (v.Some? <==> Measured(rows, k, m))
  {
  }

  lemma DueKeyIsGrouped(rows: seq<ReferenceRow>, start: int, end: int, k: FeatureKey)
    requires Due(rows, start, end, k)
    ensures k in GroupKeys(SelectRows(rows, start, end))
  {
    SelectedElements(rows, start, end);
    var i :| 0 <= i < |rows| && ValueAt(rows[i], k, P);
    assert rows[i] in SelectRows(rows, start, end);
  }

  /** What an upsert over a window writes: a row for each key that is due, and for no other. */
  lemma UpsertsMeaning(rows: seq<ReferenceRow>, start: int, end: int, k: FeatureKey)
    ensures k in Upserts(rows, start, end) <==> Due(rows, start, end, k)
    ensures k in Upserts(rows, start, end) ==> Describes(Upserts(rows, start, end)[k], rows, k)
  {
    KeyInWindow(rows, start, end, k);
    if start <= k.ts < end {
      GroupIsDescribed(rows, start, end, k);
      if Due(rows, start, end, k) {
        DueKeyIsGrouped(rows, start, end, k);
      }
    }
  }

  lemma UpsertWritesWindow(before: FeatureTable, rows: seq<ReferenceRow>, start: int, end: int)
    ensures WindowWritten(before, before + Upserts(rows, start, end), rows, start, end)
  {
    forall k
      ensures k in Upserts(rows, start, end) <==> Due(rows, start, end, k)
      ensures k in Upserts(rows, start, end) ==> Describes(Upserts(rows, start, end)[k], rows, k)
    {
      UpsertsMeaning(rows, start, end, k);
    }
  }

  // ----- A window never cuts a group -----------------------------------------------------

  /** Selecting two ranges one after the other is selecting their overlap. */
  lemma {:induction false} SelectWithin(rows: seq<ReferenceRow>, start: int, end: int, a: int, b: int)
    requires start <= a && b <= end
    ensures SelectRows(SelectRows(rows, start, end), a, b) == SelectRows(rows, a, b)
  {
    if rows != [] {
      SelectWithin(rows[1..], start, end, a, b);
      var rest := SelectRows(rows[1..], start, end);
      assert ([rows[0]] + rest)[1..] == rest;
    }
  }

  /** A group's rows all carry the group's own stamp, so any window around the stamp selects
      all of them. */
  lemma {:induction false} WindowKeepsGroup(rows: seq<ReferenceRow>, start: int, end: int, a: int, b: int,
                                            k: FeatureKey)
    requires start <= k.ts < end && a <= k.ts < b
    ensures GroupOf(SelectRows(rows, start, end), k) == GroupOf(SelectRows(rows, a, b), k)
  {
    if rows != [] {
      WindowKeepsGroup(rows[1..], start, end, a, b, k);
      var one, two := SelectRows(rows[1..], start, end), SelectRows(rows[1..], a, b);
      assert ([rows[0]] + one)[1..] == one && ([rows[0]] + two)[1..] == two;
    }
  }

  lemma {:induction false} SelectedElements(rows: seq<ReferenceRow>, start: int, end: int)
    ensures forall x :: x in SelectRows(rows, start, end) <==> x in rows && Selected(x, start, end)
  {
    if rows != [] {
      SelectedElements(rows[1..], start, end);
      assert rows == [rows[0]] + rows[1..];
    }
  }

  lemma GroupKeysWithin(rows: seq<ReferenceRow>, start: int, end: int, a: int, b: int, k: FeatureKey)
    requires start <= a && b <= end
    ensures k in GroupKeys(SelectRows(rows, a, b)) <==> k in GroupKeys(SelectRows(rows, start, end)) && a <= k.ts < b
  {
    SelectedElements(rows, start, end);
    SelectedElements(rows, a, b);
    if x :| x in SelectRows(rows, a, b) && FeatureKey(x.ts, x.meter) == k {
      assert x in SelectRows(rows, start, end);
    }
    if x :| x in SelectRows(rows, start, end) && FeatureKey(x.ts, x.meter) == k && a <= k.ts < b {
      assert x in SelectRows(rows, a, b);
    }
  }

  /** An upsert over a window writes the keys of that window, each as any window around it
      would. */
  lemma UpsertAt(rows: seq<ReferenceRow>, start: int, end: int, a: int, b: int, k: FeatureKey)
    requires start <= a && b <= end
    ensures k in Upserts(rows, a, b) <==> k in Upserts(rows, start, end) && a <= k.ts < b
    ensures k in Upserts(rows, a, b) ==> Upserts(rows, a, b)[k] == Upserts(rows, start, end)[k]
  {
    GroupKeysWithin(rows, start, end, a, b, k);
    if a <= k.ts < b {
      WindowKeepsGroup(rows, start, end, a, b, k);
    }
  }

  ghost predicate Part(part: FeatureTable, whole: FeatureTable) {
    forall k :: k in part ==> k in whole && part[k] == whole[k]
  }

  lemma TablesJoin(whole: FeatureTable, early: FeatureTable, late: FeatureTable)
    requires Part(early, whole) && Part(late, whole) && early.Keys !! late.Keys
    requires forall k :: k in whole ==> k in early || k in late
    ensures whole == early + late && |whole| == |early| + |late|
  {
    KeysAdd(whole.Keys, early.Keys, late.Keys);
    TableUnion(whole, early, late);
  }

  lemma TableUnion(whole: FeatureTable, early: FeatureTable, late: FeatureTable)
    requires Part(early, whole) && Part(late, whole) && forall k :: k in whole ==> k in early || k in late
    ensures whole == early + late
  {
  }

  lemma KeysAdd(whole: set<FeatureKey>, early: set<FeatureKey>, late: set<FeatureKey>)
    requires whole == early + late && early !! late
    ensures |whole| == |early| + |late|
  {
  }

  lemma UpsertsOfPart(rows: seq<ReferenceRow>, start: int, end: int, a: int, b: int)
    requires start <= a && b <= end
    ensures Part(Upserts(rows, a, b), Upserts(rows, start, end))
    ensures forall k :: k in Upserts(rows, a, b) <==> k in Upserts(rows, start, end) && a <= k.ts < b
  {
    forall k
      ensures k in Upserts(rows, a, b) <==> k in Upserts(rows, start, end) && a <= k.ts < b
      ensures k in Upserts(rows, a, b) ==> Upserts(rows, a, b)[k] == Upserts(rows, start, end)[k]
    {
      UpsertAt(rows, start, end, a, b, k);
    }
  }

  /** Two adjacent windows write what the window they make up writes, in total and key by key. */
  lemma UpsertsSplit(rows: seq<ReferenceRow>, start: int, mid: int, end: int)
    requires start <= mid <= end
    ensures Upserts(rows, start, end) == Upserts(rows, start, mid) + Upserts(rows, mid, end)
    ensures |Upserts(rows, start, end)| == |Upserts(rows, start, mid)| + |Upserts(rows, mid, end)|
    ensures Part(Upserts(rows, start, mid), Upserts(rows, start, end))
  {
    UpsertsOfPart(rows, start, end, start, end);
    UpsertsOfPart(rows, start, end, start, mid);
    UpsertsOfPart(rows, start, end, mid, end);
    TablesJoin(Upserts(rows, start, end), Upserts(rows, start, mid), Upserts(rows, mid, end));
  }

  lemma KeyInWindow(rows: seq<ReferenceRow>, start: int, end: int, k: FeatureKey)
    ensures k in Upserts(rows, start, end) ==> start <= k.ts < end
  {
    SelectedElements(rows, start, end);
  }

  lemma EmptyWindow(rows: seq<ReferenceRow>, start: int, end: int)
    requires end <= start
    ensures Upserts(rows, start, end) == map[]
  {
    forall k
      ensures k !in Upserts(rows, start, end)
    {
      KeyInWindow(rows, start, end, k);
    }
  }

  /** The number of rows an upsert writes is the number of keys that are due. */
  lemma UpsertsCount(rows: seq<ReferenceRow>, start: int, end: int, due: set<FeatureKey>)
    requires forall k :: k in due <==> Due(rows, start, end, k)
    ensures |Upserts(rows, start, end)| == |due|
  {
    forall k
      ensures k in Upserts(rows, start, end) <==> k in due
    {
      UpsertsMeaning(rows, start, end, k);
    }
    assert Upserts(rows, start, end).Keys == due;
  }

  // ----- Retry, then split ---------------------------------------------------------------

  /** The table after attempts on a window: as before, or with the whole window upserted. */
  ghost predicate Attempted(before: FeatureTable, table: FeatureTable, rows: seq<ReferenceRow>, start: int, end: int) {
    table == before || table == before + Upserts(rows, start, end)
  }

  /** The window has been upserted up to some cut. */
  ghost predicate CutAt(before: FeatureTable, table: FeatureTable, rows: seq<ReferenceRow>, start: int, cut: int) {
    table == before + Upserts(rows, start, cut)
  }

  ghost predicate SomeCut(before: FeatureTable, table: FeatureTable, rows: seq<ReferenceRow>, start: int, end: int) {
    exists cut :: start <= cut <= end && CutAt(before, table, rows, start, cut)
  }

  lemma AttemptedThenUpserted(before: FeatureTable, table: FeatureTable, rows: seq<ReferenceRow>, start: int, end: int)
    requires Attempted(before, table, rows, start, end)
    ensures table + Upserts(rows, start, end) == before + Upserts(rows, start, end)
    ensures SomeCut(before, table, rows, start, Max(start, end))
  {
    Absorb(before, Upserts(rows, start, end), Upserts(rows, start, end));
    AttemptIsCut(before, table, rows, start, end);
  }

  lemma AttemptIsCut(before: FeatureTable, table: FeatureTable, rows: seq<ReferenceRow>, start: int, end: int)
    requires Attempted(before, table, rows, start, end)
    ensures SomeCut(before, table, rows, start, Max(start, end))
  {
    EmptyWindow(rows, start, start);
    NothingAdded(before);
    if end <= start {
      EmptyWindow(rows, start, end);
    }
    assert CutAt(before, table, rows, start, start) || CutAt(before, table, rows, start, Max(start, end));
  }

  lemma NothingAdded(before: FeatureTable)
    ensures before + map[] == before
  {
  }

  /** Upserting a part after the whole changes nothing. */
  lemma PartAfterWhole(before: FeatureTable, rows: seq<ReferenceRow>, start: int, end: int, cut: int)
    requires start <= cut <= end
    ensures before + Upserts(rows, start, end) + Upserts(rows, start, cut) == before + Upserts(rows, start, end)
  {
    UpsertsSplit(rows, start, cut, end);
    Absorb(before, Upserts(rows, start, end), Upserts(rows, start, cut));
  }

  lemma Absorb(before: FeatureTable, whole: FeatureTable, part: FeatureTable)
    requires Part(part, whole)
    ensures before + whole + part == before + whole
  {
  }

  lemma OverrideAssociative(a: FeatureTable, b: FeatureTable, c: FeatureTable)
    ensures a + b + c == a + (b + c)
  {
  }

  /** The pieces done so far amount to one upsert from start to the cursor. */
  ghost predicate UpTo(before: FeatureTable, table: FeatureTable, rows: seq<ReferenceRow>, start: int, cursor: int,
                       total: nat) {
    table == before + Upserts(rows, start, cursor) && total == |Upserts(rows, start, cursor)|
  }

  lemma NoPieceYet(before: FeatureTable, rows: seq<ReferenceRow>, start: int, end: int)
    requires end <= start
    ensures UpTo(before, before, rows, start, end, 0)
  {
    EmptyWindow(rows, start, end);
  }

  lemma OnePieceMore(before: FeatureTable, reached: FeatureTable, rows: seq<ReferenceRow>, start: int, cursor: int,
                     next: int, total: nat)
    requires start <= cursor <= next && UpTo(before, reached, rows, start, cursor, total)
    ensures var piece := Upserts(rows, cursor, next);
            UpTo(before, reached + piece, rows, start, next, total + |piece|)
  {
    UpsertsSplit(rows, start, cursor, next);
    OverrideAssociative(before, Upserts(rows, start, cursor), Upserts(rows, cursor, next));
  }

  /** One of three calls from the n-th on is answered with a commit. */
  predicate CommitsInThree(oracle: nat -> Reply, n: nat) {
    oracle(n) == Committed || oracle(n + 1) == Committed || oracle(n + 2) == Committed
  }

  /** None of the last three of n calls was. */
  predicate LastThreeFailed(oracle: nat -> Reply, n: nat) {
    n >= 3 && !CommitsInThree(oracle, n - 3)
  }

  /** n steps of this width, and no fewer, cover the span. */
  predicate CoversSpan(span: int, n: int, width: int) {
    (n - 1) * width < span <= n * width
  }

  /** At least one and at most `most` calls for each step of this width that the span needs. */
  ghost predicate CallsPerStep(span: int, calls: int, width: int, most: int) {
    exists steps :: CoversSpan(span, steps, width) && steps <= calls <= most * steps
  }

  /** How many calls a window takes, and how it ends: the first commit of three returns; after three
      failures a window of at most an hour raises, and a longer one is loaded again in pieces of an
      hour with at most three calls each. It raises only after three failures in a row. */
  ghost predicate Retried(oracle: nat -> Reply, begun: nat, calls: nat, span: int, returned: bool) {
    && begun < calls
    && (CommitsInThree(oracle, begun) ==> returned && calls <= begun + 3 && oracle(calls - 1) == Committed)
    && (!CommitsInThree(oracle, begun) && span <= 3_600_000_000 ==> !returned && calls == begun + 3)
    && (!CommitsInThree(oracle, begun) && returned ==> CallsPerStep(span, calls - begun - 3, 3_600_000_000, 3))
    && (!returned ==> begun + 3 <= calls && LastThreeFailed(oracle, calls))
  }

  /** Steps of an hour that are done so far, with one to three calls each. */
  predicate HourCalls(start: int, cursor: int, end: int, steps: nat, calls: int) {
    cursor == Min(start + steps * 3_600_000_000, end) && steps <= calls <= 3 * steps
    && (steps == 0 || (steps - 1) * 3_600_000_000 < end - start)
  }

  /** Steps of a day that are done so far, with 1 to 75 calls each. */
  predicate DayCalls(start: int, day: int, end: int, steps: nat, calls: int) {
    day == Min(start + steps * 86_400_000_000, end) && steps <= calls <= 75 * steps
    && (steps == 0 || (steps - 1) * 86_400_000_000 < end - start)
  }

  /** A piece of at most an hour takes at most three calls, one of at most a day at most 75. */
  lemma CallsOfWindow(oracle: nat -> Reply, begun: nat, calls: nat, span: int)
    requires Retried(oracle, begun, calls, span, true)
    ensures span <= 3_600_000_000 ==> calls <= begun + 3
    ensures span <= 86_400_000_000 ==> calls <= begun + 75
  {
    if !CommitsInThree(oracle, begun) {
      var steps :| CoversSpan(span, steps, 3_600_000_000) && steps <= calls - begun - 3 <= 3 * steps;
    }
  }

  class FeatureDatabase {
    var table: FeatureTable
    var calls: nat
    /** The reference table, which nobody writes during the run. */
    const reference: seq<ReferenceRow>
    const oracle: nat -> Reply

    constructor (initial: FeatureTable, reference: seq<ReferenceRow>, oracle: nat -> Reply)
      ensures table == initial && calls == 0 && this.reference == reference && this.oracle == oracle
    {
      table, calls := initial, 0;
      this.reference, this.oracle := reference, oracle;
    }

    /** One transaction of INSERT_SQL; the rows it returns are those it wrote. */
    method ExecuteWindow(start: int, end: int) returns (r: Outcome<nat>)
      modifies this
      ensures calls == old(calls) + 1
      ensures r == if oracle(old(calls)) == Committed then Returned(|Upserts(reference, start, end)|) else Raised
      ensures table == if oracle(old(calls)) == Refused then old(table) else old(table) + Upserts(reference, start, end)
      ensures oracle(old(calls)) != Refused ==> WindowWritten(old(table), table, reference, start, end)
    {
      UpsertWritesWindow(table, reference, start, end);
      var reply := oracle(calls);
      calls := calls + 1;
      if reply != Refused {
        table := table + Upserts(reference, start, end);
      }
      r := if reply == Committed then Returned(|Upserts(reference, start, end)|) else Raised;
    }

    /** The three attempts on a window. */
    method TryThreeTimes(start: int, end: int) returns (r: Outcome<nat>)
      modifies this
      ensures CommitsInThree(oracle, old(calls)) <==> r.Returned?
      ensures r.Returned? ==> old(calls) < calls <= old(calls) + 3 && oracle(calls - 1) == Committed
      ensures r.Returned? ==> UpTo(old(table), table, reference, start, end, r.value)
      ensures r.Raised? ==> calls == old(calls) + 3 && Attempted(old(table), table, reference, start, end)
    {
      for attempt := 0 to 3
        invariant Attempted(old(table), table, reference, start, end)
        invariant calls == old(calls) + attempt
        invariant forall n: nat :: old(calls) <= n < calls ==> oracle(n) != Committed
      {
        AttemptedThenUpserted(old(table), table, reference, start, end);
        r := ExecuteWindow(start, end);
        if r.Returned? {
          return;
        }
      }
      r := Raised;
    }

    /** insert_window: whatever calls fail, returning means the table is as after one upsert of
        the whole window and the count is the number of rows that upsert writes; raising leaves
        the window upserted up to some cut. */
    method InsertWindow(start: int, end: int) returns (r: Outcome<nat>)
      modifies this
      ensures Retried(oracle, old(calls), calls, end - start, r.Returned?)
      ensures r.Returned? ==> UpTo(old(table), table, reference, start, end, r.value)
      ensures r.Raised? ==> SomeCut(old(table), table, reference, start, Max(start, end))
      decreases end - start, 1
    {
      r := TryThreeTimes(start, end);
      if r.Returned? {
        return;
      }
      ghost var tried := table;
      if end - start > HOUR {
        r := InsertByHour(start, end);
        SplitAfterAttempts(old(table), tried, start, end, r);
      } else {
        AttemptIsCut(old(table), table, reference, start, end);
      }
    }

    /** The split: hour after hour, the last piece possibly shorter. */
    method InsertByHour(start: int, end: int) returns (r: Outcome<nat>)
      requires end - start > HOUR
      modifies this
      ensures old(calls) < calls
      ensures r.Returned? ==> CallsPerStep(end - start, calls - old(calls), 3_600_000_000, 3)
      ensures r.Returned? ==> UpTo(old(table), table, reference, start, end, r.value)
      ensures r.Raised? ==> old(calls) + 3 <= calls && LastThreeFailed(oracle, calls)
      ensures r.Raised? ==> SomeCut(old(table), table, reference, start, end)
      decreases end - start, 0
    {
      var total, cursor := 0, start;
      ghost var steps := 0;
      NoPieceYet(table, reference, start, start);
      while cursor < end
        invariant start <= cursor <= end && UpTo(old(table), table, reference, start, cursor, total)
        invariant HourCalls(start, cursor, end, steps, calls - old(calls))
        decreases end - cursor
      {
        var next := Min(cursor + HOUR, end);
        ghost var reached, made := table, calls;
        var piece := InsertWindow(cursor, next);
        if piece.Raised? {
          CutInPiece(old(table), reached, start, cursor, next, end, total);
          return Raised;
        }
        CallsOfWindow(oracle, made, calls, next - cursor);
        OnePieceMore(old(table), reached, reference, start, cursor, next, total);
        total := total + piece.value;
        cursor, steps := next, steps + 1;
      }
      assert CoversSpan(end - start, steps, 3_600_000_000);
      r := Returned(total);
    }

    /** Pieces loaded after attempts on the whole window amount to pieces loaded alone. */
    lemma SplitAfterAttempts(before: FeatureTable, tried: FeatureTable, start: int, end: int, r: Outcome<nat>)
      requires start <= end && Attempted(before, tried, reference, start, end)
      requires r.Returned? ==> UpTo(tried, table, reference, start, end, r.value)
      requires r.Raised? ==> SomeCut(tried, table, reference, start, end)
      ensures r.Returned? ==> UpTo(before, table, reference, start, end, r.value)
      ensures r.Raised? ==> SomeCut(before, table, reference, start, end)
    {
      AttemptedThenUpserted(before, tried, reference, start, end);
      if r.Raised? && tried != before {
        var cut :| start <= cut <= end && CutAt(tried, table, reference, start, cut);
        PartAfterWhole(before, reference, start, end, cut);
        assert CutAt(before, table, reference, start, end);
      }
    }

    lemma CutInPiece(before: FeatureTable, reached: FeatureTable, start: int, cursor: int, next: int, end: int,
                     total: nat)
      requires start <= cursor <= next <= end && UpTo(before, reached, reference, start, cursor, total)
      requires SomeCut(reached, table, reference, cursor, next)
      ensures SomeCut(before, table, reference, start, end)
    {
      var cut :| cursor <= cut <= next && CutAt(reached, table, reference, cursor, cut);
      OnePieceMore(before, reached, reference, start, cursor, cut, total);
      assert CutAt(before, table, reference, start, cut);
    }

    /** The day loop of main over one range: day windows add up to the range, and raising leaves
        the range upserted up to some cut. A day takes 1 to 75 calls. */
    method LoadRange(start: int, end: int) returns (r: Outcome<nat>)
      modifies this
      ensures r.Returned? ==> UpTo(old(table), table, reference, start, end, r.value)
      ensures r.Returned? ==> WindowWritten(old(table), table, reference, start, end)
      ensures r.Returned? && start < end ==> CallsPerStep(end - start, calls - old(calls), 86_400_000_000, 75)
      ensures r.Raised? ==> LastThreeFailed(oracle, calls)
      ensures r.Raised? ==> SomeCut(old(table), table, reference, start, Max(start, end))
    {
      var total, day := 0, start;
      ghost var steps := 0;
      NoPieceYet(table, reference, start, start);
      while day < end
        invariant start <= day <= Max(start, end) && UpTo(old(table), table, reference, start, day, total)
        invariant start < end ==> DayCalls(start, day, end, steps, calls - old(calls))
        decreases end - day
      {
        var next := Min(day + DAY, end);
        ghost var reached, made := table, calls;
        var n := InsertWindow(day, next);
        if n.Raised? {
          CutInPiece(old(table), reached, start, day, next, end, total);
          return Raised;
        }
        CallsOfWindow(oracle, made, calls, next - day);
        OnePieceMore(old(table), reached, reference, start, day, next, total);
        total := total + n.value;
        day, steps := next, steps + 1;
      }
      RangeDone(old(table), start, day, end, total);
      UpsertWritesWindow(old(table), reference, start, end);
      assert start < end ==> CoversSpan(end - start, steps, 86_400_000_000);
      r := Returned(total);
    }

    lemma RangeDone(before: FeatureTable, start: int, day: int, end: int, total: nat)
      requires UpTo(before, table, reference, start, day, total)
      requires if start <= end then day == end else day == start
      ensures UpTo(before, table, reference, start, end, total)
    {
      if end < start {
        EmptyWindow(reference, start, start);
        EmptyWindow(reference, start, end);
      }
    }
  }
}
