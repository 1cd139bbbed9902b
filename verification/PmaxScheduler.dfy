/** Choosing the P-Max base timestamp, and the scheduler loop around it. */
module PmaxScheduler {
  import opened Wrappers
  import opened Timeline
  import opened ModelServing

  // ----- Selection -----------------------------------------------------------------------

  const STEP: int := 15 * MINUTE
  const REQUIRED_WINDOWS: nat := 288

  datatype Meter = VZ81 | VZ82 | H2Z351 | H2Z361

  datatype Measurement = P | U1 | PF

  /** A row of the ranked feature query. */
  datatype FeatureRow = FeatureRow(window: int, meter: Meter, measurement: Measurement)

  type FeatureKey = (Meter, Measurement)

  datatype Instant = Instant(ts: int)

  const METERS: set<Meter> := {VZ81, VZ82, H2Z351, H2Z361}
  const MEASUREMENTS: set<Measurement> := {P, U1, PF}

  const COMPLETE_KEY_COUNT: nat := |METERS| * |MEASUREMENTS|

  /** The oldest window the query reads. */
  function Lower(maxWindow: int): int {
    maxWindow - STEP * (REQUIRED_WINDOWS - 1)
  }

  /** The newest window: the latest live one or the last reference one, whichever is later. */
  function MaxWindow(liveMax: Option<int>, referenceEnd: int): int {
    if liveMax.None? then referenceEnd - STEP else Max(liveMax.value, referenceEnd - STEP)
  }

  ghost predicate Queried(rows: seq<FeatureRow>, maxWindow: int) {
    forall x :: x in rows ==> Lower(maxWindow) <= x.window <= maxWindow
  }

  function KeysAt(coverage: map<Instant, set<FeatureKey>>, window: int): set<FeatureKey> {
    if Instant(window) in coverage then coverage[Instant(window)] else {}
  }

  ghost predicate Present(rows: seq<FeatureRow>, window: int, meter: Meter) {
    forall q :: q in MEASUREMENTS ==> FeatureRow(window, meter, q) in rows
  }

  /** The idx-th input window of a base, counting from 1. */
  function InputWindow(base: int, idx: nat): int {
    base - STEP * idx
  }

  /** The meter has all its measurements in every input window of the base. */
  ghost predicate HasHistory(rows: seq<FeatureRow>, base: int, meter: Meter) {
    forall idx: nat :: 1 <= idx <= REQUIRED_WINDOWS ==> Present(rows, InputWindow(base, idx), meter)
  }

  ghost predicate Covers(coverage: map<Instant, set<FeatureKey>>, rows: seq<FeatureRow>) {
    && (forall w :: w in coverage ==> exists x :: x in rows && x.window == w.ts)
    && (forall w, meter, q :: (meter, q) in KeysAt(coverage, w) <==> FeatureRow(w, meter, q) in rows)
  }

  method BuildCoverage(rows: seq<FeatureRow>) returns (coverage: map<Instant, set<FeatureKey>>)
    ensures Covers(coverage, rows)
  {
    coverage := map[];
    for i := 0 to |rows|
      invariant Covers(coverage, rows[..i])
    {
      var x := rows[i];
      ghost var was := coverage;
      assert rows[..i + 1] == rows[..i] + [x];
      coverage := coverage[Instant(x.window) := KeysAt(coverage, x.window) + {(x.meter, x.measurement)}];
      assert forall w :: w != x.window ==> KeysAt(coverage, w) == KeysAt(was, w);
      assert x in rows[..i + 1];
    }
    assert rows[..|rows|] == rows;
  }

  predicate MeterComplete(keys: set<FeatureKey>, meter: Meter) {
    (meter, P) in keys && (meter, U1) in keys && (meter, PF) in keys
  }

  function KeysOfMeter(meter: Meter): (keys: set<FeatureKey>)
    ensures |keys| == 3 && forall k :: k in keys ==> k.0 == meter
  {
    {(meter, P), (meter, U1), (meter, PF)}
  }

  function AllKeys(): set<FeatureKey> {
    KeysOfMeter(VZ81) + KeysOfMeter(VZ82) + KeysOfMeter(H2Z351) + KeysOfMeter(H2Z361)
  }

  lemma EveryMeterListed()
    ensures forall m: Meter :: m in METERS
    ensures forall q: Measurement :: q in MEASUREMENTS
  {
    forall m: Meter
      ensures m in METERS
    {
      match m { case VZ81 => case VZ82 => case H2Z351 => case H2Z361 => }
    }
    forall q: Measurement
      ensures q in MEASUREMENTS
    {
      match q { case P => case U1 => case PF => }
    }
  }

  lemma AllKeysSize()
    ensures |AllKeys()| == COMPLETE_KEY_COUNT && forall k: FeatureKey :: k in AllKeys()
  {
    forall k: FeatureKey
      ensures k in AllKeys()
    {
      assert k == (k.0, k.1);
      match k.0 { case VZ81 => case VZ82 => case H2Z351 => case H2Z361 => }
      match k.1 { case P => case U1 => case PF => }
    }
    var two := KeysOfMeter(VZ81) + KeysOfMeter(VZ82);
    var three := two + KeysOfMeter(H2Z351);
    assert |two| == 6 && |three| == 9 && |three + KeysOfMeter(H2Z361)| == 12;
    assert |METERS| == 4 && |MEASUREMENTS| == 3;
  }

  /** As many keys as there are is every key. */
  lemma CompleteWindow(keys: set<FeatureKey>, meter: Meter)
    requires |keys| == COMPLETE_KEY_COUNT
    ensures MeterComplete(keys, meter)
  {
    AllKeysSize();
    assert keys <= AllKeys();
    assert AllKeys() == keys + (AllKeys() - keys);
    assert |AllKeys() - keys| == 0;
  }

  predicate AnyMeterComplete(keys: set<FeatureKey>) {
    MeterComplete(keys, VZ81) || MeterComplete(keys, VZ82) || MeterComplete(keys, H2Z351) || MeterComplete(keys, H2Z361)
  }

  /** A window is partly complete if some meter has P, U1 and PF in it. */
  lemma AnyMeterCompleteIff(keys: set<FeatureKey>)
    ensures AnyMeterComplete(keys)
            <==> exists meter: Meter :: (meter, P) in keys && (meter, U1) in keys && (meter, PF) in keys
  {
    forall meter: Meter | (meter, P) in keys && (meter, U1) in keys && (meter, PF) in keys
      ensures AnyMeterComplete(keys)
    {
      match meter { case VZ81 => case VZ82 => case H2Z351 => case H2Z361 => }
    }
  }

  /** The base timestamp one step after a window. */
  function After(window: Instant): Instant {
    Instant(window.ts + STEP)
  }

  /** Base timestamps one step after the windows that satisfy a test. */
  method Candidates(coverage: map<Instant, set<FeatureKey>>) returns (complete: set<Instant>, partly: set<Instant>)
    ensures complete == set w | w in coverage && |coverage[w]| == COMPLETE_KEY_COUNT :: After(w)
    ensures partly == set w | w in coverage && AnyMeterComplete(coverage[w]) :: After(w)
  {
    complete, partly := {}, {};
    var todo := coverage.Keys;
    while todo != {}
      invariant todo <= coverage.Keys
      invariant complete == set w | w in coverage && w !in todo && |coverage[w]| == COMPLETE_KEY_COUNT :: After(w)
      invariant partly == set w | w in coverage && w !in todo && AnyMeterComplete(coverage[w]) :: After(w)
      decreases todo
    {
      var w :| w in todo;
      if |coverage[w]| == COMPLETE_KEY_COUNT {
        complete := complete + {After(w)};
      }
      if AnyMeterComplete(coverage[w]) {
        partly := partly + {After(w)};
      }
      todo := todo - {w};
    }
  }

  /** The latest of some base timestamps: the next in descending order. */
  method Latest(bases: set<Instant>) returns (latest: Instant)
    requires bases != {}
    ensures latest in bases && forall b :: b in bases ==> b.ts <= latest.ts
  {
    latest :| latest in bases;
    var todo := bases - {latest};
    while todo != {}
      invariant todo <= bases && latest in bases
      invariant forall b :: b in bases && b !in todo ==> b.ts <= latest.ts
      decreases todo
    {
      var b :| b in todo;
      if b.ts > latest.ts {
        latest := b;
      }
      todo := todo - {b};
    }
  }

  method AllWindowsComplete(coverage: map<Instant, set<FeatureKey>>, base: int) returns (all: bool)
    ensures all <==>
            forall idx: nat :: 1 <= idx <= REQUIRED_WINDOWS ==>
              |KeysAt(coverage, InputWindow(base, idx))| == COMPLETE_KEY_COUNT
  {
    var idx := 1;
    while idx <= REQUIRED_WINDOWS
      invariant 1 <= idx <= REQUIRED_WINDOWS + 1
      invariant forall i: nat :: 1 <= i < idx ==> |KeysAt(coverage, InputWindow(base, i))| == COMPLETE_KEY_COUNT
    {
      if |KeysAt(coverage, InputWindow(base, idx))| != COMPLETE_KEY_COUNT {
        return false;
      }
      idx := idx + 1;
    }
    all := true;
  }

  method MeterHasHistory(coverage: map<Instant, set<FeatureKey>>, base: int, meter: Meter) returns (all: bool)
    ensures all <==>
            forall idx: nat :: 1 <= idx <= REQUIRED_WINDOWS ==>
              MeterComplete(KeysAt(coverage, InputWindow(base, idx)), meter)
  {
    var idx := 1;
    while idx <= REQUIRED_WINDOWS
      invariant 1 <= idx <= REQUIRED_WINDOWS + 1
      invariant forall i: nat :: 1 <= i < idx ==> MeterComplete(KeysAt(coverage, InputWindow(base, i)), meter)
    {
      if !MeterComplete(KeysAt(coverage, InputWindow(base, idx)), meter) {
        return false;
      }
      idx := idx + 1;
    }
    all := true;
  }

  /** Only the base right after the newest window can have its whole history in what was read. */
  lemma OnlyNewestBase(rows: seq<FeatureRow>, maxWindow: int, coverage: map<Instant, set<FeatureKey>>, base: int)
    requires Queried(rows, maxWindow) && Covers(coverage, rows)
    requires base <= NewestBase(maxWindow) && KeysAt(coverage, InputWindow(base, REQUIRED_WINDOWS)) != {}
    ensures base == NewestBase(maxWindow)
  {
    var w := InputWindow(base, REQUIRED_WINDOWS);
    var k :| k in KeysAt(coverage, w);
    assert FeatureRow(w, k.0, k.1) in rows;
  }

  lemma CompleteIsPresent(coverage: map<Instant, set<FeatureKey>>, rows: seq<FeatureRow>, window: int, meter: Meter)
    requires Covers(coverage, rows)
    ensures MeterComplete(KeysAt(coverage, window), meter) <==> Present(rows, window, meter)
  {
  }

  /** The base right after the newest window. */
  function NewestBase(maxWindow: int): int {
    maxWindow + STEP
  }

  ghost predicate SomeHistory(rows: seq<FeatureRow>, base: int) {
    exists meter :: HasHistory(rows, base, meter)
  }

  /** The two descending scans of select_pmax_base_ts can return nothing but the base right
      after the newest window, and return it exactly when some meter has all three measurements
      in all 288 windows and the base has no serving evidence. */
  method SelectPmaxBase(rows: seq<FeatureRow>, maxWindow: int, evidence: set<int>) returns (selected: Option<int>)
    requires Queried(rows, maxWindow)
    ensures selected == if NewestBase(maxWindow) !in evidence && SomeHistory(rows, NewestBase(maxWindow))
                        then Some(NewestBase(maxWindow)) else None
  {
    var coverage := BuildCoverage(rows);
    var complete, partly := Candidates(coverage);
    CandidateBounds(rows, maxWindow, coverage, complete, partly);
    var todo := complete;
    while todo != {}
      invariant todo <= complete
      decreases todo
    {
      var base := Latest(todo);
      todo := todo - {base};
      var all := AllWindowsComplete(coverage, base.ts);
      if all && base.ts !in evidence {
        CompleteHistory(rows, maxWindow, coverage, base.ts);
        return Some(base.ts);
      }
    }
    todo := partly;
    while todo != {}
      invariant todo <= partly
      invariant forall base :: base in partly && base !in todo && base.ts !in evidence ==> !SomeHistory(rows, base.ts)
      decreases todo
    {
      var base := Latest(todo);
      todo := todo - {base};
      var found := SomeMeterHasHistory(rows, coverage, base.ts);
      if found && base.ts !in evidence {
        PartialHistory(rows, maxWindow, coverage, base.ts);
        return Some(base.ts);
      }
    }
    HistoryIsCandidate(rows, maxWindow, coverage, partly);
    selected := None;
  }

  method SomeMeterHasHistory(ghost rows: seq<FeatureRow>, coverage: map<Instant, set<FeatureKey>>, base: int)
    returns (found: bool)
    requires Covers(coverage, rows)
    ensures found <==> SomeHistory(rows, base)
  {
    found := false;
    var todo := METERS;
    EveryMeterListed();
    while todo != {}
      invariant todo <= METERS
      invariant found <==> exists meter :: meter !in todo && HasHistory(rows, base, meter)
      decreases todo
    {
      var meter :| meter in todo;
      var all := MeterHasHistory(coverage, base, meter);
      HistoryByCoverage(rows, coverage, base, meter);
      found := found || all;
      todo := todo - {meter};
    }
  }

  lemma HistoryByCoverage(rows: seq<FeatureRow>, coverage: map<Instant, set<FeatureKey>>, base: int, meter: Meter)
    requires Covers(coverage, rows)
    ensures HasHistory(rows, base, meter) <==>
            forall idx: nat :: 1 <= idx <= REQUIRED_WINDOWS ==>
              MeterComplete(KeysAt(coverage, InputWindow(base, idx)), meter)
  {
    forall idx: nat
      ensures MeterComplete(KeysAt(coverage, InputWindow(base, idx)), meter)
              <==> Present(rows, InputWindow(base, idx), meter)
    {
      CompleteIsPresent(coverage, rows, InputWindow(base, idx), meter);
    }
  }

  lemma CandidateBounds(rows: seq<FeatureRow>, maxWindow: int, coverage: map<Instant, set<FeatureKey>>,
                        complete: set<Instant>, partly: set<Instant>)
    requires Queried(rows, maxWindow) && Covers(coverage, rows)
    requires complete == set w | w in coverage && |coverage[w]| == COMPLETE_KEY_COUNT :: After(w)
    requires partly == set w | w in coverage && AnyMeterComplete(coverage[w]) :: After(w)
    ensures forall base :: base in complete || base in partly ==> base.ts <= NewestBase(maxWindow)
  {
  }

  lemma CompleteHistory(rows: seq<FeatureRow>, maxWindow: int, coverage: map<Instant, set<FeatureKey>>, base: int)
    requires Queried(rows, maxWindow) && Covers(coverage, rows) && base <= NewestBase(maxWindow)
    requires forall idx: nat :: 1 <= idx <= REQUIRED_WINDOWS ==>
               |KeysAt(coverage, InputWindow(base, idx))| == COMPLETE_KEY_COUNT
    ensures base == NewestBase(maxWindow) && HasHistory(rows, base, VZ81)
  {
    forall idx: nat | 1 <= idx <= REQUIRED_WINDOWS
      ensures MeterComplete(KeysAt(coverage, InputWindow(base, idx)), VZ81)
    {
      CompleteWindow(KeysAt(coverage, InputWindow(base, idx)), VZ81);
    }
    HistoryByCoverage(rows, coverage, base, VZ81);
    assert (VZ81, P) in KeysAt(coverage, InputWindow(base, REQUIRED_WINDOWS));
    OnlyNewestBase(rows, maxWindow, coverage, base);
  }

  lemma PartialHistory(rows: seq<FeatureRow>, maxWindow: int, coverage: map<Instant, set<FeatureKey>>, base: int)
    requires Queried(rows, maxWindow) && Covers(coverage, rows) && base <= NewestBase(maxWindow)
             && SomeHistory(rows, base)
    ensures base == NewestBase(maxWindow)
  {
    var meter :| HasHistory(rows, base, meter);
    HistoryByCoverage(rows, coverage, base, meter);
    assert (meter, P) in KeysAt(coverage, InputWindow(base, REQUIRED_WINDOWS));
    OnlyNewestBase(rows, maxWindow, coverage, base);
  }

  /** A base with a full history is among the partial candidates. */
  lemma HistoryIsCandidate(rows: seq<FeatureRow>, maxWindow: int, coverage: map<Instant, set<FeatureKey>>,
                           partly: set<Instant>)
    requires Covers(coverage, rows)
    requires partly == set w | w in coverage && AnyMeterComplete(coverage[w]) :: After(w)
    ensures SomeHistory(rows, NewestBase(maxWindow)) ==> Instant(NewestBase(maxWindow)) in partly
  {
    var base := NewestBase(maxWindow);
    if meter :| HasHistory(rows, base, meter) {
      HistoryByCoverage(rows, coverage, base, meter);
      assert InputWindow(base, 1) == maxWindow;
      assert MeterComplete(KeysAt(coverage, InputWindow(base, 1)), meter);
      assert Instant(maxWindow) in coverage && After(Instant(maxWindow)) == Instant(base);
      assert AnyMeterComplete(coverage[Instant(maxWindow)]) by {
        match meter { case VZ81 => case VZ82 => case H2Z351 => case H2Z361 => }
      }
    }
  }

  // ----- Serving over many passes --------------------------------------------------------

  ghost function SelectedBase(rows: seq<FeatureRow>, maxWindow: int, evidence: set<int>): Option<int> {
    var base := NewestBase(maxWindow);
    if base !in evidence && SomeHistory(rows, base) then Some(base) else None
  }

  /** A pass of the P-Max lane, with the feature rows and newest window it reads and what its
      run meets, or a run of the anomaly lane, which shares the evidence table. */
  datatype Pass =
    | PmaxPass(rows: seq<FeatureRow>, maxWindow: int, meets: Meets)
    | AnomalyPass(origin: int, meets: Meets)

  /** The evidence table and the bases that the P-Max lane has reported as served. */
  datatype Serving = Serving(evidence: EvidenceTable, served: seq<int>)

  /** The command line of the P-Max lane. */
  function PmaxArgs(base: int): ServingArgs {
    ServingArgs(ServicePmax(base), base, true, false)
  }

  function AnomalyArgs(origin: int): ServingArgs {
    ServingArgs(ServiceAnomaly(origin), origin, true, true)
  }

  ghost function AfterPass(s: Serving, p: Pass): Serving {
    match p
    case AnomalyPass(origin, meets) => s.(evidence := AfterServing(AnomalyArgs(origin), meets, s.evidence).evidence)
    case PmaxPass(rows, maxWindow, meets) =>
      var selected := SelectedBase(rows, maxWindow, CountingBases(s.evidence));
      if selected.None? then s
      else
        var run := AfterServing(PmaxArgs(selected.value), meets, s.evidence);
        Serving(run.evidence, if run.ok then s.served + [selected.value] else s.served)
  }

  ghost function AfterPasses(s: Serving, passes: seq<Pass>): Serving {
    if passes == [] then s else AfterPass(AfterPasses(s, passes[..|passes| - 1]), passes[|passes| - 1])
  }

  ghost predicate WindowsNeverRecede(passes: seq<Pass>) {
    forall i, j :: 0 <= i <= j < |passes| && passes[i].PmaxPass? && passes[j].PmaxPass? ==>
      passes[i].maxWindow <= passes[j].maxWindow
  }

  ghost predicate ServedDistinct(served: seq<int>) {
    forall i, j :: 0 <= i < j < |served| ==> served[i] != served[j]
  }

  ghost predicate ServedIncrease(served: seq<int>) {
    forall i, j :: 0 <= i < j < |served| ==> served[i] < served[j]
  }

  /** The evidence of anomaly runs, which make no P-Max predictions, does not count. */
  ghost predicate AnomalyRowsIdle(evidence: EvidenceTable) {
    forall p :: p in evidence && p.run.ServiceAnomaly? ==> !Counts(evidence[p])
  }

  lemma AnomalyRunKeepsEvidence(evidence: EvidenceTable, origin: int, meets: Meets)
    requires AnomalyRowsIdle(evidence)
    ensures var after := AfterServing(AnomalyArgs(origin), meets, evidence).evidence;
            AnomalyRowsIdle(after) && CountingBases(after) == CountingBases(evidence)
  {
    ServingWritesOwnRow(AnomalyArgs(origin), meets, evidence);
    var after := AfterServing(AnomalyArgs(origin), meets, evidence).evidence;
    forall p
      ensures p in after && Counts(after[p]) <==> p in evidence && Counts(evidence[p])
      ensures p in after && p in evidence && Counts(after[p]) ==> after[p] == evidence[p]
    {
    }
  }

  lemma PmaxRunKeepsIdle(evidence: EvidenceTable, base: int, meets: Meets)
    requires AnomalyRowsIdle(evidence)
    ensures AnomalyRowsIdle(AfterServing(PmaxArgs(base), meets, evidence).evidence)
  {
    ServingWritesOwnRow(PmaxArgs(base), meets, evidence);
  }

  /** A pass takes no evidence away, and serves at most the newest base, one without evidence
      before that has it afterwards. */
  lemma PassServesFreshBase(s: Serving, p: Pass)
    requires AnomalyRowsIdle(s.evidence)
    ensures var after := AfterPass(s, p);
            && AnomalyRowsIdle(after.evidence) && CountingBases(s.evidence) <= CountingBases(after.evidence)
            && (after.served == s.served
                || (p.PmaxPass? && after.served == s.served + [NewestBase(p.maxWindow)]
                    && NewestBase(p.maxWindow) in CountingBases(after.evidence) - CountingBases(s.evidence)))
  {
    match p
    case AnomalyPass(origin, meets) =>
      AnomalyRunKeepsEvidence(s.evidence, origin, meets);
    case PmaxPass(rows, maxWindow, meets) =>
      var selected := SelectedBase(rows, maxWindow, CountingBases(s.evidence));
      if selected.Some? {
        PmaxRunKeepsIdle(s.evidence, selected.value, meets);
        SuccessLeavesEvidence(PmaxArgs(selected.value), meets, s.evidence);
      }
  }

  /** The base right after the newest window of some pass. */
  ghost predicate NewestOfPass(passes: seq<Pass>, base: int) {
    exists i :: 0 <= i < |passes| && passes[i].PmaxPass? && base == NewestBase(passes[i].maxWindow)
  }

  lemma NewestOfFront(passes: seq<Pass>, base: int)
    requires passes != [] && NewestOfPass(passes[..|passes| - 1], base)
    ensures NewestOfPass(passes, base)
  {
    var i :| 0 <= i < |passes| - 1 && passes[..|passes| - 1][i].PmaxPass?
             && base == NewestBase(passes[..|passes| - 1][i].maxWindow);
    assert passes[i].PmaxPass?;
  }

  /** All bases served so far have evidence and are newest bases of earlier passes. */
  lemma {:induction false} ServedSoFar(evidence: EvidenceTable, passes: seq<Pass>)
    requires AnomalyRowsIdle(evidence)
    ensures var s := AfterPasses(Serving(evidence, []), passes);
            && AnomalyRowsIdle(s.evidence) && CountingBases(evidence) <= CountingBases(s.evidence)
            && (forall b :: b in s.served ==> b in CountingBases(s.evidence) - CountingBases(evidence))
            && (forall b :: b in s.served ==> NewestOfPass(passes, b))
    ensures ServedDistinct(AfterPasses(Serving(evidence, []), passes).served)
  {
    if passes != [] {
      var front, last := passes[..|passes| - 1], passes[|passes| - 1];
      ServedSoFar(evidence, front);
      var before := AfterPasses(Serving(evidence, []), front);
      PassServesFreshBase(before, last);
      assert forall i :: 0 <= i < |before.served| ==> before.served[i] in before.served;
      forall b | b in AfterPass(before, last).served
        ensures NewestOfPass(passes, b)
      {
        if b in before.served {
          NewestOfFront(passes, b);
        } else {
          assert passes[|passes| - 1].PmaxPass? && b == NewestBase(passes[|passes| - 1].maxWindow);
        }
      }
    }
  }

  /** Over all passes of both lanes, whatever their runs meet, no base is served twice, and while
      the newest window does not recede the served bases strictly increase. */
  lemma {:induction false} ServedBasesIncrease(evidence: EvidenceTable, passes: seq<Pass>)
    requires AnomalyRowsIdle(evidence)
    ensures ServedDistinct(AfterPasses(Serving(evidence, []), passes).served)
    ensures WindowsNeverRecede(passes) ==> ServedIncrease(AfterPasses(Serving(evidence, []), passes).served)
  {
    ServedSoFar(evidence, passes);
    if passes != [] && WindowsNeverRecede(passes) {
      var front, last := passes[..|passes| - 1], passes[|passes| - 1];
      assert WindowsNeverRecede(front);
      ServedBasesIncrease(evidence, front);
      ServedSoFar(evidence, front);
      var before := AfterPasses(Serving(evidence, []), front);
      PassServesFreshBase(before, last);
      forall b | b in before.served && last.PmaxPass?
        ensures b <= NewestBase(last.maxWindow)
      {
        var i :| 0 <= i < |front| && front[i].PmaxPass? && b == NewestBase(front[i].maxWindow);
        assert passes[i].maxWindow <= passes[|passes| - 1].maxWindow;
      }
      assert forall i :: 0 <= i < |before.served| ==> before.served[i] in before.served;
    }
  }

  /** Passes take place one after the other. */
  lemma {:induction false} PassesInOrder(s: Serving, first: Pass, rest: seq<Pass>)
    ensures AfterPasses(s, []) == s
    ensures AfterPasses(s, [first] + rest) == AfterPasses(AfterPass(s, first), rest)
  {
    var passes := [first] + rest;
    if rest == [] {
      assert passes[..0] == [];
      assert AfterPasses(s, passes[..0]) == s;
    } else {
      PassesInOrder(s, first, rest[..|rest| - 1]);
      assert passes[..|passes| - 1] == [first] + rest[..|rest| - 1];
    }
  }

  /** The n-th pass is one of the P-Max lane whose newest base this is, with a history in the rows read
      and without evidence at the time, and its run succeeds. */
  ghost predicate ServesAt(evidence: EvidenceTable, passes: seq<Pass>, n: nat, base: int) {
    && n < |passes| && passes[n].PmaxPass? && base == passes[n].maxWindow + 900_000_000
    && SomeHistory(passes[n].rows, base)
    && var before := AfterPasses(Serving(evidence, []), passes[..n]);
       base !in CountingBases(before.evidence) && AfterServing(PmaxArgs(base), passes[n].meets, before.evidence).ok
  }

  /** A base is served exactly if some pass serves it. */
  lemma {:induction false} ServedIff(evidence: EvidenceTable, passes: seq<Pass>, base: int)
    ensures base in AfterPasses(Serving(evidence, []), passes).served <==>
            exists n: nat :: ServesAt(evidence, passes, n, base)
  {
    if passes != [] {
      var last := |passes| - 1;
      var front := passes[..last];
      ServedIff(evidence, front, base);
      forall n: nat | n < last
        ensures ServesAt(evidence, front, n, base) <==> ServesAt(evidence, passes, n, base)
      {
        assert front[..n] == passes[..n];
      }
      var before := AfterPasses(Serving(evidence, []), front);
      LastPassServes(before, passes[last], base);
      assert base in AfterPass(before, passes[last]).served <==>
        base in before.served || ServesAt(evidence, passes, last, base);
    }
  }

  lemma LastPassServes(s: Serving, p: Pass, base: int)
    ensures base in AfterPass(s, p).served <==>
            || base in s.served
            || (p.PmaxPass? && base == p.maxWindow + 900_000_000 && SomeHistory(p.rows, base)
                && base !in CountingBases(s.evidence) && AfterServing(PmaxArgs(base), p.meets, s.evidence).ok)
  {
  }

  /** A base that has evidence, for example from a run that died after its last write, is never
      served. */
  lemma EvidenceIsNeverServed(evidence: EvidenceTable, passes: seq<Pass>, base: int)
    requires AnomalyRowsIdle(evidence) && base in CountingBases(evidence)
    ensures base !in AfterPasses(Serving(evidence, []), passes).served
  {
    ServedSoFar(evidence, passes);
  }

  /** A newest window in which no meter has all three measurements yet blocks serving, even
      when every earlier window is complete and unserved. */
  lemma PartialNewestWindowBlocks(rows: seq<FeatureRow>, maxWindow: int, evidence: set<int>)
    requires forall meter :: !Present(rows, maxWindow, meter)
    ensures SelectedBase(rows, maxWindow, evidence) == None
  {
    var base := NewestBase(maxWindow);
    forall meter: Meter
      ensures !HasHistory(rows, base, meter)
    {
      HistoryNeedsNewestWindow(rows, maxWindow, meter);
    }
  }

  lemma HistoryNeedsNewestWindow(rows: seq<FeatureRow>, maxWindow: int, meter: Meter)
    ensures HasHistory(rows, NewestBase(maxWindow), meter) ==> Present(rows, maxWindow, meter)
  {
    if HasHistory(rows, NewestBase(maxWindow), meter) {
      assert Present(rows, InputWindow(NewestBase(maxWindow), 1), meter);
    }
  }

  /** An anomaly run whose writes go well leaves an evidence row of its own, without predictions and so
      without effect on the P-Max lane; it needs no feature vectors. */
  lemma AnomalyRunLeavesRow(s: Serving, origin: int, meets: Meets)
    requires !meets.stops && meets.writesAllowed && meets.fails.None?
    ensures AfterPass(s, AnomalyPass(origin, meets))
         == s.(evidence := s.evidence[Packet(ServiceAnomaly(origin), origin) := EvidenceRow(true, 0)])
  {
    EvidenceIff(AnomalyArgs(origin), meets, s.evidence);
  }

  /** A P-Max pass over a base with a history and without evidence, whose writes go well and which
      lives to report, serves the base and leaves its evidence row. */
  lemma PmaxRunServes(s: Serving, rows: seq<FeatureRow>, maxWindow: int, meter: Meter, meets: Meets)
    requires !meets.stops && meets.writesAllowed && meets.fails.None? && meets.reports && meets.features > 0
    requires HasHistory(rows, maxWindow + 900_000_000, meter)
             && maxWindow + 900_000_000 !in CountingBases(s.evidence)
    ensures var base := maxWindow + 900_000_000;
            AfterPass(s, PmaxPass(rows, maxWindow, meets))
            == Serving(s.evidence[Packet(ServicePmax(base), base) := EvidenceRow(true, 4 * meets.features)],
                       s.served + [base])
  {
    EvidenceIff(PmaxArgs(NewestBase(maxWindow)), meets, s.evidence);
    SuccessIff(PmaxArgs(NewestBase(maxWindow)), meets, s.evidence);
  }

  /** One pass of the P-Max lane. */
  method RunPmaxServing(rows: seq<FeatureRow>, liveMax: Option<int>, referenceEnd: int, meets: Meets,
                        evidence: EvidenceTable, served: seq<int>)
    returns (evidenceAfter: EvidenceTable, servedAfter: seq<int>)
    requires Queried(rows, MaxWindow(liveMax, referenceEnd))
    ensures Serving(evidenceAfter, servedAfter)
         == AfterPass(Serving(evidence, served), PmaxPass(rows, MaxWindow(liveMax, referenceEnd), meets))
  {
    evidenceAfter, servedAfter := evidence, served;
    var selected := SelectPmaxBase(rows, MaxWindow(liveMax, referenceEnd), CountingBases(evidence));
    if selected.None? {
      return;
    }
    var run := RunModelServing(PmaxArgs(selected.value), meets, evidence);
    evidenceAfter := run.evidence;
    if run.ok {
      servedAfter := served + [selected.value];
    }
  }

  // ----- The failure counter -------------------------------------------------------------

  /** A pass ends in an exception or with payloads that are all ok or not. */
  datatype PassOutcome = Threw | Ended(ok: bool)

  predicate FailedPass(o: PassOutcome) {
    o.Threw? || !o.ok
  }

  /** The last k of the first n passes all failed. */
  ghost predicate FailedInARow(outcomes: seq<PassOutcome>, n: int, k: int) {
    k <= n <= |outcomes| && forall i :: n - k <= i < n && 0 <= i ==> FailedPass(outcomes[i])
  }

  /** The loop of main: alone it exits after one pass with 0, 2 or 3; with --loop it exits
      with 3 after the first pass that ends maxFailures failed passes in a row, which for a
      limit of zero or less is the very first pass, failed or not. */
  method SchedulerLoop(outcomes: seq<PassOutcome>, loop: bool, maxFailures: int)
    returns (exit: Option<int>, passes: nat)
    ensures passes <= |outcomes|
    ensures !loop && outcomes != [] ==>
              passes == 1 && exit == Some(if outcomes[0].Threw? then 3 else if outcomes[0].ok then 0 else 2)
    ensures loop && exit.Some? ==> exit.value == 3 && 1 <= passes && FailedInARow(outcomes, passes, Max(maxFailures, 0))
    ensures loop ==>
              forall n :: 1 <= n < passes || (n == passes && exit.None? && 1 <= n) ==>
                !FailedInARow(outcomes, n, Max(maxFailures, 0))
    ensures exit.None? ==> passes == |outcomes|
    ensures loop && maxFailures > 0 && (forall i :: 0 <= i < |outcomes| ==> outcomes[i] == Ended(true)) ==> exit.None?
    ensures loop && 1 <= maxFailures <= |outcomes|
            && (forall i :: 0 <= i < |outcomes| ==> outcomes[i] == Threw || outcomes[i] == Ended(false)) ==>
              exit == Some(3) && passes == maxFailures
  {
    var consecutive := 0;
    passes := 0;
    while passes < |outcomes|
      invariant passes <= |outcomes| && 0 <= consecutive <= passes
      invariant !loop ==> passes == 0
      invariant FailedInARow(outcomes, passes, consecutive)
      invariant consecutive < passes ==> !FailedPass(outcomes[passes - consecutive - 1])
      invariant passes > 0 ==> consecutive < maxFailures
      invariant forall n :: 1 <= n <= passes ==> !FailedInARow(outcomes, n, Max(maxFailures, 0))
    {
      var outcome := outcomes[passes];
      passes := passes + 1;
      if outcome.Threw? {
        consecutive := consecutive + 1;
        RunAsLongAsCounted(outcomes, passes, consecutive, maxFailures);
        if !loop || consecutive >= maxFailures {
          return Some(3), passes;
        }
        continue;
      }
      consecutive := if outcome.ok then 0 else consecutive + 1;
      RunAsLongAsCounted(outcomes, passes, consecutive, maxFailures);
      if !loop {
        return Some(if outcome.ok then 0 else 2), passes;
      }
      if consecutive >= maxFailures {
        return Some(3), passes;
      }
    }
    exit := None;
  }

  /** The counter is the length of the current run of failures. */
  lemma RunAsLongAsCounted(outcomes: seq<PassOutcome>, n: nat, consecutive: nat, maxFailures: int)
    requires FailedInARow(outcomes, n, consecutive)
    requires consecutive < n ==> !FailedPass(outcomes[n - consecutive - 1])
    ensures FailedInARow(outcomes, n, Max(maxFailures, 0)) <==> maxFailures <= consecutive
  {
  }

  // ----- The selected base in plain terms ------------------------------------------------

  lemma HistoryStep(base: int, window: int)
    requires base - 259_200_000_000 <= window < base && (base - window) % 900_000_000 == 0
    ensures var idx := (base - window) / 900_000_000;
            1 <= idx <= 288 && window == base - 900_000_000 * idx
  {
  }

  /** A meter has the history of a base if each quarter hour of the three days before it has all of
      the meter's measurements, the base itself not included. */
  lemma HistoryIff(rows: seq<FeatureRow>, base: int, meter: Meter)
    ensures HasHistory(rows, base, meter) <==>
            forall w, q: Measurement ::
              base - 259_200_000_000 <= w < base && (base - w) % 900_000_000 == 0 ==> FeatureRow(w, meter, q) in rows
  {
    EveryMeterListed();
    if HasHistory(rows, base, meter) {
      forall w, q: Measurement | base - 259_200_000_000 <= w < base && (base - w) % 900_000_000 == 0
        ensures FeatureRow(w, meter, q) in rows
      {
        HistoryStep(base, w);
        assert Present(rows, InputWindow(base, (base - w) / 900_000_000), meter);
      }
    }
    if forall w, q: Measurement ::
         base - 259_200_000_000 <= w < base && (base - w) % 900_000_000 == 0 ==> FeatureRow(w, meter, q) in rows
    {
      forall idx: nat | 1 <= idx <= REQUIRED_WINDOWS
        ensures Present(rows, InputWindow(base, idx), meter)
      {
        assert base - InputWindow(base, idx) == 900_000_000 * idx;
      }
    }
  }

  /** The base of a pass: the end of the reference range or the quarter hour after the newest live
      window, whichever is later; its rows reach back over the windows of one history. */
  lemma BaseOfPass(rows: seq<FeatureRow>, liveMax: Option<int>, referenceEnd: int, base: int)
    ensures base == NewestBase(MaxWindow(liveMax, referenceEnd)) <==>
            && referenceEnd <= base && (liveMax.Some? ==> liveMax.value + 900_000_000 <= base)
            && (base == referenceEnd || (liveMax.Some? && base == liveMax.value + 900_000_000))
    ensures base == NewestBase(MaxWindow(liveMax, referenceEnd)) ==>
              (Queried(rows, MaxWindow(liveMax, referenceEnd)) <==>
               forall x :: x in rows ==> base - 259_200_000_000 <= x.window < base - 899_999_999)
  {
  }
}
