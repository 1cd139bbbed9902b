/** One-pass validation of an anomaly threshold file, and what passing it means. */
module ThresholdFile {
  import opened Wrappers

  /** An integer cell; a line that is cut short has no cell at all. */
  datatype Cell = Missing | NotInteger | Number(value: int)

  /** A bound cell. */
  datatype Bound = MissingBound | NotNumeric | NotANumber | Infinite | Finite(value: real)

  datatype ThresholdRow =
    ThresholdRow(meter: string, hour: Cell, lower: Bound, upper: Bound, samples: Cell, lowSample: bool)

  /** A file whose header is not the required one cannot be read. */
  datatype Content = BadColumns | Rows(rows: seq<ThresholdRow>)

  datatype Verdict = Pass | Warn | Fail

  type Pair = (string, int)

  const HOURS: int := 24

  function ExpectedPairs(meters: set<string>): set<Pair> {
    set m, h | m in meters && 0 <= h < HOURS :: (m, h)
  }

  predicate SoundRow(row: ThresholdRow) {
    && row.hour.Number? && row.samples.Number?
    && row.lower.Finite? && row.upper.Finite? && row.lower.value <= row.upper.value
  }

  function PairOf(row: ThresholdRow): Pair
    requires row.hour.Number?
  {
    (row.meter, row.hour.value)
  }

  /** Sound rows for expected pairs, none of them repeated. */
  ghost predicate SoFarGood(rows: seq<ThresholdRow>, meters: set<string>) {
    && (forall i :: 0 <= i < |rows| ==> SoundRow(rows[i]) && PairOf(rows[i]) in ExpectedPairs(meters))
    && (forall i, j :: 0 <= i < j < |rows| ==> PairOf(rows[i]) != PairOf(rows[j]))
  }

  /** The rows list every meter and hour exactly once, each with sound values. */
  ghost predicate WellFormed(rows: seq<ThresholdRow>, meters: set<string>) {
    && SoFarGood(rows, meters)
    && forall p :: p in ExpectedPairs(meters) ==> exists i :: 0 <= i < |rows| && PairOf(rows[i]) == p
  }

  ghost function PairsOf(rows: seq<ThresholdRow>): set<Pair> {
    set i | 0 <= i < |rows| && rows[i].hour.Number? :: PairOf(rows[i])
  }

  predicate LowSample(row: ThresholdRow, minSamples: int) {
    row.samples.Number? && (row.samples.value < minSamples || row.lowSample)
  }

  /** Reading the row comes to a cell that its line does not have, which raises. A cell is not
      read once an earlier one has failed to parse. */
  predicate ReadsMissingCell(row: ThresholdRow) {
    || row.hour.Missing?
    || (row.hour.Number? && row.lower.MissingBound?)
    || (row.hour.Number? && !row.lower.NotNumeric? && row.upper.MissingBound?)
    || (row.hour.Number? && !row.lower.NotNumeric? && !row.upper.NotNumeric? && row.samples.Missing?)
  }

  ghost predicate MeetsMissingCell(rows: seq<ThresholdRow>) {
    exists i :: 0 <= i < |rows| && ReadsMissingCell(rows[i])
  }

  /** The checks on one row whose hour parsed: whether they raise, how many errors they add, and
      whether the row counts as a low-sample row. */
  method CheckRow(row: ThresholdRow, seen: set<Pair>, expected: set<Pair>, minSamples: int)
    returns (raised: bool, errors: nat, low: bool)
    requires row.hour.Number?
    requires forall p :: p in expected ==> 0 <= p.1 < HOURS
    ensures raised <==> ReadsMissingCell(row)
    ensures !raised ==> (errors == 0 <==> SoundRow(row) && PairOf(row) !in seen && PairOf(row) in expected)
    ensures !raised && errors == 0 ==> (low <==> LowSample(row, minSamples))
  {
    raised, errors, low := false, 0, false;
    var pair := PairOf(row);
    if pair in seen {
      errors := errors + 1;
    }
    if pair !in expected {
      errors := errors + 1;
    }
    if row.hour.value < 0 || row.hour.value > 23 {
      errors := errors + 1;
    }
    if row.lower.MissingBound? {
      return true, errors, low;
    }
    if row.lower.NotNumeric? {
      return false, errors + 1, low;
    }
    if row.upper.MissingBound? {
      return true, errors, low;
    }
    if row.upper.NotNumeric? {
      return false, errors + 1, low;
    }
    if !row.lower.Finite? || !row.upper.Finite? {
      errors := errors + 1;
    } else if row.lower.value > row.upper.value {
      errors := errors + 1;
    }
    if row.samples.Missing? {
      return true, errors, low;
    }
    if row.samples.NotInteger? {
      return false, errors + 1, low;
    }
    low := row.samples.value < minSamples || row.lowSample;
  }

  /** The row loop of validate_threshold_file: it raises exactly at a missing cell, and
      otherwise finds no error exactly in a well-formed file. */
  method CheckRows(rows: seq<ThresholdRow>, meters: set<string>, minSamples: int)
    returns (raised: bool, errors: nat, lowRows: nat)
    ensures raised <==> MeetsMissingCell(rows)
    ensures !raised ==> (errors == 0 <==> WellFormed(rows, meters))
    ensures !raised && errors == 0 ==>
              (lowRows > 0 <==> exists i :: 0 <= i < |rows| && LowSample(rows[i], minSamples))
  {
    raised, errors, lowRows := false, 0, 0;
    var expected := ExpectedPairs(meters);
    var seen: set<Pair> := {};
    assert rows[..0] == [];
    for i := 0 to |rows|
      invariant !raised && !MeetsMissingCell(rows[..i])
      invariant errors == 0 <==> SoFarGood(rows[..i], meters)
      invariant seen == PairsOf(rows[..i])
      invariant errors == 0 ==> (lowRows > 0 <==> exists k :: 0 <= k < i && LowSample(rows[k], minSamples))
    {
      var row := rows[i];
      OneMoreRow(rows, i, meters);
      if row.hour.Missing? {
        return true, errors, lowRows;
      }
      if row.hour.NotInteger? {
        errors := errors + 1;
        continue;
      }
      var stopped, found, low := CheckRow(row, seen, expected, minSamples);
      if stopped {
        return true, errors, lowRows;
      }
      errors := errors + found;
      seen := seen + {PairOf(row)};
      if low {
        lowRows := lowRows + 1;
      }
    }
    assert rows[..|rows|] == rows;
    AllPairsSeen(rows, meters);
    if expected - seen != {} {
      errors := errors + 1;
    }
    if seen - expected != {} {
      errors := errors + 1;
    }
  }

  lemma OneMoreRow(rows: seq<ThresholdRow>, i: nat, meters: set<string>)
    requires i < |rows|
    ensures !rows[i].hour.Number? ==> PairsOf(rows[..i + 1]) == PairsOf(rows[..i])
    ensures rows[i].hour.Number? ==> PairsOf(rows[..i + 1]) == PairsOf(rows[..i]) + {PairOf(rows[i])}
    ensures SoFarGood(rows[..i + 1], meters) <==>
            SoFarGood(rows[..i], meters) && SoundRow(rows[i])
            && PairOf(rows[i]) !in PairsOf(rows[..i]) && PairOf(rows[i]) in ExpectedPairs(meters)
  {
    var more, less := rows[..i + 1], rows[..i];
    assert more == less + [rows[i]];
    if rows[i].hour.Number? {
      assert more[i].hour.Number? && PairOf(more[i]) in PairsOf(more);
    }
    forall k | 0 <= k < i
      ensures more[k] == less[k]
    {
    }
  }

  lemma AllPairsSeen(rows: seq<ThresholdRow>, meters: set<string>)
    ensures SoFarGood(rows, meters) ==> PairsOf(rows) <= ExpectedPairs(meters)
    ensures SoFarGood(rows, meters) ==> (WellFormed(rows, meters) <==> ExpectedPairs(meters) - PairsOf(rows) == {})
  {
    if SoFarGood(rows, meters) {
      forall p
        ensures p in PairsOf(rows) <==> exists i :: 0 <= i < |rows| && PairOf(rows[i]) == p
      {
        if i :| 0 <= i < |rows| && PairOf(rows[i]) == p {
          assert rows[i].hour.Number?;
        }
      }
      if ExpectedPairs(meters) - PairsOf(rows) == {} {
        forall p | p in ExpectedPairs(meters)
          ensures p in PairsOf(rows)
        {
          assert p !in ExpectedPairs(meters) - PairsOf(rows);
        }
      }
    }
  }

  /** A file without errors has 24 rows for every meter. */
  lemma WellFormedSize(rows: seq<ThresholdRow>, meters: set<string>)
    requires WellFormed(rows, meters)
    ensures |rows| == HOURS * |meters|
  {
    PairCount(rows);
    assert PairsOf(rows) == ExpectedPairs(meters);
    ExpectedCount(meters);
  }

  lemma {:induction false} PairCount(rows: seq<ThresholdRow>)
    requires forall i :: 0 <= i < |rows| ==> rows[i].hour.Number?
    requires forall i, j :: 0 <= i < j < |rows| ==> PairOf(rows[i]) != PairOf(rows[j])
    ensures |PairsOf(rows)| == |rows|
  {
    if rows != [] {
      var front, last := rows[..|rows| - 1], rows[|rows| - 1];
      PairCount(front);
      OneMoreRow(rows, |rows| - 1, {});
      assert rows[..|rows| - 1 + 1] == rows;
      assert PairOf(last) !in PairsOf(front);
    }
  }

  lemma {:induction false} ExpectedCount(meters: set<string>)
    ensures |ExpectedPairs(meters)| == HOURS * |meters|
    decreases |meters|
  {
    if meters != {} {
      var m :| m in meters;
      ExpectedCount(meters - {m});
      var own := set h | 0 <= h < HOURS :: (m, h);
      assert ExpectedPairs(meters) == ExpectedPairs(meters - {m}) + own;
      HoursOf(m, HOURS);
    }
  }

  lemma {:induction false} HoursOf(m: string, n: nat)
    ensures |set h | 0 <= h < n :: (m, h)| == n
  {
    if n > 0 {
      HoursOf(m, n - 1);
      assert (set h | 0 <= h < n :: (m, h)) == (set h | 0 <= h < n - 1 :: (m, h)) + {(m, n - 1)};
    }
  }

  // ----- Comparison with the deployed file -----------------------------------------------

  /** The deployed rows by meter and hour; a later row wins, and hours must be digits. */
  function CurrentRows(rows: seq<ThresholdRow>): map<Pair, ThresholdRow> {
    if rows == [] then map[]
    else
      var front, row := CurrentRows(rows[..|rows| - 1]), rows[|rows| - 1];
      if row.hour.Number? && 0 <= row.hour.value then front[PairOf(row) := row] else front
  }

  function Abs(x: real): real {
    if x < 0.0 then -x else x
  }

  function Scale(deployed: real): real {
    if Abs(deployed) > 1.0 then Abs(deployed) else 1.0
  }

  /** The upper bound moved by more than the warning ratio, relative to a finite deployed one;
      a move to infinity is more than any ratio. */
  predicate LargeChange(row: ThresholdRow, current: map<Pair, ThresholdRow>, ratio: real) {
    && row.hour.Number? && PairOf(row) in current && current[PairOf(row)].upper.Finite?
    && var was := current[PairOf(row)].upper.value;
      || row.upper.Infinite?
      || (row.upper.Finite? && Abs(row.upper.value - was) > ratio * Scale(was))
  }

  method CountLargeChanges(rows: seq<ThresholdRow>, deployed: seq<ThresholdRow>, ratio: real) returns (changed: nat)
    ensures changed > 0 <==> exists i :: 0 <= i < |rows| && LargeChange(rows[i], CurrentRows(deployed), ratio)
  {
    changed := 0;
    var current := CurrentRows(deployed);
    for i := 0 to |rows|
      invariant changed > 0 <==> exists k :: 0 <= k < i && LargeChange(rows[k], current, ratio)
    {
      if LargeChange(rows[i], current, ratio) {
        changed := changed + 1;
      }
    }
  }

  // ----- The verdict ---------------------------------------------------------------------

  /** Some upper bound is largely changed against the deployed file, if there is one. */
  ghost predicate LargelyChanged(rows: seq<ThresholdRow>, deployed: Option<Content>, ratio: real) {
    && deployed.Some? && deployed.value.Rows?
    && exists i :: 0 <= i < |rows| && LargeChange(rows[i], CurrentRows(deployed.value.rows), ratio)
  }

  ghost predicate Suspicious(rows: seq<ThresholdRow>, minSamples: int, deployed: Option<Content>, ratio: real) {
    (exists i :: 0 <= i < |rows| && LowSample(rows[i], minSamples)) || LargelyChanged(rows, deployed, ratio)
  }

  ghost function VerdictOn(rows: seq<ThresholdRow>, meters: set<string>, minSamples: int,
                           deployed: Option<Content>, ratio: real): Verdict {
    if !WellFormed(rows, meters) then Fail
    else if Suspicious(rows, minSamples, deployed, ratio) then Warn
    else Pass
  }

  /** Validating the file does not raise: it is there with the right header, and no row is cut
      short before a cell that is read. */
  ghost predicate CanBeChecked(file: Option<Content>) {
    file.Some? && file.value.Rows? && !MeetsMissingCell(file.value.rows)
  }

  predicate HourMissing(rows: seq<ThresholdRow>) {
    exists i :: 0 <= i < |rows| && rows[i].hour.Missing?
  }

  /** Comparing with the deployed file does not raise: there is none, or it has the right header
      and every line reaches its hour cell. */
  predicate CanBeCompared(deployed: Option<Content>) {
    deployed.None? || (deployed.value.Rows? && !HourMissing(deployed.value.rows))
  }

  /** validate_threshold_file: raises exactly when a file cannot be read this far; otherwise
      fails exactly the files that are not well-formed and warns on low samples and large
      changes. */
  method ValidateFile(file: Option<Content>, meters: set<string>, minSamples: int, deployed: Option<Content>,
                      ratio: real)
    returns (r: Outcome<Verdict>)
    ensures r.Returned? <==> CanBeChecked(file) && CanBeCompared(deployed)
    ensures r.Returned? ==> r.value == VerdictOn(file.value.rows, meters, minSamples, deployed, ratio)
  {
    if file.None? || file.value.BadColumns? {
      return Raised;
    }
    var rows := file.value.rows;
    var raised, errors, lowRows := CheckRows(rows, meters, minSamples);
    if raised {
      return Raised;
    }
    var changed := 0;
    if deployed.Some? {
      if deployed.value.BadColumns? || HourMissing(deployed.value.rows) {
        return Raised;
      }
      changed := CountLargeChanges(rows, deployed.value.rows, ratio);
    }
    r := Returned(if errors > 0 then Fail else if lowRows > 0 || changed > 0 then Warn else Pass);
  }

  /** A well-formed file can be checked, and it tells the meters it is well-formed for. */
  lemma WellFormedMeters(rows: seq<ThresholdRow>, meters: set<string>, others: set<string>)
    requires WellFormed(rows, meters)
    ensures !MeetsMissingCell(rows)
    ensures WellFormed(rows, others) <==> meters == others
  {
    if WellFormed(rows, others) {
      MetersListed(rows, meters, others);
      MetersListed(rows, others, meters);
    }
  }

  lemma MetersListed(rows: seq<ThresholdRow>, meters: set<string>, others: set<string>)
    requires WellFormed(rows, meters) && WellFormed(rows, others)
    ensures meters <= others
  {
    forall m | m in meters
      ensures m in others
    {
      assert (m, 0) in ExpectedPairs(meters);
      var i :| 0 <= i < |rows| && PairOf(rows[i]) == (m, 0);
      assert PairOf(rows[i]) in ExpectedPairs(others);
    }
  }

  /** A last line cut off after its meter makes validation raise, however good the rest is. */
  lemma CutLineRaises(rows: seq<ThresholdRow>, cut: ThresholdRow)
    requires cut.hour.Missing?
    ensures !CanBeChecked(Some(Rows(rows + [cut])))
  {
    assert (rows + [cut])[|rows|] == cut && ReadsMissingCell(cut);
  }

  // ----- What counts as a large change ---------------------------------------------------

  /** Row k of the deployed file is the one to compare with: the last of its meter and hour, the
      hour written in digits. */
  predicate Deployed(deployed: seq<ThresholdRow>, k: int, meter: string, hour: int) {
    && 0 <= k < |deployed| && 0 <= hour
    && deployed[k].meter == meter && deployed[k].hour == Number(hour)
    && forall n :: k < n < |deployed| ==> !(deployed[n].meter == meter && deployed[n].hour == Number(hour))
  }

  lemma {:induction false} CurrentRowIs(deployed: seq<ThresholdRow>, meter: string, hour: int) returns (k: int)
    ensures (meter, hour) in CurrentRows(deployed) ==>
              Deployed(deployed, k, meter, hour) && deployed[k] == CurrentRows(deployed)[(meter, hour)]
    ensures (meter, hour) !in CurrentRows(deployed) ==> forall n :: !Deployed(deployed, n, meter, hour)
  {
    k := -1;
    if deployed != [] {
      var last := |deployed| - 1;
      if deployed[last].meter == meter && deployed[last].hour == Number(hour) && 0 <= hour {
        k := last;
      } else {
        k := CurrentRowIs(deployed[..last], meter, hour);
        if (meter, hour) !in CurrentRows(deployed[..last]) {
          forall n
            ensures !Deployed(deployed, n, meter, hour)
          {
            assert !Deployed(deployed[..last], n, meter, hour);
          }
        }
      }
    }
  }

  /** The new bound is infinite, or it is finite and lies outside the band around the deployed one:
      as wide as the ratio on both sides where that one lies in [-1, 1], and the ratio times its
      size elsewhere. */
  predicate OutsideBand(was: real, bound: Bound, ratio: real) {
    || bound.Infinite?
    || (bound.Finite?
        && if was > 1.0 then bound.value > was + ratio * was || bound.value < was - ratio * was
           else if was < -1.0 then bound.value > was - ratio * was || bound.value < was + ratio * was
           else bound.value > was + ratio || bound.value < was - ratio)
  }

  /** The row's bound is outside the band around the finite bound of the last deployed row of its
      meter and hour. */
  ghost predicate FarFromDeployed(row: ThresholdRow, deployed: seq<ThresholdRow>, ratio: real) {
    && row.hour.Number?
    && exists k :: Deployed(deployed, k, row.meter, row.hour.value)
                   && deployed[k].upper.Finite? && OutsideBand(deployed[k].upper.value, row.upper, ratio)
  }

  lemma OneIsDeployed(deployed: seq<ThresholdRow>, meter: string, hour: int, j: int, k: int)
    requires Deployed(deployed, j, meter, hour) && Deployed(deployed, k, meter, hour)
    ensures j == k
  {
  }

  lemma LargeChangeIff(row: ThresholdRow, deployed: seq<ThresholdRow>, ratio: real)
    ensures LargeChange(row, CurrentRows(deployed), ratio) <==> FarFromDeployed(row, deployed, ratio)
  {
    if row.hour.Number? {
      var k := CurrentRowIs(deployed, row.meter, row.hour.value);
      if PairOf(row) in CurrentRows(deployed) {
        forall j | Deployed(deployed, j, row.meter, row.hour.value)
          ensures j == k
        {
          OneIsDeployed(deployed, row.meter, row.hour.value, j, k);
        }
        LargeAgainst(row, deployed[k], CurrentRows(deployed), ratio);
      }
    }
  }

  lemma LargeAgainst(row: ThresholdRow, compared: ThresholdRow, current: map<Pair, ThresholdRow>, ratio: real)
    requires row.hour.Number? && PairOf(row) in current && current[PairOf(row)] == compared
    ensures LargeChange(row, current, ratio) <==>
            compared.upper.Finite? && OutsideBand(compared.upper.value, row.upper, ratio)
  {
    if compared.upper.Finite? && row.upper.Finite? {
      BandIsRatio(compared.upper.value, row.upper.value, ratio);
    }
  }

  lemma BandIsRatio(was: real, now: real, ratio: real)
    ensures OutsideBand(was, Finite(now), ratio) <==> Abs(now - was) > ratio * Scale(was)
  {
    assert ratio * -was == -(ratio * was);
  }

  /** The change is relative: with a deployed bound of at least 1 in size, multiplying both bounds by
      a factor of at least 1 changes no answer. */
  lemma LargeChangeScales(was: real, now: real, ratio: real, factor: real, moreWas: real, moreNow: real)
    requires (was >= 1.0 || was <= -1.0) && factor >= 1.0
    requires moreWas == factor * was && moreNow == factor * now
    ensures OutsideBand(moreWas, Finite(moreNow), ratio) <==> OutsideBand(was, Finite(now), ratio)
  {
    RatioScales(was, now, ratio, factor);
    SameBand(was, now, moreWas, moreNow, ratio);
  }

  lemma SameBand(was: real, now: real, moreWas: real, moreNow: real, ratio: real)
    requires Abs(moreNow - moreWas) > ratio * Scale(moreWas) <==> Abs(now - was) > ratio * Scale(was)
    ensures OutsideBand(moreWas, Finite(moreNow), ratio) <==> OutsideBand(was, Finite(now), ratio)
  {
    BandIsRatio(was, now, ratio);
    BandIsRatio(moreWas, moreNow, ratio);
  }

  lemma RatioScales(was: real, now: real, ratio: real, factor: real)
    requires (was >= 1.0 || was <= -1.0) && factor >= 1.0
    ensures Abs(factor * now - factor * was) > ratio * Scale(factor * was) <==> Abs(now - was) > ratio * Scale(was)
  {
    ScaledDifference(factor, now, was);
    ScaledAbs(factor, now - was);
    ScaledAbs(factor, was);
    SameRatio(factor, ratio, Abs(now - was), Scale(was), Abs(factor * now - factor * was), Scale(factor * was));
  }

  lemma SameRatio(factor: real, ratio: real, change: real, size: real, moreChange: real, moreSize: real)
    requires factor >= 1.0 && moreChange == factor * change && moreSize == factor * size
    ensures moreChange > ratio * moreSize <==> change > ratio * size
  {
    FactorCancels(factor, change, ratio, size);
  }

  lemma ScaledDifference(factor: real, a: real, b: real)
    ensures factor * a - factor * b == factor * (a - b)
  {
  }

  lemma ScaledAbs(factor: real, x: real)
    requires factor >= 1.0
    ensures Abs(factor * x) == factor * Abs(x)
    ensures (x >= 1.0 || x <= -1.0) ==> Scale(factor * x) == factor * Abs(x) && Scale(x) == Abs(x)
  {
    if x >= 0.0 {
      assert factor * x >= x;
    } else {
      assert factor * -x >= -x;
      assert factor * -x == -(factor * x);
    }
  }

  lemma FactorCancels(factor: real, a: real, ratio: real, b: real)
    requires factor >= 1.0
    ensures factor * a > ratio * (factor * b) <==> a > ratio * b
  {
    var gap := a - ratio * b;
    assert factor * a - ratio * (factor * b) == factor * gap;
    if gap > 0.0 {
      assert factor * gap > 0.0;
    } else {
      assert factor * gap <= 0.0;
    }
  }

  // ----- The verdict, written out --------------------------------------------------------

  /** A file fails exactly if it is not well-formed. It passes exactly if it is, every row has enough
      samples and is not flagged, and no upper bound is outside the band around the deployed one. */
  lemma VerdictIff(rows: seq<ThresholdRow>, meters: set<string>, minSamples: int, deployed: Option<Content>,
                   ratio: real)
    ensures VerdictOn(rows, meters, minSamples, deployed, ratio) == Fail <==> !WellFormed(rows, meters)
    ensures VerdictOn(rows, meters, minSamples, deployed, ratio) == Pass <==>
            && WellFormed(rows, meters)
            && (forall i :: 0 <= i < |rows| ==> rows[i].samples.value >= minSamples && !rows[i].lowSample)
            && (deployed.Some? && deployed.value.Rows? ==>
                  forall i :: 0 <= i < |rows| ==> !FarFromDeployed(rows[i], deployed.value.rows, ratio))
  {
    if WellFormed(rows, meters) && deployed.Some? && deployed.value.Rows? {
      forall i | 0 <= i < |rows|
        ensures LargeChange(rows[i], CurrentRows(deployed.value.rows), ratio)
                <==> FarFromDeployed(rows[i], deployed.value.rows, ratio)
      {
        LargeChangeIff(rows[i], deployed.value.rows, ratio);
      }
    }
  }

  /** What well-formed means, cell by cell: for every meter and each of the hours 0 to 23 one row,
      and no other rows, with finite bounds in order and a whole number of samples. */
  lemma WellFormedIff(rows: seq<ThresholdRow>, meters: set<string>)
    ensures WellFormed(rows, meters) <==>
            && (forall i :: 0 <= i < |rows| ==>
                  && rows[i].meter in meters && rows[i].hour.Number? && 0 <= rows[i].hour.value <= 23
                  && rows[i].lower.Finite? && rows[i].upper.Finite? && rows[i].samples.Number?
                  && rows[i].lower.value <= rows[i].upper.value)
            && (forall i, j :: 0 <= i < j < |rows| ==>
                  rows[i].meter != rows[j].meter || rows[i].hour != rows[j].hour)
            && (forall m, h :: m in meters && 0 <= h <= 23 ==> RowFor(rows, m, h))
  {
    if forall i :: 0 <= i < |rows| ==> SoundRow(rows[i]) {
      AllCovered(rows, meters);
      forall i | 0 <= i < |rows|
        ensures PairOf(rows[i]) in ExpectedPairs(meters) <==> rows[i].meter in meters && 0 <= rows[i].hour.value <= 23
      {
        ExpectedPairIff(meters, PairOf(rows[i]));
      }
    }
  }

  lemma ExpectedPairIff(meters: set<string>, p: Pair)
    ensures p in ExpectedPairs(meters) <==> p.0 in meters && 0 <= p.1 <= 23
  {
    assert p == (p.0, p.1);
  }

  lemma PairListedIff(rows: seq<ThresholdRow>, p: Pair)
    requires forall i :: 0 <= i < |rows| ==> rows[i].hour.Number?
    ensures RowFor(rows, p.0, p.1) <==> exists i :: 0 <= i < |rows| && PairOf(rows[i]) == p
  {
    if i :| 0 <= i < |rows| && rows[i].meter == p.0 && rows[i].hour == Number(p.1) {
      assert PairOf(rows[i]) == p;
    }
  }

  lemma AllCovered(rows: seq<ThresholdRow>, meters: set<string>)
    requires forall i :: 0 <= i < |rows| ==> rows[i].hour.Number?
    ensures (forall p :: p in ExpectedPairs(meters) ==> exists i :: 0 <= i < |rows| && PairOf(rows[i]) == p)
            <==> (forall m, h :: m in meters && 0 <= h <= 23 ==> RowFor(rows, m, h))
  {
    if forall m, h :: m in meters && 0 <= h <= 23 ==> RowFor(rows, m, h) {
      forall p: Pair | p in ExpectedPairs(meters)
        ensures exists i :: 0 <= i < |rows| && PairOf(rows[i]) == p
      {
        ExpectedPairIff(meters, p);
        PairListedIff(rows, p);
      }
    }
    if forall p :: p in ExpectedPairs(meters) ==> exists i :: 0 <= i < |rows| && PairOf(rows[i]) == p {
      forall m, h | m in meters && 0 <= h <= 23
        ensures RowFor(rows, m, h)
      {
        ExpectedPairIff(meters, (m, h));
        PairListedIff(rows, (m, h));
      }
    }
  }

  predicate RowFor(rows: seq<ThresholdRow>, meter: string, hour: int) {
    exists i :: 0 <= i < |rows| && rows[i].meter == meter && rows[i].hour == Number(hour)
  }

  // ----- Where reading a row stops -------------------------------------------------------

  datatype CellState = Absent | Unparsed | Parsed

  /** How the cells of a row fare, in the order in which they are read. */
  function ReadingOrder(row: ThresholdRow): seq<CellState> {
    [if row.hour.Missing? then Absent else if row.hour.NotInteger? then Unparsed else Parsed,
     if row.lower.MissingBound? then Absent else if row.lower.NotNumeric? then Unparsed else Parsed,
     if row.upper.MissingBound? then Absent else if row.upper.NotNumeric? then Unparsed else Parsed,
     if row.samples.Missing? then Absent else if row.samples.NotInteger? then Unparsed else Parsed]
  }

  /** Checking a row raises exactly if the first of its cells that does not parse is absent. */
  lemma RaisesAtFirstBadCell(row: ThresholdRow)
    ensures ReadsMissingCell(row) <==>
            exists k :: 0 <= k < 4 && ReadingOrder(row)[k] == Absent
              && forall j :: 0 <= j < k ==> ReadingOrder(row)[j] == Parsed
  {
    var cells := ReadingOrder(row);
    assert cells[0] == Absent || cells[1] == Absent || cells[2] == Absent || cells[3] == Absent
           || forall k :: 0 <= k < 4 ==> cells[k] != Absent;
  }
}
