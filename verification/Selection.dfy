/** Meter-balanced choice of source files: one file per meter and round until the limit. */
module Selection {
  import opened Wrappers

  /** A source file: its place in path order and the meter its header names. */
  datatype MeterFile = MeterFile(path: nat, meter: string)

  function OfMeter(files: seq<MeterFile>, meter: string): seq<MeterFile> {
    if files == [] then []
    else
      var front := OfMeter(files[..|files| - 1], meter);
      if files[|files| - 1].meter == meter then front + [files[|files| - 1]] else front
  }

  ghost predicate Distinct<T>(s: seq<T>) {
    forall i, j :: 0 <= i < j < |s| ==> s[i] != s[j]
  }

  /** How many of a meter's files a selection takes after `round` full rounds and the first
      `done` meters of the next one. */
  function Share(files: seq<MeterFile>, meters: seq<string>, round: nat, done: nat, m: nat): nat
    requires m < |meters|
  {
    var available := |OfMeter(files, meters[m])|;
    Min(if m < done then round + 1 else round, available)
  }

  /** Every meter contributes a prefix of its list, and the shares are those of round-robin. */
  ghost predicate RoundRobin(files: seq<MeterFile>, meters: seq<string>, selected: seq<MeterFile>, round: nat,
                             done: nat) {
    && done <= |meters|
    && (forall m :: 0 <= m < |meters| ==>
          OfMeter(selected, meters[m]) == OfMeter(files, meters[m])[..Share(files, meters, round, done, m)])
    && (forall x :: x in selected ==> x.meter in meters)
  }

  lemma OfMeterAppend(selected: seq<MeterFile>, x: MeterFile, meter: string)
    ensures x.meter == meter ==> OfMeter(selected + [x], meter) == OfMeter(selected, meter) + [x]
    ensures x.meter != meter ==> OfMeter(selected + [x], meter) == OfMeter(selected, meter)
  {
    assert (selected + [x])[..|selected|] == selected;
  }

  lemma {:induction false} OfMeterElements(files: seq<MeterFile>, meter: string)
    ensures forall x :: x in OfMeter(files, meter) <==> x in files && x.meter == meter
  {
    if files != [] {
      OfMeterElements(files[..|files| - 1], meter);
      assert files == files[..|files| - 1] + [files[|files| - 1]];
    }
  }

  /** Giving its next file extends the prefix that a meter's own list contributes and leaves
      every other meter's alone. */
  lemma PrefixExtended(files: seq<MeterFile>, selected: seq<MeterFile>, giver: string, round: nat, meter: string,
                       share: nat)
    requires round < |OfMeter(files, giver)| && share <= |OfMeter(files, meter)|
    requires OfMeter(selected, meter) == OfMeter(files, meter)[..share] && (meter == giver ==> share == round)
    ensures OfMeter(files, giver)[round].meter == giver
    ensures OfMeter(selected + [OfMeter(files, giver)[round]], meter)
         == OfMeter(files, meter)[..if meter == giver then share + 1 else share]
  {
    var list := OfMeter(files, giver);
    OfMeterElements(files, giver);
    assert list[round] in list;
    OfMeterAppend(selected, list[round], meter);
    OneMore(list, round);
  }

  lemma OneMore(list: seq<MeterFile>, k: nat)
    requires k < |list|
    ensures list[..k + 1] == list[..k] + [list[k]]
  {
  }

  /** The meter whose turn it is gives its next file. */
  lemma TakeOne(files: seq<MeterFile>, meters: seq<string>, selected: seq<MeterFile>, round: nat, m: nat)
    requires Distinct(meters) && m < |meters| && RoundRobin(files, meters, selected, round, m)
    requires round < |OfMeter(files, meters[m])|
    ensures RoundRobin(files, meters, selected + [OfMeter(files, meters[m])[round]], round, m + 1)
  {
    var x := OfMeter(files, meters[m])[round];
    PrefixExtended(files, selected, meters[m], round, meters[m], round);
    forall k | 0 <= k < |meters|
      ensures OfMeter(selected + [x], meters[k]) == OfMeter(files, meters[k])[..Share(files, meters, round, m + 1, k)]
    {
      PrefixExtended(files, selected, meters[m], round, meters[k], Share(files, meters, round, m, k));
    }
  }

  /** The meter whose turn it is has no file left. */
  lemma TakeNone(files: seq<MeterFile>, meters: seq<string>, selected: seq<MeterFile>, round: nat, m: nat)
    requires m < |meters| && RoundRobin(files, meters, selected, round, m)
    requires |OfMeter(files, meters[m])| <= round
    ensures RoundRobin(files, meters, selected, round, m + 1)
  {
    forall k | 0 <= k < |meters|
      ensures Share(files, meters, round, m + 1, k) == Share(files, meters, round, m, k)
    {
    }
  }

  // ----- Counting by meter ---------------------------------------------------------------

  function CountSum(files: seq<MeterFile>, meters: seq<string>): nat {
    if meters == [] then 0
    else CountSum(files, meters[..|meters| - 1]) + |OfMeter(files, meters[|meters| - 1])|
  }

  lemma {:induction false} CountSumAppend(files: seq<MeterFile>, x: MeterFile, meters: seq<string>)
    requires Distinct(meters)
    ensures CountSum(files + [x], meters) == CountSum(files, meters) + if x.meter in meters then 1 else 0
  {
    if meters != [] {
      var front, last := meters[..|meters| - 1], meters[|meters| - 1];
      CountSumAppend(files, x, front);
      OfMeterAppend(files, x, last);
      assert meters == front + [last];
      assert last !in front;
    }
  }

  /** The files are those of their meters taken together. */
  lemma {:induction false} FilesByMeter(files: seq<MeterFile>, meters: seq<string>)
    requires Distinct(meters) && forall x :: x in files ==> x.meter in meters
    ensures |files| == CountSum(files, meters)
  {
    if files == [] {
      EmptyCountSum(meters);
    } else {
      var front := files[..|files| - 1];
      FilesByMeter(front, meters);
      CountSumAppend(front, files[|files| - 1], meters);
      assert files == front + [files[|files| - 1]];
    }
  }

  lemma {:induction false} EmptyCountSum(meters: seq<string>)
    ensures CountSum([], meters) == 0
  {
    if meters != [] {
      EmptyCountSum(meters[..|meters| - 1]);
    }
  }

  lemma {:induction false} CountSumMonotone(a: seq<MeterFile>, b: seq<MeterFile>, meters: seq<string>)
    requires forall m :: 0 <= m < |meters| ==> |OfMeter(a, meters[m])| <= |OfMeter(b, meters[m])|
    ensures CountSum(a, meters) <= CountSum(b, meters)
  {
    if meters != [] {
      CountSumMonotone(a, b, meters[..|meters| - 1]);
    }
  }

  /** While the first round lasts, as many files are selected as meters are done. */
  lemma {:induction false} FirstRoundSum(selected: seq<MeterFile>, meters: seq<string>, done: nat)
    requires done <= |meters|
    requires forall m :: 0 <= m < |meters| ==> |OfMeter(selected, meters[m])| == if m < done then 1 else 0
    ensures CountSum(selected, meters) == done
  {
    if meters != [] {
      FirstRoundSum(selected, meters[..|meters| - 1], Min(done, |meters| - 1));
    }
  }

  /** Every meter is reached once the first round is over. */
  lemma {:induction false} EveryMeterSum(selected: seq<MeterFile>, meters: seq<string>)
    requires forall m :: 0 <= m < |meters| ==> 1 <= |OfMeter(selected, meters[m])|
    ensures |meters| <= CountSum(selected, meters)
  {
    if meters != [] {
      EveryMeterSum(selected, meters[..|meters| - 1]);
    }
  }

  lemma {:induction false} DistinctByMeter(files: seq<MeterFile>)
    requires forall meter :: Distinct(OfMeter(files, meter))
    ensures Distinct(files)
  {
    if files != [] {
      var front, last := files[..|files| - 1], files[|files| - 1];
      assert files == front + [last];
      forall meter
        ensures Distinct(OfMeter(front, meter))
      {
        OfMeterAppend(front, last, meter);
        assert Distinct(OfMeter(files, meter));
        assert OfMeter(front, meter) == OfMeter(files, meter)[..|OfMeter(front, meter)|];
      }
      DistinctByMeter(front);
      OfMeterElements(front, last.meter);
      assert OfMeter(files, last.meter) == OfMeter(front, last.meter) + [last];
      assert Distinct(OfMeter(files, last.meter));
      assert last !in OfMeter(front, last.meter) by {
        var kept := OfMeter(front, last.meter);
        forall k | 0 <= k < |kept|
          ensures kept[k] != last
        {
          assert OfMeter(files, last.meter)[k] == kept[k] && OfMeter(files, last.meter)[|kept|] == last;
        }
      }
    }
  }

  lemma {:induction false} OfMeterDistinct(files: seq<MeterFile>, meter: string)
    requires Distinct(files)
    ensures Distinct(OfMeter(files, meter))
  {
    if files != [] {
      OfMeterDistinct(files[..|files| - 1], meter);
      OfMeterElements(files[..|files| - 1], meter);
    }
  }

  // ----- What the selection promises -----------------------------------------------------

  /** The meters are those that have files, each once. */
  ghost predicate MetersOf(files: seq<MeterFile>, meters: seq<string>) {
    && Distinct(meters)
    && (forall x :: x in files ==> x.meter in meters)
    && (forall m :: 0 <= m < |meters| ==> OfMeter(files, meters[m]) != [])
  }

  ghost predicate TakesPrefixes(files: seq<MeterFile>, meters: seq<string>, selected: seq<MeterFile>) {
    && (forall x :: x in selected ==> x.meter in meters)
    && (forall m :: 0 <= m < |meters| ==>
          |OfMeter(selected, meters[m])| <= |OfMeter(files, meters[m])|
          && OfMeter(selected, meters[m]) == OfMeter(files, meters[m])[..|OfMeter(selected, meters[m])|])
  }

  /** If one meter has two or more files than another, the other has no more to give. */
  ghost predicate MaxMinFair(files: seq<MeterFile>, meters: seq<string>, selected: seq<MeterFile>) {
    forall m, n :: 0 <= m < |meters| && 0 <= n < |meters|
                   && |OfMeter(selected, meters[m])| >= |OfMeter(selected, meters[n])| + 2
                   ==> OfMeter(selected, meters[n]) == OfMeter(files, meters[n])
  }

  ghost function MetersCovered(meters: seq<string>, selected: seq<MeterFile>): set<nat> {
    set m: nat | m < |meters| && OfMeter(selected, meters[m]) != []
  }

  /** Round-robin has stopped: at the limit, or because every list is used up. */
  ghost predicate Stopped(files: seq<MeterFile>, meters: seq<string>, selected: seq<MeterFile>, maxFiles: nat,
                          round: nat) {
    && |selected| <= maxFiles
    && (|selected| == maxFiles || forall m :: 0 <= m < |meters| ==> |OfMeter(files, meters[m])| <= round)
  }

  lemma StoppedSize(files: seq<MeterFile>, meters: seq<string>, selected: seq<MeterFile>, maxFiles: nat, round: nat,
                    done: nat)
    requires MetersOf(files, meters) && RoundRobin(files, meters, selected, round, done)
    requires Stopped(files, meters, selected, maxFiles, round)
    ensures |selected| == Min(maxFiles, |files|)
  {
    FilesByMeter(files, meters);
    FilesByMeter(selected, meters);
    CountSumMonotone(selected, files, meters);
    if |selected| != maxFiles {
      CountSumMonotone(files, selected, meters);
    }
  }

  lemma StoppedDistinct(files: seq<MeterFile>, meters: seq<string>, selected: seq<MeterFile>, round: nat, done: nat)
    requires Distinct(files) && RoundRobin(files, meters, selected, round, done)
    ensures Distinct(selected)
  {
    forall meter
      ensures Distinct(OfMeter(selected, meter))
    {
      OfMeterElements(selected, meter);
      OfMeterDistinct(files, meter);
      if OfMeter(selected, meter) != [] {
        assert OfMeter(selected, meter)[0] in OfMeter(selected, meter);
        var m :| 0 <= m < |meters| && meters[m] == meter;
      }
    }
    DistinctByMeter(selected);
  }

  lemma CoveredMeters(files: seq<MeterFile>, meters: seq<string>, selected: seq<MeterFile>, round: nat, done: nat)
    requires MetersOf(files, meters) && RoundRobin(files, meters, selected, round, done)
    ensures MetersCovered(meters, selected) == Numbers(if round == 0 then done else |meters|)
  {
    var reached := if round == 0 then done else |meters|;
    forall m: nat
      ensures m in MetersCovered(meters, selected) <==> m < reached
    {
      if m < |meters| {
        assert |OfMeter(selected, meters[m])| == Share(files, meters, round, done, m);
      }
    }
  }

  lemma StoppedCoverage(files: seq<MeterFile>, meters: seq<string>, selected: seq<MeterFile>, maxFiles: nat,
                        round: nat, done: nat)
    requires MetersOf(files, meters) && RoundRobin(files, meters, selected, round, done)
    requires Stopped(files, meters, selected, maxFiles, round)
    ensures |MetersCovered(meters, selected)| == Min(maxFiles, |meters|)
  {
    CoveredMeters(files, meters, selected, round, done);
    FilesByMeter(selected, meters);
    forall m | 0 <= m < |meters|
      ensures |OfMeter(selected, meters[m])| == Share(files, meters, round, done, m)
    {
    }
    assert meters != [] ==> 1 <= |OfMeter(files, meters[0])|;
    if round == 0 {
      FirstRoundSum(selected, meters, done);
    } else {
      EveryMeterSum(selected, meters);
    }
  }

  /** The numbers below n. */
  ghost function Numbers(n: nat): (numbers: set<nat>)
    ensures |numbers| == n && forall m: nat :: m in numbers <==> m < n
  {
    if n == 0 then {} else Numbers(n - 1) + {n - 1}
  }

  lemma StoppedFair(files: seq<MeterFile>, meters: seq<string>, selected: seq<MeterFile>, round: nat, done: nat)
    requires RoundRobin(files, meters, selected, round, done)
    ensures TakesPrefixes(files, meters, selected) && MaxMinFair(files, meters, selected)
  {
    forall m | 0 <= m < |meters|
      ensures |OfMeter(selected, meters[m])| == Share(files, meters, round, done, m)
    {
    }
  }

  lemma RoundOver(files: seq<MeterFile>, meters: seq<string>, selected: seq<MeterFile>, round: nat)
    requires RoundRobin(files, meters, selected, round, |meters|)
    ensures RoundRobin(files, meters, selected, round + 1, 0)
  {
  }

  /** One pass over the meters, cut short when the limit is reached. */
  method SelectRound(files: seq<MeterFile>, meters: seq<string>, maxFiles: nat, before: seq<MeterFile>, roundIndex: nat)
    returns (selected: seq<MeterFile>, added: bool, ghost done: nat)
    requires Distinct(meters) && |before| < maxFiles && RoundRobin(files, meters, before, roundIndex, 0)
    ensures |selected| <= maxFiles && RoundRobin(files, meters, selected, roundIndex, done)
    ensures |selected| < maxFiles ==> done == |meters|
    ensures added <==> |before| < |selected|
    ensures added || forall m :: 0 <= m < |meters| ==> |OfMeter(files, meters[m])| <= roundIndex
  {
    selected, added, done := before, false, 0;
    var m := 0;
    while m < |meters|
      invariant 0 <= m == done <= |meters| && |before| <= |selected| < maxFiles
      invariant RoundRobin(files, meters, selected, roundIndex, m)
      invariant added <==> |before| < |selected|
      invariant !added ==> forall k :: 0 <= k < m ==> |OfMeter(files, meters[k])| <= roundIndex
    {
      var series := OfMeter(files, meters[m]);
      if roundIndex < |series| {
        TakeOne(files, meters, selected, roundIndex, m);
        selected := selected + [series[roundIndex]];
        added := true;
        if |selected| >= maxFiles {
          done := m + 1;
          break;
        }
      } else {
        TakeNone(files, meters, selected, roundIndex, m);
      }
      m := m + 1;
      done := m;
    }
  }

  /** The meter-balanced branch of select_source_files: as many distinct files as the limit and
      the archive allow, a prefix of every meter's list, over as many meters as possible, and
      max-min fair. */
  method SelectMeterBalanced(files: seq<MeterFile>, meters: seq<string>, maxFiles: nat)
    returns (selected: seq<MeterFile>)
    requires MetersOf(files, meters) && Distinct(files) && maxFiles > 0
    ensures |selected| == Min(maxFiles, |files|) && Distinct(selected)
    ensures TakesPrefixes(files, meters, selected)
    ensures |MetersCovered(meters, selected)| == Min(maxFiles, |meters|)
    ensures MaxMinFair(files, meters, selected)
  {
    selected := [];
    var roundIndex := 0;
    ghost var round, done := 0, 0;
    while |selected| < maxFiles
      invariant |selected| <= maxFiles
      invariant RoundRobin(files, meters, selected, round, done)
      invariant |selected| < maxFiles ==> round == roundIndex && done == 0
    {
      var added;
      selected, added, done := SelectRound(files, meters, maxFiles, selected, roundIndex);
      round := roundIndex;
      if !added {
        break;
      }
      roundIndex := roundIndex + 1;
      if |selected| < maxFiles {
        RoundOver(files, meters, selected, round);
        round, done := round + 1, 0;
      }
    }
    StoppedFair(files, meters, selected, round, done);
    StoppedSize(files, meters, selected, maxFiles, round, done);
    StoppedDistinct(files, meters, selected, round, done);
    StoppedCoverage(files, meters, selected, maxFiles, round, done);
  }
}
