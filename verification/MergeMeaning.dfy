/** What the merged stream means: nothing lost, each file in its own order, sorted when the
    files are, and blind to where the start bound is applied. */
module MergeMeaning {
  import opened Wrappers
  import opened SourceRows
  import opened Merge

  function OfFile(rows: seq<Row>, sequence: nat): seq<Row> {
    if rows == [] then []
    else if rows[0].sequence == sequence then [rows[0]] + OfFile(rows[1..], sequence)
    else OfFile(rows[1..], sequence)
  }

  function Pool(streams: seq<seq<Row>>): multiset<Row> {
    if streams == [] then multiset{} else multiset(streams[0]) + Pool(streams[1..])
  }

  lemma InterleaveStep(streams: seq<seq<Row>>, i: nat)
    requires LeastHead(streams, |streams|) == Some(i)
    ensures var rest := Interleave(Advance(streams, i));
            && Interleave(streams) == [streams[i][0]] + rest
            && Interleave(streams)[0] == streams[i][0] && Interleave(streams)[1..] == rest
  {
  }

  lemma AdvanceTagged(streams: seq<seq<Row>>, i: nat)
    requires Tagged(streams) && i < |streams| && streams[i] != []
    ensures Tagged(Advance(streams, i))
    ensures forall j :: 0 <= j < |streams| && j != i ==> Advance(streams, i)[j] == streams[j]
    ensures Advance(streams, i)[i] == streams[i][1..]
  {
  }

  /** Picking one file's rows out of the merged stream gives that file back, in its own
      order, whether or not any file is sorted. */
  lemma {:induction false} MergeKeepsFileOrder(streams: seq<seq<Row>>, k: nat)
    requires Tagged(streams) && k < |streams|
    ensures OfFile(Interleave(streams), k) == streams[k]
    decreases Remaining(streams)
  {
    var least := LeastHead(streams, |streams|);
    if least.Some? {
      var i := least.value;
      InterleaveStep(streams, i);
      AdvanceTagged(streams, i);
      MergeKeepsFileOrder(Advance(streams, i), k);
    }
  }

  lemma {:induction false} PoolAfterAdvance(streams: seq<seq<Row>>, i: nat)
    requires i < |streams| && streams[i] != []
    ensures Pool(streams) == multiset{streams[i][0]} + Pool(streams[i := streams[i][1..]])
  {
    assert streams[i] == [streams[i][0]] + streams[i][1..];
    if i > 0 {
      PoolAfterAdvance(streams[1..], i - 1);
      assert streams[i := streams[i][1..]][1..] == streams[1..][i - 1 := streams[i][1..]];
    }
  }

  lemma {:induction false} PoolOfExhausted(streams: seq<seq<Row>>)
    requires forall j :: 0 <= j < |streams| ==> streams[j] == []
    ensures Pool(streams) == multiset{}
  {
    if streams != [] {
      PoolOfExhausted(streams[1..]);
    }
  }

  /** The merged stream is a permutation of all rows. */
  lemma {:induction false} MergePermutes(streams: seq<seq<Row>>)
    ensures multiset(Interleave(streams)) == Pool(streams)
    decreases Remaining(streams)
  {
    var least := LeastHead(streams, |streams|);
    if least.None? {
      PoolOfExhausted(streams);
    } else {
      InterleaveStep(streams, least.value);
      MergePermutes(Advance(streams, least.value));
      PoolAfterAdvance(streams, least.value);
    }
  }

  lemma {:induction false} PoolElements(streams: seq<seq<Row>>, x: Row)
    ensures x in Pool(streams) <==> exists j :: 0 <= j < |streams| && x in streams[j]
  {
    if streams != [] {
      PoolElements(streams[1..], x);
      if x in streams[0] {
        assert x in multiset(streams[0]);
      }
      if j :| 0 <= j < |streams[1..]| && x in streams[1..][j] {
        assert x in streams[j + 1];
      }
      if j :| 0 <= j < |streams| && x in streams[j] {
        assert j == 0 || x in streams[1..][j - 1];
      }
    }
  }

  lemma MergeElements(streams: seq<seq<Row>>, x: Row)
    ensures x in Interleave(streams) <==> exists j :: 0 <= j < |streams| && x in streams[j]
  {
    MergePermutes(streams);
    PoolElements(streams, x);
    assert x in Interleave(streams) <==> x in multiset(Interleave(streams));
  }

  /** In an ascending stream the head is below what follows it. */
  lemma HeadBelowTail(stream: seq<Row>, x: Row)
    requires Ascending(stream) && stream != [] && x in stream[1..]
    ensures RowLess(stream[0], x)
  {
    var k :| 0 <= k < |stream| - 1 && stream[1..][k] == x;
    assert stream[k + 1] == x;
  }

  lemma HeadBelowOthers(stream: seq<Row>, y: Row, x: Row)
    requires Ascending(stream) && x in stream && RowLess(y, stream[0])
    ensures RowLess(y, x)
  {
    var k :| 0 <= k < |stream| && stream[k] == x;
    assert k > 0 ==> RowLess(stream[0], stream[k]);
  }

  /** The least head is below every other row still to come. */
  lemma LeastHeadBelowAll(streams: seq<seq<Row>>, i: nat, x: Row)
    requires Tagged(streams) && LeastHead(streams, |streams|) == Some(i)
    requires forall j :: 0 <= j < |streams| ==> Ascending(streams[j])
    requires x in Interleave(Advance(streams, i))
    ensures RowLess(streams[i][0], x)
  {
    MergeElements(Advance(streams, i), x);
    AdvanceTagged(streams, i);
    var j :| 0 <= j < |streams| && x in Advance(streams, i)[j];
    if j == i {
      HeadBelowTail(streams[i], x);
    } else {
      LeastHeadIsLeast(streams, |streams|);
      HeadBelowOthers(streams[j], streams[i][0], x);
    }
  }

  lemma {:induction false} MergeAscending(streams: seq<seq<Row>>)
    requires Tagged(streams)
    requires forall j :: 0 <= j < |streams| ==> Ascending(streams[j])
    ensures Ascending(Interleave(streams))
    decreases Remaining(streams)
  {
    var least := LeastHead(streams, |streams|);
    if least.Some? {
      var i := least.value;
      InterleaveStep(streams, i);
      AdvanceTagged(streams, i);
      MergeAscending(Advance(streams, i));
      forall x | x in Interleave(Advance(streams, i))
        ensures RowLess(streams[i][0], x)
      {
        LeastHeadBelowAll(streams, i, x);
      }
    }
  }

  /** An ascending sequence is determined by which rows it holds. */
  lemma {:induction false} AscendingUnique(a: seq<Row>, b: seq<Row>)
    requires Ascending(a) && Ascending(b)
    requires forall x :: x in a <==> x in b
    ensures a == b
  {
    assert a != [] ==> a[0] in a;
    assert b != [] ==> b[0] in b;
    if a != [] {
      assert a[0] in b && b[0] in a;
      assert a[0] == b[0];
      forall x
        ensures x in a[1..] <==> x in b[1..]
      {
        assert a == [a[0]] + a[1..] && b == [b[0]] + b[1..];
        assert x in a <==> x == a[0] || x in a[1..];
        assert x in b <==> x == b[0] || x in b[1..];
        assert !RowLess(a[0], a[0]);
      }
      AscendingUnique(a[1..], b[1..]);
    }
  }

  lemma MergedAscending(files: seq<SourceFile>, start: Option<int>)
    requires AllTimeSorted(files)
    ensures Ascending(MergedRows(files, start)) && TimeOrdered(MergedRows(files, start))
  {
    StreamsTagged(files, start);
    forall i | 0 <= i < |files|
      ensures Ascending(Streams(files, start)[i])
    {
      ReadAscending(files[i], i, start);
    }
    MergeAscending(Streams(files, start));
  }

  /** For time-sorted files the merged stream is the one ascending permutation of their rows. */
  lemma MergeIsTheSortedPermutation(files: seq<SourceFile>, start: Option<int>, candidate: seq<Row>)
    requires AllTimeSorted(files)
    ensures candidate == MergedRows(files, start) <==>
            Ascending(candidate) && multiset(candidate) == Pool(Streams(files, start))
  {
    var merged := MergedRows(files, start);
    MergedAscending(files, start);
    MergePermutes(Streams(files, start));
    if Ascending(candidate) && multiset(candidate) == multiset(merged) {
      forall x
        ensures x in candidate <==> x in merged
      {
        assert x in candidate <==> x in multiset(candidate);
        assert x in merged <==> x in multiset(merged);
      }
      AscendingUnique(candidate, merged);
    }
  }

  // ----- Where the start bound is applied ------------------------------------------------

  function FromEach(streams: seq<seq<Row>>, t: int): (later: seq<seq<Row>>)
    ensures |later| == |streams|
    ensures forall i :: 0 <= i < |streams| ==> later[i] == From(streams[i], t)
  {
    seq(|streams|, i requires 0 <= i < |streams| => From(streams[i], t))
  }

  lemma FromHead(rows: seq<Row>, t: int)
    requires rows != [] && t <= rows[0].ts
    ensures From(rows, t) == [rows[0]] + From(rows[1..], t) && From(rows, t)[1..] == From(rows[1..], t)
  {
  }

  /** Streams with the same heads have the same least head. */
  lemma {:induction false} SameHeadsSameLeast(a: seq<seq<Row>>, b: seq<seq<Row>>, n: nat)
    requires |a| == |b| && n <= |a|
    requires forall j :: 0 <= j < n ==>
               (a[j] == [] <==> b[j] == []) && (a[j] != [] && b[j] != [] ==> a[j][0] == b[j][0])
    ensures LeastHead(a, n) == LeastHead(b, n)
  {
    if n > 0 {
      SameHeadsSameLeast(a, b, n - 1);
    }
  }

  /** When no head is older than t, dropping older rows leaves every head in place. */
  lemma LeastHeadOfLater(streams: seq<seq<Row>>, t: int)
    requires forall j :: 0 <= j < |streams| && streams[j] != [] ==> t <= streams[j][0].ts
    ensures LeastHead(FromEach(streams, t), |streams|) == LeastHead(streams, |streams|)
  {
    forall j | 0 <= j < |streams| {
      HeadOfLater(streams, t, j);
    }
    SameHeadsSameLeast(FromEach(streams, t), streams, |streams|);
  }

  lemma HeadOfLater(streams: seq<seq<Row>>, t: int, j: nat)
    requires j < |streams| && (streams[j] != [] ==> t <= streams[j][0].ts)
    ensures FromEach(streams, t)[j] == [] <==> streams[j] == []
    ensures streams[j] != [] ==> FromEach(streams, t)[j][0] == streams[j][0]
  {
    if streams[j] != [] {
      FromHead(streams[j], t);
    }
  }

  /** An older row that leaves the merge was no part of the later rows. */
  lemma OlderRowLeaves(streams: seq<seq<Row>>, t: int, i: nat)
    requires i < |streams| && streams[i] != [] && streams[i][0].ts < t
    ensures FromEach(Advance(streams, i), t) == FromEach(streams, t)
  {
  }

  lemma LaterAdvance(streams: seq<seq<Row>>, t: int, i: nat)
    requires i < |streams| && streams[i] != [] && t <= streams[i][0].ts
    ensures FromEach(streams, t)[i] != [] && FromEach(streams, t)[i][0] == streams[i][0]
    ensures Advance(FromEach(streams, t), i) == FromEach(Advance(streams, i), t)
  {
    FromHead(streams[i], t);
    assert FromEach(streams, t)[i] == From(streams[i], t);
    var one, two := Advance(FromEach(streams, t), i), FromEach(Advance(streams, i), t);
    forall j | 0 <= j < |streams|
      ensures one[j] == two[j]
    {
      assert j != i ==> Advance(streams, i)[j] == streams[j];
    }
  }

  /** Once no head is older than t, both merges yield the same row. */
  lemma NewerRowLeaves(streams: seq<seq<Row>>, t: int, i: nat)
    requires LeastHead(streams, |streams|) == Some(i)
    requires forall j :: 0 <= j < |streams| && streams[j] != [] ==> t <= streams[j][0].ts
    ensures LeastHead(FromEach(streams, t), |streams|) == Some(i)
    ensures FromEach(streams, t)[i][0] == streams[i][0]
    ensures Advance(FromEach(streams, t), i) == FromEach(Advance(streams, i), t)
  {
    LeastHeadOfLater(streams, t);
    LaterAdvance(streams, t, i);
  }

  /** Dropping rows older than t before the merge is dropping them after it. Sortedness is
      not needed: an older row at a head is below every newer head, so it leaves first. */
  lemma {:induction false} LaterMerge(streams: seq<seq<Row>>, t: int)
    requires Tagged(streams)
    ensures Interleave(FromEach(streams, t)) == From(Interleave(streams), t)
    decreases Remaining(streams)
  {
    var least := LeastHead(streams, |streams|);
    if least.None? {
      LeastHeadOfLater(streams, t);
    } else {
      var i := least.value;
      InterleaveStep(streams, i);
      AdvanceTagged(streams, i);
      LaterMerge(Advance(streams, i), t);
      if streams[i][0].ts < t {
        OlderRowLeaves(streams, t, i);
      } else {
        LeastHeadIsLeast(streams, |streams|);
        NewerRowLeaves(streams, t, i);
        InterleaveStep(FromEach(streams, t), i);
      }
    }
  }

  /** Pushing start_ts into the readers equals filtering the merged stream, for any files. */
  lemma StartPushDown(files: seq<SourceFile>, t: int)
    ensures MergedRows(files, Some(t)) == From(MergedRows(files, None), t)
  {
    StreamsTagged(files, None);
    LaterMerge(Streams(files, None), t);
    forall i | 0 <= i < |files|
      ensures Streams(files, Some(t))[i] == FromEach(Streams(files, None), t)[i]
    {
      ReadPushDown(files[i], i, t, 0);
    }
    assert Streams(files, Some(t)) == FromEach(Streams(files, None), t);
  }
}
