/** The two merges of the replay injector: heapq.merge over open readers, and the merge that
    keeps no file open and re-reads a file from the top after each row it yields. */
module Merge {
  import opened Wrappers
  import opened SourceRows

  // ----- What heapq.merge yields ---------------------------------------------------------

  /** Stream i holds rows of file i only, so that no two heads share a key. */
  ghost predicate Tagged(streams: seq<seq<Row>>) {
    forall i, k :: 0 <= i < |streams| && 0 <= k < |streams[i]| ==> streams[i][k].sequence == i
  }

  /** The stream among the first n whose head is least; None when all of them are exhausted. */
  function LeastHead(streams: seq<seq<Row>>, n: nat): (least: Option<nat>)
    requires n <= |streams|
    ensures least.None? <==> forall j :: 0 <= j < n ==> streams[j] == []
    ensures least.Some? ==> least.value < n && streams[least.value] != []
  {
    if n == 0 then None
    else
      var before := LeastHead(streams, n - 1);
      if streams[n - 1] == [] then before
      else if before.None? || RowLess(streams[n - 1][0], streams[before.value][0]) then Some(n - 1)
      else before
  }

  function Remaining(streams: seq<seq<Row>>): nat {
    if streams == [] then 0 else |streams[0]| + Remaining(streams[1..])
  }

  function Advance(streams: seq<seq<Row>>, i: nat): (rest: seq<seq<Row>>)
    requires i < |streams| && streams[i] != []
    ensures Remaining(rest) < Remaining(streams)
  {
    AdvanceShrinks(streams, i);
    streams[i := streams[i][1..]]
  }

  lemma {:induction false} AdvanceShrinks(streams: seq<seq<Row>>, i: nat)
    requires i < |streams| && streams[i] != []
    ensures Remaining(streams[i := streams[i][1..]]) == Remaining(streams) - 1
  {
    if i > 0 {
      AdvanceShrinks(streams[1..], i - 1);
      assert streams[i := streams[i][1..]][1..] == streams[1..][i - 1 := streams[i][1..]];
    }
  }

  /** Repeatedly yield the least head. */
  function Interleave(streams: seq<seq<Row>>): seq<Row>
    decreases Remaining(streams)
  {
    var least := LeastHead(streams, |streams|);
    if least.None? then [] else [streams[least.value][0]] + Interleave(Advance(streams, least.value))
  }

  function MergedRows(files: seq<SourceFile>, start: Option<int>): seq<Row> {
    Interleave(Streams(files, start))
  }

  lemma {:induction false} LeastHeadIsLeast(streams: seq<seq<Row>>, n: nat)
    requires n <= |streams| && Tagged(streams) && LeastHead(streams, n).Some?
    ensures var i := LeastHead(streams, n).value;
            forall j :: 0 <= j < n && j != i && streams[j] != [] ==> RowLess(streams[i][0], streams[j][0])
  {
    if LeastHead(streams, n - 1).Some? {
      LeastHeadIsLeast(streams, n - 1);
    }
  }

  // ----- The re-scanning merge -----------------------------------------------------------

  /** The first of these rows numbered above `after`. */
  function FirstAfter(rows: seq<Row>, after: nat): Option<Row> {
    if rows == [] then None
    else if rows[0].number > after then Some(rows[0])
    else FirstAfter(rows[1..], after)
  }

  method NextSourceRow(f: SourceFile, sequence: nat, after: nat, start: Option<int>) returns (next: Option<Row>)
    ensures next == FirstAfter(ReadRows(f, sequence, start), after)
  {
    var i := 0;
    while i < |f.lines|
      invariant 0 <= i <= |f.lines|
      invariant FirstAfter(ReadRows(f, sequence, start), after) == FirstAfter(ReadFrom(f, sequence, start, i), after)
    {
      if Wanted(f.lines[i], start) && RowAt(f, sequence, i).number > after {
        return Some(RowAt(f, sequence, i));
      }
      i := i + 1;
    }
    next := None;
  }

  /** Re-reading past a row's number lands on its successor; past 0, on the first row. */
  lemma {:induction false} SuccessorFound(rows: seq<Row>, k: nat)
    requires k < |rows| && NumbersIncrease(rows)
    ensures FirstAfter(rows, rows[k].number) == if k + 1 < |rows| then Some(rows[k + 1]) else None
  {
    if k == 0 {
      if |rows| > 1 {
        assert rows[1..][0] == rows[1];
      }
    } else {
      assert rows[0].number < rows[k].number;
      SuccessorFound(rows[1..], k - 1);
    }
  }

  /** Pop the least entry of a heap whose entries carry distinct file sequences. */
  method PopLeast(heap: set<Row>) returns (least: Row, rest: set<Row>)
    requires heap != {}
    requires forall x, y :: x in heap && y in heap && x != y ==> x.sequence != y.sequence
    ensures least in heap && rest == heap - {least}
    ensures forall x :: x in rest ==> RowLess(least, x)
  {
    least :| least in heap;
    var todo := heap - {least};
    while todo != {}
      invariant todo <= heap && least in heap
      invariant forall x :: x in heap && x !in todo && x != least ==> RowLess(least, x)
      decreases todo
    {
      var x :| x in todo;
      if RowLess(x, least) {
        least := x;
      }
      todo := todo - {x};
    }
    rest := heap - {least};
  }

  ghost function Heads(streams: seq<seq<Row>>): set<Row> {
    set i | 0 <= i < |streams| && streams[i] != [] :: streams[i][0]
  }

  /** What is left of the streams part-way through a merge. */
  ghost predicate InProgress(streams: seq<seq<Row>>, rest: seq<seq<Row>>) {
    && |rest| == |streams|
    && Tagged(rest)
    && forall i :: 0 <= i < |rest| ==> |rest[i]| <= |streams[i]| && rest[i] == streams[i][|streams[i]| - |rest[i]|..]
  }

  function Entry(row: Option<Row>): set<Row> {
    if row.Some? then {row.value} else {}
  }

  /** The first wanted row of every file. */
  method FillHeap(files: seq<SourceFile>, start: Option<int>) returns (heap: set<Row>)
    ensures heap == Heads(Streams(files, start))
  {
    heap := {};
    ghost var streams := Streams(files, start);
    for i := 0 to |files|
      invariant heap == Heads(streams[..i])
    {
      var row := NextSourceRow(files[i], i, 0, start);
      HeadsGrow(streams, i);
      heap := heap + Entry(row);
    }
    assert streams[..|files|] == streams;
  }

  /** One turn of the re-scanning merge is one turn of the iterator merge. */
  method PopAndRefill(files: seq<SourceFile>, start: Option<int>, heap: set<Row>, ghost rest: seq<seq<Row>>)
    returns (row: Row, refilled: set<Row>)
    requires InProgress(Streams(files, start), rest) && heap == Heads(rest) && heap != {}
    ensures LeastHead(rest, |rest|) == Some(row.sequence) && row == rest[row.sequence][0]
    ensures InProgress(Streams(files, start), Advance(rest, row.sequence))
    ensures refilled == Heads(Advance(rest, row.sequence))
  {
    DistinctHeads(rest);
    var others;
    row, others := PopLeast(heap);
    PoppedHead(rest, row);
    var next := NextSourceRow(files[row.sequence], row.sequence, row.number, start);
    HeadsAfterAdvance(Streams(files, start), rest, row.sequence);
    refilled := others + Entry(next);
  }

  /** The re-scanning merge yields what heapq.merge yields, whatever order the files are in. */
  method BoundedMerge(files: seq<SourceFile>, start: Option<int>) returns (merged: seq<Row>)
    ensures merged == MergedRows(files, start)
  {
    var heap := FillHeap(files, start);
    merged := [];
    ghost var streams := Streams(files, start);
    ghost var rest := streams;
    StreamsTagged(files, start);
    while heap != {}
      invariant InProgress(streams, rest) && heap == Heads(rest)
      invariant merged + Interleave(rest) == Interleave(streams)
      decreases Remaining(rest)
    {
      var row, refilled := PopAndRefill(files, start, heap, rest);
      AppendAssociative(merged, [row], Interleave(Advance(rest, row.sequence)));
      merged, heap, rest := merged + [row], refilled, Advance(rest, row.sequence);
    }
    NoHeadsLeft(rest);
  }

  lemma AppendAssociative(a: seq<Row>, b: seq<Row>, c: seq<Row>)
    ensures a + b + c == a + (b + c)
  {
  }

  lemma StreamsTagged(files: seq<SourceFile>, start: Option<int>)
    ensures Tagged(Streams(files, start))
    ensures InProgress(Streams(files, start), Streams(files, start))
  {
    var streams: seq<seq<Row>> := Streams(files, start);
    forall i, k | 0 <= i < |streams| && 0 <= k < |streams[i]|
      ensures streams[i][k].sequence == i
    {
      assert IsRowOf(streams[i][k], files[i], i, start);
    }
  }

  lemma DistinctHeads(rest: seq<seq<Row>>)
    requires Tagged(rest)
    ensures forall x, y :: x in Heads(rest) && y in Heads(rest) && x != y ==> x.sequence != y.sequence
  {
  }

  lemma NoHeadsLeft(rest: seq<seq<Row>>)
    ensures Heads(rest) == {} ==> Interleave(rest) == []
  {
    var least := LeastHead(rest, |rest|);
    if least.Some? {
      assert rest[least.value][0] in Heads(rest);
    }
  }

  lemma HeadsGrow(streams: seq<seq<Row>>, i: nat)
    requires i < |streams|
    requires forall k :: 0 <= k < |streams[i]| ==> 0 < streams[i][k].number
    ensures Heads(streams[..i + 1]) == Heads(streams[..i]) + Entry(FirstAfter(streams[i], 0))
  {
    var now, before := streams[..i + 1], streams[..i];
    forall x
      ensures x in Heads(now) <==> x in Heads(before) + Entry(FirstAfter(streams[i], 0))
    {
      if x in Heads(before) {
        var k :| 0 <= k < |before| && before[k] != [] && before[k][0] == x;
        assert now[k] == before[k];
      }
      if x in Heads(now) {
        var k :| 0 <= k < |now| && now[k] != [] && now[k][0] == x;
        assert k < i ==> before[k] == now[k];
      }
      if streams[i] != [] {
        assert now[i][0] in Heads(now);
      }
    }
  }

  /** The least entry of the heap of heads is the head heapq.merge yields next. */
  lemma PoppedHead(rest: seq<seq<Row>>, row: Row)
    requires Tagged(rest) && row in Heads(rest)
    requires forall x :: x in Heads(rest) && x != row ==> RowLess(row, x)
    ensures LeastHead(rest, |rest|) == Some(row.sequence) && row.sequence < |rest|
    ensures rest[row.sequence] != [] && rest[row.sequence][0] == row
  {
    var i := row.sequence;
    assert LeastHead(rest, |rest|).Some?;
    LeastHeadIsLeast(rest, |rest|);
    var least := rest[LeastHead(rest, |rest|).value][0];
    assert least in Heads(rest);
  }

  function FirstOf(rows: seq<Row>): Option<Row> {
    if rows == [] then None else Some(rows[0])
  }

  /** Replacing one stream replaces its head among the heads. */
  lemma HeadsReplaced(rest: seq<seq<Row>>, i: nat, stream: seq<Row>)
    requires Tagged(rest) && i < |rest| && rest[i] != []
    requires stream != [] ==> stream[0].sequence == i && stream[0] != rest[i][0]
    ensures Heads(rest[i := stream]) == Heads(rest) - {rest[i][0]} + Entry(FirstOf(stream))
  {
    var after := rest[i := stream];
    forall x
      ensures x in Heads(after) <==> x in Heads(rest) - {rest[i][0]} + Entry(FirstOf(stream))
    {
      if k :| 0 <= k < |rest| && k != i && rest[k] != [] && rest[k][0] == x {
        assert after[k] == rest[k];
      }
      if k :| 0 <= k < |after| && k != i && after[k] != [] && after[k][0] == x {
        assert rest[k] == after[k] && x.sequence == k;
      }
      assert stream != [] ==> after[i][0] in Heads(after);
    }
  }

  /** Re-reading the file of the popped row supplies exactly the entry that the iterator
      merge would put back. */
  lemma HeadsAfterAdvance(streams: seq<seq<Row>>, rest: seq<seq<Row>>, i: nat)
    requires InProgress(streams, rest) && i < |rest| && rest[i] != [] && NumbersIncrease(streams[i])
    ensures InProgress(streams, Advance(rest, i))
    ensures Heads(Advance(rest, i)) == Heads(rest) - {rest[i][0]} + Entry(FirstAfter(streams[i], rest[i][0].number))
  {
    var done := |streams[i]| - |rest[i]|;
    assert rest[i][0] == streams[i][done];
    SuccessorFound(streams[i], done);
    assert FirstAfter(streams[i], rest[i][0].number) == FirstOf(rest[i][1..]);
    HeadsReplaced(rest, i, rest[i][1..]);
  }
}
