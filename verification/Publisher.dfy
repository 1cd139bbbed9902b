/** The backfill publisher: the merged archive window through an asynchronous producer whose
    queue fills up, whose deliveries fail and whose callbacks run during polls. */
module Publisher {
  import opened Wrappers
  import opened SourceRows
  import opened Merge
  import opened MergeMeaning
  import opened Injector

  /** The rows ahead of the first one at or past the end. */
  function BeforeEnd(rows: seq<Row>, end: int): seq<Row> {
    if rows == [] || end <= rows[0].ts then [] else [rows[0]] + BeforeEnd(rows[1..], end)
  }

  function ValidRows(rows: seq<Row>, valid: Row -> bool): (kept: seq<Row>)
    ensures |kept| <= |rows|
    ensures |kept| == |rows| ==> kept == rows && forall x :: x in rows ==> valid(x)
  {
    if rows == [] then []
    else if valid(rows[0]) then [rows[0]] + ValidRows(rows[1..], valid)
    else ValidRows(rows[1..], valid)
  }

  class PublishRun {
    /** Valid rows handed to the producer, in order. */
    var emitted: seq<Row>
    var invalidCount: nat
    /** Messages the producer holds without an answer from the broker. */
    var inFlight: seq<Row>
    var acknowledged: seq<Row>
    var deliveryErrors: seq<Row>

    /** Every emitted row is acknowledged, failed, in flight or waiting for a place in the
        producer's queue, and only one of these. */
    ghost predicate Conserved(waiting: multiset<Row>)
      reads this
    {
      multiset(emitted) == multiset(acknowledged) + multiset(deliveryErrors) + multiset(inFlight) + waiting
    }

    constructor ()
      ensures emitted == inFlight == acknowledged == deliveryErrors == [] && invalidCount == 0
    {
      emitted, inFlight, acknowledged, deliveryErrors, invalidCount := [], [], [], [], 0;
    }

    /** The callback on_delivery: the broker answers the message at place i of those in flight,
        with an error or without one. */
    method OnDelivery(i: nat, delivered: bool)
      requires i < |inFlight|
      modifies this`inFlight, this`acknowledged, this`deliveryErrors
      ensures inFlight == old(inFlight)[..i] + old(inFlight)[i + 1..]
      ensures acknowledged == old(acknowledged) + if delivered then [old(inFlight)[i]] else []
      ensures deliveryErrors == old(deliveryErrors) + if delivered then [] else [old(inFlight)[i]]
      ensures forall waiting :: old(Conserved(waiting)) ==> Conserved(waiting)
    {
      var message := inFlight[i];
      assert inFlight == inFlight[..i] + [message] + inFlight[i + 1..];
      inFlight := inFlight[..i] + inFlight[i + 1..];
      if delivered {
        acknowledged := acknowledged + [message];
      } else {
        deliveryErrors := deliveryErrors + [message];
      }
    }

    /** The callbacks that happen to run during one poll: the broker answers some of the messages in
        flight, in any order and either way. */
    method Poll(ghost waiting: multiset<Row>)
      requires Conserved(waiting)
      modifies this`inFlight, this`acknowledged, this`deliveryErrors
      ensures Conserved(waiting)
      ensures |acknowledged| + |deliveryErrors| + |inFlight|
           == old(|acknowledged| + |deliveryErrors| + |inFlight|)
      ensures old(acknowledged) <= acknowledged && old(deliveryErrors) <= deliveryErrors
    {
      var answers :| 0 <= answers <= |inFlight|;
      while answers > 0
        invariant 0 <= answers <= |inFlight| && Conserved(waiting)
        invariant |acknowledged| + |deliveryErrors| + |inFlight|
               == old(|acknowledged| + |deliveryErrors| + |inFlight|)
        invariant old(acknowledged) <= acknowledged && old(deliveryErrors) <= deliveryErrors
      {
        var i: nat :| i < |inFlight|;
        var delivered: bool := *;
        OnDelivery(i, delivered);
        answers := answers - 1;
      }
    }

    /** Hand a row that was just counted as emitted to the producer; its queue is full
        `stalls` times before it takes the message. */
    method Produce(row: Row, stalls: nat)
      requires Conserved(multiset{row})
      modifies this`inFlight, this`acknowledged, this`deliveryErrors
      ensures Conserved(multiset{})
    {
      for attempt := 0 to stalls
        invariant Conserved(multiset{row})
      {
        Poll(multiset{row});
      }
      inFlight := inFlight + [row];
      Poll(multiset{});
    }

    ghost predicate Settled(runtime: bool)
      reads this
    {
      if runtime then Conserved(multiset{}) else inFlight == deliveryErrors == []
    }

    /** One row of the loop: counted as invalid, or emitted and at runtime produced. */
    method PublishRow(row: Row, valid: Row -> bool, runtime: bool, progressEvery: nat, stalls: nat -> nat)
      requires progressEvery > 0 && Settled(runtime)
      modifies this
      ensures Settled(runtime)
      ensures emitted == old(emitted) + if valid(row) then [row] else []
      ensures invalidCount == old(invalidCount) + if valid(row) then 0 else 1
    {
      if !valid(row) {
        invalidCount := invalidCount + 1;
        return;
      }
      emitted := emitted + [row];
      if runtime {
        Produce(row, stalls(|emitted| - 1));
        if |emitted| % progressEvery == 0 {
          Poll(multiset{});
        }
      }
    }

    /** The publishing loop. `stalls` says how often the queue is full for each emitted row. */
    method PublishRows(rows: seq<Row>, end: int, maxEvents: nat, valid: Row -> bool, runtime: bool,
                       progressEvery: nat, stalls: nat -> nat)
      requires progressEvery > 0
      requires emitted == inFlight == acknowledged == deliveryErrors == [] && invalidCount == 0
      modifies this
      ensures Settled(runtime) && emitted == Take(ValidRows(BeforeEnd(rows, end), valid), maxEvents)
      ensures invalidCount == 0 ==>
                emitted == Take(BeforeEnd(rows, end), maxEvents) && forall x :: x in emitted ==> valid(x)
    {
      var i := 0;
      while i < |rows| && rows[i].ts < end && |emitted| < maxEvents
        invariant 0 <= i <= |rows| && |emitted| <= maxEvents && Settled(runtime)
        invariant BeforeEnd(rows, end) == rows[..i] + BeforeEnd(rows[i..], end)
        invariant emitted == ValidRows(rows[..i], valid) && |emitted| + invalidCount == i
      {
        BeforeEndStep(rows, end, i);
        ValidRowsAppend(rows, i, valid);
        PublishRow(rows[i], valid, runtime, progressEvery, stalls);
        i := i + 1;
      }
      StoppedThere(rows, end, i, valid, maxEvents);
    }

    /** The loop, the flush and the exit code of main. */
    method Publish(rows: seq<Row>, end: int, maxEvents: nat, valid: Row -> bool, runtime: bool, progressEvery: nat,
                   stalls: nat -> nat)
      returns (exitCode: int)
      requires progressEvery > 0
      requires emitted == inFlight == acknowledged == deliveryErrors == [] && invalidCount == 0
      modifies this
      ensures emitted == Take(ValidRows(BeforeEnd(rows, end), valid), maxEvents)
      ensures Settled(runtime)
      ensures exitCode == 0 <==> invalidCount == 0 && deliveryErrors == [] && inFlight == []
      ensures exitCode == 0 ==>
                emitted == Take(BeforeEnd(rows, end), maxEvents) && forall x :: x in emitted ==> valid(x)
      ensures runtime && exitCode == 0 ==> multiset(acknowledged) == multiset(emitted)
    {
      PublishRows(rows, end, maxEvents, valid, runtime, progressEvery, stalls);
      if runtime {
        Poll(multiset{});
      }
      var remaining := |inFlight|;
      exitCode := if invalidCount > 0 || deliveryErrors != [] || remaining > 0 then 1 else 0;
    }

    /** A run over time-sorted files that exits with 0 had every row of the window, up to the
        event cap, valid and acknowledged exactly once. */
    method PublishArchive(files: seq<SourceFile>, start: int, end: int, maxEvents: nat, valid: Row -> bool,
                          runtime: bool, progressEvery: nat, stalls: nat -> nat) returns (exitCode: int)
      requires AllTimeSorted(files) && start < end && progressEvery > 0
      requires emitted == inFlight == acknowledged == deliveryErrors == [] && invalidCount == 0
      modifies this
      ensures exitCode == 0 ==>
                && emitted == Take(InWindow(MergedRows(files, None), start, end), maxEvents)
                && (forall x :: x in emitted ==> valid(x))
                && (runtime ==> multiset(acknowledged) == multiset(emitted))
    {
      var merged := BoundedMerge(files, Some(start));
      exitCode := Publish(merged, end, maxEvents, valid, runtime, progressEvery, stalls);
      WindowBeforeEnd(files, start, end);
    }
  }

  lemma BeforeEndStep(rows: seq<Row>, end: int, i: nat)
    requires i < |rows| && rows[i].ts < end
    requires BeforeEnd(rows, end) == rows[..i] + BeforeEnd(rows[i..], end)
    ensures BeforeEnd(rows, end) == rows[..i + 1] + BeforeEnd(rows[i + 1..], end)
  {
    assert rows[i..][0] == rows[i] && rows[i..][1..] == rows[i + 1..];
    AppendAssociative(rows[..i], [rows[i]], BeforeEnd(rows[i + 1..], end));
    assert rows[..i + 1] == rows[..i] + [rows[i]];
  }

  lemma {:induction false} ValidRowsConcat(a: seq<Row>, b: seq<Row>, valid: Row -> bool)
    ensures ValidRows(a + b, valid) == ValidRows(a, valid) + ValidRows(b, valid)
  {
    if a == [] {
      assert a + b == b;
    } else {
      ValidRowsConcat(a[1..], b, valid);
      assert (a + b)[1..] == a[1..] + b && (a + b)[0] == a[0];
      if valid(a[0]) {
        AppendAssociative([a[0]], ValidRows(a[1..], valid), ValidRows(b, valid));
      }
    }
  }

  lemma ValidRowsAppend(rows: seq<Row>, i: nat, valid: Row -> bool)
    requires i < |rows|
    ensures ValidRows(rows[..i + 1], valid) == ValidRows(rows[..i], valid) + if valid(rows[i]) then [rows[i]] else []
  {
    ValidRowsConcat(rows[..i], [rows[i]], valid);
    assert rows[..i + 1] == rows[..i] + [rows[i]];
  }

  /** Where the loop stops, what it emitted is all there is to emit. */
  lemma StoppedThere(rows: seq<Row>, end: int, i: nat, valid: Row -> bool, maxEvents: nat)
    requires i <= |rows| && BeforeEnd(rows, end) == rows[..i] + BeforeEnd(rows[i..], end)
    requires |ValidRows(rows[..i], valid)| <= maxEvents
    requires i == |rows| || end <= rows[i].ts || |ValidRows(rows[..i], valid)| == maxEvents
    ensures ValidRows(rows[..i], valid) == Take(ValidRows(BeforeEnd(rows, end), valid), maxEvents)
    ensures |ValidRows(rows[..i], valid)| == i ==>
              && ValidRows(rows[..i], valid) == Take(BeforeEnd(rows, end), maxEvents)
              && forall x :: x in ValidRows(rows[..i], valid) ==> valid(x)
  {
    ValidRowsConcat(rows[..i], BeforeEnd(rows[i..], end), valid);
    if i < |rows| {
      assert rows[i..][0] == rows[i];
    }
  }

  /** Over readers cut at start, the rows ahead of the end are the window. */
  lemma WindowBeforeEnd(files: seq<SourceFile>, start: int, end: int)
    requires AllTimeSorted(files)
    ensures BeforeEnd(MergedRows(files, Some(start)), end) == InWindow(MergedRows(files, None), start, end)
  {
    StartPushDown(files, start);
    MergedAscending(files, None);
    CutWindow(MergedRows(files, None), start, end);
  }

  lemma {:induction false} CutWindow(rows: seq<Row>, start: int, end: int)
    requires TimeOrdered(rows)
    ensures BeforeEnd(From(rows, start), end) == InWindow(rows, start, end)
  {
    if rows != [] {
      CutWindow(rows[1..], start, end);
      if start <= rows[0].ts {
        FromHead(rows, start);
        if end <= rows[0].ts {
          EmptyPastEnd(rows, start, end);
        }
      }
    }
  }
}
