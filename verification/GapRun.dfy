/** A whole run of the gap loader: dedupe against what exists, batch, insert, count and report. */
module GapRun {
  import opened Wrappers
  import opened GapLoader

  /** The preload window on target and origin. */
  datatype Window = Window(start: int, cutoff: int) {
    predicate Holds(w: Warning) {
      start <= w.target < cutoff
    }

    /** What make_rows yields for the window. */
    predicate Generates(w: Warning) {
      w.key.origin < cutoff && Holds(w)
    }
  }

  /** The keys of the table rows whose target lies in the window. */
  function KeysInWindow(table: Table, window: Window): set<WarningKey> {
    set k | k in table && window.Holds(table[k])
  }

  /** What make_rows yields for the window out of these rows. */
  function Generated(rows: seq<Warning>, window: Window): seq<Warning> {
    if rows == [] then []
    else
      var front, w := Generated(rows[..|rows| - 1], window), rows[|rows| - 1];
      if window.Generates(w) then front + [w] else front
  }

  /** The keys seen after these rows: those known, and those generated. */
  function Seen(rows: seq<Warning>, window: Window, known: set<WarningKey>): set<WarningKey> {
    if rows == [] then known
    else
      var front, w := Seen(rows[..|rows| - 1], window, known), rows[|rows| - 1];
      if window.Generates(w) then front + {w.key} else front
  }

  /** The first generated row of each key that is not known yet, in order. */
  function Queued(rows: seq<Warning>, window: Window, known: set<WarningKey>): seq<Warning> {
    if rows == [] then []
    else
      var front, w := Queued(rows[..|rows| - 1], window, known), rows[|rows| - 1];
      if window.Generates(w) && w.key !in Seen(rows[..|rows| - 1], window, known) then front + [w] else front
  }

  function Flatten(files: seq<seq<Warning>>): seq<Warning> {
    if files == [] then [] else Flatten(files[..|files| - 1]) + files[|files| - 1]
  }

  lemma FlattenStep(files: seq<seq<Warning>>, i: nat)
    requires i < |files|
    ensures Flatten(files[..i + 1]) == Flatten(files[..i]) + files[i]
  {
    assert files[..i + 1][..i] == files[..i];
  }

  lemma KeysAppend(rows: seq<Warning>, w: Warning)
    ensures Keys(rows + [w]) == Keys(rows) + {w.key}
  {
  }

  lemma {:induction false} SeenMeaning(rows: seq<Warning>, window: Window, known: set<WarningKey>)
    ensures Seen(rows, window, known) == known + Keys(Generated(rows, window))
  {
    if rows != [] {
      SeenMeaning(rows[..|rows| - 1], window, known);
      KeysAppend(Generated(rows[..|rows| - 1], window), rows[|rows| - 1]);
    }
  }

  /** Each generated key that was not known is queued exactly once. */
  lemma {:induction false} QueuedMeaning(rows: seq<Warning>, window: Window, known: set<WarningKey>)
    ensures Keys(Queued(rows, window, known)) == Keys(Generated(rows, window)) - known
    ensures |Keys(Queued(rows, window, known))| == |Queued(rows, window, known)|
  {
    if rows != [] {
      var front, w := rows[..|rows| - 1], rows[|rows| - 1];
      QueuedMeaning(front, window, known);
      SeenMeaning(front, window, known);
      if window.Generates(w) {
        KeysAppend(Generated(front, window), w);
        KeysAppend(Queued(front, window, known), w);
      }
    }
  }

  lemma {:induction false} QueuedRows(rows: seq<Warning>, window: Window, known: set<WarningKey>)
    ensures forall w :: w in Queued(rows, window, known) ==> w in rows && window.Generates(w)
  {
    if rows != [] {
      QueuedRows(rows[..|rows| - 1], window, known);
      assert rows == rows[..|rows| - 1] + [rows[|rows| - 1]];
    }
  }

  lemma {:induction false} GeneratedInWindow(rows: seq<Warning>, window: Window)
    ensures forall w :: w in Generated(rows, window) ==> window.Generates(w)
  {
    if rows != [] {
      GeneratedInWindow(rows[..|rows| - 1], window);
    }
  }

  /** What the run log row says. */
  datatype Report = Report(expected: nat, queued: nat, attempted: nat, warnings: nat, finalCount: nat, meters: nat) {
    /** The logged status is "success" and not "degraded". */
    predicate Success() {
      finalCount == expected
    }
  }

  function Flagged(rows: seq<Warning>): nat {
    if rows == [] then 0
    else Flagged(rows[..|rows| - 1]) + if rows[|rows| - 1].flagged then 1 else 0
  }

  function MetersOf(keys: set<WarningKey>): set<string> {
    set k | k in keys :: k.meter
  }

  /** A generated key was already stored under a target outside the window. */
  ghost predicate StoredOutside(initial: Table, rows: seq<Warning>, window: Window) {
    exists k :: k in Keys(Generated(rows, window)) && k in initial && !window.Holds(initial[k])
  }

  /** A prefix of the pending rows on top of what was sent is a prefix of the queue. */
  lemma PrefixSent(initial: Table, sent: seq<Warning>, batch: seq<Warning>, rows: Table)
    requires PrefixIn(InsertAll(initial, sent), rows, batch)
    ensures PrefixIn(initial, rows, sent + batch)
  {
    var k :| 0 <= k <= |batch| && rows == InsertAll(InsertAll(initial, sent), batch[..k]);
    InsertAllConcat(initial, sent, batch[..k]);
    assert (sent + batch)[..|sent| + k] == sent + batch[..k];
  }

  class GapLoaderRun {
    const db: WarningDatabase
    const window: Window
    var seen: set<WarningKey>
    var batch: seq<Warning>
    var queued: nat
    var attempted: nat
    var warnings: nat
    ghost const initial: Table
    /** The rows read so far, and the rows sent. */
    ghost var done: seq<Warning>
    ghost var sent: seq<Warning>

    constructor (db: WarningDatabase, window: Window)
      ensures this.db == db && this.window == window && initial == db.rows && done == []
      ensures InStep() && batch == [] && queued == 0
    {
      this.db, this.window := db, window;
      seen := KeysInWindow(db.rows, window);
      batch, queued, attempted, warnings := [], 0, 0, 0;
      initial, done, sent := db.rows, [], [];
    }

    /** The rows queued so far. */
    ghost function Queue(): seq<Warning>
      reads this
    {
      Queued(done, window, KeysInWindow(initial, window))
    }

    /** What was sent is in, what is pending follows it in the queue, and the counters and seen
        keys agree with the queue. */
    ghost predicate InStep()
      reads this, db
    {
      && Queue() == sent + batch && db.rows == InsertAll(initial, sent)
      && queued == |sent| + |batch| && attempted == |sent|
      && warnings == Flagged(sent + batch)
      && seen == Seen(done, window, KeysInWindow(initial, window))
    }

    method Flush() returns (ok: bool)
      requires InStep()
      modifies this`batch, this`attempted, this`sent, db
      ensures ok ==> InStep() && batch == []
      ensures !ok ==> PrefixIn(initial, db.rows, Queue())
    {
      var r := db.InsertBatch(batch);
      if r.Raised? {
        PrefixSent(initial, sent, batch, db.rows);
        return false;
      }
      InsertAllConcat(initial, sent, batch);
      assert sent + batch + [] == sent + batch;
      attempted := attempted + r.value;
      sent := sent + batch;
      batch := [];
      ok := true;
    }

    /** One row of a prediction file. */
    method ProcessRow(w: Warning, batchSize: nat) returns (ok: bool)
      requires InStep() && |batch| < batchSize
      modifies this, db
      ensures done == old(done) + [w]
      ensures ok ==> InStep() && |batch| < batchSize
      ensures !ok ==> PrefixIn(initial, db.rows, Queue())
    {
      ok := true;
      ReadRow(w);
      if |batch| >= batchSize {
        ok := Flush();
      }
    }

    /** Queue a generated row whose key has not been seen. */
    method ReadRow(w: Warning)
      requires InStep()
      modifies this`done, this`seen, this`warnings, this`batch, this`queued
      ensures done == old(done) + [w] && |batch| <= |old(batch)| + 1
      ensures InStep()
    {
      done := done + [w];
      if !window.Generates(w) || w.key in seen {
        return;
      }
      seen := seen + {w.key};
      warnings := if w.flagged then warnings + 1 else warnings;
      batch := batch + [w];
      queued := queued + 1;
    }

    method ProcessFile(file: seq<Warning>, batchSize: nat) returns (ok: bool)
      requires InStep() && |batch| < batchSize
      modifies this, db
      ensures ok ==> InStep() && |batch| < batchSize && done == old(done) + file
      ensures !ok ==> PrefixIn(initial, db.rows, Queue())
    {
      var j := 0;
      assert file[..0] == [];
      while j < |file|
        invariant 0 <= j <= |file|
        invariant done == old(done) + file[..j] && InStep() && |batch| < batchSize
      {
        ok := ProcessRow(file[j], batchSize);
        if !ok {
          return;
        }
        assert file[..j + 1] == file[..j] + [file[j]];
        j := j + 1;
      }
      assert file[..|file|] == file;
      ok := true;
    }

    /** The file loop. */
    method ProcessFiles(files: seq<seq<Warning>>, batchSize: nat) returns (ok: bool)
      requires InStep() && |batch| < batchSize && done == []
      modifies this, db
      ensures ok ==> InStep() && done == Flatten(files)
      ensures !ok ==> PrefixIn(initial, db.rows, Queue())
    {
      var i := 0;
      while i < |files|
        invariant 0 <= i <= |files|
        invariant done == Flatten(files[..i]) && InStep() && |batch| < batchSize
      {
        FlattenStep(files, i);
        ok := ProcessFile(files[i], batchSize);
        if !ok {
          return;
        }
        i := i + 1;
      }
      assert files[..|files|] == files;
      ok := true;
    }

    /** main: a run either raises with a prefix of the queue inserted, or ends with every
        missing key in, queued exactly once, and reports what it expected and what it found. */
    method LoadGaps(files: seq<seq<Warning>>, batchSize: nat) returns (r: Outcome<Report>)
      requires InStep() && batch == [] && queued == 0 && done == [] && batchSize > 0
      modifies this, db
      ensures r.Raised? ==> PrefixIn(initial, db.rows, Queue())
      ensures r.Returned? ==> done == Flatten(files) && db.rows == InsertAll(initial, Queue())
      ensures r.Returned? ==> r.value == ReportOf(|KeysInWindow(initial, window)|)
      ensures r.Returned? ==>
                && r.value.queued == r.value.attempted == |Queue()|
                && r.value.expected == |Before()| + |Queue()|
                && r.value.warnings == |set i | 0 <= i < |Queue()| && Queue()[i].flagged|
                && r.value.finalCount == |Found()| && r.value.meters == |set k | k in Found() :: k.meter|
      ensures r.Returned? ==> (r.value.Success() <==> !StoredOutside(initial, Flatten(files), window))
    {
      var existing := |seen|;
      NothingQueued();
      var ok := ProcessFiles(files, batchSize);
      if !ok {
        return Raised;
      }
      r := Finish(existing);
      SuccessIff(initial, done, window);
      FlaggedCount(Queue());
      assert Before() == KeysInWindow(initial, window) && Found() == KeysInWindow(db.rows, window);
    }

    /** The keys that the table had in the window before the run, and those it has now. */
    ghost function Before(): set<WarningKey>
      reads this
    {
      set k | k in initial && window.start <= initial[k].target < window.cutoff
    }

    ghost function Found(): set<WarningKey>
      reads this, db
    {
      set k | k in db.rows && window.start <= db.rows[k].target < window.cutoff
    }

    /** The counts that a finished run reports. */
    ghost function ReportOf(existing: nat): Report
      reads this, db
    {
      var n, present := |Queue()|, KeysInWindow(db.rows, window);
      Report(existing + n, n, n, Flagged(Queue()), |present|, |MetersOf(present)|)
    }

    /** The last flush, the count and the report. */
    method Finish(existing: nat) returns (r: Outcome<Report>)
      requires InStep()
      modifies this`batch, this`attempted, this`sent, db
      ensures r.Raised? ==> PrefixIn(initial, db.rows, Queue())
      ensures r.Returned? ==> db.rows == InsertAll(initial, Queue())
      ensures r.Returned? ==> r.value == ReportOf(existing)
    {
      if batch != [] {
        var ok := Flush();
        if !ok {
          return Raised;
        }
      }
      FullyFlushed();
      var present := KeysInWindow(db.rows, window);
      r := Returned(Report(existing + queued, queued, attempted, warnings, |present|, |MetersOf(present)|));
    }

    lemma NothingQueued()
      requires InStep() && done == []
      ensures seen == KeysInWindow(initial, window)
    {
    }

    lemma FullyFlushed()
      requires InStep() && batch == []
      ensures db.rows == InsertAll(initial, Queue()) && attempted == |Queue()|
    {
      assert sent + [] == sent;
    }
  }

  /** A finished run leaves the existing keys and the generated ones. */
  lemma FinishedKeys(initial: Table, rows: seq<Warning>, window: Window)
    ensures var queue := Queued(rows, window, KeysInWindow(initial, window));
            InsertAll(initial, queue).Keys == initial.Keys + Keys(Generated(rows, window))
  {
    var generated, known := Generated(rows, window), KeysInWindow(initial, window);
    QueuedMeaning(rows, window, known);
    InsertAllMeaning(initial, Queued(rows, window, known));
  }

  /** The window's keys after the insert: those before, and the queued keys that the table did
      not hold at all. */
  lemma WindowKeysAfter(initial: Table, queue: seq<Warning>, window: Window)
    requires forall w :: w in queue ==> window.Holds(w)
    ensures KeysInWindow(InsertAll(initial, queue), window)
              == KeysInWindow(initial, window) + (Keys(queue) - initial.Keys)
  {
    InsertAllMeaning(initial, queue);
  }

  lemma SizeOfNew(known: set<WarningKey>, queued: set<WarningKey>, present: set<WarningKey>)
    requires known !! queued && known <= present
    ensures |known + (queued - present)| == |known| + |queued| <==> queued !! present
  {
    var clashing := queued * present;
    assert queued == (queued - present) + clashing;
    assert |queued| == |queued - present| + |clashing|;
    assert clashing == {} <==> |clashing| == 0;
  }

  /** The final count equals the expected count, so that the log says success, if and only if
      no generated key was already in the table under a target outside the window. */
  lemma SuccessIff(initial: Table, rows: seq<Warning>, window: Window)
    ensures var known := KeysInWindow(initial, window);
            var queue := Queued(rows, window, known);
            |KeysInWindow(InsertAll(initial, queue), window)| == |known| + |queue|
            <==> !StoredOutside(initial, rows, window)
  {
    var known, generated := KeysInWindow(initial, window), Generated(rows, window);
    var queue := Queued(rows, window, known);
    QueuedMeaning(rows, window, known);
    QueuedRows(rows, window, known);
    GeneratedInWindow(rows, window);
    WindowKeysAfter(initial, queue, window);
    SizeOfNew(known, Keys(queue), initial.Keys);
    forall k
      ensures k in Keys(queue) && k in initial <==> k in Keys(generated) && k in initial && !window.Holds(initial[k])
    {
    }
  }

  /** A run over one row whose key is stored under a target past the window ends degraded,
      although nothing failed and the key is in. */
  lemma StoredOutsideIsDegraded(window: Window, w: Warning, elsewhere: int)
    requires window.Generates(w) && window.cutoff <= elsewhere
    ensures var initial := map[w.key := w.(target := elsewhere)];
            var queue := Queued([w], window, KeysInWindow(initial, window));
            && InsertAll(initial, queue) == initial
            && |KeysInWindow(InsertAll(initial, queue), window)| != |KeysInWindow(initial, window)| + |queue|
  {
    var initial := map[w.key := w.(target := elsewhere)];
    assert [w][..0] == [] && Generated([w], window) == [w];
    assert Keys([w]) == {w.key} by {
      KeysAppend([], w);
      assert [] + [w] == [w];
    }
    var known := KeysInWindow(initial, window);
    assert w.key !in known && Seen([w][..0], window, known) == known;
    assert Queued([w], window, known) == [w];
    assert [w][1..] == [];
    assert StoredOutside(initial, [w], window);
    SuccessIff(initial, [w], window);
  }

  // ----- The queue and the report in plain terms -----------------------------------------

  /** Row i is the first of its key that the window generates, and the key is not known. */
  ghost predicate FirstGenerated(rows: seq<Warning>, window: Window, known: set<WarningKey>, i: nat) {
    && i < |rows| && rows[i].key !in known
    && rows[i].key.origin < window.cutoff && window.start <= rows[i].target < window.cutoff
    && !GeneratedBefore(rows, window, rows[i].key, i)
  }

  /** A row before i carries the key, and the window generates it. */
  ghost predicate GeneratedBefore(rows: seq<Warning>, window: Window, key: WarningKey, i: int) {
    exists n :: 0 <= n < i && n < |rows| && rows[n].key == key
                && rows[n].key.origin < window.cutoff && window.start <= rows[n].target < window.cutoff
  }

  lemma {:induction false} SeenIff(rows: seq<Warning>, window: Window, known: set<WarningKey>, key: WarningKey)
    ensures key in Seen(rows, window, known) <==> key in known || GeneratedBefore(rows, window, key, |rows|)
  {
    if rows != [] {
      var last := |rows| - 1;
      SeenIff(rows[..last], window, known, key);
      if GeneratedBefore(rows[..last], window, key, last) {
        var n :| 0 <= n < last && rows[..last][n].key == key && rows[..last][n].key.origin < window.cutoff
                 && window.start <= rows[..last][n].target < window.cutoff;
        assert rows[..last][n] == rows[n];
      }
    }
  }

  /** The queue: in reading order, the first generated row of each key that is not known. */
  lemma {:induction false} QueueByPosition(rows: seq<Warning>, window: Window, known: set<WarningKey>)
    returns (positions: seq<nat>)
    ensures |Queued(rows, window, known)| == |positions|
    ensures forall k :: 0 <= k < |positions| ==>
              positions[k] < |rows| && Queued(rows, window, known)[k] == rows[positions[k]]
    ensures forall j, k :: 0 <= j < k < |positions| ==> positions[j] < positions[k]
    ensures forall i: nat :: i in positions <==> FirstGenerated(rows, window, known, i)
  {
    positions := [];
    if rows != [] {
      var last := |rows| - 1;
      positions := QueueByPosition(rows[..last], window, known);
      SeenIff(rows[..last], window, known, rows[last].key);
      forall i: nat
        ensures i < last ==>
                  (FirstGenerated(rows[..last], window, known, i) <==> FirstGenerated(rows, window, known, i))
      {
      }
      if window.Generates(rows[last]) && rows[last].key !in Seen(rows[..last], window, known) {
        positions := positions + [last];
      }
    }
  }

  /** The files are read one after the other. */
  lemma {:induction false} FlattenInOrder(first: seq<Warning>, rest: seq<seq<Warning>>)
    ensures Flatten([]) == [] && Flatten([first] + rest) == first + Flatten(rest)
  {
    var files := [first] + rest;
    if rest == [] {
      assert files[..0] == [];
    } else {
      var front, last := rest[..|rest| - 1], rest[|rest| - 1];
      FlattenInOrder(first, front);
      assert files[..|files| - 1] == [first] + front;
      assert first + Flatten(front) + last == first + (Flatten(front) + last);
    }
  }

  /** The warnings reported are the flagged rows of the queue. */
  lemma {:induction false} FlaggedCount(rows: seq<Warning>)
    ensures Flagged(rows) == |set i | 0 <= i < |rows| && rows[i].flagged|
  {
    var all := set i | 0 <= i < |rows| && rows[i].flagged;
    if rows != [] {
      var last := |rows| - 1;
      FlaggedCount(rows[..last]);
      var front := set i | 0 <= i < last && rows[..last][i].flagged;
      assert front == set i | 0 <= i < last && rows[i].flagged;
      assert all == front + if rows[last].flagged then {last} else {};
    }
  }
}
