/** The gap loader of anomaly warnings: retried and bisected inserts against a database that may
    refuse a call, or commit it and still report an error. */
module GapLoader {
  import opened Wrappers
  import opened Database

  datatype WarningKey = WarningKey(meter: string, origin: int, step: int)

  datatype Warning = Warning(key: WarningKey, target: int, flagged: bool)

  type Table = map<WarningKey, Warning>

  /** INSERT ... ON CONFLICT DO NOTHING, row by row. */
  function InsertAll(table: Table, rows: seq<Warning>): Table
    decreases |rows|
  {
    if rows == [] then table
    else if rows[0].key in table then InsertAll(table, rows[1..])
    else InsertAll(table[rows[0].key := rows[0]], rows[1..])
  }

  function Keys(rows: seq<Warning>): set<WarningKey> {
    set w | w in rows :: w.key
  }

  lemma KeysSplit(rows: seq<Warning>)
    requires rows != []
    ensures Keys(rows) == {rows[0].key} + Keys(rows[1..])
  {
    assert rows == [rows[0]] + rows[1..];
    assert rows[0] in rows;
    forall w | w in rows[1..]
      ensures w in rows
    {
    }
  }

  /** Inserting adds the keys that were absent and leaves every present key as it was. */
  lemma {:induction false} InsertAllMeaning(table: Table, rows: seq<Warning>)
    ensures InsertAll(table, rows).Keys == table.Keys + Keys(rows)
    ensures forall k :: k in table ==> InsertAll(table, rows)[k] == table[k]
    ensures forall k :: k in InsertAll(table, rows) && k !in table ==>
              InsertAll(table, rows)[k] in rows && InsertAll(table, rows)[k].key == k
    decreases |rows|
  {
    if rows != [] {
      KeysSplit(rows);
      var next := if rows[0].key in table then table else table[rows[0].key := rows[0]];
      InsertAllMeaning(next, rows[1..]);
    }
  }

  lemma {:induction false} InsertAllConcat(table: Table, a: seq<Warning>, b: seq<Warning>)
    ensures InsertAll(table, a + b) == InsertAll(InsertAll(table, a), b)
    decreases |a|
  {
    if a == [] {
      assert a + b == b;
    } else {
      assert (a + b)[1..] == a[1..] + b;
      InsertAllConcat(if a[0].key in table then table else table[a[0].key := a[0]], a[1..], b);
    }
  }

  /** Rows whose keys are all present change nothing. */
  lemma {:induction false} InsertAllPresent(table: Table, rows: seq<Warning>)
    requires Keys(rows) <= table.Keys
    ensures InsertAll(table, rows) == table
    decreases |rows|
  {
    if rows != [] {
      KeysSplit(rows);
      InsertAllPresent(table, rows[1..]);
    }
  }

  /** A batch that is in already absorbs any part of itself. */
  lemma PartAfterWhole(table: Table, rows: seq<Warning>, part: seq<Warning>)
    requires forall w :: w in part ==> w in rows
    ensures InsertAll(InsertAll(table, rows), part) == InsertAll(table, rows)
  {
    InsertAllMeaning(table, rows);
    InsertAllPresent(InsertAll(table, rows), part);
  }

  /** The table after some attempts on a batch: as before, or with the whole batch in. */
  ghost predicate Attempted(before: Table, table: Table, rows: seq<Warning>) {
    table == before || table == InsertAll(before, rows)
  }

  /** Attempts end in the insert of a prefix of the batch. */
  ghost predicate PrefixIn(before: Table, table: Table, rows: seq<Warning>) {
    exists k :: 0 <= k <= |rows| && table == InsertAll(before, rows[..k])
  }

  lemma AttemptedThenInserted(before: Table, table: Table, rows: seq<Warning>)
    requires Attempted(before, table, rows)
    ensures InsertAll(table, rows) == InsertAll(before, rows)
    ensures PrefixIn(before, table, rows)
  {
    PartAfterWhole(before, rows, rows);
    assert rows[..|rows|] == rows && rows[..0] == [];
  }

  /** The halves of a batch, inserted one after the other, make the batch. */
  lemma HalvesMakeWhole(before: Table, table: Table, rows: seq<Warning>, mid: nat)
    requires mid <= |rows| && Attempted(before, table, rows)
    ensures InsertAll(InsertAll(table, rows[..mid]), rows[mid..]) == InsertAll(before, rows)
  {
    InsertAllConcat(table, rows[..mid], rows[mid..]);
    assert rows[..mid] + rows[mid..] == rows;
    AttemptedThenInserted(before, table, rows);
  }

  lemma LeftPrefix(before: Table, table: Table, after: Table, rows: seq<Warning>, mid: nat)
    requires mid <= |rows| && Attempted(before, table, rows) && PrefixIn(table, after, rows[..mid])
    ensures PrefixIn(before, after, rows)
  {
    var k :| 0 <= k <= mid && after == InsertAll(table, rows[..mid][..k]);
    assert rows[..mid][..k] == rows[..k];
    if table != before {
      PartAfterWhole(before, rows, rows[..k]);
      assert rows[..|rows|] == rows;
    }
  }

  lemma RightPrefix(before: Table, table: Table, after: Table, rows: seq<Warning>, mid: nat)
    requires mid <= |rows| && Attempted(before, table, rows)
             && PrefixIn(InsertAll(table, rows[..mid]), after, rows[mid..])
    ensures PrefixIn(before, after, rows)
  {
    var k :| 0 <= k <= |rows| - mid && after == InsertAll(InsertAll(table, rows[..mid]), rows[mid..][..k]);
    assert rows[..mid] + rows[mid..][..k] == rows[..mid + k];
    InsertAllConcat(table, rows[..mid], rows[mid..][..k]);
    if table != before {
      PartAfterWhole(before, rows, rows[..mid + k]);
      assert rows[..|rows|] == rows;
    }
  }

  class WarningDatabase {
    var rows: Table
    /** Insert calls made so far; oracle decides how each of them ends. */
    var calls: nat
    const oracle: nat -> Reply

    constructor (initial: Table, oracle: nat -> Reply)
      ensures rows == initial && calls == 0 && this.oracle == oracle
    {
      rows, calls := initial, 0;
      this.oracle := oracle;
    }

    /** One transaction; an empty payload makes no call. */
    method InsertPayload(payload: seq<Warning>) returns (r: Outcome<nat>)
      modifies this
      ensures payload == [] ==> r == Returned(0) && rows == old(rows) && calls == old(calls)
      ensures payload != [] ==> calls == old(calls) + 1
      ensures payload != [] ==> r == if oracle(old(calls)) == Committed then Returned(|payload|) else Raised
      ensures rows == if payload == [] || oracle(old(calls)) == Refused then old(rows)
                      else InsertAll(old(rows), payload)
    {
      if payload == [] {
        return Returned(0);
      }
      var reply := oracle(calls);
      calls := calls + 1;
      if reply != Refused {
        rows := InsertAll(rows, payload);
      }
      r := if reply == Committed then Returned(|payload|) else Raised;
    }

    /** insert_batch: three attempts, then bisection down to single rows with one last try.
        Whatever calls fail, returning means the whole batch is in and nothing that was in has
        changed; raising leaves a prefix of the batch in and follows four failures in a row. */
    method InsertBatch(batch: seq<Warning>) returns (r: Outcome<nat>)
      modifies this
      ensures r.Returned? ==> r.value == |batch| && rows == InsertAll(old(rows), batch)
      ensures r.Raised? ==> PrefixIn(old(rows), rows, batch)
      ensures r.Raised? ==> old(calls) + 4 <= calls && forall i :: calls - 4 <= i < calls ==> oracle(i) != Committed
      ensures old(calls) <= calls <= old(calls) + if batch == [] then 0 else 7 * |batch| - 3
      decreases |batch|
    {
      ghost var before, first := rows, calls;
      for attempt := 0 to 3
        invariant attempt > 0 ==> batch != []
        invariant calls == first + attempt && Attempted(before, rows, batch)
        invariant forall i :: first <= i < calls ==> oracle(i) != Committed
      {
        AttemptedThenInserted(before, rows, batch);
        r := InsertPayload(batch);
        if r.Returned? {
          return;
        }
      }
      AttemptedThenInserted(before, rows, batch);
      if |batch| == 1 {
        r := InsertPayload(batch);
        AttemptedThenInserted(before, rows, batch);
        return;
      }
      var mid := |batch| / 2;
      ghost var tried := rows;
      HalvesMakeWhole(before, tried, batch, mid);
      var left := InsertBatch(batch[..mid]);
      if left.Raised? {
        LeftPrefix(before, tried, rows, batch, mid);
        return Raised;
      }
      var right := InsertBatch(batch[mid..]);
      if right.Raised? {
        RightPrefix(before, tried, rows, batch, mid);
        return Raised;
      }
      r := Returned(left.value + right.value);
    }
  }
}
