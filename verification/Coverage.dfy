/** The coverage worker: what the source files hold against what the live tables hold, minute by
    minute and at three rollup grains. */
module Coverage {
  import opened Arithmetic
  import opened Timeline

  // ----- Time buckets --------------------------------------------------------------------

  datatype Resolution = OneMinute | QuarterHour | OneHour

  function Width(r: Resolution): int {
    match r
    case OneMinute => MINUTE
    case QuarterHour => 15 * MINUTE
    case OneHour => HOUR
  }

  function FloorTime(t: int, r: Resolution): int {
    match r
    case OneMinute => t - t % MINUTE
    case QuarterHour =>
      var minute := t % HOUR / MINUTE;
      t - t % HOUR + minute / 15 * 15 * MINUTE
    case OneHour => t - t % HOUR
  }

  /** Which bucket, counted from the epoch, a time falls in. */
  function BucketIndex(t: int, r: Resolution): int {
    match r
    case OneMinute => t / MINUTE
    case QuarterHour => t / HOUR * 4 + t % HOUR / MINUTE / 15
    case OneHour => t / HOUR
  }

  lemma FloorByIndex(t: int, r: Resolution)
    ensures FloorTime(t, r) == BucketIndex(t, r) * Width(r)
    ensures FloorTime(t, r) <= t < FloorTime(t, r) + Width(r)
  {
    match r
    case OneMinute => assert t == t / MINUTE * MINUTE + t % MINUTE;
    case OneHour => assert t == t / HOUR * HOUR + t % HOUR;
    case QuarterHour =>
      var rest := t % HOUR;
      assert t == t / HOUR * HOUR + rest;
      assert rest == rest / MINUTE * MINUTE + rest % MINUTE;
      assert rest / MINUTE == rest / MINUTE / 15 * 15 + rest / MINUTE % 15;
  }

  /** Flooring gives the last bucket boundary at or before t. */
  lemma FloorIsLastBoundary(t: int, r: Resolution)
    ensures FloorTime(t, r) % Width(r) == 0 && FloorTime(t, r) <= t < FloorTime(t, r) + Width(r)
  {
    FloorByIndex(t, r);
    DivUnique(FloorTime(t, r), Width(r), BucketIndex(t, r), 0);
  }

  /** No boundary lies strictly between a time and its floor. */
  lemma FloorNotBelowBoundary(t: int, r: Resolution, boundary: int)
    requires boundary % Width(r) == 0 && boundary <= t
    ensures boundary <= FloorTime(t, r)
  {
    FloorIsLastBoundary(t, r);
    MultiplesStepByWidth(boundary, FloorTime(t, r), Width(r));
  }

  // ----- The source side -----------------------------------------------------------------

  datatype Key = Key(ts: int, meter: string, measurement: string)

  /** A parsed source line: blank, with a timestamp that does not parse, or stamped. */
  datatype Stamp = Blank | Garbled | At(ts: int)

  datatype CoverageFile = BadHeader | CoverageFile(meter: string, measurement: string, stamps: seq<Stamp>)

  function Bucket(k: Key, r: Resolution): Key {
    k.(ts := FloorTime(k.ts, r))
  }

  function Buckets(keys: set<Key>, r: Resolution): set<Key> {
    set k | k in keys :: Bucket(k, r)
  }

  /** A garbled stamp abandons the file; what was read of it before stays. */
  predicate Reached(stamps: seq<Stamp>, i: nat) {
    i < |stamps| && forall k :: 0 <= k <= i ==> !stamps[k].Garbled?
  }

  ghost function FileKeys(f: CoverageFile, start: int, end: int): set<Key> {
    if f.BadHeader? then {}
    else set i | 0 <= i < |f.stamps| && Reached(f.stamps, i) && f.stamps[i].At? && start <= f.stamps[i].ts < end
           :: Key(f.stamps[i].ts, f.meter, f.measurement)
  }

  ghost function SourceKeys(files: seq<CoverageFile>, start: int, end: int): set<Key> {
    if files == [] then {}
    else SourceKeys(files[..|files| - 1], start, end) + FileKeys(files[|files| - 1], start, end)
  }

  predicate IsBad(f: CoverageFile) {
    f.BadHeader? || Garbled in f.stamps
  }

  class SourceCoverage {
    var filesRead: nat
    var badFiles: nat
    var exact: set<Key>
    var minutes: set<Key>
    var quarters: set<Key>
    var hours: set<Key>

    ghost predicate Consistent()
      reads this
    {
      minutes == Buckets(exact, OneMinute) && quarters == Buckets(exact, QuarterHour)
      && hours == Buckets(exact, OneHour)
    }

    constructor ()
      ensures exact == {} && filesRead == badFiles == 0 && Consistent()
    {
      filesRead, badFiles := 0, 0;
      exact, minutes, quarters, hours := {}, {}, {}, {};
    }

    method Add(key: Key)
      requires Consistent()
      modifies this
      ensures Consistent() && exact == old(exact) + {key}
      ensures filesRead == old(filesRead) && badFiles == old(badFiles)
    {
      ghost var was := exact;
      exact := exact + {key};
      minutes := minutes + {Bucket(key, OneMinute)};
      quarters := quarters + {Bucket(key, QuarterHour)};
      hours := hours + {Bucket(key, OneHour)};
      BucketsGrow(was, key, OneMinute);
      BucketsGrow(was, key, QuarterHour);
      BucketsGrow(was, key, OneHour);
    }

    method ScanFile(f: CoverageFile, start: int, end: int)
      requires Consistent()
      modifies this
      ensures Consistent() && exact == old(exact) + FileKeys(f, start, end)
      ensures filesRead == old(filesRead) + (if IsBad(f) then 0 else 1)
      ensures badFiles == old(badFiles) + (if IsBad(f) then 1 else 0)
    {
      if f.BadHeader? {
        badFiles := badFiles + 1;
        return;
      }
      var i := 0;
      while i < |f.stamps|
        invariant 0 <= i <= |f.stamps| && Consistent() && Garbled !in f.stamps[..i]
        invariant exact == old(exact) + FileKeys(f.(stamps := f.stamps[..i]), start, end)
        invariant filesRead == old(filesRead) && badFiles == old(badFiles)
      {
        FileKeysStep(f, start, end, i);
        var stamp := f.stamps[i];
        if stamp.Garbled? {
          badFiles := badFiles + 1;
          FileKeysCut(f, start, end, i);
          return;
        }
        if stamp.At? && start <= stamp.ts < end {
          Add(Key(stamp.ts, f.meter, f.measurement));
        }
        i := i + 1;
      }
      assert f.stamps[..|f.stamps|] == f.stamps;
      filesRead := filesRead + 1;
    }

    /** scan_source_coverage: the keys of every file as far as it could be read. */
    method Scan(files: seq<CoverageFile>, start: int, end: int)
      requires exact == {} && filesRead == badFiles == 0 && Consistent()
      modifies this
      ensures exact == SourceKeys(files, start, end) && Consistent()
      ensures filesRead + badFiles == |files|
      ensures badFiles == 0 <==> forall i :: 0 <= i < |files| ==> !IsBad(files[i])
    {
      for n := 0 to |files|
        invariant Consistent() && exact == SourceKeys(files[..n], start, end)
        invariant filesRead + badFiles == n
        invariant badFiles == 0 <==> forall i :: 0 <= i < n ==> !IsBad(files[i])
      {
        assert files[..n + 1][..n] == files[..n];
        ScanFile(files[n], start, end);
      }
      assert files[..|files|] == files;
    }
  }

  lemma BucketsGrow(keys: set<Key>, key: Key, r: Resolution)
    ensures Buckets(keys + {key}, r) == Buckets(keys, r) + {Bucket(key, r)}
  {
    forall b
      ensures b in Buckets(keys + {key}, r) <==> b in Buckets(keys, r) + {Bucket(key, r)}
    {
      if b in Buckets(keys, r) {
        var k :| k in keys && Bucket(k, r) == b;
        assert k in keys + {key};
      }
    }
  }

  lemma FileKeysStep(f: CoverageFile, start: int, end: int, i: nat)
    requires f.CoverageFile? && i < |f.stamps| && Garbled !in f.stamps[..i]
    ensures var s := f.stamps[i];
            FileKeys(f.(stamps := f.stamps[..i + 1]), start, end) == FileKeys(f.(stamps := f.stamps[..i]), start, end)
              + if s.At? && start <= s.ts < end then {Key(s.ts, f.meter, f.measurement)} else {}
  {
    var more, less := f.(stamps := f.stamps[..i + 1]), f.(stamps := f.stamps[..i]);
    forall k | 0 <= k < i
      ensures Reached(more.stamps, k) && Reached(less.stamps, k) && more.stamps[k] == less.stamps[k]
    {
      assert forall m :: 0 <= m < i ==> f.stamps[m] == f.stamps[..i][m];
    }
    assert Reached(more.stamps, i) <==> !f.stamps[i].Garbled? by {
      assert forall m :: 0 <= m < i ==> more.stamps[m] == f.stamps[..i][m];
    }
  }

  /** Nothing past a garbled stamp counts. */
  lemma FileKeysCut(f: CoverageFile, start: int, end: int, i: nat)
    requires f.CoverageFile? && i < |f.stamps| && f.stamps[i].Garbled?
    ensures FileKeys(f, start, end) == FileKeys(f.(stamps := f.stamps[..i]), start, end)
  {
    var less := f.(stamps := f.stamps[..i]);
    forall k | 0 <= k < |f.stamps|
      ensures Reached(f.stamps, k) <==> k < i && Reached(less.stamps, k)
    {
      assert k < i ==> forall m :: 0 <= m <= k ==> f.stamps[m] == less.stamps[m];
    }
  }

  /** A bucket starts at the whole minute, quarter hour or hour that its times are in. */
  lemma BucketIff(t: int, r: Resolution, start: int)
    ensures FloorTime(t, r) == start <==>
            match r
            case OneMinute => start % 60_000_000 == 0 && start <= t < start + 60_000_000
            case QuarterHour => start % 900_000_000 == 0 && start <= t < start + 900_000_000
            case OneHour => start % 3_600_000_000 == 0 && start <= t < start + 3_600_000_000
  {
    FloorIsLastBoundary(t, r);
    if start % Width(r) == 0 && start <= t {
      FloorNotBelowBoundary(t, r, start);
      if start < FloorTime(t, r) {
        MultiplesStepByWidth(FloorTime(t, r), start, Width(r));
      }
    }
  }
}
