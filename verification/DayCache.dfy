/** Per-local-day caches of the archive, and what a build leaves in them. */
module DayCache {
  import opened Wrappers
  import opened SourceRows
  import opened Supervisor
  import opened Timeline

  /** A cache file: the local day of its directory and the path below it. */
  datatype CacheKey = CacheKey(day: int, path: nat)

  type Store = map<CacheKey, seq<Line>>

  datatype BuildArgs = BuildArgs(startDay: int, endDay: int, offset: int, overwrite: bool) {
    function StartUtc(): int {
      startDay * DAY - offset
    }

    function EndUtc(): int {
      (endDay + 1) * DAY - offset
    }
  }

  function Lookup(store: Store, key: CacheKey): Option<seq<Line>> {
    if key in store then Some(store[key]) else None
  }

  // ----- What a build leaves in the store ------------------------------------------------

  /** The lines before the first one dated at or past the end. */
  function UntilEnd(lines: seq<Line>, end: int): seq<Line> {
    if lines == [] || (!lines[0].Undated? && end <= lines[0].ts) then []
    else [lines[0]] + UntilEnd(lines[1..], end)
  }

  predicate OnDay(line: Line, day: int, offset: int) {
    !line.Undated? && LocalDay(line.ts, offset) == day
  }

  /** The dated lines of one local day, in file order. */
  function DayLines(lines: seq<Line>, day: int, offset: int): seq<Line> {
    if lines == [] then []
    else
      var front := DayLines(lines[..|lines| - 1], day, offset);
      if OnDay(lines[|lines| - 1], day, offset) then front + [lines[|lines| - 1]] else front
  }

  /** The stored content of one cache file after one source file has been split. */
  function AfterFile(lines: seq<Line>, path: nat, args: BuildArgs, before: Option<seq<Line>>,
                     key: CacheKey): Option<seq<Line>> {
    var kept := DayLines(lines, key.day, args.offset);
    if key.path == path && args.startDay <= key.day <= args.endDay && kept != [] && (args.overwrite || before.None?)
    then Some(kept)
    else before
  }

  function AfterBuild(archive: seq<SourceFile>, args: BuildArgs, before: Option<seq<Line>>,
                      key: CacheKey): Option<seq<Line>> {
    if archive == [] then before
    else
      var f := archive[|archive| - 1];
      AfterFile(UntilEnd(f.lines, args.EndUtc()), f.path, args,
                AfterBuild(archive[..|archive| - 1], args, before, key), key)
  }

  lemma DayLinesStep(lines: seq<Line>, j: nat, day: int, offset: int)
    requires j < |lines|
    ensures OnDay(lines[j], day, offset) ==>
              DayLines(lines[..j + 1], day, offset) == DayLines(lines[..j], day, offset) + [lines[j]]
    ensures !OnDay(lines[j], day, offset) ==>
              DayLines(lines[..j + 1], day, offset) == DayLines(lines[..j], day, offset)
  {
    assert lines[..j + 1][..j] == lines[..j];
  }

  /** The cut at the end is a prefix that ends there or with the file. */
  lemma {:induction false} UntilEndIsPrefix(lines: seq<Line>, end: int, j: nat)
    requires j <= |lines|
    requires forall k :: 0 <= k < j ==> lines[k].Undated? || lines[k].ts < end
    requires j == |lines| || (!lines[j].Undated? && end <= lines[j].ts)
    ensures UntilEnd(lines, end) == lines[..j]
  {
    if j > 0 {
      UntilEndIsPrefix(lines[1..], end, j - 1);
      assert lines[..j] == [lines[0]] + lines[1..][..j - 1];
    }
  }

  lemma DayWithinRange(ts: int, args: BuildArgs)
    ensures args.StartUtc() <= ts < args.EndUtc() <==> args.startDay <= LocalDay(ts, args.offset) <= args.endDay
  {
  }

  /** The store part-way through a source file: these lines have been split, and writers are
      the days with an open cache file. */
  ghost predicate SplitSoFar(lines: seq<Line>, path: nat, args: BuildArgs, before: Store, files: Store,
                             writers: set<int>) {
    && (forall day :: day in writers <==>
          && args.startDay <= day <= args.endDay && DayLines(lines, day, args.offset) != []
          && (args.overwrite || Lookup(before, CacheKey(day, path)).None?))
    && (forall key :: Lookup(files, key) == AfterFile(lines, path, args, Lookup(before, key), key))
  }

  lemma LineWithoutEffect(lines: seq<Line>, line: Line, path: nat, args: BuildArgs, before: Store, files: Store,
                          writers: set<int>)
    requires SplitSoFar(lines, path, args, before, files, writers)
    requires line.Undated? || line.ts < args.StartUtc()
    ensures SplitSoFar(lines + [line], path, args, before, files, writers)
  {
    forall day
      ensures args.startDay <= day <= args.endDay ==>
                DayLines(lines + [line], day, args.offset) == DayLines(lines, day, args.offset)
    {
      OneLineMore(lines, line, day, args.offset);
      if !line.Undated? {
        DayWithinRange(line.ts, args);
      }
    }
  }

  lemma OneLineMore(lines: seq<Line>, line: Line, day: int, offset: int)
    ensures DayLines(lines + [line], day, offset)
         == if OnDay(line, day, offset) then DayLines(lines, day, offset) + [line] else DayLines(lines, day, offset)
  {
    assert (lines + [line])[..|lines|] == lines;
  }

  /** A line of another day, or another path, leaves a cache file as it should be. */
  lemma OtherFile(lines: seq<Line>, line: Line, path: nat, args: BuildArgs, before: Option<seq<Line>>, key: CacheKey)
    requires !OnDay(line, key.day, args.offset) || key.path != path
    ensures AfterFile(lines + [line], path, args, before, key) == AfterFile(lines, path, args, before, key)
  {
    OneLineMore(lines, line, key.day, args.offset);
  }

  /** A line of the day is appended to the file, unless an earlier one is kept. */
  lemma OwnFile(lines: seq<Line>, line: Line, path: nat, args: BuildArgs, before: Option<seq<Line>>, key: CacheKey)
    requires OnDay(line, key.day, args.offset) && key.path == path && args.startDay <= key.day <= args.endDay
    ensures AfterFile(lines + [line], path, args, before, key)
         == if args.overwrite || before.None? then Some(DayLines(lines, key.day, args.offset) + [line]) else before
  {
    OneLineMore(lines, line, key.day, args.offset);
  }

  /** An open file has the day's lines so far; one that is not open has none of them yet, or is
      kept from before. */
  lemma OwnFileSoFar(lines: seq<Line>, path: nat, args: BuildArgs, before: Option<seq<Line>>, key: CacheKey, open: bool)
    requires key.path == path && args.startDay <= key.day <= args.endDay
    requires open <==> DayLines(lines, key.day, args.offset) != [] && (args.overwrite || before.None?)
    ensures AfterFile(lines, path, args, before, key)
         == if open then Some(DayLines(lines, key.day, args.offset)) else before
    ensures !open && (args.overwrite || before.None?) ==> DayLines(lines, key.day, args.offset) == []
  {
  }

  /** Which day files are open after one more line. */
  lemma OpenAfterLine(lines: seq<Line>, line: Line, path: nat, args: BuildArgs, before: Store, files: Store,
                      writers: set<int>, day: int)
    requires SplitSoFar(lines, path, args, before, files, writers)
    requires !line.Undated? && args.StartUtc() <= line.ts < args.EndUtc()
    ensures var own := LocalDay(line.ts, args.offset);
            (&& args.startDay <= day <= args.endDay && DayLines(lines + [line], day, args.offset) != []
             && (args.overwrite || Lookup(before, CacheKey(day, path)).None?))
            <==> day in writers || (day == own && (args.overwrite || Lookup(before, CacheKey(own, path)).None?))
  {
    DayWithinRange(line.ts, args);
    OneLineMore(lines, line, day, args.offset);
  }

  /** The cache files once the line has gone to the file of its day, which is opened first and
      truncated if it may be. */
  function AfterLine(files: Store, open: set<int>, key: CacheKey, line: Line, overwrite: bool): Store {
    if key.day in open then files[key := (if key in files then files[key] else []) + [line]]
    else if key in files && !overwrite then files
    else files[key := [line]]
  }

  function OpenedBy(files: Store, open: set<int>, key: CacheKey, overwrite: bool): set<int> {
    if key.day !in open && key in files && !overwrite then open else open + {key.day}
  }

  /** Writing a line of the range keeps the store as it should be part-way through the file. */
  lemma LineWritten(lines: seq<Line>, line: Line, path: nat, args: BuildArgs, before: Store, files: Store,
                    open: set<int>)
    requires SplitSoFar(lines, path, args, before, files, open)
    requires !line.Undated? && args.StartUtc() <= line.ts < args.EndUtc()
    ensures var key := CacheKey(LocalDay(line.ts, args.offset), path);
            SplitSoFar(lines + [line], path, args, before, AfterLine(files, open, key, line, args.overwrite),
                       OpenedBy(files, open, key, args.overwrite))
    ensures LocalDay(line.ts, args.offset) in open ==> CacheKey(LocalDay(line.ts, args.offset), path) in files
  {
    var key := CacheKey(LocalDay(line.ts, args.offset), path);
    var after := AfterLine(files, open, key, line, args.overwrite);
    DayWithinRange(line.ts, args);
    assert Lookup(files, key) == AfterFile(lines, path, args, Lookup(before, key), key);
    forall day {
      OpenAfterLine(lines, line, path, args, before, files, open, day);
    }
    forall k
      ensures Lookup(after, k) == AfterFile(lines + [line], path, args, Lookup(before, k), k)
    {
      if k == key {
        OwnFile(lines, line, path, args, Lookup(before, key), key);
        OwnFileSoFar(lines, path, args, Lookup(before, key), key, key.day in open);
        assert [] + [line] == [line];
      } else {
        OtherFile(lines, line, path, args, Lookup(before, k), k);
        assert Lookup(after, k) == Lookup(files, k);
      }
    }
  }

  class CacheParent {
    var files: Store

    /** Append a line of the range to the cache file of its day, opening that file first; an
        existing file is left alone unless overwriting. */
    method WriteLine(line: Line, path: nat, args: BuildArgs, open: set<int>, ghost lines: seq<Line>,
                     ghost before: Store)
      returns (writers: set<int>)
      requires SplitSoFar(lines, path, args, before, files, open)
      requires !line.Undated? && args.StartUtc() <= line.ts < args.EndUtc()
      modifies this
      ensures SplitSoFar(lines + [line], path, args, before, files, writers)
    {
      var key := CacheKey(LocalDay(line.ts, args.offset), path);
      LineWritten(lines, line, path, args, before, files, open);
      writers := open;
      if key.day !in writers {
        if key in files && !args.overwrite {
          return;
        }
        files := files[key := []];
        writers := writers + {key.day};
      }
      assert [] + [line] == [line];
      files := files[key := files[key] + [line]];
      assert files == AfterLine(old(files), open, key, line, args.overwrite);
      assert writers == OpenedBy(old(files), open, key, args.overwrite);
    }

    /** Split one source file into the cache files of its days. */
    method SplitFile(f: SourceFile, args: BuildArgs)
      modifies this
      ensures forall key :: Lookup(files, key)
                         == AfterFile(UntilEnd(f.lines, args.EndUtc()), f.path, args, Lookup(old(files), key), key)
    {
      ghost var before := files;
      var writers: set<int> := {};
      var j := 0;
      assert f.lines[..0] == [];
      while j < |f.lines| && (f.lines[j].Undated? || f.lines[j].ts < args.EndUtc())
        invariant 0 <= j <= |f.lines|
        invariant forall k :: 0 <= k < j ==> f.lines[k].Undated? || f.lines[k].ts < args.EndUtc()
        invariant SplitSoFar(f.lines[..j], f.path, args, before, files, writers)
      {
        var line := f.lines[j];
        assert f.lines[..j + 1] == f.lines[..j] + [line];
        if !line.Undated? && args.StartUtc() <= line.ts {
          writers := WriteLine(line, f.path, args, writers, f.lines[..j], before);
        } else {
          LineWithoutEffect(f.lines[..j], line, f.path, args, before, files, writers);
        }
        j := j + 1;
      }
      UntilEndIsPrefix(f.lines, args.EndUtc(), j);
    }

    /** build_day_caches over the archive files in path order. */
    method BuildDayCaches(archive: seq<SourceFile>, args: BuildArgs)
      modifies this
      ensures forall key :: Lookup(files, key) == AfterBuild(archive, args, Lookup(old(files), key), key)
    {
      ghost var before := files;
      for i := 0 to |archive|
        invariant forall key :: Lookup(files, key) == AfterBuild(archive[..i], args, Lookup(before, key), key)
      {
        assert archive[..i + 1][..i] == archive[..i];
        SplitFile(archive[i], args);
      }
      assert archive[..|archive|] == archive;
    }
  }

  // ----- What a build leaves alone -------------------------------------------------------

  /** A build without overwriting never touches a file that exists. */
  lemma {:induction false} ExistingFileKept(archive: seq<SourceFile>, args: BuildArgs, lines: seq<Line>, key: CacheKey)
    requires !args.overwrite
    ensures AfterBuild(archive, args, Some(lines), key) == Some(lines)
  {
    if archive != [] {
      ExistingFileKept(archive[..|archive| - 1], args, lines, key);
    }
  }

  /** No build touches a day outside its range, or a path that is not in the archive. */
  lemma {:induction false} OutsideRangeKept(archive: seq<SourceFile>, args: BuildArgs, before: Option<seq<Line>>,
                                            key: CacheKey)
    requires key.day < args.startDay || args.endDay < key.day || forall f :: f in archive ==> f.path != key.path
    ensures AfterBuild(archive, args, before, key) == before
  {
    if archive != [] {
      OutsideRangeKept(archive[..|archive| - 1], args, before, key);
    }
  }
}
