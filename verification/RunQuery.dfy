/** The resume query picks its rows by a LIKE pattern over source event ids: exactly which other
    runs it sees, and what seeing one does to the resume point. */
module RunQuery {
  import opened Wrappers
  import opened SourceRows
  import opened Injector
  import opened Supervisor

  /** LIKE, with '_' for any character, '%' for any string and '\\' before a literal one. */
  predicate Like(s: string, pattern: string)
    decreases |s| + |pattern|
  {
    if pattern == "" then s == ""
    else if pattern[0] == '%' then Like(s, pattern[1..]) || (s != "" && Like(s[1..], pattern))
    else if pattern[0] == '\\' && |pattern| > 1 then s != "" && s[0] == pattern[1] && Like(s[1..], pattern[2..])
    else s != "" && (pattern[0] == '_' || pattern[0] == s[0]) && Like(s[1..], pattern[1..])
  }

  /** A run id without '%' and '\\'. */
  predicate Plain(run: string) {
    forall k :: 0 <= k < |run| ==> run[k] != '%' && run[k] != '\\'
  }

  /** Character by character, with '_' in the run id for any. */
  predicate Fits(run: string, s: string) {
    |run| == |s| && forall k :: 0 <= k < |run| ==> run[k] == '_' || run[k] == s[k]
  }

  lemma {:induction false} AnythingGoes(s: string)
    ensures Like(s, "%")
    decreases |s|
  {
    if s != "" {
      AnythingGoes(s[1..]);
    }
  }

  /** The pattern of a run matches the ids that start with something that fits the run id,
      followed by a colon. */
  lemma {:induction false} QueryPattern(run: string, s: string)
    requires Plain(run)
    ensures Like(s, run + ":%") <==> |run| < |s| && s[|run|] == ':' && Fits(run, s[..|run|])
    decreases |run|
  {
    var pattern := run + ":%";
    if run == "" {
      assert pattern == ":%" && pattern[1..] == "%";
      if s != "" {
        AnythingGoes(s[1..]);
      }
    } else {
      assert pattern[0] == run[0] && pattern[1..] == run[1..] + ":%";
      if s != "" {
        QueryPattern(run[1..], s[1..]);
        if |run| < |s| {
          assert s[1..][..|run| - 1] == s[..|run|][1..];
          FitsStep(run, s[..|run|]);
        }
      }
    }
  }

  lemma FitsStep(run: string, s: string)
    requires run != "" && |run| == |s|
    ensures Fits(run, s) <==> (run[0] == '_' || run[0] == s[0]) && Fits(run[1..], s[1..])
  {
    if Fits(run[1..], s[1..]) {
      forall k | 1 <= k < |run|
        ensures run[k] == '_' || run[k] == s[k]
      {
        assert run[1..][k - 1] == run[k] && s[1..][k - 1] == s[k];
      }
    }
  }

  /** A committed row under the run that posted it. */
  datatype Entry = Entry(run: string, event: string, row: Row)

  function EventId(run: string, event: string): string {
    run + ":" + event
  }

  /** Some event id of the other run matches this run's pattern. */
  predicate Collides(run: string, other: string) {
    if |run| <= |other| then (other + ":")[|run|] == ':' && Fits(run, other[..|run|])
    else Fits(run[..|other|], other) && (run[|other|] == '_' || run[|other|] == ':')
  }

  lemma MatchCollides(run: string, other: string, event: string)
    requires Plain(run) && Like(EventId(other, event), run + ":%")
    ensures Collides(run, other)
  {
    var id := EventId(other, event);
    QueryPattern(run, id);
    if |run| <= |other| {
      assert id[..|run|] == other[..|run|];
    } else {
      assert id[..|run|][..|other|] == other && id[|other|] == ':';
      assert id[..|run|][|other|] == ':';
    }
  }

  lemma CollidesMatch(run: string, other: string) returns (event: string)
    requires Plain(run) && Collides(run, other)
    ensures Like(EventId(other, event), run + ":%")
  {
    event := if |run| <= |other| then "" else run[|other| + 1..] + ":";
    var id := EventId(other, event);
    if |run| <= |other| {
      assert id[..|run|] == other[..|run|];
    } else {
      assert id == other + ":" + run[|other| + 1..] + ":";
      forall k | 0 <= k < |run|
        ensures run[k] == '_' || run[k] == id[..|run|][k]
      {
        if k < |other| {
          assert run[..|other|][k] == run[k];
        }
      }
    }
    QueryPattern(run, id);
  }

  /** The rows the query looks at. */
  function Seen(run: string, ledger: seq<Entry>): seq<Row> {
    if ledger == [] then []
    else
      var front, e := Seen(run, ledger[..|ledger| - 1]), ledger[|ledger| - 1];
      if Like(EventId(e.run, e.event), run + ":%") then front + [e.row] else front
  }

  /** The rows of the run itself. */
  function Own(run: string, ledger: seq<Entry>): seq<Row> {
    if ledger == [] then []
    else
      var front, e := Own(run, ledger[..|ledger| - 1]), ledger[|ledger| - 1];
      if e.run == run then front + [e.row] else front
  }

  ghost predicate WrittenBy(ledger: seq<Entry>, runs: set<string>) {
    forall k :: 0 <= k < |ledger| ==> ledger[k].run in runs
  }

  lemma {:induction false} SeesOwnRows(run: string, others: set<string>, ledger: seq<Entry>)
    requires Plain(run) && WrittenBy(ledger, others + {run})
    requires forall other :: other in others && other != run ==> !Collides(run, other)
    ensures Seen(run, ledger) == Own(run, ledger)
  {
    if ledger != [] {
      var e := ledger[|ledger| - 1];
      SeesOwnRows(run, others, ledger[..|ledger| - 1]);
      if e.run == run {
        QueryPattern(run, EventId(run, e.event));
        assert EventId(run, e.event)[..|run|] == run;
      } else if Like(EventId(e.run, e.event), run + ":%") {
        MatchCollides(run, e.run, e.event);
      }
    }
  }

  /** The query sees only its own run, in every ledger of these runs, if and only if none of the
      other run ids collides with its own. */
  lemma OwnRunOnlyIff(run: string, others: set<string>)
    requires Plain(run)
    ensures (forall ledger :: WrittenBy(ledger, others + {run}) ==> Seen(run, ledger) == Own(run, ledger))
            <==> forall other :: other in others && other != run ==> !Collides(run, other)
  {
    if other :| other in others && other != run && Collides(run, other) {
      var event := CollidesMatch(run, other);
      var ledger := [Entry(other, event, Row(0, 0, 0, 0, None))];
      assert ledger[..0] == [] && WrittenBy(ledger, others + {run});
      assert Seen(run, ledger[..0]) == [] && Own(run, ledger[..0]) == [];
      assert Seen(run, ledger) != Own(run, ledger);
    } else {
      forall ledger | WrittenBy(ledger, others + {run})
        ensures Seen(run, ledger) == Own(run, ledger)
      {
        SeesOwnRows(run, others, ledger);
      }
    }
  }

  /** The publisher's run id for a day collides with the plain run id that it extends. */
  lemma PublisherRunCollides(run: string, day: string)
    ensures Collides(run, run + ":" + day)
  {
    assert (run + ":" + day)[..|run|] == run;
  }

  /** So does any run id that differs in the place of an underscore. */
  lemma UnderscoreCollides(run: string, k: nat, other: char)
    requires k < |run| && run[k] == '_'
    ensures Collides(run, run[k := other])
  {
    assert run[k := other][..|run|] == run[k := other];
  }

  /** Once the query sees an eligible row of another run, the chunk posts none of the rows before
      it, committed by this run or not. */
  lemma ForeignRowSkips(rows: seq<Row>, c: Config, run: string, ledger: seq<Entry>, foreign: Row, x: Row)
    requires c.Valid() && foreign in Seen(run, ledger) && Eligible(c, foreign) && x.ts < foreign.ts
    ensures x !in ChunkRows(rows, c, ChooseResumeStart(c, Seen(run, ledger)))
  {
    var start := ChooseResumeStart(c, Seen(run, ledger));
    LatestEventIsMaximum(c, Seen(run, ledger));
    NotBeforeStart(rows, start, ChunkEnd(c, start), x);
  }

  lemma {:induction false} NotBeforeStart(rows: seq<Row>, lo: int, hi: int, x: Row)
    requires x.ts < lo
    ensures x !in InWindow(rows, lo, hi)
  {
    if rows != [] {
      NotBeforeStart(rows[1..], lo, hi, x);
    }
  }

  // ----- The rest of LIKE ----------------------------------------------------------------

  /** '%' stands for any string. */
  lemma {:induction false} PercentIff(s: string, pattern: string)
    ensures Like(s, "%" + pattern) <==> exists k :: 0 <= k <= |s| && Like(s[k..], pattern)
    decreases |s|
  {
    assert ("%" + pattern)[1..] == pattern && s[0..] == s;
    if s != "" {
      PercentIff(s[1..], pattern);
      if k :| 1 <= k <= |s| && Like(s[k..], pattern) {
        assert s[1..][k - 1..] == s[k..];
      }
      if k :| 0 <= k <= |s| - 1 && Like(s[1..][k..], pattern) {
        assert s[1..][k..] == s[k + 1..];
      }
    }
  }

  /** Behind a backslash every character stands for itself, '_' and '%' too. */
  lemma EscapedIff(s: string, c: char, pattern: string)
    ensures Like(s, ['\\', c] + pattern) <==> s != "" && s[0] == c && Like(s[1..], pattern)
  {
    assert (['\\', c] + pattern)[2..] == pattern;
  }
}
