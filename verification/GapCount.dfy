/** The gap and duplicate counts of the live QA smoke run. */
module GapCount {
  import opened Wrappers
  import opened Arithmetic

  /** An event's timestamp. */
  datatype Stamp = Stamp(ts: int)

  /** int(round(delta / interval)): ties go to the even neighbour. */
  function RoundRatio(delta: int, interval: int): int
    requires interval != 0
  {
    if interval < 0 then -RoundHalfEven(delta, -interval) else RoundHalfEven(delta, interval)
  }

  function RoundHalfEven(delta: int, interval: int): int
    requires interval > 0
  {
    var q, r := delta / interval, delta % interval;
    if 2 * r < interval then q
    else if 2 * r > interval then q + 1
    else if q % 2 == 0 then q
    else q + 1
  }

  ghost predicate Sorted(stamps: seq<Stamp>) {
    forall i, j :: 0 <= i < j < |stamps| ==> stamps[i].ts <= stamps[j].ts
  }

  function Insert(x: Stamp, stamps: seq<Stamp>): seq<Stamp> {
    if stamps == [] || x.ts <= stamps[0].ts then [x] + stamps else [stamps[0]] + Insert(x, stamps[1..])
  }

  function SortedCopy(stamps: seq<Stamp>): seq<Stamp> {
    if stamps == [] then [] else Insert(stamps[0], SortedCopy(stamps[1..]))
  }

  lemma {:induction false} InsertSorted(x: Stamp, stamps: seq<Stamp>)
    requires Sorted(stamps)
    ensures Sorted(Insert(x, stamps))
    ensures forall y :: y in Insert(x, stamps) <==> y == x || y in stamps
  {
    if stamps != [] && x.ts > stamps[0].ts {
      InsertSorted(x, stamps[1..]);
      assert stamps == [stamps[0]] + stamps[1..];
      var rest := Insert(x, stamps[1..]);
      forall k | 0 <= k < |rest|
        ensures stamps[0].ts <= rest[k].ts
      {
        assert rest[k] in rest;
      }
    }
  }

  lemma {:induction false} SortedCopySorts(stamps: seq<Stamp>)
    ensures Sorted(SortedCopy(stamps))
    ensures forall y :: y in SortedCopy(stamps) <==> y in stamps
  {
    if stamps != [] {
      SortedCopySorts(stamps[1..]);
      InsertSorted(stamps[0], SortedCopy(stamps[1..]));
      assert stamps == [stamps[0]] + stamps[1..];
    }
  }

  /** The missing grid points a jump from one stamp to the next amounts to. */
  function Jump(left: int, right: int, interval: int): int
    requires interval != 0
  {
    if right - left > interval then RoundRatio(right - left, interval) - 1 else 0
  }

  function GapSum(sorted: seq<Stamp>, interval: int): int
    requires interval != 0
  {
    if |sorted| < 2 then 0
    else GapSum(sorted[..|sorted| - 1], interval) + Jump(sorted[|sorted| - 2].ts, sorted[|sorted| - 1].ts, interval)
  }

  function CountOf(stamps: seq<Stamp>, interval: int): int
    requires interval != 0
  {
    Max(GapSum(SortedCopy(stamps), interval), 0)
  }

  ghost predicate AllEqual(stamps: seq<Stamp>) {
    forall i, j :: 0 <= i < |stamps| && 0 <= j < |stamps| ==> stamps[i] == stamps[j]
  }

  /** The loop of count_gaps over the sorted stamps. */
  method SumJumps(sorted: seq<Stamp>, interval: int) returns (sum: Outcome<int>)
    requires Sorted(sorted) && |sorted| >= 2
    ensures sum.Raised? <==> interval == 0 && !AllEqual(sorted)
    ensures sum.Returned? ==> sum.value == if interval == 0 then 0 else GapSum(sorted, interval)
  {
    var total := 0;
    assert sorted[..1] == [sorted[0]];
    for i := 1 to |sorted|
      invariant interval == 0 ==> total == 0 && forall k :: 0 <= k < i ==> sorted[k] == sorted[0]
      invariant interval != 0 ==> total == GapSum(sorted[..i], interval)
    {
      assert sorted[..i + 1][..i] == sorted[..i];
      var delta := sorted[i].ts - sorted[i - 1].ts;
      if delta > interval {
        if interval == 0 {
          return Raised;
        }
        total := total + RoundRatio(delta, interval) - 1;
      }
    }
    assert sorted[..|sorted|] == sorted;
    sum := Returned(total);
  }

  /** count_gaps; without an interval there is nothing to count, and an interval of zero
      divides by zero as soon as two stamps differ. */
  method CountGaps(stamps: seq<Stamp>, interval: Option<int>) returns (gaps: Outcome<int>)
    ensures gaps.Raised? <==> interval == Some(0) && !AllEqual(stamps)
    ensures gaps.Returned? ==>
              gaps.value == if interval.None? || interval.value == 0 then 0 else CountOf(stamps, interval.value)
    ensures interval.Some? && interval.value > 0 ==> gaps == Returned(GapSum(SortedCopy(stamps), interval.value))
  {
    var sorted := SortedCopy(stamps);
    SortedCopySorts(stamps);
    EqualStamps(stamps, sorted);
    if interval.None? || |sorted| < 2 {
      return Returned(0);
    }
    if interval.value > 0 {
      GapSumNonNegative(sorted, interval.value);
    }
    var sum := SumJumps(sorted, interval.value);
    gaps := if sum.Raised? then Raised else Returned(Max(sum.value, 0));
  }

  lemma EqualStamps(stamps: seq<Stamp>, sorted: seq<Stamp>)
    requires forall y :: y in sorted <==> y in stamps
    ensures AllEqual(stamps) <==> AllEqual(sorted)
    ensures |sorted| < 2 ==> AllEqual(sorted)
  {
    EqualIfWithin(stamps, sorted);
    EqualIfWithin(sorted, stamps);
  }

  lemma EqualIfWithin(a: seq<Stamp>, b: seq<Stamp>)
    requires forall y :: y in b ==> y in a
    ensures AllEqual(a) ==> AllEqual(b)
  {
    forall i, j | 0 <= i < |b| && 0 <= j < |b| && AllEqual(a)
      ensures b[i] == b[j]
    {
      assert b[i] in a && b[j] in a;
    }
  }

  /** Against a negative interval, which out-of-order stamps can make the most common one, no
      gap is ever counted. */
  lemma NegativeIntervalCountsNothing(stamps: seq<Stamp>, interval: int)
    requires interval < 0
    ensures CountOf(stamps, interval) == 0
  {
    SortedCopySorts(stamps);
    NegativeGapSum(SortedCopy(stamps), interval);
  }

  lemma {:induction false} NegativeGapSum(sorted: seq<Stamp>, interval: int)
    requires interval < 0 && Sorted(sorted)
    ensures GapSum(sorted, interval) <= 0
  {
    if |sorted| >= 2 {
      NegativeGapSum(sorted[..|sorted| - 1], interval);
      var delta := sorted[|sorted| - 1].ts - sorted[|sorted| - 2].ts;
      RoundNonNegative(delta, -interval);
    }
  }

  lemma RoundNonNegative(delta: int, interval: int)
    requires interval > 0 && delta >= 0
    ensures RoundHalfEven(delta, interval) >= 0
  {
    assert delta == delta / interval * interval + delta % interval;
    ProductSign(delta / interval + 1, interval);
  }

  // ----- On a grid -----------------------------------------------------------------------

  /** The n-th grid point. */
  function GridPoint(origin: int, interval: int, n: int): int {
    origin + n * interval
  }

  /** The place of a stamp on the grid. */
  function Place(x: int, origin: int, interval: int): int
    requires interval > 0
  {
    (x - origin) / interval
  }

  /** The stamp falls on the grid through the origin. */
  predicate OnGrid(x: int, origin: int, interval: int)
    requires interval > 0
  {
    x == GridPoint(origin, interval, Place(x, origin, interval))
  }

  ghost predicate AllOnGrid(stamps: seq<Stamp>, origin: int, interval: int)
    requires interval > 0
  {
    forall x :: x in stamps ==> OnGrid(x.ts, origin, interval)
  }

  ghost function Distinct(stamps: seq<Stamp>): set<Stamp> {
    set x | x in stamps
  }

  /** From one grid point to a later one, the jump skips the points in between. */
  lemma JumpOnGrid(left: int, right: int, origin: int, interval: int)
    requires interval > 0 && OnGrid(left, origin, interval) && OnGrid(right, origin, interval) && left <= right
    ensures Place(left, origin, interval) <= Place(right, origin, interval)
    ensures Jump(left, right, interval)
         == if left == right then 0 else Place(right, origin, interval) - Place(left, origin, interval) - 1
  {
    var n := Place(right, origin, interval) - Place(left, origin, interval);
    assert right - left == n * interval;
    PlacesOrdered(n, interval);
    DivUnique(right - left, interval, n, 0);
  }

  lemma PlacesOrdered(n: int, interval: int)
    requires interval > 0 && 0 <= n * interval
    ensures 0 <= n && (n * interval == 0 <==> n == 0) && (n * interval <= interval <==> n <= 1)
  {
    ProductSign(n + 1, interval);
    ProductSign(n - 1, interval);
    ProductSign(n - 2, interval);
  }

  /** Over sorted stamps on a grid, the jumps add up to the grid points nothing falls on. */
  lemma {:induction false} GapSumOnGrid(sorted: seq<Stamp>, origin: int, interval: int)
    requires interval > 0 && sorted != [] && Sorted(sorted) && AllOnGrid(sorted, origin, interval)
    ensures GapSum(sorted, interval)
         == Place(sorted[|sorted| - 1].ts, origin, interval) - Place(sorted[0].ts, origin, interval) + 1
            - |Distinct(sorted)|
  {
    if |sorted| == 1 {
      assert Distinct(sorted) == {sorted[0]};
    } else {
      var front, previous, last := sorted[..|sorted| - 1], sorted[|sorted| - 2], sorted[|sorted| - 1];
      GapSumOnGrid(front, origin, interval);
      assert front[|front| - 1] == previous && previous in sorted && last in sorted;
      JumpOnGrid(previous.ts, last.ts, origin, interval);
      LastIsNew(sorted);
    }
  }

  /** In sorted order the last stamp is either the one before it or a new one. */
  lemma LastIsNew(sorted: seq<Stamp>)
    requires Sorted(sorted) && |sorted| >= 2
    ensures |Distinct(sorted)|
         == |Distinct(sorted[..|sorted| - 1])| + if sorted[|sorted| - 1].ts == sorted[|sorted| - 2].ts then 0 else 1
  {
    var front, last := sorted[..|sorted| - 1], sorted[|sorted| - 1];
    assert sorted == front + [last];
    assert Distinct(sorted) == Distinct(front) + {last};
    assert front[|front| - 1] in front;
    LastRepeats(sorted);
  }

  lemma LastRepeats(sorted: seq<Stamp>)
    requires Sorted(sorted) && |sorted| >= 2
    ensures sorted[|sorted| - 1] in sorted[..|sorted| - 1] ==> sorted[|sorted| - 1] == sorted[|sorted| - 2]
  {
    var front, last := sorted[..|sorted| - 1], sorted[|sorted| - 1];
    if k :| 0 <= k < |front| && front[k] == last {
      assert sorted[k].ts <= sorted[|sorted| - 2].ts <= last.ts;
    }
  }

  ghost predicate Spans(stamps: seq<Stamp>, first: Stamp, last: Stamp) {
    first in stamps && last in stamps && forall x :: x in stamps ==> first.ts <= x.ts <= last.ts
  }

  lemma EndsOfSorted(sorted: seq<Stamp>, first: Stamp, last: Stamp)
    requires Sorted(sorted) && Spans(sorted, first, last)
    ensures sorted != [] && sorted[0] == first && sorted[|sorted| - 1] == last
  {
    var i :| 0 <= i < |sorted| && sorted[i] == first;
    var j :| 0 <= j < |sorted| && sorted[j] == last;
    assert sorted[0] in sorted && sorted[|sorted| - 1] in sorted;
    assert sorted[0].ts <= sorted[i].ts && sorted[j].ts <= sorted[|sorted| - 1].ts;
  }

  lemma {:induction false} GapSumNonNegative(sorted: seq<Stamp>, interval: int)
    requires interval > 0
    ensures GapSum(sorted, interval) >= 0
  {
    if |sorted| >= 2 {
      GapSumNonNegative(sorted[..|sorted| - 1], interval);
      JumpNonNegative(sorted[|sorted| - 1].ts - sorted[|sorted| - 2].ts, interval);
    }
  }

  lemma JumpNonNegative(delta: int, interval: int)
    requires interval > 0
    ensures delta > interval ==> RoundRatio(delta, interval) >= 1
  {
    var q := delta / interval;
    assert delta == q * interval + delta % interval;
    ProductSign(q, interval);
  }

  /** In any order and with any repetition, stamps on a grid have as many gaps as the grid has
      points from the first to the last stamp that no stamp falls on. */
  lemma GapsOnGrid(stamps: seq<Stamp>, origin: int, interval: int, first: Stamp, last: Stamp)
    requires interval > 0 && AllOnGrid(stamps, origin, interval) && Spans(stamps, first, last)
    ensures CountOf(stamps, interval)
         == Place(last.ts, origin, interval) - Place(first.ts, origin, interval) + 1 - |Distinct(stamps)|
  {
    var sorted := SortedCopy(stamps);
    SortedCopySorts(stamps);
    EndsOfSorted(sorted, first, last);
    assert Distinct(sorted) == Distinct(stamps);
    GapSumOnGrid(sorted, origin, interval);
    GapSumNonNegative(sorted, interval);
  }

  /** The first n points of the grid. */
  function Grid(origin: int, interval: int, n: nat): set<Stamp>
    requires interval > 0
  {
    if n == 0 then {} else Grid(origin, interval, n - 1) + {Stamp(GridPoint(origin, interval, n - 1))}
  }

  lemma PlaceOfGridPoint(origin: int, interval: int, n: int)
    requires interval > 0
    ensures Place(GridPoint(origin, interval, n), origin, interval) == n
            && OnGrid(GridPoint(origin, interval, n), origin, interval)
  {
    DivUnique(n * interval, interval, n, 0);
  }

  lemma {:induction false} GridPlaces(origin: int, interval: int, n: nat)
    requires interval > 0
    ensures forall x :: x in Grid(origin, interval, n) <==>
              OnGrid(x.ts, origin, interval) && 0 <= Place(x.ts, origin, interval) < n
    ensures |Grid(origin, interval, n)| == n
  {
    if n > 0 {
      GridPlaces(origin, interval, n - 1);
      PlaceOfGridPoint(origin, interval, n - 1);
      forall x: Stamp
        ensures x == Stamp(GridPoint(origin, interval, n - 1)) <==>
                OnGrid(x.ts, origin, interval) && Place(x.ts, origin, interval) == n - 1
      {
      }
    }
  }

  lemma PlaceMonotone(x: int, y: int, origin: int, interval: int)
    requires interval > 0 && OnGrid(x, origin, interval) && OnGrid(y, origin, interval)
    requires Place(x, origin, interval) <= Place(y, origin, interval)
    ensures x <= y
  {
    assert (Place(y, origin, interval) - Place(x, origin, interval)) * interval >= 0;
  }

  /** Dropping interior points from a full grid, in whatever order and repetition the others
      arrive, reports exactly the number of points dropped. */
  lemma DroppedPointsReported(stamps: seq<Stamp>, origin: int, interval: int, n: nat, dropped: set<Stamp>)
    requires interval > 0 && n >= 1 && dropped <= Grid(origin, interval, n)
    requires Distinct(stamps) == Grid(origin, interval, n) - dropped
    requires Stamp(origin) !in dropped && Stamp(GridPoint(origin, interval, n - 1)) !in dropped
    ensures CountOf(stamps, interval) == |dropped|
  {
    var first, last := Stamp(origin), Stamp(GridPoint(origin, interval, n - 1));
    GridPlaces(origin, interval, n);
    PlaceOfGridPoint(origin, interval, 0);
    PlaceOfGridPoint(origin, interval, n - 1);
    assert first in Distinct(stamps) && last in Distinct(stamps);
    forall x | x in stamps
      ensures OnGrid(x.ts, origin, interval) && first.ts <= x.ts <= last.ts
    {
      assert x in Distinct(stamps);
      PlaceMonotone(first.ts, x.ts, origin, interval);
      PlaceMonotone(x.ts, last.ts, origin, interval);
    }
    GapsOnGrid(stamps, origin, interval, first, last);
    assert Grid(origin, interval, n) == Distinct(stamps) + dropped;
    assert |Grid(origin, interval, n)| == |Distinct(stamps)| + |dropped|;
  }

  // ----- Off the grid --------------------------------------------------------------------

  /** A distance of k intervals and a remainder is at most half an interval only next to zero. */
  lemma NearZero(k: int, interval: int, r: int, distance: int)
    requires interval > 0 && 0 <= r < interval && distance == k * interval + r
    ensures k == 0 ==> distance == r
    ensures k == -1 ==> distance == r - interval
    ensures k > 0 ==> 2 * distance > interval
    ensures k < -1 ==> 2 * distance < -interval
  {
    ProductSign(k - 1, interval);
    ProductSign(k + 2, interval);
    assert distance == (k - 1) * interval + interval + r;
    assert distance == (k + 2) * interval - 2 * interval + r;
  }

  /** The nearest whole number of intervals and, half-way between two, the even one. */
  predicate IsNearest(delta: int, interval: int, n: int) {
    var distance := delta - n * interval;
    && -interval <= 2 * distance <= interval
    && (2 * distance == interval || 2 * distance == -interval ==> n % 2 == 0)
  }

  lemma RoundIsNearest(delta: int, interval: int, n: int)
    requires interval > 0
    ensures RoundRatio(delta, interval) == n <==> IsNearest(delta, interval, n)
  {
    var q, r := delta / interval, delta % interval;
    assert delta - n * interval == (q - n) * interval + r;
    NearZero(q - n, interval, r, delta - n * interval);
  }

  /** Two stamps more than an interval apart lack one point less than the rounded number of intervals
      between them; two that are not lack nothing. */
  lemma PairGap(a: Stamp, b: Stamp, interval: int)
    requires interval > 0 && a.ts <= b.ts
    ensures GapSum([a, b], interval) == if b.ts > a.ts + interval then RoundRatio(b.ts - a.ts, interval) - 1 else 0
  {
    assert [a, b][..1] == [a];
  }

  /** Gaps add up: cutting sorted stamps at any stamp, which then ends one part and starts the other,
      splits the sum. */
  lemma {:induction false} GapsAddUp(early: seq<Stamp>, middle: Stamp, late: seq<Stamp>, interval: int)
    requires interval != 0
    ensures GapSum(early + [middle] + late, interval)
         == GapSum(early + [middle], interval) + GapSum([middle] + late, interval)
  {
    if late == [] {
      assert early + [middle] + late == early + [middle] && [middle] + late == [middle];
    } else {
      var front := late[..|late| - 1];
      GapsAddUp(early, middle, front, interval);
      var whole, part := early + [middle] + late, [middle] + late;
      assert whole[..|whole| - 1] == early + [middle] + front && part[..|part| - 1] == [middle] + front;
      assert whole[|whole| - 2] == part[|part| - 2];
    }
  }

  lemma {:induction false} InsertKeeps(x: Stamp, stamps: seq<Stamp>)
    ensures multiset(Insert(x, stamps)) == multiset(stamps) + multiset{x}
  {
    if stamps != [] && x.ts > stamps[0].ts {
      InsertKeeps(x, stamps[1..]);
      assert stamps == [stamps[0]] + stamps[1..];
    }
  }

  /** The stamps are summed in sorted order, each as often as it arrived. */
  lemma {:induction false} SortedPermutation(stamps: seq<Stamp>)
    ensures Sorted(SortedCopy(stamps)) && multiset(SortedCopy(stamps)) == multiset(stamps)
  {
    SortedCopySorts(stamps);
    if stamps != [] {
      SortedPermutation(stamps[1..]);
      InsertKeeps(stamps[0], SortedCopy(stamps[1..]));
      assert stamps == [stamps[0]] + stamps[1..];
    }
  }
}
