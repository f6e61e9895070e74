/** Part two: the "seeds:" line lists pairs (start, length), each standing
    for the half-open interval [start, start + length) of seeds, and the
    answer is the lowest location over every seed of every range. */
module Part2 {
  import Stage
  import opened Minimum
  import opened Chain

  datatype Option<T> = None | Some(value: T)

  datatype SeedRange = SeedRange(start: int, range: int)

  datatype Almanac = Almanac(seedRanges: seq<SeedRange>, maps: seq<Stage.AlmanacMap>)

  /** SeedRange.End: one past the last seed of the range. */
  function End(r: SeedRange): (e: int)
    ensures r.start < e <==> r.range > 0
    ensures e - r.range == r.start
  {
    r.start + r.range
  }

  /** Go's built-in `min` on two integers. */
  function Min(x: int, y: int): int {
    if x < y then x else y
  }

  /** The integers start, start + 1, ..., end - 1: the seeds a loop
      `for seed := start; seed < end; seed++` visits. */
  function Span(start: int, end: int): seq<int> {
    if start < end then seq(end - start, i requires 0 <= i < end - start => start + i) else []
  }

  /** The seeds of one range. */
  function Seeds(r: SeedRange): seq<int> {
    Span(r.start, End(r))
  }

  /** All seeds of all ranges, range after range; overlapping ranges
      contribute their common seeds twice. */
  function Expand(ranges: seq<SeedRange>): seq<int> {
    if ranges == [] then [] else Expand(ranges[..|ranges| - 1]) + Seeds(ranges[|ranges| - 1])
  }

  /** Seed `s` lies in one of the ranges. */
  ghost predicate InSomeRange(s: int, ranges: seq<SeedRange>) {
    exists k :: 0 <= k < |ranges| && ranges[k].start <= s < End(ranges[k])
  }

  /** The assumption under which the -1 sentinel is sound. */
  ghost predicate NonNegativeLocations(a: Almanac) {
    forall s :: InSomeRange(s, a.seedRanges) ==> Location(a.maps, s) >= 0
  }

  /** `m` is the answer to the puzzle: -1 when there are no seeds, and
      otherwise the location of some seed that no seed's location beats. */
  ghost predicate IsLowestLocation(a: Almanac, m: int) {
    if exists s :: InSomeRange(s, a.seedRanges) then
      (exists s :: InSomeRange(s, a.seedRanges) && m == Location(a.maps, s)) &&
      (forall s :: InSomeRange(s, a.seedRanges) ==> m <= Location(a.maps, s))
    else
      m == -1
  }

  /** What each range's own search returns, one result per range, in
      range order. */
  function PerRange(maps: seq<Stage.AlmanacMap>, ranges: seq<SeedRange>): seq<int> {
    if ranges == [] then []
    else PerRange(maps, ranges[..|ranges| - 1]) + [LowestOver(maps, Seeds(ranges[|ranges| - 1]))]
  }

  lemma PerRangeSnoc(maps: seq<Stage.AlmanacMap>, ranges: seq<SeedRange>, r: SeedRange)
    ensures PerRange(maps, ranges + [r]) == PerRange(maps, ranges) + [LowestOver(maps, Seeds(r))]
  {
    assert (ranges + [r])[..|ranges|] == ranges;
  }

  lemma {:induction false} PerRangeAppend(maps: seq<Stage.AlmanacMap>, xs: seq<SeedRange>, ys: seq<SeedRange>)
    ensures PerRange(maps, xs + ys) == PerRange(maps, xs) + PerRange(maps, ys)
    decreases |ys|
  {
    if ys == [] {
      assert xs + ys == xs;
    } else {
      var init, last := ys[..|ys| - 1], ys[|ys| - 1];
      assert xs + ys == (xs + init) + [last];
      PerRangeAppend(maps, xs, init);
      PerRangeSnoc(maps, xs + init, last);
    }
  }

  function SumOfRanges(ranges: seq<SeedRange>): int {
    if ranges == [] then 0 else SumOfRanges(ranges[..|ranges| - 1]) + ranges[|ranges| - 1].range
  }

  lemma SpanMembers(start: int, end: int)
    ensures forall s :: s in Span(start, end) <==> start <= s < end
  {
    forall s | start <= s < end ensures s in Span(start, end) {
      assert Span(start, end)[s - start] == s;
    }
  }

  lemma SpanSnoc(start: int, s: int)
    requires start <= s
    ensures Span(start, s + 1) == Span(start, s) + [s]
  {
  }

  lemma SpanSplit(start: int, mid: int, end: int)
    requires start <= mid <= end
    ensures Span(start, end) == Span(start, mid) + Span(mid, end)
  {
  }

  /** A range holds exactly `range` seeds (none when `range` is not
      positive), and they are the integers from `start` up to, but not
      including, End. */
  lemma SeedsOfRange(r: SeedRange)
    ensures |Seeds(r)| == if r.range > 0 then r.range else 0
    ensures forall s :: s in Seeds(r) <==> r.start <= s < End(r)
  {
    SpanMembers(r.start, End(r));
  }

  lemma {:induction false} ExpandAppend(xs: seq<SeedRange>, ys: seq<SeedRange>)
    ensures Expand(xs + ys) == Expand(xs) + Expand(ys)
  {
    if ys == [] {
      assert xs + ys == xs;
    } else {
      var init := ys[..|ys| - 1];
      assert (xs + ys)[..|xs + ys| - 1] == xs + init;
      ExpandAppend(xs, init);
    }
  }

  /** The expanded list holds exactly the seeds that lie in some range. */
  lemma {:induction false} ExpandMembers(ranges: seq<SeedRange>)
    ensures forall s :: s in Expand(ranges) <==> InSomeRange(s, ranges)
  {
    if ranges != [] {
      var init, last := ranges[..|ranges| - 1], ranges[|ranges| - 1];
      ExpandMembers(init);
      SeedsOfRange(last);
      forall s ensures s in Expand(ranges) <==> InSomeRange(s, ranges) {
        if InSomeRange(s, init) {
          var k :| 0 <= k < |init| && init[k].start <= s < End(init[k]);
          assert ranges[k] == init[k];
        }
        if InSomeRange(s, ranges) {
          var k :| 0 <= k < |ranges| && ranges[k].start <= s < End(ranges[k]);
          if k < |init| {
            assert init[k] == ranges[k];
          }
        }
      }
    }
  }

  lemma {:induction false} ExpandLength(ranges: seq<SeedRange>)
    requires forall k :: 0 <= k < |ranges| ==> ranges[k].range >= 0
    ensures |Expand(ranges)| == SumOfRanges(ranges)
  {
    if ranges != [] {
      ExpandLength(ranges[..|ranges| - 1]);
      SeedsOfRange(ranges[|ranges| - 1]);
    }
  }

  /** Non-negative locations on the ranges make every location in the
      expanded list non-negative. */
  lemma FlatNonNegative(maps: seq<Stage.AlmanacMap>, ranges: seq<SeedRange>)
    requires forall s :: InSomeRange(s, ranges) ==> Location(maps, s) >= 0
    ensures AllNonNegative(Locations(maps, Expand(ranges)))
  {
    ExpandMembers(ranges);
    var seeds := Expand(ranges);
    forall i | 0 <= i < |seeds| ensures Locations(maps, seeds)[i] >= 0 {
      assert seeds[i] in seeds;
    }
  }

  /** The running minimum over all seeds of all ranges is the puzzle's
      answer. */
  lemma GlobalLowestIsLowest(a: Almanac)
    requires NonNegativeLocations(a)
    ensures IsLowestLocation(a, LowestOver(a.maps, Expand(a.seedRanges)))
  {
    var seeds := Expand(a.seedRanges);
    ExpandMembers(a.seedRanges);
    LowestOverIsLeast(a.maps, seeds);
    if exists s :: InSomeRange(s, a.seedRanges) {
      var s :| InSomeRange(s, a.seedRanges);
      assert s in seeds;
    }
  }

  /** When every range is non-empty and every location non-negative,
      folding the per-range results with the running minimum gives the
      running minimum over all seeds. */
  lemma {:induction false} PerRangeAgrees(maps: seq<Stage.AlmanacMap>, ranges: seq<SeedRange>)
    requires forall k :: 0 <= k < |ranges| ==> ranges[k].range > 0
    requires AllNonNegative(Locations(maps, Expand(ranges)))
    ensures AllNonNegative(PerRange(maps, ranges))
    ensures RunningLowest(PerRange(maps, ranges)) == LowestOver(maps, Expand(ranges))
  {
    if ranges != [] {
      var init, last := ranges[..|ranges| - 1], ranges[|ranges| - 1];
      var before, seeds := Expand(init), Seeds(last);
      LocationsAppend(maps, before, seeds);
      AllNonNegativeAppend(Locations(maps, before), Locations(maps, seeds));
      PerRangeAgrees(maps, init);
      SeedsOfRange(last);
      RunningLowestIsLeast(Locations(maps, seeds));
      var x := LowestOver(maps, seeds);
      assert x >= 0;
      RunningLowestSnoc(PerRange(maps, init), x);
      RunningLowestAppend(Locations(maps, before), Locations(maps, seeds));
      AllNonNegativeAppend(PerRange(maps, init), [x]);
    }
  }

  /** Almanac.TotalSeeds: the sum of the range lengths, which is the number
      of seeds the searches evaluate when no length is negative. */
  method TotalSeeds(a: Almanac) returns (tot: int)
    ensures tot == SumOfRanges(a.seedRanges)
    ensures (forall k :: 0 <= k < |a.seedRanges| ==> a.seedRanges[k].range >= 0) ==> tot == |Expand(a.seedRanges)|
  {
    tot := 0;
    for i := 0 to |a.seedRanges|
      invariant tot == SumOfRanges(a.seedRanges[..i])
    {
      assert a.seedRanges[..i + 1][..i] == a.seedRanges[..i];
      tot := tot + a.seedRanges[i].range;
    }
    assert a.seedRanges[..|a.seedRanges|] == a.seedRanges;
    if forall k :: 0 <= k < |a.seedRanges| ==> a.seedRanges[k].range >= 0 {
      ExpandLength(a.seedRanges);
    }
  }

  /** Almanac.LowestLocationByRange: the running minimum, from -1, over the
      seeds start, ..., end - 1. With no seeds it is -1; with non-negative
      locations it is the location of a seed of the interval that no seed of
      the interval beats. */
  method LowestLocationByRange(a: Almanac, start: int, end: int) returns (lowest: int)
    ensures lowest == LowestOver(a.maps, Span(start, end))
    ensures start >= end ==> lowest == -1
    ensures start < end && (forall s :: start <= s < end ==> Location(a.maps, s) >= 0) ==>
              (exists s :: start <= s < end && lowest == Location(a.maps, s)) &&
              (forall s :: start <= s < end ==> lowest <= Location(a.maps, s))
  {
    lowest := -1;
    var seed := start;
    while seed < end
      invariant start <= seed && (start < end ==> seed <= end) && (start >= end ==> seed == start)
      invariant lowest == LowestOver(a.maps, Span(start, seed))
      decreases end - seed
    {
      var location := Chain.Lookup(a.maps, seed);
      SpanSnoc(start, seed);
      LowestOverSnoc(a.maps, Span(start, seed), seed);
      if lowest < 0 || location < lowest {
        lowest := location;
      }
      seed := seed + 1;
    }
    assert Span(start, seed) == Span(start, end);
    SpanMembers(start, end);
    if start < end && forall s :: start <= s < end ==> Location(a.maps, s) >= 0 {
      LowestOverIsLeast(a.maps, Span(start, end));
    }
  }

  /** Almanac.LowestLocationBySeedRangeIdx: the search over one range. */
  method LowestLocationBySeedRangeIdx(a: Almanac, idx: int) returns (lowest: int)
    requires 0 <= idx < |a.seedRanges|
    ensures lowest == LowestOver(a.maps, Seeds(a.seedRanges[idx]))
    ensures a.seedRanges[idx].range > 0 && NonNegativeLocations(a) ==> lowest >= 0
  {
    var r := a.seedRanges[idx];
    lowest := LowestLocationByRange(a, r.start, End(r));
    if r.range > 0 && NonNegativeLocations(a) {
      assert InSomeRange(r.start, a.seedRanges);
    }
  }

  /** The update on line 125 as written: the second comparison sets the
      range's result against itself and is never true, so the running
      value is replaced only while it is negative. */
  function Sticky(lowest: int, x: int): int {
    if lowest < 0 || x < x then x else lowest
  }

  function FirstFound(xs: seq<int>): int {
    if xs == [] then -1 else Sticky(FirstFound(xs[..|xs| - 1]), xs[|xs| - 1])
  }

  /** Some range has length zero. */
  ghost predicate HasEmptyRange(ranges: seq<SeedRange>) {
    exists k :: 0 <= k < |ranges| && ranges[k].range == 0
  }

  /** What Almanac.LowestLocation as written produces: the timing line on
      line 124 divides the elapsed time by `r.Range`, which panics with an
      integer division by zero on an empty range (None); otherwise the
      running value of line 125. */
  ghost function AsWrittenOutcome(a: Almanac): Option<int> {
    if HasEmptyRange(a.seedRanges) then None else Some(FirstFound(PerRange(a.maps, a.seedRanges)))
  }

  /** Almanac.LowestLocation as written, the per-seed timing division
      included: None stands for the panic on the first empty range. */
  method LowestLocationAsWritten(a: Almanac) returns (outcome: Option<int>)
    ensures outcome.None? <==> HasEmptyRange(a.seedRanges)
    ensures outcome.Some? ==> outcome.value == FirstFound(PerRange(a.maps, a.seedRanges))
    ensures outcome == AsWrittenOutcome(a)
  {
    var lowest := -1;
    for idx := 0 to |a.seedRanges|
      invariant lowest == FirstFound(PerRange(a.maps, a.seedRanges[..idx]))
      invariant forall k :: 0 <= k < idx ==> a.seedRanges[k].range != 0
    {
      var lowestInRange := LowestLocationBySeedRangeIdx(a, idx);
      if a.seedRanges[idx].range == 0 {
        return None;
      }
      assert a.seedRanges[..idx + 1][..idx] == a.seedRanges[..idx];
      assert PerRange(a.maps, a.seedRanges[..idx + 1]) == PerRange(a.maps, a.seedRanges[..idx]) + [lowestInRange];
      ghost var done := PerRange(a.maps, a.seedRanges[..idx]);
      assert (done + [lowestInRange])[..|done|] == done;
      if lowest < 0 || lowestInRange < lowestInRange {
        lowest := lowestInRange;
      }
    }
    assert a.seedRanges[..|a.seedRanges|] == a.seedRanges;
    outcome := Some(lowest);
  }

  /** An empty range first and a one-seed range at 5, no stages: the code
      as written panics, although the puzzle's answer is 5. */
  lemma AsWrittenPanicsOnEmptyRange()
    ensures var a := Almanac([SeedRange(7, 0), SeedRange(5, 1)], []);
            AsWrittenOutcome(a) == None && IsLowestLocation(a, 5)
  {
    var a := Almanac([SeedRange(7, 0), SeedRange(5, 1)], []);
    assert a.seedRanges[0].range == 0;
    assert Location([], 5) == 5;
    assert InSomeRange(5, a.seedRanges) by {
      assert a.seedRanges[1].start <= 5 < End(a.seedRanges[1]);
    }
    forall s | InSomeRange(s, a.seedRanges) ensures 5 <= Location(a.maps, s) {
    }
  }

  lemma {:induction false} FirstFoundNegative(xs: seq<int>)
    requires forall j :: 0 <= j < |xs| ==> xs[j] < 0
    ensures FirstFound(xs) < 0
  {
    if xs != [] {
      FirstFoundNegative(xs[..|xs| - 1]);
    }
  }

  /** As written, the result is the per-range result of the first range
      whose result is non-negative: every later range is ignored. */
  lemma {:induction false} FirstFoundKeepsFirst(xs: seq<int>, k: int)
    requires 0 <= k < |xs| && xs[k] >= 0
    requires forall j :: 0 <= j < k ==> xs[j] < 0
    ensures FirstFound(xs) == xs[k]
  {
    var init := xs[..|xs| - 1];
    if k == |xs| - 1 {
      FirstFoundNegative(init);
    } else {
      FirstFoundKeepsFirst(init, k);
    }
  }

  /** Two one-seed ranges, 5 and then 2, with no stages: the code as
      written answers 5 although seed 2 reaches location 2. */
  lemma AsWrittenMissesMinimum()
    ensures var a := Almanac([SeedRange(5, 1), SeedRange(2, 1)], []);
            FirstFound(PerRange(a.maps, a.seedRanges)) == 5 && IsLowestLocation(a, 2)
  {
    var a := Almanac([SeedRange(5, 1), SeedRange(2, 1)], []);
    assert Span(5, 6) == [5] && Span(2, 3) == [2];
    assert [SeedRange(5, 1), SeedRange(2, 1)][..1] == [SeedRange(5, 1)];
    assert PerRange(a.maps, a.seedRanges) == [5, 2];
    assert [5, 2][..1] == [5];
    assert Location([], 2) == 2;
    assert InSomeRange(2, a.seedRanges);
    forall s | InSomeRange(s, a.seedRanges) ensures 2 <= Location(a.maps, s) {
    }
  }

  /** Almanac.LowestLocation with line 125 comparing the range's result with
      the running value, and with the -1 of an empty range skipped: the
      result is the puzzle's answer. */
  method LowestLocation(a: Almanac) returns (lowest: int)
    ensures NonNegativeLocations(a) ==> IsLowestLocation(a, lowest)
  {
    ghost var nonNegative := NonNegativeLocations(a);
    lowest := -1;
    for idx := 0 to |a.seedRanges|
      invariant nonNegative ==> lowest == LowestOver(a.maps, Expand(a.seedRanges[..idx]))
    {
      var lowestInRange := LowestLocationBySeedRangeIdx(a, idx);
      ghost var lowestBefore := lowest;
      if lowestInRange >= 0 && (lowest < 0 || lowestInRange < lowest) {
        lowest := lowestInRange;
      }
      if nonNegative {
        var done, r := a.seedRanges[..idx], a.seedRanges[idx];
        assert a.seedRanges[..idx + 1] == done + [r];
        assert (done + [r])[..idx] == done;
        assert Expand(a.seedRanges[..idx + 1]) == Expand(done) + Seeds(r);
        forall s | InSomeRange(s, a.seedRanges[..idx + 1]) ensures Location(a.maps, s) >= 0 {
          var k :| 0 <= k < idx + 1 && a.seedRanges[..idx + 1][k].start <= s < End(a.seedRanges[..idx + 1][k]);
          assert a.seedRanges[k] == a.seedRanges[..idx + 1][k];
        }
        FlatNonNegative(a.maps, a.seedRanges[..idx + 1]);
        LocationsAppend(a.maps, Expand(done), Seeds(r));
        RunningLowestAppend(Locations(a.maps, Expand(done)), Locations(a.maps, Seeds(r)));
        assert lowest == Merge(lowestBefore, lowestInRange);
      }
    }
    assert a.seedRanges[..|a.seedRanges|] == a.seedRanges;
    if nonNegative {
      GlobalLowestIsLowest(a);
    }
  }

  /** The "seeds:" numbers, flattened back from the ranges. */
  function Pairs(ranges: seq<SeedRange>): seq<int> {
    if ranges == [] then []
    else Pairs(ranges[..|ranges| - 1]) + [ranges[|ranges| - 1].start, ranges[|ranges| - 1].range]
  }

  /** Pair k of the flattening is the start and the length of range k. */
  lemma {:induction false} PairsAt(xs: seq<SeedRange>)
    ensures |Pairs(xs)| == 2 * |xs|
    ensures forall k :: 0 <= k < |xs| ==> Pairs(xs)[2 * k] == xs[k].start && Pairs(xs)[2 * k + 1] == xs[k].range
  {
    if xs != [] {
      var init := xs[..|xs| - 1];
      PairsAt(init);
      forall k | 0 <= k < |xs| ensures Pairs(xs)[2 * k] == xs[k].start && Pairs(xs)[2 * k + 1] == xs[k].range {
        if k < |init| {
          assert xs[k] == init[k];
        }
      }
    }
  }

  /** Two range lists with the same flattening are the same list. */
  lemma PairsInjective(xs: seq<SeedRange>, ys: seq<SeedRange>)
    requires Pairs(xs) == Pairs(ys)
    ensures xs == ys
  {
    PairsAt(xs);
    PairsAt(ys);
    forall k | 0 <= k < |xs| ensures xs[k] == ys[k] {
      assert Pairs(xs)[2 * k] == Pairs(ys)[2 * k];
      assert Pairs(xs)[2 * k + 1] == Pairs(ys)[2 * k + 1];
    }
  }

  /** The grouping loop of LoadAlmanac over the already-parsed numbers of
      the "seeds:" line: t0 t1 t2 t3 ... become (t0, t1), (t2, t3), ... in
      order. An odd count makes the source index past the end and panic,
      which is None here. */
  method GroupSeedPairs(tokens: seq<int>) returns (ranges: Option<seq<SeedRange>>)
    ensures ranges.Some? <==> |tokens| % 2 == 0
    ensures ranges.Some? ==> Pairs(ranges.value) == tokens && 2 * |ranges.value| == |tokens|
  {
    var grouped: seq<SeedRange> := [];
    var i := 0;
    while i < |tokens|
      invariant 0 <= i <= |tokens| && i % 2 == 0
      invariant 2 * |grouped| == i
      invariant Pairs(grouped) == tokens[..i]
    {
      if i + 1 >= |tokens| {
        return None;
      }
      var r := SeedRange(tokens[i], tokens[i + 1]);
      assert (grouped + [r])[..|grouped|] == grouped;
      assert tokens[..i + 2] == tokens[..i] + [tokens[i], tokens[i + 1]];
      grouped := grouped + [r];
      i := i + 2;
    }
    assert tokens[..i] == tokens;
    return Some(grouped);
  }
}
