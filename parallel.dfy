/** The sequential content of the two concurrent strategies of part two:
    how the work is cut up and how the workers' results are combined. The
    goroutines, channels and wait group only decide the order in which the
    results arrive; each strategy is modelled as its sequential equivalent,
    and a lemma covers every arrival order. */
module Parallel {
  import Stage
  import opened Minimum
  import opened Chain
  import opened Part2

  /** The loop that drains the results channel: the running minimum, from
      -1, over the results in arrival order. Over non-negative results it is
      -1 exactly when there are none, and otherwise the least result. */
  method Reduce(results: seq<int>) returns (lowest: int)
    ensures lowest == RunningLowest(results)
    ensures AllNonNegative(results) ==>
              (lowest == -1 <==> results == []) && (results != [] ==> IsLeast(lowest, results))
  {
    lowest := -1;
    for i := 0 to |results|
      invariant lowest == RunningLowest(results[..i])
    {
      RunningLowestSnoc(results[..i], results[i]);
      assert results[..i + 1] == results[..i] + [results[i]];
      if lowest < 0 || results[i] < lowest {
        lowest := results[i];
      }
    }
    assert results[..|results|] == results;
    if AllNonNegative(results) {
      RunningLowestIsLeast(results);
    }
  }

  /** Almanac.LowestLocationThreaded with the results taken in dispatch
      order: one search per range, then the reduction. When every range is
      non-empty and every location non-negative, it is the puzzle's answer. */
  method LowestLocationThreaded(a: Almanac) returns (lowest: int)
    ensures lowest == RunningLowest(PerRange(a.maps, a.seedRanges))
    ensures NonNegativeLocations(a) && (forall k :: 0 <= k < |a.seedRanges| ==> a.seedRanges[k].range > 0) ==>
              IsLowestLocation(a, lowest)
  {
    var results: seq<int> := [];
    for idx := 0 to |a.seedRanges|
      invariant results == PerRange(a.maps, a.seedRanges[..idx])
    {
      var res := LowestLocationBySeedRangeIdx(a, idx);
      assert a.seedRanges[..idx + 1][..idx] == a.seedRanges[..idx];
      results := results + [res];
    }
    assert a.seedRanges[..|a.seedRanges|] == a.seedRanges;
    lowest := Reduce(results);
    if NonNegativeLocations(a) && forall k :: 0 <= k < |a.seedRanges| ==> a.seedRanges[k].range > 0 {
      FlatNonNegative(a.maps, a.seedRanges);
      PerRangeAgrees(a.maps, a.seedRanges);
      GlobalLowestIsLowest(a);
    }
  }

  /** Whatever order the workers' results arrive in, the threaded strategy
      gives the puzzle's answer, provided no range is empty. */
  lemma ThreadedArrivalOrderFree(a: Almanac, arrival: seq<int>)
    requires multiset(arrival) == multiset(PerRange(a.maps, a.seedRanges))
    requires NonNegativeLocations(a)
    requires forall k :: 0 <= k < |a.seedRanges| ==> a.seedRanges[k].range > 0
    ensures IsLowestLocation(a, RunningLowest(arrival))
  {
    FlatNonNegative(a.maps, a.seedRanges);
    PerRangeAgrees(a.maps, a.seedRanges);
    RunningLowestOrderFree(PerRange(a.maps, a.seedRanges), arrival);
    GlobalLowestIsLowest(a);
  }

  /** An empty range reports -1, and the reduction's `lowest < 0` test then
      throws away everything seen so far: with the ranges [0, 1) and an
      empty one at 7, and the results arriving in dispatch order, the
      threaded strategy answers -1 instead of 0. */
  lemma EmptyRangeResetsMinimum()
    ensures var a := Almanac([SeedRange(0, 1), SeedRange(7, 0)], []);
            RunningLowest(PerRange(a.maps, a.seedRanges)) == -1 && IsLowestLocation(a, 0)
  {
    var a := Almanac([SeedRange(0, 1), SeedRange(7, 0)], []);
    assert Span(0, 1) == [0] && Span(7, 7) == [];
    assert a.seedRanges[..1] == [SeedRange(0, 1)];
    assert PerRange(a.maps, a.seedRanges) == [0, -1];
    assert [0, -1][..1] == [0];
    assert InSomeRange(0, a.seedRanges);
    forall s | InSomeRange(s, a.seedRanges) ensures 0 <= Location(a.maps, s) {
    }
  }

  /** In general the threaded answer is the running minimum of the results
      that arrive after the last -1: on the same ranges, the arrival order
      in which the empty range finishes first gives the right answer 0. */
  lemma EmptyRangeArrivingFirst()
    ensures multiset([-1, 0]) == multiset(PerRange([], [SeedRange(0, 1), SeedRange(7, 0)]))
    ensures RunningLowest([-1, 0]) == 0
  {
    EmptyLastResults();
    assert multiset([-1, 0]) == multiset([0, -1]);
    assert [-1, 0][..1] == [-1] && [-1][..0] == [];
  }

  /** The per-range results of the ranges [0, 1) and an empty one at 7,
      with no stages, in dispatch order. */
  lemma EmptyLastResults()
    ensures PerRange([], [SeedRange(0, 1), SeedRange(7, 0)]) == [0, -1]
  {
    assert Span(0, 1) == [0] && Span(7, 7) == [];
    assert [SeedRange(0, 1), SeedRange(7, 0)][..1] == [SeedRange(0, 1)];
  }

  /** The work items the batch loop emits as written: starts b, b + size,
      ... below `end`, every one `width` seeds long. */
  function AsWrittenBatches(b: int, end: int, width: int, size: int): seq<SeedRange>
    requires size > 0
    decreases end - b
  {
    if b < end then [SeedRange(b, width)] + AsWrittenBatches(b + size, end, width, size) else []
  }

  /** The batch loop of LowestLocationThreadedBatched exactly as written:
      `Range: min(batchSize, r.Range)` for every item. */
  method DispatchAsWritten(r: SeedRange, batchSize: int) returns (items: seq<SeedRange>)
    requires batchSize > 0
    ensures items == AsWrittenBatches(r.start, End(r), Min(batchSize, r.range), batchSize)
    ensures forall k :: 0 <= k < |items| ==>
              items[k] == SeedRange(r.start + k * batchSize, Min(batchSize, r.range)) && items[k].start < End(r)
    ensures forall s :: r.start <= s < End(r) ==> InSomeRange(s, items)
  {
    items := [];
    var b := r.start;
    while b < End(r)
      invariant items + AsWrittenBatches(b, End(r), Min(batchSize, r.range), batchSize)
                == AsWrittenBatches(r.start, End(r), Min(batchSize, r.range), batchSize)
      decreases End(r) - b
    {
      items := items + [SeedRange(b, Min(batchSize, r.range))];
      b := b + batchSize;
    }
    AsWrittenShape(r.start, End(r), Min(batchSize, r.range), batchSize);
    forall s | r.start <= s < End(r) ensures InSomeRange(s, items) {
      AsWrittenCovers(r.start, End(r), Min(batchSize, r.range), batchSize, s);
    }
  }

  /** The items as written: the k-th starts k batch sizes after `b`, every
      start lies below `end`, and every item has the same width. */
  lemma {:induction false} AsWrittenShape(b: int, end: int, width: int, size: int)
    requires size > 0
    ensures forall k :: 0 <= k < |AsWrittenBatches(b, end, width, size)| ==>
              AsWrittenBatches(b, end, width, size)[k] == SeedRange(b + k * size, width) &&
              b + k * size < end
    decreases end - b
  {
    if b < end {
      var items := AsWrittenBatches(b, end, width, size);
      var rest := AsWrittenBatches(b + size, end, width, size);
      AsWrittenShape(b + size, end, width, size);
      forall k | 1 <= k < |items|
        ensures items[k] == SeedRange(b + k * size, width) && b + k * size < end
      {
        assert items[k] == rest[k - 1];
        assert rest[k - 1] == SeedRange(b + size + (k - 1) * size, width);
        assert b + size + (k - 1) * size == b + k * size;
      }
    }
  }

  /** The items as written cover every seed of the range they were cut
      from. */
  lemma {:induction false} AsWrittenCovers(b: int, end: int, width: int, size: int, s: int)
    requires size > 0
    requires width >= size || b + width >= end
    requires b <= s < end
    ensures InSomeRange(s, AsWrittenBatches(b, end, width, size))
    decreases end - b
  {
    var items := AsWrittenBatches(b, end, width, size);
    if s < b + size {
      assert items[0] == SeedRange(b, width);
    } else {
      var rest := AsWrittenBatches(b + size, end, width, size);
      AsWrittenCovers(b + size, end, width, size, s);
      var k :| 0 <= k < |rest| && rest[k].start <= s < End(rest[k]);
      assert items[k + 1] == rest[k];
    }
  }

  /** One stage moving [0, 5) to [10, 15) and leaving every other value in
      place. */
  const ShiftLow := [Stage.AlmanacMap("seed", "location", [Stage.Entry(10, 0, 5)])]

  lemma ShiftLowLocation(s: int)
    ensures Location(ShiftLow, s) == if 0 <= s < 5 then s + 10 else s
  {
    assert ShiftLow[..0] == [];
    assert Location(ShiftLow, s) == Stage.Lookup(ShiftLow[0], s);
  }

  /** The seed range [0, 5) cut into batches of 3 as written: the second
      item [3, 6) runs past the end of the range, so seed 5 is searched
      too. Through ShiftLow seed 5 stays at 5, so the batched search answers
      5 although the answer for the range is 10. */
  lemma AsWrittenOvershoots()
    ensures var r := SeedRange(0, 5);
            var items := AsWrittenBatches(r.start, End(r), Min(3, r.range), 3);
            items == [SeedRange(0, 3), SeedRange(3, 3)] &&
            InSomeRange(5, items) && !InSomeRange(5, [r]) &&
            RunningLowest(PerRange(ShiftLow, items)) == 5 &&
            IsLowestLocation(Almanac([r], ShiftLow), 10)
  {
    var r := SeedRange(0, 5);
    var items := AsWrittenBatches(0, 5, 3, 3);
    assert items == [SeedRange(0, 3), SeedRange(3, 3)] by {
      assert AsWrittenBatches(6, 5, 3, 3) == [];
    }
    assert InSomeRange(5, items) by {
      assert items[1].start <= 5 < End(items[1]);
    }
    BatchedOvershootAnswer();
    RangeAnswer();
  }

  /** The two as-written items of range (0, 5) at batch size 3 search
      seed 5, which the stage leaves at location 5. */
  lemma BatchedOvershootAnswer()
    ensures RunningLowest(PerRange(ShiftLow, [SeedRange(0, 3), SeedRange(3, 3)])) == 5
  {
    var items := [SeedRange(0, 3), SeedRange(3, 3)];
    forall s | InSomeRange(s, items) ensures Location(ShiftLow, s) >= 5 {
      ShiftLowLocation(s);
    }
    FlatNonNegative(ShiftLow, items);
    PerRangeAgrees(ShiftLow, items);
    var seeds := Expand(items);
    ExpandMembers(items);
    assert InSomeRange(5, items) by {
      assert items[1].start <= 5 < End(items[1]);
    }
    LowestOverIsLeast(ShiftLow, seeds);
    ShiftLowLocation(5);
    var w :| w in seeds && LowestOver(ShiftLow, seeds) == Location(ShiftLow, w);
    ShiftLowLocation(w);
  }

  /** Over the range (0, 5) itself the answer is 10. */
  lemma RangeAnswer()
    ensures IsLowestLocation(Almanac([SeedRange(0, 5)], ShiftLow), 10)
  {
    var a := Almanac([SeedRange(0, 5)], ShiftLow);
    ShiftLowLocation(0);
    assert InSomeRange(0, a.seedRanges) by {
      assert a.seedRanges[0].start <= 0 < End(a.seedRanges[0]);
    }
    forall s | InSomeRange(s, a.seedRanges) ensures 10 <= Location(ShiftLow, s) {
      ShiftLowLocation(s);
    }
  }

  /** The batches the dispatcher should emit: consecutive items of
      `size` seeds, the last one clipped at `end`. */
  function Batches(start: int, end: int, size: int): seq<SeedRange>
    requires size > 0
    decreases end - start
  {
    if start < end then [SeedRange(start, Min(size, end - start))] + Batches(start + size, end, size) else []
  }

  /** In order, the batches hold exactly the seeds of [start, end). */
  lemma {:induction false} BatchesPartition(start: int, end: int, size: int)
    requires size > 0
    ensures Expand(Batches(start, end, size)) == Span(start, end)
    decreases end - start
  {
    if start < end {
      var mid := start + Min(size, end - start);
      var rest := Batches(start + size, end, size);
      BatchesPartition(start + size, end, size);
      if mid == end {
        assert rest == [];
      }
      PartitionStep(SeedRange(start, mid - start), rest, end);
    }
  }

  /** One more range in front of a partition of [End(first), end) gives a
      partition of [first.start, end). */
  lemma PartitionStep(first: SeedRange, rest: seq<SeedRange>, end: int)
    requires 0 <= first.range && End(first) <= end
    requires Expand(rest) == Span(End(first), end)
    ensures Expand([first] + rest) == Span(first.start, end)
  {
    ExpandCons(first, rest);
    SpanSplit(first.start, End(first), end);
  }

  /** Every batch is non-empty and holds at most `size` seeds. */
  lemma {:induction false} BatchesBounded(start: int, end: int, size: int)
    requires size > 0
    ensures forall k :: 0 <= k < |Batches(start, end, size)| ==>
              0 < Batches(start, end, size)[k].range <= size
    decreases end - start
  {
    if start < end {
      var items := Batches(start, end, size);
      var rest := Batches(start + size, end, size);
      BatchesBounded(start + size, end, size);
      forall k | 0 <= k < |items| ensures 0 < items[k].range <= size {
        if k > 0 {
          assert items[k] == rest[k - 1];
        }
      }
    }
  }

  lemma ExpandCons(r: SeedRange, rest: seq<SeedRange>)
    ensures Expand([r] + rest) == Seeds(r) + Expand(rest)
  {
    ExpandAppend([r], rest);
    assert [r][..0] == [];
  }

  /** The batch loop with the last item clipped at the end of the range:
      the items partition the range into non-empty batches of at most
      `batchSize` seeds. */
  method Dispatch(r: SeedRange, batchSize: int) returns (items: seq<SeedRange>)
    requires batchSize > 0
    ensures items == Batches(r.start, End(r), batchSize)
    ensures Expand(items) == Seeds(r)
    ensures forall k :: 0 <= k < |items| ==> 0 < items[k].range <= batchSize
  {
    items := [];
    var b := r.start;
    while b < End(r)
      invariant items + Batches(b, End(r), batchSize) == Batches(r.start, End(r), batchSize)
      decreases End(r) - b
    {
      items := items + [SeedRange(b, Min(batchSize, End(r) - b))];
      b := b + batchSize;
    }
    BatchesPartition(r.start, End(r), batchSize);
    BatchesBounded(r.start, End(r), batchSize);
  }

  /** Every work item, range after range. */
  function AllBatches(ranges: seq<SeedRange>, size: int): seq<SeedRange>
    requires size > 0
  {
    if ranges == [] then []
    else AllBatches(ranges[..|ranges| - 1], size) + Batches(ranges[|ranges| - 1].start, End(ranges[|ranges| - 1]), size)
  }

  lemma {:induction false} AllBatchesPartition(ranges: seq<SeedRange>, size: int)
    requires size > 0
    ensures Expand(AllBatches(ranges, size)) == Expand(ranges)
    ensures forall k :: 0 <= k < |AllBatches(ranges, size)| ==> AllBatches(ranges, size)[k].range > 0
  {
    if ranges != [] {
      var init, last := ranges[..|ranges| - 1], ranges[|ranges| - 1];
      AllBatchesPartition(init, size);
      BatchesPartition(last.start, End(last), size);
      BatchesBounded(last.start, End(last), size);
      ExpandAppend(AllBatches(init, size), Batches(last.start, End(last), size));
    }
  }

  lemma AllBatchesSnoc(ranges: seq<SeedRange>, idx: int, size: int)
    requires size > 0 && 0 <= idx < |ranges|
    ensures AllBatches(ranges[..idx + 1], size)
         == AllBatches(ranges[..idx], size) + Batches(ranges[idx].start, End(ranges[idx]), size)
  {
    assert ranges[..idx + 1][..idx] == ranges[..idx];
  }

  /** Over non-negative locations, the per-batch results of any batch size
      reduce to the puzzle's answer. */
  lemma BatchedIsLowest(a: Almanac, size: int)
    requires size > 0
    requires NonNegativeLocations(a)
    ensures IsLowestLocation(a, RunningLowest(PerRange(a.maps, AllBatches(a.seedRanges, size))))
  {
    AllBatchesPartition(a.seedRanges, size);
    FlatNonNegative(a.maps, a.seedRanges);
    PerRangeAgrees(a.maps, AllBatches(a.seedRanges, size));
    GlobalLowestIsLowest(a);
  }

  /** The workers' loop over the work channel: one search per item, the
      results in the order the items were taken. */
  method Work(a: Almanac, work: seq<SeedRange>) returns (results: seq<int>)
    ensures results == PerRange(a.maps, work)
  {
    results := [];
    for j := 0 to |work|
      invariant results == PerRange(a.maps, work[..j])
    {
      var res := LowestLocationByRange(a, work[j].start, End(work[j]));
      PerRangeSnoc(a.maps, work[..j], work[j]);
      assert work[..j + 1] == work[..j] + [work[j]];
      results := results + [res];
    }
    assert work[..|work|] == work;
  }

  /** Almanac.LowestLocationThreadedBatched with the clipped dispatcher and
      the results taken in dispatch order: the puzzle's answer whenever the
      locations are non-negative, whatever the batch size. */
  method LowestLocationThreadedBatched(a: Almanac, batchSize: int) returns (lowest: int)
    requires batchSize > 0
    ensures lowest == RunningLowest(PerRange(a.maps, AllBatches(a.seedRanges, batchSize)))
    ensures NonNegativeLocations(a) ==> IsLowestLocation(a, lowest)
  {
    var results: seq<int> := [];
    for idx := 0 to |a.seedRanges|
      invariant results == PerRange(a.maps, AllBatches(a.seedRanges[..idx], batchSize))
    {
      var batch := Dispatch(a.seedRanges[idx], batchSize);
      var out := Work(a, batch);
      AllBatchesSnoc(a.seedRanges, idx, batchSize);
      PerRangeAppend(a.maps, AllBatches(a.seedRanges[..idx], batchSize), batch);
      results := results + out;
    }
    assert a.seedRanges[..|a.seedRanges|] == a.seedRanges;
    lowest := Reduce(results);
    if NonNegativeLocations(a) {
      BatchedIsLowest(a, batchSize);
    }
  }

  /** Whatever order the batch results arrive in, the batched strategy gives
      the puzzle's answer. */
  lemma BatchedArrivalOrderFree(a: Almanac, batchSize: int, arrival: seq<int>)
    requires batchSize > 0
    requires multiset(arrival) == multiset(PerRange(a.maps, AllBatches(a.seedRanges, batchSize)))
    requires NonNegativeLocations(a)
    ensures IsLowestLocation(a, RunningLowest(arrival))
  {
    var items := AllBatches(a.seedRanges, batchSize);
    AllBatchesPartition(a.seedRanges, batchSize);
    FlatNonNegative(a.maps, a.seedRanges);
    PerRangeAgrees(a.maps, items);
    RunningLowestOrderFree(PerRange(a.maps, items), arrival);
    BatchedIsLowest(a, batchSize);
  }

  /** The batch size does not change the batched result, and neither does
      batching at all. */
  lemma BatchSizeIrrelevant(a: Almanac, size1: int, size2: int)
    requires size1 > 0 && size2 > 0
    requires NonNegativeLocations(a)
    ensures RunningLowest(PerRange(a.maps, AllBatches(a.seedRanges, size1)))
         == RunningLowest(PerRange(a.maps, AllBatches(a.seedRanges, size2)))
         == LowestOver(a.maps, Expand(a.seedRanges))
  {
    FlatNonNegative(a.maps, a.seedRanges);
    AllBatchesPartition(a.seedRanges, size1);
    AllBatchesPartition(a.seedRanges, size2);
    PerRangeAgrees(a.maps, AllBatches(a.seedRanges, size1));
    PerRangeAgrees(a.maps, AllBatches(a.seedRanges, size2));
  }
}
