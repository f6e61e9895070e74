# Almanac range remapping (Advent of Code 2023, day 5)

This project models the engine that passes seed numbers through an almanac.
The almanac is a chain of stages ("seed-to-soil", …, "humidity-to-location").
Each stage is an ordered list of entries `(destination, source, length)`.
A stage moves a value `v` in `[source, source + length)` to
`v - source + destination`, using the first entry that covers it. A value no
entry covers is left unchanged. The engine returns the lowest location that
any seed reaches. Part one reads the seeds as a flat list. Part two reads
them as `(start, length)` ranges and searches every integer of every range.
It does so sequentially, with one work item per range handed to a pool of
`n` workers, or with fixed-size batches handed to such a pool.

Modules:

- `Stage` (stage.dfy) holds `Entry`, `AlmanacMap` and `AlmanacMap.Lookup`.
- `Chain` (chain.dfy) holds `Almanac.Lookup`, the fold through the stages.
  It also holds `LowestOver`, the running minimum over the locations of a
  list of seeds.
- `Minimum` (minimum.dfy) is the running minimum with its `-1` sentinel,
  written once and shared by every search.
- `Part1` (part1.dfy) holds part one: the flat seed list, `LowestLocation`
  and the lookup test on the sample's first stage.
- `Part2` (part2.dfy) holds part two: `SeedRange`, `End`, `TotalSeeds`, the
  searches over one interval and over one range, the sequential
  `LowestLocation` (as written and corrected), and the grouping of the seed
  line into pairs.
- `Parallel` (parallel.dfy) holds the sequential content of the two
  concurrent strategies: the reduction of worker results, the threaded
  strategy, the batch partition (as written and corrected) and the batched
  strategy.

Part one and part two define `AlmanacMap.Lookup` and `Almanac.Lookup`
identically, so each is modelled once and used by both parts.

Every `LowestLocation…` method except the corrected `Part2.LowestLocation` is
proved against a specification function: `RunningLowest` over the
locations, `PerRange`, `FirstFound`, or `AllBatches`. The corrected
`Part2.LowestLocation` states only what its result means. Where the
sentinel is meaningful, its contract also says what the result means
(`IsLowestLocation`): `-1` when there are no seeds, otherwise the location
of some seed that no seed beats. Go returns `-1` for "no seeds", so the
sentinel only means this when no location is negative. The contracts state
it under that assumption (`NonNegativeLocations`) as an implication, not as
a precondition, because the code itself accepts any input. An empty seed list
yields `-1`, as in the code.

## Model

| member | source | states |
|---|---|---|
| `Stage.LookupEntries` | 2023/day05/part2/main.go:180-187 | The result is either `v` itself or `v - source + destination` for some entry covering `v`; when some entry covers `v` it is such an entry's translation; when no entry covers `v` (in particular with no entries) it is `v` |
| `Stage.FirstMatchWins` | 2023/day05/part2/main.go:180-185 | If entry `i` covers `v` and no earlier entry does, the lookup is entry `i`'s translation of `v`; later overlapping entries are ignored |
| `Stage.LookupDisjoint` | 2023/day05/part1/main_test.go:61-68 | With pairwise disjoint source intervals, any covering entry determines the lookup, so declaration order is irrelevant |
| `Stage.Lookup` | 2023/day05/part2/main.go:180-187 | A value some entry of the map covers moves by a covering entry's offset; a value no entry covers comes back unchanged |
| `Chain.Lookup` | 2023/day05/part2/main.go:148-157 | The loop returns `Location(maps, seed)`, every stage applied in slice order; with no stages that is the seed itself; the log trace plays no part |
| `Chain.LocationCompose` | 2023/day05/part1/main_test.go:38-47 | Running the chain `first + rest` is running `first` and then `rest` on its result |
| `Chain.LocationInOrder` | 2023/day05/part2/main.go:151-153 | The chain is the left fold of the stage lookups: the first stage is applied to the seed first |
| `Chain.LowestOverIsLeast` | 2023/day05/part1/main_test.go:28-35 | With non-negative locations the running minimum is -1 exactly for no seeds, otherwise it equals some seed's location and is at most every seed's location |
| `Minimum.RunningLowestIsLeast` | 2023/day05/part2/main.go:106-111 | Over non-negative values the sentinel scan returns -1 exactly for the empty list, and otherwise an element no element is below |
| `Minimum.RunningLowestOrderFree` | 2023/day05/part2/main.go:107-110 | Any permutation of non-negative results gives the same running minimum |
| `Minimum.RunningLowestAfterReset` | 2023/day05/part2/main.go:54-58 | A -1 anywhere in the scan discards everything before it: the result is the running value of the results after the last -1 |
| `Minimum.RunningLowestAppend` | 2023/day05/part2/main.go:117-129 | Splitting a non-negative scan into two parts and merging the parts' results, skipping an empty part's -1, gives the result of the whole scan |
| `Part1.LoadSeeds` | 2023/day05/part1/main_test.go:75-82 | Each parsed token becomes one seed, in order: the seeds equal the tokens |
| `Part1.LowestLocation` | 2023/day05/part1/main_test.go:27-36 | Returns the running minimum of the seeds' locations; with non-negative locations, -1 iff there are no seeds, otherwise a seed's location that no seed's location undercuts |
| `Part1.LowestLocationOrderFree` | 2023/day05/part1/main_test.go:29-34 | With non-negative locations, permuting the seeds does not change the answer |
| `Part1.SampleSeedToSoilLookups` | 2023/day05/part1/main_test.go:113-129 | On the stage (50 98 2), (52 50 48): 0→0, 1→1, 48→48, 49→49, 50→52, 51→53, 96→98, 97→99, 98→50, 99→51 |
| `Part1.SampleSeedToSoilRule` | 2023/day05/part1/main_test.go:113-129 | On the stage (50 98 2), (52 50 48), for every value: 98..99 move down by 48, 50..97 move up by two, every other value stays put |
| `Part2.End` | 2023/day05/part2/main.go:164-166 | One past the last seed: End lies above Start exactly when the range is non-empty, and End minus the length is Start |
| `Part2.SeedsOfRange` | 2023/day05/part2/main.go:164-166 | The range `[start, End)` with `End = start + range` holds exactly `range` seeds (none if `range <= 0`), the integers from `start` below `End` |
| `Part2.ExpandMembers` | 2023/day05/part2/main.go:119-122 | The seeds the searches visit are exactly the integers lying in some seed range |
| `Part2.TotalSeeds` | 2023/day05/part2/main.go:27-32 | Returns the sum of the range lengths, which is the number of seeds the searches evaluate when no length is negative |
| `Part2.LowestLocationByRange` | 2023/day05/part2/main.go:137-146 | -1 when `start >= end`; otherwise, with non-negative locations, the location of some seed in `[start, end)` that is at most every such seed's location |
| `Part2.LowestLocationBySeedRangeIdx` | 2023/day05/part2/main.go:132-135 | The search over the seeds of range `idx`; non-negative when that range is non-empty and locations are non-negative |
| `Part2.GlobalLowestIsLowest` | 2023/day05/part2/main.go:117-129 | The running minimum over all seeds of all ranges is the answer: -1 for no seeds, else the least location reached |
| `Part2.PerRangeAppend` | 2023/day05/part2/main.go:77-80 | The per-item results of two work lists in a row are the results of the first list followed by those of the second |
| `Part2.PerRangeAgrees` | 2023/day05/part2/main.go:54-60 | With non-empty ranges and non-negative locations, the running minimum over the per-range results equals the running minimum over all seeds |
| `Part2.LowestLocationAsWritten` | 2023/day05/part2/main.go:117-129 | As written: it panics (None) exactly when some range has length zero, through the division by `r.Range` on line 124; otherwise the result is `FirstFound` of the per-range results, the running value being replaced only while negative (line 125) |
| `Part2.AsWrittenPanicsOnEmptyRange` | 2023/day05/part2/main.go:124 | Ranges (7,0) then (5,1), no stages: as written the search panics, while the lowest location is 5 |
| `Part2.FirstFoundKeepsFirst` | 2023/day05/part2/main.go:125-127 | As written, the result is the per-range result of the first range whose result is non-negative |
| `Part2.AsWrittenMissesMinimum` | 2023/day05/part2/main.go:125 | Ranges (5,1) then (2,1), no stages: as written the answer is 5, while the lowest location is 2 |
| `Part2.LowestLocation` | 2023/day05/part2/main.go:117-129 | Corrected: always returns, without the per-seed timing division, and with non-negative locations the result is the lowest location over every seed of every range (-1 for none), empty ranges included |
| `Part2.GroupSeedPairs` | 2023/day05/part2/main.go:194-209 | Tokens `t0 t1 t2 t3 …` become ranges `(t0,t1), (t2,t3), …` in order (flattening them gives the tokens back); an odd count fails |
| `Part2.PairsInjective` | 2023/day05/part2/main.go:196-208 | The grouping is the only range list that flattens to the tokens |
| `Parallel.Reduce` | 2023/day05/part2/main.go:105-111 | The result loop returns the running minimum of the results in arrival order; over non-negative results -1 iff none arrived, otherwise the least result |
| `Parallel.LowestLocationThreaded` | 2023/day05/part2/main.go:34-64 | One search per range, reduced; with non-empty ranges and non-negative locations the result is the lowest location |
| `Parallel.ThreadedArrivalOrderFree` | 2023/day05/part2/main.go:50-60 | With non-negative locations and non-empty ranges, every arrival order of the per-range results reduces to the lowest location |
| `Parallel.EmptyRangeResetsMinimum` | 2023/day05/part2/main.go:54-60 | Ranges (0,1) and (7,0), no stages, results in dispatch order: the empty range's -1 resets the reduction, which returns -1 although the lowest location is 0 |
| `Parallel.EmptyRangeArrivingFirst` | 2023/day05/part2/main.go:50-60 | On the same ranges, the arrival order in which the empty range's -1 comes first is a permutation of the results and reduces to the right answer 0 |
| `Parallel.DispatchAsWritten` | 2023/day05/part2/main.go:89-94 | Item `k` starts at `r.Start + k*batchSize`, below `r.End()`, with length `min(batchSize, r.Range)`; the items cover every seed of the range |
| `Parallel.AsWrittenShape` | 2023/day05/part2/main.go:89-93 | Every item as written is `(b + k*size, width)` with a start below the end |
| `Parallel.AsWrittenCovers` | 2023/day05/part2/main.go:89-94 | The items as written cover every seed of `[Start, End)` |
| `Parallel.AsWrittenOvershoots` | 2023/day05/part2/main.go:92 | Range (0,5), batch size 3: the last item (3,3) reaches seed 5 outside the range, and one stage mapping [0,5) to [10,15) gives a batched answer of 5 instead of 10 |
| `Parallel.BatchesPartition` | 2023/day05/part2/main.go:89-94 | In order, the clipped batches hold exactly the seeds of `[start, end)` |
| `Parallel.BatchesBounded` | 2023/day05/part2/main.go:89-93 | Every clipped batch is non-empty and holds at most `size` seeds |
| `Parallel.Dispatch` | 2023/day05/part2/main.go:86-94 | Corrected dispatcher: its items partition the range into non-empty batches of at most `batchSize` seeds |
| `Parallel.AllBatchesPartition` | 2023/day05/part2/main.go:87-96 | All work items of all ranges together hold exactly the seeds of all ranges, each item non-empty |
| `Parallel.Work` | 2023/day05/part2/main.go:76-81 | The workers' loop gives one result per work item, in item order: the running minimum of the item's seeds' locations |
| `Parallel.BatchedIsLowest` | 2023/day05/part2/main.go:66-115 | For any positive batch size and non-negative locations, the reduced per-batch results are the lowest location |
| `Parallel.LowestLocationThreadedBatched` | 2023/day05/part2/main.go:66-115 | With the clipped dispatcher, the reduced batch results are the lowest location whenever locations are non-negative |
| `Parallel.BatchedArrivalOrderFree` | 2023/day05/part2/main.go:77-80 | With non-negative locations, every arrival order of the batch results reduces to the lowest location |
| `Parallel.BatchSizeIrrelevant` | 2023/day05/part2/main.go:66-115 | With non-negative locations, any two positive batch sizes give the same result, equal to the unbatched running minimum over all seeds |

## Left out

- Goroutines, channels, `sync.WaitGroup` and the worker pool (2023/day05/part2/main.go:36-52, 68-103) are not modelled. Each strategy is a sequential method. The `…ArrivalOrderFree` lemmas cover every order in which results can arrive.
- The worker count `n` of both concurrent strategies is not modelled: the results do not depend on it. With `n == 0` and some work both strategies deadlock (2023/day05/part2/main.go:50-52, 86-90); with `n < 0` the threaded one deadlocks on any work and the batched one panics at `wg.Add(n)` (line 73), work or not. The model captures none of these.
- Parallel.LowestLocationThreaded: results are taken in dispatch order. Other arrival orders are covered by `ThreadedArrivalOrderFree`. The answer is stated only when no range is empty (see the findings).
- Parallel.LowestLocationThreadedBatched: uses the corrected dispatcher, which clips the last batch. The dispatcher as written is `DispatchAsWritten`.
- Part2.LowestLocation: the answer is stated only when every location is non-negative. Otherwise the `-1` sentinel can be confused with a real location.
- Part1.LowestLocation: the least-location property is stated only when every location is non-negative, for the same reason.
- Part2.LowestLocationBySeedRangeIdx: requires a valid index. Go would panic on a bad one, but its callers only pass indexes of `SeedRanges`.
- Parallel.Dispatch: requires `batchSize > 0`. With 0 the source loop never advances on a non-empty range, and with a negative size it never ends with unbounded integers (Go's 64-bit `b += batchSize` can wrap around and stop it); on an empty range either size emits nothing, which the model does not state.
- Parallel.DispatchAsWritten: requires `batchSize > 0`, for the same reason.
- Parallel.LowestLocationThreadedBatched: requires `batchSize > 0`. With 0 and some non-empty range the dispatcher never finishes; with every range empty the source would still return -1, which the model does not state.
- Go's `int` is 64 bits wide. The model uses unbounded integers, so overflow in `Source+SourceRange`, `Start+Range`, `b += batchSize` and the location arithmetic is not modelled.
- The `Log io.Writer` trace, `time.Now`/`time.Since` and the `fmt.Print…` calls are diagnostic output and do not affect results, with one exception: the division by `r.Range` on line 124 of 2023/day05/part2/main.go panics on an empty range, which `Part2.LowestLocationAsWritten` models as None. The printed text and timings themselves are not modelled.
- `LoadAlmanac`'s text scanning is not modelled: the scanner, `strconv.Atoi`, `fmt.Fscanf`, header splitting, appending entries and maps, and panics on parse errors. Only the handling of the already-parsed seed numbers is modelled (`Part1.LoadSeeds`, `Part2.GroupSeedPairs`).
- `//go:embed`, `take1`/`take2`/`take3`, `main`, and `Test_sample`/`Test_input` are not modelled. The last two print and assert nothing.
- sample.txt and input.txt are not part of this model. The end-to-end answers for the sample (35 and 46) are therefore not stated. Only the first-stage table of `Test_Lookup` is.

## Findings

| source | as written | input that shows it | evidently intended | confidence | as-written member | corrected member |
|---|---|---|---|---|---|---|
| 2023/day05/part2/main.go:125 | `lowestInRange < lowestInRange` is never true, so the first non-negative per-range result is kept for good | ranges (5,1) then (2,1), no stages: answers 5, lowest location is 2 | `lowestInRange < lowest` | high; not executed | `Part2.AsWrittenMissesMinimum` | `Part2.LowestLocation` |
| 2023/day05/part2/main.go:92 | `Range: min(batchSize, r.Range)` lets the last batch run past `r.End()`, so seeds outside the range are searched | range (0,5), batch size 3, one stage (10 0 5): seed 5 is searched and the answer is 5 instead of 10 | clip the last batch: `min(batchSize, r.End()-b)` | high; not executed | `Parallel.AsWrittenOvershoots` | `Parallel.Dispatch` |
| 2023/day05/part2/main.go:57 | a zero-length range reports -1; the `lowest < 0` test takes it and discards every result before it, so the answer is the running minimum of the results arriving after the last -1 | ranges (0,1) and (7,0), no stages, results in dispatch order: answers -1, lowest location is 0 | skip the -1 of an empty range | medium (puzzle inputs have no empty ranges); not executed | `Parallel.EmptyRangeResetsMinimum` | `Part2.LowestLocation` |
| 2023/day05/part2/main.go:124 | `elapsed/time.Duration(r.Range)` divides by zero on a zero-length range, so the search panics before comparing results | ranges (7,0) then (5,1), no stages: panics, lowest location is 5 | compute the per-seed timing only for a non-empty range | high; not executed | `Part2.AsWrittenPanicsOnEmptyRange` | `Part2.LowestLocation` |
