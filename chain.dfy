/** The almanac's chain of stages, from "seed" to "location", and the
    lowest location over a list of seeds. */
module Chain {
  import Stage
  import opened Minimum

  /** The location of `seed`: every stage applied in slice order, the first
      stage first. */
  function Location(maps: seq<Stage.AlmanacMap>, seed: int): int {
    if maps == [] then seed
    else Stage.Lookup(maps[|maps| - 1], Location(maps[..|maps| - 1], seed))
  }

  /** Almanac.Lookup: `location` is passed through each stage in turn. The
      trace written to the log does not influence the result and is not
      modelled. */
  method Lookup(maps: seq<Stage.AlmanacMap>, seed: int) returns (location: int)
    ensures location == Location(maps, seed)
  {
    location := seed;
    for i := 0 to |maps|
      invariant location == Location(maps[..i], seed)
    {
      assert maps[..i + 1][..i] == maps[..i];
      location := Stage.Lookup(maps[i], location);
    }
    assert maps[..|maps|] == maps;
  }

  /** Running two chains one after the other is running their concatenation. */
  lemma {:induction false} LocationCompose(first: seq<Stage.AlmanacMap>, rest: seq<Stage.AlmanacMap>, seed: int)
    ensures Location(first + rest, seed) == Location(rest, Location(first, seed))
  {
    if rest == [] {
      assert first + rest == first;
    } else {
      var init := rest[..|rest| - 1];
      assert (first + rest)[..|first + rest| - 1] == first + init;
      LocationCompose(first, init, seed);
    }
  }

  /** The first stage is applied first: the chain is the left fold of the
      stage lookups. */
  lemma LocationInOrder(m: Stage.AlmanacMap, rest: seq<Stage.AlmanacMap>, seed: int)
    ensures Location([m] + rest, seed) == Location(rest, Stage.Lookup(m, seed))
  {
    LocationCompose([m], rest, seed);
    assert [m][..0] == [];
  }

  /** The locations of `seeds`, in the order they are looked up. */
  function Locations(maps: seq<Stage.AlmanacMap>, seeds: seq<int>): seq<int> {
    seq(|seeds|, i requires 0 <= i < |seeds| => Location(maps, seeds[i]))
  }

  /** What a sentinel-based running minimum over the locations of `seeds`
      returns. */
  function LowestOver(maps: seq<Stage.AlmanacMap>, seeds: seq<int>): int {
    RunningLowest(Locations(maps, seeds))
  }

  lemma LocationsAppend(maps: seq<Stage.AlmanacMap>, xs: seq<int>, ys: seq<int>)
    ensures Locations(maps, xs + ys) == Locations(maps, xs) + Locations(maps, ys)
  {
  }

  lemma LowestOverSnoc(maps: seq<Stage.AlmanacMap>, seeds: seq<int>, s: int)
    ensures LowestOver(maps, seeds + [s]) == Step(LowestOver(maps, seeds), Location(maps, s))
  {
    LocationsAppend(maps, seeds, [s]);
    RunningLowestSnoc(Locations(maps, seeds), Location(maps, s));
  }

  /** With non-negative locations, the running minimum is -1 exactly for no
      seeds, and otherwise the location of one of the seeds that no other
      seed's location undercuts. */
  lemma LowestOverIsLeast(maps: seq<Stage.AlmanacMap>, seeds: seq<int>)
    requires forall s :: s in seeds ==> Location(maps, s) >= 0
    ensures LowestOver(maps, seeds) == -1 <==> seeds == []
    ensures seeds != [] ==> exists s :: s in seeds && LowestOver(maps, seeds) == Location(maps, s)
    ensures forall s :: s in seeds ==> LowestOver(maps, seeds) <= Location(maps, s)
  {
    var locs := Locations(maps, seeds);
    assert AllNonNegative(locs) by {
      forall i | 0 <= i < |locs| ensures locs[i] >= 0 {
        assert seeds[i] in seeds;
      }
    }
    RunningLowestIsLeast(locs);
    forall s | s in seeds ensures LowestOver(maps, seeds) <= Location(maps, s) {
      var i :| 0 <= i < |seeds| && seeds[i] == s;
      assert locs[i] == Location(maps, s);
    }
    if seeds != [] {
      var i :| 0 <= i < |locs| && locs[i] == RunningLowest(locs);
      assert seeds[i] in seeds;
    }
  }
}
