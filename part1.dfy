/** Part one: the almanac lists individual seeds, and the answer is the
    lowest location any of them reaches. */
module Part1 {
  import Stage
  import opened Chain

  datatype Almanac = Almanac(seeds: seq<int>, maps: seq<Stage.AlmanacMap>)

  /** The "seeds:" line after its tokens have been read as integers: each
      token becomes one seed, in the order written. */
  method LoadSeeds(tokens: seq<int>) returns (seeds: seq<int>)
    ensures seeds == tokens
  {
    seeds := [];
    for i := 0 to |tokens|
      invariant seeds == tokens[..i]
    {
      seeds := seeds + [tokens[i]];
    }
  }

  /** Almanac.LowestLocation: the running minimum, from -1, of the location
      of every seed. When no location is negative, -1 means "no seeds" and
      any other result is the location of some seed that no seed beats. */
  method LowestLocation(a: Almanac) returns (lowest: int)
    ensures lowest == LowestOver(a.maps, a.seeds)
    ensures (forall s :: s in a.seeds ==> Location(a.maps, s) >= 0) ==>
              (lowest == -1 <==> a.seeds == []) &&
              (a.seeds != [] ==> exists s :: s in a.seeds && lowest == Location(a.maps, s)) &&
              (forall s :: s in a.seeds ==> lowest <= Location(a.maps, s))
  {
    lowest := -1;
    for i := 0 to |a.seeds|
      invariant lowest == LowestOver(a.maps, a.seeds[..i])
    {
      var location := Chain.Lookup(a.maps, a.seeds[i]);
      assert a.seeds[..i + 1] == a.seeds[..i] + [a.seeds[i]];
      LowestOverSnoc(a.maps, a.seeds[..i], a.seeds[i]);
      if lowest < 0 || location < lowest {
        lowest := location;
      }
    }
    assert a.seeds[..|a.seeds|] == a.seeds;
    if forall s :: s in a.seeds ==> Location(a.maps, s) >= 0 {
      LowestOverIsLeast(a.maps, a.seeds);
    }
  }

  /** Reordering the seeds does not change the answer. */
  lemma LowestLocationOrderFree(a: Almanac, b: Almanac)
    requires a.maps == b.maps && multiset(a.seeds) == multiset(b.seeds)
    requires forall s :: s in a.seeds ==> Location(a.maps, s) >= 0
    ensures LowestOver(a.maps, a.seeds) == LowestOver(b.maps, b.seeds)
  {
    assert forall s :: s in a.seeds <==> s in b.seeds by {
      forall s ensures s in a.seeds <==> s in b.seeds {
        assert s in a.seeds <==> s in multiset(a.seeds);
        assert s in b.seeds <==> s in multiset(b.seeds);
      }
    }
    LowestOverIsLeast(a.maps, a.seeds);
    LowestOverIsLeast(b.maps, b.seeds);
    if a.seeds != [] {
      var x :| x in a.seeds && LowestOver(a.maps, a.seeds) == Location(a.maps, x);
      var y :| y in b.seeds && LowestOver(b.maps, b.seeds) == Location(b.maps, y);
    } else {
      assert b.seeds == [] by {
        assert |b.seeds| == |multiset(b.seeds)| == 0;
      }
    }
  }

  /** The seed-to-soil stage of the sample almanac. */
  const SampleSeedToSoil := Stage.AlmanacMap("seed", "soil", [Stage.Entry(50, 98, 2), Stage.Entry(52, 50, 48)])

  /** The expectations of the lookup test on the sample's first stage:
      values outside both entries stay put, 50..97 move up by two, and
      98..99 move down to 50..51. */
  lemma SampleSeedToSoilLookups()
    ensures Stage.Lookup(SampleSeedToSoil, 0) == 0
    ensures Stage.Lookup(SampleSeedToSoil, 1) == 1
    ensures Stage.Lookup(SampleSeedToSoil, 48) == 48
    ensures Stage.Lookup(SampleSeedToSoil, 49) == 49
    ensures Stage.Lookup(SampleSeedToSoil, 50) == 52
    ensures Stage.Lookup(SampleSeedToSoil, 51) == 53
    ensures Stage.Lookup(SampleSeedToSoil, 96) == 98
    ensures Stage.Lookup(SampleSeedToSoil, 97) == 99
    ensures Stage.Lookup(SampleSeedToSoil, 98) == 50
    ensures Stage.Lookup(SampleSeedToSoil, 99) == 51
  {
    SampleSeedToSoilRule(0);
    SampleSeedToSoilRule(1);
    SampleSeedToSoilRule(48);
    SampleSeedToSoilRule(49);
    SampleSeedToSoilRule(50);
    SampleSeedToSoilRule(51);
    SampleSeedToSoilRule(96);
    SampleSeedToSoilRule(97);
    SampleSeedToSoilRule(98);
    SampleSeedToSoilRule(99);
  }

  /** The sample's first stage as a rule: 98..99 move down by 48, 50..97
      move up by two, and every other value stays put. */
  lemma SampleSeedToSoilRule(v: int)
    ensures Stage.Lookup(SampleSeedToSoil, v) ==
              if 98 <= v < 100 then v - 48 else if 50 <= v < 98 then v + 2 else v
  {
    var entries := SampleSeedToSoil.entries;
    var rest := entries[1..];
    assert rest == [Stage.Entry(52, 50, 48)];
    assert Stage.Lookup(SampleSeedToSoil, v) == Stage.LookupEntries(entries, v);
    if 98 <= v < 100 {
      assert Stage.Covers(entries[0], v);
    } else {
      assert !Stage.Covers(entries[0], v);
      assert Stage.LookupEntries(entries, v) == Stage.LookupEntries(rest, v);
      if 50 <= v < 98 {
        assert Stage.Covers(rest[0], v);
      } else {
        assert !Stage.Covers(rest[0], v);
        assert rest[1..] == [];
        assert Stage.LookupEntries(rest, v) == Stage.LookupEntries([], v);
      }
    }
  }
}
