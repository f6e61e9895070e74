/** One stage of the almanac: a piecewise translation given by an ordered
    list of entries, each of which moves the half-open interval
    [source, source + sourceRange) to start at destination. */
module Stage {

  datatype Entry = Entry(destination: int, source: int, sourceRange: int)

  /** A "<input>-to-<output> map:" block. The names are carried along but
      take no part in the lookup. */
  datatype AlmanacMap = AlmanacMap(input: string, output: string, entries: seq<Entry>)

  /** Entry `e` is responsible for `v`. */
  predicate Covers(e: Entry, v: int) {
    e.source <= v < e.source + e.sourceRange
  }

  /** Where entry `e` sends a value it covers. */
  function Translate(e: Entry, v: int): int {
    v - e.source + e.destination
  }

  /** The scan over the entries in declaration order, returning at the first
      entry that covers `v`; a value no entry covers is returned unchanged. */
  function LookupEntries(entries: seq<Entry>, v: int): (r: int)
    ensures r == v || exists e :: e in entries && Covers(e, v) && r == Translate(e, v)
    ensures (exists e :: e in entries && Covers(e, v)) ==>
              exists e :: e in entries && Covers(e, v) && r == Translate(e, v)
    ensures (forall e :: e in entries ==> !Covers(e, v)) ==> r == v
  {
    if entries == [] then v
    else if Covers(entries[0], v) then Translate(entries[0], v)
    else LookupEntries(entries[1..], v)
  }

  /** AlmanacMap.Lookup: a value some entry of the map covers moves by that
      entry's offset, and a value no entry covers stays put. */
  function Lookup(m: AlmanacMap, v: int): (r: int)
    ensures r == v || exists e :: e in m.entries && Covers(e, v) && r == Translate(e, v)
    ensures (exists e :: e in m.entries && Covers(e, v)) ==>
              exists e :: e in m.entries && Covers(e, v) && r == Translate(e, v)
    ensures (forall e :: e in m.entries ==> !Covers(e, v)) ==> r == v
  {
    LookupEntries(m.entries, v)
  }

  /** The first covering entry decides; later entries that also cover `v`
      are never consulted. */
  lemma {:induction false} FirstMatchWins(entries: seq<Entry>, v: int, i: int)
    requires 0 <= i < |entries| && Covers(entries[i], v)
    requires forall j :: 0 <= j < i ==> !Covers(entries[j], v)
    ensures LookupEntries(entries, v) == Translate(entries[i], v)
  {
    if i > 0 {
      FirstMatchWins(entries[1..], v, i - 1);
    }
  }

  /** Entries whose source intervals do not overlap, as the puzzle input
      promises (the code does not check it). */
  ghost predicate Disjoint(entries: seq<Entry>) {
    forall i, j, v :: 0 <= i < |entries| && 0 <= j < |entries| && i != j && Covers(entries[i], v) ==> !Covers(entries[j], v)
  }

  /** With disjoint entries any covering entry gives the answer, so the
      declaration order no longer matters. */
  lemma LookupDisjoint(m: AlmanacMap, v: int, i: int)
    requires Disjoint(m.entries)
    requires 0 <= i < |m.entries| && Covers(m.entries[i], v)
    ensures Lookup(m, v) == Translate(m.entries[i], v)
  {
    FirstMatchWins(m.entries, v, i);
  }
}
