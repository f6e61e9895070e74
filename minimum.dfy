/** The running minimum every search of the almanac performs: the running
    value starts at -1, meaning "nothing seen yet", and a candidate replaces
    it when the running value is still negative or the candidate is smaller. */
module Minimum {

  /** One update `if lowest < 0 || x < lowest { lowest = x }`. */
  function Step(lowest: int, x: int): int {
    if lowest < 0 || x < lowest then x else lowest
  }

  /** The running value after scanning `xs` from left to right. */
  function RunningLowest(xs: seq<int>): int {
    if xs == [] then -1 else Step(RunningLowest(xs[..|xs| - 1]), xs[|xs| - 1])
  }

  ghost predicate AllNonNegative(xs: seq<int>) {
    forall i :: 0 <= i < |xs| ==> xs[i] >= 0
  }

  /** `m` occurs in `xs` and no element of `xs` is below it. */
  ghost predicate IsLeast(m: int, xs: seq<int>) {
    m in xs && forall i :: 0 <= i < |xs| ==> m <= xs[i]
  }

  lemma RunningLowestSnoc(xs: seq<int>, x: int)
    ensures RunningLowest(xs + [x]) == Step(RunningLowest(xs), x)
  {
    assert (xs + [x])[..|xs|] == xs;
  }

  lemma AllNonNegativeAppend(xs: seq<int>, ys: seq<int>)
    ensures AllNonNegative(xs + ys) <==> AllNonNegative(xs) && AllNonNegative(ys)
  {
    if AllNonNegative(xs + ys) {
      forall i | 0 <= i < |xs| ensures xs[i] >= 0 {
        assert (xs + ys)[i] == xs[i];
      }
      forall i | 0 <= i < |ys| ensures ys[i] >= 0 {
        assert (xs + ys)[|xs| + i] == ys[i];
      }
    }
  }

  /** Over non-negative values the sentinel is exact: -1 comes back only
      for the empty scan, and otherwise the result is the least element. */
  lemma {:induction false} RunningLowestIsLeast(xs: seq<int>)
    requires AllNonNegative(xs)
    ensures RunningLowest(xs) == -1 <==> xs == []
    ensures xs != [] ==> IsLeast(RunningLowest(xs), xs)
  {
    if xs != [] {
      var init := xs[..|xs| - 1];
      assert xs == init + [xs[|xs| - 1]];
      AllNonNegativeAppend(init, [xs[|xs| - 1]]);
      RunningLowestIsLeast(init);
    }
  }

  /** The scan order does not matter over non-negative values. */
  lemma RunningLowestOrderFree(xs: seq<int>, ys: seq<int>)
    requires multiset(xs) == multiset(ys)
    requires AllNonNegative(xs)
    ensures RunningLowest(xs) == RunningLowest(ys)
  {
    forall i | 0 <= i < |ys| ensures ys[i] >= 0 {
      assert ys[i] in multiset(xs);
    }
    RunningLowestIsLeast(xs);
    RunningLowestIsLeast(ys);
    if xs == [] {
      assert |ys| == |multiset(ys)| == 0;
    } else {
      assert |ys| == |multiset(ys)| == |multiset(xs)| == |xs|;
      var a, b := RunningLowest(xs), RunningLowest(ys);
      assert a in multiset(ys) && b in multiset(xs);
    }
  }

  /** A -1 in the scan wipes out everything before it: the result is the
      running value of what comes after the last -1. */
  lemma {:induction false} RunningLowestAfterReset(xs: seq<int>, ys: seq<int>)
    ensures RunningLowest(xs + [-1] + ys) == RunningLowest(ys)
    decreases |ys|
  {
    if ys == [] {
      assert xs + [-1] + ys == xs + [-1];
      RunningLowestSnoc(xs, -1);
    } else {
      var init, y := ys[..|ys| - 1], ys[|ys| - 1];
      assert xs + [-1] + ys == (xs + [-1] + init) + [y];
      RunningLowestAfterReset(xs, init);
      RunningLowestSnoc(xs + [-1] + init, y);
      RunningLowestSnoc(init, y);
      assert init + [y] == ys;
    }
  }

  /** How a per-part result is folded into the running value when an empty
      part reports -1 and must be skipped. */
  function Merge(lowest: int, res: int): int {
    if res < 0 then lowest else Step(lowest, res)
  }

  /** Splitting the scan into two parts and merging their results gives the
      result of the whole scan. */
  lemma {:induction false} RunningLowestAppend(xs: seq<int>, ys: seq<int>)
    requires AllNonNegative(xs + ys)
    ensures RunningLowest(xs + ys) == Merge(RunningLowest(xs), RunningLowest(ys))
  {
    AllNonNegativeAppend(xs, ys);
    RunningLowestIsLeast(xs);
    if ys == [] {
      assert xs + ys == xs;
    } else {
      var init, y := ys[..|ys| - 1], ys[|ys| - 1];
      assert ys == init + [y];
      assert xs + ys == (xs + init) + [y];
      AllNonNegativeAppend(init, [y]);
      AllNonNegativeAppend(xs, init);
      RunningLowestAppend(xs, init);
      RunningLowestIsLeast(init);
      RunningLowestSnoc(xs + init, y);
      RunningLowestSnoc(init, y);
    }
  }
}
