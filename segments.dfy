/**
 * Segments of a list: the blocks of 1s that the longest-streak code sums up, and the runs of
 * consecutive values (each one less than the one before, newest first) that a streak is meant
 * to be. Also Python's `sum` and `max` on lists.
 */
module Segments {

  /** Python's `sum(xs)`. */
  function Sum(xs: seq<int>): int {
    if xs == [] then 0 else Sum(xs[..|xs| - 1]) + xs[|xs| - 1]
  }

  /** Python's `max(xs)`; `max` of an empty list raises, so a list is required. */
  function Max(xs: seq<int>): (m: int)
    requires |xs| > 0
    ensures m in xs
    ensures forall k :: 0 <= k < |xs| ==> xs[k] <= m
  {
    if |xs| == 1 then xs[0]
    else
      var init := Max(xs[..|xs| - 1]);
      assert forall k :: 0 <= k < |xs| - 1 ==> xs[..|xs| - 1][k] == xs[k];
      if init < xs[|xs| - 1] then xs[|xs| - 1] else init
  }

  predicate AllOnes(xs: seq<int>) {
    forall k :: 0 <= k < |xs| ==> xs[k] == 1
  }

  lemma {:induction false} SumOfOnes(xs: seq<int>)
    requires AllOnes(xs)
    ensures Sum(xs) == |xs|
  {
    if xs != [] {
      SumOfOnes(xs[..|xs| - 1]);
    }
  }

  // ---------------------------------------------------------------------------
  // Blocks of 1s

  /** xs[i..j] is a block of 1s. */
  predicate OnesBetween(xs: seq<int>, i: int, j: int) {
    0 <= i <= j <= |xs| && forall k :: i <= k < j ==> xs[k] == 1
  }

  /** Length of the block of 1s that ends the list. */
  function TrailingOnes(xs: seq<int>): nat {
    if xs == [] || xs[|xs| - 1] != 1 then 0 else TrailingOnes(xs[..|xs| - 1]) + 1
  }

  /** Length of the longest block of 1s anywhere in the list (0 when there is none). */
  function LongestOnes(xs: seq<int>): nat {
    if xs == [] then 0
    else
      var init := LongestOnes(xs[..|xs| - 1]);
      if init < TrailingOnes(xs) then TrailingOnes(xs) else init
  }

  lemma {:induction false} TrailingOnesIsBlock(xs: seq<int>)
    ensures TrailingOnes(xs) <= |xs|
    ensures OnesBetween(xs, |xs| - TrailingOnes(xs), |xs|)
    ensures forall i :: 0 <= i <= |xs| && OnesBetween(xs, i, |xs|) ==> |xs| - i <= TrailingOnes(xs)
  {
    if xs != [] {
      var init := xs[..|xs| - 1];
      TrailingOnesIsBlock(init);
      assert forall i :: 0 <= i <= |init| && OnesBetween(xs, i, |xs|) ==> OnesBetween(init, i, |init|);
    }
  }

  /** LongestOnes is the length of a block of 1s, and no block of 1s is longer. */
  lemma {:induction false} LongestOnesIsLongest(xs: seq<int>)
    ensures exists i, j :: OnesBetween(xs, i, j) && j - i == LongestOnes(xs)
    ensures forall i, j :: OnesBetween(xs, i, j) ==> j - i <= LongestOnes(xs)
  {
    if xs == [] {
      assert OnesBetween(xs, 0, 0);
    } else {
      var init := xs[..|xs| - 1];
      LongestOnesIsLongest(init);
      TrailingOnesIsBlock(xs);
      var i, j :| OnesBetween(init, i, j) && j - i == LongestOnes(init);
      assert OnesBetween(xs, i, j);
      assert OnesBetween(xs, |xs| - TrailingOnes(xs), |xs|);
      forall i, j | OnesBetween(xs, i, j) ensures j - i <= LongestOnes(xs) {
        if j == |xs| {
          assert OnesBetween(xs, i, |xs|);
        } else {
          assert OnesBetween(init, i, j);
        }
      }
    }
  }

  lemma LongestOnesAppend(xs: seq<int>, x: int)
    ensures TrailingOnes(xs + [x]) == if x == 1 then TrailingOnes(xs) + 1 else 0
    ensures LongestOnes(xs + [x]) == if x == 1 && LongestOnes(xs) < TrailingOnes(xs) + 1 then TrailingOnes(xs) + 1 else LongestOnes(xs)
  {
    assert (xs + [x])[..|xs|] == xs;
  }

  /** How many 1s the list holds. */
  function CountOnes(xs: seq<int>): nat {
    if xs == [] then 0 else CountOnes(xs[..|xs| - 1]) + (if xs[|xs| - 1] == 1 then 1 else 0)
  }

  lemma {:induction false} CountOnesConcat(xs: seq<int>, ys: seq<int>)
    ensures CountOnes(xs + ys) == CountOnes(xs) + CountOnes(ys)
    decreases |ys|
  {
    if ys != [] {
      var init := ys[..|ys| - 1];
      CountOnesConcat(xs, init);
      assert (xs + ys)[..|xs + ys| - 1] == xs + init;
      assert (xs + ys)[|xs + ys| - 1] == ys[|ys| - 1];
      assert CountOnes(xs + ys) == CountOnes(xs + init) + (if ys[|ys| - 1] == 1 then 1 else 0);
      assert CountOnes(ys) == CountOnes(init) + (if ys[|ys| - 1] == 1 then 1 else 0);
    } else {
      assert xs + ys == xs;
    }
  }

  lemma {:induction false} LongestOnesAtMostCount(xs: seq<int>)
    ensures TrailingOnes(xs) <= CountOnes(xs)
    ensures LongestOnes(xs) <= CountOnes(xs)
  {
    if xs != [] {
      LongestOnesAtMostCount(xs[..|xs| - 1]);
    }
  }

  lemma LongestOnesStartingWithOne(xs: seq<int>)
    requires |xs| > 0 && xs[0] == 1
    ensures LongestOnes(xs) >= 1
  {
    LongestOnesIsLongest(xs);
    assert OnesBetween(xs, 0, 1);
  }

  /**
   * The block-summing loop of both longest-streak methods: `cache` collects 1s; any other
   * value closes the block, whose sum goes to `streakCount`; the last block is summed after the
   * loop, and the answer is `max(streakCount)`. It is the length of the longest block of 1s.
   */
  method LongestBlock(xs: seq<int>) returns (maxValue: int)
    ensures maxValue == LongestOnes(xs)
  {
    var streakCount: seq<int> := [];
    var cache: seq<int> := [];
    ghost var best := 0;
    for idx := 0 to |xs|
      invariant AllOnes(cache) && |cache| == TrailingOnes(xs[..idx])
      invariant best == (if streakCount == [] then 0 else Max(streakCount))
      invariant 0 <= best
      invariant (if best < |cache| then |cache| else best) == LongestOnes(xs[..idx])
    {
      assert xs[..idx + 1] == xs[..idx] + [xs[idx]];
      LongestOnesAppend(xs[..idx], xs[idx]);
      if xs[idx] == 1 {
        cache := cache + [1];
      } else {
        SumOfOnes(cache);
        streakCount := streakCount + [Sum(cache)];
        best := if best < |cache| then |cache| else best;
        cache := [];
      }
    }
    assert xs[..|xs|] == xs;
    SumOfOnes(cache);
    streakCount := streakCount + [Sum(cache)];
    maxValue := Max(streakCount);
  }

  // ---------------------------------------------------------------------------
  // Runs of consecutive values, newest first

  /** Newest first with no value twice: each value is below the one before it. */
  predicate StrictlyDecreasing(xs: seq<int>) {
    forall k :: 0 < k < |xs| ==> xs[k - 1] > xs[k]
  }

  /** xs[i..j] is a non-empty run: each value is one less than the value before it. */
  predicate RunBetween(xs: seq<int>, i: int, j: int) {
    0 <= i < j <= |xs| && forall k :: i <= k < j - 1 ==> xs[k] - xs[k + 1] == 1
  }

  /** Length of the run that ends the list. */
  function TrailingRun(xs: seq<int>): nat {
    if xs == [] then 0
    else if |xs| == 1 || xs[|xs| - 2] - xs[|xs| - 1] != 1 then 1
    else TrailingRun(xs[..|xs| - 1]) + 1
  }

  /** Length of the longest run in the list: the streak the history shows at its best. */
  function LongestRun(xs: seq<int>): nat {
    if xs == [] then 0
    else
      var init := LongestRun(xs[..|xs| - 1]);
      if init < TrailingRun(xs) then TrailingRun(xs) else init
  }

  lemma {:induction false} TrailingRunIsRun(xs: seq<int>)
    requires xs != []
    ensures 1 <= TrailingRun(xs) <= |xs|
    ensures RunBetween(xs, |xs| - TrailingRun(xs), |xs|)
    ensures forall i :: 0 <= i < |xs| && RunBetween(xs, i, |xs|) ==> |xs| - i <= TrailingRun(xs)
  {
    if |xs| > 1 {
      var init := xs[..|xs| - 1];
      TrailingRunIsRun(init);
      assert forall i :: 0 <= i < |init| && RunBetween(xs, i, |xs|) ==> RunBetween(init, i, |init|);
    }
  }

  /** LongestRun is the length of a run, and no run is longer. */
  lemma {:induction false} LongestRunIsLongest(xs: seq<int>)
    requires xs != []
    ensures exists i, j :: RunBetween(xs, i, j) && j - i == LongestRun(xs)
    ensures forall i, j :: RunBetween(xs, i, j) ==> j - i <= LongestRun(xs)
  {
    TrailingRunIsRun(xs);
    assert RunBetween(xs, |xs| - TrailingRun(xs), |xs|);
    if |xs| > 1 {
      var init := xs[..|xs| - 1];
      LongestRunIsLongest(init);
      var i, j :| RunBetween(init, i, j) && j - i == LongestRun(init);
      assert RunBetween(xs, i, j);
      forall i, j | RunBetween(xs, i, j) ensures j - i <= LongestRun(xs) {
        if j == |xs| {
          assert RunBetween(xs, i, |xs|);
        } else {
          assert RunBetween(init, i, j);
        }
      }
    } else {
      forall i, j | RunBetween(xs, i, j) ensures j - i <= LongestRun(xs) {
      }
    }
  }

  lemma LongestRunAppend(xs: seq<int>, x: int)
    requires xs != []
    ensures TrailingRun(xs + [x]) == if xs[|xs| - 1] - x == 1 then TrailingRun(xs) + 1 else 1
    ensures LongestRun(xs + [x]) == if LongestRun(xs) < TrailingRun(xs + [x]) then TrailingRun(xs + [x]) else LongestRun(xs)
  {
    assert (xs + [x])[..|xs|] == xs;
  }

  lemma {:induction false} LongestRunPositive(xs: seq<int>)
    requires xs != []
    ensures 1 <= TrailingRun(xs) <= LongestRun(xs)
  {
    if |xs| > 1 {
      LongestRunPositive(xs[..|xs| - 1]);
    }
  }

  // ---------------------------------------------------------------------------
  // Blocks of 1s that track runs

  /**
   * The blocks of 1s in f measure the runs of xs: the longest block is the longest run, and the
   * last block is the last run, unless f ends in a break (`closed`), which leaves a run of one.
   */
  predicate BlocksMatchRuns(f: seq<int>, xs: seq<int>, closed: bool) {
    && LongestOnes(f) == LongestRun(xs)
    && (!closed ==> TrailingOnes(f) == TrailingRun(xs))
    && (closed ==> TrailingOnes(f) == 0 && TrailingRun(xs) == 1)
  }

  /** After a break, a 1 opens the block of the run of one that the break left. */
  lemma BlocksMatchRunsReopen(f: seq<int>, xs: seq<int>)
    requires xs != [] && BlocksMatchRuns(f, xs, true)
    ensures BlocksMatchRuns(f + [1], xs, false)
  {
    LongestRunPositive(xs);
    LongestOnesAppend(f, 1);
  }

  lemma BlocksMatchRunsSingle(x: int)
    ensures BlocksMatchRuns([1], [x], false)
  {
    assert [1][..0] == [] && [x][..0] == [];
  }

  /**
   * One more value y: if it continues the run, the blocks grow by a 1 (two 1s after a break,
   * where the run is two long); otherwise a break is appended.
   */
  lemma BlocksMatchRunsNext(f: seq<int>, xs: seq<int>, closed: bool, y: int, b: int)
    requires xs != [] && BlocksMatchRuns(f, xs, closed) && b != 1
    ensures xs[|xs| - 1] - y == 1 ==> BlocksMatchRuns(f + (if closed then [1] else []) + [1], xs + [y], false)
    ensures xs[|xs| - 1] - y != 1 ==> BlocksMatchRuns(f + [b], xs + [y], true)
  {
    LongestRunAppend(xs, y);
    LongestRunPositive(xs);
    LongestOnesAppend(f, b);
    LongestOnesAppend(f, 1);
    if closed {
      LongestOnesAppend(f + [1], 1);
    } else {
      assert f + [] + [1] == f + [1];
    }
  }
}
