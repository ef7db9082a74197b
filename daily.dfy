/**
 * Streaks of a daily habit: `compute_current_daily_streak` and
 * `compute_longest_daily_streak_habit`. Dates enter as day ordinals, newest first, so
 * consecutive days differ by exactly 1 and `(a - b).days` is `a - b`.
 */
module DailyStreak {
  import opened Wrappers
  import opened Calendar
  import opened Timestamps
  import opened Segments
  import opened Progress

  // ===========================================================================
  // Current streak

  /** The counting loop: how many entries of ds, from the first on, are ref, ref - 1, ref - 2, ... */
  function CountBack(ds: seq<int>, ref: int): nat {
    if ds == [] || ds[0] != ref then 0 else 1 + CountBack(ds[1..], ref - 1)
  }

  /**
   * The current streak as the source computes it: 1 if the newest completion is today, then one
   * more for each following entry that is the expected previous day, stopping at the first that is not.
   */
  function CurrentRun(days: seq<int>, today: int): nat
    requires |days| > 0
  {
    var streak := if days[0] == today then 1 else 0;
    streak + CountBack(days[streak..], today - 1)
  }

  /** The day a live streak is counted back from: today if done today, else yesterday. */
  function RunStart(days: seq<int>, today: int): int
    requires |days| > 0
  {
    if days[0] == today then today else today - 1
  }

  lemma {:induction false} CountBackCorrect(ds: seq<int>, ref: int)
    ensures CountBack(ds, ref) <= |ds|
    ensures forall j :: 0 <= j < CountBack(ds, ref) ==> ds[j] == ref - j
    ensures CountBack(ds, ref) < |ds| ==> ds[CountBack(ds, ref)] != ref - CountBack(ds, ref)
  {
    if ds != [] && ds[0] == ref {
      CountBackCorrect(ds[1..], ref - 1);
    }
  }

  /**
   * The current daily streak is the length of the longest prefix of the newest-first history
   * that counts down one day at a time from today, or from yesterday when today is not done;
   * so it is at most the number of completions, and it is 0 exactly when the newest completion
   * is neither today nor yesterday.
   */
  lemma CurrentRunCorrect(days: seq<int>, today: int)
    requires |days| > 0
    ensures var k, start := CurrentRun(days, today), RunStart(days, today);
      && k <= |days|
      && (forall j :: 0 <= j < k ==> days[j] == start - j)
      && (k < |days| ==> days[k] != start - k)
    ensures CurrentRun(days, today) == 0 <==> days[0] != today && days[0] != today - 1
  {
    var s := if days[0] == today then 1 else 0;
    CountBackCorrect(days[s..], today - 1);
  }

  /** Finishing the habit today, when yesterday was done and today not yet, adds exactly one day. */
  lemma CurrentRunGrowsWhenDoneToday(days: seq<int>, today: int)
    requires |days| > 0 && days[0] == today - 1
    ensures CurrentRun([today] + days, today) == CurrentRun(days, today) + 1
  {
    assert ([today] + days)[1..] == days;
  }

  /**
   * A second completion on the same day breaks the count: the loop expects yesterday next.
   * Done on three consecutive days, the streak is 3; marked once more today, it drops to 1.
   */
  lemma SecondCompletionTodayResetsCurrent(today: int)
    ensures CurrentRun([today, today - 1, today - 2], today) == 3
    ensures CurrentRun([today, today, today - 1, today - 2], today) == 1
  {
    assert [today, today - 1, today - 2][1..] == [today - 1, today - 2];
    assert [today - 1, today - 2][1..] == [today - 2];
    assert [today - 2][1..] == [];
    assert CountBack([today - 2], today - 2) == 1;
    assert CountBack([today - 1, today - 2], today - 1) == 2;
    assert [today, today, today - 1, today - 2][1..] == [today, today - 1, today - 2];
  }

  /** A habit done on 2021-08-06 and 2021-08-05 (newest first) has, on 2021-08-07, a current streak of 2. */
  lemma YesterdayAndTheDayBefore()
    ensures CurrentRun([Ordinal(Date(2021, 8, 6)), Ordinal(Date(2021, 8, 5))], Ordinal(Date(2021, 8, 7))) == 2
  {
    var today := Ordinal(Date(2021, 8, 7));
    assert Ordinal(Date(2021, 8, 6)) == today - 1 && Ordinal(Date(2021, 8, 5)) == today - 2;
    var days := [today - 1, today - 2];
    assert days[0..] == days && days[1..] == [today - 2] && [today - 2][1..] == [];
    assert CountBack([today - 2], today - 2) == 1;
    assert CountBack(days, today - 1) == 2;
    assert CurrentRun(days, today) == 2;
  }

  /**
   * What `compute_current_daily_streak` can fail with: a row `strptime` refuses (`ValueError`), or
   * `ref` stepping back before 0001-01-01, the first day a `datetime` can hold (`OverflowError`).
   */
  datatype CurrentError = Unreadable(cause: ParseError) | Overflow

  /** The day `ref` ends on: yesterday, less one day for every completion the loop counts. */
  function FinalRef(days: seq<int>, today: int): int
    requires |days| > 0
  {
    var streak := if days[0] == today then 1 else 0;
    today - 1 - CountBack(days[streak..], today - 1)
  }

  /**
   * With now after 0001-01-01 and every completion on a real day (ordinal 1 or later), `ref` steps
   * before the first day exactly when the loop counts a completion on 0001-01-01; the streak has
   * then reached that day, which is the last one it counted.
   */
  lemma OverflowOnFirstDay(days: seq<int>, today: int)
    requires |days| > 0 && today >= 2
    requires forall j :: 0 <= j < |days| ==> days[j] >= 1
    ensures CurrentRun(days, today) <= |days|
    ensures FinalRef(days, today) < 1 <==>
      CurrentRun(days, today) > (if days[0] == today then 1 else 0) && days[CurrentRun(days, today) - 1] == 1
  {
    var s := if days[0] == today then 1 else 0;
    var k := CountBack(days[s..], today - 1);
    CountBackCorrect(days[s..], today - 1);
    if k > 0 {
      assert days[s..][k - 1] == today - k;
    }
  }

  /**
   * A habit done only on 0001-01-01, asked on 0001-01-02: the loop counts that day and `ref`
   * steps before it, so the method fails where its streak would have been 1.
   */
  lemma FirstDayCompletionOverflows()
    ensures CurrentRun([1], 2) == 1
    ensures FinalRef([1], 2) < 1
  {
    assert [1][0..] == [1] && [1][1..] == [];
  }

  /** The loop of `compute_current_daily_streak` after the rows are read, `ref` included. */
  method CurrentDailyRun(days: seq<int>, today: int) returns (r: Option<nat>)
    requires |days| > 0
    ensures r == if FinalRef(days, today) < 1 then None else Some(CurrentRun(days, today))
  {
    var ref := today - 1;
    if ref < 1 {
      return None;
    }
    var streak := if days[0] == today then 1 else 0;
    var rest := days[streak..];
    ghost var first := streak;
    var i := 0;
    while i < |rest|
      invariant 0 <= i <= |rest|
      invariant streak == first + i && ref == today - 1 - i && ref >= 1
      invariant CountBack(rest, today - 1) == i + CountBack(rest[i..], ref)
    {
      if rest[i] == ref {
        assert rest[i..][1..] == rest[i + 1..];
        streak := streak + 1;
        ref := ref - 1;
        i := i + 1;
        if ref < 1 {
          return None;
        }
      } else {
        break;
      }
    }
    r := Some(streak);
  }

  /**
   * `compute_current_daily_streak`, with the progress query's rows and `datetime.now()` as inputs.
   * The checks come in the source's order: no rows, then yesterday before the first day, then
   * the rows, then the loop.
   */
  method ComputeCurrentDailyStreak(rows: seq<string>, now: Timestamp) returns (r: Result<nat, CurrentError>)
    requires ValidTimestamp(now)
    ensures rows == [] ==> r == Success(0)
    ensures rows != [] && DayOf(now) == 1 ==> r == Failure(Overflow)
    ensures rows != [] && DayOf(now) > 1 ==>
      match ParsedNewestFirst(rows)
      case Failure(e) => r == Failure(Unreadable(e))
      case Success(habits) =>
        r == if FinalRef(Days(habits), DayOf(now)) < 1 then Failure(Overflow)
             else Success(CurrentRun(Days(habits), DayOf(now)))
  {
    var progress := HabitProgress(rows);
    if progress.None? {
      return Success(0);
    }
    OrdinalInYear(now.date);
    if DayOf(now) - 1 < 1 {
      return Failure(Overflow);
    }
    var parsed := NewestFirst(progress.value);
    if parsed.Failure? {
      return Failure(Unreadable(parsed.error));
    }
    var run := CurrentDailyRun(Days(parsed.value), DayOf(now));
    if run.None? {
      return Failure(Overflow);
    }
    r := Success(run.value);
  }

  // ===========================================================================
  // Longest streak: the lists diff, adj_diff, temp_diff and final_diff

  /** `diff`: 1 or 0 for whether the newest completion is today, then the day gaps between neighbours. */
  function Diffs(days: seq<int>, today: int): (diff: seq<int>)
    requires |days| > 0
    ensures |diff| == |days|
  {
    seq(|days|, n requires 0 <= n < |days| => if n == 0 then (if days[0] == today then 1 else 0) else days[n - 1] - days[n])
  }

  /**
   * `adj_diff`: the sentinel 99, then per gap 1 (the next day), 0 (the same day, unless the
   * previous entry is already 0) or 99 (any other gap).
   */
  function Clean(diff: seq<int>): (adj: seq<int>)
    ensures |adj| >= 1 && adj[0] == 99
    ensures |diff| > 0 && (diff[0] == 0 || diff[0] == 1) ==> |adj| >= 2 && adj[1] == diff[0]
  {
    if diff == [] then [99]
    else
      var adj := Clean(diff[..|diff| - 1]);
      var n := diff[|diff| - 1];
      if n == 1 then adj + [1]
      else if n == 0 && adj[|adj| - 1] != 0 then adj + [0]
      else if n != 0 then adj + [99]
      else adj
  }

  /** What index i of `adj_diff` contributes to `temp_diff`: a 99 before a 1 becomes 99, 1. */
  function Piece(adj: seq<int>, i: int): seq<int>
    requires 0 <= i < |adj| - 1
  {
    if adj[i] == 99 && adj[i + 1] == 1 then [99, 1] else [adj[i]]
  }

  /** `temp_diff` after the indices 1 .. k-1 of `adj_diff`. */
  function TempDiff(adj: seq<int>, k: int): seq<int>
    requires 1 <= k && (k == 1 || k <= |adj| - 1)
  {
    if k == 1 then [] else TempDiff(adj, k - 1) + Piece(adj, k - 1)
  }

  /** `final_diff = temp_diff + adj_diff[-1:]`, before zeros are rewritten. */
  function FinalDiff(adj: seq<int>): seq<int>
    requires |adj| >= 2
  {
    TempDiff(adj, |adj| - 1) + [adj[|adj| - 1]]
  }

  /** The in-place rewrite of `final_diff`: every 0 becomes 1. */
  function ZerosToOnes(xs: seq<int>): (ys: seq<int>)
    ensures |ys| == |xs|
  {
    seq(|xs|, i requires 0 <= i < |xs| => if xs[i] == 0 then 1 else xs[i])
  }

  /** The longest daily streak as the source computes it: the longest block of 1s in `final_diff`. */
  function LongestDaily(days: seq<int>, today: int): nat
    requires |days| > 0
  {
    var diff := Diffs(days, today);
    LongestOnes(ZerosToOnes(FinalDiff(Clean(diff))))
  }

  // ---------------------------------------------------------------------------
  // Lemmas on the sentinel lists

  predicate IsMarker(x: int) {
    x == 0 || x == 1 || x == 99
  }

  /** `adj_diff` holds only 0, 1 and 99, starts with 99, never has 0 right after 0, and grows by at most one entry per gap. */
  lemma {:induction false} CleanShape(diff: seq<int>)
    ensures var adj := Clean(diff);
      && |adj| <= |diff| + 1
      && (forall k :: 0 <= k < |adj| ==> IsMarker(adj[k]))
      && (forall k :: 0 < k < |adj| && adj[k] == 0 ==> adj[k - 1] != 0)
  {
    if diff != [] {
      CleanShape(diff[..|diff| - 1]);
    }
  }

  lemma {:induction false} TempDiffFromAdj(adj: seq<int>, k: int)
    requires 1 <= k && (k == 1 || k <= |adj| - 1)
    ensures forall x :: x in TempDiff(adj, k) ==> x == 1 || x == 99 || x in adj
  {
    if k > 1 {
      TempDiffFromAdj(adj, k - 1);
    }
  }

  /** After the rewrite `final_diff` holds only 1 and 99. */
  lemma FinalShape(diff: seq<int>)
    requires |Clean(diff)| >= 2
    ensures forall x :: x in ZerosToOnes(FinalDiff(Clean(diff))) ==> x == 1 || x == 99
  {
    var adj := Clean(diff);
    CleanShape(diff);
    TempDiffFromAdj(adj, |adj| - 1);
    var fd := FinalDiff(adj);
    forall x | x in ZerosToOnes(fd) ensures x == 1 || x == 99 {
      var i :| 0 <= i < |fd| && ZerosToOnes(fd)[i] == x;
      assert fd[i] in fd;
    }
  }

  lemma {:induction false} TempDiffStartsWith(adj: seq<int>, k: int)
    requires 2 <= k <= |adj| - 1 && adj[1] != 99
    ensures |TempDiff(adj, k)| >= 1 && TempDiff(adj, k)[0] == adj[1]
  {
    if k > 2 {
      TempDiffStartsWith(adj, k - 1);
    }
  }

  /** With at least one completion the longest daily streak is at least 1: `final_diff` starts with 0 or 1. */
  lemma LongestDailyPositive(days: seq<int>, today: int)
    requires |days| > 0
    ensures LongestDaily(days, today) >= 1
  {
    var adj := Clean(Diffs(days, today));
    var fd := FinalDiff(adj);
    if |adj| > 2 {
      TempDiffStartsWith(adj, |adj| - 1);
    }
    assert fd[0] == adj[1];
    LongestOnesStartingWithOne(ZerosToOnes(fd));
  }

  lemma ZerosToOnesConcat(a: seq<int>, b: seq<int>)
    ensures ZerosToOnes(a + b) == ZerosToOnes(a) + ZerosToOnes(b)
  {
  }

  lemma {:induction false} TempDiffOnes(adj: seq<int>, k: int)
    requires 1 <= k && (k == 1 || k <= |adj| - 1)
    ensures CountOnes(ZerosToOnes(TempDiff(adj, k))) <= k - 1
  {
    if k > 1 {
      TempDiffOnes(adj, k - 1);
      ZerosToOnesConcat(TempDiff(adj, k - 1), Piece(adj, k - 1));
      CountOnesConcat(ZerosToOnes(TempDiff(adj, k - 1)), ZerosToOnes(Piece(adj, k - 1)));
      var p := ZerosToOnes(Piece(adj, k - 1));
      if |p| == 2 {
        assert p == [99, 1] && p[..1] == [99] && [99][..0] == [];
      } else {
        assert p[..0] == [];
      }
    }
  }

  /** The longest daily streak never exceeds the number of completions. */
  lemma LongestDailyAtMostCompletions(days: seq<int>, today: int)
    requires |days| > 0
    ensures LongestDaily(days, today) <= |days|
  {
    var diff := Diffs(days, today);
    var adj := Clean(diff);
    CleanShape(diff);
    TempDiffOnes(adj, |adj| - 1);
    ZerosToOnesConcat(TempDiff(adj, |adj| - 1), [adj[|adj| - 1]]);
    CountOnesConcat(ZerosToOnes(TempDiff(adj, |adj| - 1)), ZerosToOnes([adj[|adj| - 1]]));
    LongestOnesAtMostCount(ZerosToOnes(FinalDiff(adj)));
  }

  /**
   * A second completion on the same day is counted as one more day: done twice today and
   * never before, the longest daily streak is 2.
   */
  lemma SameDayCountsTwiceInLongest(today: int)
    ensures LongestDaily([today, today], today) == 2
  {
    var diff := Diffs([today, today], today);
    assert diff == [1, 0];
    assert diff[..1] == [1] && [1][..0] == [];
    assert Clean(diff) == [99, 1, 0];
    assert FinalDiff([99, 1, 0]) == [1, 0];
    var ys := ZerosToOnes([1, 0]);
    assert ys == [1, 1];
    assert ys[..1] == [1] && [1][..0] == [];
  }

  /**
   * A second completion today counts as one more day, but a third adds nothing: `adj_diff`
   * drops a 0 that follows a 0.
   */
  lemma ThirdCompletionTodayNotCounted(today: int)
    ensures LongestDaily([today, today, today], today) == 2
  {
    var diff := Diffs([today, today, today], today);
    assert diff == [1, 0, 0];
    assert diff[..2] == [1, 0] && [1, 0][..1] == [1] && [1][..0] == [];
    assert Clean(diff) == [99, 1, 0];
    assert FinalDiff([99, 1, 0]) == [1, 0];
    var ys := ZerosToOnes([1, 0]);
    assert ys == [1, 1];
    assert ys[..1] == [1] && [1][..0] == [];
  }

  /**
   * A repeat on the newest day is not counted when that day is not today: the 0 that says
   * "not done today" and the 0 of the repeat are adjacent, and `adj_diff` keeps only one.
   * Done twice on day d, or once, the longest daily streak on day d + 2 is 1.
   */
  lemma RepeatedNewestDayCountsOnce(d: int)
    ensures LongestDaily([d], d + 2) == 1
    ensures LongestDaily([d, d], d + 2) == 1
  {
    assert Diffs([d], d + 2) == [0];
    assert [0][..0] == [];
    assert Clean([0]) == [99, 0];
    var diff := Diffs([d, d], d + 2);
    assert diff == [0, 0] && diff[..1] == [0];
    assert Clean(diff) == [99, 0];
    assert FinalDiff([99, 0]) == [0];
    var ys := ZerosToOnes([0]);
    assert ys == [1] && ys[..0] == [];
  }

  // ---------------------------------------------------------------------------
  // On one completion per day, the longest daily streak is the longest run of days

  /** Appending one more `adj_diff` entry appends to `final_diff` that entry, after an extra 1 when it closes a 99. */
  lemma FinalDiffAppend(adj: seq<int>, x: int)
    requires |adj| >= 2
    ensures FinalDiff(adj + [x]) == FinalDiff(adj) + (if adj[|adj| - 1] == 99 && x == 1 then [1] else []) + [x]
  {
    var ext := adj + [x];
    TempDiffPrefix(adj, x, |adj| - 1);
    assert Piece(ext, |adj| - 1) == [adj[|adj| - 1]] + (if adj[|adj| - 1] == 99 && x == 1 then [1] else []);
  }

  lemma {:induction false} TempDiffPrefix(adj: seq<int>, x: int, k: int)
    requires 1 <= k && (k == 1 || k <= |adj| - 1)
    ensures TempDiff(adj + [x], k) == TempDiff(adj, k)
  {
    if k > 1 {
      TempDiffPrefix(adj, x, k - 1);
    }
  }

  /** For a strictly decreasing history, `adj_diff` for the first k completions. */
  lemma {:induction false} CleanStep(days: seq<int>, today: int, k: int)
    requires StrictlyDecreasing(days) && 1 <= k < |days|
    ensures Diffs(days, today)[..k + 1] == Diffs(days, today)[..k] + [days[k - 1] - days[k]]
    ensures Clean(Diffs(days, today)[..k + 1])
         == Clean(Diffs(days, today)[..k]) + [if days[k - 1] - days[k] == 1 then 1 else 99]
  {
    var diff := Diffs(days, today);
    assert diff[..k + 1][..k] == diff[..k];
  }

  lemma CleanSingle(d: int)
    requires d == 0 || d == 1
    ensures Clean([d]) == [99, d]
  {
    assert [d][..0] == [];
    assert Clean([]) == [99];
  }

  /** The claim carried from k to k + 1 completions in LongestDailyIsLongestRun. */
  predicate PrefixAgrees(days: seq<int>, today: int, k: int)
    requires 1 <= k <= |days|
  {
    var adj := Clean(Diffs(days, today)[..k]);
    |adj| == k + 1
    && (k == 1 ==> adj[1] == 0 || adj[1] == 1)
    && (k > 1 ==> adj[k] == 1 || adj[k] == 99)
    && BlocksMatchRuns(ZerosToOnes(FinalDiff(adj)), days[..k], adj[k] == 99)
  }

  lemma PrefixAgreesFirst(days: seq<int>, today: int)
    requires |days| >= 1
    ensures PrefixAgrees(days, today, 1)
  {
    var diff := Diffs(days, today);
    assert diff[..1] == [diff[0]];
    assert diff[0] == 0 || diff[0] == 1;
    CleanSingle(diff[0]);
    var adj := Clean(diff[..1]);
    assert FinalDiff(adj) == [diff[0]];
    var f := ZerosToOnes([diff[0]]);
    assert f == [1];
    assert days[..1] == [days[0]];
    BlocksMatchRunsSingle(days[0]);
  }

  /** One more marker of `adj_diff` (1 or 99) extends the rewritten `final_diff` by itself, after a 1 for a reopened run. */
  lemma MarkedStep(adj: seq<int>, x: int)
    requires |adj| >= 2
    ensures ZerosToOnes(FinalDiff(adj + [x]))
         == ZerosToOnes(FinalDiff(adj)) + (if adj[|adj| - 1] == 99 && x == 1 then [1] else []) + ZerosToOnes([x])
  {
    var extra := if adj[|adj| - 1] == 99 && x == 1 then [1] else [];
    FinalDiffAppend(adj, x);
    ZerosToOnesConcat(FinalDiff(adj) + extra, [x]);
    ZerosToOnesConcat(FinalDiff(adj), extra);
    assert ZerosToOnes(extra) == extra;
  }

  /** The block claim survives one more completion, whichever marker (1 or 99) its gap gives. */
  lemma BlocksAfterMarker(f: seq<int>, xs: seq<int>, closed: bool, y: int, x: int)
    requires xs != [] && BlocksMatchRuns(f, xs, closed)
    requires x == if xs[|xs| - 1] - y == 1 then 1 else 99
    ensures BlocksMatchRuns(f + (if closed && x == 1 then [1] else []) + [x], xs + [y], x == 99)
  {
    BlocksMatchRunsNext(f, xs, closed, y, 99);
    if x == 99 {
      assert f + [] + [x] == f + [99];
    }
  }

  lemma PrefixAgreesNext(days: seq<int>, today: int, k: int)
    requires StrictlyDecreasing(days) && 2 <= k <= |days|
    requires PrefixAgrees(days, today, k - 1)
    ensures PrefixAgrees(days, today, k)
  {
    var diff := Diffs(days, today);
    var adj := Clean(diff[..k - 1]);
    CleanStep(days, today, k - 1);
    var x := if days[k - 2] - days[k - 1] == 1 then 1 else 99;
    MarkedStep(adj, x);
    assert ZerosToOnes([x]) == [x];
    var xs := days[..k - 1];
    assert days[..k] == xs + [days[k - 1]];
    assert xs[|xs| - 1] == days[k - 2];
    BlocksAfterMarker(ZerosToOnes(FinalDiff(adj)), xs, adj[|adj| - 1] == 99, days[k - 1], x);
  }

  lemma {:induction false} PrefixAgreesUpTo(days: seq<int>, today: int, k: int)
    requires StrictlyDecreasing(days) && 1 <= k <= |days|
    ensures PrefixAgrees(days, today, k)
    decreases k
  {
    if k == 1 {
      PrefixAgreesFirst(days, today);
    } else {
      PrefixAgreesUpTo(days, today, k - 1);
      PrefixAgreesNext(days, today, k);
    }
  }

  /**
   * When no day holds two completions and the rows are stored oldest first (the newest-first
   * list is strictly decreasing), the sentinel lists compute what a streak means: the longest
   * run of consecutive days.
   */
  lemma LongestDailyIsLongestRun(days: seq<int>, today: int)
    requires |days| > 0 && StrictlyDecreasing(days)
    ensures LongestDaily(days, today) == LongestRun(days)
  {
    PrefixAgreesUpTo(days, today, |days|);
    var diff := Diffs(days, today);
    assert diff[..|days|] == diff;
    assert days[..|days|] == days;
    assert LongestOnes(ZerosToOnes(FinalDiff(Clean(diff)))) == LongestRun(days);
  }

  // ---------------------------------------------------------------------------
  // The loops of compute_longest_daily_streak_habit

  /** The loop that builds `diff`. */
  method DailyDiffs(days: seq<int>, today: int) returns (diff: seq<int>)
    requires |days| > 0
    ensures diff == Diffs(days, today)
  {
    var streak := if days[0] == today then 1 else 0;
    diff := [streak];
    for n := 0 to |days| - 1
      invariant |diff| == n + 1
      invariant forall k :: 0 <= k <= n ==> diff[k] == Diffs(days, today)[k]
    {
      diff := diff + [days[n] - days[n + 1]];
    }
  }

  /** The loop that builds `adj_diff`. */
  method CleanDiffs(diff: seq<int>) returns (adj: seq<int>)
    ensures adj == Clean(diff)
  {
    adj := [99];
    for i := 0 to |diff|
      invariant adj == Clean(diff[..i])
    {
      assert diff[..i + 1][..i] == diff[..i];
      var n := diff[i];
      if n == 1 {
        adj := adj + [1];
      } else if n == 0 && adj[|adj| - 1] != 0 {
        adj := adj + [0];
      } else if n != 0 {
        adj := adj + [99];
      }
    }
    assert diff[..|diff|] == diff;
  }

  /** The loop that builds `temp_diff`, then `final_diff = temp_diff + adj_diff[-1:]`. */
  method MarkRunStarts(adj: seq<int>) returns (finalDiff: seq<int>)
    requires |adj| >= 2
    ensures finalDiff == FinalDiff(adj)
  {
    var tempDiff: seq<int> := [];
    for i := 1 to |adj| - 1
      invariant tempDiff == TempDiff(adj, i)
    {
      if adj[i] == 99 && adj[i + 1] == 1 {
        tempDiff := tempDiff + [99];
        tempDiff := tempDiff + [1];
      } else {
        tempDiff := tempDiff + [adj[i]];
      }
    }
    finalDiff := tempDiff + adj[|adj| - 1..];
  }

  /** The loop that overwrites the zeros of `final_diff` in place. */
  method RewriteZeros(finalDiff: array<int>)
    modifies finalDiff
    ensures finalDiff[..] == ZerosToOnes(old(finalDiff[..]))
  {
    for i := 0 to finalDiff.Length
      invariant forall k :: 0 <= k < i ==> finalDiff[k] == ZerosToOnes(old(finalDiff[..]))[k]
      invariant forall k :: i <= k < finalDiff.Length ==> finalDiff[k] == old(finalDiff[k])
    {
      if finalDiff[i] == 0 {
        finalDiff[i] := 1;
      }
    }
  }

  /** `compute_longest_daily_streak_habit`, with the progress query's rows and `datetime.now()` as inputs. */
  method ComputeLongestDailyStreak(rows: seq<string>, now: Timestamp) returns (r: Result<nat, ParseError>)
    requires ValidTimestamp(now)
    ensures rows == [] ==> r == Success(0)
    ensures rows != [] ==>
      match ParsedNewestFirst(rows)
      case Failure(e) => r == Failure(e)
      case Success(habits) => r == Success(LongestDaily(Days(habits), DayOf(now)))
  {
    var progress := HabitProgress(rows);
    if progress.None? {
      return Success(0);
    }
    var parsed := NewestFirst(progress.value);
    if parsed.Failure? {
      return Failure(parsed.error);
    }
    var maxValue := LongestDailyRun(Days(parsed.value), DayOf(now));
    r := Success(maxValue);
  }

  /** The three list-building loops, the in-place rewrite of `final_diff`, and its longest block of 1s. */
  method LongestDailyRun(days: seq<int>, today: int) returns (maxValue: nat)
    requires |days| > 0
    ensures maxValue == LongestDaily(days, today)
  {
    var diff := DailyDiffs(days, today);
    var adj := CleanDiffs(diff);
    var marked := MarkRunStarts(adj);
    var finalDiff := new int[|marked|](i requires 0 <= i < |marked| => marked[i]);
    assert finalDiff[..] == marked;
    RewriteZeros(finalDiff);
    var longest := LongestBlock(finalDiff[..]);
    maxValue := longest;
  }
}
