/**
 * Streaks of a weekly habit: `compute_current_weekly_streak` and
 * `compute_longest_weekly_streak_habit`. A completion enters only as its ISO week number
 * (`isocalendar()[1]`); the ISO year is dropped.
 */
module WeeklyStreak {
  import opened Wrappers
  import opened Calendar
  import opened Timestamps
  import opened Segments
  import opened Progress

  // ===========================================================================
  // Week numbers and their de-duplication

  /** The loop that builds `calendar_weeks`. */
  method CalendarWeeks(habits: seq<Timestamp>) returns (weeks: seq<int>)
    requires AllValid(habits)
    ensures weeks == Weeks(habits)
  {
    weeks := [];
    for n := 0 to |habits|
      invariant weeks == Weeks(habits[..n])
    {
      weeks := weeks + [IsoWeek(habits[n].date)];
    }
    assert habits[..|habits|] == habits;
  }

  /** `adj_calendar_weeks`: each week number once, where it first occurs. */
  function Distinct(ws: seq<int>): (d: seq<int>)
    ensures |d| <= |ws|
    ensures |ws| > 0 ==> |d| > 0 && d[0] == ws[0]
  {
    if ws == [] then []
    else
      var d := Distinct(ws[..|ws| - 1]);
      var e := ws[|ws| - 1];
      if e in d then d else d + [e]
  }

  /** Where e first occurs in ws. */
  function FirstIndex(ws: seq<int>, e: int): (p: nat)
    requires e in ws
    ensures p < |ws| && ws[p] == e && e !in ws[..p]
  {
    var init := ws[..|ws| - 1];
    if e in init then
      var p := FirstIndex(init, e);
      assert ws[..p] == init[..p];
      p
    else
      assert ws[..|ws| - 1] == init;
      |ws| - 1
  }

  /**
   * De-duplication keeps exactly the week numbers of its input, each once, in the order of
   * their first occurrences (newest first).
   */
  lemma {:induction false} DistinctCorrect(ws: seq<int>)
    ensures forall i, j :: 0 <= i < j < |Distinct(ws)| ==> Distinct(ws)[i] != Distinct(ws)[j]
    ensures forall e :: e in Distinct(ws) <==> e in ws
    ensures forall i, j :: 0 <= i < j < |Distinct(ws)| ==>
      FirstIndex(ws, Distinct(ws)[i]) < FirstIndex(ws, Distinct(ws)[j])
  {
    if ws != [] {
      var init := ws[..|ws| - 1];
      DistinctCorrect(init);
      assert ws == init + [ws[|ws| - 1]];
      var d := Distinct(init);
      forall e | e in init ensures FirstIndex(ws, e) == FirstIndex(init, e) {
      }
    }
  }

  /** One more week number: it is kept exactly when it is new. */
  lemma DistinctExtend(ws: seq<int>, k: nat, d: seq<int>)
    requires k < |ws| && Distinct(ws[..k]) == d
    ensures Distinct(ws[..k + 1]) == if ws[k] in d then d else d + [ws[k]]
  {
    assert ws[..k + 1][..k] == ws[..k];
  }

  /** The `for e in calendar_weeks` loop with its two lists, `adj_calendar_weeks` and `x`. */
  method DropRepeatedWeeks(weeks: seq<int>) returns (adjWeeks: seq<int>)
    ensures adjWeeks == Distinct(weeks)
  {
    adjWeeks := [];
    var x: seq<int> := [];
    for n := 0 to |weeks|
      invariant adjWeeks == x == Distinct(weeks[..n])
    {
      assert weeks[..n + 1][..n] == weeks[..n];
      var e := weeks[n];
      if e !in x {
        adjWeeks := adjWeeks + [e];
        x := x + [e];
      }
    }
    assert weeks[..|weeks|] == weeks;
  }

  predicate NonIncreasing(ws: seq<int>) {
    forall i, j :: 0 <= i < j < |ws| ==> ws[i] >= ws[j]
  }

  /** Week numbers that never grow (newest first) become strictly decreasing once repeats go. */
  lemma {:induction false} DistinctOfNonIncreasing(ws: seq<int>)
    requires NonIncreasing(ws)
    ensures StrictlyDecreasing(Distinct(ws))
  {
    if ws != [] {
      var init := ws[..|ws| - 1];
      DistinctOfNonIncreasing(init);
      DistinctCorrect(init);
      var d := Distinct(init);
      var e := ws[|ws| - 1];
      if e !in d && d != [] {
        var last := d[|d| - 1];
        assert last in init;
        var p :| 0 <= p < |init| && init[p] == last;
        assert ws[p] >= e;
      }
    }
  }

  /**
   * Completions of one ISO year, stored in time order, give strictly decreasing distinct week
   * numbers newest first.
   */
  lemma WeeksOfOneYear(habits: seq<Timestamp>, year: int)
    requires AllValid(habits)
    requires forall i :: 0 <= i < |habits| ==> IsoCalendar(habits[i].date).year == year
    requires forall i, j :: 0 <= i < j < |habits| ==> DayOf(habits[j]) <= DayOf(habits[i])
    ensures StrictlyDecreasing(Distinct(Weeks(habits)))
  {
    var ws := Weeks(habits);
    forall i, j | 0 <= i < j < |ws| ensures ws[i] >= ws[j] {
      IsoWeekMonotone(habits[j].date, habits[i].date);
    }
    DistinctOfNonIncreasing(ws);
  }

  // ===========================================================================
  // Current streak

  /** How many successive differences equal to 1 the list starts with. */
  function LeadingUnitGaps(adj: seq<int>): nat {
    if |adj| < 2 || adj[0] - adj[1] != 1 then 0 else 1 + LeadingUnitGaps(adj[1..])
  }

  /**
   * The current weekly streak as the source computes it on the distinct weeks: with one week,
   * 1 if it is the current week and otherwise no value at all; with more, 1 plus the leading
   * run of unit differences when the newest is the current week, and otherwise 0.
   */
  function CurrentWeekly(adj: seq<int>, nowWeek: int): Option<nat> {
    if |adj| == 1 then (if adj[0] == nowWeek then Some(1) else None)
    else if |adj| >= 2 && adj[0] == nowWeek then Some(1 + LeadingUnitGaps(adj))
    else Some(0)
  }

  lemma {:induction false} LeadingUnitGapsCorrect(adj: seq<int>)
    requires |adj| > 0
    ensures var k := 1 + LeadingUnitGaps(adj);
      && k <= |adj|
      && (forall j :: 0 <= j < k ==> adj[j] == adj[0] - j)
      && (k < |adj| ==> adj[k] != adj[0] - k)
  {
    if |adj| >= 2 && adj[0] - adj[1] == 1 {
      LeadingUnitGapsCorrect(adj[1..]);
    }
  }

  /**
   * The current weekly streak counts the distinct weeks, newest first, that go back one week at
   * a time from the current week, stopping at the first that does not; it is 0 when the newest
   * is not the current week, except that a single such week gives no value.
   */
  lemma CurrentWeeklyCorrect(adj: seq<int>, nowWeek: int)
    requires |adj| > 0
    ensures CurrentWeekly(adj, nowWeek).None? <==> |adj| == 1 && adj[0] != nowWeek
    ensures CurrentWeekly(adj, nowWeek).Some? ==>
      var k := CurrentWeekly(adj, nowWeek).value;
      && k <= |adj|
      && (k == 0 <==> adj[0] != nowWeek)
      && (forall j :: 0 <= j < k ==> adj[j] == nowWeek - j)
      && (k < |adj| ==> adj[k] != nowWeek - k)
  {
    LeadingUnitGapsCorrect(adj);
  }

  /** Done again in a week that is already the newest, a habit's rows give the same distinct weeks. */
  lemma {:induction false} DistinctRepeatFirst(ws: seq<int>)
    requires |ws| > 0
    ensures Distinct([ws[0]] + ws) == Distinct(ws)
  {
    var ext := [ws[0]] + ws;
    if |ws| == 1 {
      assert ext[..1] == [ws[0]] && [ws[0]][..0] == [];
    } else {
      var init := ws[..|ws| - 1];
      DistinctRepeatFirst(init);
      assert ext[..|ext| - 1] == [init[0]] + init;
    }
  }

  /** Finishing the habit this week never lowers the current weekly streak (and gives one where there was none). */
  lemma CurrentWeeklyDoneThisWeek(ws: seq<int>, nowWeek: int)
    requires |ws| > 0
    ensures CurrentWeekly(Distinct([nowWeek] + ws), nowWeek).Some?
    ensures CurrentWeekly(Distinct(ws), nowWeek).Some? ==>
      CurrentWeekly(Distinct(ws), nowWeek).value <= CurrentWeekly(Distinct([nowWeek] + ws), nowWeek).value
  {
    var ext := [nowWeek] + ws;
    assert ext[0] == nowWeek;
    var after := Distinct(ext);
    var before := Distinct(ws);
    assert after[0] == nowWeek && before[0] == ws[0];
    CurrentWeeklyCorrect(after, nowWeek);
    if ws[0] == nowWeek {
      DistinctRepeatFirst(ws);
    } else {
      CurrentWeeklyCorrect(before, nowWeek);
    }
  }

  /** The streak loop of `compute_current_weekly_streak`, summing the list `streak`. */
  method CurrentWeeklyRun(adjWeeks: seq<int>, nowWeek: int) returns (r: Option<nat>)
    ensures r == CurrentWeekly(adjWeeks, nowWeek)
  {
    var streak: seq<int> := [];
    if |adjWeeks| == 1 {
      if adjWeeks[0] == nowWeek {
        streak := streak + [1];
        SumOfOnes(streak);
        return Some(Sum(streak));
      }
      return None;
    } else if |adjWeeks| >= 2 && adjWeeks[0] == nowWeek {
      streak := streak + [1];
      var n := 0;
      while n < |adjWeeks| - 1
        invariant 0 <= n <= |adjWeeks| - 1
        invariant AllOnes(streak) && |streak| == 1 + n
        invariant LeadingUnitGaps(adjWeeks) == n + LeadingUnitGaps(adjWeeks[n..])
      {
        var x := adjWeeks[n] - adjWeeks[n + 1];
        if x == 1 {
          assert adjWeeks[n..][1..] == adjWeeks[n + 1..];
          streak := streak + [1];
          n := n + 1;
        } else {
          break;
        }
      }
      SumOfOnes(streak);
      return Some(Sum(streak));
    } else {
      return Some(0);
    }
  }

  /** `compute_current_weekly_streak`, with the progress query's rows and `datetime.now()` as inputs. */
  method ComputeCurrentWeeklyStreak(rows: seq<string>, now: Timestamp) returns (r: Result<Option<nat>, ParseError>)
    requires ValidTimestamp(now)
    ensures rows == [] ==> r == Success(Some(0))
    ensures rows != [] ==>
      match ParsedNewestFirst(rows)
      case Failure(e) => r == Failure(e)
      case Success(habits) => r == Success(CurrentWeekly(Distinct(Weeks(habits)), IsoWeek(now.date)))
  {
    var progress := HabitProgress(rows);
    if progress.None? {
      return Success(Some(0));
    }
    var parsed := NewestFirst(progress.value);
    if parsed.Failure? {
      return Failure(parsed.error);
    }
    var weeks := CalendarWeeks(parsed.value);
    var adjWeeks := DropRepeatedWeeks(weeks);
    var nowWeek := IsoWeek(now.date);
    var streak := CurrentWeeklyRun(adjWeeks, nowWeek);
    r := Success(streak);
  }

  // ===========================================================================
  // Longest streak: the lists diff and adj_diff

  /** `diff` before the last step: 1, then the differences between neighbouring distinct weeks. */
  function Gaps(adj: seq<int>): (diff: seq<int>)
    ensures |diff| == |adj|
  {
    seq(|adj|, n requires 0 <= n < |adj| => if n == 0 then 1 else adj[n - 1] - adj[n])
  }

  /** `diff` with its closing 1, appended when the two oldest distinct weeks differ. */
  function WeekDiffs(adj: seq<int>): seq<int>
    requires |adj| >= 2
  {
    Gaps(adj) + (if adj[|adj| - 1] != adj[|adj| - 2] then [1] else [])
  }

  /** What index i of `diff` contributes to `adj_diff`: a gap above 1 before a 1 becomes 99, 1. */
  function WeekPiece(diff: seq<int>, i: int): seq<int>
    requires 0 <= i < |diff| - 1
  {
    if diff[i] > 1 && diff[i + 1] == 1 then [99, 1] else [diff[i]]
  }

  /** `adj_diff` after the indices 1 .. k-1 of `diff`. */
  function WeekMarksUpTo(diff: seq<int>, k: int): (marks: seq<int>)
    requires 1 <= k && (k == 1 || k <= |diff| - 1)
    ensures |marks| >= 1 && marks[0] == 1
  {
    if k == 1 then [1] else WeekMarksUpTo(diff, k - 1) + WeekPiece(diff, k - 1)
  }

  /** `adj_diff`. */
  function WeekMarks(diff: seq<int>): seq<int>
    requires |diff| >= 2
  {
    WeekMarksUpTo(diff, |diff| - 1)
  }

  /** The longest weekly streak as the source computes it on the distinct weeks. */
  function LongestWeekly(adj: seq<int>): nat {
    if |adj| >= 2 then LongestOnes(WeekMarks(WeekDiffs(adj))) else 1
  }

  // ---------------------------------------------------------------------------
  // Lemmas

  /** A single distinct week gives 1; with more, `adj_diff` starts with 1, so the result is at least 1. */
  lemma LongestWeeklyPositive(adj: seq<int>)
    ensures |adj| < 2 ==> LongestWeekly(adj) == 1
    ensures LongestWeekly(adj) >= 1
  {
    if |adj| >= 2 {
      LongestOnesStartingWithOne(WeekMarks(WeekDiffs(adj)));
    }
  }

  lemma {:induction false} WeekMarksOnes(diff: seq<int>, k: int)
    requires 1 <= k && (k == 1 || k <= |diff| - 1)
    ensures CountOnes(WeekMarksUpTo(diff, k)) <= k
  {
    if k == 1 {
      assert [1][..0] == [];
    } else {
      WeekMarksOnes(diff, k - 1);
      var p := WeekPiece(diff, k - 1);
      CountOnesConcat(WeekMarksUpTo(diff, k - 1), p);
      if |p| == 2 {
        assert p[..1] == [99] && [99][..0] == [];
      } else {
        assert p[..0] == [];
      }
    }
  }

  /** The longest weekly streak never exceeds the number of distinct weeks. */
  lemma LongestWeeklyAtMostWeeks(adj: seq<int>)
    requires |adj| >= 1
    ensures LongestWeekly(adj) <= |adj|
  {
    if |adj| >= 2 {
      var diff := WeekDiffs(adj);
      WeekMarksOnes(diff, |diff| - 1);
      LongestOnesAtMostCount(WeekMarks(diff));
    }
  }

  /** The claim carried from k to k + 1 distinct weeks in LongestWeeklyIsLongestRun. */
  predicate WeekPrefixAgrees(adj: seq<int>, k: int)
    requires 2 <= |adj| && 1 <= k <= |adj|
  {
    var diff := WeekDiffs(adj);
    |diff| == |adj| + 1
    && var marks := WeekMarksUpTo(diff, k);
    var closed := marks[|marks| - 1] != 1;
    BlocksMatchRuns(marks, adj[..k], closed) && (closed ==> diff[k] != 1)
  }

  /**
   * One more distinct week, gap g below the previous one, followed by gap h: its piece of
   * `adj_diff` keeps the block claim.
   */
  lemma WeekBlocksStep(marks: seq<int>, xs: seq<int>, closed: bool, y: int, g: int, h: int)
    requires xs != [] && BlocksMatchRuns(marks, xs, closed) && (closed ==> g != 1)
    requires g == xs[|xs| - 1] - y && g >= 1
    ensures var next := marks + (if g > 1 && h == 1 then [99, 1] else [g]);
      BlocksMatchRuns(next, xs + [y], next[|next| - 1] != 1) && (next[|next| - 1] != 1 ==> h != 1)
  {
    if g == 1 {
      BlocksMatchRunsNext(marks, xs, closed, y, 99);
      assert marks + [] + [1] == marks + [1];
    } else if h == 1 {
      BlocksMatchRunsNext(marks, xs, closed, y, 99);
      BlocksMatchRunsReopen(marks + [99], xs + [y]);
      assert marks + [99] + [1] == marks + [99, 1];
    } else {
      BlocksMatchRunsNext(marks, xs, closed, y, g);
    }
  }

  lemma WeekPrefixAgreesNext(adj: seq<int>, k: int)
    requires 2 <= |adj| && StrictlyDecreasing(adj) && 1 <= k < |adj|
    requires WeekPrefixAgrees(adj, k)
    ensures WeekPrefixAgrees(adj, k + 1)
  {
    var diff := WeekDiffs(adj);
    assert |diff| == |adj| + 1;
    var marks := WeekMarksUpTo(diff, k);
    assert WeekMarksUpTo(diff, k + 1) == marks + WeekPiece(diff, k);
    var xs := adj[..k];
    assert adj[..k + 1] == xs + [adj[k]];
    assert xs[|xs| - 1] == adj[k - 1];
    assert diff[k] == adj[k - 1] - adj[k];
    WeekBlocksStep(marks, xs, marks[|marks| - 1] != 1, adj[k], diff[k], diff[k + 1]);
  }

  lemma {:induction false} WeekPrefixAgreesUpTo(adj: seq<int>, k: int)
    requires 2 <= |adj| && StrictlyDecreasing(adj) && 1 <= k <= |adj|
    ensures WeekPrefixAgrees(adj, k)
    decreases k
  {
    if k == 1 {
      assert adj[..1] == [adj[0]];
      BlocksMatchRunsSingle(adj[0]);
    } else {
      WeekPrefixAgreesUpTo(adj, k - 1);
      WeekPrefixAgreesNext(adj, k - 1);
    }
  }

  /**
   * When the distinct weeks go strictly down (newest first), `adj_diff` computes what a streak
   * means: the longest run of consecutive week numbers.
   */
  lemma LongestWeeklyIsLongestRun(adj: seq<int>)
    requires |adj| >= 1 && StrictlyDecreasing(adj)
    ensures LongestWeekly(adj) == LongestRun(adj)
  {
    if |adj| == 1 {
      assert adj[..0] == [];
    } else {
      WeekPrefixAgreesUpTo(adj, |adj|);
      var diff := WeekDiffs(adj);
      var marks := WeekMarks(diff);
      LongestWeeklyFromMarks(adj, diff, marks);
      assert |diff| == |adj| + 1;
      assert marks == WeekMarksUpTo(diff, |adj|);
      LongestOfAgreement(adj, diff, marks);
    }
  }

  lemma LongestOfAgreement(adj: seq<int>, diff: seq<int>, marks: seq<int>)
    requires 2 <= |adj| && WeekPrefixAgrees(adj, |adj|)
    requires diff == WeekDiffs(adj) && |diff| == |adj| + 1 && marks == WeekMarksUpTo(diff, |adj|)
    ensures LongestOnes(marks) == LongestRun(adj)
  {
    assert adj[..|adj|] == adj;
  }

  lemma LongestWeeklyFromMarks(adj: seq<int>, diff: seq<int>, marks: seq<int>)
    requires |adj| >= 2 && diff == WeekDiffs(adj) && |diff| >= 2 && marks == WeekMarks(diff)
    ensures LongestWeekly(adj) == LongestOnes(marks)
  {
  }

  /** The Mondays of week 1 of the ISO years 2021, 2022 and 2023. */
  lemma Week1Mondays()
    ensures IsoWeek1Monday(2021) == 737794
    ensures IsoWeek1Monday(2022) == 738158
    ensures IsoWeek1Monday(2023) == 738522
  {
    assert DaysBeforeYear(2021) == 737790;
    assert DaysBeforeYear(2022) == 738155;
    assert DaysBeforeYear(2023) == 738520;
  }

  /** 2021-12-27 is the Monday of week 52 of 2021. */
  lemma LastWeekOf2021()
    ensures IsoCalendar(Date(2021, 12, 27)) == IsoDate(2021, 52, 1)
  {
    Week1Mondays();
    assert Ordinal(Date(2021, 12, 27)) == 738151;
    IsoWeekInsideYear(Date(2021, 12, 27), 737794, 738158);
  }

  /** 2022-01-03 is the Monday of week 1 of 2022. */
  lemma FirstWeekOf2022()
    ensures IsoCalendar(Date(2022, 1, 3)) == IsoDate(2022, 1, 1)
  {
    Week1Mondays();
    assert Ordinal(Date(2022, 1, 3)) == 738158;
    IsoWeekInsideYear(Date(2022, 1, 3), 738158, 738522);
  }

  /** Weeks 1 and 52, newest first, are not one apart, so they make no run of two. */
  lemma WeekOneAfterWeek52()
    ensures LongestWeekly(Distinct([1, 52])) == 1
    ensures CurrentWeekly(Distinct([1, 52]), 1) == Some(1)
  {
    assert [1, 52][..1] == [1] && [1][..0] == [];
    assert Distinct([1, 52]) == [1, 52];
    var diff := WeekDiffs([1, 52]);
    assert diff == [1, -51, 1];
    assert WeekMarks(diff) == [1, -51];
    assert [1, -51][..1] == [1] && [1][..0] == [];
  }

  /**
   * The ISO year is ignored. Week 52 of 2021 and week 1 of 2022 follow each other, but done
   * in both, the habit's longest streak is 1, and in the new week its current streak is 1.
   */
  lemma YearBoundaryBreaksWeeklyRun()
    ensures IsoCalendar(Date(2021, 12, 27)) == IsoDate(2021, 52, 1)
    ensures IsoCalendar(Date(2022, 1, 3)) == IsoDate(2022, 1, 1)
    ensures LongestWeekly(Distinct([1, 52])) == 1
    ensures CurrentWeekly(Distinct([1, 52]), 1) == Some(1)
  {
    LastWeekOf2021();
    FirstWeekOf2022();
    WeekOneAfterWeek52();
  }

  /**
   * The wrap from week 1 back to week 52 is a gap of -51, and only a gap larger than 1 before a 1
   * is split into 99, 1. So the run of weeks before a new year loses its first 1: done in weeks
   * 50, 51 and 52 of 2021, the habit's longest streak is 3, and done once more in week 1 of 2022
   * it drops to 2, although the run 52, 51, 50 is still there.
   */
  lemma NewYearShortensOlderRun()
    ensures LongestWeekly([52, 51, 50]) == 3
    ensures Distinct([1, 52, 51, 50]) == [1, 52, 51, 50]
    ensures LongestWeekly([1, 52, 51, 50]) == 2
    ensures LongestRun([1, 52, 51, 50]) == 3
  {
    ThreeWeeksInOneYear();
    NewYearWeeksDistinct();
    NewYearWeekly();
    NewYearLongestRun();
  }

  /** Weeks 52, 51 and 50 give a longest weekly streak of 3. */
  lemma ThreeWeeksInOneYear()
    ensures LongestWeekly([52, 51, 50]) == 3
  {
    var diff := WeekDiffs([52, 51, 50]);
    assert diff == [1, 1, 1, 1];
    assert WeekMarksUpTo(diff, 2) == [1, 1];
    assert WeekMarks(diff) == [1, 1, 1];
    assert [1, 1, 1][..2] == [1, 1];
    assert [1, 1][..1] == [1];
    assert [1][..0] == [];
  }

  /** Week 1 and weeks 52, 51, 50 are four distinct weeks. */
  lemma NewYearWeeksDistinct()
    ensures Distinct([1, 52, 51, 50]) == [1, 52, 51, 50]
  {
    var xs := [1, 52, 51, 50];
    assert xs[..3] == [1, 52, 51];
    assert xs[..3][..2] == [1, 52];
    assert xs[..3][..2][..1] == [1];
    assert [1][..0] == [];
  }

  /** With week 1 first, `adj_diff` is 1, -51, 1, 1: the leading 1 of the older run is gone. */
  lemma NewYearWeekly()
    ensures LongestWeekly([1, 52, 51, 50]) == 2
  {
    var wrapped := WeekDiffs([1, 52, 51, 50]);
    assert wrapped == [1, -51, 1, 1, 1];
    assert WeekMarksUpTo(wrapped, 2) == [1, -51];
    assert WeekMarksUpTo(wrapped, 3) == [1, -51, 1];
    assert WeekMarks(wrapped) == [1, -51, 1, 1];
    assert [1, -51, 1, 1][..3] == [1, -51, 1];
    assert [1, -51, 1][..2] == [1, -51];
    assert [1, -51][..1] == [1];
    assert [1][..0] == [];
  }

  /** The run 52, 51, 50 is still there in 1, 52, 51, 50. */
  lemma NewYearLongestRun()
    ensures LongestRun([1, 52, 51, 50]) == 3
  {
    var xs := [1, 52, 51, 50];
    assert xs[..3] == [1, 52, 51];
    assert xs[..3][..2] == [1, 52];
    assert xs[..3][..2][..1] == [1];
    assert [1][..0] == [];
    assert TrailingRun(xs) == 3;
    assert LongestRun([1]) == 1;
    assert LongestRun([1, 52]) == 1;
    assert LongestRun([1, 52, 51]) == 2;
  }

  /** 2021-05-18 is in week 20 of 2021. */
  lemma May18In2021()
    ensures IsoWeek(Date(2021, 5, 18)) == 20
  {
    Week1Mondays();
    assert Ordinal(Date(2021, 5, 18)) == 737928;
    IsoWeekInsideYear(Date(2021, 5, 18), 737794, 738158);
  }

  /** 2022-05-18 is in week 20 of 2022. */
  lemma May18In2022()
    ensures IsoWeek(Date(2022, 5, 18)) == 20
  {
    Week1Mondays();
    assert Ordinal(Date(2022, 5, 18)) == 738293;
    IsoWeekInsideYear(Date(2022, 5, 18), 738158, 738522);
  }

  /** The ISO year is ignored: the same week number in two years counts once. */
  lemma SameWeekNumberInTwoYears()
    ensures IsoWeek(Date(2021, 5, 18)) == 20 && IsoWeek(Date(2022, 5, 18)) == 20
    ensures Distinct([20, 20]) == [20]
  {
    May18In2021();
    May18In2022();
    assert [20, 20][..1] == [20] && [20][..0] == [];
  }

  // ---------------------------------------------------------------------------
  // The loops of compute_longest_weekly_streak_habit

  /** The loop that builds `diff`, and its closing 1. */
  method WeeklyDiffs(adjWeeks: seq<int>) returns (diff: seq<int>)
    ensures |adjWeeks| < 2 ==> diff == [1]
    ensures |adjWeeks| >= 2 ==> diff == WeekDiffs(adjWeeks)
  {
    diff := [1];
    var n := 0;
    while n < |adjWeeks| - 1
      invariant 0 <= n && (n == 0 || n <= |adjWeeks| - 1)
      invariant |diff| == n + 1 && diff[0] == 1
      invariant forall k :: 0 < k <= n ==> diff[k] == adjWeeks[k - 1] - adjWeeks[k]
    {
      var x := adjWeeks[n] - adjWeeks[n + 1];
      diff := diff + [x];
      n := n + 1;
    }
    if |adjWeeks| >= 2 {
      assert diff == Gaps(adjWeeks);
      if adjWeeks[|adjWeeks| - 1] != adjWeeks[|adjWeeks| - 2] {
        diff := diff + [1];
      }
    }
  }

  /** The loop that builds `adj_diff`. */
  method MarkWeekRuns(diff: seq<int>) returns (adjDiff: seq<int>)
    requires |diff| >= 2
    ensures adjDiff == WeekMarks(diff)
  {
    adjDiff := [1];
    for i := 1 to |diff| - 1
      invariant adjDiff == WeekMarksUpTo(diff, i)
    {
      if diff[i] > 1 && diff[i + 1] == 1 {
        adjDiff := adjDiff + [99];
        adjDiff := adjDiff + [1];
      } else {
        adjDiff := adjDiff + [diff[i]];
      }
    }
  }

  /** `compute_longest_weekly_streak_habit`, with the progress query's rows as input. */
  method ComputeLongestWeeklyStreak(rows: seq<string>) returns (r: Result<nat, ParseError>)
    ensures rows == [] ==> r == Success(0)
    ensures rows != [] ==>
      match ParsedNewestFirst(rows)
      case Failure(e) => r == Failure(e)
      case Success(habits) => r == Success(LongestWeekly(Distinct(Weeks(habits))))
  {
    var progress := HabitProgress(rows);
    if progress.None? {
      return Success(0);
    }
    var parsed := NewestFirst(progress.value);
    if parsed.Failure? {
      return Failure(parsed.error);
    }
    var weeks := CalendarWeeks(parsed.value);
    var adjWeeks := DropRepeatedWeeks(weeks);
    var diff := WeeklyDiffs(adjWeeks);
    if |adjWeeks| >= 2 {
      var adjDiff := MarkWeekRuns(diff);
      var maxValue := LongestBlock(adjDiff);
      assert maxValue >= 0;
      return Success(maxValue);
    } else {
      return Success(1);
    }
  }
}
