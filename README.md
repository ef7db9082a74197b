# Streaks of the habit tracker

This project models the streak computation of the command-line habit tracker, in Dafny. The
tracker stores every completion of a habit as a row of the `progress` table. `User.py` has four
methods that turn those rows into a number:

- `compute_current_daily_streak`
- `compute_longest_daily_streak_habit`
- `compute_current_weekly_streak`
- `compute_longest_weekly_streak_habit`

Each method does the same first steps:

1. It fetches the habit's rows with `get_habit_progress`, which gives `None` when there are none.
2. It reverses the rows, so the newest comes first.
3. It reads each row with `datetime.strptime(text, '%Y-%m-%d %H:%M:%S.%f')`.
4. It reduces each timestamp to what it compares:
   - the daily methods use the calendar date;
   - the weekly methods use the ISO week number `isocalendar()[1]` and drop the ISO year.

After that, the current streaks count back from today (or from the current week). The longest
streaks build lists of differences, mark breaks with the sentinel 99, and take the largest sum
of a block of 1s.

The model keeps that shape:

- Each method is a Dafny `method` that takes the fetched rows and, where the source reads the clock,
  `datetime.now()` as inputs.
  It returns a `Result`: a parse failure stands for the `ValueError` that `strptime` raises, and
  in the current daily streak `Overflow` stands for the `OverflowError` of stepping back before
  0001-01-01.
- Each loop of the source is a method with its invariants. Its `ensures` ties the result to a
  function of the inputs (`CurrentRun`, `Clean`, `FinalDiff`, `Distinct`, `WeekMarks`, ...).
- The properties are lemmas about those functions:
  - what the current streaks count;
  - the shape of the sentinel lists;
  - bounds;
  - de-duplication;
  - that the sentinel machinery computes the longest run of consecutive days, on at most one
    completion per day, and of consecutive week numbers, on strictly decreasing distinct week
    numbers (completions inside one ISO year);
  - that the fixed-width timestamp text reads back as written.

Modules, one per file:

- `Wrappers` (`wrappers.dfy`): `Option` and `Result`.
- `Calendar` (`calendar.dfy`): proleptic Gregorian dates and their day ordinal (`date.toordinal()`).
  It also holds the ISO 8601 week date, computed the way Python's `date.isocalendar()` computes it
  (week 1 is the Monday-to-Sunday week holding the year's first Thursday).
- `Timestamps` (`timestamps.dfy`): the 26-character stored text and its parse.
- `Progress` (`progress.dfy`): `get_habit_progress`'s `None` convention and the loop that builds
  `habits`.
- `Segments` (`segments.dfy`):
  - Python's `sum` and `max`;
  - the block-summing loop that both longest-streak methods share;
  - blocks of 1s;
  - runs of consecutive values.
- `DailyStreak` (`daily.dfy`) and `WeeklyStreak` (`weekly.dfy`): the four methods.
- `Histories` (`histories.dfy`): the test user's weekly habit "Yoga", from its stored rows to its streaks.

The model follows the code, quirks included, even where they depart from what a streak is usually
taken to mean:

- Weekly markers compare week numbers only:
  - week 1 of a year does not follow the last week of the year before
    (`YearBoundaryBreaksWeeklyRun`);
  - the same week number in two years is one week (`SameWeekNumberInTwoYears`);
  - the wrap from week 1 back to week 52 also takes the leading 1 off the run before it. Weeks 50,
    51 and 52 give a longest streak of 3, and one more completion in week 1 of the next year lowers
    it to 2 (`NewYearShortensOlderRun`).
- The daily methods do not de-duplicate days:
  - a second completion today resets the current streak (`SecondCompletionTodayResetsCurrent`);
  - a second completion today counts as one more day in the longest streak
    (`SameDayCountsTwiceInLongest`), but a third does not (`ThirdCompletionTodayNotCounted`);
  - a second completion on the newest day, when that day is not today, is not counted
    (`RepeatedNewestDayCountsOnce`).
- An unknown habit has no rows, so every streak is 0. No "habit not found" error is raised.
- One distinct week that is not the current week gives no value (`None`), not 0.

## Model

| member | source | states |
|---|---|---|
| Progress.HabitProgress | User.py:514-543 | no value exactly when the query returned no rows; otherwise the rows themselves |
| Progress.ParsedNewestFirst | User.py:626-628 | on success one timestamp per row, each a valid `datetime` |
| Progress.ParsedNewestFirstCorrect | User.py:626-628 | reading succeeds exactly when every row parses; then the i-th habit is the parse of the i-th row from the end; on failure the error is that of a row after which every row parses (the last bad row) |
| Progress.ParsedNewestFirstSucceeds | User.py:626-628 | reading succeeds if and only if every row parses |
| Progress.ParsedNewestFirstValues | User.py:626-628 | the i-th habit is the parse of row number len-1-i |
| Progress.ParsedNewestFirstError | User.py:626-628 | the reported error belongs to the last stored row that does not parse |
| Progress.FailureSpreads | User.py:626-628 | a bad row makes the whole read fail with the error of the last bad row, whatever comes before it |
| Progress.NewestFirst | User.py:626-628 | the `for habit in reversed(...)` loop gives exactly `ParsedNewestFirst` of the rows, stopping at the first failure |
| Progress.StoredRows | User.py:503-506 | one stored text per completion, the text `is_completed` inserts for its `datetime.now()` when the microsecond is not 0 |
| Progress.StoredRowsParse | User.py:627 | every stored text parses back to its own completion (for the source: when its microsecond is not 0) |
| Progress.ReadBackStoredRows | User.py:626-628 | rows stored oldest first read back without error as the same completions, newest first (for the source: when no microsecond is 0) |
| Progress.Days | User.py:629-632 | the `date()` ordinal of every habit, in order; characterised by `DaysIgnoreTimeOfDay` |
| Progress.Weeks | User.py:669-672 | `isocalendar()[1]` of every habit, in order; characterised by `WeeksReversed` and `DaysIgnoreTimeOfDay` |
| Progress.WeeksReversed | User.py:670-672 | completions in reverse order have their week numbers in reverse order |
| Progress.DaysIgnoreTimeOfDay | User.py:629-632 | two histories with the same dates have the same day ordinals and week numbers: the time of day never matters |
| Timestamps.Parse | User.py:627 | a text that parses is a valid timestamp; it fails with a mismatch exactly when the text lacks the layout or a field breaks its directive's pattern, and as out of range exactly when it has the layout but `datetime` refuses a field; either error carries the text |
| Timestamps.DayOf | User.py:629-632 | the ordinal of a timestamp's `date()`, dropping the time of day; characterised by `DaysIgnoreTimeOfDay` |
| Timestamps.Decimal | User.py:627 | a number written as a field has exactly the field's width, all digits |
| Timestamps.ValueOfDecimal | User.py:627 | a number below 10^width, written with width digits, reads back as itself |
| Timestamps.DecimalOfValue | User.py:627 | a digit field is the zero-padded writing of its own value |
| Timestamps.Format | User.py:627 | the stored text has 26 characters |
| Timestamps.ParseFormat | User.py:627 | the six-digit text of a valid timestamp parses back to that timestamp |
| Timestamps.FormatParse | User.py:627 | every text that parses is exactly the stored text of what it parses to |
| Calendar.Ordinal | User.py:815 | `date.toordinal()`: the dates that `==` compares and `-` subtracts; characterised by `OrdinalInYear`, `OrdinalMonotone` and `OrdinalInjective` |
| Calendar.IsoWeek1Monday | User.py:671 | the ordinal of the Monday that starts ISO week 1 of a year; characterised by `Week1MondayNearNewYear`, `Week1MondayGap` and `Week1MondayIncreasing` |
| Calendar.IsoWeekDate | User.py:671 | the week count of `isocalendar()` from the week-1 Mondays of three neighbouring years; characterised by `IsoWeekDateCorrect` |
| Calendar.IsoWeek | User.py:671 | `isocalendar()[1]`; characterised by `IsoWeekInsideYear` and `IsoWeekMonotone` |
| Calendar.IsoCalendar | User.py:671 | for a valid date, week 1..53, weekday 1..7, ISO year within one of the calendar year |
| Calendar.IsoDayOfYear | User.py:671 | for a day inside the year, the ISO week date names that day: its ISO year is the one among the year and its neighbours whose weeks (from its week-1 Monday up to the next) hold the day, and the day is that Monday plus whole weeks plus the weekday |
| Calendar.IsoCalendarCorrect | User.py:671 | a valid date lies between the week-1 Monday of its ISO year and the next year's, and its ordinal equals that Monday plus 7 times (week - 1) plus (weekday - 1) |
| Calendar.IsoCalendarUnique | User.py:671 | any week date with weekday 1..7 whose ISO year holds the day and which names the day is the one `isocalendar()` gives |
| Calendar.December29th2014 | User.py:671 | 2014-12-29 is the Monday of week 1 of 2015, not a week 53 of 2014 |
| Calendar.IsoWeekDateOfDay | User.py:671 | the week-counting step gives a week date in range whose ISO year holds the day (between its week-1 Monday and the next) and which names the day |
| Calendar.IsoWeekDateCorrect | User.py:671 | the case the week count takes is the ISO year whose weeks hold the day (last year's before this year's week 1, this year's up to next year's week 1, next year's week 1 after that), and the week date it gives names the day |
| Calendar.SameIsoYear | User.py:671 | only one ISO year's weeks hold a given day |
| Calendar.Week1MondayIncreasing | User.py:671 | week-1 Mondays never decrease from one year to a later one |
| Calendar.Week1MondayNearNewYear | User.py:671 | week 1 starts on a Monday within three days of January 1st |
| Calendar.Week1MondayGap | User.py:671 | an ISO year is 52 or 53 weeks long |
| Calendar.IsoWeekMonotone | User.py:892 | within one ISO year a later day never has a smaller week number |
| Calendar.IsoWeekInsideYear | User.py:671 | inside ISO year y, the week number is the number of whole weeks since the Monday of week 1, plus 1 |
| Calendar.YearLength | User.py:815 | consecutive January 1st ordinals are 365 or 366 days apart, as the leap-year rule says |
| Calendar.OrdinalInYear | User.py:815 | a valid date's ordinal lies inside its year |
| Calendar.OrdinalMonotone | User.py:815 | a later date has a larger ordinal, so `(a - b).days` is positive for a later a |
| Calendar.OrdinalInjective | User.py:632 | two valid dates are equal if and only if their ordinals are: comparing `date()` values is comparing ordinals |
| Segments.Sum | User.py:851-856 | Python's `sum`; characterised by `SumOfOnes` |
| Segments.Max | User.py:858 | `max` is an element of the list and no element is larger |
| Segments.SumOfOnes | User.py:851 | the sum of a list of 1s is its length |
| Segments.TrailingOnesIsBlock | User.py:847-849 | the trailing count is the length of a block of 1s ending the list, and no such block is longer |
| Segments.LongestOnesIsLongest | User.py:842-858 | the longest-block length is the length of some block of 1s, and no block of 1s is longer |
| Segments.LongestOnesAtMostCount | User.py:842-858 | the longest block of 1s has no more 1s than the list |
| Segments.LongestOnesStartingWithOne | User.py:858 | a list that starts with 1 has a block of 1s of length at least 1 |
| Segments.LongestBlock | User.py:845-858 | the `cache`/`streak_count` loop with `cache.clear()` and the final `max` returns the length of the longest block of 1s |
| Segments.TrailingRunIsRun | User.py:786-788 | the trailing run is a run of consecutive values ending the list, and no run ending there is longer |
| Segments.LongestRunIsLongest | User.py:786-788 | the longest-run length is the length of some run of consecutive values, and no run is longer |
| Segments.LongestRunAppend | User.py:786-788 | one more value extends the trailing run when it is one below the last value; otherwise it starts a new run of one |
| Segments.LongestRunPositive | User.py:786-788 | a non-empty history has a run of at least one |
| DailyStreak.CurrentRun | User.py:629-636 | the current daily streak: 1 for a completion today, then one per completion on the day before the last one counted; characterised by `CurrentRunCorrect` |
| DailyStreak.CountBackCorrect | User.py:631-636 | the loop counts exactly the leading entries equal to ref, ref-1, ...; the entry where it stops breaks the pattern |
| DailyStreak.CurrentRunCorrect | User.py:624-638 | the streak is the length of the longest prefix counting down one day at a time from today, or from yesterday when today is not done; at most the number of completions; 0 exactly when the newest completion is neither today nor yesterday |
| DailyStreak.CurrentRunGrowsWhenDoneToday | User.py:629-636 | completing the habit today, after yesterday, raises the current streak by exactly one |
| DailyStreak.SecondCompletionTodayResetsCurrent | User.py:629-636 | done on three consecutive days the streak is 3; one more completion today drops it to 1 |
| DailyStreak.YesterdayAndTheDayBefore | User.py:624-638 | done on 2021-08-06 and 2021-08-05, on 2021-08-07 the current streak is 2 |
| DailyStreak.FinalRef | User.py:624-636 | the day `ref` ends on: yesterday, less one day per completion counted; characterised by `OverflowOnFirstDay` |
| DailyStreak.OverflowOnFirstDay | User.py:631-636 | with now after 0001-01-01, `ref` steps before the first day exactly when the loop counts a completion on 0001-01-01 |
| DailyStreak.FirstDayCompletionOverflows | User.py:634 | a completion on 0001-01-01, asked on 0001-01-02: the streak would be 1, but `ref` steps before the first day |
| DailyStreak.CurrentDailyRun | User.py:624-636 | the counting loop with `streak` and `ref` returns `CurrentRun`, or no value when `ref` steps before 0001-01-01 |
| DailyStreak.ComputeCurrentDailyStreak | User.py:621-638 | no rows give 0; now on 0001-01-01 overflows; a row that does not parse gives the parse error; then the loop overflows when `ref` steps before 0001-01-01, and otherwise gives the current run of the dates read newest first, counted from the date of `now` |
| DailyStreak.TempDiff | User.py:828-834 | `temp_diff` after the first k-1 steps of its loop; characterised by `TempDiffFromAdj` and `FinalDiffAppend` |
| DailyStreak.FinalDiff | User.py:828-836 | `final_diff` before the rewrite of 0s: `adj_diff` without its leading 99, with an extra 1 after every 99 that a 1 follows; characterised by `FinalShape` and `FinalDiffAppend` |
| DailyStreak.LongestDaily | User.py:809-858 | the longest daily streak; characterised by `LongestDailyIsLongestRun`, `LongestDailyPositive` and `LongestDailyAtMostCompletions` |
| DailyStreak.Diffs | User.py:810-816 | one entry per completion |
| DailyStreak.Clean | User.py:819-826 | `adj_diff` starts with 99, and its second entry is the first entry of `diff` when that is 0 or 1 |
| DailyStreak.CleanShape | User.py:819-826 | `adj_diff` holds only 0, 1 and 99, never has a 0 right after a 0, and has at most one more entry than `diff` |
| DailyStreak.ZerosToOnes | User.py:838-840 | the rewrite keeps the length |
| DailyStreak.TempDiffFromAdj | User.py:828-834 | `temp_diff` holds only 1, 99 and entries of `adj_diff` |
| DailyStreak.FinalShape | User.py:828-840 | after the in-place rewrite, `final_diff` holds only 1 and 99 |
| DailyStreak.LongestDailyPositive | User.py:811-858 | with at least one completion the longest daily streak is at least 1, because `final_diff` starts with 0 or 1 |
| DailyStreak.LongestDailyAtMostCompletions | User.py:809-858 | the longest daily streak never exceeds the number of completions |
| DailyStreak.ThirdCompletionTodayNotCounted | User.py:819-826 | three completions today and none before give a longest daily streak of 2, as two do |
| DailyStreak.RepeatedNewestDayCountsOnce | User.py:811-826 | two completions on day d, or one, give a longest daily streak of 1 on day d + 2 |
| DailyStreak.SameDayCountsTwiceInLongest | User.py:814-840 | two completions today and none before give a longest daily streak of 2 |
| DailyStreak.FinalDiffAppend | User.py:828-836 | one more `adj_diff` entry appends itself to `final_diff`, after an extra 1 when it follows a 99 |
| DailyStreak.LongestDailyIsLongestRun | User.py:809-858 | on at most one completion per day, rows in time order, the longest daily streak is the longest run of consecutive days |
| DailyStreak.DailyDiffs | User.py:810-816 | the loop that builds `diff` returns `Diffs` |
| DailyStreak.CleanDiffs | User.py:819-826 | the loop that builds `adj_diff` returns `Clean` |
| DailyStreak.MarkRunStarts | User.py:828-836 | the `temp_diff` loop and `final_diff = temp_diff + adj_diff[-1:]` return `FinalDiff` |
| DailyStreak.RewriteZeros | User.py:838-840 | the array afterwards is the old contents with every 0 replaced by 1 |
| DailyStreak.LongestDailyRun | User.py:809-858 | the list-building loops, the in-place rewrite and the block sum return `LongestDaily` |
| DailyStreak.ComputeLongestDailyStreak | User.py:800-859 | no rows give 0; a row that does not parse gives the parse error; otherwise the longest daily streak of the dates read newest first |
| WeeklyStreak.CalendarWeeks | User.py:669-672 | the loop that builds `calendar_weeks` returns the week number of every habit, in order |
| WeeklyStreak.Distinct | User.py:675-680 | de-duplication never lengthens the list and keeps the newest week first |
| WeeklyStreak.FirstIndex | User.py:678 | the position of the first occurrence of a value |
| WeeklyStreak.DistinctCorrect | User.py:675-680 | no week number twice; exactly the week numbers of the input; in the order of their first occurrences |
| WeeklyStreak.DistinctExtend | User.py:677-680 | a week number is kept exactly when it was not seen before |
| WeeklyStreak.DropRepeatedWeeks | User.py:675-680 | the loop with `adj_calendar_weeks` and `x` returns `Distinct` |
| WeeklyStreak.DistinctOfNonIncreasing | User.py:675-680 | week numbers that never grow become strictly decreasing once repeats go |
| WeeklyStreak.WeeksOfOneYear | User.py:668-680 | completions of one ISO year, stored in time order, give strictly decreasing distinct weeks newest first |
| WeeklyStreak.LeadingUnitGaps | User.py:695-700 | the number of leading week pairs one apart, where the streak loop breaks; characterised by `LeadingUnitGapsCorrect` |
| WeeklyStreak.CurrentWeekly | User.py:686-704 | the current weekly streak, no value when the code falls off the end; characterised by `CurrentWeeklyCorrect` and `CurrentWeeklyDoneThisWeek` |
| WeeklyStreak.LeadingUnitGapsCorrect | User.py:695-700 | 1 plus the leading unit gaps is the length of the prefix that counts down one week at a time; the next week breaks that pattern |
| WeeklyStreak.CurrentWeeklyCorrect | User.py:686-704 | no value exactly when there is one distinct week and it is not the current week; otherwise the streak counts the distinct weeks down one at a time from the current week, at most their number, and is 0 exactly when the newest is not the current week |
| WeeklyStreak.DistinctRepeatFirst | User.py:675-680 | another completion in the newest week leaves the distinct weeks unchanged |
| WeeklyStreak.CurrentWeeklyDoneThisWeek | User.py:683-704 | completing the habit in the current week always gives a value, and never a smaller one |
| WeeklyStreak.CurrentWeeklyRun | User.py:686-704 | the streak loop and `sum(streak)` return `CurrentWeekly`, including no value when the code falls off the end |
| WeeklyStreak.ComputeCurrentWeeklyStreak | User.py:658-704 | no rows give 0; a row that does not parse gives the parse error; otherwise `CurrentWeekly` of the distinct week numbers, against the week of `now` |
| WeeklyStreak.WeekDiffs | User.py:903-911 | `diff`: 1, the gaps between neighbouring distinct weeks, and a closing 1 when the last two differ; characterised by `WeekBlocksStep` and `LongestWeeklyIsLongestRun` |
| WeeklyStreak.WeekMarks | User.py:913-919 | `adj_diff`: 1, then the entries of `diff` between its first and its last, a gap larger than 1 that a 1 follows written as 99, 1; characterised by `WeekMarksOnes` and `WeekBlocksStep` |
| WeeklyStreak.LongestWeekly | User.py:903-940 | the longest weekly streak, 1 for fewer than two distinct weeks; characterised by `LongestWeeklyIsLongestRun`, `LongestWeeklyPositive` and `LongestWeeklyAtMostWeeks` |
| WeeklyStreak.Gaps | User.py:904-907 | one entry per distinct week |
| WeeklyStreak.WeekMarksUpTo | User.py:913-919 | `adj_diff` starts with 1 |
| WeeklyStreak.LongestWeeklyPositive | User.py:909-940 | one distinct week gives 1; in every case the longest weekly streak is at least 1 |
| WeeklyStreak.WeekMarksOnes | User.py:913-919 | `adj_diff` up to index k holds at most k 1s |
| WeeklyStreak.LongestWeeklyAtMostWeeks | User.py:903-940 | the longest weekly streak never exceeds the number of distinct weeks |
| WeeklyStreak.WeekBlocksStep | User.py:913-919 | one more distinct week keeps the blocks of `adj_diff` equal to the runs of weeks so far |
| WeeklyStreak.LongestWeeklyIsLongestRun | User.py:903-938 | on strictly decreasing distinct weeks, the longest weekly streak is the longest run of consecutive week numbers |
| WeeklyStreak.Week1Mondays | User.py:671 | the Mondays that start ISO week 1 of 2021, 2022 and 2023 |
| WeeklyStreak.LastWeekOf2021 | User.py:671 | 2021-12-27 is the Monday of week 52 of 2021 |
| WeeklyStreak.FirstWeekOf2022 | User.py:671 | 2022-01-03 is the Monday of week 1 of 2022 |
| WeeklyStreak.WeekOneAfterWeek52 | User.py:903-938 | weeks 1 and 52 are not one apart: longest streak 1, current streak 1 |
| WeeklyStreak.YearBoundaryBreaksWeeklyRun | User.py:892 | consecutive weeks across a new year (week 52 of 2021, week 1 of 2022) make no streak of two |
| WeeklyStreak.NewYearShortensOlderRun | User.py:903-938 | weeks 52, 51, 50 give a longest weekly streak of 3; with week 1 before them, the distinct weeks are 1, 52, 51, 50 and the streak is 2, though their longest run is still 3; one fact each in `ThreeWeeksInOneYear`, `NewYearWeeksDistinct`, `NewYearWeekly` and `NewYearLongestRun` |
| WeeklyStreak.May18In2021 | User.py:671 | 2021-05-18 is in week 20 |
| WeeklyStreak.May18In2022 | User.py:671 | 2022-05-18 is in week 20 |
| WeeklyStreak.SameWeekNumberInTwoYears | User.py:896-901 | the same week number in two years is kept once |
| WeeklyStreak.WeeklyDiffs | User.py:904-911 | the loop that builds `diff`, with its closing 1, returns `WeekDiffs` (just `[1]` for fewer than two weeks) |
| WeeklyStreak.MarkWeekRuns | User.py:913-919 | the loop that builds `adj_diff` returns `WeekMarks` |
| WeeklyStreak.ComputeLongestWeeklyStreak | User.py:880-940 | no rows give 0; a row that does not parse gives the parse error; otherwise `LongestWeekly` of the distinct week numbers |
| Histories.YogaValid | test/test_User.py:41-44 | Yoga's eleven completions are valid timestamps |
| Histories.YogaWeeksOldestFirst | test/test_User.py:41-44 | Yoga's completions fall in weeks 20, 21, 23, 25, 25, 26, 27, 27, 28, 30, 31 |
| Histories.YogaReadBack | test/test_User.py:41-44 | Yoga's stored rows read back without error, with these week numbers newest first |
| Histories.YogaDistinctWeeks | User.py:896-901 | de-duplication of Yoga's week numbers drops the second 27 and the second 25 |
| Histories.YogaStreaks | test/test_User.py:75-82 | on Yoga's distinct weeks, the current streak in week 31 is 2 and the longest streak is 4 |
| Histories.YogaFromStoredRows | test/test_User.py:57-64 | from Yoga's stored rows (none with microsecond 0), the current weekly streak in week 31 is 2 and the longest is 4 |

## Left out

- The sqlite3 connection, queries and commits. The rows `get_habit_progress` fetches are an input.
- The questionary prompts and every `print`.
- Registration, login and `hashlib` password hashing.
- `main.py`, `initialisation.py` and `Habit.py`: menu flow, database set-up and a plain record.
- The display and dispatch methods `current_streak_overview`, `current_streak_habit`,
  `longest_streak_overview` and `longest_streak_habit`. They only query and print.
- The listing methods `show_all`, `show_weekly_habits` and `show_daily_habits`.
- `datetime.now()` becomes the input `now`. The source reads the clock twice in
  `compute_current_daily_streak`, and the model uses one value for both. The two readings differ
  only when the call straddles midnight.
- The habit name and periodicity that select the rows. An unknown habit is a habit with no rows.
- Timestamps.Parse: accepts only the fixed-width layout of ASCII digits. `strptime` also accepts
  fields with fewer digits (such as `2021-5-18`), a day padded with a space (such as ` 8`), 1 to 6
  microsecond digits, decimal digits outside ASCII (`\d` matches any Unicode digit), and any run of
  whitespace for the space. Such texts are refused here.
- Timestamps.Format: always writes the six microsecond digits. Python's `str(datetime)` leaves
  them out when the microsecond is 0, and `strptime` then refuses the text.
- Progress.StoredRows: writes each completion with `Format`, so a completion whose microsecond
  is 0 is stored with six digits. In the source that row has 19 characters, and every streak
  method of its habit then raises `ValueError`.
- Progress.StoredRowsParse: holds for the source only for completions whose microsecond is not 0.
- Progress.ReadBackStoredRows: holds for the source only when no completion's microsecond is 0.
- Timestamps.ParseFormat: is about the six-digit text. For the source's stored text it holds
  only when the microsecond is not 0.
- Histories.YogaFromStoredRows: not affected. None of Yoga's eleven microseconds is 0.
- The Walking, Journaling and Drawing histories that the tests use are not part of this model.
  Their rows live only in the database. So the expected values Walking 2 and 4, Journaling 5,
  and Drawing 0 and 5 are not derived. Yoga's rows are given in the tests, and its values are.
- A Python `int` is unbounded, and so is the model's `int`. No integer width or overflow is
  modelled. The one bound of `datetime` the core can cross, 0001-01-01, is modelled as
  `Overflow` in the current daily streak. Its other steps (date differences, ISO weeks) stay
  inside the range.
