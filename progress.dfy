/**
 * The completion rows of one habit and how every streak method first reads them: the query
 * result as `None` when it is empty, then the rows newest first, each parsed into a timestamp.
 */
module Progress {
  import opened Wrappers
  import opened Calendar
  import opened Timestamps

  /**
   * `get_habit_progress`: the rows the progress query returned for the habit, or `None` when
   * there are none (an unknown habit has none either).
   */
  function HabitProgress(rows: seq<string>): (r: Option<seq<string>>)
    ensures r.None? <==> rows == []
    ensures r.Some? ==> r.value == rows
  {
    if |rows| > 0 then Some(rows) else None
  }

  predicate AllValid(habits: seq<Timestamp>) {
    forall i :: 0 <= i < |habits| ==> ValidTimestamp(habits[i])
  }

  /**
   * The list `habits`: the rows in reverse stored order, each read with `strptime`. The loop
   * takes the last stored row first and stops at the first row (in that order) that does not
   * parse, so the error reported is that of the last unparsable stored row.
   */
  function ParsedNewestFirst(rows: seq<string>): (r: Result<seq<Timestamp>, ParseError>)
    ensures r.Success? ==> |r.value| == |rows| && AllValid(r.value)
  {
    if rows == [] then Success([])
    else
      match ParsedNewestFirst(rows[1..])
      case Failure(e) => Failure(e)
      case Success(later) =>
        match Parse(rows[0])
        case Failure(e) => Failure(e)
        case Success(t) => Success(later + [t])
  }

  /** Parsing fails exactly when some row fails; otherwise the i-th habit is the i-th row from the end. */
  lemma ParsedNewestFirstCorrect(rows: seq<string>)
    ensures ParsedNewestFirst(rows).Success? <==> forall i :: 0 <= i < |rows| ==> Parse(rows[i]).Success?
    ensures ParsedNewestFirst(rows).Success? ==>
      var habits := ParsedNewestFirst(rows).value;
      |habits| == |rows| && AllValid(habits)
      && forall i {:trigger habits[i]} :: 0 <= i < |rows| ==> Parse(rows[|rows| - 1 - i]) == Success(habits[i])
    ensures ParsedNewestFirst(rows).Failure? ==>
      exists k :: 0 <= k < |rows| && Parse(rows[k]) == Failure(ParsedNewestFirst(rows).error)
        && forall j :: k < j < |rows| ==> Parse(rows[j]).Success?
  {
    ParsedNewestFirstSucceeds(rows);
    if ParsedNewestFirst(rows).Success? {
      ParsedNewestFirstValues(rows);
    } else {
      ParsedNewestFirstError(rows);
    }
  }

  lemma {:induction false} ParsedNewestFirstSucceeds(rows: seq<string>)
    ensures ParsedNewestFirst(rows).Success? <==> forall i :: 0 <= i < |rows| ==> Parse(rows[i]).Success?
  {
    if rows != [] {
      var tail := rows[1..];
      ParsedNewestFirstSucceeds(tail);
      assert forall i :: 0 < i < |rows| ==> rows[i] == tail[i - 1];
    }
  }

  lemma {:induction false} ParsedNewestFirstValues(rows: seq<string>)
    requires ParsedNewestFirst(rows).Success?
    ensures forall i {:trigger ParsedNewestFirst(rows).value[i]} :: 0 <= i < |rows| ==>
      Parse(rows[|rows| - 1 - i]) == Success(ParsedNewestFirst(rows).value[i])
  {
    if rows != [] {
      var tail := rows[1..];
      ParsedNewestFirstValues(tail);
      var later := ParsedNewestFirst(tail).value;
      var habits := later + [Parse(rows[0]).value];
      assert ParsedNewestFirst(rows).value == habits;
      forall i | 0 <= i < |rows| ensures Parse(rows[|rows| - 1 - i]) == Success(habits[i]) {
        if i < |later| {
          assert habits[i] == later[i];
          assert rows[|rows| - 1 - i] == tail[|tail| - 1 - i];
          assert Parse(tail[|tail| - 1 - i]) == Success(later[i]);
        } else {
          assert habits[i] == Parse(rows[0]).value;
        }
      }
    }
  }

  lemma {:induction false} ParsedNewestFirstError(rows: seq<string>)
    requires ParsedNewestFirst(rows).Failure?
    ensures exists k :: (0 <= k < |rows| && Parse(rows[k]) == Failure(ParsedNewestFirst(rows).error)
                         && forall j :: k < j < |rows| ==> Parse(rows[j]).Success?)
  {
    var tail := rows[1..];
    if ParsedNewestFirst(tail).Failure? {
      ParsedNewestFirstError(tail);
      var e := ParsedNewestFirst(tail).error;
      var k :| 0 <= k < |tail| && Parse(tail[k]) == Failure(e) && forall j :: k < j < |tail| ==> Parse(tail[j]).Success?;
      assert Parse(rows[k + 1]) == Failure(e);
      forall j | k + 1 < j < |rows| ensures Parse(rows[j]).Success? {
        assert rows[j] == tail[j - 1];
      }
    } else {
      ParsedNewestFirstSucceeds(tail);
      forall j | 0 < j < |rows| ensures Parse(rows[j]).Success? {
        assert rows[j] == tail[j - 1];
      }
    }
  }

  /** A row that fails to parse makes the whole list fail, with the error of the last such row. */
  lemma {:induction false} FailureSpreads(rows: seq<string>, i: nat)
    requires i <= |rows| && ParsedNewestFirst(rows[i..]).Failure?
    ensures ParsedNewestFirst(rows) == ParsedNewestFirst(rows[i..])
    decreases i
  {
    if i > 0 {
      assert rows[i - 1..][1..] == rows[i..];
      FailureSpreads(rows, i - 1);
    } else {
      assert rows[0..] == rows;
    }
  }

  /** The rows stored for completions at ts (oldest first), each written as `str(datetime)`. */
  function StoredRows(ts: seq<Timestamp>): (rows: seq<string>)
    requires AllValid(ts)
    ensures |rows| == |ts|
  {
    seq(|ts|, i requires 0 <= i < |ts| => Format(ts[i]))
  }

  /** Each stored row reads back as its own completion. */
  lemma StoredRowsParse(ts: seq<Timestamp>)
    requires AllValid(ts)
    ensures forall i :: 0 <= i < |ts| ==> Parse(StoredRows(ts)[i]) == Success(ts[i])
  {
    forall i | 0 <= i < |ts| ensures Parse(StoredRows(ts)[i]) == Success(ts[i]) {
      ParseFormat(ts[i]);
    }
  }

  /** Rows stored in time order are read back as the same timestamps, newest first. */
  lemma ReadBackStoredRows(ts: seq<Timestamp>)
    requires AllValid(ts)
    ensures ParsedNewestFirst(StoredRows(ts)).Success?
    ensures forall i {:trigger ParsedNewestFirst(StoredRows(ts)).value[i]} :: 0 <= i < |ts| ==>
      ParsedNewestFirst(StoredRows(ts)).value[i] == ts[|ts| - 1 - i]
  {
    var rows := StoredRows(ts);
    StoredRowsParse(ts);
    ParsedNewestFirstSucceeds(rows);
    ParsedNewestFirstValues(rows);
    var habits := ParsedNewestFirst(rows).value;
    forall i | 0 <= i < |ts| ensures habits[i] == ts[|ts| - 1 - i] {
      var j := |ts| - 1 - i;
      SameParse(Parse(rows[j]), habits[i], ts[j]);
    }
  }

  /** A solver aid for `ReadBackStoredRows`: one parse result holds one value. */
  lemma SameParse(r: Result<Timestamp, ParseError>, a: Timestamp, b: Timestamp)
    requires r == Success(a) && r == Success(b)
    ensures a == b
  {
  }

  /** Habits in reverse order have their week numbers in reverse order. */
  lemma WeeksReversed(habits: seq<Timestamp>, ts: seq<Timestamp>)
    requires AllValid(habits) && AllValid(ts) && |habits| == |ts|
    requires forall i {:trigger habits[i]} :: 0 <= i < |ts| ==> habits[i] == ts[|ts| - 1 - i]
    ensures forall i {:trigger Weeks(habits)[i]} :: 0 <= i < |ts| ==> Weeks(habits)[i] == Weeks(ts)[|ts| - 1 - i]
  {
    forall i | 0 <= i < |ts| ensures Weeks(habits)[i] == Weeks(ts)[|ts| - 1 - i] {
      SameWeekAt(habits, i, ts, |ts| - 1 - i);
    }
  }

  /** A solver aid for `WeeksReversed`: equal habits have equal week numbers. */
  lemma SameWeekAt(a: seq<Timestamp>, i: int, b: seq<Timestamp>, j: int)
    requires AllValid(a) && AllValid(b) && 0 <= i < |a| && 0 <= j < |b| && a[i] == b[j]
    ensures Weeks(a)[i] == Weeks(b)[j]
  {
  }

  /** The `for habit in reversed(...)` loop that builds `habits`. */
  method NewestFirst(rows: seq<string>) returns (r: Result<seq<Timestamp>, ParseError>)
    ensures r == ParsedNewestFirst(rows)
  {
    var habits: seq<Timestamp> := [];
    var i := |rows|;
    while i > 0
      invariant 0 <= i <= |rows|
      invariant ParsedNewestFirst(rows[i..]) == Success(habits)
    {
      i := i - 1;
      assert rows[i..][1..] == rows[i + 1..];
      var parsed := Parse(rows[i]);
      if parsed.Failure? {
        assert ParsedNewestFirst(rows[i..]) == Failure(parsed.error);
        FailureSpreads(rows, i);
        return Failure(parsed.error);
      }
      habits := habits + [parsed.value];
    }
    assert rows[0..] == rows;
    r := Success(habits);
  }

  /** The day ordinal of every habit's `date()`. */
  function Days(habits: seq<Timestamp>): (days: seq<int>)
    requires AllValid(habits)
    ensures |days| == |habits|
  {
    seq(|habits|, i requires 0 <= i < |habits| => DayOf(habits[i]))
  }

  /** `isocalendar()[1]` of every habit: the list `calendar_weeks`. */
  function Weeks(habits: seq<Timestamp>): (weeks: seq<int>)
    requires AllValid(habits)
    ensures |weeks| == |habits|
  {
    seq(|habits|, i requires 0 <= i < |habits| => IsoWeek(habits[i].date))
  }

  /** Only the dates of the completions enter the daily streaks: times of day never matter. */
  lemma DaysIgnoreTimeOfDay(a: seq<Timestamp>, b: seq<Timestamp>)
    requires AllValid(a) && AllValid(b) && |a| == |b|
    requires forall i :: 0 <= i < |a| ==> a[i].date == b[i].date
    ensures Days(a) == Days(b) && Weeks(a) == Weeks(b)
  {
  }
}
