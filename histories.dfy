/**
 * The weekly habit "Yoga" of the repository's test user: its eleven completions as stored,
 * read back and reduced to week numbers, and the streaks the longest- and current-streak
 * methods compute from them.
 */
module Histories {
  import opened Wrappers
  import opened Calendar
  import opened Timestamps
  import opened Segments
  import opened Progress
  import opened WeeklyStreak

  /** Yoga's completions, oldest first, as in the stored rows. */
  function YogaCompletions(): seq<Timestamp> {
    [Timestamp(Date(2021, 5, 18), 18, 18, 58, 690152), Timestamp(Date(2021, 5, 25), 18, 0, 31, 108563),
     Timestamp(Date(2021, 6, 9), 18, 20, 37, 292187), Timestamp(Date(2021, 6, 22), 17, 10, 40, 730695),
     Timestamp(Date(2021, 6, 25), 18, 30, 54, 475426), Timestamp(Date(2021, 7, 2), 17, 21, 3, 603940),
     Timestamp(Date(2021, 7, 9), 18, 1, 8, 83291), Timestamp(Date(2021, 7, 11), 16, 21, 21, 358381),
     Timestamp(Date(2021, 7, 12), 16, 21, 25, 411913), Timestamp(Date(2021, 7, 27), 17, 21, 34, 380509),
     Timestamp(Date(2021, 8, 6), 14, 27, 40, 303914)]
  }

  /** A day of ISO year 2021 lies in the week counted from Monday 2021-01-04. */
  lemma IsoWeekIn2021(d: Date)
    requires ValidDate(d) && d.year == 2021
    requires 737794 <= Ordinal(d) < 738158
    ensures IsoWeek(d) == (Ordinal(d) - 737794) / 7 + 1
  {
    Week1Mondays();
    IsoWeekInsideYear(d, 737794, 738158);
  }

  // Yoga's completions, oldest first, fall in the ISO weeks 20, 21, 23, 25, 25, 26, 27, 27, 28, 30 and 31.

  lemma YogaWeeksMay(ts: seq<Timestamp>)
    requires ts == YogaCompletions()
    ensures IsoWeek(ts[0].date) == 20
    ensures IsoWeek(ts[1].date) == 21
  {
    assert ts[0].date == Date(2021, 5, 18) && Ordinal(Date(2021, 5, 18)) == 737928;
    IsoWeekIn2021(Date(2021, 5, 18));
    assert ts[1].date == Date(2021, 5, 25) && Ordinal(Date(2021, 5, 25)) == 737935;
    IsoWeekIn2021(Date(2021, 5, 25));
  }

  lemma YogaWeeksJune(ts: seq<Timestamp>)
    requires ts == YogaCompletions()
    ensures IsoWeek(ts[2].date) == 23
    ensures IsoWeek(ts[3].date) == 25
    ensures IsoWeek(ts[4].date) == 25
  {
    assert ts[2].date == Date(2021, 6, 9) && Ordinal(Date(2021, 6, 9)) == 737950;
    IsoWeekIn2021(Date(2021, 6, 9));
    assert ts[3].date == Date(2021, 6, 22) && Ordinal(Date(2021, 6, 22)) == 737963;
    IsoWeekIn2021(Date(2021, 6, 22));
    assert ts[4].date == Date(2021, 6, 25) && Ordinal(Date(2021, 6, 25)) == 737966;
    IsoWeekIn2021(Date(2021, 6, 25));
  }

  lemma YogaWeeksJuly(ts: seq<Timestamp>)
    requires ts == YogaCompletions()
    ensures IsoWeek(ts[5].date) == 26
    ensures IsoWeek(ts[6].date) == 27
    ensures IsoWeek(ts[7].date) == 27
  {
    assert ts[5].date == Date(2021, 7, 2) && Ordinal(Date(2021, 7, 2)) == 737973;
    IsoWeekIn2021(Date(2021, 7, 2));
    assert ts[6].date == Date(2021, 7, 9) && Ordinal(Date(2021, 7, 9)) == 737980;
    IsoWeekIn2021(Date(2021, 7, 9));
    assert ts[7].date == Date(2021, 7, 11) && Ordinal(Date(2021, 7, 11)) == 737982;
    IsoWeekIn2021(Date(2021, 7, 11));
  }

  lemma YogaWeeksSummer(ts: seq<Timestamp>)
    requires ts == YogaCompletions()
    ensures IsoWeek(ts[8].date) == 28
    ensures IsoWeek(ts[9].date) == 30
    ensures IsoWeek(ts[10].date) == 31
  {
    assert ts[8].date == Date(2021, 7, 12) && Ordinal(Date(2021, 7, 12)) == 737983;
    IsoWeekIn2021(Date(2021, 7, 12));
    assert ts[9].date == Date(2021, 7, 27) && Ordinal(Date(2021, 7, 27)) == 737998;
    IsoWeekIn2021(Date(2021, 7, 27));
    assert ts[10].date == Date(2021, 8, 6) && Ordinal(Date(2021, 8, 6)) == 738008;
    IsoWeekIn2021(Date(2021, 8, 6));
  }

  lemma YogaDistinctUpTo3(ws: seq<int>)
    requires ws == [31, 30, 28, 27, 27, 26, 25, 25, 23, 21, 20]
    ensures Distinct(ws[..3]) == [31, 30, 28]
  {
    assert ws[..0] == [];
    DistinctExtend(ws, 0, []);
    DistinctExtend(ws, 1, [31]);
    DistinctExtend(ws, 2, [31, 30]);
  }

  lemma YogaDistinctUpTo6(ws: seq<int>)
    requires ws == [31, 30, 28, 27, 27, 26, 25, 25, 23, 21, 20]
    ensures Distinct(ws[..6]) == [31, 30, 28, 27, 26]
  {
    YogaDistinctUpTo3(ws);
    DistinctExtend(ws, 3, [31, 30, 28]);
    DistinctExtend(ws, 4, [31, 30, 28, 27]);
    DistinctExtend(ws, 5, [31, 30, 28, 27]);
  }

  lemma YogaDistinctUpTo9(ws: seq<int>)
    requires ws == [31, 30, 28, 27, 27, 26, 25, 25, 23, 21, 20]
    ensures Distinct(ws[..9]) == [31, 30, 28, 27, 26, 25, 23]
  {
    YogaDistinctUpTo6(ws);
    DistinctExtend(ws, 6, [31, 30, 28, 27, 26]);
    DistinctExtend(ws, 7, [31, 30, 28, 27, 26, 25]);
    DistinctExtend(ws, 8, [31, 30, 28, 27, 26, 25]);
  }

  lemma YogaDistinctUpTo11(ws: seq<int>)
    requires ws == [31, 30, 28, 27, 27, 26, 25, 25, 23, 21, 20]
    ensures Distinct(ws[..11]) == [31, 30, 28, 27, 26, 25, 23, 21, 20]
  {
    YogaDistinctUpTo9(ws);
    DistinctExtend(ws, 9, [31, 30, 28, 27, 26, 25, 23]);
    DistinctExtend(ws, 10, [31, 30, 28, 27, 26, 25, 23, 21]);
  }

  /** De-duplicating Yoga's week numbers, newest first, drops the second 27 and the second 25. */
  lemma YogaDistinctWeeks(ws: seq<int>)
    requires ws == [31, 30, 28, 27, 27, 26, 25, 25, 23, 21, 20]
    ensures Distinct(ws) == [31, 30, 28, 27, 26, 25, 23, 21, 20]
  {
    YogaDistinctUpTo11(ws);
    assert ws[..11] == ws;
  }

  lemma YogaRunsUpTo4(adj: seq<int>)
    requires adj == [31, 30, 28, 27, 26, 25, 23, 21, 20]
    ensures TrailingRun(adj[..4]) == 2 && LongestRun(adj[..4]) == 2
  {
    assert adj[..1] == [31] && [31][..0] == [];
    assert adj[..2] == adj[..1] + [30];
    LongestRunAppend(adj[..1], 30);
    assert adj[..3] == adj[..2] + [28];
    LongestRunAppend(adj[..2], 28);
    assert adj[..4] == adj[..3] + [27];
    LongestRunAppend(adj[..3], 27);
  }

  lemma YogaRunsUpTo7(adj: seq<int>)
    requires adj == [31, 30, 28, 27, 26, 25, 23, 21, 20]
    ensures TrailingRun(adj[..7]) == 1 && LongestRun(adj[..7]) == 4
  {
    YogaRunsUpTo4(adj);
    assert adj[..5] == adj[..4] + [26];
    LongestRunAppend(adj[..4], 26);
    assert adj[..6] == adj[..5] + [25];
    LongestRunAppend(adj[..5], 25);
    assert adj[..7] == adj[..6] + [23];
    LongestRunAppend(adj[..6], 23);
  }

  lemma YogaRunsUpTo9(adj: seq<int>)
    requires adj == [31, 30, 28, 27, 26, 25, 23, 21, 20]
    ensures TrailingRun(adj[..9]) == 2 && LongestRun(adj[..9]) == 4
  {
    YogaRunsUpTo7(adj);
    assert adj[..8] == adj[..7] + [21];
    LongestRunAppend(adj[..7], 21);
    assert adj[..9] == adj[..8] + [20];
    LongestRunAppend(adj[..8], 20);
  }

  /**
   * Yoga's streaks on its distinct weeks: in week 31 the current weekly streak is 2 (weeks 31
   * and 30), and the longest is 4 (weeks 28 down to 25).
   */
  lemma YogaStreaks(adj: seq<int>)
    requires adj == [31, 30, 28, 27, 26, 25, 23, 21, 20]
    ensures CurrentWeekly(adj, 31) == Some(2)
    ensures LongestWeekly(adj) == 4
  {
    assert adj[1..] == [30, 28, 27, 26, 25, 23, 21, 20];
    assert LeadingUnitGaps(adj[1..]) == 0;
    LongestWeeklyIsLongestRun(adj);
    YogaRunsUpTo9(adj);
    assert adj[..9] == adj;
  }

  /** Every one of Yoga's completions is a real timestamp. */
  lemma YogaValid(ts: seq<Timestamp>)
    requires ts == YogaCompletions()
    ensures AllValid(ts)
  {
  }

  /**
   * A solver aid for `YogaWeeksOldestFirst`: eleven week numbers known one by one make up the
   * list of them. Stated on its own so that each entry is proved separately.
   */
  lemma ElevenWeeks(ws: seq<int>)
    requires |ws| == 11
    requires ws[0] == 20
    requires ws[1] == 21
    requires ws[2] == 23
    requires ws[3] == 25
    requires ws[4] == 25
    requires ws[5] == 26
    requires ws[6] == 27
    requires ws[7] == 27
    requires ws[8] == 28
    requires ws[9] == 30
    requires ws[10] == 31
    ensures ws == [20, 21, 23, 25, 25, 26, 27, 27, 28, 30, 31]
  {
  }

  /** Yoga's week numbers, oldest first. */
  lemma YogaWeeksOldestFirst(ts: seq<Timestamp>)
    requires ts == YogaCompletions()
    ensures AllValid(ts) && Weeks(ts) == [20, 21, 23, 25, 25, 26, 27, 27, 28, 30, 31]
  {
    YogaValid(ts);
    YogaWeeksMay(ts);
    YogaWeeksJune(ts);
    YogaWeeksJuly(ts);
    YogaWeeksSummer(ts);
    ElevenWeeks(Weeks(ts));
  }

  /** The same eleven week numbers, newest first. */
  lemma YogaWeeksReversed(ws: seq<int>, oldest: seq<int>)
    requires oldest == [20, 21, 23, 25, 25, 26, 27, 27, 28, 30, 31]
    requires |ws| == 11 && forall i :: 0 <= i < 11 ==> ws[i] == oldest[10 - i]
    ensures ws == [31, 30, 28, 27, 27, 26, 25, 25, 23, 21, 20]
  {
  }

  /** Read back newest first, Yoga's stored rows give these week numbers. */
  lemma YogaReadBack(ts: seq<Timestamp>)
    requires ts == YogaCompletions()
    ensures AllValid(ts) && ParsedNewestFirst(StoredRows(ts)).Success?
    ensures Weeks(ParsedNewestFirst(StoredRows(ts)).value) == [31, 30, 28, 27, 27, 26, 25, 25, 23, 21, 20]
  {
    YogaWeeksOldestFirst(ts);
    ReadBackStoredRows(ts);
    var habits := ParsedNewestFirst(StoredRows(ts)).value;
    WeeksReversed(habits, ts);
    YogaWeeksReversed(Weeks(habits), Weeks(ts));
  }

  /**
   * From the stored rows to the streaks: with the current week 31, Yoga's current weekly
   * streak is 2 and its longest weekly streak is 4.
   */
  lemma YogaFromStoredRows(ts: seq<Timestamp>)
    requires ts == YogaCompletions()
    ensures AllValid(ts) && ParsedNewestFirst(StoredRows(ts)).Success?
    ensures var adj := Distinct(Weeks(ParsedNewestFirst(StoredRows(ts)).value));
      CurrentWeekly(adj, 31) == Some(2) && LongestWeekly(adj) == 4
  {
    YogaReadBack(ts);
    var ws := Weeks(ParsedNewestFirst(StoredRows(ts)).value);
    YogaDistinctWeeks(ws);
    YogaStreaks(Distinct(ws));
  }
}
