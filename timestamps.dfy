/**
 * Completion timestamps as stored in the progress table: `str(datetime)` text in the
 * layout `YYYY-MM-DD HH:MM:SS.ffffff` (26 characters), read back with
 * `datetime.strptime(text, '%Y-%m-%d %H:%M:%S.%f')`.
 */
module Timestamps {
  import opened Wrappers
  import opened Calendar

  datatype Timestamp = Timestamp(date: Date, hour: int, minute: int, second: int, microsecond: int)

  /**
   * Why `strptime` refuses a text: it does not match the format (layout, a non-digit, or a
   * field the format's patterns exclude, such as month 13 or hour 24), or it matches but names
   * no `datetime` (year 0, second 60 or 61, February 30th).
   */
  datatype ParseError = Mismatch(text: string) | OutOfRange(text: string)

  predicate ValidTime(t: Timestamp) {
    0 <= t.hour < 24 && 0 <= t.minute < 60 && 0 <= t.second < 60 && 0 <= t.microsecond < 1000000
  }

  predicate ValidTimestamp(t: Timestamp) {
    ValidDate(t.date) && ValidTime(t)
  }

  /** The day ordinal of a timestamp's `date()`; the time of day is dropped. */
  function DayOf(t: Timestamp): int
    requires 1 <= t.date.month <= 12
  {
    Ordinal(t.date)
  }

  // ---------------------------------------------------------------------------
  // Fixed-width decimal fields

  predicate IsDigit(c: char) {
    '0' <= c <= '9'
  }

  predicate AllDigits(s: string) {
    forall i :: 0 <= i < |s| ==> IsDigit(s[i])
  }

  function Pow10(n: nat): nat {
    if n == 0 then 1 else 10 * Pow10(n - 1)
  }

  /** The value of a string of decimal digits. */
  function ValueOf(s: string): nat
    requires AllDigits(s)
  {
    if s == [] then 0 else 10 * ValueOf(s[..|s| - 1]) + (s[|s| - 1] - '0') as nat
  }

  /** n written with exactly `width` digits, zero-padded on the left (the last `width` digits of n). */
  function Decimal(n: nat, width: nat): (s: string)
    ensures |s| == width && AllDigits(s)
  {
    if width == 0 then [] else Decimal(n / 10, width - 1) + [('0' as int + n % 10) as char]
  }

  lemma {:induction false} ValueOfDecimal(n: nat, width: nat)
    requires n < Pow10(width)
    ensures ValueOf(Decimal(n, width)) == n
  {
    if width > 0 {
      ValueOfDecimal(n / 10, width - 1);
      var s := Decimal(n, width);
      assert s[..|s| - 1] == Decimal(n / 10, width - 1);
    }
  }

  lemma {:induction false} DecimalOfValue(s: string)
    requires AllDigits(s)
    ensures ValueOf(s) < Pow10(|s|)
    ensures Decimal(ValueOf(s), |s|) == s
  {
    if s != [] {
      var init := s[..|s| - 1];
      DecimalOfValue(init);
      var v := ValueOf(s);
      assert v / 10 == ValueOf(init) && v % 10 == (s[|s| - 1] - '0') as nat;
      assert s == init + [s[|s| - 1]];
    }
  }

  // ---------------------------------------------------------------------------
  // Parsing and formatting

  /** The digit fields of the layout: start position and width. */
  predicate FieldsAreDigits(s: string)
    requires |s| == 26
  {
    AllDigits(s[0..4]) && AllDigits(s[5..7]) && AllDigits(s[8..10]) && AllDigits(s[11..13])
      && AllDigits(s[14..16]) && AllDigits(s[17..19]) && AllDigits(s[20..26])
  }

  predicate SeparatorsMatch(s: string)
    requires |s| == 26
  {
    s[4] == '-' && s[7] == '-' && s[10] == ' ' && s[13] == ':' && s[16] == ':' && s[19] == '.'
  }

  /** The timestamp whose fields are written in the digit fields of s. */
  function FieldsOf(s: string): Timestamp
    requires |s| == 26 && FieldsAreDigits(s)
  {
    Timestamp(Date(ValueOf(s[0..4]), ValueOf(s[5..7]), ValueOf(s[8..10])),
              ValueOf(s[11..13]), ValueOf(s[14..16]), ValueOf(s[17..19]), ValueOf(s[20..26]))
  }

  /** The field ranges that the patterns of `%m`, `%d`, `%H`, `%M` and `%S` accept. */
  predicate MatchesPatterns(t: Timestamp) {
    1 <= t.date.month <= 12 && 1 <= t.date.day <= 31 && t.hour < 24 && t.minute < 60 && t.second < 62
  }

  /** The text has the stored layout and its fields fit the directives' patterns. */
  predicate HasLayout(s: string) {
    |s| == 26 && SeparatorsMatch(s) && FieldsAreDigits(s) && MatchesPatterns(FieldsOf(s))
  }

  /**
   * `datetime.strptime(s, '%Y-%m-%d %H:%M:%S.%f')` on the fixed 26-character layout. A text
   * without the layout is a mismatch; one with it whose fields `datetime` refuses (a 30th of
   * February, a 61st second) is out of range; either error carries the text.
   */
  function Parse(s: string): (r: Result<Timestamp, ParseError>)
    ensures r.Success? ==> ValidTimestamp(r.value)
    ensures r.Failure? ==> r.error.text == s
    ensures (r.Failure? && r.error.Mismatch?) <==> !HasLayout(s)
    ensures (r.Failure? && r.error.OutOfRange?) <==> HasLayout(s) && !ValidTimestamp(FieldsOf(s))
  {
    if !HasLayout(s) then Failure(Mismatch(s))
    else if !ValidTimestamp(FieldsOf(s)) then Failure(OutOfRange(s))
    else Success(FieldsOf(s))
  }


  /** The layout: seven fields joined by the format's separators. */
  function Join(year: string, month: string, day: string, hour: string, minute: string, second: string, micro: string): string {
    year + "-" + month + "-" + day + " " + hour + ":" + minute + ":" + second + "." + micro
  }

  lemma JoinSlices(year: string, month: string, day: string, hour: string, minute: string, second: string, micro: string)
    requires |year| == 4 && |month| == 2 && |day| == 2 && |hour| == 2 && |minute| == 2 && |second| == 2 && |micro| == 6
    ensures var s := Join(year, month, day, hour, minute, second, micro);
      && |s| == 26 && SeparatorsMatch(s)
      && s[0..4] == year && s[5..7] == month && s[8..10] == day && s[11..13] == hour
      && s[14..16] == minute && s[17..19] == second && s[20..26] == micro
  {
    var date := year + "-" + month + "-" + day;
    var time := hour + ":" + minute + ":" + second;
    assert Join(year, month, day, hour, minute, second, micro) == date + " " + time + "." + micro;
    assert date[0..4] == year && date[5..7] == month && date[8..10] == day;
    assert time[0..2] == hour && time[3..5] == minute && time[6..8] == second;
  }

  /** `str(t)` for a timestamp with a microsecond field: the stored text. */
  function Format(t: Timestamp): (s: string)
    requires ValidTimestamp(t)
    ensures |s| == 26
  {
    Join(Decimal(t.date.year, 4), Decimal(t.date.month, 2), Decimal(t.date.day, 2),
         Decimal(t.hour, 2), Decimal(t.minute, 2), Decimal(t.second, 2), Decimal(t.microsecond, 6))
  }

  /** Reading back what was stored gives the same timestamp. */
  lemma ParseFormat(t: Timestamp)
    requires ValidTimestamp(t)
    ensures Parse(Format(t)) == Success(t)
  {
    var s := Format(t);
    JoinSlices(Decimal(t.date.year, 4), Decimal(t.date.month, 2), Decimal(t.date.day, 2),
               Decimal(t.hour, 2), Decimal(t.minute, 2), Decimal(t.second, 2), Decimal(t.microsecond, 6));
    assert FieldsAreDigits(s);
    assert Pow10(2) == 100 by { assert Pow10(1) == 10; }
    assert Pow10(4) == 10000 by { assert Pow10(3) == 1000; }
    assert Pow10(6) == 1000000 by { assert Pow10(5) == 100000; }
    ValueOfDecimal(t.date.year, 4);
    ValueOfDecimal(t.date.month, 2);
    ValueOfDecimal(t.date.day, 2);
    ValueOfDecimal(t.hour, 2);
    ValueOfDecimal(t.minute, 2);
    ValueOfDecimal(t.second, 2);
    ValueOfDecimal(t.microsecond, 6);
    assert FieldsOf(s) == t;
    assert MatchesPatterns(t);
  }

  /** Every text that parses is exactly the stored form of what it parses to. */
  lemma FormatParse(s: string)
    requires Parse(s).Success?
    ensures Format(Parse(s).value) == s
  {
    DecimalOfValue(s[0..4]);
    DecimalOfValue(s[5..7]);
    DecimalOfValue(s[8..10]);
    DecimalOfValue(s[11..13]);
    DecimalOfValue(s[14..16]);
    DecimalOfValue(s[17..19]);
    DecimalOfValue(s[20..26]);
    assert Format(FieldsOf(s)) == Join(s[0..4], s[5..7], s[8..10], s[11..13], s[14..16], s[17..19], s[20..26]);
    SlicesJoin(s);
  }

  /** A text of the layout is the join of its own fields. */
  lemma SlicesJoin(s: string)
    requires |s| == 26 && SeparatorsMatch(s)
    ensures s == Join(s[0..4], s[5..7], s[8..10], s[11..13], s[14..16], s[17..19], s[20..26])
  {
    var j := Join(s[0..4], s[5..7], s[8..10], s[11..13], s[14..16], s[17..19], s[20..26]);
    JoinSlices(s[0..4], s[5..7], s[8..10], s[11..13], s[14..16], s[17..19], s[20..26]);
    forall i | 0 <= i < 26 ensures j[i] == s[i] {
      if i < 4 { assert j[i] == j[0..4][i]; }
      else if 4 < i < 7 { assert j[i] == j[5..7][i - 5]; }
      else if 7 < i < 10 { assert j[i] == j[8..10][i - 8]; }
      else if 10 < i < 13 { assert j[i] == j[11..13][i - 11]; }
      else if 13 < i < 16 { assert j[i] == j[14..16][i - 14]; }
      else if 16 < i < 19 { assert j[i] == j[17..19][i - 17]; }
      else if 19 < i { assert j[i] == j[20..26][i - 20]; }
    }
  }
}
