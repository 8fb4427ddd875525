/** The message timestamp: a 14-digit `yyyyMMddHHmmss` string.

    The chat screen stamps every message it sends with the local time
    formatted as `yyyyMMddHHmmss` (four digits of year, then two each of
    month, day, hour, minute and second, all zero-padded).
    `ChattingRoomTimeData` reads it back by fixed-width substrings: the
    year from characters [0, 4), the month from [4, 6), the day from
    [6, 8), the hour from [8, 10) and the minute from [10, 12), each
    through `String.toInt()`; the seconds are not stored. The message
    bubble shows the result as a zero-padded date line and a Korean
    morning/afternoon clock time. Rooms and messages are ordered by
    comparing these strings, so the string order must be the time order.
 */
module Timestamp {
  import opened Wrappers
  import opened Text

  /** A local date and time as the formatter sees it. */
  datatype DateTime = DateTime(year: nat, month: nat, day: nat, hour: nat, minute: nat, second: nat)

  /** A calendar date and time whose year has at most four digits. */
  predicate Valid(t: DateTime) {
    && t.year < 10000
    && 1 <= t.month <= 12
    && 1 <= t.day <= 31
    && t.hour < 24
    && t.minute < 60
    && t.second < 60
  }

  /** `getTimeData`: the local time formatted as `yyyyMMddHHmmss`. The clock
      reading is the parameter. */
  function Format(t: DateTime): (s: string)
    requires Valid(t)
    ensures |s| == 14 && AllDigits(s)
  {
    Fixed(t.year, 4) + (Fixed(t.month, 2) + (Fixed(t.day, 2) + (Fixed(t.hour, 2)
      + (Fixed(t.minute, 2) + Fixed(t.second, 2)))))
  }

  /** Time order: year first, then month, day, hour, minute and second. */
  predicate Before(a: DateTime, b: DateTime) {
    || a.year < b.year
    || (a.year == b.year && a.month < b.month)
    || (a.year == b.year && a.month == b.month && a.day < b.day)
    || (a.year == b.year && a.month == b.month && a.day == b.day && a.hour < b.hour)
    || (a.year == b.year && a.month == b.month && a.day == b.day && a.hour == b.hour
        && a.minute < b.minute)
    || (a.year == b.year && a.month == b.month && a.day == b.day && a.hour == b.hour
        && a.minute == b.minute && a.second < b.second)
  }

  /** Comparing two strings that start with fixed-width fields of the same
      width: the field values decide unless they are equal. */
  lemma FieldThenRest(x: nat, y: nat, w: nat, a: string, b: string)
    requires x < Pow10(w) && y < Pow10(w)
    ensures LexLess(Fixed(x, w) + a, Fixed(y, w) + b) <==> x < y || (x == y && LexLess(a, b))
  {
    LexLessConcat(Fixed(x, w), a, Fixed(y, w), b);
    FixedOrder(x, y, w);
    FixedInjective(x, y, w);
  }

  /** For two well-formed timestamps, the string order is the time order. */
  lemma FormatOrder(a: DateTime, b: DateTime)
    requires Valid(a) && Valid(b)
    ensures LexLess(Format(a), Format(b)) <==> Before(a, b)
  {
    var s1 := Fixed(a.minute, 2) + Fixed(a.second, 2);
    var s2 := Fixed(b.minute, 2) + Fixed(b.second, 2);
    FixedOrder(a.second, b.second, 2);
    FieldThenRest(a.minute, b.minute, 2, Fixed(a.second, 2), Fixed(b.second, 2));
    var h1 := Fixed(a.hour, 2) + s1;
    var h2 := Fixed(b.hour, 2) + s2;
    FieldThenRest(a.hour, b.hour, 2, s1, s2);
    var d1 := Fixed(a.day, 2) + h1;
    var d2 := Fixed(b.day, 2) + h2;
    FieldThenRest(a.day, b.day, 2, h1, h2);
    var m1 := Fixed(a.month, 2) + d1;
    var m2 := Fixed(b.month, 2) + d2;
    FieldThenRest(a.month, b.month, 2, d1, d2);
    FieldThenRest(a.year, b.year, 4, m1, m2);
  }

  /** Distinct times format to distinct strings. */
  lemma FormatInjective(a: DateTime, b: DateTime)
    requires Valid(a) && Valid(b)
    ensures Format(a) == Format(b) <==> a == b
  {
    if a != b && Format(a) == Format(b) {
      FormatOrder(a, b);
      FormatOrder(b, a);
      LexLessIrreflexive(Format(a));
    }
  }

  /** The integer fields of a `ChattingRoomTimeData`. */
  datatype TimeData = TimeData(year: int, month: int, date: int, hour: int, minute: int)

  /** The closing `SimpleDateFormat("yyyyMMddHHmmss").parse` of the
      constructor, on a string whose five fields already read as numbers.
      The pattern's fields abut, so each but the last takes exactly its
      width; the date parser reads no '+' sign; the seconds field, the last,
      needs at least one digit right after the minutes and takes as many as
      follow; text after it is ignored. */
  predicate PatternParses(s: string) {
    && |s| > 12
    && s[0] != '+' && s[4] != '+' && s[6] != '+' && s[8] != '+' && s[10] != '+'
    && IsDigit(s[12])
  }

  /** The `ChattingRoomTimeData` constructor: five fixed-width substrings,
      each through `toInt()`, in field order, then the date pattern over the
      whole string; the first failure throws. */
  function ParseTimeData(s: string): (r: Result<TimeData>)
    ensures |s| < 12 ==> r == Failure(IndexOutOfBounds) || r == Failure(NumberFormat)
    ensures r.Success? <==> |s| >= 12 && ParseInt(s[0..4]).Success? && ParseInt(s[4..6]).Success?
                            && ParseInt(s[6..8]).Success? && ParseInt(s[8..10]).Success?
                            && ParseInt(s[10..12]).Success? && PatternParses(s)
    ensures r.Success? ==> r.value == TimeData(ParseInt(s[0..4]).value, ParseInt(s[4..6]).value,
                                               ParseInt(s[6..8]).value, ParseInt(s[8..10]).value,
                                               ParseInt(s[10..12]).value)
  {
    var year :- FieldInt(s, 0, 4);
    var month :- FieldInt(s, 4, 6);
    var date :- FieldInt(s, 6, 8);
    var hour :- FieldInt(s, 8, 10);
    var minute :- FieldInt(s, 10, 12);
    if PatternParses(s) then Success(TimeData(year, month, date, hour, minute))
    else Failure(DateParse)
  }

  /** A string cut after the minutes reads all five fields and still
      throws: the date pattern finds no seconds. */
  lemma MinutesOnlyThrows(t: DateTime)
    requires Valid(t)
    ensures |Format(t)[..12]| == 12
    ensures FieldInt(Format(t)[..12], 10, 12) == Success(t.minute as int)
    ensures ParseTimeData(Format(t)[..12]) == Failure(DateParse)
  {
    var s := Format(t);
    FormatFields(t);
    SamePrefixSlice(s, s[..12], 12, 0, 4);
    SamePrefixSlice(s, s[..12], 12, 4, 6);
    SamePrefixSlice(s, s[..12], 12, 6, 8);
    SamePrefixSlice(s, s[..12], 12, 8, 10);
    SamePrefixSlice(s, s[..12], 12, 10, 12);
  }

  /** Characters after the first seconds digit never affect the parse. */
  lemma ParseIgnoresSeconds(s1: string, s2: string)
    requires |s1| >= 13 && |s2| >= 13 && s1[..13] == s2[..13]
    ensures ParseTimeData(s1) == ParseTimeData(s2)
  {
    assert s1[12] == s1[..13][12] == s2[..13][12] == s2[12];
    assert forall i :: 0 <= i < 12 ==> s1[i] == s1[..13][i] == s2[..13][i] == s2[i];
    SamePrefixSlice(s1, s2, 13, 0, 4);
    SamePrefixSlice(s1, s2, 13, 4, 6);
    SamePrefixSlice(s1, s2, 13, 6, 8);
    SamePrefixSlice(s1, s2, 13, 8, 10);
    SamePrefixSlice(s1, s2, 13, 10, 12);
  }

  lemma SamePrefixSlice(s1: string, s2: string, n: nat, i: nat, j: nat)
    requires |s1| >= n && |s2| >= n && s1[..n] == s2[..n]
    requires i <= j <= n
    ensures s1[i..j] == s2[i..j]
  {
    assert forall k :: i <= k < j ==> s1[k] == s1[..n][k] == s2[..n][k] == s2[k];
  }

  /** Parsing a formatted timestamp returns the fields it was formatted
      from, the seconds dropped. */
  lemma ParseFormat(t: DateTime)
    requires Valid(t)
    ensures ParseTimeData(Format(t)) == Success(TimeData(t.year, t.month, t.day, t.hour, t.minute))
  {
    FormatFields(t);
  }

  /** Each field of a formatted timestamp sits at its fixed position. */
  lemma FormatFields(t: DateTime)
    requires Valid(t)
    ensures FieldInt(Format(t), 0, 4) == Success(t.year as int)
    ensures FieldInt(Format(t), 4, 6) == Success(t.month as int)
    ensures FieldInt(Format(t), 6, 8) == Success(t.day as int)
    ensures FieldInt(Format(t), 8, 10) == Success(t.hour as int)
    ensures FieldInt(Format(t), 10, 12) == Success(t.minute as int)
  {
    var y, mo, d := Fixed(t.year, 4), Fixed(t.month, 2), Fixed(t.day, 2);
    var h, mi, se := Fixed(t.hour, 2), Fixed(t.minute, 2), Fixed(t.second, 2);
    var s := Format(t);
    assert s == [] + y + (mo + (d + (h + (mi + se))));
    FieldOf([], t.year, 4, mo + (d + (h + (mi + se))));
    assert s == y + mo + (d + (h + (mi + se)));
    FieldOf(y, t.month, 2, d + (h + (mi + se)));
    assert s == y + mo + d + (h + (mi + se));
    FieldOf(y + mo, t.day, 2, h + (mi + se));
    assert s == y + mo + d + h + (mi + se);
    FieldOf(y + mo + d, t.hour, 2, mi + se);
    assert s == y + mo + d + h + mi + se;
    FieldOf(y + mo + d + h, t.minute, 2, se);
  }

  /** A fixed-width field between a prefix and a suffix reads back as its value. */
  lemma FieldOf(pre: string, x: nat, w: nat, post: string)
    requires x < Pow10(w) && x <= IntMax && w >= 1
    ensures FieldInt(pre + Fixed(x, w) + post, |pre|, |pre| + w) == Success(x)
  {
    var s := pre + Fixed(x, w) + post;
    assert s[|pre|..|pre| + w] == Fixed(x, w);
    FixedValue(x, w);
  }

  // ---------------------------------------------------------------------
  // The bubble's date text
  // ---------------------------------------------------------------------

  /** The twelve-hour clock of the bubble: an hour of 24 shows as morning
      00, 12 as afternoon 12, 13 to 23 as afternoon h - 12, anything else as
      morning h. */
  function ClockHour(hour: int): (r: (string, int))
    ensures hour == 24 ==> r == ("오전", 0)
    ensures hour == 12 ==> r == ("오후", 12)
    ensures hour > 12 && hour != 24 ==> r == ("오후", hour - 12)
    ensures hour < 12 ==> r == ("오전", hour)
    ensures 0 <= hour <= 24 ==> 0 <= r.1 <= 12
  {
    if hour == 24 then ("오전", 0)
    else if hour == 12 then ("오후", 12)
    else if hour > 12 then ("오후", hour - 12)
    else ("오전", hour)
  }

  /** Reading a twelve-hour clock back as a 24-hour one. */
  function FromClock(c: (string, int)): int {
    if c.0 == "오후" then (if c.1 == 12 then 12 else c.1 + 12)
    else c.1
  }

  /** Every hour of the day survives the twelve-hour display, and 24 reads
      back as midnight. */
  lemma ClockHourRoundTrip(hour: int)
    requires 0 <= hour <= 24
    ensures FromClock(ClockHour(hour)) == hour % 24
  {
  }

  /** `getDateText`: `"%04d-%02d-%02d"` of year, month and day and a newline,
      then the morning/afternoon word and `"%02d:%02d"` of the clock hour
      and minute. */
  function DateText(sendTime: string): (r: Result<string>)
    ensures r.Success? <==> ParseTimeData(sendTime).Success?
  {
    var td :- ParseTimeData(sendTime);
    Success(RenderTimeData(td))
  }

  function RenderTimeData(td: TimeData): string {
    var clock := ClockHour(td.hour);
    Bubble(FormatInt(td.year, 4), FormatInt(td.month, 2), FormatInt(td.date, 2),
           clock.0, FormatInt(clock.1, 2), FormatInt(td.minute, 2))
  }

  /** The layout of the bubble text around its six fields. */
  function Bubble(year: string, month: string, date: string, word: string, hour: string, minute: string): (r: string)
    ensures |r| == |year| + |month| + |date| + |word| + |hour| + |minute| + 5
  {
    year + "-" + month + "-" + date + "\n" + word + " " + hour + ":" + minute
  }

  /** The bubble text of in-range fields is the fixed-width rendering:
      the four year digits, two-digit month and day, the clock word and a
      two-digit clock hour and minute. */
  lemma RenderFixed(td: TimeData)
    requires 0 <= td.year < 10000 && 0 <= td.month < 100 && 0 <= td.date < 100
    requires 0 <= td.hour <= 24 && 0 <= td.minute < 100
    ensures RenderTimeData(td) ==
              Bubble(Fixed(td.year, 4), Fixed(td.month, 2), Fixed(td.date, 2),
                     ClockHour(td.hour).0, Fixed(ClockHour(td.hour).1, 2), Fixed(td.minute, 2))
  {
    var clock := ClockHour(td.hour);
    YearField(td.year);
    TwoDigitField(td.month);
    TwoDigitField(td.date);
    TwoDigitField(clock.1);
    TwoDigitField(td.minute);
  }

  lemma YearField(n: nat)
    requires n < 10000
    ensures FormatInt(n, 4) == Fixed(n, 4)
  {
    FormatIntFixed(n, 4);
  }

  lemma TwoDigitField(n: nat)
    requires n < 100
    ensures FormatInt(n, 2) == Fixed(n, 2)
  {
    FormatIntFixed(n, 2);
  }

  lemma ClockWordLength(hour: int)
    ensures |ClockHour(hour).0| == 2
  {
  }

  /** The rendering of in-range fields is nineteen characters long. */
  lemma RenderLength(td: TimeData)
    requires 0 <= td.year < 10000 && 0 <= td.month < 100 && 0 <= td.date < 100
    requires 0 <= td.hour <= 24 && 0 <= td.minute < 100
    ensures |RenderTimeData(td)| == 19
  {
    RenderFixed(td);
    ClockWordLength(td.hour);
  }

  /** For a well-formed timestamp the date text is the fixed-width
      rendering of its fields. */
  lemma DateTextOfFormat(t: DateTime)
    requires Valid(t)
    ensures DateText(Format(t)) == Success(
              Bubble(Fixed(t.year, 4), Fixed(t.month, 2), Fixed(t.day, 2),
                     ClockHour(t.hour).0, Fixed(ClockHour(t.hour).1, 2), Fixed(t.minute, 2)))
    ensures |DateText(Format(t)).value| == 19
  {
    ParseFormat(t);
    RenderFixed(TimeData(t.year, t.month, t.day, t.hour, t.minute));
    RenderLength(TimeData(t.year, t.month, t.day, t.hour, t.minute));
  }
}
