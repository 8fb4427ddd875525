/** The "time since the last message" label of a list row, in both
    revisions.

    The current revision buckets the millisecond difference between now
    and the message time; the wall clock and the conversion of the stored
    timestamp to milliseconds are outside the model, so the difference is
    a parameter. The older revision compares the month, day, hour and
    minute fields of the stored timestamp with those of the current time,
    one field at a time; the current time enters as its formatted string.
 */
module ElapsedTime {
  import opened Wrappers
  import opened Text

  const MinuteMs: int := 60000
  const HourMs: int := 3600000
  const DayMs: int := 86400000
  const WeekMs: int := 604800000
  const FourWeeksMs: int := 2419200000
  /** The length of a Gregorian mean year, the upper bound of the month bucket. */
  const MeanYearMs: int := 31556952000

  /** The bucket a millisecond difference falls into. */
  datatype Elapsed =
    | JustNow
    | Minutes(n: int)
    | Hours(n: int)
    | Days(n: int)
    | Weeks(n: int)
    | AboutAMonth      // the literal "1 개월 전" printed when the month count is 0
    | Months(n: int)
    | Years(n: int)

  /** The `when` of `getLastMessageTimeString`: every count is the truncated
      quotient `TimeUnit.MILLISECONDS.to…` computes, the week count from
      `diff / 7`, the month count from `diff / 30`, the year count from
      `diff / 365`. */
  function Bucket(diff: int): (b: Elapsed)
    ensures b == JustNow <==> diff < MinuteMs
    ensures b.Minutes? <==> MinuteMs <= diff < HourMs
    ensures b.Minutes? ==> 1 <= b.n <= 59 && b.n * MinuteMs <= diff < (b.n + 1) * MinuteMs
    ensures b.Hours? <==> HourMs <= diff < DayMs
    ensures b.Hours? ==> 1 <= b.n <= 23 && b.n * HourMs <= diff < (b.n + 1) * HourMs
    ensures b.Days? <==> DayMs <= diff < WeekMs
    ensures b.Days? ==> 1 <= b.n <= 6 && b.n * DayMs <= diff < (b.n + 1) * DayMs
    ensures b.Weeks? <==> WeekMs <= diff < FourWeeksMs
    ensures b.Weeks? ==> 1 <= b.n <= 3 && b.n * WeekMs <= diff < (b.n + 1) * WeekMs
    ensures b.AboutAMonth? <==> FourWeeksMs <= diff < 30 * DayMs
    ensures b.Months? <==> 30 * DayMs <= diff < MeanYearMs
    ensures b.Months? ==> 1 <= b.n <= 12 && b.n * 30 * DayMs <= diff < (b.n + 1) * 30 * DayMs
    ensures b.Years? <==> MeanYearMs <= diff
    ensures b.Years? ==> 1 <= b.n && b.n * 365 * DayMs <= diff < (b.n + 1) * 365 * DayMs
  {
    if diff < MinuteMs then JustNow
    else if diff < HourMs then Minutes(diff / MinuteMs)
    else if diff < DayMs then Hours(diff / HourMs)
    else if diff < WeekMs then Days(diff / DayMs)
    else if diff < FourWeeksMs then
      var n := (diff / 7) / DayMs;
      Weeks(n)
    else if diff < MeanYearMs then
      var n := (diff / 30) / DayMs;
      if n == 0 then AboutAMonth else Months(n)
    else
      var n := (diff / 365) / DayMs;
      Years(n)
  }

  /** Buckets never run backwards: a longer gap gets a later bucket, or the
      same bucket with a count at least as large. */
  lemma BucketMonotone(d1: int, d2: int)
    requires d1 <= d2
    ensures Rank(Bucket(d1)) <= Rank(Bucket(d2))
    ensures Rank(Bucket(d1)) == Rank(Bucket(d2)) ==> Count(Bucket(d1)) <= Count(Bucket(d2))
  {
  }

  function Rank(b: Elapsed): nat {
    match b
    case JustNow => 0
    case Minutes(_) => 1
    case Hours(_) => 2
    case Days(_) => 3
    case Weeks(_) => 4
    case AboutAMonth => 5
    case Months(_) => 6
    case Years(_) => 7
  }

  function Count(b: Elapsed): int {
    match b
    case JustNow => 0
    case AboutAMonth => 1
    case Minutes(n) => n
    case Hours(n) => n
    case Days(n) => n
    case Weeks(n) => n
    case Months(n) => n
    case Years(n) => n
  }

  // ---------------------------------------------------------------------
  // Rendering
  // ---------------------------------------------------------------------

  /** A bucket the current algorithm can produce. */
  predicate WellFormed(b: Elapsed) {
    match b
    case JustNow => true
    case AboutAMonth => true
    case Minutes(n) => n >= 1
    case Hours(n) => n >= 1
    case Days(n) => n >= 1
    case Weeks(n) => n >= 1
    case Months(n) => n >= 1
    case Years(n) => n >= 1
  }

  lemma BucketWellFormed(diff: int)
    ensures WellFormed(Bucket(diff))
  {
  }

  /** The digits of a count followed by its unit. */
  function Counted(n: nat, unit: string): (s: string)
    ensures |s| > |unit|
  {
    Decimal(n) + unit
  }

  /** The unit text following the count of a bucket other than `JustNow`. */
  function Unit(b: Elapsed): string {
    match b
    case JustNow => ""
    case Minutes(_) => "분 전"
    case Hours(_) => "시간 전"
    case Days(_) => "일 전"
    case Weeks(_) => "주 전"
    case AboutAMonth => " 개월 전"
    case Months(_) => "개월 전"
    case Years(_) => "년 전"
  }

  /** The label text of a bucket. */
  function Render(b: Elapsed): string
    requires WellFormed(b)
  {
    if b == JustNow then "방금 전" else Counted(Count(b), Unit(b))
  }

  /** The label shown for a millisecond difference. */
  function ElapsedLabel(diff: int): string {
    BucketWellFormed(diff);
    Render(Bucket(diff))
  }

  /** The number of leading decimal digits of `s`. */
  function LeadingDigits(s: string): (n: nat)
    ensures n <= |s| && AllDigits(s[..n])
    ensures n < |s| ==> !IsDigit(s[n])
  {
    if s == [] || !IsDigit(s[0]) then 0
    else
      var n := 1 + LeadingDigits(s[1..]);
      assert s[..n] == [s[0]] + s[1..][..n - 1];
      n
  }

  lemma LeadingDigitsOf(d: string, u: string)
    requires AllDigits(d) && (u == [] || !IsDigit(u[0]))
    ensures LeadingDigits(d + u) == |d|
  {
    if d != [] {
      assert (d + u)[1..] == d[1..] + u;
      LeadingDigitsOf(d[1..], u);
    } else {
      assert d + u == u;
    }
  }

  /** Reads a label back into its bucket: the inverse of `Render`. */
  function Parse(text: string): Option<Elapsed> {
    var k := LeadingDigits(text);
    if k == 0 then (if text == "방금 전" then Some(JustNow) else None)
    else ParseUnit(DigitsValue(text[..k]), text[k..])
  }

  /** The bucket named by a unit following a count `n`. */
  function ParseUnit(n: nat, unit: string): Option<Elapsed> {
    if unit == "분 전" then Some(Minutes(n))
    else if unit == "시간 전" then Some(Hours(n))
    else if unit == "일 전" then Some(Days(n))
    else if unit == "주 전" then Some(Weeks(n))
    else if unit == " 개월 전" then (if n == 1 then Some(AboutAMonth) else None)
    else if unit == "개월 전" then Some(Months(n))
    else if unit == "년 전" then Some(Years(n))
    else None
  }

  lemma ParseCounted(n: nat, unit: string)
    requires unit != [] && !IsDigit(unit[0])
    ensures var s := Counted(n, unit);
            LeadingDigits(s) == |Decimal(n)| && s[..|Decimal(n)|] == Decimal(n) &&
            s[|Decimal(n)|..] == unit && DigitsValue(Decimal(n)) == n
    ensures Parse(Counted(n, unit)) == ParseUnit(n, unit)
  {
    LeadingDigitsOf(Decimal(n), unit);
    DecimalValue(n);
    var s := Counted(n, unit);
    assert s[..|Decimal(n)|] == Decimal(n);
    assert s[|Decimal(n)|..] == unit;
  }

  lemma ParseUnitOf(b: Elapsed)
    requires WellFormed(b) && b != JustNow
    ensures ParseUnit(Count(b), Unit(b)) == Some(b)
  {
  }

  /** Every label reads back to the bucket it was rendered from, so two
      different buckets never share a label. */
  lemma RenderParse(b: Elapsed)
    requires WellFormed(b)
    ensures Parse(Render(b)) == Some(b)
  {
    if b == JustNow {
      assert LeadingDigits("방금 전") == 0;
    } else {
      ParseCounted(Count(b), Unit(b));
      ParseUnitOf(b);
    }
  }

  lemma RenderInjective(b1: Elapsed, b2: Elapsed)
    requires WellFormed(b1) && WellFormed(b2) && Render(b1) == Render(b2)
    ensures b1 == b2
  {
    RenderParse(b1);
    RenderParse(b2);
  }

  // ---------------------------------------------------------------------
  // Older revision: field-by-field difference
  // ---------------------------------------------------------------------

  datatype FieldLabel =
    | MonthsAgo(n: int)
    | Yesterday
    | DaysAgo(n: int)
    | HoursAgo(n: int)
    | MinutesAgo(n: int)
    | JustNowField

  /** The month, day, hour and minute fields at [4,6), [6,8), [8,10), [10,12). */
  datatype Fields = Fields(month: int, date: int, hour: int, minute: int)

  function ReadFields(s: string): (r: Result<Fields>)
    ensures |s| < 12 ==> r.Failure?
  {
    var month :- FieldInt(s, 4, 6);
    var date :- FieldInt(s, 6, 8);
    var hour :- FieldInt(s, 8, 10);
    var minute :- FieldInt(s, 10, 12);
    Success(Fields(month, date, hour, minute))
  }

  /** The first positive difference decides, in the order month, day, hour,
      minute; a day difference of exactly one reads "yesterday". */
  function FieldDiff(msg: Fields, now: Fields): (l: FieldLabel)
    ensures now.month - msg.month > 0 <==> l.MonthsAgo?
    ensures l.MonthsAgo? ==> l.n == now.month - msg.month
    ensures l == Yesterday <==> now.month - msg.month <= 0 && now.date - msg.date == 1
    ensures l.DaysAgo? <==> now.month - msg.month <= 0 && now.date - msg.date > 1
    ensures l.DaysAgo? ==> l.n == now.date - msg.date
    ensures l.HoursAgo? <==> now.month - msg.month <= 0 && now.date - msg.date <= 0 && now.hour - msg.hour > 0
    ensures l.HoursAgo? ==> l.n == now.hour - msg.hour
    ensures l.MinutesAgo? <==> now.month - msg.month <= 0 && now.date - msg.date <= 0
                               && now.hour - msg.hour <= 0 && now.minute - msg.minute > 0
    ensures l.MinutesAgo? ==> l.n == now.minute - msg.minute
  {
    var monthAgo, dayAgo := now.month - msg.month, now.date - msg.date;
    var hourAgo, minuteAgo := now.hour - msg.hour, now.minute - msg.minute;
    if monthAgo > 0 then MonthsAgo(monthAgo)
    else if dayAgo > 0 then (if dayAgo == 1 then Yesterday else DaysAgo(dayAgo))
    else if hourAgo > 0 then HoursAgo(hourAgo)
    else if minuteAgo > 0 then MinutesAgo(minuteAgo)
    else JustNowField
  }

  /** `getLastMessageTimeString` of the older adapter: the message's fields
      are read first, then the current time's; a field that is missing or
      not a number throws. */
  function FieldLabelOf(msg: string, now: string): (r: Result<FieldLabel>)
    ensures |msg| < 12 ==> r.Failure?
  {
    var m :- ReadFields(msg);
    var c :- ReadFields(now);
    Success(FieldDiff(m, c))
  }

  /** The label depends on characters 4 to 11 of the two strings only: the
      year and the seconds never matter. */
  lemma FieldLabelReadsOnlyFields(m1: string, m2: string, now: string)
    requires |m1| >= 12 && |m2| >= 12 && m1[4..12] == m2[4..12]
    ensures FieldLabelOf(m1, now) == FieldLabelOf(m2, now)
  {
    SameField(m1, m2, 4, 6);
    SameField(m1, m2, 6, 8);
    SameField(m1, m2, 8, 10);
    SameField(m1, m2, 10, 12);
  }

  lemma SameField(m1: string, m2: string, i: nat, j: nat)
    requires |m1| >= 12 && |m2| >= 12 && m1[4..12] == m2[4..12]
    requires 4 <= i <= j <= 12
    ensures m1[i..j] == m2[i..j]
  {
    assert forall k :: i <= k < j ==> m1[k] == m1[4..12][k - 4] == m2[4..12][k - 4] == m2[k];
  }

  /** A non-positive month difference falls through to the day field even
      across a new year: a message from 15 December read on 10 January is
      labelled "just now". */
  lemma YearBoundaryFallsThrough()
    ensures FieldDiff(Fields(12, 15, 12, 0), Fields(1, 10, 12, 0)) == JustNowField
  {
  }

  function RenderField(l: FieldLabel): string
    requires l.MonthsAgo? || l.DaysAgo? || l.HoursAgo? || l.MinutesAgo? ==> l.n >= 0
  {
    match l
    case MonthsAgo(n) => Counted(n, "개월 전")
    case Yesterday => "어제"
    case DaysAgo(n) => Counted(n, "일 전")
    case HoursAgo(n) => Counted(n, "시간 전")
    case MinutesAgo(n) => Counted(n, "분 전")
    case JustNowField => "방금"
  }

  /** The text shown by the older adapter; every count is positive. */
  function FieldLabelText(msg: Fields, now: Fields): string {
    RenderField(FieldDiff(msg, now))
  }
}
