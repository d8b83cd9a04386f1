/** The calendar and formatting helpers of `src/date.ts`.
    A JavaScript `Date` is reduced to the broken-down local fields its getters return;
    the clock read of `getRelativeTime` and `isToday` becomes a parameter. */
module Dates {
  import opened Wrappers
  import opened Decimal
  import Js

  /** The local-time fields of a `Date`: `getFullYear()`, `getMonth()` (0-based),
      `getDate()`, `getHours()`, `getMinutes()`, `getSeconds()`. */
  datatype DateTime = DateTime(year: int, month0: int, day: int, hours: int, minutes: int, seconds: int)

  /** The ranges the getters of a valid `Date` stay in. */
  predicate InRange(d: DateTime)
  {
    && 0 <= d.month0 < 12
    && 1 <= d.day <= 31
    && 0 <= d.hours < 24
    && 0 <= d.minutes < 60
    && 0 <= d.seconds < 60
  }

  // ------------------------------------------------------------ formatting

  /** The text `formatDate` builds from the year, 0-based month and day. */
  function DateText(year: int, month0: int, day: int): string
  {
    IntToString(year) + "-" + TwoDigits(month0 + 1) + "-" + TwoDigits(day)
  }

  /** `formatDate`: `${year}-${MM}-${DD}`; the year is not padded. */
  function FormatDate(d: DateTime): (r: string)
    ensures InRange(d) ==> |r| == |IntToString(d.year)| + 6
    ensures InRange(d) ==> ParseDate(r) == Some((d.year, d.month0, d.day))
  {
    if InRange(d) then
      FormatDateParses(d);
      DateText(d.year, d.month0, d.day)
    else DateText(d.year, d.month0, d.day)
  }

  /** `formatDateTime`: `formatDate(d)` followed by ` HH:mm:ss` on the 24-hour clock. */
  function FormatDateTime(d: DateTime): (r: string)
    ensures InRange(d) ==> |r| == |IntToString(d.year)| + 15
    ensures InRange(d) ==> ParseDateTime(r) == Some(d)
    ensures InRange(d) && 1000 <= d.year <= 9999 ==> DateTimeShape(r)
  {
    var date := FormatDate(d);
    var r := date + " " + TwoDigits(d.hours) + ":" + TwoDigits(d.minutes) + ":" + TwoDigits(d.seconds);
    if InRange(d) then
      FormatDateTimeParses(d, date, r);
      FormatDateTimeShape(d, date, r);
      r
    else r
  }

  /** A year as `String(year)` writes it: optionally negated decimal digits. */
  predicate YearText(y: string)
  {
    |y| > 0 && (if y[0] == '-' then |y| > 1 && AllDigits(y[1..]) else AllDigits(y))
  }

  /** Reads `YYYY-MM-DD` back into (year, 0-based month, day), taking the year as
      everything before the last six characters. */
  function ParseDate(s: string): Option<(int, int, int)>
  {
    if |s| < 7 then None
    else
      var y, t := s[..|s| - 6], s[|s| - 6..];
      if YearText(y) && t[0] == '-' && t[3] == '-' && AllDigits(t[1..3]) && AllDigits(t[4..6])
      then Some((ParseInt(y), ParseNat(t[1..3]) - 1, ParseNat(t[4..6])))
      else None
  }

  /** Reads `YYYY-MM-DD HH:mm:ss` back into the fields it was formatted from. */
  function ParseDateTime(s: string): Option<DateTime>
  {
    if |s| < 16 then None
    else
      var date, t := s[..|s| - 9], s[|s| - 9..];
      match ParseDate(date)
      case None => None
      case Some(ymd) =>
        if t[0] == ' ' && t[3] == ':' && t[6] == ':'
           && AllDigits(t[1..3]) && AllDigits(t[4..6]) && AllDigits(t[7..9])
        then Some(DateTime(ymd.0, ymd.1, ymd.2, ParseNat(t[1..3]), ParseNat(t[4..6]), ParseNat(t[7..9])))
        else None
  }

  /** `String(year)` is always a well-formed year text. */
  lemma IntToStringIsYearText(n: int)
    ensures YearText(IntToString(n))
    ensures ParseInt(IntToString(n)) == n
  {
    ParseIntToString(n);
    var r := IntToString(n);
    if n < 0 {
      assert r[1..] == NatToString(-n);
    } else {
      assert r[0] != '-';
    }
  }

  /** Parsing undoes the date format for any well-formed year and two-digit fields. */
  lemma DateTextParses(y: string, m: string, dd: string)
    requires YearText(y)
    requires |m| == 2 && AllDigits(m) && |dd| == 2 && AllDigits(dd)
    ensures ParseDate(y + "-" + m + "-" + dd) == Some((ParseInt(y), ParseNat(m) - 1, ParseNat(dd)))
  {
    var t := ['-', m[0], m[1], '-', dd[0], dd[1]];
    JoinFields(y, '-', m, '-', dd);
    Pair(m);
    Pair(dd);
    Pair(t[1..3]);
    Pair(t[4..6]);
    ParseDateSuffix(y, t);
  }

  lemma ParseDateSuffix(y: string, t: string)
    requires YearText(y) && |t| == 6 && t[0] == '-' && t[3] == '-'
    requires AllDigits(t[1..3]) && AllDigits(t[4..6])
    ensures ParseDate(y + t) == Some((ParseInt(y), ParseNat(t[1..3]) - 1, ParseNat(t[4..6])))
  {
    SplitSuffix(y, t);
  }

  /** Parsing undoes the time part appended to a date text. */
  lemma DateTimeTextParses(date: string, ymd: (int, int, int), h: string, mi: string, s: string)
    requires ParseDate(date) == Some(ymd)
    requires |h| == 2 && AllDigits(h) && |mi| == 2 && AllDigits(mi) && |s| == 2 && AllDigits(s)
    ensures ParseDateTime(date + " " + h + ":" + mi + ":" + s)
         == Some(DateTime(ymd.0, ymd.1, ymd.2, ParseNat(h), ParseNat(mi), ParseNat(s)))
  {
    var t := [' ', h[0], h[1], ':', mi[0], mi[1], ':', s[0], s[1]];
    JoinTime(date, h, mi, s);
    Pair(h);
    Pair(mi);
    Pair(s);
    Pair(t[1..3]);
    Pair(t[4..6]);
    Pair(t[7..9]);
    ParseDateTimeSuffix(date, ymd, t);
  }

  lemma ParseDateTimeSuffix(date: string, ymd: (int, int, int), t: string)
    requires ParseDate(date) == Some(ymd)
    requires |t| == 9 && t[0] == ' ' && t[3] == ':' && t[6] == ':'
    requires AllDigits(t[1..3]) && AllDigits(t[4..6]) && AllDigits(t[7..9])
    ensures ParseDateTime(date + t)
         == Some(DateTime(ymd.0, ymd.1, ymd.2, ParseNat(t[1..3]), ParseNat(t[4..6]), ParseNat(t[7..9])))
  {
    SplitSuffix(date, t);
    assert |date| >= 7;
  }

  /** `a + [c] + b + [e] + f` for two-character `b` and `f`, written out. */
  lemma JoinFields(a: string, c: char, b: string, e: char, f: string)
    requires |b| == 2 && |f| == 2
    ensures a + [c] + b + [e] + f == a + [c, b[0], b[1], e, f[0], f[1]]
  {
    Pair(b);
    Pair(f);
  }

  /** A two-element sequence is the display of its elements. */
  lemma Pair(x: string)
    requires |x| == 2
    ensures x == [x[0], x[1]]
  {
  }

  /** The time fields appended to a date, written out. */
  lemma JoinTime(date: string, h: string, mi: string, s: string)
    requires |h| == 2 && |mi| == 2 && |s| == 2
    ensures date + " " + h + ":" + mi + ":" + s
         == date + [' ', h[0], h[1], ':', mi[0], mi[1], ':', s[0], s[1]]
  {
    var r := date + " " + h + ":" + mi + ":" + s;
    var t := [' ', h[0], h[1], ':', mi[0], mi[1], ':', s[0], s[1]];
    assert |r| == |date + t|;
    forall i | 0 <= i < |r|
      ensures r[i] == (date + t)[i]
    {
      if i >= |date| {
        var j := i - |date|;
        if j < 3 {
          assert r[i] == (date + " " + h)[i];
        } else if j < 6 {
          assert r[i] == (date + " " + h + ":" + mi)[i];
        }
      }
    }
  }

  /** Cutting `a + t` at `|t|` from the end gives back `a` and `t`. */
  lemma SplitSuffix(a: string, t: string)
    ensures (a + t)[..|a + t| - |t|] == a && (a + t)[|a + t| - |t|..] == t
  {
  }

  lemma FormatDateParses(d: DateTime)
    requires InRange(d)
    ensures |DateText(d.year, d.month0, d.day)| == |IntToString(d.year)| + 6
    ensures ParseDate(DateText(d.year, d.month0, d.day)) == Some((d.year, d.month0, d.day))
  {
    DateFieldsParse(d.year, d.month0 + 1, d.day);
  }

  /** The date text of a year, a 1-based month and a day below 100 reads back as them. */
  lemma DateFieldsParse(year: int, month: int, day: int)
    requires 0 <= month < 100 && 0 <= day < 100
    ensures |IntToString(year) + "-" + TwoDigits(month) + "-" + TwoDigits(day)| == |IntToString(year)| + 6
    ensures ParseDate(IntToString(year) + "-" + TwoDigits(month) + "-" + TwoDigits(day)) == Some((year, month - 1, day))
  {
    IntToStringIsYearText(year);
    TwoDigitsRoundTrip(month);
    TwoDigitsRoundTrip(day);
    DateTextParses(IntToString(year), TwoDigits(month), TwoDigits(day));
  }

  lemma FormatDateTimeParses(d: DateTime, date: string, r: string)
    requires InRange(d)
    requires date == FormatDate(d)
    requires r == date + " " + TwoDigits(d.hours) + ":" + TwoDigits(d.minutes) + ":" + TwoDigits(d.seconds)
    ensures |r| == |IntToString(d.year)| + 15
    ensures ParseDateTime(r) == Some(d)
  {
    TwoDigitsRoundTrip(d.hours);
    TwoDigitsRoundTrip(d.minutes);
    TwoDigitsRoundTrip(d.seconds);
    DateTimeTextParses(date, (d.year, d.month0, d.day), TwoDigits(d.hours), TwoDigits(d.minutes), TwoDigits(d.seconds));
  }

  /** The fixed 19-character shape `dddd-dd-dd dd:dd:dd`. */
  predicate DateTimeShape(r: string)
  {
    && |r| == 19
    && r[4] == '-' && r[7] == '-' && r[10] == ' ' && r[13] == ':' && r[16] == ':'
    && forall i :: 0 <= i < 19 && i !in {4, 7, 10, 13, 16} ==> Ascii.IsDigit(r[i])
  }

  /** Four year digits and five two-digit fields joined by the separators have the shape. */
  lemma ShapeOfFields(y: string, m: string, dd: string, h: string, mi: string, s: string)
    requires |y| == 4 && AllDigits(y)
    requires |m| == 2 && AllDigits(m) && |dd| == 2 && AllDigits(dd)
    requires |h| == 2 && AllDigits(h) && |mi| == 2 && AllDigits(mi) && |s| == 2 && AllDigits(s)
    ensures DateTimeShape(y + "-" + m + "-" + dd + " " + h + ":" + mi + ":" + s)
  {
    var r := y + "-" + m + "-" + dd + " " + h + ":" + mi + ":" + s;
    forall i | 0 <= i < 19 && i !in {4, 7, 10, 13, 16}
      ensures Ascii.IsDigit(r[i])
    {
      if i < 4 { assert r[i] == y[i]; }
      else if i < 7 { assert r[i] == m[i - 5]; }
      else if i < 10 { assert r[i] == dd[i - 8]; }
      else if i < 13 { assert r[i] == h[i - 11]; }
      else if i < 16 { assert r[i] == mi[i - 14]; }
      else { assert r[i] == s[i - 17]; }
    }
  }

  lemma FormatDateTimeShape(d: DateTime, date: string, r: string)
    requires InRange(d)
    requires date == FormatDate(d)
    requires r == date + " " + TwoDigits(d.hours) + ":" + TwoDigits(d.minutes) + ":" + TwoDigits(d.seconds)
    ensures 1000 <= d.year <= 9999 ==> DateTimeShape(r)
  {
    if 1000 <= d.year <= 9999 {
      assert date == IntToString(d.year) + "-" + TwoDigits(d.month0 + 1) + "-" + TwoDigits(d.day);
      TwoDigitsRoundTrip(d.month0 + 1);
      TwoDigitsRoundTrip(d.day);
      TwoDigitsRoundTrip(d.hours);
      TwoDigitsRoundTrip(d.minutes);
      TwoDigitsRoundTrip(d.seconds);
      ShapeOfFields(IntToString(d.year), TwoDigits(d.month0 + 1), TwoDigits(d.day),
                    TwoDigits(d.hours), TwoDigits(d.minutes), TwoDigits(d.seconds));
    }
  }

  /** Years below 1000 are not padded: the shape is then shorter than 19 characters. */
  lemma ShortYearNotPadded()
    ensures FormatDate(DateTime(999, 0, 5, 0, 0, 0)) == "999-01-05"
  {
    assert NatToString(999) == "999";
    assert TwoDigits(1) == "01";
    assert TwoDigits(5) == "05";
  }

  /** `isToday(date)` with the current moment `now` passed in: the two format equally. */
  function IsToday(d: DateTime, now: DateTime): (r: bool)
    ensures InRange(d) && InRange(now) ==>
              (r <==> d.year == now.year && d.month0 == now.month0 && d.day == now.day)
  {
    if InRange(d) && InRange(now) then
      SameDateText(d, now);
      FormatDate(d) == FormatDate(now)
    else FormatDate(d) == FormatDate(now)
  }

  /** Two valid dates format equally exactly when their year, month and day agree. */
  lemma SameDateText(d: DateTime, e: DateTime)
    requires InRange(d) && InRange(e)
    ensures FormatDate(d) == FormatDate(e) <==>
            d.year == e.year && d.month0 == e.month0 && d.day == e.day
  {
    var a, b := FormatDate(d), FormatDate(e);
    if a == b {
      assert ParseDate(a) == ParseDate(b);
    }
  }

  // ------------------------------------------------------------- calendar

  /** `isLeapYear`, with JavaScript's truncating `%`. The Gregorian rule holds for every
      integer year, zero and negative years included (year 0 is 1 BC in astronomical
      numbering). */
  function IsLeapYear(year: int): (r: bool)
    ensures r <==> (year % 4 == 0 && year % 100 != 0) || year % 400 == 0
  {
    Js.RemZeroIffDivides(year, 4);
    Js.RemZeroIffDivides(year, 100);
    Js.RemZeroIffDivides(year, 400);
    (Js.Rem(year, 4) == 0 && Js.Rem(year, 100) != 0) || Js.Rem(year, 400) == 0
  }

  /** The rule repeats every 400 years, and every multiple of 400 is a leap year. */
  lemma LeapYearPeriodic(year: int)
    ensures IsLeapYear(year + 400) == IsLeapYear(year)
    ensures year % 400 == 0 ==> IsLeapYear(year)
  {
    Js.ModAddMultiple(year, 4, 100);
    Js.ModAddMultiple(year, 100, 4);
    Js.ModAddMultiple(year, 400, 1);
  }

  /** The lengths of the months of a year, 0-based month index. */
  function MonthLength(leap: bool, m0: int): int
    requires 0 <= m0 < 12
  {
    if m0 == 1 then (if leap then 29 else 28)
    else if m0 == 3 || m0 == 5 || m0 == 8 || m0 == 10 then 30
    else 31
  }

  /** `new Date(year, month, 0).getDate()`: the last day of the month before 0-based
      month `month`, i.e. the length of 1-based month `month`. The constructor maps
      years 0..99 to 1900..1999 and carries an out-of-range month into the year. */
  function DaysInMonth(year: int, month: int): (r: int)
    ensures 28 <= r <= 31
  {
    var yr := if 0 <= year <= 99 then 1900 + year else year;
    var m0 := month - 1;
    MonthLength(IsLeapYear(yr + m0 / 12), m0 % 12)
  }

  /** For an ordinary year and month 1..12, February has 29 days exactly in leap years,
      April, June, September and November 30, the other months 31. */
  lemma DaysInMonthTable(year: int, month: int)
    requires year < 0 || year > 99
    requires 1 <= month <= 12
    ensures DaysInMonth(year, month) == 29 <==> month == 2 && IsLeapYear(year)
    ensures DaysInMonth(year, month) == 28 <==> month == 2 && !IsLeapYear(year)
    ensures DaysInMonth(year, month) == 30 <==> month in {4, 6, 9, 11}
  {
  }

  /** The twelve months of an ordinary year add up to 365 days, or 366 in a leap year. */
  lemma YearLength(year: int)
    requires year < 0 || year > 99
    ensures DaysInMonth(year, 1) + DaysInMonth(year, 2) + DaysInMonth(year, 3)
          + DaysInMonth(year, 4) + DaysInMonth(year, 5) + DaysInMonth(year, 6)
          + DaysInMonth(year, 7) + DaysInMonth(year, 8) + DaysInMonth(year, 9)
          + DaysInMonth(year, 10) + DaysInMonth(year, 11) + DaysInMonth(year, 12)
          == if IsLeapYear(year) then 366 else 365
  {
  }

  /** The constructor's year mapping shows through: year 0 is a leap year, yet
      `getDaysInMonth(0, 2)` reads February 1900, which has 28 days. */
  lemma DaysInMonthTwoDigitYear()
    ensures IsLeapYear(0) && DaysInMonth(0, 2) == 28
    ensures IsLeapYear(2000) && DaysInMonth(2000, 2) == 29
  {
    assert Js.Rem(1900, 400) != 0;
  }

  /** Month 13 of a year is January of the next one; month 0 is December of the previous one. */
  lemma DaysInMonthCarries(year: int)
    requires year > 99
    ensures DaysInMonth(year, 13) == DaysInMonth(year + 1, 1) == 31
    ensures DaysInMonth(year, 0) == 31
    ensures DaysInMonth(year, 14) == DaysInMonth(year + 1, 2)
  {
  }

  // -------------------------------------------------------- relative time

  const SECOND: int := 1000
  const MINUTE: int := 60 * SECOND
  const HOUR: int := 60 * MINUTE
  const DAY: int := 24 * HOUR

  /** The bucket `getRelativeTime` picks, with the count it prints. */
  datatype Relative = JustNow | MinutesAgo(n: int) | HoursAgo(n: int) | DaysAgo(n: int)
                    | MonthsAgo(n: int) | YearsAgo(n: int)

  /** The cascade of `Math.floor` divisions and thresholds of `getRelativeTime`, applied
      to the elapsed milliseconds `now - date`. Dafny's `/` by a positive divisor is the
      floor division `Math.floor(a / b)` computes, negative elapsed times included. */
  function RelativeBucket(elapsed: int): (r: Relative)
    ensures r.JustNow? <==> elapsed < MINUTE
    ensures r.MinutesAgo? <==> MINUTE <= elapsed < HOUR
    ensures r.HoursAgo? <==> HOUR <= elapsed < DAY
    ensures r.DaysAgo? <==> DAY <= elapsed < 30 * DAY
    ensures r.MonthsAgo? <==> 30 * DAY <= elapsed < 365 * DAY
    ensures r.YearsAgo? <==> 365 * DAY <= elapsed
    ensures r.MinutesAgo? ==> r.n == elapsed / MINUTE && 1 <= r.n < 60
    ensures r.HoursAgo? ==> r.n == elapsed / HOUR && 1 <= r.n < 24
    ensures r.DaysAgo? ==> r.n == elapsed / DAY && 1 <= r.n < 30
    ensures r.MonthsAgo? ==> r.n == (elapsed / DAY) / 30 && 1 <= r.n <= 12
    ensures r.YearsAgo? ==> r.n == (elapsed / DAY) / 365 && r.n >= 1
  {
    var seconds := elapsed / 1000;
    var minutes := seconds / 60;
    var hours := minutes / 60;
    var days := hours / 24;
    assert minutes == elapsed / MINUTE;
    assert hours == elapsed / HOUR;
    assert days == elapsed / DAY;
    if seconds < 60 then JustNow
    else if minutes < 60 then MinutesAgo(minutes)
    else if hours < 24 then HoursAgo(hours)
    else if days < 30 then DaysAgo(days)
    else if days < 365 then MonthsAgo(days / 30)
    else YearsAgo(days / 365)
  }

  /** The text `getRelativeTime` returns for a bucket. */
  function Render(b: Relative): (r: string)
    ensures b.JustNow? <==> r == "刚刚"
    ensures !b.JustNow? ==> |r| > 0 && r[|r| - 1] == '前'
  {
    match b
    case JustNow => "刚刚"
    case MinutesAgo(n) => IntToString(n) + "分钟前"
    case HoursAgo(n) => IntToString(n) + "小时前"
    case DaysAgo(n) => IntToString(n) + "天前"
    case MonthsAgo(n) => IntToString(n) + "个月前"
    case YearsAgo(n) => IntToString(n) + "年前"
  }

  /** The count written before the unit `u` at the end of `t`, when `t` is a decimal
      integer followed by `u`. */
  function CountBefore(t: string, u: string): (r: Option<int>)
    ensures r.Some? ==> |t| > |u| && t[|t| - |u|..] == u
  {
    if |t| > |u| && t[|t| - |u|..] == u && YearText(t[..|t| - |u|])
    then Some(ParseInt(t[..|t| - |u|]))
    else None
  }

  /** Reads a relative-time text back into its bucket: "just now", or a count followed by
      one of the five units. */
  function ParseRelative(t: string): Option<Relative>
  {
    if t == "刚刚" then Some(JustNow)
    else if CountBefore(t, "分钟前").Some? then Some(MinutesAgo(CountBefore(t, "分钟前").value))
    else if CountBefore(t, "小时前").Some? then Some(HoursAgo(CountBefore(t, "小时前").value))
    else if CountBefore(t, "天前").Some? then Some(DaysAgo(CountBefore(t, "天前").value))
    else if CountBefore(t, "个月前").Some? then Some(MonthsAgo(CountBefore(t, "个月前").value))
    else if CountBefore(t, "年前").Some? then Some(YearsAgo(CountBefore(t, "年前").value))
    else None
  }

  /** A count written before a unit reads back as that count; the text ends in the
      unit's last two characters. */
  lemma CountBeforeRendered(n: int, u: string)
    requires |u| >= 2
    ensures var t := IntToString(n) + u;
            && CountBefore(t, u) == Some(n)
            && |t| > |u| && t[|t| - 1] == u[|u| - 1] && t[|t| - 2] == u[|u| - 2]
  {
    var a, t := IntToString(n), IntToString(n) + u;
    IntToStringIsYearText(n);
    SplitSuffix(a, u);
    assert t[|t| - 1] == u[|u| - 1] && t[|t| - 2] == u[|u| - 2];
  }

  /** A text whose next-to-last character differs from that of unit `w` does not end in `w`. */
  lemma UnitMismatch(t: string, w: string)
    requires |t| >= 2 && |w| >= 2 && t[|t| - 2] != w[|w| - 2]
    ensures CountBefore(t, w).None?
  {
    if |t| > |w| {
      assert t[|t| - |w|..][|w| - 2] == t[|t| - 2];
    }
  }

  /** Every rendered bucket reads back as itself: the text determines both the unit and
      the count. */
  lemma RenderParses(b: Relative)
    ensures ParseRelative(Render(b)) == Some(b)
  {
    match b
    case JustNow =>
    case MinutesAgo(n) => MinutesParse(n);
    case HoursAgo(n) => HoursParse(n);
    case DaysAgo(n) => DaysParse(n);
    case MonthsAgo(n) => MonthsParse(n);
    case YearsAgo(n) => YearsParse(n);
  }

  lemma MinutesParse(n: int)
    ensures ParseRelative(IntToString(n) + "分钟前") == Some(MinutesAgo(n))
  {
    CountBeforeRendered(n, "分钟前");
  }

  lemma HoursParse(n: int)
    ensures ParseRelative(IntToString(n) + "小时前") == Some(HoursAgo(n))
  {
    var t := IntToString(n) + "小时前";
    CountBeforeRendered(n, "小时前");
    UnitMismatch(t, "分钟前");
  }

  lemma DaysParse(n: int)
    ensures ParseRelative(IntToString(n) + "天前") == Some(DaysAgo(n))
  {
    var t := IntToString(n) + "天前";
    CountBeforeRendered(n, "天前");
    UnitMismatch(t, "分钟前");
    UnitMismatch(t, "小时前");
  }

  lemma MonthsParse(n: int)
    ensures ParseRelative(IntToString(n) + "个月前") == Some(MonthsAgo(n))
  {
    var t := IntToString(n) + "个月前";
    CountBeforeRendered(n, "个月前");
    UnitMismatch(t, "分钟前");
    UnitMismatch(t, "小时前");
    UnitMismatch(t, "天前");
  }

  lemma YearsParse(n: int)
    ensures ParseRelative(IntToString(n) + "年前") == Some(YearsAgo(n))
  {
    var t := IntToString(n) + "年前";
    CountBeforeRendered(n, "年前");
    UnitMismatch(t, "分钟前");
    UnitMismatch(t, "小时前");
    UnitMismatch(t, "天前");
    UnitMismatch(t, "个月前");
  }

  /** `getRelativeTime(date)` with the elapsed time `now - date` passed in: "just now"
      exactly below one minute (negative elapsed times included), otherwise a count
      followed by the unit and "ago"; the text reads back as the bucket of `elapsed`,
      so it carries that bucket's unit and count. */
  function RelativeTime(elapsed: int): (r: string)
    ensures r == "刚刚" <==> elapsed < MINUTE
    ensures elapsed >= MINUTE ==> |r| > 0 && r[|r| - 1] == '前'
    ensures ParseRelative(r) == Some(RelativeBucket(elapsed))
  {
    RenderParses(RelativeBucket(elapsed));
    Render(RelativeBucket(elapsed))
  }
}
