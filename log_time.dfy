/**
 * The log-time page: the `DD-MM-YYYY` date formatter of its date picker, the
 * window of days an entry may be logged for, field validation, the daily
 * nine-hour cap and the record a submission sends to the store.
 */
module LogTime {
  import opened Js
  import opened Calendar
  import opened Dates
  import opened Store

  /** NgbDateStruct; its fields are JavaScript numbers and may be NaN. */
  datatype DateStruct = DateStruct(year: Num, month: Num, day: Num)

  /** A number plus an integer; NaN stays NaN. */
  function NumAdd(n: Num, k: int): Num
  {
    match n
    case NaN => NaN
    case Int(v) => Int(v + k)
  }

  /* ---------------------------------------------------------------------- */
  /* CustomDateFormatter                                                     */
  /* ---------------------------------------------------------------------- */

  /** parse: three dash-separated parts read with parseInt, day first; otherwise null. */
  function FormatterParse(value: string): (r: Option<DateStruct>)
    ensures value == "" ==> r.None?
    ensures r.Some? <==> value != "" && |Split(value, '-')| == 3
  {
    if value == "" then None
    else
      var parts := Split(value, '-');
      if |parts| == 3 then Some(DateStruct(ParseInt(parts[2]), ParseInt(parts[1]), ParseInt(parts[0])))
      else None
  }

  /** format: `DD-MM-YYYY` with day and month padded to two digits; null gives "". */
  function FormatterFormat(date: Option<DateStruct>): (r: string)
    ensures date.None? ==> r == ""
  {
    match date
    case None => ""
    case Some(d) => Pad2(NumToString(d.day)) + "-" + Pad2(NumToString(d.month)) + "-" + NumToString(d.year)
  }

  /** parse reads back what format wrote, for dates with non-negative fields. */
  lemma FormatterRoundTrip(y: nat, m: nat, d: nat)
    ensures var date := DateStruct(Int(y), Int(m), Int(d));
      FormatterParse(FormatterFormat(Some(date))) == Some(date)
  {
    var a, b, c := Pad2(NatToString(d)), Pad2(NatToString(m)), NatToString(y);
    FormatterText(y, m, d);
    Pad2Value(d);
    Pad2Value(m);
    FormatterParseParts(a, b, c);
    NatToStringValue(y);
    ParseIntPad2(d);
    ParseIntPad2(m);
    ParseIntDigits(c);
  }

  /** parse splits three dash-free parts at the dashes: year last, day first. */
  lemma FormatterParseParts(a: string, b: string, c: string)
    requires '-' !in a && '-' !in b && '-' !in c
    ensures FormatterParse(a + "-" + b + "-" + c) == Some(DateStruct(ParseInt(c), ParseInt(b), ParseInt(a)))
  {
    SplitThree(a, b, c, '-');
    assert a + "-" + b + "-" + c == a + ['-'] + b + ['-'] + c;
  }

  /** Two two-character parts and a tail joined by dashes, position by position. */
  lemma DashLayout(r: string, a: string, b: string, c: string)
    requires r == a + "-" + b + "-" + c && |a| == 2 && |b| == 2
    ensures |r| == 6 + |c| && r[2] == '-' && r[5] == '-' && r[..2] == a && r[3..5] == b && r[6..] == c
  {
  }

  /**
   * For day and month below 100, format writes exactly `DD-MM-` followed by
   * the year: two digits, a dash, two digits, a dash, then the year's digits.
   */
  lemma FormatterLayout(y: nat, m: nat, d: nat)
    requires d < 100 && m < 100
    ensures var r := FormatterFormat(Some(DateStruct(Int(y), Int(m), Int(d))));
      |r| == 6 + |NatToString(y)| && r[2] == '-' && r[5] == '-'
      && AllDigits(r[..2]) && DigitsValue(r[..2]) == d
      && AllDigits(r[3..5]) && DigitsValue(r[3..5]) == m
      && r[6..] == NatToString(y)
  {
    var a, b, c := Pad2(NatToString(d)), Pad2(NatToString(m)), NatToString(y);
    NatToStringLength(d);
    NatToStringLength(m);
    Pad2Value(d);
    Pad2Value(m);
    var r := FormatterFormat(Some(DateStruct(Int(y), Int(m), Int(d))));
    FormatterText(y, m, d);
    DashLayout(r, a, b, c);
    assert r[..2] == a && r[3..5] == b;
  }

  /** format of non-negative fields, written with the decimal texts of the fields. */
  lemma FormatterText(y: nat, m: nat, d: nat)
    ensures FormatterFormat(Some(DateStruct(Int(y), Int(m), Int(d))))
      == Pad2(NatToString(d)) + "-" + Pad2(NatToString(m)) + "-" + NatToString(y)
  {
    assert NumToString(Int(y)) == NatToString(y);
    assert NumToString(Int(m)) == NatToString(m);
    assert NumToString(Int(d)) == NatToString(d);
  }

  /* ---------------------------------------------------------------------- */
  /* Date conversions of the component                                       */
  /* ---------------------------------------------------------------------- */

  /** ngbDateToDate: `new Date(year, month - 1, day)`. */
  function NgbToDate(d: DateStruct): JsDate {
    MakeDate(d.year, NumAdd(d.month, -1), d.day)
  }

  /** dateToNgbDate. */
  function DateToNgb(d: JsDate): DateStruct {
    DateStruct(GetFullYear(d), GetMonth1(d), GetDate(d))
  }

  /** Converting a day to a date struct and back gives the day again. */
  lemma NgbRoundTrip(z: int)
    requires InRange(z) && !(0 <= CivilFromDays(z).year <= 99)
    ensures NgbToDate(DateToNgb(Date(z))) == Date(z)
  {
    MakeDateOfDay(z);
  }

  /** isDisabled: a picker day is disabled when it falls on a Sunday or a Saturday. */
  predicate IsDisabled(year: int, month: int, day: int) {
    var d := MakeDate(Int(year), Int(month - 1), Int(day));
    GetDay(d) == Int(0) || GetDay(d) == Int(6)
  }

  /** For a real calendar day, isDisabled is exactly the weekend test of that day. */
  lemma IsDisabledWeekend(c: Civil)
    requires ValidCivil(c) && !(0 <= c.year <= 99) && InRange(DaysFromCivil(c))
    ensures IsDisabled(c.year, c.month, c.day) <==> IsWeekend(DaysFromCivil(c))
  {
    MakeDateOfCivil(c);
  }

  /** formatDateForStorage: `DD/MM/YYYY`; the Invalid Date gives `NaN/NaN/NaN`. */
  function FormatDateForStorage(d: JsDate): (r: string)
    ensures d == InvalidDate ==> r == "NaN/NaN/NaN"
  {
    Pad2(NumToString(GetDate(d))) + "/" + Pad2(NumToString(GetMonth1(d))) + "/" + NumToString(GetFullYear(d))
  }

  /** A moment read from the clock: a day, an hour of the day and a minute. */
  datatype Instant = Instant(date: int, hour: int, minute: int)

  predicate ValidInstant(t: Instant) {
    0 <= t.hour < 24 && 0 <= t.minute < 60
  }

  /** The hour of a 12-hour clock: 0 and 12 are shown as 12. */
  function Hour12(hour: int): (h: int)
    requires 0 <= hour < 24
    ensures 1 <= h <= 12
  {
    if hour % 12 == 0 then 12 else hour % 12
  }

  function Meridiem(hour: int): string {
    if hour >= 12 then "PM" else "AM"
  }

  /** formatDateTimeForStorage: `DD/MM/YYYY hh:mm AM|PM`. */
  function FormatDateTimeForStorage(t: Instant): string
    requires ValidInstant(t)
  {
    FormatDateForStorage(Date(t.date)) + " " + Pad2(NatToString(Hour12(t.hour))) + ":"
      + Pad2(NatToString(t.minute)) + " " + Meridiem(t.hour)
  }

  /** A head, then two two-character parts and a tail, separated by space, colon and space. */
  lemma TimeLayout(date: string, hh: string, mm: string, tail: string)
    requires |hh| == 2 && |mm| == 2
    ensures var r := date + " " + hh + ":" + mm + " " + tail;
      var n := |date|;
      |r| == n + 7 + |tail| && r[..n] == date && r[n] == ' ' && r[n + 3] == ':' && r[n + 6] == ' '
      && r[n + 1..n + 3] == hh && r[n + 4..n + 6] == mm && r[n + 7..] == tail
  {
  }

  /**
   * The stored creation time is the storage date of its day, a space, the
   * two-digit 12-hour hour, a colon, the two-digit minute, a space and the
   * AM/PM marker.
   */
  lemma DateTimeLayout(t: Instant, date: string)
    requires ValidInstant(t) && date == FormatDateForStorage(Date(t.date))
    ensures var r := FormatDateTimeForStorage(t);
      var n := |date|;
      |r| == n + 9 && r[..n] == date && r[n] == ' ' && r[n + 3] == ':' && r[n + 6] == ' '
      && ParseInt(r[n + 1..n + 3]) == Int(Hour12(t.hour)) && ParseInt(r[n + 4..n + 6]) == Int(t.minute)
      && r[n + 7..] == Meridiem(t.hour)
  {
    var hh, mm := Pad2(NatToString(Hour12(t.hour))), Pad2(NatToString(t.minute));
    TimePadded(t);
    assert FormatDateTimeForStorage(t) == date + " " + hh + ":" + mm + " " + Meridiem(t.hour);
    TimeLayout(date, hh, mm, Meridiem(t.hour));
  }

  /**
   * The 12-hour clock loses nothing: the shown hour and the AM/PM marker
   * give the hour of the day back; midnight is 12 AM and noon 12 PM.
   */
  lemma Hour12Inverse(hour: int)
    requires 0 <= hour < 24
    ensures Hour12(hour) % 12 + (if Meridiem(hour) == "PM" then 12 else 0) == hour
    ensures hour == 0 ==> Hour12(hour) == 12 && Meridiem(hour) == "AM"
    ensures hour == 12 ==> Hour12(hour) == 12 && Meridiem(hour) == "PM"
    ensures 13 <= hour ==> Hour12(hour) == hour - 12 && Meridiem(hour) == "PM"
  {
  }

  /** The time part is zero-padded: hour and minute both take exactly two digits. */
  lemma TimePadded(t: Instant)
    requires ValidInstant(t)
    ensures |Pad2(NatToString(Hour12(t.hour)))| == 2 && |Pad2(NatToString(t.minute))| == 2
    ensures ParseInt(Pad2(NatToString(Hour12(t.hour)))) == Int(Hour12(t.hour))
    ensures ParseInt(Pad2(NatToString(t.minute))) == Int(t.minute)
  {
    NatToStringLength(Hour12(t.hour));
    NatToStringLength(t.minute);
    ParseIntPad2(Hour12(t.hour));
    ParseIntPad2(t.minute);
  }

  /* ---------------------------------------------------------------------- */
  /* Business days                                                           */
  /* ---------------------------------------------------------------------- */

  /** The number of weekdays in the days a..b-1. */
  function WeekdaysIn(a: int, b: int): nat
    decreases b - a
  {
    if a >= b then 0 else WeekdaysIn(a, b - 1) + (if IsWeekend(b - 1) then 0 else 1)
  }

  lemma {:induction false} WeekdaysInSplit(a: int, b: int, c: int)
    requires a <= b <= c
    ensures WeekdaysIn(a, c) == WeekdaysIn(a, b) + WeekdaysIn(b, c)
    decreases c - b
  {
    if b < c {
      WeekdaysInSplit(a, b, c - 1);
    }
  }

  lemma {:induction false} WeekdaysInFirst(a: int, b: int)
    requires a < b && !IsWeekend(a)
    ensures WeekdaysIn(a, b) >= 1
  {
    WeekdaysInSplit(a, a + 1, b);
  }

  /** How far back from day z the nearest weekday lies. */
  function StepsToWeekday(z: int): (n: int)
    ensures 0 <= n <= 2 && !IsWeekend(z - n)
    ensures n >= 1 ==> IsWeekend(z)
    ensures n == 2 ==> IsWeekend(z - 1)
  {
    if Weekday(z) == 0 then 2 else if Weekday(z) == 6 then 1 else 0
  }

  /** The day n business days before `from`. */
  function BusinessDaysAgo(from: int, n: int): int
    decreases n
  {
    if n <= 0 then from
    else
      var prev := BusinessDaysAgo(from, n - 1) - 1;
      prev - StepsToWeekday(prev)
  }

  /**
   * For n >= 1 the day n business days back lies before `from`, is itself a
   * weekday, and exactly n weekdays lie from it up to the day before `from`.
   */
  lemma {:induction false} BusinessDaysAgoSpec(from: int, n: int)
    requires n >= 1
    ensures var r := BusinessDaysAgo(from, n);
      r < from && !IsWeekend(r) && WeekdaysIn(r, from) == n
    decreases n
  {
    var prevDay := BusinessDaysAgo(from, n - 1);
    var prev := prevDay - 1;
    var r := prev - StepsToWeekday(prev);
    if n > 1 {
      BusinessDaysAgoSpec(from, n - 1);
    }
    assert WeekdaysIn(prevDay, from) == n - 1;
    WeekdaysInSplit(r, prevDay, from);
    WeekdaysSkipped(r, prevDay);
  }

  /** Between a weekday and the weekend days just after it lies one weekday. */
  lemma WeekdaysSkipped(r: int, d: int)
    requires r < d && d - r <= 3 && !IsWeekend(r)
    requires forall j :: r < j < d ==> IsWeekend(j)
    ensures WeekdaysIn(r, d) == 1
  {
    assert WeekdaysIn(r, r + 1) == 1;
    if d - r >= 2 {
      assert IsWeekend(r + 1);
      assert WeekdaysIn(r, r + 2) == 1;
    }
    if d - r == 3 {
      assert IsWeekend(r + 2);
      assert WeekdaysIn(r, r + 3) == 1;
    }
  }

  /** A weekday with exactly n weekdays up to `from` is unique. */
  lemma BusinessDayUnique(from: int, n: int, a: int, b: int)
    requires a < from && b < from && !IsWeekend(a) && !IsWeekend(b)
    requires WeekdaysIn(a, from) == n && WeekdaysIn(b, from) == n
    ensures a == b
  {
    if a < b {
      WeekdaysInSplit(a, b, from);
      WeekdaysInFirst(a, b);
    } else if b < a {
      WeekdaysInSplit(b, a, from);
      WeekdaysInFirst(b, a);
    }
  }

  /**
   * calculateBusinessDaysAgo: step back one day at a time, counting the days
   * that are not Saturday or Sunday, until the count reaches businessDays.
   */
  method CalculateBusinessDaysAgo(from: int, businessDays: int) returns (r: int)
    ensures r == BusinessDaysAgo(from, businessDays)
    ensures businessDays <= 0 ==> r == from
    ensures businessDays >= 1 ==> r < from && !IsWeekend(r) && WeekdaysIn(r, from) == businessDays
  {
    var daysToSubtract := 0;
    var count := 0;
    while count < businessDays
      invariant 0 <= daysToSubtract && 0 <= count
      invariant WeekdaysIn(from - daysToSubtract, from) == count
      invariant businessDays <= 0 ==> daysToSubtract == 0
      invariant businessDays >= 1 ==> count <= businessDays
      invariant count < businessDays || businessDays <= 0 || !IsWeekend(from - daysToSubtract)
      decreases businessDays - count, StepsToWeekday(from - daysToSubtract - 1)
    {
      daysToSubtract := daysToSubtract + 1;
      var checkDate := from - daysToSubtract;
      assert WeekdaysIn(checkDate, from) == WeekdaysIn(checkDate + 1, from) + (if IsWeekend(checkDate) then 0 else 1) by {
        WeekdaysInSplit(checkDate, checkDate + 1, from);
      }
      if !IsWeekend(checkDate) {
        count := count + 1;
      }
    }
    r := from - daysToSubtract;
    if businessDays >= 1 {
      BusinessDaysAgoSpec(from, businessDays);
      BusinessDayUnique(from, businessDays, r, BusinessDaysAgo(from, businessDays));
    }
  }

  /* ---------------------------------------------------------------------- */
  /* The entry window                                                        */
  /* ---------------------------------------------------------------------- */

  /** `parts.map(Number)[i]`, undefined (NaN as a date field) past the end. */
  function Part(parts: seq<string>, i: nat): Num {
    if i < |parts| then ToNumber(parts[i]) else NaN
  }

  /** A project date `D-M-Y` read as `new Date(Y, M - 1, D)`. */
  function ProjectDate(s: string): JsDate {
    var p := Split(s, '-');
    MakeDate(Part(p, 2), NumAdd(Part(p, 1), -1), Part(p, 0))
  }

  /** The `DD-MM-YYYY` text of a day, month and year, as project dates are stored. */
  function DmyText(day: nat, month: nat, year: nat): string {
    Pad2(NatToString(day)) + "-" + Pad2(NatToString(month)) + "-" + NatToString(year)
  }

  /** Three digit strings joined by dashes are split back into their values. */
  lemma DashedNumbers(a: string, b: string, y: string)
    requires a != [] && b != [] && y != [] && AllDigits(a) && AllDigits(b) && AllDigits(y)
    requires '-' !in a && '-' !in b && '-' !in y
    ensures var p := Split(a + "-" + b + "-" + y, '-');
      Part(p, 0) == Int(DigitsValue(a)) && Part(p, 1) == Int(DigitsValue(b)) && Part(p, 2) == Int(DigitsValue(y))
  {
    SplitThree(a, b, y, '-');
    ToNumberDigits(a);
    ToNumberDigits(b);
    ToNumberDigits(y);
  }

  /** Text that starts and ends with a digit is kept by trimming. */
  lemma TrimDigitEnds(s: string)
    requires s != [] && IsDigit(s[0]) && IsDigit(s[|s| - 1])
    ensures Trim(s) == s
  {
    TrimNoWhitespace(s);
  }

  /** The `DD-MM-YYYY` text is split back into its three numbers, and trimming keeps it. */
  lemma DmyTextParts(day: nat, month: nat, year: nat)
    ensures var p := Split(DmyText(day, month, year), '-');
      Part(p, 0) == Int(day) && Part(p, 1) == Int(month) && Part(p, 2) == Int(year)
    ensures Trim(DmyText(day, month, year)) == DmyText(day, month, year)
  {
    var a, b, y := Pad2(NatToString(day)), Pad2(NatToString(month)), NatToString(year);
    Pad2Value(day);
    Pad2Value(month);
    NatToStringValue(year);
    DashedNumbers(a, b, y);
    DashedTrim(a, b, y);
  }

  /** Digit strings joined by dashes have nothing for trim to remove. */
  lemma DashedTrim(a: string, b: string, y: string)
    requires a != [] && y != [] && AllDigits(a) && AllDigits(y)
    ensures Trim(a + "-" + b + "-" + y) == a + "-" + b + "-" + y
  {
    var s := a + "-" + b + "-" + y;
    assert s[0] == a[0] && s[|s| - 1] == y[|y| - 1];
    TrimDigitEnds(s);
  }

  /** A project date stored as the `DD-MM-YYYY` text of a day is read as that day. */
  lemma ProjectDateOfText(z: int)
    requires 1000 <= CivilFromDays(z).year <= 9999
    ensures var c := CivilFromDays(z);
      ProjectDate(DmyText(c.day, c.month, c.year)) == Date(z)
  {
    var c := CivilFromDays(z);
    CivilFromDaysValid(z);
    DaysFromCivilBounds(c);
    assert InRange(z);
    MakeDateOfDay(z);
    var made := MakeDate(Int(c.year), Int(c.month - 1), Int(c.day));
    assert made == Date(z);
    ProjectDateOfFields(c.day, c.month, c.year);
  }

  /** The `DD-MM-YYYY` text of day, month and year is read as `new Date(year, month - 1, day)`. */
  lemma ProjectDateOfFields(day: nat, month: nat, year: nat)
    ensures ProjectDate(DmyText(day, month, year)) == MakeDate(Int(year), Int(month - 1), Int(day))
  {
    DmyTextParts(day, month, year);
    var p := Split(DmyText(day, month, year), '-');
    MakeDateOfNumbers(Part(p, 2), Part(p, 1), Part(p, 0), year, month, day);
  }

  /** `new Date(y, m - 1, d)` of the numbers read from the parts. */
  lemma MakeDateOfNumbers(y: Num, m: Num, d: Num, year: nat, month: nat, day: nat)
    requires y == Int(year) && m == Int(month) && d == Int(day)
    ensures MakeDate(y, NumAdd(m, -1), d) == MakeDate(Int(year), Int(month - 1), Int(day))
  {
  }

  datatype Window = Window(min: JsDate, max: JsDate)

  /**
   * The days an entry may be logged for: from the later of the project start
   * and four business days ago, up to the earlier of today and the project end.
   */
  function EntryWindow(today: int, project: Project): Window {
    WindowOf(today, ProjectDate(project.startDate), ProjectDate(Trim(project.endDate)), BusinessDaysAgo(today, 4))
  }

  /** The window for given project dates and the day four business days back. */
  function WindowOf(today: int, start: JsDate, end: JsDate, back: int): Window {
    var fiveBusinessDaysAgo := Date(back);
    Window(
      if Less(fiveBusinessDaysAgo, start) then start else fiveBusinessDaysAgo,
      if Less(Date(today), end) then Date(today) else end)
  }

  /**
   * With valid project dates the window is [max(start, four business days
   * ago), min(today, end)]; an invalid start leaves the business-day bound
   * and an invalid end becomes the maximum, since comparisons with the
   * Invalid Date are false. The business-day bound is a weekday before
   * today with exactly four weekdays from it up to yesterday.
   */
  lemma EntryWindowBounds(today: int, start: JsDate, end: JsDate)
    ensures var back := BusinessDaysAgo(today, 4);
      var w := WindowOf(today, start, end, back);
      (start.Date? ==> w.min == Date(if start.day > back then start.day else back)) &&
      (start == InvalidDate ==> w.min == Date(back)) &&
      (end.Date? ==> w.max == Date(if end.day < today then end.day else today)) &&
      (end == InvalidDate ==> w.max == InvalidDate) &&
      back < today && !IsWeekend(back) && WeekdaysIn(back, today) == 4
  {
    BusinessDaysAgoSpec(today, 4);
  }

  /**
   * For a project running from day a to day b, both stored as `DD-MM-YYYY`
   * texts, the window runs from the later of a and four business days ago
   * to the earlier of b and today.
   */
  lemma EntryWindowOfTexts(today: int, project: Project, a: int, b: int)
    requires 1000 <= CivilFromDays(a).year <= 9999 && 1000 <= CivilFromDays(b).year <= 9999
    requires var c := CivilFromDays(a); project.startDate == DmyText(c.day, c.month, c.year)
    requires var c := CivilFromDays(b); project.endDate == DmyText(c.day, c.month, c.year)
    ensures var back := BusinessDaysAgo(today, 4);
      EntryWindow(today, project) == Window(Date(if a > back then a else back), Date(if b < today then b else today))
  {
    ProjectDateOfText(a);
    ProjectDateOfText(b);
    var c := CivilFromDays(b);
    DmyTextParts(c.day, c.month, c.year);
    EntryWindowBounds(today, Date(a), Date(b));
  }

  /** The window setupDateRestrictions computes, with the business-day walk as a loop. */
  method ComputeEntryWindow(today: int, project: Project) returns (w: Window)
    ensures w == EntryWindow(today, project)
  {
    var projectStartDate := ProjectDate(project.startDate);
    var projectEndDate := ProjectDate(Trim(project.endDate));
    var fiveBusinessDaysAgo := CalculateBusinessDaysAgo(today, 4);
    w := WindowOf(today, projectStartDate, projectEndDate, fiveBusinessDaysAgo);
  }

  /** The picker bounds setupDateRestrictions sets: the date structs of the window's two ends. */
  function Restrictions(today: int, project: Project): (Option<DateStruct>, Option<DateStruct>) {
    var w := EntryWindow(today, project);
    (Some(DateToNgb(w.min)), Some(DateToNgb(w.max)))
  }

  /** The picker's minimum and maximum for the entry window. */
  method ComputeRestrictions(today: int, project: Project) returns (lo: DateStruct, hi: DateStruct)
    ensures lo == DateToNgb(EntryWindow(today, project).min)
    ensures hi == DateToNgb(EntryWindow(today, project).max)
  {
    var w := ComputeEntryWindow(today, project);
    lo, hi := DateToNgb(w.min), DateToNgb(w.max);
  }

  /* ---------------------------------------------------------------------- */
  /* Field validation                                                        */
  /* ---------------------------------------------------------------------- */

  /** Number.isInteger. */
  predicate IsInteger(r: real) {
    r.Floor as real == r
  }

  function DateErrorOf(date: Option<DateStruct>): string {
    if date.None? then "Date is required" else ""
  }

  function ActivityErrorOf(activity: string): string {
    if activity == "" then "Activity is required" else ""
  }

  /** The hours message: missing, then not positive, then above 9, then not whole. */
  function HoursErrorOf(hours: Option<real>): string {
    if hours.None? then "Hours is required"
    else if hours.value <= 0.0 then "Hours must be greater than 0"
    else if hours.value > 9.0 then "Hours cannot exceed 9"
    else if !IsInteger(hours.value) then "Hours must be a whole number"
    else ""
  }

  function IssueErrorOf(issue: string): string {
    if issue == "" || Trim(issue) == "" then "Issue description is required"
    else if |Trim(issue)| < 10 then "Issue description must be at least 10 characters"
    else if |Trim(issue)| > 500 then "Issue description cannot exceed 500 characters"
    else ""
  }

  /** What a valid form holds, stated without the messages. */
  predicate FieldsValid(date: Option<DateStruct>, activity: string, hours: Option<real>, issue: string) {
    date.Some? && activity != ""
    && hours.Some? && IsInteger(hours.value) && 1 <= hours.value.Floor <= 9
    && 10 <= |Trim(issue)| <= 500
  }

  /** The form is valid exactly when none of the four messages is set. */
  lemma ErrorsIffInvalid(date: Option<DateStruct>, activity: string, hours: Option<real>, issue: string)
    ensures (DateErrorOf(date) == "" && ActivityErrorOf(activity) == "" && HoursErrorOf(hours) == ""
      && IssueErrorOf(issue) == "") <==> FieldsValid(date, activity, hours, issue)
  {
    if hours.Some? && IsInteger(hours.value) {
      var h := hours.value;
      assert h == h.Floor as real;
      assert h > 0.0 <==> h.Floor >= 1;
      assert h <= 9.0 <==> h.Floor <= 9;
    }
  }

  /** The daily total the cap compares: hours of the same user on the same storage date. */
  function ExistingHours(timesheets: seq<Timesheet>, user: string, date: string): int {
    SumOf(Filter(timesheets, (t: Timesheet) => t.user == user && t.date == date), (t: Timesheet) => t.hours)
  }

  /**
   * Logging one more record adds its hours to the daily total of its own
   * user and day, and leaves every other user's and day's total as it was.
   */
  lemma ExistingHoursAppend(timesheets: seq<Timesheet>, t: Timesheet, user: string, date: string)
    ensures ExistingHours(timesheets + [t], user, date)
      == ExistingHours(timesheets, user, date) + (if t.user == user && t.date == date then t.hours else 0)
  {
    var p := (x: Timesheet) => x.user == user && x.date == date;
    FilterAppend(timesheets, [t], p);
    SumOfAppend(Filter(timesheets, p), Filter([t], p), (x: Timesheet) => x.hours);
    if p(t) {
      assert Filter([t], p) == [t];
    } else {
      assert Filter([t], p) == [];
    }
  }

  /** The cap message of checkDailyHoursLimit. */
  function CapMessage(total: int, existing: int): string {
    "Total hours for this day would be " + IntToString(total)
      + ". Maximum allowed is 9 hours per day. You already have " + IntToString(existing) + " hours logged."
  }

  /* ---------------------------------------------------------------------- */
  /* The form                                                                */
  /* ---------------------------------------------------------------------- */

  /** The weekend test onDateChange applies to a picked date. */
  predicate IsWeekendPick(d: DateStruct) {
    var jsDate := NgbToDate(d);
    jsDate.Date? && IsWeekend(jsDate.day)
  }

  /** The storage text of a picked date, as the cap compares it. */
  function StorageDate(d: DateStruct): string {
    FormatDateForStorage(NgbToDate(d))
  }

  /** The record onSubmit builds once validation and the cap have passed. */
  function Draft(user: string, project: Project, day: string, activity: string, hours: int,
                 issue: string, stamp: string): TimesheetDraft
  {
    TimesheetDraft(
      date := day,
      user := user,
      activity := activity,
      issue := Trim(issue),
      comment := "",
      hours := hours,
      approvalStatus := "Pending",
      created := stamp,
      unit := "Unit 2",
      author := user,
      projectId := project.id,
      projectName := project.name)
  }

  /** The stored date text of the picked date, if one is picked. */
  function StorageDay(date: Option<DateStruct>): (r: Option<string>)
    ensures r.Some? <==> date.Some?
  {
    match date
    case None => None
    case Some(d) => Some(StorageDate(d))
  }

  /**
   * The day's cap is kept: a user, a day (as stored) and non-zero hours are
   * given, the store answered, and its hours for that user and day plus the
   * new ones are at most 9.
   */
  predicate WithinCap(user: Option<string>, day: Option<string>, hours: Option<real>, response: Response<Timesheet>) {
    user.Some? && day.Some? && hours.Some? && hours.value != 0.0 && response.Loaded?
    && ExistingHours(response.items, user.value, day.value) + hours.value.Floor <= 9
  }

  /**
   * The hours message after checkDailyHoursLimit: kept without a user, a
   * date or non-zero hours, the store error's message, the cap message when
   * the day's total would pass 9, and otherwise kept.
   */
  function CapHoursError(user: Option<string>, day: Option<string>, hours: Option<real>,
                         response: Response<Timesheet>, prior: string): string
  {
    if user.None? || day.None? || hours.None? || hours.value == 0.0 then prior
    else
      match response
      case StoreError => "Error validating daily hours limit"
      case Loaded(ts) => CapText(ExistingHours(ts, user.value, day.value), hours.value.Floor, prior)
  }

  /** The cap message when the day's hours pass 9, otherwise the prior message. */
  function CapText(existing: int, hours: int, prior: string): string {
    if existing + hours > 9 then CapMessage(existing + hours, existing) else prior
  }

  /**
   * The cap's message follows its verdict: a kept cap, or missing user, date
   * or hours, leave the prior message; a refused cap with everything given
   * shows the store error's message, or the cap message naming the day's
   * total and the hours already logged.
   */
  lemma CapHoursVerdict(user: Option<string>, day: Option<string>, hours: Option<real>,
                        response: Response<Timesheet>, prior: string)
    ensures WithinCap(user, day, hours, response) ==> CapHoursError(user, day, hours, response, prior) == prior
    ensures user.None? || day.None? || hours.None? || hours.value == 0.0 ==>
      CapHoursError(user, day, hours, response, prior) == prior
    ensures !WithinCap(user, day, hours, response) && user.Some? && day.Some? && hours.Some? && hours.value != 0.0 ==>
      (response.StoreError? ==> CapHoursError(user, day, hours, response, prior) == "Error validating daily hours limit")
      && (response.Loaded? ==>
            var existing := ExistingHours(response.items, user.value, day.value);
            CapHoursError(user, day, hours, response, prior) == CapMessage(existing + hours.value.Floor, existing))
  {
  }

  /** A record built from a valid form carries whole hours in 1..9 and a trimmed issue of 10 to 500 characters. */
  lemma DraftBounds(user: string, project: Project, date: Option<DateStruct>, activity: string, hours: Option<real>,
                    issue: string, stamp: string)
    requires FieldsValid(date, activity, hours, issue)
    ensures var d := Draft(user, project, StorageDate(date.value), activity, hours.value.Floor, issue, stamp);
      1 <= d.hours <= 9 && 10 <= |d.issue| <= 500 && d.issue == Trim(issue) && d.date == StorageDate(date.value)
      && d.approvalStatus == "Pending" && d.user == user && d.author == user
  {
  }

  class LogTimeForm {
    var currentUser: Option<string>
    var project: Option<Project>
    var selectedDate: Option<DateStruct>
    var selectedActivity: string
    var hours: Option<real>
    var issue: string
    var dateError: string
    var activityError: string
    var hoursError: string
    var issueError: string
    var minDateStruct: Option<DateStruct>
    var maxDateStruct: Option<DateStruct>

    /** The state after the page loaded for a user and a project. */
    constructor (user: Option<string>, p: Option<Project>)
      ensures currentUser == user && project == p
      ensures selectedDate.None? && selectedActivity == "" && hours.None? && issue == ""
      ensures dateError == "" && activityError == "" && hoursError == "" && issueError == ""
      ensures minDateStruct.None? && maxDateStruct.None?
    {
      currentUser := user;
      project := p;
      selectedDate := None;
      selectedActivity := "";
      hours := None;
      issue := "";
      dateError := "";
      activityError := "";
      hoursError := "";
      issueError := "";
      minDateStruct := None;
      maxDateStruct := None;
    }

    /** setupDateRestrictions, with today's day number passed in. */
    method SetupDateRestrictions(today: int)
      modifies this`minDateStruct, this`maxDateStruct
      ensures old(project).None? ==> minDateStruct == old(minDateStruct) && maxDateStruct == old(maxDateStruct)
      ensures old(project).Some? ==> (minDateStruct, maxDateStruct) == Restrictions(today, old(project).value)
    {
      var p := project;
      if p.None? {
        return;
      }
      var lo, hi := ComputeRestrictions(today, p.value);
      minDateStruct, maxDateStruct := Some(lo), Some(hi);
      assert (Some(lo), Some(hi)) == Restrictions(today, p.value);
    }

    /** onDateChange: a missing date is required; a weekend date is refused and cleared. */
    method OnDateChange()
      modifies this`dateError, this`selectedDate
      ensures old(selectedDate).None? ==> dateError == "Date is required" && selectedDate.None?
      ensures old(selectedDate).Some? && IsWeekendPick(old(selectedDate).value) ==>
        dateError == "Weekends are not allowed" && selectedDate.None?
      ensures old(selectedDate).Some? && !IsWeekendPick(old(selectedDate).value) ==>
        dateError == "" && selectedDate == old(selectedDate)
    {
      if selectedDate.None? {
        dateError := "Date is required";
        return;
      }
      var jsDate := NgbToDate(selectedDate.value);
      if GetDay(jsDate) == Int(0) || GetDay(jsDate) == Int(6) {
        dateError := "Weekends are not allowed";
        selectedDate := None;
        return;
      }
      dateError := "";
    }

    /** validateForm: all four fields are checked on every call, each setting its own message. */
    method ValidateForm() returns (isValid: bool)
      modifies this`dateError, this`activityError, this`hoursError, this`issueError
      ensures dateError == DateErrorOf(old(selectedDate)) && activityError == ActivityErrorOf(old(selectedActivity))
      ensures hoursError == HoursErrorOf(old(hours)) && issueError == IssueErrorOf(old(issue))
      ensures isValid <==> FieldsValid(old(selectedDate), old(selectedActivity), old(hours), old(issue))
    {
      var d, a, h, i := selectedDate, selectedActivity, hours, issue;
      dateError := DateErrorOf(d);
      activityError := ActivityErrorOf(a);
      hoursError := HoursErrorOf(h);
      issueError := IssueErrorOf(i);
      ErrorsIffInvalid(d, a, h, i);
      isValid := DateErrorOf(d) == "" && ActivityErrorOf(a) == "" && HoursErrorOf(h) == "" && IssueErrorOf(i) == "";
    }

    /**
     * checkDailyHoursLimit, given the store's answer: it fails without a
     * user, a date or non-zero hours, and on a store error; otherwise it
     * passes exactly when the day's existing hours plus the new ones are at
     * most 9, and sets the cap message when they are not.
     */
    method CheckDailyHoursLimit(response: Response<Timesheet>) returns (ok: bool)
      requires hours.None? || IsInteger(hours.value)
      modifies this`hoursError
      ensures ok <==> WithinCap(old(currentUser), StorageDay(old(selectedDate)), old(hours), response)
      ensures hoursError == CapHoursError(old(currentUser), StorageDay(old(selectedDate)), old(hours), response, old(hoursError))
    {
      ok := CheckCap(response, StorageDay(selectedDate));
    }

    /**
     * The comparison of checkDailyHoursLimit once the picked date is
     * written as `day`, its storage text.
     */
    method CheckCap(response: Response<Timesheet>, day: Option<string>) returns (ok: bool)
      requires hours.None? || IsInteger(hours.value)
      requires day.Some? <==> selectedDate.Some?
      modifies this`hoursError
      ensures ok <==> WithinCap(old(currentUser), day, old(hours), response)
      ensures hoursError == CapHoursError(old(currentUser), day, old(hours), response, old(hoursError))
    {
      ghost var msg := CapHoursError(currentUser, day, hours, response, hoursError);
      if currentUser.None? || selectedDate.None? || hours.None? || hours.value == 0.0 {
        return false;
      }
      var user, h := currentUser.value, hours.value.Floor;
      var dateString := day.value;
      match response
      case StoreError =>
        hoursError := "Error validating daily hours limit";
        ok := false;
      case Loaded(timesheets) =>
        var totalExistingHours := ExistingHours(timesheets, user, dateString);
        var totalHours := totalExistingHours + h;
        if totalHours > 9 {
          hoursError := CapMessage(totalHours, totalExistingHours);
          ok := false;
        } else {
          ok := true;
        }
        assert hoursError == msg;
    }

    /**
     * onSubmit: validate, then check the cap against the store's answer, then
     * build the record, stamped with the clock reading `now`. `created` says
     * whether the store accepted it; with addAnother the form is then cleared
     * for the next entry.
     */
    method OnSubmit(addAnother: bool, response: Response<Timesheet>, now: Instant, created: bool)
      returns (sent: Option<TimesheetDraft>)
      requires ValidInstant(now)
      modifies this`selectedDate, this`selectedActivity, this`hours, this`issue,
        this`dateError, this`activityError, this`hoursError, this`issueError
      ensures sent.Some? <==>
        (FieldsValid(old(selectedDate), old(selectedActivity), old(hours), old(issue))
        && old(project).Some? && WithinCap(old(currentUser), StorageDay(old(selectedDate)), old(hours), response))
      ensures sent.Some? ==>
        sent.value == Draft(old(currentUser).value, old(project).value, StorageDate(old(selectedDate).value),
          old(selectedActivity), old(hours).value.Floor, old(issue), FormatDateTimeForStorage(now))
      ensures var cleared := sent.Some? && created && addAnother;
        cleared ==>
          selectedDate.None? && selectedActivity == "" && hours.None? && issue == ""
          && dateError == "" && activityError == "" && hoursError == "" && issueError == ""
      ensures var cleared := sent.Some? && created && addAnother;
        !cleared ==>
          selectedDate == old(selectedDate) && selectedActivity == old(selectedActivity)
          && hours == old(hours) && issue == old(issue)
          && dateError == DateErrorOf(old(selectedDate)) && activityError == ActivityErrorOf(old(selectedActivity))
          && issueError == IssueErrorOf(old(issue))
      ensures !(FieldsValid(old(selectedDate), old(selectedActivity), old(hours), old(issue))
          && old(currentUser).Some? && old(project).Some?)
        ==> hoursError == HoursErrorOf(old(hours))
      ensures var cleared := sent.Some? && created && addAnother;
        (FieldsValid(old(selectedDate), old(selectedActivity), old(hours), old(issue))
          && old(currentUser).Some? && old(project).Some? && !cleared)
        ==> hoursError == CapHoursError(old(currentUser), StorageDay(old(selectedDate)), old(hours), response, "")
    {
      sent := SubmitStamped(addAnother, response, StorageDay(selectedDate), FormatDateTimeForStorage(now), created);
    }

    /**
     * The body of onSubmit with the picked date already written as `day`, its
     * storage text, and the creation time as `stamp`.
     */
    method SubmitStamped(addAnother: bool, response: Response<Timesheet>, day: Option<string>, stamp: string,
                         created: bool)
      returns (sent: Option<TimesheetDraft>)
      requires day.Some? <==> selectedDate.Some?
      modifies this`selectedDate, this`selectedActivity, this`hours, this`issue,
        this`dateError, this`activityError, this`hoursError, this`issueError
      ensures sent.Some? <==>
        (FieldsValid(old(selectedDate), old(selectedActivity), old(hours), old(issue))
        && old(project).Some? && WithinCap(old(currentUser), day, old(hours), response))
      ensures sent.Some? ==>
        sent.value == Draft(old(currentUser).value, old(project).value, day.value,
          old(selectedActivity), old(hours).value.Floor, old(issue), stamp)
      ensures var cleared := sent.Some? && created && addAnother;
        cleared ==>
          selectedDate.None? && selectedActivity == "" && hours.None? && issue == ""
          && dateError == "" && activityError == "" && hoursError == "" && issueError == ""
      ensures var cleared := sent.Some? && created && addAnother;
        !cleared ==>
          selectedDate == old(selectedDate) && selectedActivity == old(selectedActivity)
          && hours == old(hours) && issue == old(issue)
          && dateError == DateErrorOf(old(selectedDate)) && activityError == ActivityErrorOf(old(selectedActivity))
          && issueError == IssueErrorOf(old(issue))
      ensures !(FieldsValid(old(selectedDate), old(selectedActivity), old(hours), old(issue))
          && old(currentUser).Some? && old(project).Some?)
        ==> hoursError == HoursErrorOf(old(hours))
      ensures var cleared := sent.Some? && created && addAnother;
        (FieldsValid(old(selectedDate), old(selectedActivity), old(hours), old(issue))
          && old(currentUser).Some? && old(project).Some? && !cleared)
        ==> hoursError == CapHoursError(old(currentUser), day, old(hours), response, "")
    {
      var user, proj, date, activity, h, text := currentUser, project, selectedDate, selectedActivity, hours, issue;
      var valid := ValidateForm();
      assert selectedDate == date && selectedActivity == activity && hours == h && issue == text;
      if !valid || user.None? || proj.None? || date.None? {
        return None;
      }
      assert hoursError == "";
      sent := SubmitValidated(addAnother, response, day, stamp, created);
    }

    /**
     * The rest of onSubmit once the form is valid: check the cap, build the
     * record and, when the store accepted it and addAnother is set, clear the
     * form.
     */
    method SubmitValidated(addAnother: bool, response: Response<Timesheet>, day: Option<string>, stamp: string,
                           created: bool)
      returns (sent: Option<TimesheetDraft>)
      requires (hours.None? || IsInteger(hours.value)) && currentUser.Some? && project.Some?
      requires day.Some? <==> selectedDate.Some?
      modifies this`selectedDate, this`selectedActivity, this`hours, this`issue,
        this`dateError, this`activityError, this`hoursError, this`issueError
      ensures sent.Some? <==> WithinCap(old(currentUser), day, old(hours), response)
      ensures sent.Some? ==>
        sent.value == Draft(old(currentUser).value, old(project).value, day.value,
          old(selectedActivity), old(hours).value.Floor, old(issue), stamp)
      ensures var cleared := sent.Some? && created && addAnother;
        cleared ==>
          selectedDate.None? && selectedActivity == "" && hours.None? && issue == ""
          && dateError == "" && activityError == "" && hoursError == "" && issueError == ""
      ensures var cleared := sent.Some? && created && addAnother;
        !cleared ==>
          selectedDate == old(selectedDate) && selectedActivity == old(selectedActivity)
          && hours == old(hours) && issue == old(issue)
          && dateError == old(dateError) && activityError == old(activityError) && issueError == old(issueError)
          && hoursError == CapHoursError(old(currentUser), day, old(hours), response, old(hoursError))
    {
      var user, proj, activity, h, text := currentUser, project, selectedActivity, hours, issue;
      ghost var msg := CapHoursError(user, day, h, response, hoursError);
      var isWithinLimit := CheckCap(response, day);
      assert selectedActivity == activity && hours == h && issue == text;
      assert hoursError == msg;
      if !isWithinLimit {
        return None;
      }
      sent := Some(Draft(user.value, proj.value, day.value, activity, h.value.Floor, text, stamp));
      if created && addAnother {
        ClearForm();
      }
    }

    /** clearForm: the entry fields and their messages are reset. */
    method ClearForm()
      modifies this`selectedDate, this`selectedActivity, this`hours, this`issue,
        this`dateError, this`activityError, this`hoursError, this`issueError
      ensures selectedDate.None? && selectedActivity == "" && hours.None? && issue == ""
      ensures dateError == "" && activityError == "" && hoursError == "" && issueError == ""
    {
      selectedDate := None;
      selectedActivity := "";
      hours := None;
      issue := "";
      dateError := "";
      activityError := "";
      hoursError := "";
      issueError := "";
    }
  }
}
