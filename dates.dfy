/**
 * JavaScript Date values as the application uses them: every Date it builds
 * is a local midnight, so a Date is a whole day number (days since
 * 1970-01-01) or the Invalid Date. The local time zone is taken to be UTC,
 * which makes `new Date(y, m, d)` and the parse of a `YYYY-MM-DD` string
 * agree on the same day.
 */
module Dates {
  import opened Js
  import opened Calendar

  datatype JsDate = Date(day: int) | InvalidDate

  /** TimeClip: a time value beyond 8.64e15 ms, i.e. 1e8 days, is NaN. */
  const MaxDays: int := 100000000

  predicate InRange(z: int) {
    -MaxDays <= z <= MaxDays
  }

  function Clip(z: int): (r: JsDate)
    ensures r.Date? <==> InRange(z)
    ensures r.Date? ==> r.day == z
  {
    if InRange(z) then Date(z) else InvalidDate
  }

  /** Date.prototype.getDay: 0 is Sunday; 1970-01-01 was a Thursday. */
  function Weekday(z: int): (w: int)
    ensures 0 <= w < 7
  {
    (z + 4) % 7
  }

  predicate IsWeekend(z: int) {
    Weekday(z) == 0 || Weekday(z) == 6
  }

  /** Every run of seven consecutive days holds two weekend days. */
  lemma WeekendPeriod(z: int)
    ensures Weekday(0) == 4
    ensures IsWeekend(z) <==> IsWeekend(z + 7)
  {
  }

  /** getDay(), with NaN for the Invalid Date. */
  function GetDay(d: JsDate): (r: Num)
    ensures r.Int? <==> d.Date?
    ensures r.Int? ==> 0 <= r.value < 7
  {
    match d
    case InvalidDate => NaN
    case Date(z) => Int(Weekday(z))
  }

  /** getFullYear(). */
  function GetFullYear(d: JsDate): Num {
    match d
    case InvalidDate => NaN
    case Date(z) => Int(CivilFromDays(z).year)
  }

  /** getMonth() + 1: the month in 1..12. */
  function GetMonth1(d: JsDate): (r: Num)
    ensures r.Int? ==> 1 <= r.value <= 12
  {
    match d
    case InvalidDate => NaN
    case Date(z) => Int(CivilFromDays(z).month)
  }

  /** getDate(). */
  function GetDate(d: JsDate): (r: Num)
    ensures r.Int? ==> 1 <= r.value <= 31
  {
    match d
    case InvalidDate => NaN
    case Date(z) => Int(CivilFromDays(z).day)
  }

  /** The relational operators on Dates: false whenever either is invalid. */
  predicate Less(a: JsDate, b: JsDate) {
    a.Date? && b.Date? && a.day < b.day
  }

  predicate LessEq(a: JsDate, b: JsDate) {
    a.Date? && b.Date? && a.day <= b.day
  }

  /**
   * `new Date(year, monthIndex, day)`: NaN in any argument gives the Invalid
   * Date, years 0..99 mean 1900..1999, the month index carries into the year
   * (floor division), the day carries into the following months, and the
   * result is clipped.
   */
  function MakeDate(year: Num, monthIndex: Num, day: Num): (r: JsDate)
    ensures (year.NaN? || monthIndex.NaN? || day.NaN?) ==> r == InvalidDate
  {
    if year.NaN? || monthIndex.NaN? || day.NaN? then InvalidDate
    else
      var y := if 0 <= year.value <= 99 then 1900 + year.value else year.value;
      var ym := y + monthIndex.value / 12;
      var mn := monthIndex.value % 12;
      Clip(DaysFromCivil(Civil(ym, mn + 1, 1)) + day.value - 1)
  }

  /** The civil fields of a day rebuild that day through `new Date(y, m - 1, d)`. */
  lemma MakeDateOfCivil(c: Civil)
    requires ValidCivil(c) && !(0 <= c.year <= 99)
    ensures MakeDate(Int(c.year), Int(c.month - 1), Int(c.day)) == Clip(DaysFromCivil(c))
  {
    assert (c.month - 1) / 12 == 0 && (c.month - 1) % 12 == c.month - 1;
    assert DaysFromCivil(Civil(c.year, c.month, 1)) + c.day - 1 == DaysFromCivil(c);
  }

  /** `new Date(d.getFullYear(), d.getMonth(), d.getDate())` is d again. */
  lemma MakeDateOfDay(z: int)
    requires InRange(z) && !(0 <= CivilFromDays(z).year <= 99)
    ensures var c := CivilFromDays(z);
      MakeDate(Int(c.year), Int(c.month - 1), Int(c.day)) == Date(z)
  {
    CivilFromDaysValid(z);
    MakeDateOfCivil(CivilFromDays(z));
  }

  /** Days of the years 0..9999 lie well inside the clip range. */
  lemma DaysFromCivilBounds(c: Civil)
    requires ValidCivil(c) && 0 <= c.year <= 9999
    ensures -800000 <= DaysFromCivil(c) <= 3000000
  {
    var y := if c.month <= 2 then c.year - 1 else c.year;
    assert -1 <= y / 400 <= 24;
    assert 0 <= YearStart(y % 400) <= 146097;
    assert 0 <= MonthStart((c.month + 9) % 12) <= 337;
  }

  /**
   * The date-only form `YYYY-MM-DD` of the ECMAScript date time string
   * format: four year digits, a two-digit month in 01..12 and a two-digit day
   * that exists in that month. Anything else is the Invalid Date here.
   */
  function ParseIsoDate(s: string): (r: JsDate)
    ensures r.Date? ==> |s| == 10 && s[4] == '-' && s[7] == '-'
  {
    if |s| == 10 && s[4] == '-' && s[7] == '-'
      && AllDigits(s[..4]) && AllDigits(s[5..7]) && AllDigits(s[8..])
    then
      var y := DigitsValue(s[..4]);
      var m := DigitsValue(s[5..7]);
      var d := DigitsValue(s[8..]);
      if 1 <= m <= 12 && 1 <= d <= DaysInMonth(y, m) then Clip(DaysFromCivil(Civil(y, m, d)))
      else InvalidDate
    else InvalidDate
  }

  /** ParseIsoDate reads the fields of a well-formed `YYYY-MM-DD` text. */
  lemma ParseIsoDateFields(ys: string, ms: string, ds: string, c: Civil)
    requires |ys| == 4 && |ms| == 2 && |ds| == 2
    requires AllDigits(ys) && AllDigits(ms) && AllDigits(ds)
    requires c == Civil(DigitsValue(ys), DigitsValue(ms), DigitsValue(ds)) && ValidCivil(c)
    ensures ParseIsoDate(ys + "-" + ms + "-" + ds) == Clip(DaysFromCivil(c))
  {
    var s := ys + "-" + ms + "-" + ds;
    assert s[..4] == ys && s[5..7] == ms && s[8..] == ds;
  }

  /** The `YYYY-MM-DD` text of a day of the years 1000..9999 parses back to that day. */
  lemma ParseIsoDateOf(z: int)
    requires 1000 <= CivilFromDays(z).year <= 9999
    ensures var c := CivilFromDays(z);
      ParseIsoDate(NatToString(c.year) + "-" + Pad2(NatToString(c.month)) + "-" + Pad2(NatToString(c.day))) == Date(z)
  {
    var c := CivilFromDays(z);
    CivilFromDaysValid(z);
    NatToStringLength(c.year);
    NatToStringLength(c.month);
    NatToStringLength(c.day);
    Pad2Value(c.month);
    Pad2Value(c.day);
    NatToStringValue(c.year);
    ParseIsoDateFields(NatToString(c.year), Pad2(NatToString(c.month)), Pad2(NatToString(c.day)), c);
    DaysFromCivilBounds(c);
  }
}
