module Calendar {
  datatype Civil = Civil(year: int, month: int, day: int)

  predicate IsLeapYear(y: int) {
    y % 4 == 0 && (y % 100 != 0 || y % 400 == 0)
  }

  function DaysInMonth(y: int, m: int): int
    requires 1 <= m <= 12
  {
    if m == 2 then (if IsLeapYear(y) then 29 else 28)
    else if m == 4 || m == 6 || m == 9 || m == 11 then 30
    else 31
  }

  predicate ValidCivil(c: Civil) {
    1 <= c.month <= 12 && 1 <= c.day <= DaysInMonth(c.year, c.month)
  }

  /** Days before month mp of a March-based year (0 = March, ..., 11 = February). */
  function MonthStart(mp: int): int
    requires 0 <= mp < 12
  {
    (153 * mp + 2) / 5
  }

  /** Days before March-based year yoe of a 400-year era. */
  function YearStart(yoe: int): int
    requires 0 <= yoe < 400
  {
    365 * yoe + yoe / 4 - yoe / 100
  }

  datatype YearDay = YearDay(yoe: int, doy: int)

  function YearOfEra(doe: int): (r: YearDay)
    requires 0 <= doe < 146097
    ensures 0 <= r.yoe < 400 && 0 <= r.doy <= 365
    ensures doe == YearStart(r.yoe) + r.doy
    ensures r.doy == 365 ==> IsLeapYear(r.yoe + 1)
  {
    var c := if doe / 36524 < 3 then doe / 36524 else 3;
    var doc := doe - 36524 * c;
    var q := doc / 1461;
    var doq := doc - 1461 * q;
    var yq := if doq / 365 < 3 then doq / 365 else 3;
    var doy := doq - 365 * yq;
    YoeParts(c, q, yq);
    LeapDay(c, q, yq);
    YearDay(100 * c + 4 * q + yq, doy)
  }

  function MonthOfYear(doy: int): (mp: int)
    requires 0 <= doy <= 365
    ensures 0 <= mp < 12 && MonthStart(mp) <= doy
    ensures mp < 11 ==> doy < MonthStart(mp + 1)
  {
    (5 * doy + 2) / 153
  }

  function DaysFromCivil(c: Civil): int
    requires ValidCivil(c)
  {
    var y := if c.month <= 2 then c.year - 1 else c.year;
    var mp := (c.month + 9) % 12;
    (y / 400) * 146097 + YearStart(y % 400) + MonthStart(mp) + c.day - 1 - 719468
  }

  function CivilFromDays(z: int): (c: Civil)
    ensures 1 <= c.month <= 12 && 1 <= c.day <= 31
  {
    var era := (z + 719468) / 146097;
    var yd := YearOfEra((z + 719468) % 146097);
    var mp := MonthOfYear(yd.doy);
    var m := if mp < 10 then mp + 3 else mp - 9;
    var y := yd.yoe + 400 * era;
    Civil(if m <= 2 then y + 1 else y, m, yd.doy - MonthStart(mp) + 1)
  }

  lemma DivMod4(a: int, b: int)
    requires 0 <= b < 4
    ensures (4 * a + b) / 4 == a && (4 * a + b) % 4 == b
  {
  }

  lemma DivMod100(a: int, b: int)
    requires 0 <= b < 100
    ensures (100 * a + b) / 100 == a && (100 * a + b) % 100 == b
  {
  }

  lemma DivMod400(a: int, b: int)
    requires 0 <= b < 400
    ensures (400 * a + b) / 400 == a && (400 * a + b) % 400 == b
  {
  }

  lemma YoeParts(c: int, q: int, yq: int)
    requires 0 <= c <= 3 && 0 <= q <= 24 && 0 <= yq <= 3
    ensures (100 * c + 4 * q + yq) / 4 == 25 * c + q
    ensures (100 * c + 4 * q + yq) / 100 == c
  {
    DivMod4(25 * c + q, yq);
    DivMod100(c, 4 * q + yq);
  }

  lemma LeapDay(c: int, q: int, yq: int)
    requires 0 <= c <= 3 && 0 <= q <= 24
    ensures yq == 3 && (q < 24 || c == 3) ==> IsLeapYear(100 * c + 4 * q + yq + 1)
  {
    if yq == 3 && (q < 24 || c == 3) {
      DivMod4(25 * c + q + 1, 0);
      if q == 24 {
        DivMod400(1, 0);
      } else {
        DivMod100(c, 4 * q + 4);
      }
    }
  }

  lemma LeapPeriodic(era: int, k: int)
    ensures IsLeapYear(400 * era + k) == IsLeapYear(k)
  {
    var k4, k100, k400 := k % 4, k % 100, k % 400;
    DivMod4(100 * era + k / 4, k4);
    DivMod100(4 * era + k / 100, k100);
    DivMod400(era + k / 400, k400);
  }

  /** Outside February, a March-based month lasts as long as the calendar says. */
  lemma MonthSpan(mp: int, y: int)
    requires 0 <= mp < 11
    ensures var m := if mp < 10 then mp + 3 else mp - 9;
      MonthStart(mp + 1) - MonthStart(mp) == DaysInMonth(y, m)
  {
  }

  /** The civil date CivilFromDays builds from an era, a year of the era and a day of that year. */
  lemma CivilOfParts(era: int, yoe: int, doy: int)
    requires 0 <= yoe < 400 && 0 <= doy <= 365 && (doy == 365 ==> IsLeapYear(yoe + 1))
    ensures var mp := MonthOfYear(doy);
      var m := if mp < 10 then mp + 3 else mp - 9;
      var c := Civil(if m <= 2 then yoe + 400 * era + 1 else yoe + 400 * era, m, doy - MonthStart(mp) + 1);
      ValidCivil(c) && DaysFromCivil(c) == 146097 * era + YearStart(yoe) + doy - 719468
  {
    var mp := MonthOfYear(doy);
    var m := if mp < 10 then mp + 3 else mp - 9;
    var y := yoe + 400 * era;
    var c := Civil(if m <= 2 then y + 1 else y, m, doy - MonthStart(mp) + 1);
    if mp < 11 {
      MonthSpan(mp, c.year);
    } else {
      assert MonthStart(11) == 337 && c.year == 400 * era + yoe + 1;
      if doy == 365 {
        LeapPeriodic(era, yoe + 1);
      }
    }
    assert ValidCivil(c);
    assert (if c.month <= 2 then c.year - 1 else c.year) == y;
    DivMod400(era, yoe);
    assert (m + 9) % 12 == mp;
  }

  /** Every day number is the day of a valid civil date, and converting back gives it again. */
  lemma CivilFromDaysValid(z: int)
    ensures ValidCivil(CivilFromDays(z))
    ensures DaysFromCivil(CivilFromDays(z)) == z
  {
    var era := (z + 719468) / 146097;
    var doe := (z + 719468) % 146097;
    var yd := YearOfEra(doe);
    CivilFromDaysOf(z, era, yd.yoe, yd.doy, MonthOfYear(yd.doy));
    CivilOfParts(era, yd.yoe, yd.doy);
  }

  lemma DivMod146097(a: int, b: int)
    requires 0 <= b < 146097
    ensures (146097 * a + b) / 146097 == a && (146097 * a + b) % 146097 == b
  {
  }

  lemma LeapShape(c: int, q: int, yq: int)
    requires 0 <= c <= 3 && 0 <= q <= 24 && 0 <= yq <= 3
    ensures IsLeapYear(100 * c + 4 * q + yq + 1) ==> yq == 3 && (q < 24 || c == 3)
  {
    if IsLeapYear(100 * c + 4 * q + yq + 1) {
      if yq < 3 {
        DivMod4(25 * c + q, yq + 1);
      }
      assert yq == 3;
      if q == 24 && c < 3 {
        DivMod100(c + 1, 0);
        DivMod400(0, 100 * (c + 1));
      }
    }
  }

  lemma DivMod36524(a: int, b: int)
    requires 0 <= b < 36524
    ensures (36524 * a + b) / 36524 == a
  {
  }

  lemma DivMod1461(a: int, b: int)
    requires 0 <= b < 1461
    ensures (1461 * a + b) / 1461 == a
  {
  }

  lemma DivMod365(a: int, b: int)
    requires 0 <= b < 365
    ensures (365 * a + b) / 365 == a
  {
  }

  /** YearOfEra unfolded on its intermediate quantities. */
  lemma YearOfEraOf(doe: int, c: int, q: int, yq: int, doy: int)
    requires 0 <= doe < 146097
    requires c == (if doe / 36524 < 3 then doe / 36524 else 3)
    requires q == (doe - 36524 * c) / 1461
    requires var doq := doe - 36524 * c - 1461 * q; yq == (if doq / 365 < 3 then doq / 365 else 3)
    requires doy == doe - 36524 * c - 1461 * q - 365 * yq
    ensures YearOfEra(doe) == YearDay(100 * c + 4 * q + yq, doy)
  {
  }

  /** The century, the four-year block and the year of that block that YearOfEra recovers from a year of an era. */
  lemma YearOfEraDigits(yoe: int, doy: int)
    requires 0 <= yoe < 400 && 0 <= doy <= 365
    requires doy == 365 ==> IsLeapYear(yoe + 1)
    ensures var doe := YearStart(yoe) + doy;
      var c, q, yq := yoe / 100, (yoe % 100) / 4, yoe % 4;
      0 <= doe < 146097 && yoe == 100 * c + 4 * q + yq
      && c == (if doe / 36524 < 3 then doe / 36524 else 3) && q == (doe - 36524 * c) / 1461
      && (var doq := doe - 36524 * c - 1461 * q; yq == (if doq / 365 < 3 then doq / 365 else 3))
      && doy == doe - 36524 * c - 1461 * q - 365 * yq
  {
    var c, q, yq := yoe / 100, (yoe % 100) / 4, yoe % 4;
    assert yoe == 100 * c + 4 * q + yq;
    YoeParts(c, q, yq);
    LeapShape(c, q, yq);
    var doe := YearStart(yoe) + doy;
    var doq := 365 * yq + doy;
    var doc := 1461 * q + doq;
    assert doe == 36524 * c + doc;
    if c < 3 {
      DivMod36524(c, doc);
    } else {
      assert doe >= 3 * 36524;
    }
    DivMod1461(q, doq);
    if doy < 365 {
      DivMod365(yq, doy);
    }
  }

  lemma YearOfEraInverse(yoe: int, doy: int)
    requires 0 <= yoe < 400 && 0 <= doy <= 365
    requires doy == 365 ==> IsLeapYear(yoe + 1)
    ensures 0 <= YearStart(yoe) + doy < 146097
    ensures YearOfEra(YearStart(yoe) + doy) == YearDay(yoe, doy)
  {
    YearOfEraDigits(yoe, doy);
    YearOfEraOf(YearStart(yoe) + doy, yoe / 100, (yoe % 100) / 4, yoe % 4, doy);
  }

  lemma MonthOfYearInverse(mp: int, d: int)
    requires 0 <= mp < 12 && 1 <= d
    requires d <= (if mp == 11 then 29 else MonthStart(mp + 1) - MonthStart(mp))
    ensures 0 <= MonthStart(mp) + d - 1 <= 365
    ensures MonthOfYear(MonthStart(mp) + d - 1) == mp
  {
  }

  lemma MonthIndex(y: int, m: int)
    requires 1 <= m <= 12
    ensures var mp := (m + 9) % 12;
      0 <= mp < 12 && (mp == 11 <==> m == 2) &&
      (if mp < 10 then mp + 3 else mp - 9) == m &&
      (m != 2 ==> DaysInMonth(y, m) == MonthStart(mp + 1) - MonthStart(mp))
  {
  }

  lemma DaysFromCivilParts(c: Civil) returns (era: int, yoe: int, doy: int, mp: int)
    requires ValidCivil(c)
    ensures 0 <= yoe < 400 && 0 <= doy <= 365 && (doy == 365 ==> IsLeapYear(yoe + 1))
    ensures DaysFromCivil(c) + 719468 == 146097 * era + (YearStart(yoe) + doy)
    ensures MonthOfYear(doy) == mp && (if mp < 10 then mp + 3 else mp - 9) == c.month
    ensures yoe + 400 * era == (if c.month <= 2 then c.year - 1 else c.year)
    ensures doy - MonthStart(mp) + 1 == c.day
  {
    var y := if c.month <= 2 then c.year - 1 else c.year;
    mp := (c.month + 9) % 12;
    era, yoe := y / 400, y % 400;
    MonthIndex(c.year, c.month);
    MonthOfYearInverse(mp, c.day);
    doy := MonthStart(mp) + c.day - 1;
    if doy == 365 {
      LeapPeriodic(era, yoe + 1);
    }
  }

  lemma DaysFromCivilInverse(c: Civil)
    requires ValidCivil(c)
    ensures CivilFromDays(DaysFromCivil(c)) == c
  {
    var era, yoe, doy, mp := DaysFromCivilParts(c);
    YearOfEraInverse(yoe, doy);
    var z := DaysFromCivil(c);
    DivMod146097(era, YearStart(yoe) + doy);
    CivilFromDaysOf(z, era, yoe, doy, mp);
  }

  lemma CivilFromDaysOf(z: int, era: int, yoe: int, doy: int, mp: int)
    requires (z + 719468) / 146097 == era
    requires 0 <= doy <= 365
    requires YearOfEra((z + 719468) % 146097) == YearDay(yoe, doy)
    requires MonthOfYear(doy) == mp
    ensures var m := if mp < 10 then mp + 3 else mp - 9;
      CivilFromDays(z) == Civil(if m <= 2 then yoe + 400 * era + 1 else yoe + 400 * era, m, doy - MonthStart(mp) + 1)
  {
  }
}
