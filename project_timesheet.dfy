/**
 * The project timesheet page: the user's own records of one project, the
 * conjunctive date/status/activity/user filters over them, the total of the
 * filtered hours, and the local update after a record is deleted.
 */
module ProjectTimesheet {
  import opened Js
  import opened Calendar
  import opened Dates
  import opened Store
  import LogTime

  /* ---------------------------------------------------------------------- */
  /* Dates of records                                                        */
  /* ---------------------------------------------------------------------- */

  /** `new Date(date.split('/').reverse().join('-'))`: `DD/MM/YYYY` read as `YYYY-MM-DD`. */
  function EntryDate(date: string): JsDate {
    ParseIsoDate(Join(Reverse(Split(date, '/')), "-"))
  }

  /** The storage text of a day of a non-negative year, part by part. */
  lemma StorageText(z: int)
    requires CivilFromDays(z).year >= 0
    ensures var c := CivilFromDays(z);
      LogTime.FormatDateForStorage(Date(z))
        == Pad2(NatToString(c.day)) + "/" + Pad2(NatToString(c.month)) + "/" + NatToString(c.year)
  {
  }

  lemma ReverseThree<T>(a: T, b: T, c: T)
    ensures Reverse([a, b, c]) == [c, b, a]
  {
    assert [a, b, c][..2] == [a, b];
    assert [a, b][..1] == [a];
  }

  /** Three parts joined by a dash. */
  lemma JoinThree(a: string, b: string, c: string)
    ensures Join([a, b, c], "-") == a + "-" + b + "-" + c
  {
    assert Join([a, b], "-") == a + "-" + b;
    assert [a, b, c][..2] == [a, b];
  }

  /** The date the log-time page stores for a day is read back as that very day. */
  lemma EntryDateOfStorage(z: int)
    requires 1000 <= CivilFromDays(z).year <= 9999
    ensures EntryDate(LogTime.FormatDateForStorage(Date(z))) == Date(z)
  {
    var c := CivilFromDays(z);
    var dd, mm, yyyy := Pad2(NatToString(c.day)), Pad2(NatToString(c.month)), NatToString(c.year);
    Pad2Value(c.day);
    Pad2Value(c.month);
    StorageText(z);
    SplitThree(dd, mm, yyyy, '/');
    ReverseThree(dd, mm, yyyy);
    JoinThree(yyyy, mm, dd);
    ParseIsoDateOf(z);
  }

  /** isSameDay against a day of the clock: both dates print the same day. */
  predicate IsSameDay(d: JsDate, day: int) {
    d == Date(day)
  }

  /** isSameMonth: equal month and equal year. */
  predicate IsSameMonth(d: JsDate, today: int) {
    GetMonth1(d) == GetMonth1(Date(today)) && GetFullYear(d) == GetFullYear(Date(today))
  }

  /** The Sunday that starts the week of a day: `today - today.getDay()`. */
  function WeekStart(day: int): (s: int)
    ensures s <= day < s + 7 && Weekday(s) == 0
  {
    day - Weekday(day)
  }

  /** isThisWeek, on whole days: Sunday through Saturday of today's week. */
  predicate IsThisWeek(d: JsDate, today: int) {
    d.Date? && WeekStart(today) <= d.day <= WeekStart(today) + 6
  }

  /** isLastWeek: the same range shifted back seven days. */
  predicate IsLastWeek(d: JsDate, today: int) {
    d.Date? && WeekStart(today) - 7 <= d.day <= WeekStart(today) - 1
  }

  /** A day lies in the Sunday-to-Saturday range of another exactly when both weeks start on the same Sunday. */
  lemma ThisWeekIffSameSunday(z: int, today: int)
    ensures IsThisWeek(Date(z), today) <==> WeekStart(z) == WeekStart(today)
  {
    var s := WeekStart(today);
    if s <= z <= s + 6 {
      SundayOffset(s, z - s);
    }
  }

  /** Last week's range holds exactly the days whose week starts seven days before today's. */
  lemma LastWeekIffPreviousSunday(z: int, today: int)
    ensures IsLastWeek(Date(z), today) <==> WeekStart(z) == WeekStart(today) - 7
  {
    var s := WeekStart(today) - 7;
    assert Weekday(s) == 0 by {
      assert (s + 4) % 7 == (s + 7 + 4) % 7;
    }
    if s <= z <= s + 6 {
      SundayOffset(s, z - s);
    }
  }

  /** k days after a Sunday, for k in 0..6, is the k-th day of that week. */
  lemma SundayOffset(s: int, k: int)
    requires Weekday(s) == 0 && 0 <= k < 7
    ensures Weekday(s + k) == k && WeekStart(s + k) == s
  {
    assert (s + 4) % 7 == 0;
    assert (s + k + 4) == ((s + 4) / 7) * 7 + k;
  }

  /* ---------------------------------------------------------------------- */
  /* The week filter as written                                              */
  /* ---------------------------------------------------------------------- */

  const MsPerDay: int := 86400000

  /**
   * The clock: a day and the milliseconds elapsed since its midnight. The
   * week bounds are compared with a record's midnight to the millisecond,
   * so here the reading keeps milliseconds, where the log-time form's
   * creation stamp (LogTime.Instant) needs only the hour and the minute.
   */
  datatype Clock = Clock(day: int, ms: int)

  predicate ValidClock(now: Clock) {
    0 <= now.ms < MsPerDay
  }

  /**
   * isThisWeek as the code compares time values: the record's date is a
   * midnight, while the week bounds are built from `new Date()` and keep the
   * current time of day.
   */
  predicate IsThisWeekAsWritten(d: JsDate, now: Clock) {
    var start := WeekStart(now.day) * MsPerDay + now.ms;
    var end := (WeekStart(now.day) + 6) * MsPerDay + now.ms;
    d.Date? && start <= d.day * MsPerDay && d.day * MsPerDay <= end
  }

  /**
   * As written, the week filter accepts Sunday only at midnight exactly:
   * later in the day the Sunday that starts the week is left out, although it
   * is part of the Sunday-to-Saturday week.
   */
  lemma ThisWeekAsWrittenMissesSunday(now: Clock)
    requires ValidClock(now) && now.ms > 0
    ensures !IsThisWeekAsWritten(Date(WeekStart(now.day)), now)
    ensures IsThisWeek(Date(WeekStart(now.day)), now.day)
  {
  }

  /** Apart from that Sunday, the comparison as written agrees with the whole-day week. */
  lemma ThisWeekAsWrittenElsewhere(z: int, now: Clock)
    requires ValidClock(now) && z != WeekStart(now.day)
    ensures IsThisWeekAsWritten(Date(z), now) <==> IsThisWeek(Date(z), now.day)
  {
    var s := WeekStart(now.day);
    if z < s {
      assert z * MsPerDay <= s * MsPerDay - MsPerDay;
    } else if z > s + 6 {
      assert z * MsPerDay >= (s + 7) * MsPerDay;
    } else {
      assert z * MsPerDay >= (s + 1) * MsPerDay;
      assert z * MsPerDay <= (s + 6) * MsPerDay;
    }
  }

  /** isLastWeek as the code compares time values: the bounds seven days back keep the current time of day too. */
  predicate IsLastWeekAsWritten(d: JsDate, now: Clock) {
    var start := (WeekStart(now.day) - 7) * MsPerDay + now.ms;
    var end := (WeekStart(now.day) - 1) * MsPerDay + now.ms;
    d.Date? && start <= d.day * MsPerDay && d.day * MsPerDay <= end
  }

  /** As written, after midnight the Sunday that starts last week is left out of it. */
  lemma LastWeekAsWrittenMissesSunday(now: Clock)
    requires ValidClock(now) && now.ms > 0
    ensures !IsLastWeekAsWritten(Date(WeekStart(now.day) - 7), now)
    ensures IsLastWeek(Date(WeekStart(now.day) - 7), now.day)
  {
  }

  /** Apart from that Sunday, the last-week comparison as written agrees with the whole-day week. */
  lemma LastWeekAsWrittenElsewhere(z: int, now: Clock)
    requires ValidClock(now) && z != WeekStart(now.day) - 7
    ensures IsLastWeekAsWritten(Date(z), now) <==> IsLastWeek(Date(z), now.day)
  {
    var s := WeekStart(now.day) - 7;
    if z < s {
      assert z * MsPerDay <= s * MsPerDay - MsPerDay;
    } else if z > s + 6 {
      assert z * MsPerDay >= (s + 7) * MsPerDay;
    } else {
      assert z * MsPerDay >= (s + 1) * MsPerDay;
      assert z * MsPerDay <= (s + 6) * MsPerDay;
    }
  }

  /* ---------------------------------------------------------------------- */
  /* Filters                                                                 */
  /* ---------------------------------------------------------------------- */

  /** The four selectors of the page. */
  datatype Filters = Filters(date: string, status: string, user: string, activity: string)

  /** The selectors after onClearFilter: every filter off. */
  const NoFilters := Filters("any", "any", "all", "any")

  /** The date switch: a key it does not know constrains nothing. */
  predicate DateBucket(key: string, d: JsDate, today: int) {
    if key == "today" then IsSameDay(d, today)
    else if key == "yesterday" then IsSameDay(d, today - 1)
    else if key == "this-week" then IsThisWeek(d, today)
    else if key == "last-week" then IsLastWeek(d, today)
    else if key == "this-month" then IsSameMonth(d, today)
    else true
  }

  /**
   * On the stored date of a day each bucket means what its name says:
   * today, the day before, the same Sunday-started week, the week before,
   * and the same month of the same year.
   */
  lemma DateBucketOfStorage(z: int, today: int)
    requires 1000 <= CivilFromDays(z).year <= 9999
    ensures var d := EntryDate(LogTime.FormatDateForStorage(Date(z)));
      (DateBucket("today", d, today) <==> z == today)
      && (DateBucket("yesterday", d, today) <==> z == today - 1)
      && (DateBucket("this-week", d, today) <==> WeekStart(z) == WeekStart(today))
      && (DateBucket("last-week", d, today) <==> WeekStart(z) == WeekStart(today) - 7)
      && (DateBucket("this-month", d, today) <==>
            CivilFromDays(z).month == CivilFromDays(today).month && CivilFromDays(z).year == CivilFromDays(today).year)
  {
    EntryDateOfStorage(z);
    DateBucketOfDay(z, today);
  }

  /** The buckets of a day. */
  lemma DateBucketOfDay(z: int, today: int)
    ensures (DateBucket("today", Date(z), today) <==> z == today)
      && (DateBucket("yesterday", Date(z), today) <==> z == today - 1)
      && (DateBucket("this-week", Date(z), today) <==> WeekStart(z) == WeekStart(today))
      && (DateBucket("last-week", Date(z), today) <==> WeekStart(z) == WeekStart(today) - 7)
      && (DateBucket("this-month", Date(z), today) <==>
            CivilFromDays(z).month == CivilFromDays(today).month && CivilFromDays(z).year == CivilFromDays(today).year)
  {
    ThisWeekIffSameSunday(z, today);
    LastWeekIffPreviousSunday(z, today);
  }

  /** A date that does not parse falls in no bucket, and a key the switch does not know keeps every date. */
  lemma DateBucketEdges(key: string, d: JsDate, today: int)
    ensures key in {"today", "yesterday", "this-week", "last-week", "this-month"} ==> !DateBucket(key, InvalidDate, today)
    ensures key !in {"today", "yesterday", "this-week", "last-week", "this-month"} ==> DateBucket(key, d, today)
  {
  }

  /** The predicate applyFilters keeps a record by. */
  predicate Matches(f: Filters, today: int, t: Timesheet) {
    (f.date == "any" || DateBucket(f.date, EntryDate(t.date), today))
    && (f.status == "any" || t.approvalStatus == f.status)
    && (f.activity == "any" || t.activity == f.activity)
    && (f.user == "all" || t.user == f.user)
  }

  function MatchesOf(f: Filters, today: int): Timesheet -> bool {
    t => Matches(f, today, t)
  }

  /** The records applyFilters keeps: those of the full list that every active filter accepts. */
  function Filtered(ts: seq<Timesheet>, f: Filters, today: int): (r: seq<Timesheet>)
    ensures forall t :: t in r <==> t in ts && Matches(f, today, t)
  {
    Filter(ts, MatchesOf(f, today))
  }

  /** With every selector off the filtered list is the full list. */
  lemma NoFiltersKeepAll(ts: seq<Timesheet>, today: int)
    ensures Filtered(ts, NoFilters, today) == ts
  {
    FilterAll(ts, MatchesOf(NoFilters, today));
  }

  /** A status selector keeps exactly the records with that status, and likewise for user and activity. */
  lemma ExactFilters(ts: seq<Timesheet>, today: int, status: string, user: string, activity: string)
    requires status != "any" && user != "all" && activity != "any"
    ensures forall t :: t in Filtered(ts, Filters("any", status, user, activity), today) <==>
      t in ts && t.approvalStatus == status && t.user == user && t.activity == activity
  {
  }

  /** calculateTotalHours: the sum of the hours of a list. */
  function TotalHours(ts: seq<Timesheet>): int {
    SumOf(ts, (t: Timesheet) => t.hours)
  }

  function IdIs(id: string): Timesheet -> bool {
    (t: Timesheet) => t.id == id
  }

  function IdIsNot(id: string): Timesheet -> bool {
    (t: Timesheet) => t.id != id
  }

  /** The records a deletion removes: every record with that id. */
  function WithId(ts: seq<Timesheet>, id: string): (r: seq<Timesheet>)
    ensures forall t :: t in r <==> t in ts && t.id == id
  {
    Filter(ts, IdIs(id))
  }

  /** The records a deletion keeps: every record whose id differs. */
  function WithoutId(ts: seq<Timesheet>, id: string): (r: seq<Timesheet>)
    ensures forall t :: t in r <==> t in ts && t.id != id
  {
    Filter(ts, IdIsNot(id))
  }

  /** Deleting a record and filtering commute, so both lists of the page stay consistent. */
  lemma DeleteCommutesWithFilter(ts: seq<Timesheet>, f: Filters, today: int, id: string)
    ensures WithoutId(Filtered(ts, f, today), id) == Filtered(WithoutId(ts, id), f, today)
  {
    var p, q := MatchesOf(f, today), IdIsNot(id);
    var r := (t: Timesheet) => p(t) && q(t);
    FilterFilter(ts, p, q, r);
    var r' := (t: Timesheet) => q(t) && p(t);
    FilterFilter(ts, q, p, r');
    FilterCongruent(ts, r, r');
  }

  /** The hours of a list are the hours a filter keeps plus the hours it drops. */
  lemma {:induction false} TotalHoursSplit(ts: seq<Timesheet>, p: Timesheet -> bool, np: Timesheet -> bool)
    requires forall t :: np(t) == !p(t)
    ensures TotalHours(ts) == TotalHours(Filter(ts, p)) + TotalHours(Filter(ts, np))
  {
    if ts != [] {
      var init, last := ts[..|ts| - 1], ts[|ts| - 1];
      assert ts == init + [last];
      TotalHoursSplit(init, p, np);
      FilterAppend(init, [last], p);
      FilterAppend(init, [last], np);
      SumOfAppend(Filter(init, p), Filter([last], p), (t: Timesheet) => t.hours);
      SumOfAppend(Filter(init, np), Filter([last], np), (t: Timesheet) => t.hours);
    }
  }

  /** A deletion takes off the total exactly the hours of the records with that id. */
  lemma DeletedHours(ts: seq<Timesheet>, id: string)
    ensures TotalHours(WithoutId(ts, id)) == TotalHours(ts) - TotalHours(WithId(ts, id))
  {
    TotalHoursSplit(ts, IdIs(id), IdIsNot(id));
  }

  /** The records loadTimesheets keeps: the current user's records of this project. */
  function OwnRecords(data: seq<Timesheet>, projectName: string, user: string): (r: seq<Timesheet>)
    ensures forall t :: t in r <==> t in data && t.projectName == projectName && t.user == user
  {
    Filter(data, (t: Timesheet) => t.projectName == projectName && t.user == user)
  }

  /** getStatusClass of the record list. */
  function StatusClass(status: string): (r: string)
    ensures r == "status-approved" <==> LowerAscii(status) == "approved"
    ensures r == "status-approved" || r == "status-pending"
  {
    if LowerAscii(status) == "approved" then "status-approved" else "status-pending"
  }

  /* ---------------------------------------------------------------------- */
  /* The page                                                                */
  /* ---------------------------------------------------------------------- */

  class ProjectTimesheetPage {
    var timesheets: seq<Timesheet>
    var filteredTimesheets: seq<Timesheet>
    var totalHours: int
    var projectName: string
    var currentUser: string
    var filters: Filters

    /** The total shown is always the total of the filtered list. */
    predicate Valid()
      reads this
    {
      totalHours == TotalHours(filteredTimesheets)
    }

    constructor (name: string, user: string)
      ensures Valid()
      ensures projectName == name && currentUser == user && filters == NoFilters
      ensures timesheets == [] && filteredTimesheets == []
    {
      timesheets := [];
      filteredTimesheets := [];
      totalHours := 0;
      projectName := name;
      currentUser := user;
      filters := NoFilters;
    }

    /** The decision of loadTimesheets on the store's answer. */
    method LoadTimesheets(response: Response<Timesheet>)
      requires Valid()
      modifies this`timesheets, this`filteredTimesheets, this`totalHours
      ensures Valid()
      ensures response.Loaded? ==> (timesheets == OwnRecords(response.items, projectName, currentUser)
        && filteredTimesheets == timesheets)
      ensures response.StoreError? ==> (timesheets == old(timesheets)
        && filteredTimesheets == old(filteredTimesheets) && totalHours == old(totalHours))
    {
      if response.Loaded? {
        timesheets := OwnRecords(response.items, projectName, currentUser);
        filteredTimesheets := timesheets;
        CalculateTotalHours();
      }
    }

    /** calculateTotalHours. */
    method CalculateTotalHours()
      modifies this`totalHours
      ensures Valid()
    {
      totalHours := TotalHours(filteredTimesheets);
    }

    /** applyFilters: always recomputed from the full list, on the day of the clock. */
    method ApplyFilters(today: int)
      modifies this`filteredTimesheets, this`totalHours
      ensures Valid()
      ensures filteredTimesheets == Filtered(timesheets, filters, today)
    {
      filteredTimesheets := Filtered(timesheets, filters, today);
      CalculateTotalHours();
    }

    /** onFilterChange / onApplyFilter: set the selectors, then apply them. */
    method SetFilters(f: Filters, today: int)
      modifies this`filters, this`filteredTimesheets, this`totalHours
      ensures Valid() && filters == f
      ensures filteredTimesheets == Filtered(timesheets, f, today)
    {
      filters := f;
      ApplyFilters(today);
    }

    /** onClearFilter: every selector off and the full list shown. */
    method OnClearFilter()
      modifies this`filters, this`filteredTimesheets, this`totalHours
      ensures Valid()
      ensures filters == NoFilters && filteredTimesheets == timesheets
    {
      filters := NoFilters;
      filteredTimesheets := timesheets;
      CalculateTotalHours();
    }

    /**
     * The local update of onDeleteTimesheet once the store has confirmed the
     * deletion: the records with that id leave both lists, the rest keep
     * their order, and the total drops by the hours removed.
     */
    method OnDeleteTimesheet(id: string, deleted: bool)
      requires Valid()
      modifies this`timesheets, this`filteredTimesheets, this`totalHours
      ensures Valid()
      ensures deleted ==> (timesheets == WithoutId(old(timesheets), id)
        && filteredTimesheets == WithoutId(old(filteredTimesheets), id)
        && totalHours == old(totalHours) - TotalHours(WithId(old(filteredTimesheets), id)))
      ensures !deleted ==> (timesheets == old(timesheets) && filteredTimesheets == old(filteredTimesheets)
        && totalHours == old(totalHours))
    {
      if deleted {
        DeletedHours(filteredTimesheets, id);
        timesheets := WithoutId(timesheets, id);
        filteredTimesheets := WithoutId(filteredTimesheets, id);
        CalculateTotalHours();
      }
    }
  }
}
