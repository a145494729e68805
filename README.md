# Timesheet approval and time logging, modelled in Dafny

This project models the sequential business logic of an Angular timesheet
application:

- **The approval staging service and its admin page.** The service holds a
  list of timesheet entries, a selection record `id -> true` and a record of
  staged status changes `id -> status`. The admin page filters the entries by
  project and status. It selects visible rows, stages single or bulk status
  changes, and shows a dialog of the real changes. Committing applies the
  real changes, with an optional comment, and clears those ids from both
  records.
- **The log-time page.** This page has:
  - a `DD-MM-YYYY` date formatter;
  - the window of days an entry may be logged for, bounded by the project
    dates and by four business days back;
  - weekend refusal and field validation with the page's exact messages;
  - the nine-hours-per-day cap against the records already stored;
  - the record a submission sends.
- **The project timesheet page.** It lists the user's own records for a
  project. The date, status, activity and user filters are always recomputed
  from the full list. The total it shows is the total of the filtered list.
  Deleting a record removes it locally.
- **The projects page.** It covers:
  - the assigned-users list of the project form;
  - the per-project sets of selected users;
  - the start-date and date-range validators;
  - the status badge;
  - the admin flag read from the stored current user.

JavaScript values are modelled explicitly:

- **Dates.** `Date` is `Dates.JsDate`, a day number since 1970-01-01 or the
  Invalid Date, with the proleptic Gregorian calendar in `Calendar`. Every
  comparison with the Invalid Date is false, and its fields are NaN.
- **Numbers.** Numbers that can be NaN are `Js.Num`, an integer or NaN.
  These are the `Date` fields and the results of `parseInt` and `Number`.
  The number inputs of the forms are `Option<real>`, null or an exact value.
  Stored timesheet hours and JSON numbers are `int`, as listed under
  "## Left out".
- **Plain-object records.** Records such as `selection` and `pendingChanges`
  are `Js.Record`: keys in insertion order (what `Object.keys` returns) plus a
  map of values.
- **Strings.** These are sequences of characters.

The clock, the store's HTTP answers, `confirm` and `localStorage` become
parameters of the operations:

- today's day number or an `Instant`;
- a `Store.Response`;
- a `deleted` or `created` flag;
- the parsed current user.

Stateful objects are classes whose methods update their fields:

- `TimesheetService.Service`;
- `TimesheetAdmin.AdminComponent`;
- `LogTime.LogTimeForm`;
- `ProjectTimesheet.ProjectTimesheetPage`;
- `Projects.ProjectsPage`.

Each class method is specified against module-level functions. The
properties are proved as lemmas about those functions.

## Model

| member | source | states |
|---|---|---|
| TimesheetService.FindIndex | src/app/timesheet/services/timesheet.service.ts:77 | `find` stops at the first entry with the id; no earlier entry has it, and no entry has it when nothing is found |
| TimesheetService.Find | src/app/timesheet/services/timesheet.service.ts:77 | the found entry is the first entry carrying that id |
| TimesheetService.AppliedIds | src/app/timesheet/services/timesheet.service.ts:98-101 | an id is applied exactly when it is pending, an entry with it exists and that entry's status differs from the staged one |
| TimesheetService.AppendComment | src/app/timesheet/services/timesheet.service.ts:90-92 | a blank comment changes nothing; otherwise the trimmed comment becomes the comment, or follows the prior one after ` \| ` |
| TimesheetService.AppendCommentKeepsOld | src/app/timesheet/services/timesheet.service.ts:90-92 | the prior comment is a prefix of the new one and the trimmed comment its suffix |
| TimesheetService.CommitEntries | src/app/timesheet/services/timesheet.service.ts:86-96 | the commit's `map` keeps the list's length and every entry's id in place |
| TimesheetService.ChangesOfApplied | src/app/timesheet/services/timesheet.service.ts:74-83 | gathering yields one change per applied id, in key order, each the first entry with that id and its staged status |
| TimesheetService.GatherAreRealChanges | src/app/timesheet/services/timesheet.service.ts:74-83 | the dialog lists exactly as many changes as a commit applies, each an entry of the list whose new status differs from its own |
| TimesheetService.ChangesCongruent | src/app/timesheet/services/timesheet.service.ts:74-83 | gathering depends only on the staged values of the listed keys |
| TimesheetService.ChangesRestaged | src/app/timesheet/services/timesheet.service.ts:74-83 | when two stagings differ only at one id, which the second does not apply, the second gathers the first's changes minus that id's, in order |
| TimesheetService.StageNoOp | src/app/timesheet/services/timesheet.service.ts:66-68 | staging an id that has no entry, or an id to the status its entry already has, gives the dialog the old changes minus that id's, and exactly the old changes when the id was not staged before |
| TimesheetService.FindCommit | src/app/timesheet/services/timesheet.service.ts:86-96 | after the commit's `map` the first entry with an id sits at the same index and is its committed form |
| TimesheetService.CommitIdempotent | src/app/timesheet/services/timesheet.service.ts:85-109 | after a commit nothing is left to apply or gather, so a second commit without new staging applies nothing |
| TimesheetService.StatusName | src/app/timesheet/components/timesheet-admin/timesheet-admin.component.ts:259 | a status is one of the three status strings |
| TimesheetService.Service.constructor | src/app/timesheet/services/timesheet.service.ts:10-15 | the service starts from the given entries with empty selection and staging |
| TimesheetService.Service.ToggleSelect | src/app/timesheet/services/timesheet.service.ts:49-52 | the id is selected exactly when the value is true; no other id's selection and no staging changes |
| TimesheetService.Service.ClearSelection | src/app/timesheet/services/timesheet.service.ts:54-56 | the selection becomes empty; entries and staging stay |
| TimesheetService.Service.SelectAllVisible | src/app/timesheet/services/timesheet.service.ts:58-60 | the selected ids become the old ones plus the given ids |
| TimesheetService.Service.SelectedIds | src/app/timesheet/services/timesheet.service.ts:62-64 | the result holds exactly the selected ids, without duplicates, in key order |
| TimesheetService.Service.StageChange | src/app/timesheet/services/timesheet.service.ts:66-68 | the id's staged status becomes the new one; others stay |
| TimesheetService.Service.StageBulkChange | src/app/timesheet/services/timesheet.service.ts:70-72 | every given id is staged to the status and every other staging stays as it was |
| TimesheetService.Service.GatherPendingChanges | src/app/timesheet/services/timesheet.service.ts:74-83 | the loop returns the real changes in key order: as many as a commit would apply, each with a status different from its entry's |
| TimesheetService.Service.CommitChanges | src/app/timesheet/services/timesheet.service.ts:85-109 | entries take their staged status and the comment; the applied ids leave staging and selection; the result counts the applied ids, which is also the number of gathered changes |
| TimesheetAdmin.Visible | src/app/timesheet/components/timesheet-admin/timesheet-admin.component.ts:256-262 | an entry is shown exactly when it is in the list and matches both the project and the status filter |
| TimesheetAdmin.VisibleUnfiltered | src/app/timesheet/components/timesheet-admin/timesheet-admin.component.ts:256-262 | with both filters empty every entry is shown, in order |
| TimesheetAdmin.VisibleConjunctive | src/app/timesheet/components/timesheet-admin/timesheet-admin.component.ts:256-262 | filtering by both is filtering by project, then by status |
| TimesheetAdmin.Ids | src/app/timesheet/components/timesheet-admin/timesheet-admin.component.ts:275 | the id list has one id per entry, at the same position |
| TimesheetAdmin.BlankEntry | src/app/timesheet/components/timesheet-admin/timesheet-admin.component.ts:234-243 | the reset entry form has one unit and today's date but no project, so it cannot create an entry |
| TimesheetAdmin.AfterCreate | src/app/timesheet/components/timesheet-admin/timesheet-admin.component.ts:225-230 | after a creation the project stays chosen, the date is today's, one unit and no comment, and a new entry needs exactly a user and an activity again |
| TimesheetAdmin.Submitted | src/app/timesheet/components/timesheet-admin/timesheet-admin.component.ts:216-223 | the entry handed to the store keeps project, date and unit and has user, activity and comment trimmed |
| TimesheetAdmin.CanCreateUntrimmed | src/app/timesheet/components/timesheet-admin/timesheet-admin.component.ts:210-223 | canCreateEntry tests user and activity before trimming: the handed-over entry passes it again exactly when neither trims to nothing, and a user of blanks passes and is handed over empty |
| TimesheetAdmin.ToDateInput | src/app/timesheet/components/timesheet-admin/timesheet-admin.component.ts:245-251 | the Invalid Date is written `NaN-NaN-NaN` |
| TimesheetAdmin.ToDateInputRoundTrip | src/app/timesheet/components/timesheet-admin/timesheet-admin.component.ts:245-251 | for four-digit years the text has ten characters and is read back by a date input as the same day |
| TimesheetAdmin.AdminComponent.constructor | src/app/timesheet/components/timesheet-admin/timesheet-admin.component.ts:174-195 | no filters, no dialog, no toast and an entry form reset to the date-input text of the given day |
| TimesheetAdmin.AdminComponent.CreateEntry | src/app/timesheet/components/timesheet-admin/timesheet-admin.component.ts:210-232 | an entry is handed over exactly when canCreateEntry held; it is the trimmed form and the form becomes the after-creation form; otherwise the form stays |
| TimesheetAdmin.AdminComponent.ResetEntryForm | src/app/timesheet/components/timesheet-admin/timesheet-admin.component.ts:234-243 | the form becomes the blank form of the given day and cannot create an entry |
| TimesheetAdmin.AdminComponent.FilteredEntries | src/app/timesheet/components/timesheet-admin/timesheet-admin.component.ts:256-262 | an entry is listed exactly when it is in the service and matches both filters; with both filters empty the list is the service's |
| TimesheetAdmin.AdminComponent.IsSelected | src/app/timesheet/components/timesheet-admin/timesheet-admin.component.ts:270-272 | in a well-formed state an id is selected exactly when the selection record holds it |
| TimesheetAdmin.AdminComponent.AllVisibleSelected | src/app/timesheet/components/timesheet-admin/timesheet-admin.component.ts:283-287 | true exactly when some entry is visible and every visible entry is selected |
| TimesheetAdmin.AdminComponent.OnToggleSelect | src/app/timesheet/components/timesheet-admin/timesheet-admin.component.ts:265-268 | the id is selected as the checkbox says; no other id's selection changes |
| TimesheetAdmin.AdminComponent.SelectAllVisible | src/app/timesheet/components/timesheet-admin/timesheet-admin.component.ts:274-277 | every visible entry becomes selected and nothing is unselected |
| TimesheetAdmin.AdminComponent.ClearSelection | src/app/timesheet/components/timesheet-admin/timesheet-admin.component.ts:279-281 | no id is selected afterwards |
| TimesheetAdmin.AdminComponent.ToggleSelectAll | src/app/timesheet/components/timesheet-admin/timesheet-admin.component.ts:289-292 | the selection record becomes the old one with every visible id set, or with every visible id deleted; hidden ids keep theirs, and checking makes all visible selected |
| TimesheetAdmin.AdminComponent.ToggleEach | src/app/timesheet/components/timesheet-admin/timesheet-admin.component.ts:289-292 | the forEach over the ids toggles each in turn: the record becomes the old one with every id put, in order, or with every id deleted, and only those ids change presence |
| TimesheetAdmin.ToggleAllKeys | src/app/timesheet/components/timesheet-admin/timesheet-admin.component.ts:289-292 | after toggling a list of ids each of them is present exactly when checked, and every other key keeps its presence |
| TimesheetAdmin.AdminComponent.HasSelected | src/app/timesheet/components/timesheet-admin/timesheet-admin.component.ts:294-296 | true exactly when some id is selected |
| TimesheetAdmin.AdminComponent.HasPendingChanges | src/app/timesheet/components/timesheet-admin/timesheet-admin.component.ts:315-317 | in a well-formed state, true exactly when some id is staged |
| TimesheetAdmin.AdminComponent.SelectedCount | src/app/timesheet/components/timesheet-admin/timesheet-admin.component.ts:294-300 | the count is the number of selected ids, and hasSelected holds exactly when it is positive |
| TimesheetAdmin.AdminComponent.OpenSaveModal | src/app/timesheet/components/timesheet-admin/timesheet-admin.component.ts:319-322 | the dialog opens listing the changes a commit would apply now |
| TimesheetAdmin.AdminComponent.CloseModal | src/app/timesheet/components/timesheet-admin/timesheet-admin.component.ts:324-326 | the dialog closes and nothing else changes |
| TimesheetAdmin.AdminComponent.PrepareSingle | src/app/timesheet/components/timesheet-admin/timesheet-admin.component.ts:303-307 | the selection record gains the entry's id, the id is staged to the status and the dialog shows the resulting changes; filters, toast and entry form stay |
| TimesheetAdmin.AdminComponent.PrepareBulk | src/app/timesheet/components/timesheet-admin/timesheet-admin.component.ts:309-313 | exactly the selected ids are staged to the status; other stagings, the selection, filters, toast and entry form stay |
| TimesheetAdmin.AdminComponent.CommitModal | src/app/timesheet/components/timesheet-admin/timesheet-admin.component.ts:328-332 | the commit is applied, the dialog closes with its list kept, the toast reports the number of applied changes, and filters and entry form stay |
| TimesheetAdmin.AdminComponent.ShowToast | src/app/timesheet/components/timesheet-admin/timesheet-admin.component.ts:334-338 | the toast shows the message |
| TimesheetAdmin.SelectedCountOfKeys | src/app/timesheet/components/timesheet-admin/timesheet-admin.component.ts:298-300 | a well-formed record has as many keys as entries |
| LogTime.FormatterParse | src/app/features/projects/log-time.ts:14-25 | empty text gives null; a value comes back exactly when the text is non-empty and has three dash-separated parts |
| LogTime.FormatterFormat | src/app/features/projects/log-time.ts:27-30 | null is written as the empty text |
| LogTime.FormatterRoundTrip | src/app/features/projects/log-time.ts:14-30 | parse reads back the date format wrote |
| LogTime.FormatterLayout | src/app/features/projects/log-time.ts:27-30 | for a two-digit day and month the text is the padded day, a dash, the padded month, a dash and the year, of length 6 plus the year's digits |
| LogTime.NgbRoundTrip | src/app/features/projects/log-time.ts:162-172 | converting a day to a date struct and back gives the same day |
| LogTime.IsDisabledWeekend | src/app/features/projects/log-time.ts:157-160 | a picker day is disabled exactly when it is a Saturday or a Sunday |
| LogTime.FormatDateForStorage | src/app/features/projects/log-time.ts:174-180 | the Invalid Date is stored as `NaN/NaN/NaN` |
| LogTime.Hour12 | src/app/features/projects/log-time.ts:187-191 | the shown hour lies in 1..12 |
| LogTime.Hour12Inverse | src/app/features/projects/log-time.ts:182-195 | the 12-hour clock with its AM/PM marker gives back the hour of the day; midnight is 12 AM and noon 12 PM |
| LogTime.TimePadded | src/app/features/projects/log-time.ts:182-195 | hour and minute take exactly two digits and read back as themselves |
| LogTime.DateTimeLayout | src/app/features/projects/log-time.ts:182-195 | the creation stamp is the storage date, a space, two-digit hour and minute around a colon, a space and AM or PM |
| LogTime.StepsToWeekday | src/app/features/projects/log-time.ts:142-150 | the nearest weekday lies at most two days back and only weekend days are skipped |
| LogTime.BusinessDaysAgoSpec | src/app/features/projects/log-time.ts:136-154 | n business days back is a weekday before the start day with exactly n weekdays from it up to the day before |
| LogTime.BusinessDayUnique | src/app/features/projects/log-time.ts:136-154 | only one weekday has exactly n weekdays up to the start day |
| LogTime.WeekdaysInSplit | src/app/features/projects/log-time.ts:141-150 | the weekday count of a range is the sum of the counts of its two halves |
| LogTime.CalculateBusinessDaysAgo | src/app/features/projects/log-time.ts:136-154 | the loop returns the start day for n <= 0, and otherwise the weekday with exactly n weekdays up to the day before the start |
| LogTime.EntryWindowBounds | src/app/features/projects/log-time.ts:117-130 | the window runs from the later of the project start and four business days back, to the earlier of today and the project end; an invalid start or end behaves as JavaScript comparisons make it |
| LogTime.ProjectDateOfText | src/app/features/projects/log-time.ts:116-121 | a project date stored as the `DD-MM-YYYY` text of a day with a four-digit year is read as that day |
| LogTime.EntryWindowOfTexts | src/app/features/projects/log-time.ts:110-134 | for project dates stored as texts of days a and b, the window runs from the later of a and four business days back to the earlier of b and today |
| LogTime.ComputeEntryWindow | src/app/features/projects/log-time.ts:110-134 | the computed window is the entry window of the day and the project |
| LogTime.ErrorsIffInvalid | src/app/features/projects/log-time.ts:215-266 | no message is set exactly when a date and an activity are given, the hours are a whole number in 1..9, and the trimmed issue has 10 to 500 characters |
| LogTime.ExistingHoursAppend | src/app/features/projects/log-time.ts:281-287 | one more record adds its hours to the daily total of its own user and day and leaves every other total as it was |
| LogTime.LogTimeForm.constructor | src/app/features/projects/log-time.ts:41-61 | the form starts empty, with no messages and no window |
| LogTime.LogTimeForm.SetupDateRestrictions | src/app/features/projects/log-time.ts:110-134 | without a project nothing changes; otherwise the picker's minimum and maximum are the entry window |
| LogTime.LogTimeForm.OnDateChange | src/app/features/projects/log-time.ts:197-213 | a missing date is required; a weekend date is refused and cleared; any other date is kept and clears the message |
| LogTime.LogTimeForm.ValidateForm | src/app/features/projects/log-time.ts:215-266 | each field gets its own message and the result is true exactly when the fields are valid |
| LogTime.LogTimeForm.CheckDailyHoursLimit | src/app/features/projects/log-time.ts:268-306 | passes exactly when user, date and non-zero hours are given, the store answered, and the stored hours of that user on the stored day text plus the new whole hours are at most 9; the hours message becomes the cap verdict |
| LogTime.LogTimeForm.CheckCap | src/app/features/projects/log-time.ts:268-306 | on the stored text of the picked day: passes exactly when the cap holds for it, and the hours message becomes the cap verdict |
| LogTime.CapHoursVerdict | src/app/features/projects/log-time.ts:268-306 | within the cap, or with user, date or hours missing, the message stays; otherwise a store error gives `Error validating daily hours limit` and a loaded answer the message naming the new total and what is already logged |
| LogTime.LogTimeForm.OnSubmit | src/app/features/projects/log-time.ts:308-353 | a record is sent exactly when the form is valid, user and project exist and the cap holds for the stored day text; it is the draft of the old fields stamped with the formatted clock; with add-another after success every field and message is reset; on every other path the fields stay, the date, activity and issue messages are validation's, and the hours message is validation's when the form fails and the cap verdict when it passes |
| LogTime.LogTimeForm.SubmitStamped | src/app/features/projects/log-time.ts:308-353 | the same outcome as onSubmit, for a day text and a creation stamp given already written out |
| LogTime.LogTimeForm.SubmitValidated | src/app/features/projects/log-time.ts:313-351 | after validation: a record is sent exactly when the cap holds and it is built from the old fields, the day text and the stamp; add-another after success resets the form; otherwise the fields and the other messages stay and the hours message is the cap verdict |
| LogTime.DraftBounds | src/app/features/projects/log-time.ts:318-333 | a record built from validated fields carries whole hours in 1..9, a trimmed issue of 10..500 characters, the stored date text, status Pending and the user as author |
| LogTime.LogTimeForm.ClearForm | src/app/features/projects/log-time.ts:363-372 | the entry fields and their messages are reset |
| ProjectTimesheet.EntryDateOfStorage | src/app/features/projects/project-timesheet.ts:117 | a stored `DD/MM/YYYY` date with a four-digit year is read back by the filter as the same day |
| ProjectTimesheet.DateBucketOfStorage | src/app/features/projects/project-timesheet.ts:111-140 | on a stored date each bucket means its name: the same day, the day before, the same Sunday-started week, the week before, the same month and year |
| ProjectTimesheet.DateBucketOfDay | src/app/features/projects/project-timesheet.ts:111-140 | on a day each bucket means its name: the same day, the day before, the same Sunday-started week, the week before, the same month and year |
| ProjectTimesheet.DateBucketEdges | src/app/features/projects/project-timesheet.ts:115-138 | an unparsable date falls in no known bucket; an unknown key keeps every date |
| ProjectTimesheet.WeekStart | src/app/features/projects/project-timesheet.ts:170-176 | the week's start is the Sunday on or before the day, less than seven days back |
| ProjectTimesheet.ThisWeekIffSameSunday | src/app/features/projects/project-timesheet.ts:170-176 | a day is in this week exactly when it has the same starting Sunday as today |
| ProjectTimesheet.LastWeekIffPreviousSunday | src/app/features/projects/project-timesheet.ts:178-184 | a day is in last week exactly when its Sunday is seven days before today's |
| ProjectTimesheet.ThisWeekAsWrittenMissesSunday | src/app/features/projects/project-timesheet.ts:170-176 | after midnight the comparison as written rejects the Sunday that starts the week, although that Sunday belongs to it |
| ProjectTimesheet.ThisWeekAsWrittenElsewhere | src/app/features/projects/project-timesheet.ts:170-176 | on every other day the comparison as written agrees with the whole-day week |
| ProjectTimesheet.LastWeekAsWrittenMissesSunday | src/app/features/projects/project-timesheet.ts:178-184 | after midnight the last-week comparison as written rejects the Sunday that starts last week, although that Sunday belongs to it |
| ProjectTimesheet.LastWeekAsWrittenElsewhere | src/app/features/projects/project-timesheet.ts:178-184 | on every other day the last-week comparison as written agrees with the whole-day last week |
| ProjectTimesheet.Filtered | src/app/features/projects/project-timesheet.ts:111-157 | a record is kept exactly when it is in the full list and every active filter accepts it |
| ProjectTimesheet.NoFiltersKeepAll | src/app/features/projects/project-timesheet.ts:111-157 | with every selector off the whole list is kept, in order |
| ProjectTimesheet.ExactFilters | src/app/features/projects/project-timesheet.ts:142-154 | with status, user and activity set, a record is kept exactly when it has those three values |
| ProjectTimesheet.WithId | src/app/features/projects/project-timesheet.ts:215-216 | exactly the records carrying the id |
| ProjectTimesheet.WithoutId | src/app/features/projects/project-timesheet.ts:215-216 | exactly the records not carrying the id |
| ProjectTimesheet.DeleteCommutesWithFilter | src/app/features/projects/project-timesheet.ts:215-216 | deleting from the filtered list is the same as filtering the list after the deletion |
| ProjectTimesheet.TotalHoursSplit | src/app/features/projects/project-timesheet.ts:99-101 | the total of a list is the total of the records a test keeps plus the total of those it drops |
| ProjectTimesheet.DeletedHours | src/app/features/projects/project-timesheet.ts:215-217 | after a deletion the total drops by exactly the hours of the deleted records |
| ProjectTimesheet.OwnRecords | src/app/features/projects/project-timesheet.ts:71-74 | exactly the loaded records of this project and this user |
| ProjectTimesheet.StatusClass | src/app/features/projects/project-timesheet.ts:103-105 | the approved class exactly for an `approved` status in any case, the pending class otherwise |
| ProjectTimesheet.ProjectTimesheetPage.constructor | src/app/features/projects/project-timesheet.ts:18-32 | empty lists, no filters, total 0 |
| ProjectTimesheet.ProjectTimesheetPage.LoadTimesheets | src/app/features/projects/project-timesheet.ts:66-85 | a loaded answer makes the user's project records both the full and the shown list; an error changes nothing; the total matches the shown list |
| ProjectTimesheet.ProjectTimesheetPage.CalculateTotalHours | src/app/features/projects/project-timesheet.ts:99-101 | the total becomes the hours of the shown list |
| ProjectTimesheet.ProjectTimesheetPage.ApplyFilters | src/app/features/projects/project-timesheet.ts:111-160 | the shown list is always recomputed from the full list, and the total follows it |
| ProjectTimesheet.ProjectTimesheetPage.SetFilters | src/app/features/projects/project-timesheet.ts:107-109 | setting selectors shows what they keep of the full list |
| ProjectTimesheet.ProjectTimesheetPage.OnClearFilter | src/app/features/projects/project-timesheet.ts:190-197 | every selector off and the full list shown |
| ProjectTimesheet.ProjectTimesheetPage.OnDeleteTimesheet | src/app/features/projects/project-timesheet.ts:209-227 | on confirmed deletion the records with the id leave both lists and the total drops by their hours; otherwise nothing changes |
| Projects.StatusClass | src/app/features/projects/projects.ts:128-130 | the active class exactly for an `active` status in any case, the inactive class otherwise |
| Projects.FirstIndex | src/app/features/projects/projects.ts:181 | `indexOf` finds the first occurrence |
| Projects.RemoveFirst | src/app/features/projects/projects.ts:181-182 | one occurrence leaves and the rest keep their order |
| Projects.Toggled | src/app/features/projects/projects.ts:174-187 | checking adds an absent email at the end and keeps a present one; unchecking leaves an absent email's list alone |
| Projects.RemoveFirstDistinct | src/app/features/projects/projects.ts:180-183 | in a list without duplicates the removal takes the email out altogether and keeps the others |
| Projects.ToggledDistinct | src/app/features/projects/projects.ts:174-187 | toggling keeps a list free of duplicates, unchecking removes the email, and no other email changes |
| Projects.ToggledInverse | src/app/features/projects/projects.ts:174-187 | checking an absent email and unchecking it again gives the list back |
| Projects.DateRange | src/app/features/projects/projects.ts:207-223 | an end on or before the start is refused; an end less than 30 days after the start is too short; an Invalid Date passes |
| Projects.DateRangeValidatorOfTexts | src/app/features/projects/projects.ts:207-223 | on the inputs' texts of two days an end on or before the start and an end less than 30 days later are refused, and an empty start or end passes |
| Projects.DateRangeLaterEnd | src/app/features/projects/projects.ts:207-223 | an accepted range stays accepted when its end moves later |
| Projects.StartDateValidator | src/app/features/projects/projects.ts:189-205 | refused exactly when the value is set, the form is not in edit mode and the date lies before today |
| Projects.StartDateBoundary | src/app/features/projects/projects.ts:189-205 | today's date passes a new project's start check and yesterday's is refused |
| Projects.RoleDecides | src/app/features/projects/projects.ts:309-311 | a string role alone decides the flag: admin in any case sets it, anything else clears it |
| Projects.RoleCaseInsensitive | src/app/features/projects/projects.ts:310-311 | a role and its lower-case form give the same flag |
| Projects.RolesArrayAdmin | src/app/features/projects/projects.ts:312-313 | without a string role, a roles array sets the flag exactly when some item's text is admin in any case |
| Projects.NestedRoleAdmin | src/app/features/projects/projects.ts:312-313 | an `ADMIN` nested one level in the roles array sets the flag |
| Projects.ConstructorFlagAgrees | src/app/features/projects/projects.ts:59-61 | initAdminFlag keeps a flag the constructor set from a `role` of `Admin` |
| Projects.ConstructorFlagNarrower | src/app/features/projects/projects.ts:59-61 | initAdminFlag grants the flag to a lower-case `admin` role, which the constructor refuses |
| Projects.FindProject | src/app/features/projects/projects.ts:344 | the project found is the first one with the id, as `find` returns; nothing is found exactly when no project has it |
| Projects.SelectAllAsWritten | src/app/features/projects/projects.ts:347-348 | as written, checking adds only `"undefined"`, whatever the users are |
| Projects.SelectAll | src/app/features/projects/projects.ts:347-348 | as intended, the set afterwards holds the old members and every assigned user |
| Projects.SelectAllAsWrittenNotAll | src/app/features/projects/projects.ts:343-359 | as written, select-all from an empty selection on any project with at least two users does not make all users selected |
| Projects.SelectAllMakesAll | src/app/features/projects/projects.ts:343-359 | as intended, select-all makes areAllUsersSelected true for a duplicate-free user list |
| Projects.ProjectsPage.constructor | src/app/features/projects/projects.ts:39-61 | the page starts with the loaded projects and no selections, and the admin flag is set exactly when the stored user's role is the string `Admin` |
| Projects.ProjectsPage.ToggleAssigned | src/app/features/projects/projects.ts:174-187 | the list becomes the toggled list; a checked email is assigned; a duplicate-free list stays duplicate-free and unchecking unassigns |
| Projects.ProjectsPage.EnsureProjectSet | src/app/features/projects/projects.ts:324-330 | the project has a set afterwards, empty if it had none; other projects are untouched |
| Projects.ProjectsPage.ToggleUserSelection | src/app/features/projects/projects.ts:337-341 | the user joins or leaves that project's set and is selected exactly when checked; a check gives the project a selection; others are untouched |
| Projects.ProjectsPage.ToggleSelectAll | src/app/features/projects/projects.ts:343-352 | an unknown project changes nothing; unchecking empties the set so nothing is selected; checking adds only `"undefined"`, and only when the project has assigned users, as written |
| Projects.ProjectsPage.InitAdminFlag | src/app/features/projects/projects.ts:305-322 | an unparsable value clears the flag, a falsy one keeps it, else the string role, the roles array or `isAdmin` decides |

## Left out

- HTTP calls, observables and their subscriptions are not modelled: the store's answer or the confirmation is a parameter.
- Angular templates, forms plumbing, routing, `console` output, `alert` and `confirm` are not modelled: they are user interface and I/O.
- The toast timer and the message timers of the admin page are left out: `setTimeout` is a clock effect.
- The seed data of the service is left out: the constructor takes the initial entries instead.
- `createProject` of the admin page is left out: it only calls `addProject`, which the timesheet service does not define, and sets a message with a timer.
- TimesheetAdmin.AdminComponent.CreateEntry: the timesheet service defines no `addEntry`, so the call at timesheet-admin.component.ts:216 cannot succeed as the repository stands, and the form reset after it is never reached. The model hands the trimmed entry over as its result and assumes the call returns normally, so its form reset is the one the code would perform. The `entryCreatedMsg` text built from the call's answer, and its timer, are left out.
- `addProject`, `updateProject`, `deleteProject`, the dialogs, `approveSelected` and `rejectSelected` of the projects page are left out: they are store requests and dialog state.
- `loadProjectTotalHours` and `loadProjectData` of the project timesheet page are left out: they only copy a store answer into a field.
- `onLogTime`, `goBackToProjects`, `onEditTimesheet`, `onCancel`, the navigation after a plain submit and the pages' `ngOnInit` and `loadProjectData` are left out: they navigate, log or copy a store answer.
- `onCreate` and `onCreateAndAddAnother` are left out: they only call onSubmit with its flag.
- `localStorage` is left out: initAdminFlag takes the parse of the stored user, or None when parsing threw, and the projects page constructor takes the parsed value.
- Projects.ProjectsPage.constructor: requires a parsed user other than `null`, because `null.role` throws there; stored text that does not parse also throws there, outside a `try`, and is not modelled.
- Time zones and daylight saving are not modelled: local time is taken as UTC, so a `Date` is a day number.
- Time of day is not modelled, except in ProjectTimesheet.IsThisWeekAsWritten and ProjectTimesheet.IsLastWeekAsWritten, where it shows the finding below.
- LogTime.CalculateBusinessDaysAgo does not apply the ±100,000,000-day time clip while stepping back, because no realistic day reaches it.
- `Number` parsing of decimals, exponents and hexadecimal is not modelled: such text is NaN in Js.ToNumber.
- `String` of numbers of 1e21 and above is not modelled: integers are written as plain decimals.
- String lengths count characters, not UTF-16 code units.
- `toLowerCase` only lowers ASCII letters.
- Object.keys puts integer-like keys first in JavaScript; Js.Record keeps plain insertion order for all keys.
- LogTime.LogTimeForm.OnSubmit writes out the picked day's storage text and the creation stamp before validating, where the source formats them inside checkDailyHoursLimit and after the cap check; both are pure computations of values onSubmit already holds, so the outcome is the same. The cap comparison itself is LogTime.LogTimeForm.CheckCap, which CheckDailyHoursLimit runs on the same text.
- LogTime.LogTimeForm.CheckDailyHoursLimit: requires whole hours, because the store keeps hours as whole numbers; this is the only case onSubmit reaches after validation.
- Timesheet hours are whole numbers in Store.Timesheet, because the log-time form only accepts whole hours.
- JSON numbers in Projects.Json are integers only, because the admin flag only tests their truthiness and string form.
- A missing entry comment is the empty string, which JavaScript treats as falsy like `undefined`.
- After the form is reset the date controls hold `null`, and `new Date(null)` is 1970-01-01 rather than the Invalid Date; Projects.DateRangeValidator reads only `YYYY-MM-DD` texts and the empty text, so that case is not modelled.
- The `!startDate \|\| !endDate` guard of the date-range validator is not modelled as a separate case: Date objects are always truthy, so it never fires.
- The validators take the date input's `YYYY-MM-DD` text; other formats, such as a `DD-MM-YYYY` project date shown in edit mode, become the Invalid Date instead of going through the engine's fallback parse.
- `hasSelection` takes a project id; its object form, which reads the id from the object, is left out.

## Findings

| source | as written | input that shows it | evidently intended | confidence | as-written member | corrected member |
|---|---|---|---|---|---|---|
| src/app/features/projects/project-timesheet.ts:170-176 | the week bounds are copies of `new Date()` that keep the current time of day, while a record's date is a midnight | any moment after midnight: a record dated on the Sunday that starts the week is not shown under "this week" | the whole Sunday-to-Saturday week, compared by day | not executed | ProjectTimesheet.IsThisWeekAsWritten / ProjectTimesheet.ThisWeekAsWrittenMissesSunday | ProjectTimesheet.IsThisWeek / ProjectTimesheet.ThisWeekIffSameSunday |
| src/app/features/projects/project-timesheet.ts:178-184 | the last-week bounds are copies of `new Date()` moved back seven days, and keep the current time of day, while a record's date is a midnight | any moment after midnight: a record dated on the Sunday that starts last week is not shown under "last week" | the whole Sunday-to-Saturday week before this one, compared by day | not executed | ProjectTimesheet.IsLastWeekAsWritten / ProjectTimesheet.LastWeekAsWrittenMissesSunday | ProjectTimesheet.IsLastWeek / ProjectTimesheet.LastWeekIffPreviousSunday |
| src/app/features/projects/projects.ts:348 | select-all adds `String(u.id)` for each assigned user, but the users are email strings, so every one adds `"undefined"` | a project with two assigned users: after select-all the set is `{"undefined"}` and areAllUsersSelected is false | every assigned user joins the set | not executed | Projects.ProjectsPage.ToggleSelectAll / Projects.SelectAllAsWritten / Projects.SelectAllAsWrittenNotAll | Projects.SelectAll / Projects.SelectAllMakesAll |
