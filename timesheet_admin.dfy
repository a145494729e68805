/**
 * The timesheet admin page: a project/status filter over the entries of the
 * staging service, selection of the visible rows, single and bulk preparation
 * of status changes, and the save dialog that commits them.
 */
module TimesheetAdmin {
  import opened Js
  import opened Calendar
  import opened Dates
  import opened TimesheetService

  /** The row filter: an empty project or status string matches every entry. */
  predicate MatchesFilters(e: Entry, project: string, status: string) {
    (project == "" || e.project == project) && (status == "" || StatusName(e.status) == status)
  }

  /** The entries the table shows, in list order. */
  function Visible(entries: seq<Entry>, project: string, status: string): (r: seq<Entry>)
    ensures |r| <= |entries|
    ensures forall e :: e in r <==> e in entries && MatchesFilters(e, project, status)
  {
    Filter(entries, e => MatchesFilters(e, project, status))
  }

  /** With both filters empty every entry is shown. */
  lemma VisibleUnfiltered(entries: seq<Entry>)
    ensures Visible(entries, "", "") == entries
  {
    FilterAll(entries, e => MatchesFilters(e, "", ""));
  }

  /** The two filters are conjunctive: filtering by both is filtering by one and then the other. */
  lemma VisibleConjunctive(entries: seq<Entry>, project: string, status: string)
    ensures Visible(entries, project, status) == Visible(Visible(entries, project, ""), "", status)
  {
    FilterFilter(entries, e => MatchesFilters(e, project, ""), e => MatchesFilters(e, "", status),
      e => MatchesFilters(e, project, status));
  }

  /** `entries.map(e => e.id)`. */
  function Ids(es: seq<Entry>): (r: seq<string>)
    ensures |r| == |es|
    ensures forall i :: 0 <= i < |es| ==> r[i] == es[i].id
    ensures forall e :: e in es ==> e.id in r
  {
    seq(|es|, i requires 0 <= i < |es| => es[i].id)
  }

  /** Each id toggled on (assigned `true`) or off (deleted) in turn. */
  function ToggleAll(d: Record<bool>, ids: seq<string>, checked: bool): (r: Record<bool>)
    requires d.Valid()
    ensures r.Valid()
  {
    if checked then PutAll(d, ids, true) else DeleteAll(d, ids)
  }

  /** After toggling, exactly the ids are present or absent as checked says; other keys are as before. */
  lemma ToggleAllKeys(d: Record<bool>, ids: seq<string>, checked: bool)
    requires d.Valid()
    ensures forall k :: k in ids ==> (k in ToggleAll(d, ids, checked).values) == checked
    ensures forall k :: k !in ids ==> (k in ToggleAll(d, ids, checked).values <==> k in d.values)
  {
    if checked {
      PutAllValues(d, ids, true);
    } else {
      DeleteAllValues(d, ids);
    }
  }

  /** Toggling one more id is one more put or delete. */
  lemma ToggleAllStep(d: Record<bool>, ids: seq<string>, checked: bool)
    requires d.Valid() && ids != []
    ensures var init := ToggleAll(d, ids[..|ids| - 1], checked);
      ToggleAll(d, ids, checked) == if checked then init.Put(ids[|ids| - 1], true) else init.Delete(ids[|ids| - 1])
  {
    if !checked {
      DeleteAllStep(d, ids);
    }
  }

  /** Toggling the first i + 1 ids is toggling the first i and then the next one. */
  lemma ToggleAllPrefix(d: Record<bool>, ids: seq<string>, i: int, checked: bool)
    requires d.Valid() && 0 <= i < |ids|
    ensures var init := ToggleAll(d, ids[..i], checked);
      ToggleAll(d, ids[..i + 1], checked) == if checked then init.Put(ids[i], true) else init.Delete(ids[i])
  {
    var next := ids[..i + 1];
    assert next[..i] == ids[..i] && next[i] == ids[i];
    ToggleAllStep(d, next, checked);
  }

  /** The state of the entry creation form; a blank number input is `None`. */
  datatype NewEntry = NewEntry(
    project: string,
    user: string,
    date: string,
    unit: Option<real>,
    activity: string,
    comment: string)

  /** canCreateEntry: project, user, date and activity given and a positive unit. */
  predicate CanCreate(n: NewEntry) {
    n.project != "" && n.user != "" && n.date != "" && n.unit.Some? && n.unit.value > 0.0 && n.activity != ""
  }

  /**
   * The form as reset on a day whose date-input text is given: one unit, no
   * project chosen, so no entry can be created yet.
   */
  function BlankEntry(todayInput: string): (n: NewEntry)
    ensures !CanCreate(n) && n.date == todayInput && n.unit == Some(1.0)
  {
    NewEntry("", "", todayInput, Some(1.0), "", "")
  }

  /**
   * The form after createEntry: the project stays chosen to speed up the next
   * entry, the date is today's again, one unit, and user, activity and
   * comment are cleared. It cannot create an entry until a user and an
   * activity are given again.
   */
  function AfterCreate(n: NewEntry, todayInput: string): (r: NewEntry)
    ensures r.project == n.project && r.date == todayInput && r.unit == Some(1.0) && r.comment == ""
    ensures !CanCreate(r)
    ensures forall u, a :: CanCreate(r.(user := u, activity := a)) <==> n.project != "" && todayInput != "" && u != "" && a != ""
  {
    n.(user := "", date := todayInput, unit := Some(1.0), activity := "", comment := "")
  }

  /** The value createEntry hands to the store: user, activity and comment trimmed. */
  function Submitted(n: NewEntry): (r: NewEntry)
    ensures r.project == n.project && r.date == n.date && r.unit == n.unit
    ensures r.user == Trim(n.user) && r.activity == Trim(n.activity) && r.comment == Trim(n.comment)
  {
    n.(user := Trim(n.user), activity := Trim(n.activity), comment := Trim(n.comment))
  }

  /**
   * canCreateEntry tests the user and the activity before they are trimmed:
   * the handed-over entry passes it again exactly when neither trims to
   * nothing, and a user made only of blanks passes and is handed over empty.
   */
  lemma CanCreateUntrimmed(n: NewEntry)
    requires CanCreate(n)
    ensures CanCreate(Submitted(n)) <==> Trim(n.user) != "" && Trim(n.activity) != ""
    ensures CanCreate(n.(user := " ")) && Submitted(n.(user := " ")).user == ""
  {
    var t := TrimStart(" ");
    assert t == [];
  }

  /** toDateInput: `yyyy-MM-dd` with the month and the day padded to two digits. */
  function ToDateInput(d: JsDate): (r: string)
    ensures d == InvalidDate ==> r == "NaN-NaN-NaN"
  {
    NumToString(GetFullYear(d)) + "-" + Pad2(NumToString(GetMonth1(d))) + "-" + Pad2(NumToString(GetDate(d)))
  }

  /**
   * For the years 1000..9999 toDateInput writes exactly the ten-character
   * form a date input accepts, and that text denotes the same day again.
   */
  lemma ToDateInputRoundTrip(z: int)
    requires 1000 <= CivilFromDays(z).year <= 9999
    ensures |ToDateInput(Date(z))| == 10
    ensures ParseIsoDate(ToDateInput(Date(z))) == Date(z)
  {
    var c := CivilFromDays(z);
    NatToStringLength(c.year);
    NatToStringLength(c.month);
    NatToStringLength(c.day);
    ToDateInputText(z);
    ParseIsoDateOf(z);
  }

  /** toDateInput of a day with a non-negative year, written out field by field. */
  lemma ToDateInputText(z: int)
    requires CivilFromDays(z).year >= 0
    ensures var c := CivilFromDays(z);
      ToDateInput(Date(z)) == NatToString(c.year) + "-" + Pad2(NatToString(c.month)) + "-" + Pad2(NatToString(c.day))
  {
    var c := CivilFromDays(z);
    assert NumToString(Int(c.year)) == NatToString(c.year);
    assert NumToString(Int(c.month)) == NatToString(c.month);
    assert NumToString(Int(c.day)) == NatToString(c.day);
  }

  class AdminComponent {
    var svc: Service
    var filterProject: string
    var filterStatus: string
    var modalOpen: bool
    var modalChanges: seq<Change>
    var toastShow: bool
    var toastMessage: string
    var newEntry: NewEntry

    predicate Valid()
      reads this, svc
    {
      svc.Valid()
    }

    /** A fresh page on the day `today`: no filters, no dialog, the entry form reset. */
    constructor (service: Service, today: JsDate)
      requires service.Valid()
      ensures Valid() && svc == service
      ensures filterProject == "" && filterStatus == "" && !modalOpen && modalChanges == []
      ensures !toastShow && toastMessage == "" && newEntry == BlankEntry(ToDateInput(today))
    {
      svc := service;
      filterProject := "";
      filterStatus := "";
      modalOpen := false;
      modalChanges := [];
      toastShow := false;
      toastMessage := "";
      newEntry := BlankEntry(ToDateInput(today));
    }

    /** canCreateEntry. */
    predicate CanCreateEntry()
      reads this
    {
      CanCreate(newEntry)
    }

    /**
     * createEntry: nothing happens unless canCreateEntry holds; otherwise the
     * trimmed entry is handed to the service's `addEntry` and the form is
     * reset for the next entry of the same project. The service defines no
     * `addEntry`; the model returns the entry and assumes the call returns.
     */
    method CreateEntry(today: JsDate) returns (submitted: Option<NewEntry>)
      modifies this`newEntry
      ensures submitted.Some? <==> old(CanCreateEntry())
      ensures submitted.Some? ==>
        submitted.value == Submitted(old(newEntry)) && newEntry == AfterCreate(old(newEntry), ToDateInput(today))
      ensures submitted.None? ==> newEntry == old(newEntry)
    {
      if !CanCreateEntry() {
        return None;
      }
      submitted := Some(Submitted(newEntry));
      newEntry := AfterCreate(newEntry, ToDateInput(today));
    }

    /** resetEntryForm: a blank form dated today. */
    method ResetEntryForm(today: JsDate)
      modifies this`newEntry
      ensures newEntry == BlankEntry(ToDateInput(today)) && !CanCreateEntry()
    {
      newEntry := BlankEntry(ToDateInput(today));
    }

    /** filteredEntries. */
    function FilteredEntries(): (r: seq<Entry>)
      reads this, svc
      ensures forall e :: e in r <==> e in svc.entries && MatchesFilters(e, filterProject, filterStatus)
      ensures filterProject == "" && filterStatus == "" ==> r == svc.entries
    {
      VisibleUnfiltered(svc.entries);
      Visible(svc.entries, filterProject, filterStatus)
    }

    /** isSelected: `!!selection[id]`; in a well-formed state, exactly the ids selectedIds lists. */
    function IsSelected(id: string): (r: bool)
      reads this, svc
      ensures svc.Valid() ==> (r <==> id in svc.selection.keys)
    {
      id in svc.selection.values && svc.selection.values[id]
    }

    /** allVisibleSelected: some entry is visible and every visible entry is selected. */
    function AllVisibleSelected(): (r: bool)
      reads this, svc
      ensures r <==> FilteredEntries() != [] && forall e :: e in FilteredEntries() ==> IsSelected(e.id)
    {
      var visible := FilteredEntries();
      if |visible| == 0 then false else forall i :: 0 <= i < |visible| ==> IsSelected(visible[i].id)
    }

    /** onToggleSelect. */
    method OnToggleSelect(id: string, checked: bool)
      requires Valid()
      modifies svc
      ensures Valid()
      ensures IsSelected(id) == checked
      ensures forall k :: k != id ==> (IsSelected(k) <==> old(IsSelected(k)))
      ensures svc.entries == old(svc.entries) && svc.pendingChanges == old(svc.pendingChanges)
    {
      svc.ToggleSelect(id, checked);
    }

    /** selectAllVisible: the ids of the visible entries join the selection. */
    method SelectAllVisible()
      requires Valid()
      modifies svc
      ensures Valid()
      ensures svc.selection == PutAll(old(svc.selection), Ids(old(FilteredEntries())), true)
      ensures forall e :: e in FilteredEntries() ==> IsSelected(e.id)
      ensures forall k :: old(IsSelected(k)) ==> IsSelected(k)
      ensures svc.entries == old(svc.entries) && svc.pendingChanges == old(svc.pendingChanges)
    {
      var ids := Ids(FilteredEntries());
      svc.SelectAllVisible(ids);
    }

    /** clearSelection. */
    method ClearSelection()
      requires Valid()
      modifies svc
      ensures Valid()
      ensures forall k :: !IsSelected(k)
      ensures svc.entries == old(svc.entries) && svc.pendingChanges == old(svc.pendingChanges)
    {
      svc.ClearSelection();
    }

    /**
     * toggleSelectAll: each visible entry is selected or unselected as the
     * header checkbox says; ids of hidden entries keep their selection.
     */
    method ToggleSelectAll(checked: bool)
      requires Valid()
      modifies svc
      ensures Valid()
      ensures svc.entries == old(svc.entries) && svc.pendingChanges == old(svc.pendingChanges)
      ensures FilteredEntries() == old(FilteredEntries())
      ensures svc.selection == if checked then PutAll(old(svc.selection), Ids(old(FilteredEntries())), true)
        else DeleteAll(old(svc.selection), Ids(old(FilteredEntries())))
      ensures forall e :: e in FilteredEntries() ==> IsSelected(e.id) == checked
      ensures forall k :: k !in Ids(FilteredEntries()) ==> (IsSelected(k) <==> old(IsSelected(k)))
      ensures checked && FilteredEntries() != [] ==> AllVisibleSelected()
    {
      var ids := Ids(FilteredEntries());
      ToggleEach(ids, checked);
    }

    /** The forEach loop of toggleSelectAll: toggleSelect on each id in turn. */
    method ToggleEach(ids: seq<string>, checked: bool)
      requires svc.Valid()
      modifies svc
      ensures svc.Valid()
      ensures svc.entries == old(svc.entries) && svc.pendingChanges == old(svc.pendingChanges)
      ensures svc.selection == if checked then PutAll(old(svc.selection), ids, true) else DeleteAll(old(svc.selection), ids)
      ensures forall k :: k in ids ==> (k in svc.selection.values) == checked
      ensures forall k :: k !in ids ==> (k in svc.selection.values <==> k in old(svc.selection.values))
    {
      var sel := svc.selection;
      var i := 0;
      while i < |ids|
        invariant 0 <= i <= |ids|
        invariant svc.Valid()
        invariant svc.entries == old(svc.entries) && svc.pendingChanges == old(svc.pendingChanges)
        invariant svc.selection == ToggleAll(sel, ids[..i], checked)
      {
        ToggleAllPrefix(sel, ids, i, checked);
        svc.ToggleSelect(ids[i], checked);
        i := i + 1;
      }
      assert ids[..i] == ids;
      ToggleAllKeys(sel, ids, checked);
    }

    /** hasSelected: some id is selected. */
    function HasSelected(): (r: bool)
      requires Valid()
      reads this, svc
      ensures r <==> exists k :: IsSelected(k)
    {
      var ids := svc.SelectedIds();
      assert ids != [] ==> IsSelected(ids[0]);
      |ids| > 0
    }

    /** selectedCount: the number of selected ids. */
    function SelectedCount(): (n: int)
      requires Valid()
      reads this, svc
      ensures n == |svc.selection.values| && (n > 0 <==> HasSelected())
    {
      SelectedCountOfKeys(svc.selection);
      |svc.SelectedIds()|
    }

    /** hasPendingChanges: `Object.keys(pendingChanges).length > 0`, that is, some id is staged. */
    function HasPendingChanges(): (r: bool)
      reads this, svc
      ensures svc.Valid() ==> (r <==> svc.pendingChanges.values != map[])
    {
      var d := svc.pendingChanges;
      assert svc.Valid() && d.keys != [] ==> d.keys[0] in d.values;
      assert svc.Valid() && d.keys == [] ==> d.values.Keys == {};
      |d.keys| > 0
    }

    /** openSaveModal: the dialog lists what a commit would apply now. */
    method OpenSaveModal()
      requires Valid()
      modifies this
      ensures Valid() && svc == old(svc)
      ensures modalChanges == Gather(svc.entries, svc.pendingChanges) && modalOpen
      ensures filterProject == old(filterProject) && filterStatus == old(filterStatus)
      ensures toastShow == old(toastShow) && toastMessage == old(toastMessage) && newEntry == old(newEntry)
    {
      modalChanges := svc.GatherPendingChanges();
      modalOpen := true;
    }

    /** closeModal. */
    method CloseModal()
      modifies this
      ensures !modalOpen && svc == old(svc) && modalChanges == old(modalChanges)
      ensures filterProject == old(filterProject) && filterStatus == old(filterStatus)
      ensures toastShow == old(toastShow) && toastMessage == old(toastMessage) && newEntry == old(newEntry)
    {
      modalOpen := false;
    }

    /** prepareSingle: the entry is selected, staged to the status, and the dialog opens. */
    method PrepareSingle(entry: Entry, newStatus: Status)
      requires Valid()
      modifies this, svc
      ensures Valid() && svc == old(svc)
      ensures svc.selection == old(svc.selection).Put(entry.id, true) && IsSelected(entry.id)
      ensures svc.pendingChanges == old(svc.pendingChanges).Put(entry.id, newStatus)
      ensures svc.entries == old(svc.entries)
      ensures modalOpen && modalChanges == Gather(svc.entries, svc.pendingChanges)
      ensures filterProject == old(filterProject) && filterStatus == old(filterStatus)
      ensures toastShow == old(toastShow) && toastMessage == old(toastMessage) && newEntry == old(newEntry)
    {
      svc.ToggleSelect(entry.id, true);
      svc.StageChange(entry.id, newStatus);
      OpenSaveModal();
    }

    /** prepareBulk: exactly the selected ids are staged to the status, and the dialog opens. */
    method PrepareBulk(newStatus: Status)
      requires Valid()
      modifies this, svc
      ensures Valid() && svc == old(svc)
      ensures svc.pendingChanges == PutAll(old(svc.pendingChanges), old(svc.SelectedIds()), newStatus)
      ensures forall k :: old(IsSelected(k)) ==> k in svc.pendingChanges.values && svc.pendingChanges.values[k] == newStatus
      ensures forall k :: !old(IsSelected(k)) && k in old(svc.pendingChanges.values) ==>
        svc.pendingChanges.values[k] == old(svc.pendingChanges.values[k])
      ensures forall k :: !old(IsSelected(k)) ==> (k in svc.pendingChanges.values <==> k in old(svc.pendingChanges.values))
      ensures svc.entries == old(svc.entries) && svc.selection == old(svc.selection)
      ensures modalOpen && modalChanges == Gather(svc.entries, svc.pendingChanges)
      ensures filterProject == old(filterProject) && filterStatus == old(filterStatus)
      ensures toastShow == old(toastShow) && toastMessage == old(toastMessage) && newEntry == old(newEntry)
    {
      var ids := svc.SelectedIds();
      svc.StageBulkChange(ids, newStatus);
      PutAllValues(old(svc.pendingChanges), ids, newStatus);
      OpenSaveModal();
    }

    /** commitModal: commit with the dialog's comment, close it and report the count. */
    method CommitModal(comment: string)
      requires Valid()
      modifies this, svc
      ensures Valid() && svc == old(svc)
      ensures var applied := AppliedIds(old(svc.entries), old(svc.pendingChanges));
        svc.entries == CommitEntries(old(svc.entries), old(svc.pendingChanges).values, comment) &&
        svc.pendingChanges == DeleteAll(old(svc.pendingChanges), applied) &&
        svc.selection == DeleteAll(old(svc.selection), applied) &&
        toastMessage == IntToString(|applied|) + " change(s) saved successfully"
      ensures !modalOpen && toastShow && modalChanges == old(modalChanges)
      ensures filterProject == old(filterProject) && filterStatus == old(filterStatus) && newEntry == old(newEntry)
    {
      var applied := svc.CommitChanges(comment);
      modalOpen := false;
      ShowToast(IntToString(applied) + " change(s) saved successfully");
    }

    /** showToast, without the timer that hides it again. */
    method ShowToast(message: string)
      modifies this
      ensures toastMessage == message && toastShow
      ensures svc == old(svc) && modalOpen == old(modalOpen) && modalChanges == old(modalChanges)
      ensures filterProject == old(filterProject) && filterStatus == old(filterStatus) && newEntry == old(newEntry)
    {
      toastMessage := message;
      toastShow := true;
    }
  }

  /** A well-formed record has as many keys as values. */
  lemma SelectedCountOfKeys(d: Record<bool>)
    requires d.Valid()
    ensures |d.keys| == |d.values|
  {
    DistinctCard(d.keys);
  }
}
