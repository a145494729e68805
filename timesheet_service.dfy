/**
 * The approval staging engine of the timesheet admin page: a list of
 * timesheet entries, a selection record `id -> true` and a record of pending
 * status changes `id -> status`. Changes are staged first and applied to the
 * entry list only on commit.
 */
module TimesheetService {
  import opened Js

  /** TimesheetStatus. */
  datatype Status = Pending | Approved | Rejected

  /** The string value of a status, as the status filter compares it. */
  function StatusName(s: Status): (r: string)
    ensures r in ["PENDING", "APPROVED", "REJECTED"]
  {
    match s
    case Pending => "PENDING"
    case Approved => "APPROVED"
    case Rejected => "REJECTED"
  }

  lemma StatusNameInjective(a: Status, b: Status)
    ensures StatusName(a) == StatusName(b) <==> a == b
  {
  }

  /**
   * TimesheetEntry. The optional comment is a string; an absent comment is
   * the empty string, which JavaScript treats as falsy like `undefined`.
   */
  datatype Entry = Entry(
    id: string,
    date: string,
    user: string,
    comment: string,
    createdDate: string,
    unit: int,
    project: string,
    activity: string,
    status: Status)

  /** One element of the list gatherPendingChanges returns. */
  datatype Change = Change(entry: Entry, newStatus: Status)

  /** The index `entries.find(e => e.id === id)` stops at. */
  function FindIndex(entries: seq<Entry>, id: string): (r: Option<nat>)
    ensures r.None? ==> forall i :: 0 <= i < |entries| ==> entries[i].id != id
    ensures r.Some? ==> r.value < |entries| && entries[r.value].id == id
    ensures r.Some? ==> forall j :: 0 <= j < r.value ==> entries[j].id != id
  {
    if entries == [] then None
    else if entries[0].id == id then Some(0)
    else match FindIndex(entries[1..], id)
      case None => None
      case Some(i) => Some(i + 1)
  }

  /** `entries.find(e => e.id === id)`: the first entry with that id. */
  function Find(entries: seq<Entry>, id: string): (r: Option<Entry>)
    ensures r.Some? <==> FindIndex(entries, id).Some?
    ensures r.Some? ==> r.value == entries[FindIndex(entries, id).value] && r.value.id == id
  {
    match FindIndex(entries, id)
    case None => None
    case Some(i) => Some(entries[i])
  }

  /**
   * A pending id is a real change when an entry with that id exists and the
   * first such entry has a status other than the staged one.
   */
  predicate IsApplied(entries: seq<Entry>, pending: map<string, Status>, id: string) {
    id in pending && Find(entries, id).Some? && Find(entries, id).value.status != pending[id]
  }

  /** The changes gatherPendingChanges collects from the given pending keys, in order. */
  function Changes(entries: seq<Entry>, pending: map<string, Status>, keys: seq<string>): seq<Change>
  {
    if keys == [] then []
    else
      var init := Changes(entries, pending, keys[..|keys| - 1]);
      var id := keys[|keys| - 1];
      if IsApplied(entries, pending, id) then init + [Change(Find(entries, id).value, pending[id])]
      else init
  }

  /** The result of gatherPendingChanges in a given state. */
  function Gather(entries: seq<Entry>, pending: Record<Status>): seq<Change> {
    Changes(entries, pending.values, pending.keys)
  }

  /** The pending ids commitChanges applies, in Object.keys order. */
  function AppliedIds(entries: seq<Entry>, pending: Record<Status>): (r: seq<string>)
    ensures forall id :: id in r <==> id in pending.keys && IsApplied(entries, pending.values, id)
  {
    var p := pending.values;
    Filter(pending.keys, id => IsApplied(entries, p, id))
  }

  /**
   * The comment of an applied entry: a non-blank commit comment is trimmed
   * and appended after ` | `, or becomes the comment when there was none.
   */
  function AppendComment(prior: string, comment: string): (r: string)
    ensures Trim(comment) == [] ==> r == prior
    ensures Trim(comment) != [] && prior == [] ==> r == Trim(comment)
    ensures Trim(comment) != [] && prior != [] ==> r == prior + " | " + Trim(comment)
  {
    var t := Trim(comment);
    if t == [] then prior else (if prior != [] then prior + " | " else "") + t
  }

  /** The comment only ever grows: the prior comment stays in front, the new text ends it. */
  lemma AppendCommentKeepsOld(prior: string, comment: string)
    ensures var r := AppendComment(prior, comment);
      |r| >= |prior| && r[..|prior|] == prior && r[|r| - |Trim(comment)|..] == Trim(comment)
  {
    var r := AppendComment(prior, comment);
    var t := Trim(comment);
    if t == [] {
      assert r[|r| - |t|..] == [];
    } else if prior != [] {
      assert r == prior + " | " + t;
      assert r[..|prior|] == prior;
    }
  }

  /** What commitChanges maps one entry to. */
  function CommitEntry(e: Entry, pending: map<string, Status>, comment: string): Entry {
    if e.id in pending && e.status != pending[e.id]
    then e.(status := pending[e.id], comment := AppendComment(e.comment, comment))
    else e
  }

  /** The entry list commitChanges builds with `entries.map`. */
  function CommitEntries(entries: seq<Entry>, pending: map<string, Status>, comment: string): (r: seq<Entry>)
    ensures |r| == |entries|
    ensures forall i :: 0 <= i < |r| ==> r[i].id == entries[i].id
  {
    seq(|entries|, i requires 0 <= i < |entries| => CommitEntry(entries[i], pending, comment))
  }

  /* ---------------------------------------------------------------------- */
  /* Properties of the staging functions                                     */
  /* ---------------------------------------------------------------------- */

  /**
   * gatherPendingChanges returns one change per applied id, in the same
   * order: the first entry with that id and the staged status.
   */
  lemma {:induction false} ChangesOfApplied(entries: seq<Entry>, pending: map<string, Status>, keys: seq<string>)
    ensures var cs := Changes(entries, pending, keys);
      var ids := Filter(keys, id => IsApplied(entries, pending, id));
      |cs| == |ids| &&
      forall i :: 0 <= i < |cs| ==>
        ids[i] in pending && Find(entries, ids[i]).Some? &&
        cs[i] == Change(Find(entries, ids[i]).value, pending[ids[i]])
  {
    if keys != [] {
      var init := keys[..|keys| - 1];
      ChangesOfApplied(entries, pending, init);
      assert keys == init + [keys[|keys| - 1]];
    }
  }

  /** Every gathered change is a real one: its new status differs from the entry's. */
  lemma GatherAreRealChanges(entries: seq<Entry>, pending: Record<Status>)
    ensures var cs := Gather(entries, pending);
      |cs| == |AppliedIds(entries, pending)| &&
      forall i :: 0 <= i < |cs| ==> cs[i].entry.status != cs[i].newStatus && cs[i].entry in entries
  {
    var p := pending.values;
    ChangesOfApplied(entries, p, pending.keys);
    var cs := Gather(entries, pending);
    var ids := AppliedIds(entries, pending);
    forall i | 0 <= i < |cs|
      ensures cs[i].entry.status != cs[i].newStatus && cs[i].entry in entries
    {
      assert ids[i] in ids;
    }
  }

  /** Gathering reads the staged status of the listed keys only. */
  lemma {:induction false} ChangesCongruent(entries: seq<Entry>, p1: map<string, Status>, p2: map<string, Status>, keys: seq<string>)
    requires forall k :: k in keys ==> (k in p1 <==> k in p2) && (k in p1 ==> p1[k] == p2[k])
    ensures Changes(entries, p1, keys) == Changes(entries, p2, keys)
  {
    if keys != [] {
      ChangesCongruent(entries, p1, p2, keys[..|keys| - 1]);
    }
  }

  /** The predicate keeping the changes of entries other than `id`. */
  function NotFor(id: string): Change -> bool {
    (c: Change) => c.entry.id != id
  }

  /**
   * Restaging one id so that it is no real change any more, while every
   * other id keeps its staging, drops that id's change and keeps the others
   * in order.
   */
  lemma {:induction false} ChangesRestaged(entries: seq<Entry>, p: map<string, Status>, p': map<string, Status>,
                                            keys: seq<string>, id: string)
    requires forall k :: k != id ==> (k in p <==> k in p') && (k in p ==> p[k] == p'[k])
    requires !IsApplied(entries, p', id)
    ensures Changes(entries, p', keys) == Filter(Changes(entries, p, keys), NotFor(id))
  {
    if keys != [] {
      var init, last := keys[..|keys| - 1], keys[|keys| - 1];
      ChangesRestaged(entries, p, p', init, id);
      var before := Changes(entries, p, init);
      if IsApplied(entries, p, last) {
        var c := Change(Find(entries, last).value, p[last]);
        assert (before + [c])[..|before + [c]| - 1] == before;
      }
    }
  }

  /** Every gathered change belongs to a pending id. */
  lemma ChangesArePending(entries: seq<Entry>, p: map<string, Status>, keys: seq<string>)
    ensures forall c :: c in Changes(entries, p, keys) ==> c.entry.id in p
  {
    ChangesOfApplied(entries, p, keys);
    var cs := Changes(entries, p, keys);
    forall c | c in cs
      ensures c.entry.id in p
    {
      var i :| 0 <= i < |cs| && cs[i] == c;
    }
  }

  /**
   * stageChange of an id to the status its entry already has, or of an id no
   * entry has, removes that id's change from the dialog and keeps every
   * other change in order. For an id that was not pending yet this changes
   * nothing at all.
   */
  lemma StageNoOp(entries: seq<Entry>, pending: Record<Status>, id: string, s: Status)
    requires pending.Valid()
    requires Find(entries, id).None? || Find(entries, id).value.status == s
    ensures Gather(entries, pending.Put(id, s)) == Filter(Gather(entries, pending), NotFor(id))
    ensures id !in pending.values ==> Gather(entries, pending.Put(id, s)) == Gather(entries, pending)
  {
    var p2 := pending.Put(id, s);
    if id !in pending.values {
      assert p2.keys == pending.keys + [id];
      assert p2.keys[..|p2.keys| - 1] == pending.keys;
    }
    assert Changes(entries, p2.values, p2.keys) == Changes(entries, p2.values, pending.keys);
    ChangesRestaged(entries, pending.values, p2.values, pending.keys, id);
    if id !in pending.values {
      ChangesArePending(entries, pending.values, pending.keys);
      FilterAll(Gather(entries, pending), NotFor(id));
    }
  }

  /** `find` by id only looks at the ids: two lists with the same ids, place by place, stop at the same index. */
  lemma {:induction false} FindIndexByIds(a: seq<Entry>, b: seq<Entry>, id: string)
    requires |a| == |b| && forall i :: 0 <= i < |a| ==> a[i].id == b[i].id
    ensures FindIndex(a, id) == FindIndex(b, id)
  {
    if a != [] && a[0].id != id {
      FindIndexByIds(a[1..], b[1..], id);
    }
  }

  /** The first entry with an id sits at the same place after the map, and is mapped. */
  lemma FindCommit(entries: seq<Entry>, pending: map<string, Status>, comment: string, id: string)
    ensures var r := CommitEntries(entries, pending, comment);
      FindIndex(r, id) == FindIndex(entries, id) &&
      (FindIndex(entries, id).Some? ==> Find(r, id).value == CommitEntry(Find(entries, id).value, pending, comment))
  {
    FindIndexByIds(CommitEntries(entries, pending, comment), entries, id);
  }

  /**
   * After a commit nothing is left to apply: every id still pending either
   * has no entry or is already at its staged status. A second commit without
   * new staging therefore applies nothing and gathers nothing.
   */
  lemma CommitIdempotent(entries: seq<Entry>, pending: Record<Status>, comment: string)
    requires pending.Valid()
    ensures var applied := AppliedIds(entries, pending);
      var entries' := CommitEntries(entries, pending.values, comment);
      var pending' := DeleteAll(pending, applied);
      AppliedIds(entries', pending') == [] && Gather(entries', pending') == []
  {
    var applied := AppliedIds(entries, pending);
    var entries' := CommitEntries(entries, pending.values, comment);
    var pending' := DeleteAll(pending, applied);
    DeleteAllValues(pending, applied);
    forall id | id in pending'.keys
      ensures !IsApplied(entries', pending'.values, id)
    {
      assert id in pending.values && id !in applied;
      assert !IsApplied(entries, pending.values, id);
      FindCommit(entries, pending.values, comment, id);
    }
    var r := AppliedIds(entries', pending');
    if r != [] {
      assert r[0] in r;
    }
    ChangesOfApplied(entries', pending'.values, pending'.keys);
  }

  /* ---------------------------------------------------------------------- */
  /* The service                                                             */
  /* ---------------------------------------------------------------------- */

  class Service {
    var entries: seq<Entry>
    var selection: Record<bool>
    var pendingChanges: Record<Status>

    /** Both records are well formed and the selection only ever holds `true`. */
    predicate Valid()
      reads this
    {
      selection.Valid() && pendingChanges.Valid()
      && forall k :: k in selection.values ==> selection.values[k]
    }

    /** The seed data is left out: the service starts from a given entry list. */
    constructor (initial: seq<Entry>)
      ensures Valid()
      ensures entries == initial && selection == EmptyRecord() && pendingChanges == EmptyRecord()
    {
      entries := initial;
      selection := EmptyRecord();
      pendingChanges := EmptyRecord();
    }

    /** toggleSelect: select on true, unselect on false; no other id changes. */
    method ToggleSelect(id: string, value: bool)
      requires Valid()
      modifies this
      ensures Valid()
      ensures selection == if value then old(selection).Put(id, true) else old(selection).Delete(id)
      ensures (id in selection.values) == value
      ensures forall k :: k != id ==> (k in selection.values <==> k in old(selection).values)
      ensures entries == old(entries) && pendingChanges == old(pendingChanges)
    {
      if value {
        selection := selection.Put(id, true);
      } else {
        selection := selection.Delete(id);
      }
    }

    /** clearSelection. */
    method ClearSelection()
      requires Valid()
      modifies this
      ensures Valid()
      ensures selection == EmptyRecord() && selection.values == map[]
      ensures entries == old(entries) && pendingChanges == old(pendingChanges)
    {
      selection := EmptyRecord();
    }

    /** selectAllVisible: every given id becomes selected and nothing is unselected. */
    method SelectAllVisible(ids: seq<string>)
      requires Valid()
      modifies this
      ensures Valid()
      ensures selection == PutAll(old(selection), ids, true)
      ensures forall k :: k in selection.values <==> k in old(selection).values || k in ids
      ensures entries == old(entries) && pendingChanges == old(pendingChanges)
    {
      var i := 0;
      while i < |ids|
        invariant 0 <= i <= |ids|
        invariant Valid()
        invariant selection == PutAll(old(selection), ids[..i], true)
        invariant entries == old(entries) && pendingChanges == old(pendingChanges)
      {
        assert ids[..i + 1][..i] == ids[..i];
        selection := selection.Put(ids[i], true);
        i := i + 1;
      }
      assert ids[..i] == ids;
      PutAllValues(old(selection), ids, true);
    }

    /** selectedIds: the selected ids in Object.keys order. */
    function SelectedIds(): (r: seq<string>)
      requires Valid()
      reads this
      ensures forall k :: k in r <==> k in selection.values && selection.values[k]
      ensures Distinct(r)
      ensures r == selection.keys
    {
      var sel := selection;
      FilterKeepsDistinct(sel.keys, k => k in sel.values && sel.values[k]);
      FilterAll(sel.keys, k => k in sel.values && sel.values[k]);
      Filter(sel.keys, k => k in sel.values && sel.values[k])
    }

    /** stageChange: the last status staged for an id wins. */
    method StageChange(id: string, status: Status)
      requires Valid()
      modifies this
      ensures Valid()
      ensures pendingChanges == old(pendingChanges).Put(id, status)
      ensures pendingChanges.values == old(pendingChanges).values[id := status]
      ensures entries == old(entries) && selection == old(selection)
    {
      pendingChanges := pendingChanges.Put(id, status);
    }

    /** stageBulkChange: every given id is staged to the status; other stagings stay. */
    method StageBulkChange(ids: seq<string>, status: Status)
      requires Valid()
      modifies this
      ensures Valid()
      ensures pendingChanges == PutAll(old(pendingChanges), ids, status)
      ensures forall k :: k in ids ==> k in pendingChanges.values && pendingChanges.values[k] == status
      ensures forall k :: k in old(pendingChanges).values && k !in ids ==>
        k in pendingChanges.values && pendingChanges.values[k] == old(pendingChanges).values[k]
      ensures entries == old(entries) && selection == old(selection)
    {
      var i := 0;
      while i < |ids|
        invariant 0 <= i <= |ids|
        invariant Valid()
        invariant pendingChanges == PutAll(old(pendingChanges), ids[..i], status)
        invariant entries == old(entries) && selection == old(selection)
      {
        assert ids[..i + 1][..i] == ids[..i];
        pendingChanges := pendingChanges.Put(ids[i], status);
        i := i + 1;
      }
      assert ids[..i] == ids;
      PutAllValues(old(pendingChanges), ids, status);
    }

    /** gatherPendingChanges: the real changes among the pending ones, in key order. */
    method GatherPendingChanges() returns (changes: seq<Change>)
      requires Valid()
      ensures changes == Gather(entries, pendingChanges)
      ensures |changes| == |AppliedIds(entries, pendingChanges)|
      ensures forall i :: 0 <= i < |changes| ==> changes[i].entry.status != changes[i].newStatus
    {
      changes := [];
      var keys := pendingChanges.keys;
      var i := 0;
      while i < |keys|
        invariant 0 <= i <= |keys|
        invariant changes == Changes(entries, pendingChanges.values, keys[..i])
      {
        var id := keys[i];
        assert keys[..i + 1][..i] == keys[..i];
        var entry := Find(entries, id);
        if entry.Some? {
          var newStatus := pendingChanges.values[id];
          if entry.value.status != newStatus {
            changes := changes + [Change(entry.value, newStatus)];
          }
        }
        i := i + 1;
      }
      assert keys[..i] == keys;
      GatherAreRealChanges(entries, pendingChanges);
    }

    /**
     * commitChanges: every entry whose staged status differs takes that
     * status and the comment; the applied ids leave both records; the result
     * is their number.
     */
    method CommitChanges(comment: string) returns (applied: int)
      requires Valid()
      modifies this
      ensures Valid()
      ensures entries == CommitEntries(old(entries), old(pendingChanges).values, comment)
      ensures pendingChanges == DeleteAll(old(pendingChanges), AppliedIds(old(entries), old(pendingChanges)))
      ensures selection == DeleteAll(old(selection), AppliedIds(old(entries), old(pendingChanges)))
      ensures applied == |AppliedIds(old(entries), old(pendingChanges))|
      ensures applied == |Gather(old(entries), old(pendingChanges))|
    {
      var updated := CommitEntries(entries, pendingChanges.values, comment);
      var appliedIds := AppliedIds(entries, pendingChanges);
      GatherAreRealChanges(entries, pendingChanges);
      var pending := DeleteEach(pendingChanges, appliedIds);
      var selected := DeleteEach(selection, appliedIds);
      DeleteAllValues(selection, appliedIds);
      pendingChanges := pending;
      selection := selected;
      entries := updated;
      applied := |appliedIds|;
    }
  }
}
