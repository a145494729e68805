/**
 * The projects page: the assigned-users list of the project form, the
 * per-project sets of selected users, the two date validators of the form,
 * the status badge, and the decision that sets the admin flag from the
 * stored current user.
 */
module Projects {
  import opened Js
  import opened Calendar
  import opened Dates
  import opened Store

  /** getStatusClass of the project list. */
  function StatusClass(status: string): (r: string)
    ensures r == "status-active" <==> LowerAscii(status) == "active"
    ensures r == "status-active" || r == "status-inactive"
  {
    if LowerAscii(status) == "active" then "status-active" else "status-inactive"
  }

  /* ---------------------------------------------------------------------- */
  /* Assigned users                                                          */
  /* ---------------------------------------------------------------------- */

  /** `values.indexOf(email)` for an email the list holds. */
  function FirstIndex(values: seq<string>, email: string): (i: nat)
    requires email in values
    ensures i < |values| && values[i] == email && email !in values[..i]
  {
    if values[0] == email then 0
    else
      var j := FirstIndex(values[1..], email);
      assert values[1..][..j] == values[1..j + 1];
      j + 1
  }

  /** `values.splice(values.indexOf(email), 1)`: the first occurrence leaves, the rest keep their order. */
  function RemoveFirst(values: seq<string>, email: string): (r: seq<string>)
    requires email in values
    ensures |r| == |values| - 1
    ensures var i := FirstIndex(values, email); r == values[..i] + values[i + 1..]
    ensures multiset(r) == multiset(values) - multiset{email}
  {
    var i := FirstIndex(values, email);
    assert values == values[..i] + [email] + values[i + 1..];
    values[..i] + values[i + 1..]
  }

  /** The new list of toggleAssigned: appended when checked and absent, removed when unchecked and present. */
  function Toggled(values: seq<string>, email: string, checked: bool): (r: seq<string>)
    ensures checked ==> email in r
    ensures checked && email in values ==> r == values
    ensures checked && email !in values ==> r == values + [email]
    ensures !checked && email !in values ==> r == values
  {
    if checked && email !in values then values + [email]
    else if !checked && email in values then RemoveFirst(values, email)
    else values
  }

  /** Removing the first occurrence from a list without duplicates removes the email altogether. */
  lemma RemoveFirstDistinct(values: seq<string>, email: string)
    requires Distinct(values) && email in values
    ensures Distinct(RemoveFirst(values, email))
    ensures email !in RemoveFirst(values, email)
    ensures forall x :: x != email ==> (x in RemoveFirst(values, email) <==> x in values)
  {
    var i := FirstIndex(values, email);
    var r := values[..i] + values[i + 1..];
    assert values == values[..i] + [email] + values[i + 1..];
    assert email !in values[i + 1..] by {
      forall k | i + 1 <= k < |values|
        ensures values[k] != email
      {
        assert values[k] != values[i];
      }
    }
    forall a, b | 0 <= a < b < |r|
      ensures r[a] != r[b]
    {
      var a', b' := if a < i then a else a + 1, if b < i then b else b + 1;
      assert r[a] == values[a'] && r[b] == values[b'];
    }
  }

  /** Appending an absent email keeps a list free of duplicates. */
  lemma AppendDistinct(values: seq<string>, email: string)
    requires Distinct(values) && email !in values
    ensures Distinct(values + [email])
  {
    var r := values + [email];
    forall a, b | 0 <= a < b < |r|
      ensures r[a] != r[b]
    {
      if b == |values| {
        assert r[a] == values[a];
      }
    }
  }

  /** Toggling keeps a list free of duplicates, and unchecking then removes the email altogether. */
  lemma ToggledDistinct(values: seq<string>, email: string, checked: bool)
    requires Distinct(values)
    ensures Distinct(Toggled(values, email, checked))
    ensures !checked ==> email !in Toggled(values, email, checked)
    ensures forall x :: x != email ==> (x in Toggled(values, email, checked) <==> x in values)
  {
    if !checked && email in values {
      RemoveFirstDistinct(values, email);
    } else if checked && email !in values {
      AppendDistinct(values, email);
    }
  }

  /** Checking an absent email and unchecking it again gives the list back. */
  lemma ToggledInverse(values: seq<string>, email: string)
    requires email !in values
    ensures Toggled(Toggled(values, email, true), email, false) == values
  {
    var r := values + [email];
    assert FirstIndex(r, email) == |values| by {
      assert r[..|values|] == values;
    }
    assert r[..|values|] == values;
  }

  /* ---------------------------------------------------------------------- */
  /* Date validators                                                         */
  /* ---------------------------------------------------------------------- */

  /** `new Date(value)` of a date input: its value is `YYYY-MM-DD` or empty. */
  function ControlDate(value: string): JsDate {
    ParseIsoDate(value)
  }

  datatype RangeError = EndDateBeforeStart | MinimumDuration

  /**
   * dateRangeValidator on whole days: the ceiling of the absolute difference
   * in milliseconds over a day is the difference in days. An Invalid Date
   * makes both comparisons false, so the group is then accepted.
   */
  function DateRange(start: JsDate, end: JsDate): (r: Option<RangeError>)
    ensures r == Some(EndDateBeforeStart) <==> start.Date? && end.Date? && end.day <= start.day
    ensures r == Some(MinimumDuration) <==> start.Date? && end.Date? && start.day < end.day < start.day + 30
    ensures r.None? <==> start == InvalidDate || end == InvalidDate || end.day >= start.day + 30
  {
    var diffDays := if start.Date? && end.Date? then Some(if end.day >= start.day then end.day - start.day else start.day - end.day) else None;
    if LessEq(end, start) then Some(EndDateBeforeStart)
    else if diffDays.Some? && diffDays.value < 30 then Some(MinimumDuration)
    else None
  }

  function DateRangeValidator(startValue: string, endValue: string): Option<RangeError> {
    DateRange(ControlDate(startValue), ControlDate(endValue))
  }

  /**
   * On the date inputs' texts of two days the group validator refuses an end
   * on or before the start and an end less than 30 days after it, and an
   * empty start or end lets the group pass.
   */
  lemma DateRangeValidatorOfTexts(a: int, b: int)
    requires 1000 <= CivilFromDays(a).year <= 9999 && 1000 <= CivilFromDays(b).year <= 9999
    ensures DateRangeValidator(IsoText(a), IsoText(b)) == Some(EndDateBeforeStart) <==> b <= a
    ensures DateRangeValidator(IsoText(a), IsoText(b)) == Some(MinimumDuration) <==> a < b < a + 30
    ensures DateRangeValidator(IsoText(a), IsoText(b)).None? <==> b >= a + 30
    ensures DateRangeValidator("", IsoText(b)).None? && DateRangeValidator(IsoText(a), "").None?
  {
    ParseIsoDateOf(a);
    ParseIsoDateOf(b);
  }

  /** A range the validator accepts stays accepted when its end moves later. */
  lemma DateRangeLaterEnd(start: int, end: int, later: int)
    requires DateRange(Date(start), Date(end)).None? && end <= later
    ensures DateRange(Date(start), Date(later)).None?
  {
  }

  datatype StartError = PastDate

  /** startDateValidator: an empty value and edit mode pass; otherwise a day before today is refused. */
  function StartDateValidator(value: string, today: int, isEdit: bool): (r: Option<StartError>)
    ensures r.Some? <==> value != "" && !isEdit && ControlDate(value).Date? && ControlDate(value).day < today
  {
    if value == "" then None
    else
      var date := ControlDate(value);
      if isEdit then None
      else if Less(date, Date(today)) then Some(PastDate)
      else None
  }

  /** The `YYYY-MM-DD` text of a day. */
  function IsoText(z: int): string
    requires CivilFromDays(z).year >= 0
  {
    var c := CivilFromDays(z);
    NatToString(c.year) + "-" + Pad2(NatToString(c.month)) + "-" + Pad2(NatToString(c.day))
  }

  /** The date input's text of today passes a new project's start check; yesterday's is refused. */
  lemma StartDateBoundary(today: int)
    requires 1000 <= CivilFromDays(today).year <= 9999 && 1000 <= CivilFromDays(today - 1).year <= 9999
    ensures StartDateValidator(IsoText(today), today, false).None?
    ensures StartDateValidator(IsoText(today - 1), today, false) == Some(PastDate)
  {
    ParseIsoDateOf(today);
    ParseIsoDateOf(today - 1);
    NatToStringLength(CivilFromDays(today).year);
    NatToStringLength(CivilFromDays(today - 1).year);
  }

  /* ---------------------------------------------------------------------- */
  /* The admin flag                                                          */
  /* ---------------------------------------------------------------------- */

  /** A parsed JSON value. Numbers are integers here. */
  datatype Json =
    | JNull
    | JBool(b: bool)
    | JNumber(n: int)
    | JString(s: string)
    | JArray(items: seq<Json>)
    | JObject(fields: map<string, Json>)

  /** JavaScript truthiness of a JSON value. */
  predicate Truthy(v: Json) {
    match v
    case JNull => false
    case JBool(b) => b
    case JNumber(n) => n != 0
    case JString(s) => s != ""
    case JArray(_) => true
    case JObject(_) => true
  }

  /** `value.key`: a property of an object; undefined for a missing key and for non-objects. */
  function Get(v: Json, key: string): Option<Json> {
    if v.JObject? && key in v.fields then Some(v.fields[key]) else None
  }

  /** `String(value)`: arrays join their items with commas, null items giving the empty text. */
  function StringOf(v: Json): string {
    match v
    case JNull => "null"
    case JBool(b) => if b then "true" else "false"
    case JNumber(n) => IntToString(n)
    case JString(s) => s
    case JArray(items) => JoinItems(items)
    case JObject(_) => "[object Object]"
  }

  function JoinItems(items: seq<Json>): string
    decreases items
  {
    if items == [] then ""
    else
      var last := items[|items| - 1];
      var text := if last.JNull? then "" else StringOf(last);
      if |items| == 1 then text else JoinItems(items[..|items| - 1]) + "," + text
  }

  /** `cu.roles.map(r => String(r).toLowerCase()).includes('admin')`. */
  predicate HasAdminRole(roles: seq<Json>) {
    exists i :: 0 <= i < |roles| && LowerAscii(StringOf(roles[i])) == "admin"
  }

  /**
   * initAdminFlag: a value that could not be parsed clears the flag; a falsy
   * value leaves it alone; otherwise a string `role` decides, else a `roles`
   * array, else the truthiness of `isAdmin`.
   */
  function AdminFlag(parsed: Option<Json>, prior: bool): bool {
    match parsed
    case None => false
    case Some(cu) =>
      if !Truthy(cu) then prior
      else match Get(cu, "role")
        case Some(JString(role)) => LowerAscii(role) == "admin"
        case _ =>
          match Get(cu, "roles")
          case Some(JArray(roles)) => HasAdminRole(roles)
          case _ => Get(cu, "isAdmin").Some? && Truthy(Get(cu, "isAdmin").value)
  }

  /** A string role decides alone: two records with the same role get the same flag, whatever else they hold. */
  lemma RoleDecides(f: map<string, Json>, g: map<string, Json>, role: string, p: bool, q: bool)
    requires "role" in f && "role" in g && f["role"] == JString(role) && g["role"] == JString(role)
    ensures AdminFlag(Some(JObject(f)), p) == AdminFlag(Some(JObject(g)), q)
    ensures AdminFlag(Some(JObject(f)), p) <==> LowerAscii(role) == "admin"
  {
  }

  /** LowerAscii changes nothing twice. */
  lemma {:induction false} LowerAsciiIdempotent(s: string)
    ensures LowerAscii(LowerAscii(s)) == LowerAscii(s)
  {
    var l := LowerAscii(s);
    assert forall i :: 0 <= i < |l| ==> !('A' <= l[i] <= 'Z');
  }

  /** The role test ignores case: a role and its lower-case form give the same flag. */
  lemma RoleCaseInsensitive(role: string, prior: bool)
    ensures AdminFlag(Some(JObject(map["role" := JString(role)])), prior)
      == AdminFlag(Some(JObject(map["role" := JString(LowerAscii(role))])), prior)
  {
    LowerAsciiIdempotent(role);
  }

  /**
   * Without a string role, a roles array decides: the flag is set exactly
   * when some item's text is admin in any case, whatever the prior flag.
   */
  lemma RolesArrayAdmin(f: map<string, Json>, rs: seq<Json>, prior: bool)
    requires !("role" in f && f["role"].JString?) && "roles" in f && f["roles"] == JArray(rs)
    ensures AdminFlag(Some(JObject(f)), prior) <==> exists i :: 0 <= i < |rs| && LowerAscii(StringOf(rs[i])) == "admin"
  {
  }

  /** An `ADMIN` nested one level inside the roles array counts, since String joins the inner array. */
  lemma NestedRoleAdmin(f: map<string, Json>, prior: bool)
    requires "role" !in f && "roles" in f && f["roles"] == JArray([JString("Viewer"), JArray([JString("ADMIN")])])
    ensures AdminFlag(Some(JObject(f)), prior)
  {
    var roles := [JString("Viewer"), JArray([JString("ADMIN")])];
    assert StringOf(roles[1]) == "ADMIN";
    AdminSpellings();
  }

  /** The flag the constructor sets: the parsed user's `role` is the string `Admin`. */
  predicate ConstructorAdmin(user: Json)
  {
    Get(user, "role") == Some(JString("Admin"))
  }

  /** ngOnInit's initAdminFlag keeps a flag the constructor set. */
  lemma ConstructorFlagAgrees(user: Json, prior: bool)
    ensures ConstructorAdmin(user) ==> AdminFlag(Some(user), prior)
  {
    if ConstructorAdmin(user) {
      assert user.JObject? && Truthy(user);
      AdminSpellings();
    }
  }

  /** initAdminFlag also grants the flag to a lower-case `admin` role, which the constructor refuses. */
  lemma ConstructorFlagNarrower(prior: bool)
    ensures var u := JObject(map["role" := JString("admin")]);
      !ConstructorAdmin(u) && AdminFlag(Some(u), prior)
  {
    AdminSpellings();
  }

  /** The spellings of the admin role used here, lowered. */
  lemma AdminSpellings()
    ensures LowerAscii("Admin") == "admin" && LowerAscii("admin") == "admin" && LowerAscii("ADMIN") == "admin"
  {
    LowerAsciiOf("Admin", "admin");
    LowerAsciiOf("admin", "admin");
    LowerAsciiOf("ADMIN", "admin");
  }

  /* ---------------------------------------------------------------------- */
  /* Selection of users per project                                          */
  /* ---------------------------------------------------------------------- */

  /** `projects.find(p => String(p.id) === String(projectId))`. */
  function FindProject(projects: seq<Project>, pid: string): (r: Option<Project>)
    ensures r.Some? ==> r.value in projects && r.value.id == pid
    ensures r.Some? ==>
      exists k :: 0 <= k < |projects| && projects[k] == r.value && forall j :: 0 <= j < k ==> projects[j].id != pid
    ensures r.None? <==> forall p :: p in projects ==> p.id != pid
  {
    if projects == [] then None
    else if projects[0].id == pid then Some(projects[0])
    else FindProject(projects[1..], pid)
  }

  /** The set of a project, an absent one read as empty. */
  function SetOf(selected: map<string, set<string>>, pid: string): set<string> {
    if pid in selected then selected[pid] else {}
  }

  /** What the checked branch of toggleSelectAll adds, as written: `String(u.id)` of a string is "undefined". */
  function SelectAllAsWritten(s: set<string>, users: seq<string>): (r: set<string>)
    ensures users != [] ==> r == s + {"undefined"}
    ensures users == [] ==> r == s
  {
    if users == [] then s else SelectAllAsWritten(s, users[..|users| - 1]) + {"undefined"}
  }

  /** The checked branch as intended: every assigned user joins the set. */
  function SelectAll(s: set<string>, users: seq<string>): (r: set<string>)
    ensures forall u :: u in r <==> u in s || u in users
  {
    if users == [] then s else SelectAll(s, users[..|users| - 1]) + {users[|users| - 1]}
  }

  /** areAllUsersSelected. */
  predicate AllSelected(projects: seq<Project>, selected: map<string, set<string>>, pid: string) {
    var p := FindProject(projects, pid);
    p.Some? && pid in selected && |selected[pid]| == |p.value.assignedUsers|
  }

  /**
   * The selection `toggleSelectAll` leaves, as written, does not count as all
   * selected once a project has two assigned users: the set holds only
   * "undefined".
   */
  lemma SelectAllAsWrittenNotAll(projects: seq<Project>, pid: string, p: Project)
    requires FindProject(projects, pid) == Some(p) && |p.assignedUsers| >= 2
    ensures !AllSelected(projects, map[pid := SelectAllAsWritten({}, p.assignedUsers)], pid)
  {
    assert SelectAllAsWritten({}, p.assignedUsers) == {"undefined"};
  }

  /**
   * With the intended set, selecting all the users of a project whose list
   * holds no duplicates, starting from a set of some of its users, makes
   * areAllUsersSelected true.
   */
  lemma SelectAllMakesAll(projects: seq<Project>, selected: map<string, set<string>>, pid: string, p: Project)
    requires FindProject(projects, pid) == Some(p) && Distinct(p.assignedUsers)
    requires forall u :: u in SetOf(selected, pid) ==> u in p.assignedUsers
    ensures AllSelected(projects, selected[pid := SelectAll(SetOf(selected, pid), p.assignedUsers)], pid)
  {
    var r := SelectAll(SetOf(selected, pid), p.assignedUsers);
    DistinctCard(p.assignedUsers);
    assert r == set u | u in p.assignedUsers;
  }

  /* ---------------------------------------------------------------------- */
  /* The page                                                                */
  /* ---------------------------------------------------------------------- */

  class ProjectsPage {
    var projects: seq<Project>
    /** The value of the form's assignedUsers control. */
    var assignedUsers: seq<string>
    var selectedUsers: map<string, set<string>>
    var isAdmin: bool

    /**
     * The state after the page is built for the loaded projects and the
     * parsed stored user (`{}` when none is stored); `null.role` would throw.
     */
    constructor (loaded: seq<Project>, user: Json)
      requires user != JNull
      ensures projects == loaded && assignedUsers == [] && selectedUsers == map[]
      ensures isAdmin <==> ConstructorAdmin(user)
    {
      projects := loaded;
      assignedUsers := [];
      selectedUsers := map[];
      isAdmin := Get(user, "role") == Some(JString("Admin"));
    }

    /** isAssigned. */
    predicate IsAssigned(email: string)
      reads this
    {
      email in assignedUsers
    }

    /** toggleAssigned. */
    method ToggleAssigned(email: string, checked: bool)
      modifies this`assignedUsers
      ensures assignedUsers == Toggled(old(assignedUsers), email, checked)
      ensures checked ==> IsAssigned(email)
      ensures Distinct(old(assignedUsers)) ==> Distinct(assignedUsers) && (!checked ==> !IsAssigned(email))
    {
      var values := assignedUsers;
      if checked && email !in values {
        values := values + [email];
      } else if !checked && email in values {
        var idx := FirstIndex(values, email);
        values := values[..idx] + values[idx + 1..];
      }
      if Distinct(assignedUsers) {
        ToggledDistinct(assignedUsers, email, checked);
      }
      assignedUsers := values;
    }

    /** ensureProjectSet: an absent project gets an empty set. */
    method EnsureProjectSet(pid: string) returns (s: set<string>)
      modifies this`selectedUsers
      ensures pid in selectedUsers && s == selectedUsers[pid] && s == SetOf(old(selectedUsers), pid)
      ensures selectedUsers == old(selectedUsers)[pid := SetOf(old(selectedUsers), pid)]
    {
      if pid !in selectedUsers {
        selectedUsers := selectedUsers[pid := {}];
      }
      s := selectedUsers[pid];
    }

    /** isUserSelected. */
    predicate IsUserSelected(pid: string, uid: string)
      reads this
    {
      pid in selectedUsers && uid in selectedUsers[pid]
    }

    /** toggleUserSelection: one id joins or leaves that project's set; other projects are untouched. */
    method ToggleUserSelection(pid: string, uid: string, checked: bool)
      modifies this`selectedUsers
      ensures selectedUsers == old(selectedUsers)[pid :=
        if checked then SetOf(old(selectedUsers), pid) + {uid} else SetOf(old(selectedUsers), pid) - {uid}]
      ensures IsUserSelected(pid, uid) <==> checked
      ensures checked ==> HasSelection(pid)
    {
      var s := EnsureProjectSet(pid);
      if checked {
        selectedUsers := selectedUsers[pid := s + {uid}];
      } else {
        selectedUsers := selectedUsers[pid := s - {uid}];
      }
    }

    /**
     * toggleSelectAll as written: an unknown project changes nothing;
     * unchecked gives the project an empty set; checked adds `String(u.id)`
     * of every assigned user, which for an email string is "undefined".
     */
    method ToggleSelectAll(pid: string, checked: bool)
      modifies this`selectedUsers
      ensures FindProject(projects, pid).None? ==> selectedUsers == old(selectedUsers)
      ensures FindProject(projects, pid).Some? ==> selectedUsers == old(selectedUsers)[pid :=
        if checked then SelectAllAsWritten(SetOf(old(selectedUsers), pid), FindProject(projects, pid).value.assignedUsers)
        else {}]
      ensures FindProject(projects, pid).Some? && !checked ==> !HasSelection(pid)
    {
      var project := FindProject(projects, pid);
      if project.None? {
        return;
      }
      var s := EnsureProjectSet(pid);
      if checked {
        var users := project.value.assignedUsers;
        var i := 0;
        while i < |users|
          invariant 0 <= i <= |users|
          invariant s == SelectAllAsWritten(SetOf(old(selectedUsers), pid), users[..i])
          invariant selectedUsers == old(selectedUsers)[pid := SetOf(old(selectedUsers), pid)]
        {
          assert users[..i + 1][..i] == users[..i];
          s := s + {"undefined"};
          i := i + 1;
        }
        assert users[..|users|] == users;
        selectedUsers := selectedUsers[pid := s];
      } else {
        selectedUsers := selectedUsers[pid := {}];
      }
    }

    /** areAllUsersSelected. */
    predicate AreAllUsersSelected(pid: string)
      reads this
    {
      AllSelected(projects, selectedUsers, pid)
    }

    /** hasSelection: the project has a set and it is not empty. */
    predicate HasSelection(pid: string)
      reads this
    {
      pid in selectedUsers && |selectedUsers[pid]| > 0
    }

    /** initAdminFlag, given the parse of the stored current user (None when parsing threw). */
    method InitAdminFlag(parsed: Option<Json>)
      modifies this`isAdmin
      ensures isAdmin == AdminFlag(parsed, old(isAdmin))
    {
      match parsed
      case None =>
        isAdmin := false;
      case Some(cu) =>
        if Truthy(cu) {
          match Get(cu, "role")
          case Some(JString(role)) =>
            isAdmin := LowerAscii(role) == "admin";
          case _ =>
            match Get(cu, "roles")
            case Some(JArray(roles)) =>
              isAdmin := HasAdminRole(roles);
            case _ =>
              isAdmin := Get(cu, "isAdmin").Some? && Truthy(Get(cu, "isAdmin").value);
        }
    }
  }
}
