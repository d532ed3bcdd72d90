/** MemberDetailDialogComponent: the dialog showing one member, its
    students (for a teacher) and its publications, events and tools, with
    the bookkeeping of assigning and removing students. */
module MemberDetail {
  import opened Js
  import opened Effects
  import opened Refs
  import MemberService
  import Reconcile

  // ---------------------------------------------------------------------
  // Change notifications

  /** The `type` a change notification carries. */
  function KindName(kind: Kind): string {
    match kind
    case Pub => "pub"
    case Evt => "evt"
    case Outil => "outil"
  }

  /** The object published by `rs.emit({type, memberIds})` for an `Emit`. */
  function ChangeEvent(kind: Kind, ids: seq<Number>): JsVal {
    Obj(map["type" := Str(KindName(kind)),
            "memberIds" := Arr(seq(|ids|, k requires 0 <= k < |ids| => Num(ids[k])))])
  }

  /** The dialog reloads on a change whose `memberIds` contain
      `Number(member.id)` (by `indexOf`, so strictly); a falsy change, a
      change without ids, or a dialog without a member is ignored. */
  predicate Reloads(member: JsVal, ch: JsVal) {
    && Truthy(ch) && Truthy(Get(ch, "memberIds")) && Truthy(member)
    && exists k :: 0 <= k < |Items(Get(ch, "memberIds"))|
         && StrictEq(Items(Get(ch, "memberIds"))[k], Num(ToNumber(Get(member, "id"))))
  }

  /** A member's dialog reloads on a notification exactly when the
      notification names the member's (numeric) id. */
  lemma ReloadsOnNotification(member: JsVal, kind: Kind, ids: seq<Number>)
    requires Truthy(member)
    ensures Reloads(member, ChangeEvent(kind, ids)) <==>
      ToNumber(Get(member, "id")).Int? && ToNumber(Get(member, "id")) in ids
  {
    var n := ToNumber(Get(member, "id"));
    var items := Items(Get(ChangeEvent(kind, ids), "memberIds"));
    assert |items| == |ids| && forall k :: 0 <= k < |ids| ==> items[k] == Num(ids[k]);
    if n.Int? && n in ids {
      var k :| 0 <= k < |ids| && ids[k] == n;
      assert StrictEq(items[k], Num(n));
    }
  }

  /** After an edit, the open dialog of a member with an integer id reloads
      exactly when that member was added to or removed from the resource. */
  lemma EditReloadsChangedMembers(member: JsVal, kind: Kind, i: int, original: seq<Number>, updated: seq<Number>)
    requires Truthy(member) && ToNumber(Get(member, "id")) == Int(i)
    ensures Reloads(member, ChangeEvent(kind, Reconcile.Notify(original, updated))) <==>
      (Int(i) in original) != (Int(i) in updated)
  {
    ReloadsOnNotification(member, kind, Reconcile.Notify(original, updated));
    Reconcile.NotifySpec(original, updated);
    Reconcile.AddedRemovedSpec(original, updated, i);
  }

  // ---------------------------------------------------------------------
  // Student lists

  /** `member && dateInscription !== undefined && dateInscription !== null` */
  predicate IsStudentMember(member: JsVal) {
    Truthy(member) && !IsNullish(Get(member, "dateInscription"))
  }

  /** The dialog's role test agrees with the detail mapping's type. */
  lemma RoleMatchesDetailMapping(member: JsVal, today: string)
    requires Truthy(member)
    ensures IsStudentMember(member) <==>
      MemberService.GetMemberById(Ok(member), today).body.memberType == MemberService.STUDENT
  {
  }

  /** A student who can be assigned: enrolled (truthy `dateInscription`)
      and without a supervisor. */
  predicate Unassigned(m: JsVal) {
    Truthy(Get(m, "dateInscription")) && !Truthy(Get(m, "encadrant"))
  }

  /** The ids of the dialog's current students. */
  function StudentIds(students: seq<JsVal>): set<JsVal> {
    set s | s in students :: Get(s, "id")
  }

  /** `list.filter(Unassigned).filter(s => !existing.has(s.id))`, in list
      order. */
  function AvailableOf(list: seq<JsVal>, existing: set<JsVal>): seq<JsVal> {
    if |list| == 0 then []
    else
      var m := list[|list| - 1];
      AvailableOf(list[..|list| - 1], existing) + (if Unassigned(m) && Get(m, "id") !in existing then [m] else [])
  }

  /** The available students are exactly the unassigned students of the
      list that are not already the member's students. */
  lemma {:induction false} AvailableOfSpec(list: seq<JsVal>, existing: set<JsVal>)
    ensures forall m :: m in AvailableOf(list, existing) <==> m in list && Unassigned(m) && Get(m, "id") !in existing
  {
    if |list| > 0 {
      AvailableOfSpec(list[..|list| - 1], existing);
      assert list == list[..|list| - 1] + [list[|list| - 1]];
    }
  }

  /** `this.selectedStudentId` is truthy: set, and not the empty string. */
  predicate HasSelection(selected: Option<string>) {
    selected.Some? && selected.value != ""
  }

  /** The first entry whose `id.toString()` is `id`. */
  function FindById(xs: seq<JsVal>, id: string): (r: Option<JsVal>)
    ensures r.Some? ==> r.value in xs && ToStr(Get(r.value, "id")) == id
    ensures r.None? ==> forall x :: x in xs ==> ToStr(Get(x, "id")) != id
  {
    if |xs| == 0 then None
    else if ToStr(Get(xs[0], "id")) == id then Some(xs[0])
    else FindById(xs[1..], id)
  }

  /** `xs.filter(a => a.id.toString() !== id)`, in order. */
  function WithoutIdString(xs: seq<JsVal>, id: string): seq<JsVal> {
    if |xs| == 0 then []
    else
      WithoutIdString(xs[..|xs| - 1], id)
        + (if ToStr(Get(xs[|xs| - 1], "id")) != id then [xs[|xs| - 1]] else [])
  }

  /** `students.filter(s => s.id !== id)`, in order. */
  function WithoutId(students: seq<JsVal>, id: Number): seq<JsVal> {
    if |students| == 0 then []
    else
      WithoutId(students[..|students| - 1], id)
        + (if !StrictEq(Get(students[|students| - 1], "id"), Num(id)) then [students[|students| - 1]] else [])
  }

  /** Both filters keep exactly the entries whose id differs. */
  lemma {:induction false} WithoutSpec(xs: seq<JsVal>, idString: string, id: Number)
    ensures forall x :: x in WithoutIdString(xs, idString) <==> x in xs && ToStr(Get(x, "id")) != idString
    ensures forall x :: x in WithoutId(xs, id) <==> x in xs && !StrictEq(Get(x, "id"), Num(id))
    ensures |WithoutIdString(xs, idString)| <= |xs| && |WithoutId(xs, id)| <= |xs|
  {
    if |xs| > 0 {
      WithoutSpec(xs[..|xs| - 1], idString, id);
      assert xs == xs[..|xs| - 1] + [xs[|xs| - 1]];
    }
  }

  // ---------------------------------------------------------------------
  // Loading the member's details

  /** The supervisor id to fetch: a number or string supervisor is itself
      the id, an object gives its truthy `id`; anything else gives none. */
  function EncadrantId(enc: JsVal): Option<string> {
    if enc.Num? || enc.Str? then Some(ToStr(enc))
    else if Truthy(enc) && Truthy(Get(enc, "id")) then Some(ToStr(Get(enc, "id")))
    else None
  }

  /** The supervisor is fetched when it has a non-empty id but lacks a
      first or last name. */
  function EncadrantToFetch(member: JsVal): (r: Option<string>)
    ensures r.Some? ==> Truthy(member) && Truthy(Get(member, "encadrant")) && r.value != ""
    ensures r.Some? ==> !Truthy(Get(Get(member, "encadrant"), "nom")) || !Truthy(Get(Get(member, "encadrant"), "prenom"))
    ensures (Truthy(member) && Get(Get(member, "encadrant"), "id") == Num(Int(7))
             && !Truthy(Get(Get(member, "encadrant"), "nom"))) ==> r == Some("7")
  {
    if !Truthy(member) || !Truthy(Get(member, "encadrant")) then None
    else
      var enc := Get(member, "encadrant");
      var id := EncadrantId(enc);
      if id.Some? && id.value != "" && (!Truthy(Get(enc, "nom")) || !Truthy(Get(enc, "prenom"))) then id else None
  }

  /** One of `pubs`, `evts`, `outils` after `loadFullMember`: the backend's
      array when truthy, else []; on a failed load, the existing array or
      []. */
  function LoadedList(current: JsVal, full: Response<JsVal>, name: string): (r: JsVal)
    ensures Truthy(r)
    ensures full.Ok? && Truthy(full.body) && Truthy(Get(full.body, name)) ==> r == Get(full.body, name)
    ensures full.Ok? && !(Truthy(full.body) && Truthy(Get(full.body, name))) ==> r == Arr([])
    ensures full.Failed? && Truthy(Get(current, name)) ==> r == Get(current, name)
    ensures full.Failed? && !Truthy(Get(current, name)) ==> r == Arr([])
  {
    match full
    case Ok(f) => if Truthy(f) && Truthy(Get(f, name)) then Get(f, name) else Arr([])
    case Failed => Or(Get(current, name), Arr([]))
  }

  /** The member after `loadFullMember`; a member without a truthy id is
      not loaded. */
  function WithFullMember(member: JsVal, full: Response<JsVal>): (r: JsVal)
    ensures !Truthy(member) || !Truthy(Get(member, "id")) ==> r == member
    ensures member.Obj? && Truthy(Get(member, "id")) ==>
      && Get(r, "pubs") == LoadedList(member, full, "pubs")
      && Get(r, "evts") == LoadedList(member, full, "evts")
      && Get(r, "outils") == LoadedList(member, full, "outils")
      && forall k :: k !in {"pubs", "evts", "outils"} ==> Get(r, k) == Get(member, k)
  {
    if !Truthy(member) || !Truthy(Get(member, "id")) then member
    else
      var m1 := SetField(member, "pubs", LoadedList(member, full, "pubs"));
      var m2 := SetField(m1, "evts", LoadedList(member, full, "evts"));
      SetField(m2, "outils", LoadedList(member, full, "outils"))
  }

  // ---------------------------------------------------------------------
  // The dialog

  class MemberDetailDialog {
    var member: JsVal
    var students: seq<JsVal>
    var availableStudents: seq<JsVal>
    var selectedStudentId: Option<string>
    var showAddSection: bool
    var loadingAvailable: bool
    var encadrantLoading: bool
    var fullLoading: bool

    /** Opened with `{member, students}`; students default to []. The two
        loads the constructor starts are `EnsureEncadrantLoaded` and
        `LoadFullMember`, given their responses. */
    constructor (data: JsVal)
      ensures member == Get(data, "member")
      ensures students == Items(Or(Get(data, "students"), Arr([])))
      ensures availableStudents == [] && selectedStudentId.None? && !showAddSection
      ensures !loadingAvailable && !encadrantLoading && !fullLoading
    {
      member := Get(data, "member");
      students := Items(Or(Get(data, "students"), Arr([])));
      availableStudents := [];
      selectedStudentId := None;
      showAddSection := false;
      loadingAvailable := false;
      encadrantLoading := false;
      fullLoading := false;
    }

    predicate IsStudent()
      reads this
    {
      IsStudentMember(member)
    }

    predicate IsTeacher()
      reads this
    {
      !IsStudent()
    }

    /** Replaces a supervisor known only by id with the fetched record;
        a failed fetch leaves it as it was. */
    method EnsureEncadrantLoaded(fetched: Response<JsVal>) returns (calls: seq<Call>)
      modifies this
      ensures EncadrantToFetch(old(member)).None? ==> calls == [] && member == old(member)
      ensures EncadrantToFetch(old(member)).Some? ==> calls == [FetchMember(EncadrantToFetch(old(member)).value)]
      ensures EncadrantToFetch(old(member)).Some? && fetched.Ok? ==> member == SetField(old(member), "encadrant", fetched.body)
      ensures fetched.Failed? ==> member == old(member)
      ensures !encadrantLoading
      ensures students == old(students) && availableStudents == old(availableStudents)
      ensures selectedStudentId == old(selectedStudentId) && showAddSection == old(showAddSection)
      ensures loadingAvailable == old(loadingAvailable) && fullLoading == old(fullLoading)
    {
      var id := EncadrantToFetch(member);
      if id.None? {
        encadrantLoading := false;
        return [];
      }
      calls := [FetchMember(id.value)];
      if fetched.Ok? {
        member := SetField(member, "encadrant", fetched.body);
      }
      encadrantLoading := false;
    }

    /** `loadFullMember`. */
    method LoadFullMember(full: Response<JsVal>)
      modifies this
      ensures member == WithFullMember(old(member), full)
      ensures !fullLoading
      ensures students == old(students) && availableStudents == old(availableStudents)
      ensures selectedStudentId == old(selectedStudentId) && showAddSection == old(showAddSection)
      ensures loadingAvailable == old(loadingAvailable) && encadrantLoading == old(encadrantLoading)
    {
      if !Truthy(member) || !Truthy(Get(member, "id")) {
        fullLoading := false;
        return;
      }
      var before := member;
      member := SetField(member, "pubs", LoadedList(before, full, "pubs"));
      member := SetField(member, "evts", LoadedList(before, full, "evts"));
      member := SetField(member, "outils", LoadedList(before, full, "outils"));
      fullLoading := false;
    }

    /** The change subscription: reload the details when the change names
        this member. */
    method OnChange(ch: JsVal, full: Response<JsVal>)
      modifies this
      ensures Reloads(old(member), ch) ==> member == WithFullMember(old(member), full)
      ensures !Reloads(old(member), ch) ==> member == old(member)
      ensures students == old(students) && availableStudents == old(availableStudents)
      ensures selectedStudentId == old(selectedStudentId) && showAddSection == old(showAddSection)
    {
      if Reloads(member, ch) {
        LoadFullMember(full);
      }
    }

    /** `loadAvailableStudents`: on success the unassigned students not yet
        listed; a failure keeps the old list. A null entry in the list is
        dereferenced by the filter, so the handler stops with the list
        unchanged and the loading flag still set. */
    method LoadAvailableStudents(list: Response<JsVal>)
      modifies this
      ensures list.Ok? && !HasNullish(Items(Or(list.body, Arr([])))) ==>
        availableStudents == AvailableOf(Items(Or(list.body, Arr([]))), StudentIds(old(students))) && !loadingAvailable
      ensures list.Failed? ==> availableStudents == old(availableStudents) && !loadingAvailable
      ensures list.Ok? && HasNullish(Items(Or(list.body, Arr([])))) ==>
        availableStudents == old(availableStudents) && loadingAvailable
      ensures member == old(member) && students == old(students)
      ensures selectedStudentId == old(selectedStudentId) && showAddSection == old(showAddSection)
    {
      loadingAvailable := true;
      if list.Failed? {
        loadingAvailable := false;
        return;
      }
      var raw := Items(Or(list.body, Arr([])));
      if HasNullish(raw) {
        return;
      }
      availableStudents := AvailableOf(raw, StudentIds(students));
      loadingAvailable := false;
    }

    /** `toggleAddStudent`: flips the section and loads the candidates only
        when it becomes shown. */
    method ToggleAddStudent(list: Response<JsVal>)
      modifies this
      ensures showAddSection == !old(showAddSection)
      ensures showAddSection && list.Ok? && !HasNullish(Items(Or(list.body, Arr([])))) ==>
        availableStudents == AvailableOf(Items(Or(list.body, Arr([]))), StudentIds(old(students)))
      ensures !showAddSection ==> availableStudents == old(availableStudents) && loadingAvailable == old(loadingAvailable)
      ensures member == old(member) && students == old(students) && selectedStudentId == old(selectedStudentId)
    {
      showAddSection := !showAddSection;
      if showAddSection {
        LoadAvailableStudents(list);
      }
    }

    /** `assignSelectedStudent`: without a selection (none, or the
        empty string, which is falsy) nothing happens.
        setEncadrant maps every failure to null, so the handler always runs:
        the selected student, found by `id.toString()`, moves from the
        candidates to the students with supervisor `{id: member.id}`, the
        selection is cleared and the section hidden. A selection that
        matches no candidate changes nothing. */
    method AssignSelectedStudent() returns (calls: seq<Call>)
      modifies this
      ensures !HasSelection(old(selectedStudentId)) ==>
        && calls == [] && students == old(students)
        && availableStudents == old(availableStudents) && selectedStudentId == old(selectedStudentId)
        && showAddSection == old(showAddSection)
      ensures HasSelection(old(selectedStudentId)) ==>
        calls == [SetSupervisor(old(selectedStudentId).value, Get(old(member), "id"))]
      ensures HasSelection(old(selectedStudentId)) && FindById(old(availableStudents), old(selectedStudentId).value).Some? ==>
        var s := FindById(old(availableStudents), old(selectedStudentId).value).value;
        && students == old(students) + [SetField(s, "encadrant", Obj(map["id" := Get(old(member), "id")]))]
        && availableStudents == WithoutIdString(old(availableStudents), old(selectedStudentId).value)
        && selectedStudentId.None? && !showAddSection
      ensures HasSelection(old(selectedStudentId)) && FindById(old(availableStudents), old(selectedStudentId).value).None? ==>
        && students == old(students) && availableStudents == old(availableStudents)
        && selectedStudentId == old(selectedStudentId) && showAddSection == old(showAddSection)
      ensures member == old(member)
    {
      if !HasSelection(selectedStudentId) {
        return [];
      }
      var selected := selectedStudentId.value;
      calls := [SetSupervisor(selected, Get(member, "id"))];
      var found := FindById(availableStudents, selected);
      if found.Some? {
        var s := SetField(found.value, "encadrant", Obj(map["id" := Get(member, "id")]));
        students := students + [s];
        availableStudents := WithoutIdString(availableStudents, selected);
        selectedStudentId := None;
        showAddSection := false;
      }
    }

    /** `removeStudent(studentId)`: removeEncadrant propagates its errors,
        so only on success are the students with that id dropped; a failure
        (an alert) changes nothing. */
    method RemoveStudent(studentId: Number, fetched: Response<JsVal>, put: Response<()>, today: string)
      returns (calls: seq<Call>)
      modifies this
      ensures calls == [ClearSupervisor(NumberToString(studentId))]
      ensures MemberService.RemoveEncadrant(NumberToString(studentId), fetched, put, today).outcome.Ok? ==>
        students == WithoutId(old(students), studentId)
      ensures MemberService.RemoveEncadrant(NumberToString(studentId), fetched, put, today).outcome.Failed? ==>
        students == old(students)
      ensures member == old(member) && availableStudents == old(availableStudents)
      ensures selectedStudentId == old(selectedStudentId) && showAddSection == old(showAddSection)
    {
      calls := [ClearSupervisor(NumberToString(studentId))];
      var update := MemberService.RemoveEncadrant(NumberToString(studentId), fetched, put, today);
      if update.outcome.Ok? {
        students := WithoutId(students, studentId);
      }
    }
  }
}
