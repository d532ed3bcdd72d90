/** MemberComponent: opening a member's details, and the cascading delete
    of a member, which for a teacher with students first clears their
    supervisor, then removes the teacher's publication, event and tool
    associations, and only then deletes the teacher. */
module MemberView {
  import opened Js
  import opened Effects
  import opened Refs

  // ---------------------------------------------------------------------
  // Who a teacher supervises

  /** `m.encadrant && m.encadrant.id === teacher.id` */
  predicate Supervises(teacher: JsVal, m: JsVal) {
    Truthy(Get(m, "encadrant")) && StrictEq(Get(Get(m, "encadrant"), "id"), Get(teacher, "id"))
  }

  /** `(list || [])` as an array of raw members. */
  function RawList(body: JsVal): seq<JsVal> {
    Items(Or(body, Arr([])))
  }

  /** `list.filter(m => Supervises(teacher, m))`, in list order. */
  function StudentsOf(teacher: JsVal, list: seq<JsVal>): seq<JsVal> {
    if |list| == 0 then []
    else
      StudentsOf(teacher, list[..|list| - 1])
        + (if Supervises(teacher, list[|list| - 1]) then [list[|list| - 1]] else [])
  }

  /** The teacher's students are exactly the members of the list that name
      the teacher as their supervisor, at most one per entry. */
  lemma {:induction false} StudentsOfSpec(teacher: JsVal, list: seq<JsVal>)
    ensures forall m :: m in StudentsOf(teacher, list) <==> m in list && Supervises(teacher, m)
    ensures |StudentsOf(teacher, list)| <= |list|
  {
    if |list| > 0 {
      StudentsOfSpec(teacher, list[..|list| - 1]);
      assert list == list[..|list| - 1] + [list[|list| - 1]];
    }
  }

  /** A member whose supervisor's id is NaN is nobody's student, since NaN
      is never strictly equal to anything. */
  lemma NaNSupervisorSupervisesNoOne(teacher: JsVal, list: seq<JsVal>)
    requires forall m :: m in list ==> Get(Get(m, "encadrant"), "id") == Num(NaN)
    ensures StudentsOf(teacher, list) == []
  {
    StudentsOfSpec(teacher, list);
    assert forall m :: m !in StudentsOf(teacher, list);
  }

  /** A member counts as a student when its `dateInscription` is neither
      undefined nor null; the same rule as the detail mapping. */
  predicate IsStudentRecord(m: JsVal) {
    !IsNullish(Get(m, "dateInscription"))
  }

  // ---------------------------------------------------------------------
  // Details

  /** What the detail dialog is opened with. */
  datatype DetailsData = DetailsData(member: JsVal, students: seq<JsVal>)

  /** `openDetails(id)`: nothing opens when the fetch fails or returns
      nothing, or (for a teacher) when the member list cannot be read; a
      student opens with no students, a teacher with its students. */
  function OpenDetails(fetched: Response<JsVal>, all: Response<JsVal>): (r: Option<DetailsData>)
    ensures fetched.Failed? || !Truthy(fetched.body) ==> r.None?
    ensures fetched.Ok? && Truthy(fetched.body) && IsStudentRecord(fetched.body) ==>
      r == Some(DetailsData(fetched.body, []))
    ensures r.Some? ==> fetched.Ok? && r.value.member == fetched.body
    ensures r.Some? && !IsStudentRecord(fetched.body) ==>
      all.Ok? && !HasNullish(RawList(all.body)) && r.value.students == StudentsOf(fetched.body, RawList(all.body))
    ensures fetched.Ok? && Truthy(fetched.body) && !IsStudentRecord(fetched.body) ==>
      (r.Some? <==> all.Ok? && !HasNullish(RawList(all.body)))
  {
    if fetched.Failed? || !Truthy(fetched.body) then None
    else if IsStudentRecord(fetched.body) then Some(DetailsData(fetched.body, []))
    else if all.Failed? || HasNullish(RawList(all.body)) then None
    else Some(DetailsData(fetched.body, StudentsOf(fetched.body, RawList(all.body))))
  }

  // ---------------------------------------------------------------------
  // The cascading delete

  /** How a delete ends: the delete request was issued, the user declined
      a confirmation, an error alert cancelled it, or an unhandled error
      (a failed fetch without handler, a null entry dereferenced) stopped
      it silently. */
  datatype DeleteOutcome = DeleteIssued | AbortedByUser | AbortedByError | Dropped

  /** One `removeEncadrant(String(s.id))` per student, in order. */
  function ClearCalls(students: seq<JsVal>): (r: seq<Call>)
    ensures |r| == |students|
    ensures forall k :: 0 <= k < |r| ==> r[k] == ClearSupervisor(ToStr(Get(students[k], "id")))
  {
    seq(|students|, k requires 0 <= k < |students| => ClearSupervisor(ToStr(Get(students[k], "id"))))
  }

  /** Some student's supervisor cannot be cleared. */
  predicate AnyClearFails(students: seq<JsVal>, failing: set<string>) {
    exists k :: 0 <= k < |students| && ToStr(Get(students[k], "id")) in failing
  }

  /** One unlink of `member` per resource of an association group, with the
      resource id `Number(x.id)`. */
  function GroupUnlinks(kind: Kind, member: Number, group: seq<JsVal>): (r: seq<Call>)
    ensures |r| == |group|
    ensures forall k :: 0 <= k < |r| ==> r[k] == Unlink(kind, member, Num(IdOf(group[k])))
  {
    seq(|group|, k requires 0 <= k < |group| => Unlink(kind, member, Num(IdOf(group[k]))))
  }

  /** A group is used only when the full member is truthy and the group
      is a truthy, non-empty array. */
  function Group(full: JsVal, name: string): seq<JsVal> {
    if Truthy(full) && Truthy(Get(full, name)) then Items(Get(full, name)) else []
  }

  /** The association removals a teacher's delete issues: publications,
      then `evenements` and `events` (both event associations), then
      tools. */
  function AssocUnlinks(member: Number, full: JsVal): seq<Call> {
    GroupUnlinks(Pub, member, Group(full, "publications"))
      + GroupUnlinks(Evt, member, Group(full, "evenements"))
      + GroupUnlinks(Evt, member, Group(full, "events"))
      + GroupUnlinks(Outil, member, Group(full, "outils"))
  }

  /** Building a removal dereferences every entry of a used group. */
  predicate AssocThrows(full: JsVal) {
    || HasNullish(Group(full, "publications")) || HasNullish(Group(full, "evenements"))
    || HasNullish(Group(full, "events")) || HasNullish(Group(full, "outils"))
  }

  /** Every association removal unlinks the deleted member, and the removals
      are the groups' entries, group by group. */
  lemma AssocUnlinksSpec(member: Number, full: JsVal)
    ensures forall c :: c in AssocUnlinks(member, full) ==> c.Unlink? && c.member == member
    ensures |AssocUnlinks(member, full)| ==
      |Group(full, "publications")| + |Group(full, "evenements")| + |Group(full, "events")| + |Group(full, "outils")|
    ensures !Truthy(full) ==> AssocUnlinks(member, full) == []
  {
  }

  /** One association group's `forEach(x => assocOps.push(..))`: appends one
      removal per entry to `ops`; an entry that is null or undefined throws,
      and then `ok` is false. */
  method PushGroup(kind: Kind, member: Number, full: JsVal, name: string, ops: seq<Call>)
    returns (ops': seq<Call>, ok: bool)
    ensures ok <==> !HasNullish(Group(full, name))
    ensures ok ==> ops' == ops + GroupUnlinks(kind, member, Group(full, name))
  {
    var group := Group(full, name);
    ops' := ops;
    for i := 0 to |group|
      invariant !HasNullish(group[..i])
      invariant ops' == ops + GroupUnlinks(kind, member, group[..i])
    {
      if IsNullish(group[i]) {
        assert group[..i + 1][i] == group[i];
        return ops', false;
      }
      assert group[..i + 1] == group[..i] + [group[i]];
      ops' := ops' + [Unlink(kind, member, Num(IdOf(group[i])))];
    }
    assert group[..|group|] == group;
    ok := true;
  }

  /** The four groups' `forEach` loops, in order: the removals to run, or
      `ok` false when building one of them throws. */
  method PushAssociations(member: Number, full: JsVal) returns (ops: seq<Call>, ok: bool)
    ensures ok <==> !AssocThrows(full)
    ensures ok ==> ops == AssocUnlinks(member, full)
  {
    ghost var g1 := GroupUnlinks(Pub, member, Group(full, "publications"));
    ghost var g2 := GroupUnlinks(Evt, member, Group(full, "evenements"));
    ghost var g3 := GroupUnlinks(Evt, member, Group(full, "events"));
    ghost var g4 := GroupUnlinks(Outil, member, Group(full, "outils"));
    ops, ok := PushGroup(Pub, member, full, "publications", []);
    if !ok {
      return;
    }
    assert ops == g1;
    ops, ok := PushGroup(Evt, member, full, "evenements", ops);
    if !ok {
      return;
    }
    assert ops == g1 + g2;
    ops, ok := PushGroup(Evt, member, full, "events", ops);
    if !ok {
      return;
    }
    assert ops == g1 + g2 + g3;
    ops, ok := PushGroup(Outil, member, full, "outils", ops);
    assert ok ==> ops == g1 + g2 + g3 + g4;
  }

  /** How one delete ran: the calls issued, in order, how it ended, and the
      student count shown in the second confirmation, if it was asked. */
  datatype DeleteRun = DeleteRun(calls: seq<Call>, outcome: DeleteOutcome, prompt: Option<nat>)

  /** The teacher part of the delete, after the member list was read and
      the students found: the calls that follow `FetchAllMembers`. */
  function TeacherRun(id: string, students: seq<JsVal>, proceed: bool, failing: set<string>,
                      full: Response<JsVal>): DeleteRun
  {
    if |students| == 0 then DeleteRun([DeleteMember(id)], DeleteIssued, None)
    else if !proceed then DeleteRun([], AbortedByUser, Some(|students|))
    else if AnyClearFails(students, failing) then DeleteRun(ClearCalls(students), AbortedByError, Some(|students|))
    else if full.Failed? then DeleteRun(ClearCalls(students) + [FetchFullMember(id)], AbortedByError, Some(|students|))
    else if AssocThrows(full.body) then DeleteRun(ClearCalls(students) + [FetchFullMember(id)], Dropped, Some(|students|))
    else
      // The removals swallow their errors, so their join always completes
      // and the delete follows.
      DeleteRun(ClearCalls(students) + [FetchFullMember(id)] + AssocUnlinks(ToNumber(Str(id)), full.body)
                  + [DeleteMember(id)], DeleteIssued, Some(|students|))
  }

  /** The whole delete of member `id`, given the answers to the two
      confirmations, the backend responses, and the ids of the students
      whose supervisor cannot be cleared. */
  function CascadeDelete(id: string, confirmed: bool, fetched: Response<JsVal>, all: Response<JsVal>,
                         proceed: bool, failing: set<string>, full: Response<JsVal>): DeleteRun
  {
    if !confirmed then DeleteRun([], AbortedByUser, None)
    else if fetched.Failed? || !Truthy(fetched.body) || IsStudentRecord(fetched.body) then
      DeleteRun([FetchMember(id), DeleteMember(id)], DeleteIssued, None)
    else if all.Failed? || HasNullish(RawList(all.body)) then
      DeleteRun([FetchMember(id), FetchAllMembers], Dropped, None)
    else
      var run := TeacherRun(id, StudentsOf(fetched.body, RawList(all.body)), proceed, failing, full);
      run.(calls := [FetchMember(id), FetchAllMembers] + run.calls)
  }

  /** The students a teacher's delete finds. */
  function Supervisees(fetched: Response<JsVal>, all: Response<JsVal>): seq<JsVal> {
    if fetched.Ok? && all.Ok? then StudentsOf(fetched.body, RawList(all.body)) else []
  }

  /** `delete(id)`: the imperative handler chain, proved to run as
      `CascadeDelete` says. */
  method Delete(id: string, confirmed: bool, fetched: Response<JsVal>, all: Response<JsVal>,
                proceed: bool, failing: set<string>, full: Response<JsVal>)
    returns (calls: seq<Call>, outcome: DeleteOutcome, prompt: Option<nat>)
    ensures DeleteRun(calls, outcome, prompt) == CascadeDelete(id, confirmed, fetched, all, proceed, failing, full)
  {
    if !confirmed {
      return [], AbortedByUser, None;
    }
    if fetched.Failed? || !Truthy(fetched.body) || IsStudentRecord(fetched.body) {
      return [FetchMember(id), DeleteMember(id)], DeleteIssued, None;
    }
    var prefix := [FetchMember(id), FetchAllMembers];
    if all.Failed? || HasNullish(RawList(all.body)) {
      return prefix, Dropped, None;
    }
    var students := StudentsOf(fetched.body, RawList(all.body));
    if |students| == 0 {
      return prefix + [DeleteMember(id)], DeleteIssued, None;
    }
    prompt := Some(|students|);
    if !proceed {
      return prefix + [], AbortedByUser, prompt;
    }
    var tail := ClearCalls(students);
    if AnyClearFails(students, failing) {
      return prefix + tail, AbortedByError, prompt;
    }
    tail := tail + [FetchFullMember(id)];
    if full.Failed? {
      return prefix + tail, AbortedByError, prompt;
    }
    var ops, ok := PushAssociations(ToNumber(Str(id)), full.body);
    if !ok {
      return prefix + tail, Dropped, prompt;
    }
    tail := tail + ops + [DeleteMember(id)];
    calls, outcome := prefix + tail, DeleteIssued;
  }

  // ---------------------------------------------------------------------
  // What the delete guarantees

  /** Declining the first confirmation issues nothing; a member that cannot
      be read, or that is a student, is deleted directly; an unreadable
      member list stops the delete silently; a teacher without students is
      deleted without a second confirmation. */
  lemma DeleteShortPaths(id: string, confirmed: bool, fetched: Response<JsVal>, all: Response<JsVal>,
                         proceed: bool, failing: set<string>, full: Response<JsVal>)
    ensures var run := CascadeDelete(id, confirmed, fetched, all, proceed, failing, full);
      && (!confirmed ==> run == DeleteRun([], AbortedByUser, None))
      && (confirmed && (fetched.Failed? || !Truthy(fetched.body) || IsStudentRecord(fetched.body)) ==>
            run == DeleteRun([FetchMember(id), DeleteMember(id)], DeleteIssued, None))
      && (confirmed && fetched.Ok? && Truthy(fetched.body) && !IsStudentRecord(fetched.body)
          && (all.Failed? || HasNullish(RawList(all.body))) ==>
            run == DeleteRun([FetchMember(id), FetchAllMembers], Dropped, None))
      && (confirmed && fetched.Ok? && Truthy(fetched.body) && !IsStudentRecord(fetched.body)
          && all.Ok? && !HasNullish(RawList(all.body)) && |Supervisees(fetched, all)| == 0 ==>
            run == DeleteRun([FetchMember(id), FetchAllMembers, DeleteMember(id)], DeleteIssued, None))
  {
  }

  /** The second confirmation is asked only for a teacher with students and
      shows their number; declining it stops the delete before any
      supervisor is cleared. */
  lemma DeletePrompt(id: string, confirmed: bool, fetched: Response<JsVal>, all: Response<JsVal>,
                     proceed: bool, failing: set<string>, full: Response<JsVal>)
    ensures var run := CascadeDelete(id, confirmed, fetched, all, proceed, failing, full);
      && (run.prompt.Some? <==>
            confirmed && fetched.Ok? && Truthy(fetched.body) && !IsStudentRecord(fetched.body)
            && all.Ok? && !HasNullish(RawList(all.body)) && |Supervisees(fetched, all)| > 0)
      && (run.prompt.Some? ==> run.prompt.value == |Supervisees(fetched, all)|)
      && (run.prompt.Some? && !proceed ==>
            run.calls == [FetchMember(id), FetchAllMembers] && run.outcome == AbortedByUser)
      && (forall c :: c in run.calls && c.ClearSupervisor? ==> run.prompt.Some? && proceed)
  {
    ClearCallsOnlyClear(Supervisees(fetched, all));
    var run := CascadeDelete(id, confirmed, fetched, all, proceed, failing, full);
    if run.prompt.None? || !proceed {
      assert forall c :: c in run.calls ==> !c.ClearSupervisor?;
    }
  }

  /** After the second confirmation, every student's supervisor is cleared
      first; if any clear fails, the delete is cancelled with an alert and
      neither the associations nor the teacher are touched. */
  lemma ClearFailureCancels(id: string, fetched: Response<JsVal>, all: Response<JsVal>,
                            failing: set<string>, full: Response<JsVal>)
    requires CascadeDelete(id, true, fetched, all, true, failing, full).prompt.Some?
    requires AnyClearFails(Supervisees(fetched, all), failing)
    ensures var run := CascadeDelete(id, true, fetched, all, true, failing, full);
      && run.outcome == AbortedByError
      && run.calls == [FetchMember(id), FetchAllMembers] + ClearCalls(Supervisees(fetched, all))
      && DeleteMember(id) !in run.calls
      && forall c :: c in run.calls ==> !c.Unlink?
  {
    DeleteTraceShape(id, Supervisees(fetched, all), Null);
  }

  /** A deleted teacher with students: the list read, one clear per
      student, the full member read, its publication, event and tool
      removals, and the delete, in that order. */
  lemma TeacherDeleteTrace(id: string, fetched: Response<JsVal>, all: Response<JsVal>,
                           proceed: bool, failing: set<string>, full: Response<JsVal>)
    requires CascadeDelete(id, true, fetched, all, proceed, failing, full).prompt.Some?
    requires CascadeDelete(id, true, fetched, all, proceed, failing, full).outcome == DeleteIssued
    ensures proceed && !AnyClearFails(Supervisees(fetched, all), failing) && full.Ok? && !AssocThrows(full.body)
    ensures CascadeDelete(id, true, fetched, all, proceed, failing, full).calls
         == [FetchMember(id), FetchAllMembers] + ClearCalls(Supervisees(fetched, all)) + [FetchFullMember(id)]
            + AssocUnlinks(ToNumber(Str(id)), full.body) + [DeleteMember(id)]
  {
    CascadeIsTeacherRun(id, true, fetched, all, proceed, failing, full);
    TeacherRunIssued(id, Supervisees(fetched, all), proceed, failing, full);
    ConcatRegroup([FetchMember(id), FetchAllMembers], ClearCalls(Supervisees(fetched, all)), [FetchFullMember(id)],
                  AssocUnlinks(ToNumber(Str(id)), full.body), [DeleteMember(id)]);
  }

  lemma ConcatRegroup(p: seq<Call>, c: seq<Call>, f: seq<Call>, a: seq<Call>, d: seq<Call>)
    ensures p + (c + f + a + d) == p + c + f + a + d
  {
  }

  /** A teacher run that deletes went through every step. */
  lemma TeacherRunIssued(id: string, students: seq<JsVal>, proceed: bool, failing: set<string>,
                         full: Response<JsVal>)
    requires TeacherRun(id, students, proceed, failing, full).prompt.Some?
    requires TeacherRun(id, students, proceed, failing, full).outcome == DeleteIssued
    ensures proceed && !AnyClearFails(students, failing) && full.Ok? && !AssocThrows(full.body)
    ensures TeacherRun(id, students, proceed, failing, full).calls
         == ClearCalls(students) + [FetchFullMember(id)] + AssocUnlinks(ToNumber(Str(id)), full.body) + [DeleteMember(id)]
  {
  }

  /** A delete that asks the second confirmation is a teacher run after the
      two reads. */
  lemma CascadeIsTeacherRun(id: string, confirmed: bool, fetched: Response<JsVal>, all: Response<JsVal>,
                            proceed: bool, failing: set<string>, full: Response<JsVal>)
    requires CascadeDelete(id, confirmed, fetched, all, proceed, failing, full).prompt.Some?
    ensures confirmed && fetched.Ok? && all.Ok?
    ensures var t := TeacherRun(id, Supervisees(fetched, all), proceed, failing, full);
      CascadeDelete(id, confirmed, fetched, all, proceed, failing, full)
        == t.(calls := [FetchMember(id), FetchAllMembers] + t.calls)
  {
  }

  /** The delete request goes out exactly when the delete ends with
      `DeleteIssued`, once, as the last call, and every unlink is of the
      deleted member. */
  lemma DeleteRequestLast(id: string, confirmed: bool, fetched: Response<JsVal>, all: Response<JsVal>,
                          proceed: bool, failing: set<string>, full: Response<JsVal>)
    ensures var run := CascadeDelete(id, confirmed, fetched, all, proceed, failing, full);
      && (DeleteMember(id) in run.calls <==> run.outcome == DeleteIssued)
      && (run.outcome == DeleteIssued ==>
            run.calls[|run.calls| - 1] == DeleteMember(id) && DeleteMember(id) !in run.calls[..|run.calls| - 1])
      && forall c :: c in run.calls && c.Unlink? ==> c.member == ToNumber(Str(id))
  {
    if confirmed && !(fetched.Failed? || !Truthy(fetched.body) || IsStudentRecord(fetched.body))
       && !(all.Failed? || HasNullish(RawList(all.body))) {
      var t := TeacherRun(id, StudentsOf(fetched.body, RawList(all.body)), proceed, failing, full);
      var pre := [FetchMember(id), FetchAllMembers];
      assert CascadeDelete(id, confirmed, fetched, all, proceed, failing, full) == t.(calls := pre + t.calls);
      TeacherRunDeleteLast(id, StudentsOf(fetched.body, RawList(all.body)), proceed, failing, full);
      PrefixKeepsDeleteLast(id, pre, t);
    }
  }

  /** The delete-last guarantee of a run. */
  predicate DeleteLast(id: string, run: DeleteRun) {
    && (DeleteMember(id) in run.calls <==> run.outcome == DeleteIssued)
    && (run.outcome == DeleteIssued ==>
          |run.calls| > 0 && run.calls[|run.calls| - 1] == DeleteMember(id)
          && DeleteMember(id) !in run.calls[..|run.calls| - 1])
    && forall c :: c in run.calls && c.Unlink? ==> c.member == ToNumber(Str(id))
  }

  /** Reads issued before a run keep its delete-last guarantee. */
  lemma PrefixKeepsDeleteLast(id: string, pre: seq<Call>, t: DeleteRun)
    requires DeleteLast(id, t)
    requires DeleteMember(id) !in pre && forall c :: c in pre ==> !c.Unlink?
    ensures DeleteLast(id, t.(calls := pre + t.calls))
  {
    if t.outcome == DeleteIssued {
      var calls := pre + t.calls;
      assert calls[..|calls| - 1] == pre + t.calls[..|t.calls| - 1];
    }
  }

  /** The same guarantee for the teacher part of the delete. */
  lemma TeacherRunDeleteLast(id: string, students: seq<JsVal>, proceed: bool, failing: set<string>,
                             full: Response<JsVal>)
    ensures DeleteLast(id, TeacherRun(id, students, proceed, failing, full))
  {
    var run := TeacherRun(id, students, proceed, failing, full);
    var clears := ClearCalls(students);
    ClearCallsOnlyClear(students);
    if |students| == 0 {
      IssuedRunDeleteLast(id, [], run.prompt);
    } else if !proceed || AnyClearFails(students, failing) || full.Failed? || AssocThrows(full.body) {
      assert DeleteMember(id) !in clears + [FetchFullMember(id)];
      assert forall c :: c in clears + [FetchFullMember(id)] ==> !c.Unlink?;
    } else {
      DeleteTraceShape(id, students, full.body);
      var prefix := clears + [FetchFullMember(id)] + AssocUnlinks(ToNumber(Str(id)), full.body);
      assert run.calls == prefix + [DeleteMember(id)];
      IssuedRunDeleteLast(id, prefix, run.prompt);
    }
  }

  /** A run that ends with the delete after calls without one. */
  lemma IssuedRunDeleteLast(id: string, prefix: seq<Call>, prompt: Option<nat>)
    requires DeleteMember(id) !in prefix
    requires forall c :: c in prefix && c.Unlink? ==> c.member == ToNumber(Str(id))
    ensures DeleteLast(id, DeleteRun(prefix + [DeleteMember(id)], DeleteIssued, prompt))
  {
    var calls := prefix + [DeleteMember(id)];
    assert calls[..|calls| - 1] == prefix;
  }

  lemma ClearCallsOnlyClear(students: seq<JsVal>)
    ensures forall c :: c in ClearCalls(students) ==> c.ClearSupervisor?
  {
  }

  /** Neither the supervisor clears nor the association removals contain a
      delete request, and every removal unlinks the deleted member. */
  lemma DeleteTraceShape(id: string, students: seq<JsVal>, full: JsVal)
    ensures DeleteMember(id) !in ClearCalls(students) && DeleteMember(id) !in AssocUnlinks(ToNumber(Str(id)), full)
    ensures forall c :: c in ClearCalls(students) ==> !c.Unlink?
    ensures forall c :: c in AssocUnlinks(ToNumber(Str(id)), full) ==> c.Unlink? && c.member == ToNumber(Str(id))
  {
    ClearCallsOnlyClear(students);
    AssocUnlinksSpec(ToNumber(Str(id)), full);
  }
}
