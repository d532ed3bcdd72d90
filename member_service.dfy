/** MemberService: how backend member records are mapped for the list and
    detail views, how create/update payloads are built, how a student's
    supervisor (encadrant) is set or cleared, and how link/unlink calls
    between members and resources are issued and joined. */
module MemberService {
  import opened Js
  import opened Effects

  /** A member as the list view (`GetAllMembers`) shows it. */
  datatype ListedMember = ListedMember(
    id: JsVal, cin: JsVal, nom: JsVal, prenom: JsVal, dateNaissance: JsVal,
    photo: JsVal, cv: JsVal, email: JsVal, password: JsVal,
    memberType: string, createdDate: JsVal)

  /** A member as the detail fetch (`getMemberById`) returns it, role
      fields included. */
  datatype DetailedMember = DetailedMember(
    id: JsVal, cin: JsVal, nom: JsVal, prenom: JsVal, dateNaissance: JsVal,
    photo: JsVal, cv: JsVal, email: JsVal, password: JsVal,
    dateInscription: JsVal, diplome: JsVal, sujet: JsVal, grade: JsVal,
    etablissement: JsVal, encadrant: JsVal,
    memberType: string, createdDate: JsVal)

  const STUDENT := "etudiant"
  const TEACHER := "enseignant"

  /** `x || null` */
  function OrNull(v: JsVal): JsVal {
    Or(v, Null)
  }

  function ListMember(m: JsVal, today: string): ListedMember {
    ListedMember(
      Get(m, "id"), Get(m, "cin"), Get(m, "nom"), Get(m, "prenom"), Get(m, "dateNaissance"),
      Get(m, "photo"), Get(m, "cv"), Get(m, "email"), Get(m, "password"),
      if Get(m, "dateInscription") != Undefined then STUDENT else TEACHER,
      Or(Get(m, "dateInscription"), Str(today)))
  }

  /** `GetAllMembers()`: one listed member per backend record, in order;
      a record is a student exactly when it has a `dateInscription`
      property (even `null`); any failure yields the empty list. */
  function GetAllMembers(response: Response<seq<JsVal>>, today: string): (r: seq<ListedMember>)
    ensures response.Failed? ==> r == []
    ensures response.Ok? && HasNullish(response.body) ==> r == []
    ensures response.Ok? && !HasNullish(response.body) ==> |r| == |response.body|
    ensures response.Ok? && !HasNullish(response.body) ==> forall k :: 0 <= k < |r| ==>
      var m := response.body[k];
      && r[k].id == Get(m, "id")
      && (r[k].memberType == STUDENT <==> Get(m, "dateInscription") != Undefined)
      && (r[k].memberType == TEACHER <==> Get(m, "dateInscription") == Undefined)
      && (Truthy(Get(m, "dateInscription")) ==> r[k].createdDate == Get(m, "dateInscription"))
      && (!Truthy(Get(m, "dateInscription")) ==> r[k].createdDate == Str(today))
  {
    match response
    case Failed => []
    case Ok(list) =>
      if HasNullish(list) then [] else seq(|list|, k requires 0 <= k < |list| => ListMember(list[k], today))
  }

  function DetailMember(m: JsVal, today: string): DetailedMember {
    var di := Get(m, "dateInscription");
    DetailedMember(
      Get(m, "id"), Get(m, "cin"), Get(m, "nom"), Get(m, "prenom"), Get(m, "dateNaissance"),
      Get(m, "photo"), Get(m, "cv"), Get(m, "email"), Get(m, "password"),
      OrNull(di), OrNull(Get(m, "diplome")), OrNull(Get(m, "sujet")), OrNull(Get(m, "grade")),
      OrNull(Get(m, "etablissement")), OrNull(Get(m, "encadrant")),
      if di != Undefined && di != Null then STUDENT else TEACHER,
      Or(di, Str(today)))
  }

  /** `getMemberById(id)`: no error handling, so a failure propagates; a
      record is a student exactly when its `dateInscription` is neither
      undefined nor null; falsy role fields are normalised to null. */
  function GetMemberById(response: Response<JsVal>, today: string): (r: Response<DetailedMember>)
    ensures r.Failed? <==> response.Failed? || IsNullish(response.body)
    ensures r.Ok? ==>
      var m := response.body;
      && (r.body.memberType == STUDENT <==> !IsNullish(Get(m, "dateInscription")))
      && (r.body.memberType == TEACHER <==> IsNullish(Get(m, "dateInscription")))
      && (forall f :: f in {"dateInscription", "diplome", "sujet", "grade", "etablissement", "encadrant"} ==>
            RoleField(r.body, f) == (if Truthy(Get(m, f)) then Get(m, f) else Null))
  {
    if response.Failed? || IsNullish(response.body) then Failed else Ok(DetailMember(response.body, today))
  }

  /** The role-specific field of a detailed member, by its backend name. */
  function RoleField(d: DetailedMember, f: string): JsVal {
    if f == "dateInscription" then d.dateInscription
    else if f == "diplome" then d.diplome
    else if f == "sujet" then d.sujet
    else if f == "grade" then d.grade
    else if f == "etablissement" then d.etablissement
    else if f == "encadrant" then d.encadrant
    else Undefined
  }

  /** The list mapping and the detail mapping classify a record differently
      exactly when its `dateInscription` is present but `null`: the list calls
      it a student, the detail view a teacher. */
  lemma RoleRulesDisagreeOnlyOnNull(m: JsVal, today: string)
    ensures ListMember(m, today).memberType != DetailMember(m, today).memberType
            <==> Get(m, "dateInscription") == Null
    ensures Get(m, "dateInscription") == Null ==>
            ListMember(m, today).memberType == STUDENT && DetailMember(m, today).memberType == TEACHER
  {
  }

  // ---------------------------------------------------------------------
  // Create and update payloads

  datatype MemberPayload =
    | TeacherPayload(
        cin: JsVal, nom: JsVal, prenom: JsVal, dateNaissance: JsVal, email: JsVal,
        password: JsVal, photo: JsVal, cv: JsVal, grade: JsVal, etablissement: JsVal)
    | StudentPayload(
        cin: JsVal, nom: JsVal, prenom: JsVal, dateNaissance: JsVal, email: JsVal,
        password: JsVal, photo: JsVal, cv: JsVal, dateInscription: JsVal,
        diplome: JsVal, sujet: JsVal, encadrant: JsVal)

  datatype Verb = Post | Put

  /** One write request to the member service. */
  datatype MemberWrite = MemberWrite(verb: Verb, path: string, payload: MemberPayload)

  /** `f.type.toLowerCase() === 'enseignant'` */
  predicate IsTeacherForm(f: JsVal)
    requires Get(f, "type").Str?
  {
    ToLower(Get(f, "type").s) == TEACHER
  }

  function BuildPayload(f: JsVal, today: string): MemberPayload
    requires Get(f, "type").Str?
  {
    var dateNaissance := Or(Get(f, "dateNaissance"), Str(today));
    var email := Or(Get(f, "email"), Str(""));
    var password := Or(Get(f, "password"), Str(""));
    var photo := OrNull(Get(f, "photo"));
    var cv := Or(Get(f, "cv"), Str(""));
    if IsTeacherForm(f) then
      TeacherPayload(Get(f, "cin"), Get(f, "nom"), Get(f, "prenom"), dateNaissance, email,
                     password, photo, cv, Or(Get(f, "grade"), Str("")),
                     Or(Get(f, "etablissement"), Str("")))
    else
      StudentPayload(Get(f, "cin"), Get(f, "nom"), Get(f, "prenom"), dateNaissance, email,
                     password, photo, cv, Or(Get(f, "dateInscription"), Str(today)),
                     Or(Get(f, "diplome"), Str("")), Or(Get(f, "sujet"), Str("")),
                     OrNull(Get(f, "encadrant")))
  }

  /** A field keeps its truthy value and otherwise takes the default. */
  predicate Defaulted(given: JsVal, sent: JsVal, default: JsVal) {
    (Truthy(given) ==> sent == given) && (!Truthy(given) ==> sent == default)
  }

  /** The fields both payload shapes share: cin and names copied, missing
      strings '', photo null, birth date today. */
  predicate CommonDefaults(f: JsVal, today: string, p: MemberPayload) {
    && p.cin == Get(f, "cin") && p.nom == Get(f, "nom") && p.prenom == Get(f, "prenom")
    && Defaulted(Get(f, "dateNaissance"), p.dateNaissance, Str(today))
    && Defaulted(Get(f, "email"), p.email, Str(""))
    && Defaulted(Get(f, "password"), p.password, Str(""))
    && Defaulted(Get(f, "photo"), p.photo, Null)
    && Defaulted(Get(f, "cv"), p.cv, Str(""))
  }

  /** The student fields other than encadrant: inscription date today,
      missing diploma and subject ''. */
  predicate StudentDefaults(f: JsVal, today: string, p: MemberPayload)
    requires p.StudentPayload?
  {
    && Defaulted(Get(f, "dateInscription"), p.dateInscription, Str(today))
    && Defaulted(Get(f, "diplome"), p.diplome, Str(""))
    && Defaulted(Get(f, "sujet"), p.sujet, Str(""))
  }

  /** The defaults of both payload shapes: missing strings become '',
      photo and encadrant null, dates today. */
  predicate DefaultsApplied(f: JsVal, today: string, p: MemberPayload) {
    && CommonDefaults(f, today, p)
    && (p.TeacherPayload? ==>
          && Defaulted(Get(f, "grade"), p.grade, Str(""))
          && Defaulted(Get(f, "etablissement"), p.etablissement, Str("")))
    && (p.StudentPayload? ==>
          && StudentDefaults(f, today, p)
          && Defaulted(Get(f, "encadrant"), p.encadrant, Null))
  }

  /** `addMember(f)`: POST of the teacher payload to /membres/enseignant when
      the lower-cased type is 'enseignant', else of the student payload to
      /membres/etudiant. */
  function AddMember(f: JsVal, today: string): (r: MemberWrite)
    requires Get(f, "type").Str?
    ensures r.verb == Post
    ensures r.payload.TeacherPayload? <==> ToLower(Get(f, "type").s) == TEACHER
    ensures r.payload.TeacherPayload? ==> r.path == "/MEMBRE-SERVICE/membres/enseignant"
    ensures r.payload.StudentPayload? ==> r.path == "/MEMBRE-SERVICE/membres/etudiant"
    ensures DefaultsApplied(f, today, r.payload)
  {
    var p := BuildPayload(f, today);
    MemberWrite(Post, "/MEMBRE-SERVICE/membres/" + (if p.TeacherPayload? then TEACHER else STUDENT), p)
  }

  /** `updateMember(id, f)`: the same branching and defaults as addMember,
      as a PUT to /membres/<role>/{id}. */
  function UpdateMember(id: string, f: JsVal, today: string): (r: MemberWrite)
    requires Get(f, "type").Str?
    ensures r.verb == Put
    ensures r.payload.TeacherPayload? <==> ToLower(Get(f, "type").s) == TEACHER
    ensures r.payload.TeacherPayload? ==> r.path == "/MEMBRE-SERVICE/membres/enseignant/" + id
    ensures r.payload.StudentPayload? ==> r.path == "/MEMBRE-SERVICE/membres/etudiant/" + id
    ensures DefaultsApplied(f, today, r.payload)
  {
    var p := BuildPayload(f, today);
    MemberWrite(Put, "/MEMBRE-SERVICE/membres/" + (if p.TeacherPayload? then TEACHER else STUDENT) + "/" + id, p)
  }

  /** Create and update send the same payload for the same form. */
  lemma AddAndUpdateAgree(id: string, f: JsVal, today: string)
    requires Get(f, "type").Str?
    ensures AddMember(f, today).payload == UpdateMember(id, f, today).payload
    ensures UpdateMember(id, f, today).path == AddMember(f, today).path + "/" + id
  {
  }

  // ---------------------------------------------------------------------
  // Supervisor (encadrant) assignment

  /** The student record written back by setEncadrant/removeEncadrant: each
      field of the fetched record `s` when truthy, its default otherwise,
      and the given encadrant. */
  function SupervisorPayload(s: JsVal, encadrant: JsVal, today: string): (p: MemberPayload)
    ensures p.StudentPayload? && CommonDefaults(s, today, p) && StudentDefaults(s, today, p)
    ensures p.encadrant == encadrant
  {
    StudentPayload(
      Get(s, "cin"), Get(s, "nom"), Get(s, "prenom"), Or(Get(s, "dateNaissance"), Str(today)),
      Or(Get(s, "email"), Str("")), Or(Get(s, "password"), Str("")), OrNull(Get(s, "photo")),
      Or(Get(s, "cv"), Str("")), Or(Get(s, "dateInscription"), Str(today)),
      Or(Get(s, "diplome"), Str("")), Or(Get(s, "sujet"), Str("")), encadrant)
  }

  /** The supervisor rewrite of a student record sends the body the
      student's own update would send, with only encadrant replaced. */
  lemma SupervisorLikeStudentUpdate(id: string, s: JsVal, encadrant: JsVal, today: string)
    requires Get(s, "type").Str? && ToLower(Get(s, "type").s) != TEACHER
    ensures UpdateMember(id, s, today).payload.StudentPayload?
    ensures SupervisorPayload(s, encadrant, today) == UpdateMember(id, s, today).payload.(encadrant := encadrant)
  {
  }

  /** What one supervisor update does: the PUT it issues (none when the
      student could not be read) and the outcome its caller sees. */
  datatype SupervisorUpdate = SupervisorUpdate(write: Option<MemberWrite>, outcome: Response<()>)

  /** A student read that yields no object (`s.cin` on null throws). */
  predicate ReadFailed(fetched: Response<JsVal>) {
    fetched.Failed? || IsNullish(fetched.body)
  }

  /** `setEncadrant(studentId, teacherId)`: rewrites the student with
      encadrant `{id: teacherId}`; every failure is caught and mapped to a
      null value, so the caller always sees success. */
  function SetEncadrant(studentId: string, teacherId: JsVal, fetched: Response<JsVal>,
                       put: Response<()>, today: string): (r: SupervisorUpdate)
    ensures r.outcome.Ok?
    ensures ReadFailed(fetched) <==> r.write.None?
    ensures r.write.Some? ==>
      && r.write.value.verb == Put
      && r.write.value.path == "/MEMBRE-SERVICE/membres/etudiant/" + studentId
      && r.write.value.payload == SupervisorPayload(fetched.body, Obj(map["id" := teacherId]), today)
      && CommonDefaults(fetched.body, today, r.write.value.payload)
      && r.write.value.payload.StudentPayload?
      && StudentDefaults(fetched.body, today, r.write.value.payload)
      && r.write.value.payload.encadrant == Obj(map["id" := teacherId])
  {
    if ReadFailed(fetched) then SupervisorUpdate(None, Ok(()))
    else
      var p := SupervisorPayload(fetched.body, Obj(map["id" := teacherId]), today);
      SupervisorUpdate(Some(MemberWrite(Put, "/MEMBRE-SERVICE/membres/etudiant/" + studentId, p)), Ok(()))
  }

  /** `removeEncadrant(studentId)`: rewrites the student with encadrant
      null; it has no error handler, so a failed read or write reaches the
      caller as a failure. */
  function RemoveEncadrant(studentId: string, fetched: Response<JsVal>,
                           put: Response<()>, today: string): (r: SupervisorUpdate)
    ensures r.outcome.Ok? <==> !ReadFailed(fetched) && put.Ok?
    ensures ReadFailed(fetched) <==> r.write.None?
    ensures r.write.Some? ==>
      && r.write.value.verb == Put
      && r.write.value.path == "/MEMBRE-SERVICE/membres/etudiant/" + studentId
      && r.write.value.payload == SupervisorPayload(fetched.body, Null, today)
      && CommonDefaults(fetched.body, today, r.write.value.payload)
      && r.write.value.payload.StudentPayload?
      && StudentDefaults(fetched.body, today, r.write.value.payload)
      && r.write.value.payload.encadrant == Null
  {
    if ReadFailed(fetched) then SupervisorUpdate(None, Failed)
    else
      var p := SupervisorPayload(fetched.body, Null, today);
      SupervisorUpdate(Some(MemberWrite(Put, "/MEMBRE-SERVICE/membres/etudiant/" + studentId, p)), put)
  }

  /** Setting and clearing the supervisor write the same student record,
      differing only in the encadrant field. */
  lemma SetAndRemoveDifferOnlyInEncadrant(studentId: string, teacherId: JsVal,
                                          fetched: Response<JsVal>, put: Response<()>, today: string)
    requires !ReadFailed(fetched)
    ensures var cleared := RemoveEncadrant(studentId, fetched, put, today).write.value.payload;
            && cleared.StudentPayload?
            && SetEncadrant(studentId, teacherId, fetched, put, today).write.value.payload
               == cleared.(encadrant := Obj(map["id" := teacherId]))
  {
  }

  // ---------------------------------------------------------------------
  // Link / unlink calls and their batch join

  /** A single affect or remove call: its error is caught and mapped to a
      null value, so it always completes normally. */
  function Swallowed(raw: Response<()>): (r: Response<()>)
    ensures r.Ok?
  {
    Ok(())
  }

  /** `forkJoin(ops)`: fails as soon as one of the joined calls fails. */
  function Join(outcomes: seq<Response<()>>): (r: Response<()>)
    ensures r.Failed? <==> exists k :: 0 <= k < |outcomes| && outcomes[k].Failed?
  {
    if |outcomes| == 0 then Ok(())
    else if outcomes[|outcomes| - 1].Failed? then Failed
    else Join(outcomes[..|outcomes| - 1])
  }

  /** Joining swallowed link/unlink calls never fails, whatever the backend
      answered to each of them. */
  lemma {:induction false} SwallowedJoinNeverFails(raw: seq<Response<()>>)
    ensures Join(seq(|raw|, k requires 0 <= k < |raw| => Swallowed(raw[k]))).Ok?
  {
    var joined := seq(|raw|, k requires 0 <= k < |raw| => Swallowed(raw[k]));
    assert forall k :: 0 <= k < |joined| ==> joined[k].Ok?;
  }

  /** The batch helpers affectAuthorsToPublication, affectMembersToEvent
      and affectMembersToOutil: no call for an absent or empty list,
      otherwise one link call per id, in list order. */
  function AffectMembers(kind: Kind, resource: JsVal, ids: Option<seq<Number>>): (r: seq<Call>)
    ensures ids.None? ==> r == []
    ensures ids.Some? ==> |r| == |ids.value|
    ensures ids.Some? ==> forall k :: 0 <= k < |r| ==> r[k] == Link(kind, ids.value[k], resource)
  {
    if ids.None? || |ids.value| == 0 then [] else LinkCalls(kind, resource, ids.value)
  }
}
