/** MemberFormComponent: the create/edit form for a member. Its state is
    the form's value (one entry per control), the set of controls that
    carry a `required` validator, the teachers offered as supervisors and
    the file-selection fields. */
module MemberForm {
  import opened Js
  import opened Effects
  import MemberService

  // ---------------------------------------------------------------------
  // Validators

  /** Controls declared with `Validators.required`. */
  const BASE_REQUIRED: set<string> := {"cin", "nom", "prenom", "email", "password", "type"}
  const STUDENT_FIELDS: set<string> := {"dateInscription", "diplome"}
  const TEACHER_FIELDS: set<string> := {"grade", "etablissement"}

  /** The required set after `updateTypeValidators(type)`: 'etudiant' in
      any case requires the student fields and frees the teacher fields,
      any other string does the reverse, and a falsy type returns early. A
      truthy non-string makes `toLowerCase` throw before any change. */
  function TypeValidators(required: set<string>, t: JsVal): (r: set<string>)
    ensures !Truthy(t) || !t.Str? ==> r == required
    ensures Truthy(t) && t.Str? && ToLower(t.s) == MemberService.STUDENT ==>
      STUDENT_FIELDS <= r && r !! TEACHER_FIELDS
    ensures Truthy(t) && t.Str? && ToLower(t.s) != MemberService.STUDENT ==>
      TEACHER_FIELDS <= r && r !! STUDENT_FIELDS
    ensures forall c :: c !in STUDENT_FIELDS + TEACHER_FIELDS ==> (c in r <==> c in required)
  {
    if !Truthy(t) || !t.Str? then required
    else if ToLower(t.s) == MemberService.STUDENT then required - TEACHER_FIELDS + STUDENT_FIELDS
    else required - STUDENT_FIELDS + TEACHER_FIELDS
  }

  /** Switching the type twice leaves the validators the second type asks
      for: the earlier choice leaves no trace. */
  lemma LastTypeWins(required: set<string>, t1: JsVal, t2: JsVal)
    requires Truthy(t1) && t1.Str? && Truthy(t2) && t2.Str?
    ensures TypeValidators(TypeValidators(required, t1), t2) == TypeValidators(required, t2)
  {
  }

  /** `Validators.required` fails on null, undefined, '' and []. */
  predicate Blank(v: JsVal) {
    IsNullish(v) || v == Str("") || v == Arr([])
  }

  /** The form is valid when every required control is filled and the
      email validator accepts the address (its format check is an input). */
  predicate FormValid(value: map<string, JsVal>, required: set<string>, emailWellFormed: bool) {
    emailWellFormed && forall c :: c in required ==> !Blank(Get(Obj(value), c))
  }

  // ---------------------------------------------------------------------
  // Supervisor id

  /** The `encadrantId` control's value for a fetched `encadrant`: a number
      as is, a string through `Number` (null when NaN), an object by
      `Number(id)` when its id is truthy, anything else null. */
  function EncadrantIdOf(enc: JsVal): (r: JsVal)
    ensures r.Null? || r.Num?
    ensures IsNullish(enc) ==> r == Null
    ensures r.Num? && r.n.NaN? ==> enc.Num? || enc.Obj?
  {
    if IsNullish(enc) then Null
    else if enc.Num? then enc
    else if enc.Str? then (if ParseNumber(enc.s).NaN? then Null else Num(ParseNumber(enc.s)))
    else if Truthy(Get(enc, "id")) then Num(ToNumber(Get(enc, "id")))
    else Null
  }

  /** `raw.encadrant` from the control: `{id: Number(v)}` for a value other
      than undefined, null and '', else null. */
  function EncadrantRef(v: JsVal): (r: JsVal)
    ensures r.Null? <==> IsNullish(v) || v == Str("")
    ensures r.Obj? ==> Get(r, "id") == Num(ToNumber(v))
  {
    if IsNullish(v) || v == Str("") then Null else Obj(map["id" := Num(ToNumber(v))])
  }

  /** The supervisor a member is loaded with is the one the form sends back
      unchanged: an object keeps its (numeric) id, a number or numeric
      string becomes `{id: n}`, and absent or non-numeric ones become null. */
  lemma EncadrantRoundTrip(enc: JsVal)
    ensures IsNullish(enc) ==> EncadrantRef(EncadrantIdOf(enc)) == Null
    ensures enc.Num? ==> EncadrantRef(EncadrantIdOf(enc)) == Obj(map["id" := enc])
    ensures enc.Str? && ParseNumber(enc.s).Int? ==>
      EncadrantRef(EncadrantIdOf(enc)) == Obj(map["id" := Num(ParseNumber(enc.s))])
    ensures enc.Str? && ParseNumber(enc.s).NaN? ==> EncadrantRef(EncadrantIdOf(enc)) == Null
    ensures enc.Obj? && Truthy(Get(enc, "id")) ==>
      EncadrantRef(EncadrantIdOf(enc)) == Obj(map["id" := Num(ToNumber(Get(enc, "id")))])
    ensures enc.Obj? && !Truthy(Get(enc, "id")) ==> EncadrantRef(EncadrantIdOf(enc)) == Null
  {
  }

  // ---------------------------------------------------------------------
  // Form values

  /** The value after construction: every control null, type 'etudiant'. */
  function InitialValue(): map<string, JsVal> {
    map["cin" := Null, "nom" := Null, "prenom" := Null, "dateNaissance" := Null,
        "email" := Null, "password" := Null, "type" := Str(MemberService.STUDENT),
        "photo" := Null, "cv" := Null, "dateInscription" := Null, "diplome" := Null,
        "encadrantId" := Null, "grade" := Null, "etablissement" := Null]
  }

  /** The controls `patchValue` sets from the fetched member: the fields as
      fetched, the role fields `|| null`, and the normalised supervisor id.
      They are the form's own controls, so there is none for `sujet`. */
  function Patch(a: MemberService.DetailedMember): (p: map<string, JsVal>)
    ensures p.Keys == InitialValue().Keys
    ensures p["encadrantId"] == EncadrantIdOf(a.encadrant) && p["type"] == Str(a.memberType)
  {
    map["cin" := a.cin, "nom" := a.nom, "prenom" := a.prenom,
        "dateNaissance" := a.dateNaissance, "email" := a.email, "password" := a.password,
        "type" := Str(a.memberType), "photo" := a.photo, "cv" := a.cv,
        "dateInscription" := Or(a.dateInscription, Null), "diplome" := Or(a.diplome, Null),
        "encadrantId" := EncadrantIdOf(a.encadrant),
        "grade" := Or(a.grade, Null), "etablissement" := Or(a.etablissement, Null)]
  }

  /** `patchValue` with the fetched member: adds no control. */
  function PatchedValue(value: map<string, JsVal>, a: MemberService.DetailedMember): (r: map<string, JsVal>)
    ensures r.Keys == value.Keys + InitialValue().Keys
    ensures "sujet" in value <==> "sujet" in r
    ensures Get(Obj(r), "encadrantId") == EncadrantIdOf(a.encadrant)
    ensures Get(Obj(r), "type") == Str(a.memberType)
  {
    value + Patch(a)
  }

  /** `raw` in `sub`: the value with the two dates reformatted (the
      reformatted dates are inputs), today's `createdDate`, `encadrant`
      built from `encadrantId`, and `encadrantId` deleted. */
  function SubmittedValue(value: map<string, JsVal>, dateNaissance: JsVal, dateInscription: JsVal,
                          today: string): (r: JsVal)
    ensures r.Obj? && "encadrantId" !in r.fields
    ensures Get(r, "encadrant") == EncadrantRef(Get(Obj(value), "encadrantId"))
    ensures Get(r, "dateNaissance") == dateNaissance && Get(r, "dateInscription") == dateInscription
    ensures Get(r, "createdDate") == Str(today)
    ensures forall k :: k !in {"encadrantId", "encadrant", "dateNaissance", "dateInscription", "createdDate"} ==>
      Get(r, k) == Get(Obj(value), k)
  {
    var raw := value + map["dateNaissance" := dateNaissance, "dateInscription" := dateInscription,
                           "createdDate" := Str(today),
                           "encadrant" := EncadrantRef(Get(Obj(value), "encadrantId"))];
    Obj(raw - {"encadrantId"})
  }

  /** What a submit does. */
  datatype SubmitOutcome =
    | MarkedTouched             // invalid form: only the errors are shown
    | Sent(write: MemberService.MemberWrite)
    | Threw                     // a non-string type makes the service throw

  function SubmitOf(valid: bool, isEditMode: bool, routeId: string, raw: JsVal, today: string): (r: SubmitOutcome)
    ensures !valid <==> r.MarkedTouched?
    ensures r.Sent? && isEditMode ==>
      Get(raw, "type").Str? && r.write == MemberService.UpdateMember(routeId, raw, today)
    ensures r.Sent? && !isEditMode ==>
      Get(raw, "type").Str? && r.write == MemberService.AddMember(raw, today)
    ensures valid ==> (r.Threw? <==> !Get(raw, "type").Str?)
  {
    if !valid then MarkedTouched
    else if !Get(raw, "type").Str? then Threw
    else if isEditMode then Sent(MemberService.UpdateMember(routeId, raw, today))
    else Sent(MemberService.AddMember(raw, today))
  }

  /** The form has no `sujet` control. */
  lemma NoSujetControl(a: MemberService.DetailedMember)
    ensures "sujet" !in PatchedValue(InitialValue(), a)
  {
    assert "sujet" !in InitialValue().Keys;
  }

  /** The shaped value of an unchanged edit form for a student. */
  lemma UnchangedStudentValue(a: MemberService.DetailedMember, n: int,
                              dateNaissance: JsVal, dateInscription: JsVal, today: string)
    requires a.memberType == MemberService.STUDENT
    requires a.encadrant.Obj? && Get(a.encadrant, "id") == Num(Int(n)) && n != 0
    ensures var raw := SubmittedValue(PatchedValue(InitialValue(), a), dateNaissance, dateInscription, today);
      && Get(raw, "type") == Str(MemberService.STUDENT)
      && Get(raw, "encadrant") == Obj(map["id" := Num(Int(n))])
      && Get(raw, "sujet") == Undefined
  {
    var value := PatchedValue(InitialValue(), a);
    NoSujetControl(a);
    assert Get(Obj(value), "encadrantId") == Num(Int(n));
    assert Get(Obj(value), "sujet") == Undefined;
  }

  /** Saving an edited student without touching the form sends the
      supervisor the member was loaded with, and an empty `sujet`: the form
      has no control for it, so the service's default '' replaces it. */
  lemma UnchangedStudentEdit(routeId: string, a: MemberService.DetailedMember, n: int,
                             dateNaissance: JsVal, dateInscription: JsVal, today: string)
    requires a.memberType == MemberService.STUDENT
    requires a.encadrant.Obj? && Get(a.encadrant, "id") == Num(Int(n)) && n != 0
    ensures var raw := SubmittedValue(PatchedValue(InitialValue(), a), dateNaissance, dateInscription, today);
      var w := MemberService.UpdateMember(routeId, raw, today);
      && w.payload.StudentPayload?
      && w.payload.encadrant == Obj(map["id" := Num(Int(n))])
      && w.payload.sujet == Str("")
  {
    var raw := SubmittedValue(PatchedValue(InitialValue(), a), dateNaissance, dateInscription, today);
    UnchangedStudentValue(a, n, dateNaissance, dateInscription, today);
    StudentWithoutSujet(routeId, raw, n, today);
  }

  lemma StudentWithoutSujet(routeId: string, raw: JsVal, n: int, today: string)
    requires Get(raw, "type") == Str(MemberService.STUDENT)
    requires Get(raw, "encadrant") == Obj(map["id" := Num(Int(n))]) && n != 0
    requires Get(raw, "sujet") == Undefined
    ensures var w := MemberService.UpdateMember(routeId, raw, today);
      && w.payload.StudentPayload?
      && w.payload.encadrant == Obj(map["id" := Num(Int(n))])
      && w.payload.sujet == Str("")
  {
    StudentUpdatePayload(routeId, raw, today);
  }

  /** A form typed 'etudiant' is sent as a student payload. */
  lemma StudentUpdatePayload(routeId: string, raw: JsVal, today: string)
    requires Get(raw, "type") == Str(MemberService.STUDENT)
    ensures var p := MemberService.UpdateMember(routeId, raw, today).payload;
      && p.StudentPayload?
      && MemberService.Defaulted(Get(raw, "encadrant"), p.encadrant, Null)
      && MemberService.Defaulted(Get(raw, "sujet"), p.sujet, Str(""))
  {
    LowerCaseUnchanged(MemberService.STUDENT);
    assert MemberService.STUDENT != MemberService.TEACHER by {
      assert MemberService.STUDENT[1] != MemberService.TEACHER[1];
    }
  }

  /** `loadTeachers`: the members whose `dateInscription` is undefined or
      null, in list order. */
  function TeachersOf(list: seq<JsVal>): seq<JsVal> {
    if |list| == 0 then []
    else
      TeachersOf(list[..|list| - 1])
        + (if IsNullish(Get(list[|list| - 1], "dateInscription")) then [list[|list| - 1]] else [])
  }

  /** The offered supervisors are exactly the listed members the detail
      mapping classifies as teachers. */
  lemma {:induction false} TeachersOfSpec(list: seq<JsVal>, today: string)
    requires !HasNullish(list)
    ensures forall m :: m in TeachersOf(list) <==>
      m in list && MemberService.GetMemberById(Ok(m), today).body.memberType == MemberService.TEACHER
  {
    if |list| > 0 {
      TeachersOfSpec(list[..|list| - 1], today);
      assert list == list[..|list| - 1] + [list[|list| - 1]];
      assert !IsNullish(list[|list| - 1]);
    }
  }

  /** A selected file: its name and MIME type. */
  datatype FileInfo = FileInfo(name: string, mime: string)

  const IMAGE_TYPES: set<string> := {"image/png", "image/jpeg", "image/jpg", "image/gif", "image/webp"}

  /** `dataUrl.includes(',') ? dataUrl.split(',')[1] : dataUrl`: the text
      between the first and the second comma (or the end). */
  function Base64Part(dataUrl: string): (r: string)
    ensures ',' !in dataUrl ==> r == dataUrl
    ensures ',' in dataUrl ==>
      var rest := dataUrl[FirstComma(dataUrl) + 1..];
      r <= rest && (|r| == |rest| || rest[|r|] == ',')
    ensures ',' !in r
  {
    if ',' !in dataUrl then dataUrl else BeforeComma(AfterComma(dataUrl))
  }

  /** The position of the first comma. */
  function FirstComma(s: string): (i: nat)
    requires ',' in s
    ensures i < |s| && s[i] == ','
    ensures forall k :: 0 <= k < i ==> s[k] != ','
  {
    if s[0] == ',' then 0 else 1 + FirstComma(s[1..])
  }

  function AfterComma(s: string): (r: string)
    requires ',' in s
    ensures r == s[FirstComma(s) + 1..]
  {
    if s[0] == ',' then s[1..] else AfterComma(s[1..])
  }

  function BeforeComma(s: string): (r: string)
    ensures ',' !in r && r <= s
    ensures |r| == |s| || s[|r|] == ','
  {
    if |s| == 0 || s[0] == ',' then [] else [s[0]] + BeforeComma(s[1..])
  }

  /** A data URL as FileReader produces it, `data:<type>;base64,<payload>`,
      gives back its payload: base64 text has no comma. */
  lemma DataUrlPayload(prefix: string, payload: string)
    requires ',' !in prefix && ',' !in payload
    ensures Base64Part(prefix + [','] + payload) == payload
  {
    var url := prefix + [','] + payload;
    assert url[|prefix|] == ',';
    assert FirstComma(url) == |prefix|;
    assert url[|prefix| + 1..] == payload;
  }

  // ---------------------------------------------------------------------
  // The component

  class MemberFormComponent {
    var value: map<string, JsVal>
    var required: set<string>
    var isEditMode: bool
    var touched: bool
    var teachers: seq<JsVal>
    var cvFileName: Option<string>
    var photoPreview: Option<string>
    var photoProcessing: bool

    /** `ngOnInit` up to the edit-mode fetch: edit mode when the route has
        an id; the initial 'etudiant' type requires the student fields. */
    constructor (routeId: JsVal)
      ensures isEditMode == Truthy(routeId)
      ensures value == InitialValue()
      ensures required == BASE_REQUIRED + STUDENT_FIELDS
      ensures !touched && teachers == [] && cvFileName.None? && photoPreview.None? && !photoProcessing
    {
      isEditMode := Truthy(routeId);
      value := InitialValue();
      LowerCaseUnchanged(MemberService.STUDENT);
      required := TypeValidators(BASE_REQUIRED, Str(MemberService.STUDENT));
      touched := false;
      teachers := [];
      cvFileName := None;
      photoPreview := None;
      photoProcessing := false;
    }

    method UpdateTypeValidators(t: JsVal)
      modifies this
      ensures required == TypeValidators(old(required), t)
      ensures value == old(value) && teachers == old(teachers) && touched == old(touched)
      ensures cvFileName == old(cvFileName) && photoPreview == old(photoPreview)
    {
      required := TypeValidators(required, t);
    }

    /** The edit-mode fetch: the form is patched with the member and the
        validators follow its type. */
    method PatchFromMember(a: MemberService.DetailedMember)
      modifies this
      ensures value == PatchedValue(old(value), a)
      ensures required == TypeValidators(old(required), Str(a.memberType))
      ensures teachers == old(teachers) && touched == old(touched)
    {
      value := PatchedValue(value, a);
      UpdateTypeValidators(Str(a.memberType));
    }

    /** `loadTeachers`; a failure leaves no teachers. A null entry makes the
        filter throw inside the handler, leaving the list as it was. */
    method LoadTeachers(list: Response<JsVal>)
      modifies this
      ensures list.Failed? ==> teachers == []
      ensures list.Ok? && !HasNullish(Items(Or(list.body, Arr([])))) ==>
        teachers == TeachersOf(Items(Or(list.body, Arr([]))))
      ensures list.Ok? && HasNullish(Items(Or(list.body, Arr([])))) ==> teachers == old(teachers)
      ensures value == old(value) && required == old(required)
    {
      if list.Failed? {
        teachers := [];
        return;
      }
      var raw := Items(Or(list.body, Arr([])));
      if !HasNullish(raw) {
        teachers := TeachersOf(raw);
      }
    }

    /** `onCvSelected`: no file clears the CV, a non-PDF is rejected with
        nothing changed, a PDF stores its file name. */
    method OnCvSelected(file: Option<FileInfo>) returns (rejected: bool)
      modifies this
      ensures file.None? ==> !rejected && cvFileName.None? && value == old(value)["cv" := Null]
      ensures file.Some? && file.value.mime != "application/pdf" ==>
        rejected && cvFileName == old(cvFileName) && value == old(value)
      ensures file.Some? && file.value.mime == "application/pdf" ==>
        !rejected && cvFileName == Some(file.value.name) && value == old(value)["cv" := Str(file.value.name)]
      ensures required == old(required) && teachers == old(teachers) && photoPreview == old(photoPreview)
    {
      rejected := false;
      if file.None? {
        cvFileName := None;
        value := value["cv" := Null];
        return;
      }
      if file.value.mime != "application/pdf" {
        return true;
      }
      cvFileName := Some(file.value.name);
      value := value["cv" := Str(file.value.name)];
    }

    /** `onPhotoSelected` with the reader's outcome: no file clears the
        photo, an unsupported type is rejected with nothing changed; a read
        data URL stores its base64 part, a read error clears the photo. */
    method OnPhotoSelected(file: Option<FileInfo>, read: Option<string>) returns (rejected: bool)
      modifies this
      ensures file.None? ==> !rejected && photoPreview.None? && value == old(value)["photo" := Null]
      ensures file.Some? && file.value.mime !in IMAGE_TYPES ==>
        rejected && photoPreview == old(photoPreview) && value == old(value)
      ensures file.Some? && file.value.mime in IMAGE_TYPES ==> !rejected && !photoProcessing
      ensures file.Some? && file.value.mime in IMAGE_TYPES && read.Some? ==>
        photoPreview == read && value == old(value)["photo" := Str(Base64Part(read.value))]
      ensures file.Some? && file.value.mime in IMAGE_TYPES && read.None? ==>
        photoPreview.None? && value == old(value)["photo" := Null]
      ensures required == old(required) && teachers == old(teachers) && cvFileName == old(cvFileName)
    {
      rejected := false;
      if file.None? {
        photoPreview := None;
        value := value["photo" := Null];
        return;
      }
      if file.value.mime !in IMAGE_TYPES {
        return true;
      }
      photoProcessing := true;
      if read.Some? {
        photoPreview := read;
        value := value["photo" := Str(Base64Part(read.value))];
      } else {
        photoPreview := None;
        value := value["photo" := Null];
      }
      photoProcessing := false;
    }

    /** `sub`: an invalid form is only marked touched; otherwise the shaped
        value goes to updateMember in edit mode and to addMember otherwise. */
    method Sub(emailWellFormed: bool, routeId: string, dateNaissance: JsVal, dateInscription: JsVal,
               today: string) returns (outcome: SubmitOutcome)
      modifies this
      ensures outcome == SubmitOf(FormValid(value, required, emailWellFormed), isEditMode, routeId,
                                  SubmittedValue(value, dateNaissance, dateInscription, today), today)
      ensures touched == (old(touched) || !FormValid(value, required, emailWellFormed))
      ensures value == old(value) && required == old(required) && isEditMode == old(isEditMode)
      ensures teachers == old(teachers)
    {
      if !FormValid(value, required, emailWellFormed) {
        touched := true;
        return MarkedTouched;
      }
      var raw := SubmittedValue(value, dateNaissance, dateInscription, today);
      if !Get(raw, "type").Str? {
        return Threw;
      }
      if isEditMode {
        outcome := Sent(MemberService.UpdateMember(routeId, raw, today));
      } else {
        outcome := Sent(MemberService.AddMember(raw, today));
      }
    }
  }
}
