/** ArticleCreateComponent, EventCreateComponent and ToolCreateComponent:
    the three create/edit dialogs share one shape (open for create, or for
    edit with `{id, originalMemberIds}`; pick members in a select whose
    options are matched by `compareMember`; close with the form value and
    the members as `{id: n}`), so one class models them, told apart by the
    kind of resource. */
module CreateDialogs {
  import opened Js
  import opened Effects
  import opened Refs
  import PubService
  import EvtService
  import OutilService
  import Reconcile
  import MemberForm

  // ---------------------------------------------------------------------
  // Matching select options

  /** The number an option or a selected value stands for: an object by
      its `id ?? itself`, anything else by itself. */
  function OptionKey(a: JsVal): Number {
    if a.Obj? || a.Arr? then ToNumber(Coalesce(Get(a, "id"), a)) else ToNumber(a)
  }

  /** `compareMember(a, b)`: never equal when either side is null or
      undefined; otherwise the two keys are the same number (so NaN keys
      match nothing). */
  function CompareMember(a: JsVal, b: JsVal): (r: bool)
    ensures r ==> !IsNullish(a) && !IsNullish(b)
    ensures r ==> OptionKey(a).Int? && OptionKey(a) == OptionKey(b)
    ensures !IsNullish(a) && !IsNullish(b) && OptionKey(a).Int? && OptionKey(a) == OptionKey(b) ==> r
  {
    if IsNullish(a) || IsNullish(b) then false
    else SameNumber(OptionKey(a), OptionKey(b))
  }

  /** The comparison is symmetric and transitive. */
  lemma CompareMemberSpec(a: JsVal, b: JsVal, c: JsVal)
    ensures CompareMember(a, b) == CompareMember(b, a)
    ensures CompareMember(a, b) && CompareMember(b, c) ==> CompareMember(a, c)
  {
  }

  /** A member record matches its id whether the id is held as a number,
      as its decimal string or as a `{id: n}` reference, and no other id. */
  lemma CompareMemberIds(m: JsVal, i: int, j: int)
    requires m.Obj? && Get(m, "id") == Num(Int(i))
    ensures CompareMember(m, Num(Int(j))) <==> i == j
    ensures CompareMember(m, Str(IntToString(j))) <==> i == j
    ensures CompareMember(m, RefObj(Int(j))) <==> i == j
  {
    NumberStringRoundTrip(j);
  }

  // ---------------------------------------------------------------------
  // Opening

  /** `typeof data === 'string' ? data : (data.id ? data.id : null)` */
  function EditIdOf(data: JsVal): JsVal {
    if data.Str? then data else if Truthy(Get(data, "id")) then Get(data, "id") else Null
  }

  /** `data.originalMemberIds ? data.originalMemberIds : []` */
  function FallbackOf(data: JsVal): JsVal {
    if Truthy(Get(data, "originalMemberIds")) then Get(data, "originalMemberIds") else Arr([])
  }

  /** The controls of each dialog, and those with `Validators.required`. */
  function Controls(kind: Kind): set<string> {
    match kind
    case Pub => {"type", "titre", "lien", "sourcePdf", "membres"}
    case Evt => {"titre", "dateDeb", "dateFin", "lieu", "membres"}
    case Outil => {"source", "membres"}
  }

  function Required(kind: Kind): (r: set<string>)
    ensures "membres" in r && r <= Controls(kind)
  {
    match kind
    case Pub => {"type", "titre", "membres"}
    case Evt => {"titre", "dateDeb", "dateFin", "lieu", "membres"}
    case Outil => {"source", "membres"}
  }

  /** The event dialog closes without looking at the form's validity. */
  predicate ChecksValidity(kind: Kind) {
    kind != Evt
  }

  /** A form with every control null but the member selection. */
  function EmptyForm(kind: Kind, membres: JsVal): (r: map<string, JsVal>)
    ensures r.Keys == Controls(kind)
    ensures r["membres"] == membres
    ensures forall c :: c in r && c != "membres" ==> r[c] == Null
  {
    map c | c in Controls(kind) :: if c == "membres" then membres else Null
  }

  /** `res.membres ? res.membres.map(m => m.id || m) : fallback`: each
      member by its truthy id, or by itself. */
  function SelectionOf(membres: JsVal, fallback: JsVal): (r: JsVal)
    ensures !Truthy(membres) ==> r == fallback
    ensures Truthy(membres) ==> r.Arr? && |r.items| == |Items(membres)|
    ensures Truthy(membres) ==> forall k :: 0 <= k < |r.items| ==>
      r.items[k] == Or(Get(Items(membres)[k], "id"), Items(membres)[k])
  {
    if Truthy(membres) then
      Arr(seq(|Items(membres)|, k requires 0 <= k < |Items(membres)| =>
        Or(Get(Items(membres)[k], "id"), Items(membres)[k])))
    else fallback
  }

  /** The form built when the edit fetch answers; None when building it
      throws (a null member entry), which leaves the dialog without a form.
      A failed fetch gives an empty form selecting the opener's ids. */
  function FetchedForm(kind: Kind, fetched: Response<JsVal>, fallback: JsVal): (r: Option<map<string, JsVal>>)
    ensures r.Some? ==> r.value.Keys == Controls(kind)
  {
    match kind
    case Pub =>
      var p := PubService.GetPubById(fetched);
      if p.Failed? then Some(EmptyForm(kind, fallback))
      else if HasNullish(Items(p.body.membres)) then None
      else Some(map["type" := p.body.pubType, "titre" := p.body.titre, "lien" := p.body.lien,
                    "sourcePdf" := Or(p.body.sourcePdf, Null),
                    "membres" := SelectionOf(p.body.membres, fallback)])
    case Evt =>
      var e := EvtService.GetEventById(fetched);
      if e.Failed? then Some(EmptyForm(kind, fallback))
      else if HasNullish(Items(e.body.membres)) then None
      else Some(map["titre" := e.body.titre, "dateDeb" := e.body.dateDeb, "dateFin" := e.body.dateFin,
                    "lieu" := e.body.lieu, "membres" := SelectionOf(e.body.membres, fallback)])
    case Outil =>
      var o := OutilService.GetOutilById(fetched);
      if o.Failed? then Some(EmptyForm(kind, fallback))
      else if HasNullish(Items(o.body.membres)) then None
      else Some(map["source" := o.body.source, "membres" := SelectionOf(o.body.membres, fallback)])
  }

  /** The member list of the resource as its service returns it. */
  function FetchedMembres(kind: Kind, fetched: Response<JsVal>): Option<JsVal> {
    match kind
    case Pub => var p := PubService.GetPubById(fetched); if p.Failed? then None else Some(p.body.membres)
    case Evt => var e := EvtService.GetEventById(fetched); if e.Failed? then None else Some(e.body.membres)
    case Outil => var o := OutilService.GetOutilById(fetched); if o.Failed? then None else Some(o.body.membres)
  }

  /** The opener's ids are selected only when the fetch fails: every
      service defaults a resource's members to [], which is truthy, so a
      successful fetch always selects the resource's own members. */
  lemma FallbackOnlyOnFailure(kind: Kind, fetched: Response<JsVal>, fallback: JsVal)
    ensures FetchedMembres(kind, fetched).None? ==> FetchedForm(kind, fetched, fallback) == Some(EmptyForm(kind, fallback))
    ensures FetchedMembres(kind, fetched).Some? ==>
      && Truthy(FetchedMembres(kind, fetched).value)
      && (FetchedForm(kind, fetched, fallback).Some? ==>
            FetchedForm(kind, fetched, fallback).value["membres"]
              == SelectionOf(FetchedMembres(kind, fetched).value, Arr([])))
  {
  }

  /** A resource whose backend record lists no members opens with an empty
      selection, whatever ids the opener passed. */
  lemma EmptyMembresIgnoreFallback(fallback: JsVal)
    ensures FetchedForm(Kind.Evt, Ok(Obj(map["membres" := Arr([])])), fallback)
      == Some(map["titre" := Undefined, "dateDeb" := Undefined, "dateFin" := Undefined,
                  "lieu" := Undefined, "membres" := Arr([])])
  {
    var e := Obj(map["membres" := Arr([])]);
    assert Get(e, "date") == Undefined;
  }

  /** The selection the opener's ids were passed for: the resource's
      members when it lists any, the opener's ids otherwise. */
  function IntendedSelection(membres: JsVal, fallback: JsVal): (r: JsVal)
    ensures |Items(membres)| == 0 ==> r == fallback
    ensures |Items(membres)| > 0 ==> r == SelectionOf(membres, fallback)
  {
    if |Items(membres)| > 0 then SelectionOf(membres, fallback) else fallback
  }

  /** With the intended selection an event whose members the backend does
      not report yet opens with the opener's (cached) ids, and saving it
      unchanged touches no association. */
  lemma IntendedSelectionKeepsCachedMembers(id: int, cached: seq<Number>)
    requires NaN !in cached
    ensures var shown := IntendedSelection(Arr([]), Arr(seq(|cached|, k requires 0 <= k < |cached| => Num(cached[k]))));
      Reconcile.EditCalls(Kind.Evt, Num(Int(id)), cached, seq(|Items(shown)|, k requires 0 <= k < |Items(shown)| => ToNumber(Items(shown)[k]))) == []
  {
    var shown := IntendedSelection(Arr([]), Arr(seq(|cached|, k requires 0 <= k < |cached| => Num(cached[k]))));
    var back := seq(|Items(shown)|, k requires 0 <= k < |Items(shown)| => ToNumber(Items(shown)[k]));
    assert back == cached;
    Reconcile.SameSelectionNoChange(cached, cached);
  }

  /** As written, the same save unlinks every cached member of the event. */
  lemma WrittenSelectionDropsCachedMembers(id: int)
    ensures var shown := SelectionOf(Arr([]), Arr([Num(Int(1))]));
      Reconcile.EditCalls(Kind.Evt, Num(Int(id)), [Int(1)], seq(|Items(shown)|, k requires 0 <= k < |Items(shown)| => ToNumber(Items(shown)[k])))
        == [Emit(Kind.Evt, [Int(1)]), Unlink(Kind.Evt, Int(1), Num(Int(id)))]
  {
    var shown := SelectionOf(Arr([]), Arr([Num(Int(1))]));
    assert Items(shown) == [];
    var o: seq<Number> := [Int(1)];
    assert o[..0] == [];
    assert Reconcile.Removed(o, []) == o;
    assert Reconcile.Notify(o, []) == o;
  }

  // ---------------------------------------------------------------------
  // Saving

  /** `sel.map(id => ({id: Number(id)}))` */
  function RefsFor(sel: seq<JsVal>): (r: seq<JsVal>)
    ensures |r| == |sel|
    ensures forall k :: 0 <= k < |r| ==> r[k] == RefObj(ToNumber(sel[k]))
  {
    seq(|sel|, k requires 0 <= k < |sel| => RefObj(ToNumber(sel[k])))
  }

  /** The value a save closes with: the form's value plus today's `date`
      (article and tool) or the two formatted event dates (the formatted
      dates are inputs), and the selection as `{id: n}` references. */
  function SavedValue(kind: Kind, form: map<string, JsVal>, today: string, dateDeb: JsVal, dateFin: JsVal): (r: JsVal)
    ensures r.Obj?
    ensures Get(r, "membres") == Arr(RefsFor(Items(Or(Get(Obj(form), "membres"), Arr([])))))
    ensures kind != Evt ==> Get(r, "date") == Str(today)
    ensures kind == Evt ==> Get(r, "dateDeb") == dateDeb && Get(r, "dateFin") == dateFin
  {
    var refs := Arr(RefsFor(Items(Or(Get(Obj(form), "membres"), Arr([])))));
    if kind == Evt then Obj(form + map["dateDeb" := dateDeb, "dateFin" := dateFin, "membres" := refs])
    else Obj(form + map["date" := Str(today), "membres" := refs])
  }

  /** The list component reads back exactly the selected ids, in order:
      `Number(m.id ?? m)` of `{id: Number(s)}` is `Number(s)`. */
  lemma {:induction false} SavedSelectionReadBack(kind: Kind, form: map<string, JsVal>, today: string,
                                                  dateDeb: JsVal, dateFin: JsVal)
    ensures var sel := Items(Or(Get(Obj(form), "membres"), Arr([])));
      SelectedIds(Get(SavedValue(kind, form, today, dateDeb, dateFin), "membres"), [])
        == seq(|sel|, k requires 0 <= k < |sel| => ToNumber(sel[k]))
  {
    var sel := Items(Or(Get(Obj(form), "membres"), Arr([])));
    var ids := seq(|sel|, k requires 0 <= k < |sel| => ToNumber(sel[k]));
    RefObjsReadBack(ids);
    assert RefsFor(sel) == seq(|ids|, k requires 0 <= k < |ids| => RefObj(ids[k]));
  }

  /** Opening an edit on members `{id: n}` with non-zero ids and saving
      unchanged gives the list component the same ids back. */
  lemma {:induction false} UnchangedEditRoundTrip(membres: seq<int>, fallback: JsVal)
    requires forall k :: 0 <= k < |membres| ==> membres[k] != 0
    ensures var shown := SelectionOf(Arr(seq(|membres|, k requires 0 <= k < |membres| => RefObj(Int(membres[k])))), fallback);
      seq(|Items(shown)|, k requires 0 <= k < |Items(shown)| => ToNumber(Items(shown)[k]))
        == seq(|membres|, k requires 0 <= k < |membres| => Int(membres[k]))
  {
    var objs := seq(|membres|, k requires 0 <= k < |membres| => RefObj(Int(membres[k])));
    var shown := SelectionOf(Arr(objs), fallback);
    forall k | 0 <= k < |membres|
      ensures Items(shown)[k] == Num(Int(membres[k]))
    {
      assert Get(objs[k], "id") == Num(Int(membres[k]));
    }
  }

  // ---------------------------------------------------------------------
  // The dialog

  class CreateDialog {
    const kind: Kind
    const editId: JsVal
    const fallback: JsVal
    var form: Option<map<string, JsVal>>
    var members: seq<JsVal>
    var touched: bool

    /** Opened with `data`: without data, or without an edit id, a create
        form with no member selected; otherwise no form until the fetch
        answers. */
    constructor (kind: Kind, data: JsVal)
      ensures this.kind == kind
      ensures editId == (if Truthy(data) then EditIdOf(data) else Null)
      ensures fallback == (if Truthy(data) then FallbackOf(data) else Arr([]))
      ensures !Truthy(editId) ==> form == Some(EmptyForm(kind, Arr([])))
      ensures Truthy(editId) ==> form.None?
      ensures members == [] && !touched
    {
      this.kind := kind;
      editId := if Truthy(data) then EditIdOf(data) else Null;
      fallback := if Truthy(data) then FallbackOf(data) else Arr([]);
      form := if Truthy(if Truthy(data) then EditIdOf(data) else Null) then None else Some(EmptyForm(kind, Arr([])));
      members := [];
      touched := false;
    }

    /** The members offered for selection; a failure leaves none. */
    method LoadMembers(list: Response<JsVal>)
      modifies this
      ensures list.Ok? ==> members == Items(Or(list.body, Arr([])))
      ensures list.Failed? ==> members == []
      ensures form == old(form) && touched == old(touched)
    {
      members := if list.Ok? then Items(Or(list.body, Arr([]))) else [];
    }

    /** The edit fetch's handlers (only an edit dialog fetches). */
    method OnFetched(fetched: Response<JsVal>)
      modifies this
      ensures Truthy(editId) && FetchedForm(kind, fetched, fallback).Some? ==> form == FetchedForm(kind, fetched, fallback)
      ensures !Truthy(editId) || FetchedForm(kind, fetched, fallback).None? ==> form == old(form)
      ensures members == old(members) && touched == old(touched)
    {
      if !Truthy(editId) {
        return;
      }
      var built := FetchedForm(kind, fetched, fallback);
      if built.Some? {
        form := built;
      }
    }

    /** `save`: no form, or an invalid one where validity is checked,
        closes nothing (an invalid form is marked touched); otherwise the
        dialog closes with the saved value. */
    method Save(today: string, dateDeb: JsVal, dateFin: JsVal) returns (closed: Option<JsVal>)
      modifies this
      ensures old(form).None? ==> closed.None? && touched == old(touched)
      ensures old(form).Some? && ChecksValidity(kind) && !FormValid(old(form).value, kind) ==>
        closed.None? && touched
      ensures old(form).Some? && (!ChecksValidity(kind) || FormValid(old(form).value, kind)) ==>
        closed == Some(SavedValue(kind, old(form).value, today, dateDeb, dateFin)) && touched == old(touched)
      ensures form == old(form) && members == old(members)
    {
      if form.None? {
        return None;
      }
      if ChecksValidity(kind) && !FormValid(form.value, kind) {
        touched := true;
        return None;
      }
      closed := Some(SavedValue(kind, form.value, today, dateDeb, dateFin));
    }
  }

  /** Every required control is filled (`Validators.required`). */
  predicate FormValid(form: map<string, JsVal>, kind: Kind) {
    forall c :: c in Required(kind) ==> !MemberForm.Blank(Get(Obj(form), c))
  }

  /** A dialog whose selection is empty never closes with a value, except
      the event dialog, which does not check. */
  lemma EmptySelectionBlocksSave(kind: Kind, form: map<string, JsVal>)
    requires Get(Obj(form), "membres") == Arr([])
    ensures !FormValid(form, kind)
  {
    assert "membres" in Required(kind);
  }
}
