/** EvtService: inbound mapping of events with date-field fallbacks and
    membres defaults, and outbound payloads. Its association cache is
    `Cache.MemberCache`. */
module EvtService {
  import opened Js
  import opened Effects
  import opened Refs

  /** An event as the list shows it (no members). */
  datatype EvtSummary = EvtSummary(id: JsVal, titre: JsVal, dateDeb: JsVal, dateFin: JsVal, lieu: JsVal)

  /** An event as a single fetch or a create returns it. */
  datatype Evt = Evt(id: JsVal, titre: JsVal, dateDeb: JsVal, dateFin: JsVal, lieu: JsVal, membres: JsVal)

  /** Both ends of an event fall back to the single `date` field. */
  predicate DatesFallBack(e: JsVal, dateDeb: JsVal, dateFin: JsVal) {
    && (Truthy(Get(e, "dateDeb")) ==> dateDeb == Get(e, "dateDeb"))
    && (!Truthy(Get(e, "dateDeb")) ==> dateDeb == Get(e, "date"))
    && (Truthy(Get(e, "dateFin")) ==> dateFin == Get(e, "dateFin"))
    && (!Truthy(Get(e, "dateFin")) ==> dateFin == Get(e, "date"))
  }

  function Summarize(e: JsVal): (r: EvtSummary)
    ensures DatesFallBack(e, r.dateDeb, r.dateFin)
  {
    EvtSummary(Get(e, "id"), Get(e, "titre"), Or(Get(e, "dateDeb"), Get(e, "date")),
               Or(Get(e, "dateFin"), Get(e, "date")), Get(e, "lieu"))
  }

  /** The item mapping of getEventById and addEvent: date fallbacks, and
      membres defaulting to []. */
  function NormalizeEvt(e: JsVal): (r: Evt)
    ensures DatesFallBack(e, r.dateDeb, r.dateFin)
    ensures Truthy(Get(e, "membres")) ==> r.membres == Get(e, "membres")
    ensures !Truthy(Get(e, "membres")) ==> r.membres == Arr([])
    ensures Truthy(r.membres)
  {
    Evt.Evt(Get(e, "id"), Get(e, "titre"), Or(Get(e, "dateDeb"), Get(e, "date")),
        Or(Get(e, "dateFin"), Get(e, "date")), Get(e, "lieu"), Or(Get(e, "membres"), Arr([])))
  }

  /** `getAllEvents()`: an error, or a null record, gives []. */
  function GetAllEvents(response: Response<seq<JsVal>>): (r: seq<EvtSummary>)
    ensures response.Failed? ==> r == []
    ensures response.Ok? && HasNullish(response.body) ==> r == []
    ensures response.Ok? && !HasNullish(response.body) ==> |r| == |response.body|
    ensures response.Ok? && !HasNullish(response.body) ==> forall k :: 0 <= k < |r| ==>
      r[k].id == Get(response.body[k], "id") && r[k].titre == Get(response.body[k], "titre")
      && r[k].lieu == Get(response.body[k], "lieu") && DatesFallBack(response.body[k], r[k].dateDeb, r[k].dateFin)
  {
    match response
    case Failed => []
    case Ok(list) =>
      if HasNullish(list) then [] else seq(|list|, k requires 0 <= k < |list| => Summarize(list[k]))
  }

  /** `getEventById(id)`: no error handling, so a failure, or a null body the
      mapping dereferences, reaches the caller as an error. */
  function GetEventById(response: Response<JsVal>): (r: Response<Evt>)
    ensures r.Failed? <==> response.Failed? || IsNullish(response.body)
    ensures r.Ok? ==> r.body == NormalizeEvt(response.body) && Truthy(r.body.membres)
  {
    if response.Failed? || IsNullish(response.body) then Failed else Ok(NormalizeEvt(response.body))
  }

  datatype EvtPayload = EvtPayload(titre: JsVal, dateDeb: JsVal, dateFin: JsVal, lieu: JsVal,
                                   membres: Option<seq<Ref>>)

  /** The body of POST/PUT /evenements (the same for create and update):
      members only when given as an array, each as `{id: Number(m.id)}`. */
  function Payload(evt: JsVal): (r: EvtPayload)
    ensures r.membres.Some? <==> Get(evt, "membres").Arr?
    ensures r.membres.Some? ==> r.membres.value == RefsOf(IdsOf(Get(evt, "membres").items))
  {
    EvtPayload(Get(evt, "titre"), Get(evt, "dateDeb"), Get(evt, "dateFin"), Get(evt, "lieu"),
               PayloadRefs(Get(evt, "membres"), false))
  }

  /** `addEvent(evt)`: no error handling, so a failure (or a null body)
      reaches the caller; the created event is normalised. */
  function AddEvent(response: Response<JsVal>): (r: Response<Evt>)
    ensures r.Failed? <==> response.Failed? || IsNullish(response.body)
    ensures r.Ok? ==> r.body == NormalizeEvt(response.body) && Truthy(r.body.membres)
  {
    GetEventById(response)
  }
}
