/** OutilService: list and item mapping of tools, outbound payloads and
    the mapping of create errors to null. Its association cache is
    `Cache.MemberCache`. */
module OutilService {
  import opened Js
  import opened Effects
  import opened Refs

  /** A tool as the list shows it: id, date and source only. */
  datatype OutilSummary = OutilSummary(id: JsVal, date: JsVal, source: JsVal)

  datatype Outil = Outil(id: JsVal, date: JsVal, source: JsVal, membres: JsVal)

  /** The item mapping of getOutilById and addOutil: membres default to []. */
  function NormalizeOutil(o: JsVal): (r: Outil)
    ensures r.id == Get(o, "id") && r.date == Get(o, "date") && r.source == Get(o, "source")
    ensures Truthy(Get(o, "membres")) ==> r.membres == Get(o, "membres")
    ensures !Truthy(Get(o, "membres")) ==> r.membres == Arr([])
    ensures Truthy(r.membres)
  {
    Outil.Outil(Get(o, "id"), Get(o, "date"), Get(o, "source"), Or(Get(o, "membres"), Arr([])))
  }

  /** `getAllOutils()`: keeps only id, date and source; an error, or a null
      record, gives []. */
  function GetAllOutils(response: Response<seq<JsVal>>): (r: seq<OutilSummary>)
    ensures response.Failed? ==> r == []
    ensures response.Ok? && HasNullish(response.body) ==> r == []
    ensures response.Ok? && !HasNullish(response.body) ==> |r| == |response.body|
    ensures response.Ok? && !HasNullish(response.body) ==> forall k :: 0 <= k < |r| ==>
      r[k] == OutilSummary(Get(response.body[k], "id"), Get(response.body[k], "date"), Get(response.body[k], "source"))
  {
    match response
    case Failed => []
    case Ok(list) =>
      if HasNullish(list) then []
      else seq(|list|, k requires 0 <= k < |list| =>
             OutilSummary(Get(list[k], "id"), Get(list[k], "date"), Get(list[k], "source")))
  }

  /** `getOutilById(id)`: no error handling, so a failure, or a null body
      the mapping dereferences, reaches the caller as an error. */
  function GetOutilById(response: Response<JsVal>): (r: Response<Outil>)
    ensures r.Failed? <==> response.Failed? || IsNullish(response.body)
    ensures r.Ok? ==> r.body == NormalizeOutil(response.body) && Truthy(r.body.membres)
  {
    if response.Failed? || IsNullish(response.body) then Failed else Ok(NormalizeOutil(response.body))
  }

  datatype OutilPayload = OutilPayload(date: JsVal, source: JsVal, membres: Option<seq<Ref>>)

  /** The body of POST/PUT /outils (the same for create and update):
      members only when given as an array, each as `{id: Number(m.id)}`. */
  function Payload(o: JsVal): (r: OutilPayload)
    ensures r.date == Get(o, "date") && r.source == Get(o, "source")
    ensures r.membres.Some? <==> Get(o, "membres").Arr?
    ensures r.membres.Some? ==> r.membres.value == RefsOf(IdsOf(Get(o, "membres").items))
  {
    OutilPayload(Get(o, "date"), Get(o, "source"), PayloadRefs(Get(o, "membres"), false))
  }

  /** `addOutil(o)`: a failure, and a null or undefined body, become null;
      otherwise the created tool, membres defaulting to []. */
  function AddOutil(response: Response<JsVal>): (r: Option<Outil>)
    ensures r.None? <==> response.Failed? || IsNullish(response.body)
    ensures r.Some? ==> r.value == NormalizeOutil(response.body) && Truthy(r.value.membres)
  {
    if response.Failed? || IsNullish(response.body) then None else Some(NormalizeOutil(response.body))
  }
}
