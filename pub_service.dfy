/** PubService: inbound normalisation of publications, outbound payloads
    and the mapping of errors to sentinel values. Its association cache is
    `Cache.MemberCache`. */
module PubService {
  import opened Js
  import opened Effects
  import opened Refs

  datatype Pub = Pub(id: JsVal, pubType: JsVal, titre: JsVal, lien: JsVal, date: JsVal,
                     sourcePdf: JsVal, membres: JsVal)

  /** Inbound mapping: the PDF link may arrive as `sourcePdf` or `sourcepdf`,
      the members as `membres` or `auteurs`. */
  function NormalizePub(p: JsVal): (r: Pub)
    ensures Truthy(Get(p, "sourcePdf")) ==> r.sourcePdf == Get(p, "sourcePdf")
    ensures !Truthy(Get(p, "sourcePdf")) ==> r.sourcePdf == Get(p, "sourcepdf")
    ensures Truthy(Get(p, "membres")) ==> r.membres == Get(p, "membres")
    ensures !Truthy(Get(p, "membres")) && Truthy(Get(p, "auteurs")) ==> r.membres == Get(p, "auteurs")
    ensures !Truthy(Get(p, "membres")) && !Truthy(Get(p, "auteurs")) ==> r.membres == Arr([])
    ensures Truthy(r.membres)
  {
    Pub.Pub(Get(p, "id"), Get(p, "type"), Get(p, "titre"), Get(p, "lien"), Get(p, "date"),
        Or(Get(p, "sourcePdf"), Get(p, "sourcepdf")),
        Or(Or(Get(p, "membres"), Get(p, "auteurs")), Arr([])))
  }

  /** `getAllPubs()`: every record normalised, in order. An error, or a
      null record (the mapping dereferences it), gives []. */
  function GetAllPubs(response: Response<seq<JsVal>>): (r: seq<Pub>)
    ensures response.Failed? ==> r == []
    ensures response.Ok? && HasNullish(response.body) ==> r == []
    ensures response.Ok? && !HasNullish(response.body) ==>
      |r| == |response.body| && forall k :: 0 <= k < |r| ==> r[k] == NormalizePub(response.body[k])
  {
    match response
    case Failed => []
    case Ok(list) =>
      if HasNullish(list) then [] else seq(|list|, k requires 0 <= k < |list| => NormalizePub(list[k]))
  }

  /** `getPubById(id)`: no error handling, so a failure, or a null body the
      mapping dereferences, reaches the caller as an error. */
  function GetPubById(response: Response<JsVal>): (r: Response<Pub>)
    ensures r.Failed? <==> response.Failed? || IsNullish(response.body)
    ensures r.Ok? ==> r.body == NormalizePub(response.body) && Truthy(r.body.membres)
  {
    if response.Failed? || IsNullish(response.body) then Failed else Ok(NormalizePub(response.body))
  }

  /** The body of POST/PUT /publications: the PDF link under the backend's
      `sourcepdf` name, members only when given as an array. */
  datatype PubPayload = PubPayload(pubType: JsVal, titre: JsVal, lien: JsVal, date: JsVal,
                                   sourcepdf: JsVal, membres: Option<seq<Ref>>)

  function Payload(p: JsVal, orSelf: bool): PubPayload {
    PubPayload(Get(p, "type"), Get(p, "titre"), Get(p, "lien"), Get(p, "date"),
               Get(p, "sourcePdf"), PayloadRefs(Get(p, "membres"), orSelf))
  }

  /** What addPub sends and what its caller receives. */
  datatype AddResult = AddResult(payload: PubPayload, created: Option<Pub>)

  /** `addPub(p)`: members mapped with `Number(m.id)`; the response is
      normalised; a failure, and a null or undefined body, become null. */
  function AddPub(p: JsVal, response: Response<JsVal>): (r: AddResult)
    ensures r.payload.sourcepdf == Get(p, "sourcePdf")
    ensures r.payload.membres.Some? <==> Get(p, "membres").Arr?
    ensures r.payload.membres.Some? ==> r.payload.membres.value == RefsOf(IdsOf(Get(p, "membres").items))
    ensures r.created.None? <==> response.Failed? || IsNullish(response.body)
    ensures r.created.Some? ==> r.created.value == NormalizePub(response.body)
  {
    var created := if response.Failed? || IsNullish(response.body) then None else Some(NormalizePub(response.body));
    AddResult(Payload(p, false), created)
  }

  /** What updatePub sends and whether its caller's success handler runs. */
  datatype UpdateResult = UpdateResult(path: string, payload: PubPayload, outcome: Response<()>)

  /** `updatePub(id, p)`: members mapped with `Number(m.id ?? m)`; a failure
      is mapped to null, so the caller's success handler always runs. */
  function UpdatePub(id: string, p: JsVal, response: Response<()>): (r: UpdateResult)
    ensures r.outcome.Ok?
    ensures r.path == "/PUBLICATION-SERVICE/publications/" + id
    ensures r.payload.membres.Some? <==> Get(p, "membres").Arr?
    ensures r.payload.membres.Some? ==> r.payload.membres.value == RefsOf(IdsOrSelfOf(Get(p, "membres").items))
  {
    UpdateResult("/PUBLICATION-SERVICE/publications/" + id, Payload(p, true), Ok(()))
  }
}
