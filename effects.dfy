/** The observable effects of the frontend: the backend calls it issues and
    the change notifications it broadcasts, recorded in issue order. A call's
    outcome is not part of the entry; it is an input to the operation that
    issues the call. */
module Effects {
  import opened Js

  /** The resource kinds of a change notification: 'pub', 'evt', 'outil'. */
  datatype Kind = Pub | Evt | Outil

  /** The outcome of one backend request: a response body, or a transport
      or HTTP error. */
  datatype Response<+T> = Ok(body: T) | Failed

  datatype Call =
    | FetchMember(id: string)               // GET /membres/{id}
    | FetchAllMembers                        // GET /membres
    | FetchFullMember(id: string)           // GET /fullmember/{id}
    | ClearSupervisor(student: string)      // removeEncadrant: read the student, PUT it back with encadrant null
    | SetSupervisor(student: string, teacher: JsVal)
    | Link(kind: Kind, member: Number, resource: JsVal)
    | Unlink(kind: Kind, member: Number, resource: JsVal)
    | DeleteMember(id: string)
    | DeleteResource(kind: Kind, resourceId: int)
    | Emit(kind: Kind, memberIds: seq<Number>)   // ResourceSyncService.emit({type, memberIds})

  /** One link call per member id, in list order. */
  function LinkCalls(kind: Kind, resource: JsVal, ids: seq<Number>): (r: seq<Call>)
    ensures |r| == |ids|
    ensures forall k :: 0 <= k < |ids| ==> r[k] == Link(kind, ids[k], resource)
  {
    if |ids| == 0 then [] else LinkCalls(kind, resource, ids[..|ids| - 1]) + [Link(kind, ids[|ids| - 1], resource)]
  }

  /** One unlink call per member id, in list order. */
  function UnlinkCalls(kind: Kind, resource: JsVal, ids: seq<Number>): (r: seq<Call>)
    ensures |r| == |ids|
    ensures forall k :: 0 <= k < |ids| ==> r[k] == Unlink(kind, ids[k], resource)
  {
    if |ids| == 0 then [] else UnlinkCalls(kind, resource, ids[..|ids| - 1]) + [Unlink(kind, ids[|ids| - 1], resource)]
  }

  /** Emits one notification only when the id list is non-empty. */
  function EmitIfAny(kind: Kind, ids: seq<Number>): seq<Call> {
    if |ids| > 0 then [Emit(kind, ids)] else []
  }
}
