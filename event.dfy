/** EventComponent: the event list's create, edit and delete handlers, as
    the calls they issue and the writes they make to EvtService's
    association cache. */
module EventView {
  import opened Js
  import opened Effects
  import opened Refs
  import opened Cache
  import opened Reconcile
  import opened EvtService

  /** The ids a create persists: the dialog's selection when it has one,
      otherwise the members the backend returned. */
  function CreatedIds(data: JsVal, created: Evt): seq<Number> {
    SelectedIds(Get(data, "membres"), StoredIds(created.membres))
  }

  /** The mapping of whichever member list CreatedIds reads throws. */
  predicate CreatedIdsThrow(data: JsVal, created: Evt) {
    IdsThrow(Get(data, "membres")) || (!Truthy(Get(data, "membres")) && IdsThrow(created.membres))
  }

  /** `open`'s close handler. A closed dialog does nothing; addEvent has no
      error handler, so a failed create does nothing either. The id mapping
      throws on a null entry of the list it reads, which stops the handler
      too. Otherwise the ids are linked and notified after the join, and
      the cache entry is written in every case, even with an empty list. */
  function CreateEffect(data: JsVal, response: Response<JsVal>): (e: Effect)
    ensures !Truthy(data) || AddEvent(response).Failed? ==> e == NoEffect
    ensures Truthy(data) && AddEvent(response).Ok? && CreatedIdsThrow(data, AddEvent(response).body) ==> e == NoEffect
    ensures Truthy(data) && AddEvent(response).Ok? && !CreatedIdsThrow(data, AddEvent(response).body) ==>
      var created := AddEvent(response).body;
      && e.calls == CreateCalls(Kind.Evt, created.id, CreatedIds(data, created))
      && e.cacheWrite == Some(CacheWrite(created.id, CreatedIds(data, created)))
    ensures Truthy(data) && AddEvent(response).Ok? && !CreatedIdsThrow(data, AddEvent(response).body) && !Truthy(Get(data, "membres")) ==>
      e.cacheWrite.value.ids == StoredIds(AddEvent(response).body.membres)
  {
    if !Truthy(data) then NoEffect
    else
      var res := AddEvent(response);
      if res.Failed? || CreatedIdsThrow(data, res.body) then NoEffect
      else
        var ids := CreatedIds(data, res.body);
        Effect(CreateCalls(Kind.Evt, res.body.id, ids), Some(CacheWrite(res.body.id, ids)))
  }

  /** `openEdit`'s handlers. A failed fetch of the original event stops
      everything, and so does one listing a null member (the id mapping
      throws before the dialog opens); a closed dialog does nothing; updateEvent has no error
      handler, so a failed update skips the reconciliation and the cache, and
      a saved list with a null entry throws before them. */
  function EditFlow(id: int, fetched: Response<JsVal>, cached: Option<seq<Number>>, data: JsVal,
                    update: Response<()>): (e: Effect)
    ensures GetEventById(fetched).Failed? || !Truthy(data) || update.Failed? ==> e == NoEffect
    ensures GetEventById(fetched).Ok? && IdsThrow(GetEventById(fetched).body.membres) ==> e == NoEffect
    ensures IdsThrow(Get(data, "membres")) ==> e == NoEffect
    ensures GetEventById(fetched).Ok? && !IdsThrow(GetEventById(fetched).body.membres)
            && Truthy(data) && update.Ok? && !IdsThrow(Get(data, "membres")) ==>
      e == EditEffect(Kind.Evt, id, OriginalIds(GetEventById(fetched).body.membres, cached), data)
  {
    var orig := GetEventById(fetched);
    if orig.Failed? || IdsThrow(orig.body.membres) || !Truthy(data) || update.Failed?
       || IdsThrow(Get(data, "membres")) then NoEffect
    else EditEffect(Kind.Evt, id, OriginalIds(orig.body.membres, cached), data)
  }

  /** `delete`'s handlers: once confirmed, the event is fetched for its
      member ids and deleted; the members are notified only when both the
      fetch and the delete succeed and there are any. A fetched member list
      with a null entry throws before the delete is sent. */
  function DeleteFlow(id: int, confirmed: bool, fetched: Response<JsVal>, deleted: Response<()>): (r: seq<Call>)
    ensures !confirmed ==> r == []
    ensures confirmed && GetEventById(fetched).Ok? && IdsThrow(GetEventById(fetched).body.membres) ==> r == []
    ensures confirmed && (GetEventById(fetched).Failed? || !IdsThrow(GetEventById(fetched).body.membres)) ==>
      |r| > 0 && r[0] == DeleteResource(Kind.Evt, id)
    ensures forall c :: c in r && c.Emit? ==>
      && GetEventById(fetched).Ok? && deleted.Ok?
      && c == Emit(Kind.Evt, StoredIds(NormalizeEvt(fetched.body).membres))
  {
    var e := GetEventById(fetched);
    if confirmed && e.Ok? && IdsThrow(e.body.membres) then []
    else DeleteCalls(Kind.Evt, id, confirmed, if e.Failed? then Failed else Ok(StoredIds(e.body.membres)), deleted)
  }

  /** An event created with a non-empty selection and edited before the
      backend reports its members: saving the same selection again issues
      nothing, because the originals come from the cache. */
  lemma CreateThenEditSameSelection(data: JsVal, response: Response<JsVal>, entries: map<Number, seq<Number>>,
                                    id: int, fetched: Response<JsVal>, again: JsVal, update: Response<()>)
    requires CreateEffect(data, response).cacheWrite.Some?
    requires ToNumber(CreateEffect(data, response).cacheWrite.value.key) == Int(id)
    requires |CreateEffect(data, response).cacheWrite.value.ids| > 0
    requires NaN !in CreateEffect(data, response).cacheWrite.value.ids
    requires GetEventById(fetched).Ok? && StoredIds(GetEventById(fetched).body.membres) == []
    requires Truthy(again) && SelectedIds(Get(again, "membres"), []) == CreateEffect(data, response).cacheWrite.value.ids
    ensures EditFlow(id, fetched, LookupIn(Applied(entries, CreateEffect(data, response).cacheWrite), Num(Int(id))),
                     again, update).calls == []
  {
    var after := Applied(entries, CreateEffect(data, response).cacheWrite);
    CachedSelectionKeepsEditSilent(Kind.Evt, id, after, GetEventById(fetched).body.membres, again);
  }

  /** The list component, holding EvtService's association cache. */
  class EventView {
    const evtCache: MemberCache

    constructor (evtCache: MemberCache)
      ensures this.evtCache == evtCache
    {
      this.evtCache := evtCache;
    }

    method Open(data: JsVal, response: Response<JsVal>) returns (calls: seq<Call>)
      modifies evtCache
      ensures calls == CreateEffect(data, response).calls
      ensures evtCache.entries == Applied(old(evtCache.entries), CreateEffect(data, response).cacheWrite)
    {
      var e := CreateEffect(data, response);
      calls := e.calls;
      WriteCache(e, evtCache);
    }

    /** Reads the originals (backend first, then the cache), then after a
        successful update reconciles the associations and overwrites the
        cache entry. */
    method OpenEdit(id: int, fetched: Response<JsVal>, data: JsVal, update: Response<()>) returns (calls: seq<Call>)
      modifies evtCache
      ensures var e := EditFlow(id, fetched, old(evtCache.Lookup(Num(Int(id)))), data, update);
        calls == e.calls && evtCache.entries == Applied(old(evtCache.entries), e.cacheWrite)
    {
      ghost var cached0 := evtCache.Lookup(Num(Int(id)));
      var orig := GetEventById(fetched);
      if orig.Failed? || IdsThrow(orig.body.membres) {
        return [];
      }
      var original := ReadOriginal(orig.body.membres, id, evtCache);
      if !Truthy(data) || update.Failed? || IdsThrow(Get(data, "membres")) {
        return [];
      }
      var updated := SelectedIds(Get(data, "membres"), []);
      ghost var e := EditEffect(Kind.Evt, id, original, data);
      assert EditFlow(id, fetched, cached0, data, update) == e;
      calls := ApplyEdit(Kind.Evt, id, original, updated, evtCache);
      assert calls == e.calls && e.cacheWrite == Some(CacheWrite(Num(Int(id)), updated));
    }
  }
}
