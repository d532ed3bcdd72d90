/** ToolComponent: the tool list's create, edit and delete handlers, as
    the calls they issue and the writes they make to OutilService's
    association cache. */
module ToolView {
  import opened Js
  import opened Effects
  import opened Refs
  import opened Cache
  import opened Reconcile
  import opened OutilService

  /** The ids a create persists: the dialog's selection when it has one,
      otherwise the members the backend returned. */
  function CreatedIds(data: JsVal, created: Outil): seq<Number> {
    SelectedIds(Get(data, "membres"), StoredIds(created.membres))
  }

  /** The mapping of whichever member list CreatedIds reads throws. */
  predicate CreatedIdsThrow(data: JsVal, created: Outil) {
    IdsThrow(Get(data, "membres")) || (!Truthy(Get(data, "membres")) && IdsThrow(created.membres))
  }

  /** `openCreate`'s close handler. A closed dialog or a failed create
      (addOutil maps it to null, shown as an alert) does nothing more.
      The id mapping throws on a null entry of the list it reads, which
      stops the handler too. Otherwise the ids are linked and notified after
      the join, and the cache entry is written in every case, even with an
      empty list. */
  function CreateEffect(data: JsVal, response: Response<JsVal>): (e: Effect)
    ensures !Truthy(data) || AddOutil(response).None? ==> e == NoEffect
    ensures Truthy(data) && AddOutil(response).Some? && CreatedIdsThrow(data, AddOutil(response).value) ==> e == NoEffect
    ensures Truthy(data) && AddOutil(response).Some? && !CreatedIdsThrow(data, AddOutil(response).value) ==>
      var created := AddOutil(response).value;
      && e.calls == CreateCalls(Kind.Outil, created.id, CreatedIds(data, created))
      && e.cacheWrite == Some(CacheWrite(created.id, CreatedIds(data, created)))
    ensures Truthy(data) && AddOutil(response).Some? && !CreatedIdsThrow(data, AddOutil(response).value) && !Truthy(Get(data, "membres")) ==>
      e.cacheWrite.value.ids == StoredIds(AddOutil(response).value.membres)
  {
    if !Truthy(data) then NoEffect
    else
      var res := AddOutil(response);
      if res.None? || CreatedIdsThrow(data, res.value) then NoEffect
      else
        var ids := CreatedIds(data, res.value);
        Effect(CreateCalls(Kind.Outil, res.value.id, ids), Some(CacheWrite(res.value.id, ids)))
  }

  /** `openEdit`'s handlers. A failed fetch of the original tool stops
      everything, and so does one listing a null member (the id mapping
      throws before the dialog opens); a closed dialog does nothing; updateOutil has no error
      handler, so a failed update skips the reconciliation and the cache, and
      a saved list with a null entry throws before them. */
  function EditFlow(id: int, fetched: Response<JsVal>, cached: Option<seq<Number>>, data: JsVal,
                    update: Response<()>): (e: Effect)
    ensures GetOutilById(fetched).Failed? || !Truthy(data) || update.Failed? ==> e == NoEffect
    ensures GetOutilById(fetched).Ok? && IdsThrow(GetOutilById(fetched).body.membres) ==> e == NoEffect
    ensures IdsThrow(Get(data, "membres")) ==> e == NoEffect
    ensures GetOutilById(fetched).Ok? && !IdsThrow(GetOutilById(fetched).body.membres)
            && Truthy(data) && update.Ok? && !IdsThrow(Get(data, "membres")) ==>
      e == EditEffect(Kind.Outil, id, OriginalIds(GetOutilById(fetched).body.membres, cached), data)
  {
    var orig := GetOutilById(fetched);
    if orig.Failed? || IdsThrow(orig.body.membres) || !Truthy(data) || update.Failed?
       || IdsThrow(Get(data, "membres")) then NoEffect
    else EditEffect(Kind.Outil, id, OriginalIds(orig.body.membres, cached), data)
  }

  /** `delete`'s handlers: once confirmed, the tool is fetched for its
      member ids and deleted; the members are notified only when both the
      fetch and the delete succeed and there are any. A fetched member list
      with a null entry throws before the delete is sent. */
  function DeleteFlow(id: int, confirmed: bool, fetched: Response<JsVal>, deleted: Response<()>): (r: seq<Call>)
    ensures !confirmed ==> r == []
    ensures confirmed && GetOutilById(fetched).Ok? && IdsThrow(GetOutilById(fetched).body.membres) ==> r == []
    ensures confirmed && (GetOutilById(fetched).Failed? || !IdsThrow(GetOutilById(fetched).body.membres)) ==>
      |r| > 0 && r[0] == DeleteResource(Kind.Outil, id)
    ensures forall c :: c in r && c.Emit? ==>
      && GetOutilById(fetched).Ok? && deleted.Ok?
      && c == Emit(Kind.Outil, StoredIds(NormalizeOutil(fetched.body).membres))
  {
    var e := GetOutilById(fetched);
    if confirmed && e.Ok? && IdsThrow(e.body.membres) then []
    else DeleteCalls(Kind.Outil, id, confirmed, if e.Failed? then Failed else Ok(StoredIds(e.body.membres)), deleted)
  }

  /** A tool created with a non-empty selection and edited before the
      backend reports its members: saving the same selection again issues
      nothing, because the originals come from the cache. */
  lemma CreateThenEditSameSelection(data: JsVal, response: Response<JsVal>, entries: map<Number, seq<Number>>,
                                    id: int, fetched: Response<JsVal>, again: JsVal, update: Response<()>)
    requires CreateEffect(data, response).cacheWrite.Some?
    requires ToNumber(CreateEffect(data, response).cacheWrite.value.key) == Int(id)
    requires |CreateEffect(data, response).cacheWrite.value.ids| > 0
    requires NaN !in CreateEffect(data, response).cacheWrite.value.ids
    requires GetOutilById(fetched).Ok? && StoredIds(GetOutilById(fetched).body.membres) == []
    requires Truthy(again) && SelectedIds(Get(again, "membres"), []) == CreateEffect(data, response).cacheWrite.value.ids
    ensures EditFlow(id, fetched, LookupIn(Applied(entries, CreateEffect(data, response).cacheWrite), Num(Int(id))),
                     again, update).calls == []
  {
    var after := Applied(entries, CreateEffect(data, response).cacheWrite);
    CachedSelectionKeepsEditSilent(Kind.Outil, id, after, GetOutilById(fetched).body.membres, again);
  }

  /** The list component, holding OutilService's association cache. */
  class ToolView {
    const outilCache: MemberCache

    constructor (outilCache: MemberCache)
      ensures this.outilCache == outilCache
    {
      this.outilCache := outilCache;
    }

    method OpenCreate(data: JsVal, response: Response<JsVal>) returns (calls: seq<Call>)
      modifies outilCache
      ensures calls == CreateEffect(data, response).calls
      ensures outilCache.entries == Applied(old(outilCache.entries), CreateEffect(data, response).cacheWrite)
    {
      var e := CreateEffect(data, response);
      calls := e.calls;
      WriteCache(e, outilCache);
    }

    /** Reads the originals (backend first, then the cache), then after a
        successful update reconciles the associations and overwrites the
        cache entry. */
    method OpenEdit(id: int, fetched: Response<JsVal>, data: JsVal, update: Response<()>) returns (calls: seq<Call>)
      modifies outilCache
      ensures var e := EditFlow(id, fetched, old(outilCache.Lookup(Num(Int(id)))), data, update);
        calls == e.calls && outilCache.entries == Applied(old(outilCache.entries), e.cacheWrite)
    {
      ghost var cached0 := outilCache.Lookup(Num(Int(id)));
      var orig := GetOutilById(fetched);
      if orig.Failed? || IdsThrow(orig.body.membres) {
        return [];
      }
      var original := ReadOriginal(orig.body.membres, id, outilCache);
      if !Truthy(data) || update.Failed? || IdsThrow(Get(data, "membres")) {
        return [];
      }
      var updated := SelectedIds(Get(data, "membres"), []);
      ghost var e := EditEffect(Kind.Outil, id, original, data);
      assert EditFlow(id, fetched, cached0, data, update) == e;
      calls := ApplyEdit(Kind.Outil, id, original, updated, outilCache);
      assert calls == e.calls && e.cacheWrite == Some(CacheWrite(Num(Int(id)), updated));
    }
  }
}
