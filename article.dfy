/** ArticleComponent: the publication list's create, edit and delete
    handlers, as the calls they issue and the writes they make to
    PubService's association cache. */
module ArticleView {
  import opened Js
  import opened Effects
  import opened Refs
  import opened Cache
  import opened Reconcile
  import opened PubService

  /** `openCreate`'s close handler. A closed dialog or a failed create does
      nothing more (the failure is an alert), and neither does a selection
      with a null entry, on which the id mapping throws. Otherwise every
      selected id is linked to the new publication and notified after the
      join, and the cache is written, but only for a non-empty selection. */
  function CreateEffect(data: JsVal, response: Response<JsVal>): (e: Effect)
    ensures !Truthy(data) || AddPub(data, response).created.None? || IdsThrow(Get(data, "membres")) ==> e == NoEffect
    ensures Truthy(data) && AddPub(data, response).created.Some? && !IdsThrow(Get(data, "membres")) ==>
      var id := AddPub(data, response).created.value.id;
      var ids := SelectedIds(Get(data, "membres"), []);
      && e.calls == CreateCalls(Kind.Pub, id, ids)
      && (e.cacheWrite.Some? <==> |ids| > 0)
      && (|ids| > 0 ==> e.cacheWrite.value == CacheWrite(id, ids))
  {
    if !Truthy(data) then NoEffect
    else
      var created := AddPub(data, response).created;
      if created.None? || IdsThrow(Get(data, "membres")) then NoEffect
      else
        var ids := SelectedIds(Get(data, "membres"), []);
        Effect(CreateCalls(Kind.Pub, created.value.id, ids),
               if |ids| > 0 then Some(CacheWrite(created.value.id, ids)) else None)
  }

  /** `openEdit`'s handlers. A failed fetch of the original publication,
      or one listing a null member (the id mapping throws before the dialog
      opens), stops everything; a closed dialog does nothing; a saved list
      with a null entry throws after the update, before any reconciliation;
      updatePub swallows its own failure, so any other saved dialog
      reconciles. */
  function EditFlow(id: int, fetched: Response<JsVal>, cached: Option<seq<Number>>, data: JsVal): (e: Effect)
    ensures GetPubById(fetched).Failed? ==> e == NoEffect
    ensures GetPubById(fetched).Ok? && IdsThrow(GetPubById(fetched).body.membres) ==> e == NoEffect
    ensures !Truthy(data) || IdsThrow(Get(data, "membres")) ==> e == NoEffect
    ensures GetPubById(fetched).Ok? && !IdsThrow(GetPubById(fetched).body.membres)
            && Truthy(data) && !IdsThrow(Get(data, "membres")) ==>
      e == EditEffect(Kind.Pub, id, OriginalIds(GetPubById(fetched).body.membres, cached), data)
  {
    // The update goes through `updatePub`, whose outcome is always Ok
    // (PubService.UpdatePub), so the edit never depends on it.
    var orig := GetPubById(fetched);
    if orig.Failed? || IdsThrow(orig.body.membres) || !Truthy(data) || IdsThrow(Get(data, "membres")) then NoEffect
    else EditEffect(Kind.Pub, id, OriginalIds(orig.body.membres, cached), data)
  }

  /** `delete`'s handlers: once confirmed, the publication is fetched for its
      member ids and deleted; the members are notified only when both the
      fetch and the delete succeed and there are any. A fetched member list
      with a null entry throws before the delete is sent. */
  function DeleteFlow(id: int, confirmed: bool, fetched: Response<JsVal>, deleted: Response<()>): (r: seq<Call>)
    ensures !confirmed ==> r == []
    ensures confirmed && GetPubById(fetched).Ok? && IdsThrow(GetPubById(fetched).body.membres) ==> r == []
    ensures confirmed && (GetPubById(fetched).Failed? || !IdsThrow(GetPubById(fetched).body.membres)) ==>
      |r| > 0 && r[0] == DeleteResource(Kind.Pub, id)
    ensures forall c :: c in r && c.Emit? ==>
      && GetPubById(fetched).Ok? && deleted.Ok?
      && c == Emit(Kind.Pub, StoredIds(NormalizePub(fetched.body).membres))
  {
    var p := GetPubById(fetched);
    if confirmed && p.Ok? && IdsThrow(p.body.membres) then []
    else DeleteCalls(Kind.Pub, id, confirmed, if p.Failed? then Failed else Ok(StoredIds(p.body.membres)), deleted)
  }

  /** Deleting a publication whose member list holds a null entry sends
      nothing: the id mapping throws before the delete. */
  lemma NullMemberStopsDelete(id: int, deleted: Response<()>)
    ensures DeleteFlow(id, true, Ok(Obj(map["id" := Num(Int(id)), "membres" := Arr([Null])])), deleted) == []
  {
    var fetched := Ok(Obj(map["id" := Num(Int(id)), "membres" := Arr([Null])]));
    var membres := GetPubById(fetched).body.membres;
    assert membres == Arr([Null]);
    assert IsNullish(Items(membres)[0]);
  }

  /** A publication created with a non-empty selection and edited before
      the backend reports its authors: saving the same selection again
      issues nothing, because the originals come from the cache. */
  lemma CreateThenEditSameSelection(data: JsVal, response: Response<JsVal>, entries: map<Number, seq<Number>>,
                                    id: int, fetched: Response<JsVal>, again: JsVal)
    requires CreateEffect(data, response).cacheWrite.Some?
    requires ToNumber(CreateEffect(data, response).cacheWrite.value.key) == Int(id)
    requires NaN !in CreateEffect(data, response).cacheWrite.value.ids
    requires GetPubById(fetched).Ok? && StoredIds(GetPubById(fetched).body.membres) == []
    requires Truthy(again) && SelectedIds(Get(again, "membres"), []) == CreateEffect(data, response).cacheWrite.value.ids
    ensures EditFlow(id, fetched, LookupIn(Applied(entries, CreateEffect(data, response).cacheWrite), Num(Int(id))),
                     again).calls == []
  {
    var after := Applied(entries, CreateEffect(data, response).cacheWrite);
    CachedSelectionKeepsEditSilent(Kind.Pub, id, after, GetPubById(fetched).body.membres, again);
  }

  /** The list component, holding PubService's association cache. */
  class ArticleView {
    const pubCache: MemberCache

    constructor (pubCache: MemberCache)
      ensures this.pubCache == pubCache
    {
      this.pubCache := pubCache;
    }

    method OpenCreate(data: JsVal, response: Response<JsVal>) returns (calls: seq<Call>)
      modifies pubCache
      ensures calls == CreateEffect(data, response).calls
      ensures pubCache.entries == Applied(old(pubCache.entries), CreateEffect(data, response).cacheWrite)
    {
      var e := CreateEffect(data, response);
      calls := e.calls;
      WriteCache(e, pubCache);
    }

    /** Reads the originals (backend first, then the cache), then on save
        reconciles the associations and overwrites the cache entry. */
    method OpenEdit(id: int, fetched: Response<JsVal>, data: JsVal) returns (calls: seq<Call>)
      modifies pubCache
      ensures var e := EditFlow(id, fetched, old(pubCache.Lookup(Num(Int(id)))), data);
        calls == e.calls && pubCache.entries == Applied(old(pubCache.entries), e.cacheWrite)
    {
      ghost var cached0 := pubCache.Lookup(Num(Int(id)));
      var orig := GetPubById(fetched);
      if orig.Failed? || IdsThrow(orig.body.membres) {
        return [];
      }
      var original := ReadOriginal(orig.body.membres, id, pubCache);
      if !Truthy(data) || IdsThrow(Get(data, "membres")) {
        return [];
      }
      var updated := SelectedIds(Get(data, "membres"), []);
      ghost var e := EditEffect(Kind.Pub, id, original, data);
      assert EditFlow(id, fetched, cached0, data) == e;
      calls := ApplyEdit(Kind.Pub, id, original, updated, pubCache);
      assert calls == e.calls && e.cacheWrite == Some(CacheWrite(Num(Int(id)), updated));
    }
  }
}
