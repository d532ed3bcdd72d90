/** Association reconciliation, shared by the publication, event and tool
    list components: the id-list difference between the original and the
    new member selection, the deduplicated notification set, and the calls
    and cache write an edit produces. */
module Reconcile {
  import opened Js
  import opened Effects
  import opened Refs
  import opened Cache
  import MemberService

  /** `xs.indexOf(x) !== -1`: strict equality, so NaN is never found. */
  predicate Has(xs: seq<Number>, x: Number) {
    exists k :: 0 <= k < |xs| && SameNumber(xs[k], x)
  }

  /** `xs.filter(x => ys.indexOf(x) === -1)`, keeping the order of xs. */
  function Minus(xs: seq<Number>, ys: seq<Number>): seq<Number> {
    if |xs| == 0 then []
    else Minus(xs[..|xs| - 1], ys) + (if Has(ys, xs[|xs| - 1]) then [] else [xs[|xs| - 1]])
  }

  /** `Array.from(new Set(xs))`: first occurrences, in order. A Set
      identifies NaN with NaN, as Dafny's equality does. */
  function Dedup(xs: seq<Number>): seq<Number> {
    if |xs| == 0 then []
    else
      var d := Dedup(xs[..|xs| - 1]);
      if xs[|xs| - 1] in d then d else d + [xs[|xs| - 1]]
  }

  /** The members newly selected. */
  function Added(original: seq<Number>, updated: seq<Number>): seq<Number> {
    Minus(updated, original)
  }

  /** The members no longer selected. */
  function Removed(original: seq<Number>, updated: seq<Number>): seq<Number> {
    Minus(original, updated)
  }

  /** The members to notify: the deduplicated union of added and removed. */
  function Notify(original: seq<Number>, updated: seq<Number>): seq<Number> {
    Dedup(Added(original, updated) + Removed(original, updated))
  }

  predicate NoDuplicates(xs: seq<Number>) {
    forall i, j :: 0 <= i < j < |xs| ==> xs[i] != xs[j]
  }

  lemma HasInt(xs: seq<Number>, i: int)
    ensures Has(xs, Int(i)) <==> Int(i) in xs
  {
    if Int(i) in xs {
      var k :| 0 <= k < |xs| && xs[k] == Int(i);
      assert SameNumber(xs[k], Int(i));
    }
  }

  lemma HasPrefix(xs: seq<Number>, x: Number)
    requires |xs| > 0
    ensures Has(xs, x) <==> Has(xs[..|xs| - 1], x) || SameNumber(xs[|xs| - 1], x)
  {
    if Has(xs, x) && !SameNumber(xs[|xs| - 1], x) {
      var k :| 0 <= k < |xs| && SameNumber(xs[k], x);
      assert xs[..|xs| - 1][k] == xs[k];
    }
    if Has(xs[..|xs| - 1], x) {
      var k :| 0 <= k < |xs| - 1 && SameNumber(xs[..|xs| - 1][k], x);
      assert xs[k] == xs[..|xs| - 1][k];
    }
  }

  /** The difference keeps exactly the entries of xs that `indexOf` does not
      find in ys; NaN is never found, so a NaN entry always survives. */
  lemma {:induction false} MinusMembers(xs: seq<Number>, ys: seq<Number>)
    ensures forall x :: x in Minus(xs, ys) <==> x in xs && !Has(ys, x)
    ensures |Minus(xs, ys)| <= |xs|
  {
    if |xs| > 0 {
      MinusMembers(xs[..|xs| - 1], ys);
      assert xs == xs[..|xs| - 1] + [xs[|xs| - 1]];
    }
  }

  /** Dedup keeps every value once and adds nothing. */
  lemma {:induction false} DedupSpec(xs: seq<Number>)
    ensures forall x :: x in Dedup(xs) <==> x in xs
    ensures NoDuplicates(Dedup(xs))
    ensures |Dedup(xs)| <= |xs|
  {
    if |xs| > 0 {
      DedupSpec(xs[..|xs| - 1]);
      assert xs == xs[..|xs| - 1] + [xs[|xs| - 1]];
    }
  }

  /** An id is added exactly when it is selected now and was not before, and
      removed exactly when it was selected before and is not now. */
  lemma AddedRemovedSpec(original: seq<Number>, updated: seq<Number>, i: int)
    ensures Int(i) in Added(original, updated) <==> Int(i) in updated && Int(i) !in original
    ensures Int(i) in Removed(original, updated) <==> Int(i) in original && Int(i) !in updated
    ensures NaN in updated ==> NaN in Added(original, updated)
    ensures NaN in original ==> NaN in Removed(original, updated)
  {
    MinusMembers(updated, original);
    MinusMembers(original, updated);
    HasInt(original, i);
    HasInt(updated, i);
  }

  /** The notification set is the union of added and removed, each id once,
      and it is empty exactly when nothing was added or removed. */
  lemma NotifySpec(original: seq<Number>, updated: seq<Number>)
    ensures forall x :: x in Notify(original, updated) <==>
              x in Added(original, updated) || x in Removed(original, updated)
    ensures NoDuplicates(Notify(original, updated))
    ensures |Notify(original, updated)| == 0 <==>
              |Added(original, updated)| == 0 && |Removed(original, updated)| == 0
  {
    var a, r := Added(original, updated), Removed(original, updated);
    DedupSpec(a + r);
    if |a| > 0 {
      assert a[0] in a + r;
    } else if |r| > 0 {
      assert r[0] in a + r;
    }
  }

  /** When every entry of xs is an integer that ys also holds, the
      difference is empty. */
  lemma CoveredMinusEmpty(xs: seq<Number>, ys: seq<Number>)
    requires NaN !in xs
    requires forall x :: x in xs ==> x in ys
    ensures Minus(xs, ys) == []
  {
    MinusMembers(xs, ys);
    forall x | x in xs ensures Has(ys, x) {
      HasInt(ys, x.i);
    }
    assert forall x :: x !in Minus(xs, ys);
  }

  /** When the two selections hold the same ids (and no NaN), nothing is
      added, removed or notified. */
  lemma SameSelectionNoChange(original: seq<Number>, updated: seq<Number>)
    requires NaN !in original && NaN !in updated
    requires forall x :: x in original <==> x in updated
    ensures Added(original, updated) == [] && Removed(original, updated) == []
    ensures Notify(original, updated) == []
  {
    CoveredMinusEmpty(updated, original);
    CoveredMinusEmpty(original, updated);
  }

  // ---------------------------------------------------------------------
  // The calls an edit issues

  /** The calls of an edit, in issue order. When members were added, the
      link calls are issued first, then the unlink calls (issued without
      waiting), and the notification goes out once the link join completes,
      after both. With nothing added, the notification (if any) is emitted
      at once, before the unlinks. */
  function EditCalls(kind: Kind, resource: JsVal, original: seq<Number>, updated: seq<Number>): seq<Call> {
    var added := Added(original, updated);
    var removed := Removed(original, updated);
    var notify := Notify(original, updated);
    if |added| > 0 then
      MemberService.AffectMembers(kind, resource, Some(added)) + UnlinkCalls(kind, resource, removed) + [Emit(kind, notify)]
    else
      EmitIfAny(kind, notify) + UnlinkCalls(kind, resource, removed)
  }

  lemma LinkCallsMembers(kind: Kind, resource: JsVal, ids: seq<Number>)
    ensures forall m, r :: Link(kind, m, r) in LinkCalls(kind, resource, ids) <==> r == resource && m in ids
    ensures forall c :: c in LinkCalls(kind, resource, ids) ==> c.Link?
  {
    var calls := LinkCalls(kind, resource, ids);
    forall m | m in ids ensures Link(kind, m, resource) in calls {
      var k :| 0 <= k < |ids| && ids[k] == m;
      assert calls[k] == Link(kind, m, resource);
    }
  }

  lemma UnlinkCallsMembers(kind: Kind, resource: JsVal, ids: seq<Number>)
    ensures forall m, r :: Unlink(kind, m, r) in UnlinkCalls(kind, resource, ids) <==> r == resource && m in ids
    ensures forall c :: c in UnlinkCalls(kind, resource, ids) ==> c.Unlink?
  {
    var calls := UnlinkCalls(kind, resource, ids);
    forall m | m in ids ensures Unlink(kind, m, resource) in calls {
      var k :| 0 <= k < |ids| && ids[k] == m;
      assert calls[k] == Unlink(kind, m, resource);
    }
  }

  /** The edit's calls are its link calls, its unlink calls and its
      notification, in one of the two orders. */
  lemma EditCallsShape(kind: Kind, resource: JsVal, original: seq<Number>, updated: seq<Number>)
    ensures var added := Added(original, updated);
      EditCalls(kind, resource, original, updated) ==
        if |added| > 0 then
          LinkCalls(kind, resource, added) + UnlinkCalls(kind, resource, Removed(original, updated))
            + [Emit(kind, Notify(original, updated))]
        else
          EmitIfAny(kind, Notify(original, updated)) + UnlinkCalls(kind, resource, Removed(original, updated))
  {
  }

  /** An edit links exactly the added members and unlinks exactly the
      removed ones, all on the edited resource. */
  lemma EditLinksAndUnlinks(kind: Kind, resource: JsVal, original: seq<Number>, updated: seq<Number>)
    ensures forall m, r :: Link(kind, m, r) in EditCalls(kind, resource, original, updated) <==>
              r == resource && m in Added(original, updated)
    ensures forall m, r :: Unlink(kind, m, r) in EditCalls(kind, resource, original, updated) <==>
              r == resource && m in Removed(original, updated)
    ensures forall c :: c in EditCalls(kind, resource, original, updated) ==> c.Link? || c.Unlink? || c.Emit?
  {
    var added, removed := Added(original, updated), Removed(original, updated);
    var links, unlinks := LinkCalls(kind, resource, added), UnlinkCalls(kind, resource, removed);
    EditCallsShape(kind, resource, original, updated);
    LinkCallsMembers(kind, resource, added);
    UnlinkCallsMembers(kind, resource, removed);
    var calls := EditCalls(kind, resource, original, updated);
    if |added| > 0 {
      assert calls == links + unlinks + [Emit(kind, Notify(original, updated))];
    } else {
      assert links == [];
      assert calls == EmitIfAny(kind, Notify(original, updated)) + unlinks;
    }
  }

  /** An edit emits one notification, carrying the deduplicated union of
      added and removed, exactly when that union is non-empty; when members
      were added it is the last call. */
  lemma EditNotifies(kind: Kind, resource: JsVal, original: seq<Number>, updated: seq<Number>)
    ensures forall c :: c in EditCalls(kind, resource, original, updated) && c.Emit? ==>
              c == Emit(kind, Notify(original, updated))
    ensures (Emit(kind, Notify(original, updated)) in EditCalls(kind, resource, original, updated))
              <==> |Notify(original, updated)| > 0
    ensures |Added(original, updated)| > 0 ==>
              var calls := EditCalls(kind, resource, original, updated);
              calls[|calls| - 1] == Emit(kind, Notify(original, updated))
  {
    var added, removed, notify := Added(original, updated), Removed(original, updated), Notify(original, updated);
    var unlinks := UnlinkCalls(kind, resource, removed);
    EditCallsShape(kind, resource, original, updated);
    UnlinksOnly(kind, resource, removed);
    NotifySpec(original, updated);
    if |added| > 0 {
      LinksOnly(kind, resource, added);
      assert |notify| > 0 by { assert added[0] in added; }
      EmitAfterCalls(LinkCalls(kind, resource, added), unlinks, Emit(kind, notify));
    } else {
      EmitBeforeUnlinks(kind, notify, unlinks);
    }
  }

  lemma LinksOnly(kind: Kind, resource: JsVal, ids: seq<Number>)
    ensures forall c :: c in LinkCalls(kind, resource, ids) ==> c.Link?
  {
    var calls := LinkCalls(kind, resource, ids);
    forall c | c in calls ensures c.Link? {
      var k :| 0 <= k < |calls| && calls[k] == c;
    }
  }

  lemma UnlinksOnly(kind: Kind, resource: JsVal, ids: seq<Number>)
    ensures forall c :: c in UnlinkCalls(kind, resource, ids) ==> c.Unlink?
  {
    var calls := UnlinkCalls(kind, resource, ids);
    forall c | c in calls ensures c.Unlink? {
      var k :| 0 <= k < |calls| && calls[k] == c;
    }
  }

  /** Links, then unlinks, then one emission: that emission is the only
      one and comes last. */
  lemma EmitAfterCalls(links: seq<Call>, unlinks: seq<Call>, e: Call)
    requires forall c :: c in links ==> c.Link?
    requires forall c :: c in unlinks ==> c.Unlink?
    ensures forall c :: c in links + unlinks + [e] && c.Emit? ==> c == e
    ensures e in links + unlinks + [e]
    ensures (links + unlinks + [e])[|links + unlinks + [e]| - 1] == e
  {
    forall c | c in links + unlinks + [e] && c.Emit? ensures c == e {
      assert c in links || c in unlinks || c in [e];
    }
  }

  /** An optional emission before unlinks: the emission, if any, is the
      only one. */
  lemma EmitBeforeUnlinks(kind: Kind, notify: seq<Number>, unlinks: seq<Call>)
    requires forall c :: c in unlinks ==> c.Unlink?
    ensures forall c :: c in EmitIfAny(kind, notify) + unlinks && c.Emit? ==> c == Emit(kind, notify)
    ensures Emit(kind, notify) in EmitIfAny(kind, notify) + unlinks <==> |notify| > 0
  {
    var calls := EmitIfAny(kind, notify) + unlinks;
    forall c | c in calls && c.Emit? ensures c == Emit(kind, notify) {
      assert c in EmitIfAny(kind, notify) || c in unlinks;
    }
    if |notify| > 0 {
      assert calls[0] == Emit(kind, notify);
    }
  }

  /** The order and number of an edit's requests: with additions every
      link comes before every other request, without additions there is no
      link at all; and there is one request per added id, one per removed
      id, and one notification exactly when some id changed. */
  lemma EditCallsOrder(kind: Kind, resource: JsVal, original: seq<Number>, updated: seq<Number>)
    ensures var calls := EditCalls(kind, resource, original, updated);
      |Added(original, updated)| > 0 ==>
        forall i, j :: 0 <= i < |calls| && 0 <= j < |calls| && calls[i].Link? && !calls[j].Link? ==> i < j
    ensures |Added(original, updated)| == 0 ==>
      forall c :: c in EditCalls(kind, resource, original, updated) ==> !c.Link?
    ensures |EditCalls(kind, resource, original, updated)| ==
      |Added(original, updated)| + |Removed(original, updated)| + (if |Notify(original, updated)| > 0 then 1 else 0)
  {
    EditCallsLinksFirst(kind, resource, original, updated);
    EditCallsCount(kind, resource, original, updated);
  }

  lemma EditCallsLinksFirst(kind: Kind, resource: JsVal, original: seq<Number>, updated: seq<Number>)
    ensures var calls := EditCalls(kind, resource, original, updated);
      |Added(original, updated)| > 0 ==>
        forall i, j :: 0 <= i < |calls| && 0 <= j < |calls| && calls[i].Link? && !calls[j].Link? ==> i < j
    ensures |Added(original, updated)| == 0 ==>
      forall c :: c in EditCalls(kind, resource, original, updated) ==> !c.Link?
  {
    var added, removed, notify := Added(original, updated), Removed(original, updated), Notify(original, updated);
    var unlinks := UnlinkCalls(kind, resource, removed);
    EditCallsShape(kind, resource, original, updated);
    UnlinksOnly(kind, resource, removed);
    if |added| > 0 {
      LinksOnly(kind, resource, added);
      LinksBeforeRest(LinkCalls(kind, resource, added), unlinks, Emit(kind, notify));
    } else {
      NoLinks(EmitIfAny(kind, notify), unlinks);
    }
  }

  lemma EditCallsCount(kind: Kind, resource: JsVal, original: seq<Number>, updated: seq<Number>)
    ensures |EditCalls(kind, resource, original, updated)| ==
      |Added(original, updated)| + |Removed(original, updated)| + (if |Notify(original, updated)| > 0 then 1 else 0)
  {
    var added, notify := Added(original, updated), Notify(original, updated);
    EditCallsShape(kind, resource, original, updated);
    NotifySpec(original, updated);
    if |added| > 0 {
      assert |notify| > 0 by { assert added[0] in added; }
    }
  }

  lemma LinksBeforeRest(links: seq<Call>, unlinks: seq<Call>, e: Call)
    requires forall c :: c in links ==> c.Link?
    requires forall c :: c in unlinks ==> c.Unlink?
    requires e.Emit?
    ensures var calls := links + unlinks + [e];
      forall i, j :: 0 <= i < |calls| && 0 <= j < |calls| && calls[i].Link? && !calls[j].Link? ==> i < j
  {
    assert forall c :: c in unlinks + [e] ==> c.Unlink? || c.Emit?;
    LinksFirst(links, unlinks + [e]);
    assert links + unlinks + [e] == links + (unlinks + [e]);
  }

  lemma LinksFirst(links: seq<Call>, rest: seq<Call>)
    requires forall c :: c in links ==> c.Link?
    requires forall c :: c in rest ==> c.Unlink? || c.Emit?
    ensures var calls := links + rest;
      forall i, j :: 0 <= i < |calls| && 0 <= j < |calls| && calls[i].Link? && !calls[j].Link? ==> i < j
  {
    var calls := links + rest;
    assert forall k :: |links| <= k < |calls| ==> calls[k] == rest[k - |links|] && rest[k - |links|] in rest;
  }

  lemma NoLinks(emits: seq<Call>, unlinks: seq<Call>)
    requires forall c :: c in emits ==> c.Emit?
    requires forall c :: c in unlinks ==> c.Unlink?
    ensures forall c :: c in emits + unlinks ==> !c.Link?
  {
    forall c | c in emits + unlinks ensures !c.Link? {
      assert c in emits || c in unlinks;
    }
  }

  /** When the selection did not change, an edit issues nothing. */
  lemma UnchangedSelectionIssuesNothing(kind: Kind, resource: JsVal, original: seq<Number>, updated: seq<Number>)
    requires NaN !in original && NaN !in updated
    requires forall x :: x in original <==> x in updated
    ensures EditCalls(kind, resource, original, updated) == []
  {
    SameSelectionNoChange(original, updated);
  }

  /** Editing tool 8 from members {1, 2} to {2, 3} links 3, unlinks 1 and
      notifies [3, 1]. */
  lemma ToolEditExample()
    ensures EditCalls(Outil, Num(Int(8)), [Int(1), Int(2)], [Int(2), Int(3)])
         == [Link(Outil, Int(3), Num(Int(8))), Unlink(Outil, Int(1), Num(Int(8))), Emit(Outil, [Int(3), Int(1)])]
  {
    var r := Num(Int(8));
    ToolEditAdded();
    ToolEditRemoved();
    ToolEditNotify();
    var links := MemberService.AffectMembers(Outil, r, Some([Int(3)]));
    var unlinks := UnlinkCalls(Outil, r, [Int(1)]);
    assert links == [Link(Outil, Int(3), r)];
    assert unlinks == [Unlink(Outil, Int(1), r)];
    assert EditCalls(Outil, r, [Int(1), Int(2)], [Int(2), Int(3)]) == links + unlinks + [Emit(Outil, [Int(3), Int(1)])];
  }

  lemma ToolEditNotify()
    requires Added([Int(1), Int(2)], [Int(2), Int(3)]) == [Int(3)]
    requires Removed([Int(1), Int(2)], [Int(2), Int(3)]) == [Int(1)]
    ensures Notify([Int(1), Int(2)], [Int(2), Int(3)]) == [Int(3), Int(1)]
  {
    var both := [Int(3)] + [Int(1)];
    assert both == [Int(3), Int(1)] && both[..1] == [Int(3)];
    assert Dedup([Int(3)]) == [Int(3)] by { assert [Int(3)][..0] == []; }
  }

  lemma ToolEditAdded()
    ensures Added([Int(1), Int(2)], [Int(2), Int(3)]) == [Int(3)]
  {
    var o, u := [Int(1), Int(2)], [Int(2), Int(3)];
    assert Has(o, Int(2)) by { assert SameNumber(o[1], Int(2)); }
    assert u[..1] == [Int(2)] && [Int(2)][..0] == [];
    assert Minus([Int(2)], o) == [];
  }

  lemma ToolEditRemoved()
    ensures Removed([Int(1), Int(2)], [Int(2), Int(3)]) == [Int(1)]
  {
    var o, u := [Int(1), Int(2)], [Int(2), Int(3)];
    assert Has(u, Int(2)) by { assert SameNumber(u[0], Int(2)); }
    assert o[..1] == [Int(1)] && [Int(1)][..0] == [];
    assert Minus([Int(1)], u) == [Int(1)];
  }

  // ---------------------------------------------------------------------
  // Original ids and the edit effect

  /** The original selection: the backend's member ids when there are any,
      otherwise the cached ids when those are non-empty. */
  function OriginalIds(membres: JsVal, cached: Option<seq<Number>>): (r: seq<Number>)
    ensures |StoredIds(membres)| > 0 ==> r == StoredIds(membres)
    ensures |StoredIds(membres)| == 0 && cached.Some? && |cached.value| > 0 ==> r == cached.value
    ensures |StoredIds(membres)| == 0 && (cached.None? || |cached.value| == 0) ==> r == []
  {
    var fromBackend := StoredIds(membres);
    if |fromBackend| == 0 && cached.Some? && |cached.value| > 0 then cached.value else fromBackend
  }

  /** A write to a resource kind's association cache. */
  datatype CacheWrite = CacheWrite(key: JsVal, ids: seq<Number>)

  /** What a create, edit or delete handler does: the calls it issues and
      the cache write it makes, if any. */
  datatype Effect = Effect(calls: seq<Call>, cacheWrite: Option<CacheWrite>)

  const NoEffect := Effect([], None)

  /** An edit whose update succeeded (or whose failure was swallowed): the
      reconciliation calls and the cache set to the new selection. */
  function EditEffect(kind: Kind, id: int, original: seq<Number>, data: JsVal): (e: Effect)
    ensures e.cacheWrite == Some(CacheWrite(Num(Int(id)), SelectedIds(Get(data, "membres"), [])))
    ensures e.calls == EditCalls(kind, Num(Int(id)), original, SelectedIds(Get(data, "membres"), []))
  {
    var updated := SelectedIds(Get(data, "membres"), []);
    Effect(EditCalls(kind, Num(Int(id)), original, updated), Some(CacheWrite(Num(Int(id)), updated)))
  }

  /** The edit handlers' original selection: the backend's member ids,
      or, when there are none, a non-empty cached list. */
  method ReadOriginal(membres: JsVal, id: int, cache: MemberCache) returns (original: seq<Number>)
    ensures original == OriginalIds(membres, cache.Lookup(Num(Int(id))))
  {
    original := StoredIds(membres);
    if |original| == 0 {
      var cached := cache.Get(Num(Int(id)));
      if cached.Some? && |cached.value| > 0 {
        original := cached.value;
      }
    }
  }

  /** Performs an edit's reconciliation: issues the link calls, overwrites
      the cache entry with the new selection, issues one unlink per removed
      id (in a loop, errors ignored), and emits the notification. */
  method ApplyEdit(kind: Kind, id: int, original: seq<Number>, updated: seq<Number>, cache: MemberCache)
    returns (calls: seq<Call>)
    modifies cache
    ensures calls == EditCalls(kind, Num(Int(id)), original, updated)
    ensures cache.entries == old(cache.entries)[Int(id) := updated]
  {
    var resource := Num(Int(id));
    var added := Added(original, updated);
    var removed := Removed(original, updated);
    var notify := Notify(original, updated);
    calls := [];
    if |added| > 0 {
      calls := MemberService.AffectMembers(kind, resource, Some(added));
    } else if |notify| > 0 {
      calls := [Emit(kind, notify)];
    }
    cache.Set(resource, Some(updated));
    var unlinks := UnlinkEach(kind, resource, removed);
    calls := calls + unlinks;
    if |added| > 0 {
      calls := calls + [Emit(kind, notify)];
    }
  }

  /** The `removed.forEach` loop: one unlink per removed id, in order. */
  method UnlinkEach(kind: Kind, resource: JsVal, removed: seq<Number>) returns (calls: seq<Call>)
    ensures calls == UnlinkCalls(kind, resource, removed)
  {
    calls := [];
    for i := 0 to |removed|
      invariant calls == UnlinkCalls(kind, resource, removed[..i])
    {
      assert removed[..i + 1] == removed[..i] + [removed[i]];
      calls := calls + [Unlink(kind, removed[i], resource)];
    }
    assert removed[..|removed|] == removed;
  }

  /** The cache entries after a handler's write, if it makes one. */
  function Applied(entries: map<Number, seq<Number>>, w: Option<CacheWrite>): map<Number, seq<Number>> {
    if w.Some? then entries[ToNumber(w.value.key) := w.value.ids] else entries
  }

  /** Applies a handler's cache write. */
  method WriteCache(e: Effect, cache: MemberCache)
    modifies cache
    ensures cache.entries == Applied(old(cache.entries), e.cacheWrite)
  {
    if e.cacheWrite.Some? {
      cache.Set(e.cacheWrite.value.key, Some(e.cacheWrite.value.ids));
    }
  }

  /** The cache's purpose: when the backend does not yet return a
      resource's members, an edit takes the originals from the cache entry
      the previous create or edit wrote, so reopening the dialog and saving
      the same selection issues no call and notifies no one. */
  lemma {:induction false} CachedSelectionKeepsEditSilent(
    kind: Kind, id: int, entries: map<Number, seq<Number>>, membres: JsVal, data: JsVal)
    requires Int(id) in entries && |entries[Int(id)]| > 0 && NaN !in entries[Int(id)]
    requires StoredIds(membres) == []
    requires SelectedIds(Get(data, "membres"), []) == entries[Int(id)]
    ensures EditEffect(kind, id, OriginalIds(membres, LookupIn(entries, Num(Int(id)))), data).calls == []
    ensures EditEffect(kind, id, OriginalIds(membres, LookupIn(entries, Num(Int(id)))), data).cacheWrite
            == Some(CacheWrite(Num(Int(id)), entries[Int(id)]))
  {
    var ids := entries[Int(id)];
    assert OriginalIds(membres, LookupIn(entries, Num(Int(id)))) == ids;
    UnchangedSelectionIssuesNothing(kind, Num(Int(id)), ids, ids);
  }

  // ---------------------------------------------------------------------
  // Create and delete

  /** After a create: link every selected id to the new resource and emit
      them (unchanged, not deduplicated) once the join completes; nothing for
      an empty selection. */
  function CreateCalls(kind: Kind, resource: JsVal, ids: seq<Number>): (r: seq<Call>)
    ensures |ids| == 0 ==> r == []
    ensures |ids| > 0 ==> |r| == |ids| + 1 && r[|ids|] == Emit(kind, ids)
    ensures |ids| > 0 ==> forall k :: 0 <= k < |ids| ==> r[k] == Link(kind, ids[k], resource)
  {
    if |ids| > 0 then MemberService.AffectMembers(kind, resource, Some(ids)) + [Emit(kind, ids)] else []
  }

  /** A resource delete after the confirmation: fetch the resource for its
      member ids, delete it, and once the delete succeeds emit those ids if
      there are any; if the fetch fails, delete without notifying. */
  function DeleteCalls(kind: Kind, id: int, confirmed: bool, fetched: Response<seq<Number>>,
                       deleted: Response<()>): (r: seq<Call>)
    ensures !confirmed ==> r == []
    ensures confirmed ==> |r| > 0 && r[0] == DeleteResource(kind, id)
    ensures forall c :: c in r && c.Emit? ==>
      && confirmed && fetched.Ok? && deleted.Ok?
      && c == Emit(kind, fetched.body) && |fetched.body| > 0
    ensures confirmed && fetched.Ok? && deleted.Ok? && |fetched.body| > 0 ==> Emit(kind, fetched.body) in r
    ensures |r| <= 2
  {
    if !confirmed then []
    else if fetched.Failed? then [DeleteResource(kind, id)]
    else [DeleteResource(kind, id)] + (if deleted.Ok? then EmitIfAny(kind, fetched.body) else [])
  }
}
