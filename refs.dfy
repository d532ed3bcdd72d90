/** Member references as they travel between the dialogs, the components
    and the resource services: a `membres` array whose entries are
    `{id: ..}` objects or bare ids, mapped to numeric ids with `Number(..)`. */
module Refs {
  import opened Js

  /** `{id: N}`, the only shape written to the backend. */
  datatype Ref = Ref(id: Number)

  /** `m => Number(m.id)` */
  function IdOf(m: JsVal): Number {
    ToNumber(Get(m, "id"))
  }

  /** `m => Number(m.id ?? m)`: an entry without an id is itself the id. */
  function IdOrSelf(m: JsVal): Number {
    ToNumber(Coalesce(Get(m, "id"), m))
  }

  /** `membres.map(m => Number(m.id))` */
  function IdsOf(membres: seq<JsVal>): (r: seq<Number>)
    ensures |r| == |membres|
    ensures forall k :: 0 <= k < |r| ==> r[k] == IdOf(membres[k])
  {
    seq(|membres|, k requires 0 <= k < |membres| => IdOf(membres[k]))
  }

  /** `membres.map(m => Number(m.id ?? m))` */
  function IdsOrSelfOf(membres: seq<JsVal>): (r: seq<Number>)
    ensures |r| == |membres|
    ensures forall k :: 0 <= k < |r| ==> r[k] == IdOrSelf(membres[k])
  {
    seq(|membres|, k requires 0 <= k < |membres| => IdOrSelf(membres[k]))
  }

  /** `membres.map(..)` into `{id: ..}` references */
  function RefsOf(ids: seq<Number>): (r: seq<Ref>)
    ensures |r| == |ids|
    ensures forall k :: 0 <= k < |r| ==> r[k].id == ids[k]
  {
    seq(|ids|, k requires 0 <= k < |ids| => Ref(ids[k]))
  }

  /** The `membres` field of an outbound resource payload: present only
      when the input's `membres` is an array. `orSelf` selects the
      `m.id ?? m` mapping (updatePub) over `m.id`. */
  function PayloadRefs(membres: JsVal, orSelf: bool): Option<seq<Ref>> {
    if membres.Arr? then
      Some(RefsOf(if orSelf then IdsOrSelfOf(membres.items) else IdsOf(membres.items)))
    else None
  }

  /** `data.membres ? data.membres.map(m => Number(m.id ?? m)) : fallback`
      (with arrays; a truthy non-array is out of the model). */
  function SelectedIds(membres: JsVal, fallback: seq<Number>): seq<Number> {
    if Truthy(membres) then IdsOrSelfOf(Items(membres)) else fallback
  }

  /** `x.membres ? x.membres.map(m => Number(m.id)) : []` */
  function StoredIds(membres: JsVal): seq<Number> {
    if Truthy(membres) then IdsOf(Items(membres)) else []
  }

  /** Both mappings read `m.id` of every entry of a truthy `membres`: a
      null or undefined entry makes that read throw, and the handler
      running the mapping stops there. */
  predicate IdsThrow(membres: JsVal) {
    Truthy(membres) && HasNullish(Items(membres))
  }

  /** An id entry `{id: n}` as the dialogs write it. */
  function RefObj(n: Number): JsVal {
    Obj(map["id" := Num(n)])
  }

  /** Reading back references written as `{id: n}` gives the same ids, with
      either mapping. */
  lemma {:induction false} RefObjsReadBack(ids: seq<Number>)
    ensures IdsOf(seq(|ids|, k requires 0 <= k < |ids| => RefObj(ids[k]))) == ids
    ensures IdsOrSelfOf(seq(|ids|, k requires 0 <= k < |ids| => RefObj(ids[k]))) == ids
  {
    var objs := seq(|ids|, k requires 0 <= k < |ids| => RefObj(ids[k]));
    forall k | 0 <= k < |ids|
      ensures IdOf(objs[k]) == ids[k] && IdOrSelf(objs[k]) == ids[k]
    {
      assert Get(objs[k], "id") == Num(ids[k]);
    }
  }
}
