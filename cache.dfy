/** The per-service association cache (`memberCache`): PubService,
    EvtService and OutilService each own one, with identical code. It maps
    `Number(resourceId)` to the member ids last written for that resource. */
module Cache {
  import opened Js

  class MemberCache {
    var entries: map<Number, seq<Number>>

    constructor ()
      ensures entries == map[]
    {
      entries := map[];
    }

    /** `setMembersFor*(id, memberIds)`: stores `memberIds || []` under
        `Number(id)`; an absent (`null`/`undefined`) list is stored as []. */
    method Set(id: JsVal, memberIds: Option<seq<Number>>)
      modifies this
      ensures entries == old(entries)[ToNumber(id) := StoredList(memberIds)]
      ensures Lookup(id) == Some(StoredList(memberIds))
      ensures forall k :: k != ToNumber(id) ==> (k in entries <==> k in old(entries))
      ensures forall k :: k != ToNumber(id) && k in entries ==> entries[k] == old(entries)[k]
    {
      entries := entries[ToNumber(id) := StoredList(memberIds)];
    }

    /** `getMembersFor*(id)`: the stored list, or None (`undefined`) for an
        id never set. */
    method Get(id: JsVal) returns (r: Option<seq<Number>>)
      ensures r == Lookup(id)
      ensures r.None? <==> ToNumber(id) !in entries
      ensures r.Some? ==> r.value == entries[ToNumber(id)]
    {
      var key := ToNumber(id);
      if key in entries {
        r := Some(entries[key]);
      } else {
        r := None;
      }
    }

    function Lookup(id: JsVal): Option<seq<Number>>
      reads this
    {
      LookupIn(entries, id)
    }
  }

  /** Reading an id from a snapshot of the cache's entries. */
  function LookupIn(entries: map<Number, seq<Number>>, id: JsVal): (r: Option<seq<Number>>)
    ensures r.Some? <==> ToNumber(id) in entries
    ensures r.Some? ==> r.value == entries[ToNumber(id)]
  {
    if ToNumber(id) in entries then Some(entries[ToNumber(id)]) else None
  }

  /** `memberIds || []`: an array (even an empty one) is truthy and kept. */
  function StoredList(memberIds: Option<seq<Number>>): seq<Number> {
    if memberIds.Some? then memberIds.value else []
  }

  /** What a caller observes of a fresh cache: set-then-get returns the
      stored list, an absent list reads back as [], and an id that was never
      set (another key after `Number`) reads back as `undefined`. */
  method SetThenGet(id: JsVal, memberIds: Option<seq<Number>>, other: JsVal)
    returns (got: Option<seq<Number>>, gotOther: Option<seq<Number>>)
    ensures memberIds.Some? ==> got == Some(memberIds.value)
    ensures memberIds.None? ==> got == Some([])
    ensures ToNumber(other) != ToNumber(id) ==> gotOther == None
    ensures ToNumber(other) == ToNumber(id) ==> gotOther == got
  {
    var cache := new MemberCache();
    cache.Set(id, memberIds);
    got := cache.Get(id);
    gotOther := cache.Get(other);
  }
}
