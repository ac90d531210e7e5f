/** The blackboard of the enhanced engine: a key-value store whose values
    keep the type they were stored as, with a typed read. */
module EnhancedBlackBoard {
  import opened Core

  /** A typed read: the payload stored at `key`, provided the key is present
      and was stored with type `ty`. A missing key and a type mismatch both
      give None; only `key in b` tells them apart. */
  function Lookup(b: Board, key: Key, ty: TypeId): (r: Option<seq<int>>)
    ensures r.Some? <==> key in b && b[key].ty == ty
    ensures r.Some? ==> Value(ty, r.value) == b[key]
  {
    if key in b && b[key].ty == ty then Some(b[key].payload) else None
  }

  /** A typed read right after a write at the same key yields the written
      payload for the written type and nothing for every other type. */
  lemma LookupAfterStore(b: Board, key: Key, v: Value, ty: TypeId)
    ensures Lookup(b[key := v], key, ty) == if ty == v.ty then Some(v.payload) else None
  {
  }

  /** A write at one key leaves the typed reads of every other key as they
      were. */
  lemma LookupOtherKey(b: Board, key: Key, v: Value, other: Key, ty: TypeId)
    requires other != key
    ensures Lookup(b[key := v], other, ty) == Lookup(b, other, ty)
  {
  }

  class BlackBoard {
    var data: Board

    /** An empty blackboard. */
    constructor ()
      ensures data == map[]
    {
      data := map[];
    }

    /** Stores `value` at `key`, replacing whatever was there. */
    method Set(key: Key, value: Value)
      modifies this
      ensures key in data && data[key] == value
      ensures forall k :: k != key ==> (k in data <==> k in old(data))
      ensures forall k :: k != key && k in data ==> data[k] == old(data)[k]
    {
      data := data[key := value];
    }

    /** The typed read: Some(payload) iff the key is present with type `ty`. */
    method Get(key: Key, ty: TypeId) returns (r: Option<seq<int>>)
      ensures r == Lookup(data, key, ty)
    {
      if key in data && data[key].ty == ty {
        r := Some(data[key].payload);
      } else {
        r := None;
      }
    }

    method ContainsKey(key: Key) returns (present: bool)
      ensures present <==> key in data
    {
      present := key in data;
    }

    /** Deletes `key` and reports whether it was there. */
    method Remove(key: Key) returns (existed: bool)
      modifies this
      ensures existed <==> key in old(data)
      ensures key !in data
      ensures forall k :: k != key ==> (k in data <==> k in old(data))
      ensures forall k :: k != key && k in data ==> data[k] == old(data)[k]
    {
      existed := key in data;
      data := data - {key};
    }
  }

  /** The blackboard round trip: store a value at "x", read it back with its
      own type and with another type, check presence, remove it and check
      presence again. */
  method StoreReadRemove(v: Value, other: TypeId)
    returns (same: Option<seq<int>>, wrong: Option<seq<int>>, before: bool, removed: bool, after: bool)
    requires other != v.ty
    ensures same == Some(v.payload) && wrong == None
    ensures before && removed && !after
  {
    var bb := new BlackBoard();
    bb.Set("x", v);
    same := bb.Get("x", v.ty);
    wrong := bb.Get("x", other);
    before := bb.ContainsKey("x");
    removed := bb.Remove("x");
    after := bb.ContainsKey("x");
  }
}
