/** The blackboard of the original library, as written: its `get` stores a
    value, and its `remove` only reports whether the key is present. */
module LibBlackBoard {
  import opened Core

  class BlackBoard {
    var data: Board

    /** An empty blackboard. */
    constructor ()
      ensures data == map[]
    {
      data := map[];
    }

    /** Despite its name, stores `value` at `key`, replacing whatever was
        there; every other key keeps its entry. */
    method Get(key: Key, value: Value)
      modifies this
      ensures key in data && data[key] == value
      ensures forall k :: k != key ==> (k in data <==> k in old(data))
      ensures forall k :: k != key && k in data ==> data[k] == old(data)[k]
    {
      data := data[key := value];
    }

    /** Whether `key` has an entry. */
    method ContainsKey(key: Key) returns (present: bool)
      ensures present <==> key in data
    {
      if key !in data {
        return false;
      }
      present := true;
    }

    /** Reports whether `key` has an entry, and removes nothing: the method
        may not modify the blackboard, so the entry stays. */
    method Remove(key: Key) returns (present: bool)
      ensures present <==> key in data
    {
      present := key in data;
    }
  }

  /** Store at "x", remove "x", ask for "x" again: the removal reports the
      key as present and the key is still there afterwards. */
  method RemoveKeepsKey(v: Value) returns (removed: bool, after: bool)
    ensures removed && after
  {
    var bb := new BlackBoard();
    bb.Get("x", v);
    removed := bb.Remove("x");
    after := bb.ContainsKey("x");
  }
}
