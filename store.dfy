/** The key-value store of src/storage/mod.rs: a map from string keys to
    values, updated in place. */
module Storage {
  import opened Wrappers
  import opened Values

  /** What a read of `k` replies: the stored value, or `Nil` when absent. */
  function StoredOrNil(m: map<string, Value>, k: string): Value
  {
    if k in m then m[k] else Nil
  }

  class Store {
    var inner: map<string, Value>

    /** `Store::new`: an empty map. */
    constructor ()
      ensures inner == map[]
    {
      inner := map[];
    }

    /** `set`: binds `key` to `value`, replacing any earlier binding; every
        other key keeps its binding. */
    method Set(key: string, value: Value)
      modifies this
      ensures inner == old(inner)[key := value]
    {
      inner := inner[key := value];
    }

    /** `get`: the value bound to `key`, if any. */
    method Get(key: string) returns (r: Option<Value>)
      ensures r.Some? <==> key in inner
      ensures r.Some? ==> r.value == inner[key]
    {
      if key in inner {
        r := Some(inner[key]);
      } else {
        r := None;
      }
    }

    /** `remove`: unbinds `key` and returns what it was bound to. */
    method Remove(key: string) returns (r: Option<Value>)
      modifies this
      ensures r.Some? <==> key in old(inner)
      ensures r.Some? ==> r.value == old(inner)[key]
      ensures inner == old(inner) - {key}
    {
      if key in inner {
        r := Some(inner[key]);
      } else {
        r := None;
      }
      inner := inner - {key};
    }

    /** `keys`: every bound key exactly once, in some order. */
    method Keys() returns (ks: seq<string>)
      ensures |ks| == |inner|
      ensures forall k :: k in ks <==> k in inner
      ensures forall i, j :: 0 <= i < j < |ks| ==> ks[i] != ks[j]
    {
      ks := [];
      var pending := inner.Keys;
      while pending != {}
        invariant pending <= inner.Keys
        invariant forall k :: k in ks ==> k in inner && k !in pending
        invariant forall k :: k in inner ==> k in ks || k in pending
        invariant forall i, j :: 0 <= i < j < |ks| ==> ks[i] != ks[j]
        invariant |ks| + |pending| == |inner.Keys|
        decreases pending
      {
        var k :| k in pending;
        ks := ks + [k];
        pending := pending - {k};
      }
      assert |inner.Keys| == |inner|;
    }

    /** `exists`: whether `key` is bound. */
    method Exists(key: string) returns (b: bool)
      ensures b <==> key in inner
    {
      b := key in inner;
    }

    /** `clear`: unbinds every key. */
    method Clear()
      modifies this
      ensures inner == map[]
    {
      inner := map[];
    }

    /** `len`: the number of bound keys. */
    method Len() returns (n: nat)
      ensures n == |inner|
    {
      n := |inner|;
    }
  }

  /** A `set` is seen by the next `get` and by `exists`. */
  method SetThenGet(store: Store, k: string, v: Value) returns (r: Option<Value>, b: bool)
    modifies store
    ensures r == Some(v) && b
    ensures forall k' :: k' != k ==> (k' in store.inner <==> k' in old(store.inner))
    ensures forall k' :: k' != k && k' in store.inner ==> store.inner[k'] == old(store.inner)[k']
  {
    store.Set(k, v);
    r := store.Get(k);
    b := store.Exists(k);
  }

  /** After `remove`, the key is gone, and a second `remove` finds nothing. */
  method RemoveThenAbsent(store: Store, k: string) returns (first: Option<Value>, second: Option<Value>, b: bool)
    modifies store
    ensures first == (if k in old(store.inner) then Some(old(store.inner)[k]) else None)
    ensures second == None && !b
  {
    first := store.Remove(k);
    second := store.Remove(k);
    b := store.Exists(k);
  }

  /** After `clear`, `len` is 0 and `keys` is empty. */
  method ClearThenEmpty(store: Store) returns (n: nat, ks: seq<string>)
    modifies store
    ensures n == 0 && ks == []
  {
    store.Clear();
    n := store.Len();
    ks := store.Keys();
  }
}
