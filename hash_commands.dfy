/** The handlers under src/commands/hash/: HSET, which upserts fields of a
    hash stored under a key, and HGETALL, which replies the whole hash. */
module HashCommands {
  import opened Wrappers
  import opened Values
  import opened Replies
  import opened Storage
  import opened Sessions
  import opened CoreCommands

  /** The hash HSET starts from: the stored one, or an empty one. */
  function FieldsOf(m: map<string, Value>, key: string): map<string, Value>
  {
    if key in m && m[key].Hashmap? then m[key].h else map[]
  }

  /** HSET key field value [field value ...]: upserts the pairs in order,
      creating an empty hash for an absent key before the first one; stops
      at the first field that is not a `String`; refuses a key bound to
      something other than a hash; replies how many pairs it wrote. */
  function HSetEffect(args: seq<Value>, m: map<string, Value>): Effect
  {
    if |args| < 3 || |args| % 2 != 1 then Effect(Error(ArityError), m)
    else if !args[0].String? then Effect(Error(InvalidKey), m)
    else
      var key := args[0].s;
      var n := KeyedPrefix(args[1..]);
      if n == 0 then Effect(Integer(0), m)
      else if key in m && !m[key].Hashmap? then Effect(Error(NotAHashmap), m)
      else Effect(Integer(n / 2), m[key := Hashmap(WritePairs(FieldsOf(m, key), args[1..][..n]))])
  }

  /** HSET's effect, given where its run of `String` fields ends. */
  lemma HSetEffectAt(args: seq<Value>, m: map<string, Value>, n: nat)
    requires |args| >= 3 && |args| % 2 == 1 && args[0].String?
    requires KeyedPrefix(args[1..]) == n
    ensures n == 0 ==> HSetEffect(args, m) == Effect(Integer(0), m)
    ensures n > 0 && args[0].s in m && !m[args[0].s].Hashmap? ==>
      HSetEffect(args, m) == Effect(Error(NotAHashmap), m)
    ensures n > 0 && (args[0].s !in m || m[args[0].s].Hashmap?) ==>
      HSetEffect(args, m)
        == Effect(Integer(n / 2), m[args[0].s := Hashmap(WritePairs(FieldsOf(m, args[0].s), args[1..][..n]))])
  {
  }


  /** One step of the HSET loop: the entry for `key`, created as an empty
      hash if absent, gets `field` set to `value`; a key bound to anything
      but a hash is left alone and reported. */
  method Upsert(store: Store, key: string, field: string, value: Value) returns (isHash: bool)
    modifies store
    ensures isHash <==> key !in old(store.inner) || old(store.inner)[key].Hashmap?
    ensures isHash ==> store.inner == old(store.inner)[key := Hashmap(FieldsOf(old(store.inner), key)[field := value])]
    ensures !isHash ==> store.inner == old(store.inner)
  {
    var current := store.Get(key);
    if current.None? {
      store.Set(key, Hashmap(map[]));
      current := Some(Hashmap(map[]));
    }
    match current.value {
      case Hashmap(fields) =>
        store.Set(key, Hashmap(fields[field := value]));
        isHash := true;
      case _ =>
        isHash := false;
    }
  }

  /** The store after the first `j` fields have been written. */
  function Written(start: map<string, Value>, key: string, fields: seq<Value>, j: nat): map<string, Value>
    requires j <= |fields| && KeyedPairs(fields[..j])
  {
    if j == 0 then start else start[key := Hashmap(WritePairs(FieldsOf(start, key), fields[..j]))]
  }

  /** One turn of the HSET loop writes the next pair. */
  lemma HSetStep(start: map<string, Value>, key: string, fields: seq<Value>, j: nat, before: map<string, Value>)
    requires j % 2 == 0 && j + 2 <= |fields| && KeyedPairs(fields[..j + 2])
    requires KeyedPairs(fields[..j]) && before == Written(start, key, fields, j)
    requires j > 0 ==> key !in start || start[key].Hashmap?
    requires key !in before || before[key].Hashmap?
    ensures key !in start || start[key].Hashmap?
    ensures before[key := Hashmap(FieldsOf(before, key)[fields[j].s := fields[j + 1]])]
      == Written(start, key, fields, j + 2)
  {
    WritePairsStep(FieldsOf(start, key), fields, j);
    if j == 0 {
      assert fields[..0] == [];
    }
  }

  method HandleHSet(args: seq<Value>, store: Store) returns (out: Outcome)
    modifies store
    ensures out == Sent(Resp2(HSetEffect(args, old(store.inner)).reply))
    ensures store.inner == HSetEffect(args, old(store.inner)).store
  {
    if |args| < 3 || |args| % 2 != 1 {
      return Sent(Resp2(Error(ArityError)));
    }
    if !args[0].String? {
      return Sent(Resp2(Error(InvalidKey)));
    }
    var key := args[0].s;
    var fields := args[1..];
    ghost var start := store.inner;
    ghost var n := KeyedPrefix(fields);
    var count := 0;
    var j := 0;
    while j < |fields| && fields[j].String?
      invariant 0 <= j <= |fields| && j == 2 * count
      invariant j <= n
      invariant KeyedPairs(fields[..j])
      invariant j > 0 ==> key !in start || start[key].Hashmap?
      invariant store.inner == Written(start, key, fields, j)
    {
      KeyedPrefixGrows(fields, j);
      PairsGrow(fields, j);
      ghost var before := store.inner;
      var isHash := Upsert(store, key, fields[j].s, fields[j + 1]);
      if !isHash {
        HSetEffectAt(args, start, n);
        assert HSetEffect(args, start) == Effect(Error(NotAHashmap), start);
        return Sent(Resp2(Error(NotAHashmap)));
      }
      HSetStep(start, key, fields, j, before);
      count := count + 1;
      j := j + 2;
    }
    KeyedPrefixAt(fields, j);
    HSetEffectAt(args, start, j);
    assert j / 2 == count by {
      assert j == count * 2;
    }
    assert HSetEffect(args, start).reply == Integer(count);
    assert HSetEffect(args, start).store == store.inner;
    out := Sent(Resp2(Integer(count)));
  }

  /** HGETALL key: the stored hash through the session's encoder, `Nil`
      likewise for an absent key, and an error for any other value, a hash
      wrapped with a deadline included. */
  function HGetAllReply(args: seq<Value>, m: map<string, Value>, version: int): Reply
    requires version == 2 || version == 3
  {
    if |args| != 1 then Resp2(Error(ArityError))
    else if !args[0].String? then Resp2(Error(InvalidKey))
    else if args[0].s !in m then Versioned(version, Nil)
    else if m[args[0].s].Hashmap? then Versioned(version, m[args[0].s])
    else Resp2(Error(NotAHashmap))
  }

  method HandleHGetAll(args: seq<Value>, session: Session) returns (out: Outcome)
    requires session.Valid()
    ensures out == Sent(HGetAllReply(args, session.state.store.inner, session.protoVersion))
  {
    if |args| != 1 {
      return Sent(Resp2(Error(ArityError)));
    }
    var key := args[0];
    if !key.String? {
      return Sent(Resp2(Error(InvalidKey)));
    }
    var found := session.state.store.Get(key.s);
    match found {
      case Some(value) =>
        if value.Hashmap? {
          var r := session.VersionedResponse(value);
          out := Sent(r);
        } else {
          out := Sent(Resp2(Error(NotAHashmap)));
        }
      case None =>
        var r := session.VersionedResponse(Nil);
        out := Sent(r);
    }
  }

  /** Two HSET pairs on an absent key create a hash holding them (the
      second winning if the fields coincide), which HGETALL then replies
      with the session's encoder. */
  lemma HSetThenHGetAll(m: map<string, Value>, key: string, f1: string, v1: Value, f2: string, v2: Value, version: int)
    requires version == 2 || version == 3
    requires key !in m
    ensures var e := HSetEffect([String(key), String(f1), v1, String(f2), v2], m);
      && e.reply == Integer(2)
      && HGetAllReply([String(key)], e.store, version) == Versioned(version, Hashmap(map[f1 := v1][f2 := v2]))
  {
    var args := [String(key), String(f1), v1, String(f2), v2];
    var fields := args[1..];
    assert fields == [String(f1), v1, String(f2), v2];
    KeyedPrefixAt(fields, 4);
    assert fields[..4] == fields;
    assert fields[..2] == [String(f1), v1];
    assert WritePairs(map[], fields[..2]) == map[f1 := v1] by {
      assert fields[..2][..0] == [];
    }
    assert WritePairs(map[], fields) == map[f1 := v1][f2 := v2];
  }

  /** A successful HSET on a hash keeps every field it does not name and
      adds exactly the fields it names. */
  lemma HSetKeepsOtherFields(args: seq<Value>, m: map<string, Value>)
    requires |args| >= 3 && |args| % 2 == 1 && args[0].String?
    requires args[0].s in m && m[args[0].s].Hashmap?
    requires KeyedPairs(args[1..])
    ensures var e := HSetEffect(args, m); var h := m[args[0].s].h;
      && e.reply == Integer((|args| - 1) / 2)
      && e.store[args[0].s].Hashmap?
      && e.store[args[0].s].h.Keys == h.Keys + PairKeys(args[1..])
      && (forall f :: f in h && f !in PairKeys(args[1..]) ==> e.store[args[0].s].h[f] == h[f])
      && (forall k :: k in m && k != args[0].s ==> k in e.store && e.store[k] == m[k])
  {
    var fields := args[1..];
    KeyedPrefixAt(fields, |fields|);
    assert fields[..|fields|] == fields;
    WritePairsFrame(m[args[0].s].h, fields);
  }

  /** HSET stops at a non-`String` field: the pairs before it are written
      and counted, the rest are ignored without an error. */
  lemma HSetStopsAtBadField(m: map<string, Value>, key: string, f: string, v: Value, bad: Value, w: Value)
    requires !bad.String? && key !in m
    ensures HSetEffect([String(key), String(f), v, bad, w], m) == Effect(Integer(1), m[key := Hashmap(map[f := v])])
  {
    var fields := [String(key), String(f), v, bad, w][1..];
    assert fields == [String(f), v, bad, w];
    KeyedPrefixAt(fields, 2);
    assert fields[..2] == [String(f), v];
    assert WritePairs(map[], fields[..2]) == map[f := v] by {
      assert fields[..2][..0] == [];
    }
  }

  /** HSET on a key bound to something other than a hash is refused and
      changes nothing, unless its first field is not a `String`, in which
      case it writes nothing and replies 0. */
  lemma HSetOnNonHash(args: seq<Value>, m: map<string, Value>)
    requires |args| >= 3 && |args| % 2 == 1 && args[0].String?
    requires args[0].s in m && !m[args[0].s].Hashmap?
    ensures HSetEffect(args, m).store == m
    ensures args[1].String? ==> HSetEffect(args, m).reply == Error(NotAHashmap)
    ensures !args[1].String? ==> HSetEffect(args, m).reply == Integer(0)
  {
    var fields := args[1..];
    assert fields[0] == args[1];
    if !args[1].String? {
      assert fields[..0] == [];
      KeyedPrefixAt(fields, 0);
    }
  }
}
