/** The handlers under src/commands/core/: the nine registered ones (GET,
    SET, MGET, MSET, DEL, EXISTS, KEYS, FLUSHDB, PING) and INFO and HELLO.
    Each is a method over the store or the session, proved against a
    function that states its reply and the state it leaves. */
module CoreCommands {
  import opened Wrappers
  import opened Text
  import opened Values
  import opened Replies
  import opened Storage
  import opened Sessions

  /** The reply a store handler writes and the map it leaves behind. */
  datatype Effect = Effect(reply: Value, store: map<string, Value>)

  predicate AllStrings(vs: seq<Value>)
  {
    forall i :: 0 <= i < |vs| ==> vs[i].String?
  }

  /** Keys and values alternate, and every key is a `String`. */
  predicate KeyedPairs(ps: seq<Value>)
  {
    |ps| % 2 == 0 && forall j :: 0 <= j < |ps| && j % 2 == 0 ==> ps[j].String?
  }

  /** The keys named by the `String` entries of `vs`. */
  function KeySet(vs: seq<Value>): set<string>
  {
    if vs == [] then {}
    else KeySet(vs[..|vs| - 1]) + (if vs[|vs| - 1].String? then {vs[|vs| - 1].s} else {})
  }

  /** `KeySet` holds exactly the keys that some `String` entry names. */
  lemma {:induction false} KeySetMembers(vs: seq<Value>)
    ensures forall j :: 0 <= j < |vs| && vs[j].String? ==> vs[j].s in KeySet(vs)
    ensures forall k :: k in KeySet(vs) ==> String(k) in vs
  {
    if vs != [] {
      var init := vs[..|vs| - 1];
      KeySetMembers(init);
      assert forall v :: v in init ==> v in vs;
      assert forall j :: 0 <= j < |init| ==> vs[j] == init[j];
    }
  }

  lemma KeySetSnoc(vs: seq<Value>, v: Value)
    ensures KeySet(vs + [v]) == KeySet(vs) + (if v.String? then {v.s} else {})
  {
    assert (vs + [v])[..|vs|] == vs;
  }

  /** The keys written by a sequence of pairs. */
  function PairKeys(ps: seq<Value>): set<string>
  {
    set j | 0 <= j < |ps| && j % 2 == 0 && ps[j].String? :: ps[j].s
  }

  // GET

  /** GET key: the stored value as it is, `Expire` wrapper included and not
      checked against the clock, or `Nil`. */
  function GetReply(args: seq<Value>, m: map<string, Value>): Value
  {
    if |args| != 1 then Error(ArityError)
    else if !args[0].String? then Error(InvalidKey)
    else StoredOrNil(m, args[0].s)
  }

  method HandleGet(args: seq<Value>, store: Store) returns (out: Outcome)
    ensures out == Sent(Resp2(GetReply(args, store.inner)))
  {
    if |args| != 1 {
      return Sent(Resp2(Error(ArityError)));
    }
    var key := args[0];
    if !key.String? {
      return Sent(Resp2(Error(InvalidKey)));
    }
    var found := store.Get(key.s);
    match found
    case Some(value) => out := Sent(Resp2(value));
    case None => out := Sent(Resp2(Nil));
  }

  // SET

  /** SET key value: binds the key to the value, whatever its variant. */
  function SetEffect(args: seq<Value>, m: map<string, Value>): Effect
  {
    if |args| != 2 then Effect(Error(ArityError), m)
    else if !args[0].String? then Effect(Error(InvalidKey), m)
    else Effect(Ok, m[args[0].s := args[1]])
  }

  method HandleSet(args: seq<Value>, store: Store) returns (out: Outcome)
    modifies store
    ensures out == Sent(Resp2(SetEffect(args, old(store.inner)).reply))
    ensures store.inner == SetEffect(args, old(store.inner)).store
  {
    if |args| != 2 {
      return Sent(Resp2(Error(ArityError)));
    }
    var key := args[0];
    if !key.String? {
      return Sent(Resp2(Error(InvalidKey)));
    }
    store.Set(key.s, args[1]);
    out := Sent(Resp2(Ok));
  }

  /** A GET after a SET of the same key replies the value set, and a GET of
      any other key is unaffected. */
  lemma SetThenGet(m: map<string, Value>, k: string, v: Value, other: Value)
    ensures SetEffect([String(k), v], m).reply == Ok
    ensures GetReply([String(k)], SetEffect([String(k), v], m).store) == v
    ensures other != String(k) ==> GetReply([other], SetEffect([String(k), v], m).store) == GetReply([other], m)
  {
  }

  // MGET

  /** The values stored under `keys`, in request order, `Nil` for absent. */
  function LookupAll(m: map<string, Value>, keys: seq<Value>): (vs: seq<Value>)
    requires AllStrings(keys)
    ensures |vs| == |keys|
    ensures forall i :: 0 <= i < |keys| ==> vs[i] == GetReply([keys[i]], m)
  {
    if keys == [] then []
    else LookupAll(m, keys[..|keys| - 1]) + [StoredOrNil(m, keys[|keys| - 1].s)]
  }

  /** MGET key [key ...]: one entry per key, in order; a single non-`String`
      key turns the whole reply into an error. */
  function MGetReply(args: seq<Value>, m: map<string, Value>): Value
  {
    if |args| < 1 then Error(ArityError)
    else if !AllStrings(args) then Error(InvalidKey)
    else Multi(LookupAll(m, args))
  }

  method HandleMGet(args: seq<Value>, store: Store) returns (out: Outcome)
    ensures out == Sent(Resp2(MGetReply(args, store.inner)))
  {
    if |args| < 1 {
      return Sent(Resp2(Error(ArityError)));
    }
    var values: seq<Value> := [];
    var i := 0;
    while i < |args|
      invariant 0 <= i <= |args|
      invariant AllStrings(args[..i])
      invariant values == LookupAll(store.inner, args[..i])
    {
      var key := args[i];
      if !key.String? {
        return Sent(Resp2(Error(InvalidKey)));
      }
      var found := store.Get(key.s);
      assert args[..i + 1][..i] == args[..i];
      match found {
        case Some(value) => values := values + [value];
        case None => values := values + [Nil];
      }
      i := i + 1;
    }
    assert args[..i] == args;
    out := Sent(Resp2(Multi(values)));
  }

  // MSET

  /** The length of the longest run of whole pairs at the front of `args`
      whose keys are all `String`s. */
  function KeyedPrefix(args: seq<Value>): (n: nat)
    ensures n <= |args| && n % 2 == 0
    ensures KeyedPairs(args[..n])
    ensures n + 2 <= |args| ==> !args[n].String?
  {
    if |args| < 2 || !args[0].String? then 0
    else
      var n := 2 + KeyedPrefix(args[2..]);
      assert forall j :: 2 <= j < n ==> args[..n][j] == args[2..][..n - 2][j - 2];
      n
  }

  /** A run of whole pairs with `String` keys, ending at the end or before a
      non-`String` key, is the longest one. */
  lemma KeyedPrefixAt(ps: seq<Value>, i: nat)
    requires |ps| % 2 == 0 && i <= |ps| && i % 2 == 0 && KeyedPairs(ps[..i])
    requires i < |ps| ==> !ps[i].String?
    ensures KeyedPrefix(ps) == i
  {
    var n := KeyedPrefix(ps);
    forall j | 0 <= j < i && j % 2 == 0
      ensures ps[j].String?
    {
      assert ps[..i][j] == ps[j];
    }
    forall j | 0 <= j < n && j % 2 == 0
      ensures ps[j].String?
    {
      assert ps[..n][j] == ps[j];
    }
    assert n <= i || i + 2 <= n;
    assert n >= i || n + 2 <= i;
  }

  /** A `String` key just past a run of pairs extends the run. */
  lemma KeyedPrefixGrows(ps: seq<Value>, j: nat)
    requires |ps| % 2 == 0 && j % 2 == 0 && j < |ps| && ps[j].String?
    requires j <= KeyedPrefix(ps)
    ensures j + 2 <= KeyedPrefix(ps)
  {
    var n := KeyedPrefix(ps);
    assert n == j || j + 2 <= n;
    assert j + 2 <= |ps|;
  }

  /** A run of pairs extends by one pair that starts with a `String`. */
  lemma PairsGrow(ps: seq<Value>, j: nat)
    requires j + 2 <= |ps| && j % 2 == 0 && ps[j].String? && KeyedPairs(ps[..j])
    ensures KeyedPairs(ps[..j + 2])
  {
    forall l | 0 <= l < j + 2 && l % 2 == 0
      ensures ps[..j + 2][l].String?
    {
      if l < j {
        assert ps[..j + 2][l] == ps[..j][l];
      }
    }
  }

  /** `m` after inserting the pairs of `ps` from left to right, so that a
      later pair overwrites an earlier one with the same key. */
  function WritePairs(m: map<string, Value>, ps: seq<Value>): map<string, Value>
    requires KeyedPairs(ps)
  {
    if ps == [] then m
    else
      var init := ps[..|ps| - 2];
      assert KeyedPairs(init) by {
        assert forall j :: 0 <= j < |init| ==> init[j] == ps[j];
      }
      WritePairs(m, init)[ps[|ps| - 2].s := ps[|ps| - 1]]
  }

  /** Writing one more pair. */
  lemma WritePairsStep(base: map<string, Value>, ps: seq<Value>, j: nat)
    requires j % 2 == 0 && j + 2 <= |ps| && KeyedPairs(ps[..j + 2])
    ensures KeyedPairs(ps[..j])
    ensures WritePairs(base, ps[..j + 2]) == WritePairs(base, ps[..j])[ps[j].s := ps[j + 1]]
  {
    assert ps[..j + 2][..j] == ps[..j];
    assert forall l :: 0 <= l < j ==> ps[..j][l] == ps[..j + 2][l];
  }

  /** Writing pairs binds exactly the keys they name on top of `m`, and
      every other key keeps its binding. */
  lemma {:induction false} WritePairsFrame(m: map<string, Value>, ps: seq<Value>)
    requires KeyedPairs(ps)
    ensures WritePairs(m, ps).Keys == m.Keys + PairKeys(ps)
    ensures forall k :: k in m && k !in PairKeys(ps) ==> WritePairs(m, ps)[k] == m[k]
  {
    if ps != [] {
      var init := ps[..|ps| - 2];
      assert KeyedPairs(init) by {
        assert forall j :: 0 <= j < |init| ==> init[j] == ps[j];
      }
      WritePairsFrame(m, init);
      assert PairKeys(ps) == PairKeys(init) + {ps[|ps| - 2].s} by {
        assert forall j :: 0 <= j < |init| ==> init[j] == ps[j];
      }
    }
  }

  /** A pair that no later pair overrides determines its key's value. */
  lemma {:induction false} WritePairsLastWins(m: map<string, Value>, ps: seq<Value>, j: nat)
    requires KeyedPairs(ps) && j % 2 == 0 && j + 1 < |ps|
    requires forall l :: j < l < |ps| && l % 2 == 0 ==> ps[l] != ps[j]
    ensures ps[j].s in WritePairs(m, ps) && WritePairs(m, ps)[ps[j].s] == ps[j + 1]
  {
    var init := ps[..|ps| - 2];
    assert KeyedPairs(init) by {
      assert forall i :: 0 <= i < |init| ==> init[i] == ps[i];
    }
    if j + 2 < |ps| {
      WritePairsLastWins(m, init, j);
    }
  }

  /** MSET key value [key value ...]: pairs are written left to right; a
      non-`String` key stops the command with an error, and the pairs before
      it stay written. */
  function MSetEffect(args: seq<Value>, m: map<string, Value>): Effect
  {
    if |args| < 2 || |args| % 2 != 0 then Effect(Error(ArityError), m)
    else
      var n := KeyedPrefix(args);
      Effect(if n == |args| then Ok else Error(InvalidKey), WritePairs(m, args[..n]))
  }

  /** MSET's effect, given where its run of `String` keys ends. */
  lemma MSetEffectAt(args: seq<Value>, m: map<string, Value>, n: nat)
    requires 2 <= |args| && |args| % 2 == 0 && KeyedPrefix(args) == n
    ensures MSetEffect(args, m) == Effect(if n == |args| then Ok else Error(InvalidKey), WritePairs(m, args[..n]))
  {
  }

  method HandleMSet(args: seq<Value>, store: Store) returns (out: Outcome)
    modifies store
    ensures out == Sent(Resp2(MSetEffect(args, old(store.inner)).reply))
    ensures store.inner == MSetEffect(args, old(store.inner)).store
  {
    if |args| < 2 || |args| % 2 != 0 {
      return Sent(Resp2(Error(ArityError)));
    }
    ghost var start := store.inner;
    ghost var n := KeyedPrefix(args);
    var i := 0;
    while i < |args|
      invariant 0 <= i <= |args| && i % 2 == 0
      invariant i <= n
      invariant KeyedPairs(args[..i])
      invariant store.inner == WritePairs(start, args[..i])
    {
      var key := args[i];
      if !key.String? {
        KeyedPrefixAt(args, i);
        MSetEffectAt(args, start, i);
        assert MSetEffect(args, start) == Effect(Error(InvalidKey), store.inner);
        return Sent(Resp2(Error(InvalidKey)));
      }
      KeyedPrefixGrows(args, i);
      PairsGrow(args, i);
      WritePairsStep(start, args, i);
      store.Set(key.s, args[i + 1]);
      i := i + 2;
    }
    KeyedPrefixAt(args, i);
    MSetEffectAt(args, start, i);
    assert MSetEffect(args, start) == Effect(Ok, store.inner);
    out := Sent(Resp2(Ok));
  }

  /** MSET with a repeated key keeps the last value. */
  lemma MSetLastWins(m: map<string, Value>, k: string, first: Value, last: Value)
    ensures MSetEffect([String(k), first, String(k), last], m) == Effect(Ok, m[k := last])
  {
    var args := [String(k), first, String(k), last];
    assert args[2..][2..] == [];
    assert KeyedPrefix(args) == 4;
    assert args[..4] == args && args[..2] == [String(k), first];
    assert WritePairs(m, args[..2]) == m[k := first] by {
      assert [String(k), first][..0] == [];
    }
    assert m[k := first][k := last] == m[k := last];
  }

  /** MSET is not all-or-nothing: the pair before a bad key stays written. */
  lemma MSetPartial(m: map<string, Value>, k: string, v: Value, bad: Value, w: Value)
    requires !bad.String?
    ensures MSetEffect([String(k), v, bad, w], m) == Effect(Error(InvalidKey), m[k := v])
  {
    var args := [String(k), v, bad, w];
    assert args[2..][0] == bad;
    assert KeyedPrefix(args) == 2;
    assert args[..2] == [String(k), v];
    assert WritePairs(m, [String(k), v]) == m[k := v] by {
      assert [String(k), v][..0] == [];
    }
  }

  // DEL

  /** The length of the longest run of `String`s at the front of `args`. */
  function StringPrefix(args: seq<Value>): (n: nat)
    ensures n <= |args|
    ensures AllStrings(args[..n])
    ensures n < |args| ==> !args[n].String?
  {
    if args == [] || !args[0].String? then 0
    else
      var n := 1 + StringPrefix(args[1..]);
      assert forall j :: 1 <= j < n ==> args[..n][j] == args[1..][..n - 1][j - 1];
      n
  }

  /** A run of `String`s ending at the end or at a non-`String` is the
      longest one. */
  lemma StringPrefixAt(args: seq<Value>, i: nat)
    requires i <= |args| && AllStrings(args[..i])
    requires i < |args| ==> !args[i].String?
    ensures StringPrefix(args) == i
  {
    var n := StringPrefix(args);
    forall j | 0 <= j < i
      ensures args[j].String?
    {
      assert args[..i][j] == args[j];
    }
    forall j | 0 <= j < n
      ensures args[j].String?
    {
      assert args[..n][j] == args[j];
    }
  }

  /** DEL key [key ...]: removes every named key and replies how many of
      them were bound; a non-`String` key stops the command with an error,
      and the removals before it stay done. */
  function DelEffect(args: seq<Value>, m: map<string, Value>): Effect
  {
    if |args| < 1 then Effect(Error(ArityError), m)
    else
      var n := StringPrefix(args);
      var named := KeySet(args[..n]);
      Effect(if n == |args| then Integer(|named * m.Keys|) else Error(InvalidKey), m - named)
  }

  /** DEL's effect, given where its run of `String` keys ends. */
  lemma DelEffectAt(args: seq<Value>, m: map<string, Value>, i: nat)
    requires 1 <= |args| && i <= |args| && AllStrings(args[..i])
    requires i < |args| ==> !args[i].String?
    ensures DelEffect(args, m)
      == Effect(if i == |args| then Integer(|KeySet(args[..i]) * m.Keys|) else Error(InvalidKey), m - KeySet(args[..i]))
  {
    StringPrefixAt(args, i);
  }

  lemma RemoveStep(m: map<string, Value>, removed: set<string>, k: string)
    ensures (m - removed) - {k} == m - (removed + {k})
  {
  }

  /** Adding `k` to the removed set adds one to the count exactly when `k`
      was bound and not yet removed. */
  lemma CountStep(removed: set<string>, bound: set<string>, k: string)
    ensures |(removed + {k}) * bound| == |removed * bound| + (if k in bound && k !in removed then 1 else 0)
  {
    if k in bound && k !in removed {
      assert (removed + {k}) * bound == removed * bound + {k};
    } else {
      assert (removed + {k}) * bound == removed * bound;
    }
  }

  /** One more `String` key: the removed set and the count grow by it. */
  lemma DelStep(args: seq<Value>, i: nat, start: map<string, Value>)
    requires i < |args| && args[i].String? && AllStrings(args[..i])
    ensures AllStrings(args[..i + 1])
    ensures start - KeySet(args[..i + 1]) == (start - KeySet(args[..i])) - {args[i].s}
    ensures |KeySet(args[..i + 1]) * start.Keys|
         == |KeySet(args[..i]) * start.Keys| + (if args[i].s in start - KeySet(args[..i]) then 1 else 0)
  {
    var named := KeySet(args[..i]);
    assert args[..i + 1] == args[..i] + [args[i]];
    KeySetSnoc(args[..i], args[i]);
    CountStep(named, start.Keys, args[i].s);
    RemoveStep(start, named, args[i].s);
  }

  method HandleDel(args: seq<Value>, store: Store) returns (out: Outcome)
    modifies store
    ensures out == Sent(Resp2(DelEffect(args, old(store.inner)).reply))
    ensures store.inner == DelEffect(args, old(store.inner)).store
  {
    if |args| < 1 {
      return Sent(Resp2(Error(ArityError)));
    }
    ghost var start := store.inner;
    var count := 0;
    var i := 0;
    while i < |args|
      invariant 0 <= i <= |args|
      invariant AllStrings(args[..i])
      invariant store.inner == start - KeySet(args[..i])
      invariant count == |KeySet(args[..i]) * start.Keys|
    {
      var key := args[i];
      if !key.String? {
        DelEffectAt(args, start, i);
        assert DelEffect(args, start).reply == Error(InvalidKey);
        assert DelEffect(args, start).store == store.inner;
        return Sent(Resp2(Error(InvalidKey)));
      }
      DelStep(args, i, start);
      var removed := store.Remove(key.s);
      if removed.Some? {
        count := count + 1;
      }
      i := i + 1;
    }
    DelEffectAt(args, start, i);
    assert DelEffect(args, start).reply == Integer(count);
    assert DelEffect(args, start).store == store.inner;
    out := Sent(Resp2(Integer(count)));
  }

  /** After a successful DEL no named key is bound, keys not named keep their
      bindings, and a GET of a named key replies `Nil`. */
  lemma DelRemovesNamed(args: seq<Value>, m: map<string, Value>)
    requires |args| >= 1 && AllStrings(args)
    ensures DelEffect(args, m).reply == Integer(|KeySet(args) * m.Keys|)
    ensures forall j :: 0 <= j < |args| ==> args[j].s !in DelEffect(args, m).store
    ensures forall j :: 0 <= j < |args| ==> GetReply([args[j]], DelEffect(args, m).store) == Nil
    ensures forall k :: k in m && String(k) !in args ==> k in DelEffect(args, m).store && DelEffect(args, m).store[k] == m[k]
  {
    StringPrefixAt(args, |args|);
    assert args[..|args|] == args;
    KeySetMembers(args);
  }

  /** DEL of one bound and one unbound key replies 1; naming a bound key
      twice also replies 1. */
  lemma DelCounts(m: map<string, Value>, present: string, absent: string)
    requires present in m && absent !in m
    ensures DelEffect([String(present), String(absent)], m) == Effect(Integer(1), m - {present})
    ensures DelEffect([String(present), String(present)], m) == Effect(Integer(1), m - {present})
  {
    var one := [String(present)];
    assert [] + one == one;
    KeySetSnoc([], String(present));
    var a := one + [String(absent)];
    KeySetSnoc(one, String(absent));
    assert a == [String(present), String(absent)];
    assert a[..2] == a;
    DelEffectAt(a, m, 2);
    assert KeySet(a) * m.Keys == {present};
    assert m - {present, absent} == m - {present};
    var b := one + [String(present)];
    KeySetSnoc(one, String(present));
    assert b == [String(present), String(present)];
    assert b[..2] == b;
    DelEffectAt(b, m, 2);
    assert KeySet(b) * m.Keys == {present};
  }

  // EXISTS

  /** A key counts for EXISTS when it is bound to a value that has not
      expired. */
  predicate Live(m: map<string, Value>, k: string, now: nat)
  {
    k in m && !Expired(m[k], now)
  }

  /** How many entries of `keys` name a live key, counting repeats. */
  function LiveCount(keys: seq<Value>, m: map<string, Value>, now: nat): (n: nat)
    requires AllStrings(keys)
    ensures n <= |keys|
  {
    if keys == [] then 0
    else LiveCount(keys[..|keys| - 1], m, now) + (if Live(m, keys[|keys| - 1].s, now) then 1 else 0)
  }

  /** Counting distributes over concatenation, so each occurrence of a key
      counts on its own. */
  lemma {:induction false} LiveCountConcat(a: seq<Value>, b: seq<Value>, m: map<string, Value>, now: nat)
    requires AllStrings(a) && AllStrings(b)
    ensures AllStrings(a + b)
    ensures LiveCount(a + b, m, now) == LiveCount(a, m, now) + LiveCount(b, m, now)
  {
    if b != [] {
      var init := b[..|b| - 1];
      LiveCountConcat(a, init, m, now);
      assert AllStrings(a + b);
      assert (a + b)[..|a + b| - 1] == a + init;
      assert (a + b)[|a + b| - 1] == b[|b| - 1];
      assert LiveCount(a + b, m, now)
        == LiveCount(a + init, m, now) + (if Live(m, b[|b| - 1].s, now) then 1 else 0);
      assert LiveCount(b, m, now) == LiveCount(init, m, now) + (if Live(m, b[|b| - 1].s, now) then 1 else 0);
    } else {
      assert a + b == a;
    }
  }

  /** EXISTS key [key ...]: how many arguments name a live key. */
  function ExistsReply(args: seq<Value>, m: map<string, Value>, now: nat): Value
  {
    if |args| < 1 then Error(ArityError)
    else if !AllStrings(args) then Error(InvalidKey)
    else Integer(LiveCount(args, m, now))
  }

  method HandleExists(args: seq<Value>, store: Store, now: nat) returns (out: Outcome)
    ensures out == Sent(Resp2(ExistsReply(args, store.inner, now)))
  {
    if |args| < 1 {
      return Sent(Resp2(Error(ArityError)));
    }
    var count := 0;
    var i := 0;
    while i < |args|
      invariant 0 <= i <= |args|
      invariant AllStrings(args[..i])
      invariant count == LiveCount(args[..i], store.inner, now)
    {
      var key := args[i];
      if !key.String? {
        return Sent(Resp2(Error(InvalidKey)));
      }
      assert args[..i + 1][..i] == args[..i];
      var found := store.Get(key.s);
      match found {
        case Some(v) =>
          if !Expired(v, now) {
            count := count + 1;
          }
        case None =>
      }
      i := i + 1;
    }
    assert args[..i] == args;
    out := Sent(Resp2(Integer(count)));
  }

  /** A live key named twice counts twice; an expired one does not count. */
  lemma ExistsCountsOccurrences(m: map<string, Value>, k: string, now: nat)
    ensures Live(m, k, now) ==> ExistsReply([String(k), String(k)], m, now) == Integer(2)
    ensures k in m && Expired(m[k], now) ==> ExistsReply([String(k)], m, now) == Integer(0)
  {
    LiveCountConcat([String(k)], [String(k)], m, now);
    assert [String(k)][..0] == [];
    assert [String(k)] + [String(k)] == [String(k), String(k)];
  }

  // KEYS

  /** The `glob` crate, kept abstract: which patterns compile, and which
      keys a compiled pattern matches. */
  datatype Glob = Glob(valid: string -> bool, matches: (string, string) -> bool)

  /** The reason a malformed pattern ends the connection with. */
  const PatternError: string := "Pattern syntax error"

  /** `items` lists, each once, exactly the bound keys the pattern matches. */
  predicate ListsMatches(items: seq<Value>, m: map<string, Value>, glob: Glob, pattern: string)
  {
    && (forall j :: 0 <= j < |items| ==>
         items[j].String? && items[j].s in m && glob.matches(pattern, items[j].s))
    && (forall k :: k in m && glob.matches(pattern, k) ==> String(k) in items)
    && (forall i, j :: 0 <= i < j < |items| ==> items[i] != items[j])
  }

  /** KEYS pattern: the reply lists the matching keys in no particular
      order, expired ones included; a malformed pattern is a
      connection-level error, not a reply. */
  predicate KeysOutcome(args: seq<Value>, m: map<string, Value>, glob: Glob, out: Outcome)
  {
    if |args| != 1 then out == Sent(Resp2(Error(ArityError)))
    else if !args[0].String? then out == Sent(Resp2(Error(InvalidPattern)))
    else if !glob.valid(args[0].s) then out == Failed(PatternError)
    else (out.Sent? && out.reply.Resp2? && out.reply.value.Multi?
      && ListsMatches(out.reply.value.items, m, glob, args[0].s))
  }

  /** The keys of `ks` that match `pattern`, in order, as `String`s. */
  function Matching(ks: seq<string>, glob: Glob, pattern: string): seq<Value>
  {
    if ks == [] then []
    else
      Matching(ks[..|ks| - 1], glob, pattern)
      + (if glob.matches(pattern, ks[|ks| - 1]) then [String(ks[|ks| - 1])] else [])
  }

  /** Filtering a list of keys keeps exactly the matching ones, and keeps
      them distinct when they were. */
  lemma {:induction false} MatchingLists(ks: seq<string>, glob: Glob, pattern: string)
    ensures forall j :: 0 <= j < |Matching(ks, glob, pattern)| ==>
      var item := Matching(ks, glob, pattern)[j];
      item.String? && item.s in ks && glob.matches(pattern, item.s)
    ensures forall k :: k in ks && glob.matches(pattern, k) ==> String(k) in Matching(ks, glob, pattern)
    ensures (forall i, j :: 0 <= i < j < |ks| ==> ks[i] != ks[j]) ==>
      forall i, j :: 0 <= i < j < |Matching(ks, glob, pattern)| ==>
        Matching(ks, glob, pattern)[i] != Matching(ks, glob, pattern)[j]
  {
    if ks != [] {
      var init, last := ks[..|ks| - 1], ks[|ks| - 1];
      MatchingLists(init, glob, pattern);
      assert ks == init + [last];
      var r, prev := Matching(ks, glob, pattern), Matching(init, glob, pattern);
      assert forall j :: 0 <= j < |prev| ==> r[j] == prev[j];
      if (forall i, j :: 0 <= i < j < |ks| ==> ks[i] != ks[j]) && glob.matches(pattern, last) {
        assert forall i, j :: 0 <= i < j < |init| ==> init[i] != init[j] by {
          forall i, j | 0 <= i < j < |init|
            ensures init[i] != init[j]
          {
            assert init[i] == ks[i] && init[j] == ks[j];
          }
        }
        assert last !in init;
        assert forall j :: 0 <= j < |prev| ==> r[j] != r[|prev|];
      }
    }
  }

  method HandleKeys(args: seq<Value>, store: Store, glob: Glob) returns (out: Outcome)
    ensures KeysOutcome(args, store.inner, glob, out)
  {
    if |args| != 1 {
      return Sent(Resp2(Error(ArityError)));
    }
    if !args[0].String? {
      return Sent(Resp2(Error(InvalidPattern)));
    }
    var pattern := args[0].s;
    if !glob.valid(pattern) {
      return Failed(PatternError);
    }
    var all := store.Keys();
    var found: seq<Value> := [];
    var i := 0;
    while i < |all|
      invariant 0 <= i <= |all|
      invariant found == Matching(all[..i], glob, pattern)
    {
      assert all[..i + 1][..i] == all[..i];
      if glob.matches(pattern, all[i]) {
        found := found + [String(all[i])];
      }
      i := i + 1;
    }
    assert all[..i] == all;
    MatchingLists(all, glob, pattern);
    out := Sent(Resp2(Multi(found)));
  }

  // FLUSHDB

  /** FLUSHDB [ignored]: empties the store; its one argument is never read. */
  function FlushEffect(args: seq<Value>, m: map<string, Value>): Effect
  {
    if |args| > 1 then Effect(Error(ArityError), m)
    else Effect(Ok, map[])
  }

  method HandleFlushDB(args: seq<Value>, store: Store) returns (out: Outcome)
    modifies store
    ensures out == Sent(Resp2(FlushEffect(args, old(store.inner)).reply))
    ensures store.inner == FlushEffect(args, old(store.inner)).store
  {
    if |args| > 1 {
      return Sent(Resp2(Error(ArityError)));
    }
    store.Clear();
    out := Sent(Resp2(Ok));
  }

  /** After a FLUSHDB every GET replies `Nil` and no key pattern matches. */
  lemma FlushThenGet(args: seq<Value>, m: map<string, Value>, key: Value, glob: Glob, pattern: string)
    requires |args| <= 1
    ensures FlushEffect(args, m).reply == Ok
    ensures key.String? ==> GetReply([key], FlushEffect(args, m).store) == Nil
    ensures ListsMatches([], FlushEffect(args, m).store, glob, pattern)
  {
  }

  // PING

  /** PING [message]: echoes its one argument, whatever its variant, and
      replies `Pong` to none. */
  function PingReply(args: seq<Value>): (r: Value)
    ensures |args| == 1 ==> r == args[0]
    ensures args == [] ==> r == Pong
    ensures |args| > 1 ==> r == Error(ArityError)
  {
    if |args| > 1 then Error(ArityError)
    else if |args| == 1 then args[0]
    else Pong
  }

  // INFO

  /** INFO: takes no argument and always replies in RESP2. */
  function InfoReply(args: seq<Value>): (r: Reply)
    ensures r.Resp2?
    ensures args == [] <==> r.value == String("loading:0")
    ensures args != [] ==> r.value == Error(ArityError)
  {
    if |args| > 0 then Resp2(Error(ArityError))
    else Resp2(String("loading:0"))
  }

  // HELLO

  /** The crate's name and version, baked in at build time. */
  datatype Package = Package(name: string, version: string)

  /** The server description HELLO replies with. */
  function HelloMap(proto: int, pkg: Package): map<string, Value>
  {
    map[
      "server" := String(pkg.name),
      "version" := String(pkg.version),
      "proto" := Integer(proto),
      "id" := Integer(0),
      "mode" := String("standalone"),
      "role" := String("master"),
      "modules" := Multi([])
    ]
  }

  /** A reply and the protocol version it leaves the session with. */
  datatype Negotiation = Negotiation(reply: Reply, version: int)

  /** HELLO [version]: "2" or "3" switches the session to that version; no
      argument, or a non-`String` one, keeps it; any other string is
      refused. The reply describes the server under the resulting version. */
  function HelloEffect(args: seq<Value>, version: int, pkg: Package): (r: Negotiation)
    requires version == 2 || version == 3
    ensures r.version == 2 || r.version == 3
  {
    if |args| > 1 then Negotiation(Resp2(Error(ArityError)), version)
    else if |args| == 1 && args[0].String? && args[0].s != "2" && args[0].s != "3" then
      Negotiation(Resp2(Error(InvalidVersion)), version)
    else
      (var v := if |args| == 1 && args[0].String? then (if args[0].s == "2" then 2 else 3) else version;
       Negotiation(Versioned(v, Hashmap(HelloMap(v, pkg))), v))
  }

  method HandleHello(args: seq<Value>, session: Session, pkg: Package) returns (out: Outcome)
    requires session.Valid()
    modifies session
    ensures session.Valid()
    ensures out == Sent(HelloEffect(args, old(session.protoVersion), pkg).reply)
    ensures session.protoVersion == HelloEffect(args, old(session.protoVersion), pkg).version
  {
    if |args| > 1 {
      return Sent(Resp2(Error(ArityError)));
    }
    if |args| == 1 && args[0].String? {
      var version := args[0].s;
      if version != "2" && version != "3" {
        return Sent(Resp2(Error(InvalidVersion)));
      }
      var parsed := ParseI64(version);
      assert parsed == Some(if version == "2" then 2 else 3) by {
        if version == "2" {
          ParseI64OfDecimal(2);
          assert Decimal(2) == "2";
        } else {
          ParseI64OfDecimal(3);
          assert Decimal(3) == "3";
        }
      }
      session.SetProtoVersion(parsed.value);
    }
    var proto := session.GetProtoVersion();
    var r := session.VersionedResponse(Hashmap(HelloMap(proto, pkg)));
    out := Sent(r);
  }

  /** A HELLO that is not refused replies a map with exactly the seven
      server fields, whose `proto` is the version now in force and which is
      written with that version's encoder; HELLO 3 switches to RESP3. */
  lemma HelloDescribes(args: seq<Value>, version: int, pkg: Package)
    requires version == 2 || version == 3
    requires |args| <= 1
    requires |args| == 1 && args[0].String? ==> args[0].s == "2" || args[0].s == "3"
    ensures var r := HelloEffect(args, version, pkg);
      && r.reply == Versioned(r.version, r.reply.value)
      && r.reply.value.Hashmap?
      && r.reply.value.h.Keys == {"server", "version", "proto", "id", "mode", "role", "modules"}
      && r.reply.value.h["proto"] == Integer(r.version)
    ensures args == [String("3")] ==> HelloEffect(args, version, pkg).reply.Resp3?
    ensures (args == [] || !args[0].String?) ==> HelloEffect(args, version, pkg).version == version
  {
  }
}
