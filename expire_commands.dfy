/** The handlers under src/commands/expire/: EXPIRE and SETEX, which give a
    key a deadline and add it to the expiry index, and TTL, which reports
    the whole seconds left. */
module ExpireCommands {
  import opened Wrappers
  import opened Text
  import opened Values
  import opened Replies
  import opened Storage
  import opened SharedState
  import opened CoreCommands

  /** The reply, the store and the expiry index a handler leaves. */
  datatype ExpiryEffect = ExpiryEffect(reply: Value, store: map<string, Value>, expireKeys: set<string>)

  /** The seconds argument: an `Integer` as it is; a `String` parsed as an
      `i64`, with -1 for anything that does not parse (so it is then
      refused as negative); no seconds at all for any other variant. */
  function SecondsArg(v: Value): (r: Option<int>)
    ensures v.Integer? ==> r == Some(v.i)
    ensures v.String? && ParseI64(v.s).Some? ==> r == ParseI64(v.s)
    ensures v.String? && ParseI64(v.s).None? ==> r == Some(-1)
    ensures r.Some? <==> v.Integer? || v.String?
  {
    match v
    case Integer(n) => Some(n)
    case String(s) => Some(match ParseI64(s) case Some(n) => n case None => -1)
    case _ => None
  }

  /** The instant `seconds` whole seconds after `now`. */
  function Deadline(now: nat, seconds: nat): nat
  {
    now + seconds * NanosPerSecond
  }

  /** What EXPIRE writes over a stored value: a plain value gets the
      deadline; a value that already has one keeps its old deadline outside,
      and the new wrapper goes around its inner value. */
  function Rearm(v: Value, deadline: nat): (r: Value)
    ensures r.Expire?
    ensures !v.Expire? ==> r == Expire(v, deadline)
    ensures v.Expire? ==> r.deadline == v.deadline && r.inner == Expire(v.inner, deadline)
  {
    match v
    case Expire(inner, previous) => Expire(Expire(inner, deadline), previous)
    case _ => Expire(v, deadline)
  }

  // EXPIRE

  /** EXPIRE key seconds. */
  function ExpireEffect(args: seq<Value>, m: map<string, Value>, index: set<string>, now: nat): ExpiryEffect
  {
    if |args| != 2 then ExpiryEffect(Error(ArityError), m, index)
    else if !args[0].String? then ExpiryEffect(Error(InvalidKey), m, index)
    else match SecondsArg(args[1])
      case None => ExpiryEffect(Error(InvalidSeconds), m, index)
      case Some(seconds) =>
        if seconds < 0 then ExpiryEffect(Error(InvalidSeconds), m, index)
        else if args[0].s !in m then ExpiryEffect(Error(KeyNotFound), m, index)
        else ExpiryEffect(Ok, m[args[0].s := Rearm(m[args[0].s], Deadline(now, seconds))], index + {args[0].s})
  }

  method HandleExpire(args: seq<Value>, state: State, now: nat) returns (out: Outcome)
    modifies state, state.store
    ensures out == Sent(Resp2(ExpireEffect(args, old(state.store.inner), old(state.expireKeys), now).reply))
    ensures state.store.inner == ExpireEffect(args, old(state.store.inner), old(state.expireKeys), now).store
    ensures state.expireKeys == ExpireEffect(args, old(state.store.inner), old(state.expireKeys), now).expireKeys
  {
    if |args| != 2 {
      return Sent(Resp2(Error(ArityError)));
    }
    var key := args[0];
    if !key.String? {
      return Sent(Resp2(Error(InvalidKey)));
    }
    var seconds: int;
    match args[1] {
      case Integer(n) => seconds := n;
      case String(s) =>
        var parsed := ParseI64(s);
        seconds := if parsed.Some? then parsed.value else -1;
      case _ => return Sent(Resp2(Error(InvalidSeconds)));
    }
    if seconds < 0 {
      return Sent(Resp2(Error(InvalidSeconds)));
    }
    var current := state.store.Get(key.s);
    if current.None? {
      return Sent(Resp2(Error(KeyNotFound)));
    }
    var deadline := now + seconds * NanosPerSecond;
    var rewritten: Value;
    match current.value {
      case Expire(inner, previous) => rewritten := Expire(Expire(inner, deadline), previous);
      case v => rewritten := Expire(v, deadline);
    }
    state.store.Set(key.s, rewritten);
    state.expireKeys := state.expireKeys + {key.s};
    out := Sent(Resp2(Ok));
  }

  // SETEX

  /** SETEX key seconds value: binds the key to the value with a deadline,
      whatever was there before; 0 seconds is accepted. */
  function SetExEffect(args: seq<Value>, m: map<string, Value>, index: set<string>, now: nat): ExpiryEffect
  {
    if |args| != 3 then ExpiryEffect(Error(ArityError), m, index)
    else if !args[0].String? then ExpiryEffect(Error(InvalidKey), m, index)
    else match SecondsArg(args[1])
      case None => ExpiryEffect(Error(InvalidSeconds), m, index)
      case Some(seconds) =>
        if seconds < 0 then ExpiryEffect(Error(InvalidSeconds), m, index)
        else ExpiryEffect(Ok, m[args[0].s := Expire(args[2], Deadline(now, seconds))], index + {args[0].s})
  }

  method HandleSetEx(args: seq<Value>, state: State, now: nat) returns (out: Outcome)
    modifies state, state.store
    ensures out == Sent(Resp2(SetExEffect(args, old(state.store.inner), old(state.expireKeys), now).reply))
    ensures state.store.inner == SetExEffect(args, old(state.store.inner), old(state.expireKeys), now).store
    ensures state.expireKeys == SetExEffect(args, old(state.store.inner), old(state.expireKeys), now).expireKeys
  {
    if |args| != 3 {
      return Sent(Resp2(Error(ArityError)));
    }
    var key := args[0];
    if !key.String? {
      return Sent(Resp2(Error(InvalidKey)));
    }
    var seconds: int;
    match args[1] {
      case Integer(n) => seconds := n;
      case String(s) =>
        var parsed := ParseI64(s);
        seconds := if parsed.Some? then parsed.value else -1;
      case _ => return Sent(Resp2(Error(InvalidSeconds)));
    }
    if seconds < 0 {
      return Sent(Resp2(Error(InvalidSeconds)));
    }
    var value := args[2];
    state.store.Set(key.s, Expire(value, now + seconds * NanosPerSecond));
    state.expireKeys := state.expireKeys + {key.s};
    out := Sent(Resp2(Ok));
  }

  // TTL

  /** The whole seconds from `now` to `deadline`: `duration_since`
      saturates at zero once the deadline has passed, and `as_secs` rounds
      down. */
  function WholeSecondsLeft(deadline: nat, now: nat): nat
  {
    if deadline > now then (deadline - now) / NanosPerSecond else 0
  }

  /** TTL key: -2 for an absent key, -1 for a key without a deadline, and
      otherwise the whole seconds left, where 0 is reported as -2. */
  function TtlReply(args: seq<Value>, m: map<string, Value>, now: nat): Value
  {
    if |args| != 1 then Error(ArityError)
    else if !args[0].String? then Error(InvalidKey)
    else if args[0].s !in m then Integer(-2)
    else match m[args[0].s]
      case Expire(_, deadline) =>
        var secs := WholeSecondsLeft(deadline, now);
        Integer(if secs != 0 then secs else -2)
      case _ => Integer(-1)
  }

  method HandleTtl(args: seq<Value>, store: Store, now: nat) returns (out: Outcome)
    ensures out == Sent(Resp2(TtlReply(args, store.inner, now)))
  {
    if |args| != 1 {
      return Sent(Resp2(Error(ArityError)));
    }
    var key := args[0];
    if !key.String? {
      return Sent(Resp2(Error(InvalidKey)));
    }
    var found := store.Get(key.s);
    var duration: int;
    match found {
      case Some(Expire(_, ttl)) =>
        var secs := if ttl > now then (ttl - now) / NanosPerSecond else 0;
        duration := if secs != 0 then secs else -2;
      case Some(_) => duration := -1;
      case None => duration := -2;
    }
    out := Sent(Resp2(Integer(duration)));
  }

  /** TTL never replies 0, and a key with a deadline less than a second
      away, or already past, reads as absent. */
  lemma TtlNeverZero(args: seq<Value>, m: map<string, Value>, now: nat, k: string)
    ensures TtlReply(args, m, now) != Integer(0)
    ensures k in m && m[k].Expire? && m[k].deadline < now + NanosPerSecond ==>
      TtlReply([String(k)], m, now) == Integer(-2)
  {
  }

  /** SETEX followed at the same instant by TTL reports the seconds given,
      except that 0 seconds reads as absent; GET then replies a value that
      encodes exactly as the one set. */
  lemma SetExThenTtl(m: map<string, Value>, index: set<string>, now: nat, k: string, seconds: nat, v: Value)
    ensures var e := SetExEffect([String(k), Integer(seconds), v], m, index, now);
      && e.reply == Ok
      && k in e.expireKeys
      && TtlReply([String(k)], e.store, now) == Integer(if seconds > 0 then seconds else -2)
      && ToResp(GetReply([String(k)], e.store)) == ToResp(v)
  {
    var e := SetExEffect([String(k), Integer(seconds), v], m, index, now);
    assert WholeSecondsLeft(Deadline(now, seconds), now) == seconds by {
      if seconds > 0 {
        assert (Deadline(now, seconds) - now) / NanosPerSecond == (seconds * NanosPerSecond) / NanosPerSecond;
      }
    }
    ExpireEncodesInner(e.store[k]);
  }

  /** EXPIRE on a key without a deadline gives it one: TTL at the same
      instant reports the seconds given (0 reading as absent), and a sweep
      once the deadline has passed removes the key from store and index. */
  lemma ExpireThenTtl(m: map<string, Value>, index: set<string>, now: nat, k: string, seconds: nat, later: nat)
    requires k in m && !m[k].Expire?
    ensures var e := ExpireEffect([String(k), Integer(seconds)], m, index, now);
      && e.reply == Ok
      && e.store == m[k := Expire(m[k], Deadline(now, seconds))]
      && k in e.expireKeys
      && TtlReply([String(k)], e.store, now) == Integer(if seconds > 0 then seconds else -2)
    ensures var e := ExpireEffect([String(k), Integer(seconds)], m, index, now);
      later > Deadline(now, seconds) ==>
        k in Due(e.store, e.expireKeys, later)
        && k !in e.store - Due(e.store, e.expireKeys, later)
        && k !in e.expireKeys - Due(e.store, e.expireKeys, later)
  {
    assert WholeSecondsLeft(Deadline(now, seconds), now) == seconds by {
      if seconds > 0 {
        assert (Deadline(now, seconds) - now) / NanosPerSecond == (seconds * NanosPerSecond) / NanosPerSecond;
      }
    }
  }

  /** EXPIRE on a key that already has a deadline, as written, nests the new
      deadline inside the old one: the stored value keeps its outer
      deadline, so TTL and the sweep go on using the old one. */
  lemma ExpireNests(m: map<string, Value>, index: set<string>, now: nat, k: string, v: Value, previous: nat, seconds: nat)
    requires k in m && m[k] == Expire(v, previous)
    ensures var e := ExpireEffect([String(k), Integer(seconds)], m, index, now);
      && e.reply == Ok
      && e.store[k] == Expire(Expire(v, Deadline(now, seconds)), previous)
      && TtlReply([String(k)], e.store, now) == TtlReply([String(k)], m, now)
      && (k in Due(e.store, e.expireKeys, now) <==> previous < now)
  {
  }

  /** A seconds argument sent as the decimal text of a number, as a client
      sends it, acts exactly as the same number sent as an `Integer`. */
  lemma ExpireSecondsAsText(m: map<string, Value>, index: set<string>, now: nat, k: string, seconds: int)
    requires MinI64 <= seconds <= MaxI64
    ensures ExpireEffect([String(k), String(Decimal(seconds))], m, index, now)
         == ExpireEffect([String(k), Integer(seconds)], m, index, now)
  {
    ParseI64OfDecimal(seconds);
  }

  /** The same for SETEX. */
  lemma SetExSecondsAsText(m: map<string, Value>, index: set<string>, now: nat, k: string, seconds: int, v: Value)
    requires MinI64 <= seconds <= MaxI64
    ensures SetExEffect([String(k), String(Decimal(seconds)), v], m, index, now)
         == SetExEffect([String(k), Integer(seconds), v], m, index, now)
  {
    ParseI64OfDecimal(seconds);
  }

  /** Refused EXPIRE and SETEX calls leave store and index as they were. */
  lemma RefusedLeavesState(args: seq<Value>, m: map<string, Value>, index: set<string>, now: nat)
    ensures ExpireEffect(args, m, index, now).reply != Ok ==>
      ExpireEffect(args, m, index, now).store == m && ExpireEffect(args, m, index, now).expireKeys == index
    ensures SetExEffect(args, m, index, now).reply != Ok ==>
      SetExEffect(args, m, index, now).store == m && SetExEffect(args, m, index, now).expireKeys == index
  {
  }
}
