/** `CommandHandler::handle_command` of src/commands/mod.rs: pop the command
    name, upper-case it, look it up and run the handler on the remaining
    arguments. Both handler generations run here against one session and
    the state it shares. */
module Dispatch {
  import opened Wrappers
  import opened Text
  import opened Values
  import opened Replies
  import opened Storage
  import R = Registry
  import opened SharedState
  import opened Sessions
  import opened CoreCommands
  import opened ExpireCommands
  import opened HashCommands

  /** What handlers take from outside the server: the clock, the `glob`
      crate and the crate metadata. */
  datatype Env = Env(now: nat, glob: Glob, pkg: Package)

  /** Everything a command can change. */
  datatype Snapshot = Snapshot(store: map<string, Value>, expireKeys: set<string>, version: int)

  function SnapshotOf(session: Session): Snapshot
    reads session, session.state, session.state.store
  {
    Snapshot(session.state.store.inner, session.state.expireKeys, session.protoVersion)
  }

  /** Handler `c` run on `args` takes the server from `before` to `after`
      and produces `out`. */
  predicate Performs(c: R.Command, args: seq<Value>, before: Snapshot, env: Env, out: Outcome, after: Snapshot)
    requires before.version == 2 || before.version == 3
  {
    match c
    case Get => out == Sent(Resp2(GetReply(args, before.store))) && after == before
    case Set =>
      var e := SetEffect(args, before.store);
      out == Sent(Resp2(e.reply)) && after == before.(store := e.store)
    case Del =>
      var e := DelEffect(args, before.store);
      out == Sent(Resp2(e.reply)) && after == before.(store := e.store)
    case MGet => out == Sent(Resp2(MGetReply(args, before.store))) && after == before
    case Ping => out == Sent(Resp2(PingReply(args))) && after == before
    case MSet =>
      var e := MSetEffect(args, before.store);
      out == Sent(Resp2(e.reply)) && after == before.(store := e.store)
    case Keys => KeysOutcome(args, before.store, env.glob, out) && after == before
    case Exists => out == Sent(Resp2(ExistsReply(args, before.store, env.now))) && after == before
    case FlushDB =>
      var e := FlushEffect(args, before.store);
      out == Sent(Resp2(e.reply)) && after == before.(store := e.store)
    case Info => out == Sent(InfoReply(args)) && after == before
    case Hello =>
      var h := HelloEffect(args, before.version, env.pkg);
      out == Sent(h.reply) && after == before.(version := h.version)
    case Expire =>
      var e := ExpireEffect(args, before.store, before.expireKeys, env.now);
      out == Sent(Resp2(e.reply)) && after == before.(store := e.store, expireKeys := e.expireKeys)
    case SetEx =>
      var e := SetExEffect(args, before.store, before.expireKeys, env.now);
      out == Sent(Resp2(e.reply)) && after == before.(store := e.store, expireKeys := e.expireKeys)
    case Ttl => out == Sent(Resp2(TtlReply(args, before.store, env.now))) && after == before
    case HSet =>
      var e := HSetEffect(args, before.store);
      out == Sent(Resp2(e.reply)) && after == before.(store := e.store)
    case HGetAll => out == Sent(HGetAllReply(args, before.store, before.version)) && after == before
  }

  /** `command.handle_command(writer, args, context)` for the handler found. */
  method Run(c: R.Command, args: seq<Value>, session: Session, env: Env) returns (out: Outcome)
    requires session.Valid()
    modifies session, session.state, session.state.store
    ensures session.Valid()
    ensures Performs(c, args, old(SnapshotOf(session)), env, out, SnapshotOf(session))
  {
    var state := session.state;
    var store := state.store;
    match c {
      case Get => out := HandleGet(args, store);
      case Set => out := HandleSet(args, store);
      case Del => out := HandleDel(args, store);
      case MGet => out := HandleMGet(args, store);
      case Ping => out := Sent(Resp2(PingReply(args)));
      case MSet => out := HandleMSet(args, store);
      case Keys => out := HandleKeys(args, store, env.glob);
      case Exists => out := HandleExists(args, store, env.now);
      case FlushDB => out := HandleFlushDB(args, store);
      case Info => out := Sent(InfoReply(args));
      case Hello => out := HandleHello(args, session, env.pkg);
      case Expire => out := HandleExpire(args, state, env.now);
      case SetEx => out := HandleSetEx(args, state, env.now);
      case Ttl => out := HandleTtl(args, store, env.now);
      case HSet => out := HandleHSet(args, store);
      case HGetAll => out := HandleHGetAll(args, session);
    }
  }

  /** `handle_command`: a missing or non-`String` name and an unregistered
      name are answered with an error and change nothing; a registered name,
      in any letter case, runs its handler on the arguments after it. */
  method HandleCommand(handler: R.CommandHandler, args: seq<Value>, session: Session, env: Env) returns (out: Outcome)
    requires session.Valid()
    modifies session, session.state, session.state.store
    ensures session.Valid()
    ensures (args == [] || !args[0].String?) ==>
      out == Sent(Resp2(Error(InvalidCommand))) && SnapshotOf(session) == old(SnapshotOf(session))
    ensures args != [] && args[0].String? && Upper(args[0].s) !in handler.commands ==>
      out == Sent(Resp2(Error(UnknownCommand))) && SnapshotOf(session) == old(SnapshotOf(session))
    ensures args != [] && args[0].String? && Upper(args[0].s) in handler.commands ==>
      Performs(handler.commands[Upper(args[0].s)], args[1..], old(SnapshotOf(session)), env, out, SnapshotOf(session))
  {
    if args == [] || !args[0].String? {
      return Sent(Resp2(Error(InvalidCommand)));
    }
    var name := Upper(args[0].s);
    if name !in handler.commands {
      return Sent(Resp2(Error(UnknownCommand)));
    }
    out := Run(handler.commands[name], args[1..], session, env);
  }

  /** On a freshly started server a SET, sent in lower case, is seen by
      the GET that follows it. */
  method FreshSetThenGet(env: Env, k: string, v: Value) returns (set_: Outcome, get: Outcome)
    ensures set_ == Sent(Resp2(Ok))
    ensures get == Sent(Resp2(v))
  {
    var state := new State();
    var session := new Session(state);
    SetAndGetRegistered();
    ghost var s0 := SnapshotOf(session);
    set_ := HandleCommand(state.commands, [String("set"), String(k), v], session, env);
    ghost var s1 := SnapshotOf(session);
    get := HandleCommand(state.commands, [String("GET"), String(k)], session, env);
    SetThenGetPerformed(k, v, env, s0, set_, s1, get, SnapshotOf(session));
  }

  /** "set" and "GET" both reach their handlers after `register`. */
  lemma SetAndGetRegistered()
    ensures Upper("set") == "SET" && Upper("GET") == "GET"
    ensures "SET" in R.Install(map[], R.Registered) && R.Install(map[], R.Registered)["SET"] == R.Set
    ensures "GET" in R.Install(map[], R.Registered) && R.Install(map[], R.Registered)["GET"] == R.Get
  {
    UpperCases();
    Bound(R.Set);
    Bound(R.Get);
  }

  lemma UpperCases()
    ensures Upper("set") == "SET" && Upper("GET") == "GET"
  {
  }

  lemma Bound(c: R.Command)
    requires c in R.Registered
    ensures R.Name(c) in R.Install(map[], R.Registered) && R.Install(map[], R.Registered)[R.Name(c)] == c
  {
    R.InstallLookup(map[], R.Registered);
  }

  lemma SetThenGetPerformed(k: string, v: Value, env: Env,
                            s0: Snapshot, out1: Outcome, s1: Snapshot, out2: Outcome, s2: Snapshot)
    requires s0.store == map[] && s0.version == 2
    requires Performs(R.Set, [String(k), v], s0, env, out1, s1)
    requires Performs(R.Get, [String(k)], s1, env, out2, s2)
    ensures out1 == Sent(Resp2(Ok)) && out2 == Sent(Resp2(v))
  {
    assert s1.store == map[k := v];
  }

  /** None of HELLO, INFO, EXPIRE, SETEX, TTL, HSET and HGETALL is
      registered, so on a running server each is answered "Unknown command"
      and a session can never leave RESP2. */
  method UnregisteredUnknown(env: Env, c: R.Command, args: seq<Value>) returns (out: Outcome, version: int)
    requires c !in R.Registered
    ensures out == Sent(Resp2(Error(UnknownCommand)))
    ensures version == 2
  {
    var state := new State();
    var session := new Session(state);
    R.RegisteredTable();
    R.NameIsUpper(c);
    out := HandleCommand(state.commands, [String(R.Name(c))] + args, session, env);
    version := session.GetProtoVersion();
  }
}
