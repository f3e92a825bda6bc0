/** The command registry of src/commands/mod.rs: a map from upper-cased
    command names to handlers. */
module Registry {
  import opened Text

  /** The handlers, as a closed set of tags. Only the first nine are ever
      registered; the other seven exist as handler files but nothing
      registers them. */
  datatype Command =
    | Get | Set | Del | MGet | Ping | MSet | Keys | Exists | FlushDB
    | Info | Hello | Expire | SetEx | Ttl | HSet | HGetAll

  /** Each handler's `name()`. */
  function Name(c: Command): string
  {
    match c
    case Get => "GET"
    case Set => "SET"
    case Del => "DEL"
    case MGet => "MGET"
    case Ping => "PING"
    case MSet => "MSET"
    case Keys => "KEYS"
    case Exists => "EXISTS"
    case FlushDB => "FLUSHDB"
    case Info => "INFO"
    case Hello => "HELLO"
    case Expire => "EXPIRE"
    case SetEx => "SETEX"
    case Ttl => "TTL"
    case HSet => "HSET"
    case HGetAll => "HGETALL"
  }

  /** The commands `register` installs, in its order. */
  const Registered: seq<Command> := [Get, Set, Del, MGet, Ping, MSet, Keys, Exists, FlushDB]

  /** `table` after registering each of `cs` in turn. */
  function Install(table: map<string, Command>, cs: seq<Command>): map<string, Command>
  {
    if cs == [] then table
    else Install(table, cs[..|cs| - 1])[Upper(Name(cs[|cs| - 1])) := cs[|cs| - 1]]
  }

  class CommandHandler {
    var commands: map<string, Command>

    /** `CommandHandler::default`: nothing registered. */
    constructor ()
      ensures commands == map[]
    {
      commands := map[];
    }

    /** `register_command`: binds the upper-cased name, replacing any handler
        registered under it before. */
    method RegisterCommand(c: Command)
      modifies this
      ensures commands == old(commands)[Upper(Name(c)) := c]
    {
      commands := commands[Upper(Name(c)) := c];
    }

    /** `register`: registers the nine core commands in order. */
    method Register()
      modifies this
      ensures commands == Install(old(commands), Registered)
    {
      ghost var start := commands;
      var i := 0;
      while i < |Registered|
        invariant 0 <= i <= |Registered|
        invariant commands == Install(start, Registered[..i])
      {
        assert Registered[..i + 1][..i] == Registered[..i];
        RegisterCommand(Registered[i]);
        i := i + 1;
      }
      assert Registered[..i] == Registered;
    }
  }

  /** Every name is already upper case, so it is its own registration key. */
  lemma NameIsUpper(c: Command)
    ensures Upper(Name(c)) == Name(c)
  {
  }

  /** No two handlers share a name. */
  lemma NamesDistinct(c: Command, d: Command)
    ensures Name(c) == Name(d) <==> c == d
  {
  }

  /** The names of `cs`. */
  function Names(cs: seq<Command>): set<string>
  {
    if cs == [] then {} else Names(cs[..|cs| - 1]) + {Name(cs[|cs| - 1])}
  }

  /** Registering `cs` binds exactly their names on top of `table`. */
  lemma {:induction false} InstallKeys(table: map<string, Command>, cs: seq<Command>)
    ensures Install(table, cs).Keys == table.Keys + Names(cs)
  {
    if cs != [] {
      InstallKeys(table, cs[..|cs| - 1]);
      NameIsUpper(cs[|cs| - 1]);
    }
  }

  /** After registering `cs`, each of their names is bound to its own
      handler. */
  lemma {:induction false} InstallLookup(table: map<string, Command>, cs: seq<Command>)
    ensures forall c :: c in cs ==> Name(c) in Install(table, cs) && Install(table, cs)[Name(c)] == c
  {
    if cs != [] {
      var init, last := cs[..|cs| - 1], cs[|cs| - 1];
      InstallLookup(table, init);
      NameIsUpper(last);
      assert cs == init + [last];
      forall c | c in cs
        ensures Name(c) in Install(table, cs) && Install(table, cs)[Name(c)] == c
      {
        if c != last {
          NamesDistinct(c, last);
          assert c in init;
        }
      }
    }
  }

  /** Registering `cs` leaves every binding under another name as it was. */
  lemma {:induction false} InstallFrame(table: map<string, Command>, cs: seq<Command>, k: string)
    requires k in table && k !in Names(cs)
    ensures k in Install(table, cs) && Install(table, cs)[k] == table[k]
  {
    if cs != [] {
      InstallFrame(table, cs[..|cs| - 1], k);
      NameIsUpper(cs[|cs| - 1]);
    }
  }

  /** Every name in `Names(cs)` is the name of one of `cs`. */
  lemma {:induction false} NamesMember(cs: seq<Command>, n: string)
    requires n in Names(cs)
    ensures exists c :: c in cs && Name(c) == n
  {
    var init, last := cs[..|cs| - 1], cs[|cs| - 1];
    if n != Name(last) {
      NamesMember(init, n);
      var c :| c in init && Name(c) == n;
      assert c in cs;
    }
  }

  /** After `register` on an empty registry, exactly the names of the nine
      core commands are bound, each to its own handler, and no other
      handler is reachable by name. */
  lemma RegisteredTable()
    ensures forall n :: n in Install(map[], Registered) <==> exists c :: c in Registered && Name(c) == n
    ensures forall c :: c in Registered ==>
      Name(c) in Install(map[], Registered) && Install(map[], Registered)[Name(c)] == c
    ensures forall c :: c !in Registered ==> Name(c) !in Install(map[], Registered)
  {
    var t := Install(map[], Registered);
    InstallKeys(map[], Registered);
    InstallLookup(map[], Registered);
    forall n | n in t
      ensures exists c :: c in Registered && Name(c) == n
    {
      NamesMember(Registered, n);
    }
    forall c | c !in Registered
      ensures Name(c) !in t
    {
      if Name(c) in t {
        NamesMember(Registered, Name(c));
        var d :| d in Registered && Name(d) == Name(c);
        NamesDistinct(c, d);
      }
    }
  }
}
