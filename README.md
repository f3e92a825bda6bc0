# crabdis in Dafny

A model of the core of crabdis, a small in-memory key-value server in Rust
that speaks the Redis serialisation protocol (RESP). Clients send arrays of
values. The server looks up the first element as a command name in a
registry. The command's handler then runs on the rest, against one shared
store (a map from string keys to values), an index of keys that have a
deadline, and a per-connection protocol version (RESP2 or RESP3).

What is modelled, file by file:

- `value.dfy` (`Values`): the `Value` type and its codec as written.
  - `to_resp` is a ghost function `ToResp`. The order of a hash map's
    entries is a choice the model leaves open.
  - `from_resp` is `Decode`, over the rest of the input stream.
  - Round trips are proved for the values whose frames are lines alone.
- `resp_fixed.dfy` (`CorrectedCodec`): the two framing defects of the codec
  (see Findings), exhibited on concrete inputs, and a corrected codec with
  its round trip proved.
- `store.dfy` (`Storage`): `Store`, a class over a `map`, with its methods.
- `registry.dfy` (`Registry`): `CommandHandler`, a class whose map takes
  upper-cased names to handler tags.
  - `register` installs nine handlers: GET, SET, DEL, MGET, PING, MSET,
    KEYS, EXISTS and FLUSHDB.
- `state.dfy` (`SharedState`): `State`, which owns the store, the registry
  and the expiry index, and the body of the expiry sweep as one method.
- `session.dfy` (`Sessions`): `Session`, with the protocol version byte.
- `replies.dfy` (`Replies`): what a handler writes.
  - A value is written in the RESP2 or the RESP3 encoding.
  - A handler can also fail the connection, as KEYS does on a bad pattern.
- Handlers. Each is an imperative method proved against a pure function
  that states its reply and the state it leaves.
  - `core_commands.dfy` (`CoreCommands`): the handlers under
    src/commands/core/.
  - `expire_commands.dfy` (`ExpireCommands`): EXPIRE, SETEX and TTL.
  - `hash_commands.dfy` (`HashCommands`): HSET and HGETALL.
- `dispatch.dfy` (`Dispatch`): `handle_command`.
  - The name is upper-cased and looked up, and the handler runs on the
    remaining arguments.
  - `Performs` ties each handler tag to its specification function.
- `text.dfy` (`Text`) and `wrappers.dfy` (`Wrappers`): decimal formatting,
  `str::parse` for `usize` and `i64`, `str::trim`, ASCII upper-casing and
  `Option`.

Modelling choices:

- Time is a natural number of nanoseconds on one monotonic line. The clock
  is a parameter `now`.
- A deadline `seconds` after `now` is `now + seconds * 1_000_000_000`.
- A value is expired when its deadline is strictly before `now`.
- The `glob` crate's `Pattern` is a parameter: a validity test and a
  matcher.
- The crate name and version that HELLO reports are parameters.
- The handlers use `Value::Ok` and `Value::Pong`, which the enum at
  src/storage/value.rs:10-19 does not declare. The model adds both, written
  as the simple strings `+OK` and `+PONG`.

Where the repository's description of the server and its code disagree,
the model follows the code:

- GET, MGET, KEYS and TTL do not filter out expired-but-unswept keys. Only
  EXISTS does (src/commands/core/exists.rs:29-30). TTL answers -2 for a
  deadline less than one second away.
- MSET and DEL are not atomic. A non-`String` key stops them with
  "Invalid key", and the writes or removals before it stay done.
- HSET stops at the first non-`String` field. It counts the pairs written
  before that field and does not report an error.
- EXPIRE on a key that already has a deadline nests a new wrapper inside
  the old one. The old deadline stays outermost (`ExpireCommands.Rearm`).
- `from_resp` ignores the result of `read_line`, so a closed stream decodes
  as `Error("Invalid response")`, not as an error.
- Only nine handlers are registered (src/commands/mod.rs:35-48). HELLO,
  INFO, EXPIRE, SETEX, TTL, HSET and HGETALL are modelled with their
  handler files, but the registry answers "Unknown command" to each of
  them. A session therefore never leaves RESP2
  (`Dispatch.UnregisteredUnknown`).

## Model

| member | source | states |
|---|---|---|
| Values.ExpireEncodesInner | src/storage/value.rs:44 | an `Expire` value is written exactly as the value it wraps, however deeply nested; the deadline never reaches the wire |
| Values.Unwrapped | src/storage/value.rs:44 | peeling `Expire` wrappers ends at a value that is not an `Expire` |
| Values.EncodeAllSplits | src/storage/value.rs:27-35 | the body of an array is the elements' encodings in order: element i is written after all earlier ones and before all later ones |
| Values.EncodeAllConcat | src/storage/value.rs:30-32 | the body written for two runs of elements is the first run's body followed by the second's |
| Values.HashmapEncoding | src/storage/value.rs:36-43 | a hash map is written as an array header of twice its size, then, in some order that visits every key exactly once, each key as a string followed by its value |
| Values.ReadLine | src/storage/value.rs:52-54 | the line read and what is left are a split of the input, and the line is empty only on an empty stream |
| Values.ReadLineOf | src/storage/value.rs:52-54 | a line whose only newline is its last byte is read whole, and the rest is left untouched |
| Values.Decode | src/storage/value.rs:49-87 | a successful decode never grows the remaining input |
| Values.DecodeMany | src/storage/value.rs:74-83 | decoding n elements yields exactly n values and does not grow the remaining input |
| Values.DecodeBulkLine | src/storage/value.rs:59-68 | a `$n` line takes exactly the next n bytes as a `String` and leaves everything after them, the payload's CRLF included |
| Values.DecodeArrayLine | src/storage/value.rs:74-83 | a `*n` line followed by n decodable values is the array of those values |
| Values.DecodeBulkBadLength | src/storage/value.rs:59-62 | a `$` line whose length does not parse as `usize` fails the decode, unless it is the nil line |
| Values.DecodeNilLine | src/storage/value.rs:57 | the exact line `$-1\r\n` is `Nil` |
| Values.DecodeSimpleLine | src/storage/value.rs:84 | a `+` line is a `String` of its trimmed remainder |
| Values.DecodeOtherLine | src/storage/value.rs:85 | a line with any other first byte, `-` included, is `Error("Invalid response")`, and only that line is consumed |
| Values.DecodeManyPropagates | src/storage/value.rs:78-80 | when the elements before the k-th decode and the k-th one fails, the whole run of n > k elements fails |
| Values.DecodeArrayFails | src/storage/value.rs:74-83 | a `*n` header whose n elements do not all decode fails the whole decode |
| Values.IntegerRoundTrip | src/storage/value.rs:25 | an `Integer` in the `i64` range is written as `:`, its decimal form and CRLF, and decodes back to itself, leaving the rest of the stream |
| Values.LineFramedRoundTrip | src/storage/value.rs:22-87 | decoding undoes encoding for nil, 64-bit integers and arrays of them nested to any depth, and leaves the rest of the stream untouched |
| Values.LineFramedManyRoundTrip | src/storage/value.rs:27-35 | the elements of such an array decode back one after the other, leaving the rest of the stream |
| CorrectedCodec.AsWrittenBulkMisread | src/storage/value.rs:26 | as written, a non-empty `String(s)` decodes back as `+` followed by all of `s` but its last byte; that byte and the CRLF stay in the stream |
| CorrectedCodec.AsWrittenArrayOfBulks | src/storage/value.rs:59-68 | as written, a client array of two standard bulk strings decodes as the first string followed by `Error("Invalid response")`, and the second frame is left unread |
| CorrectedCodec.BulkRoundTrip | src/storage/value.rs:26 | with the standard bulk frame, a string of any bytes decodes back to itself and the frame's CRLF is consumed |
| CorrectedCodec.RoundTrip | src/storage/value.rs:22-87 | with the corrected frame, every nil, 64-bit integer, string and array of them decodes back to itself, leaving the rest of the stream |
| CorrectedCodec.RoundTripMany | src/storage/value.rs:74-83 | the corrected encodings of a sequence of such values decode back to the sequence |
| Text.Decimal | src/storage/value.rs:25 | the decimal form of an integer is non-empty and has no line break in it |
| Text.ParseI64 | src/storage/value.rs:70 | a parsed `i64` is in the signed 64-bit range |
| Text.ParseI64OfDecimal | src/storage/value.rs:70 | every `i64` parses back from its decimal form |
| Text.ParseUnsignedOfDigits | src/storage/value.rs:60 | every `usize` parses back from its digits |
| Text.TrimDecimalLine | src/storage/value.rs:60 | trimming a decimal number followed by CRLF gives back the number |
| Text.Upper | src/commands/mod.rs:57 | upper-casing keeps the length, leaves no lower-case letter, turns each lower-case letter into the capital of the same letter, and keeps every other character in place |
| Text.UpperIdempotent | src/commands/mod.rs:57 | upper-casing an upper-cased name changes nothing |
| Text.UpperIgnoresCase | src/commands/mod.rs:67 | two names that differ only in letter case upper-case to the same key |
| Replies.Versioned | src/session/mod.rs:32-42 | the value is written unchanged, in RESP2 exactly when the version is 2 and in RESP3 exactly when it is 3 |
| Storage.Store.constructor | src/storage/mod.rs:14-18 | a new store is empty |
| Storage.Store.Set | src/storage/mod.rs:20-22 | binds the key to the value and changes no other binding |
| Storage.Store.Get | src/storage/mod.rs:24-26 | finds a value exactly when the key is bound, and it is the bound value |
| Storage.Store.Remove | src/storage/mod.rs:28-30 | returns the old binding exactly when there was one, and unbinds the key only |
| Storage.Store.Keys | src/storage/mod.rs:32-34 | lists every bound key exactly once and nothing else |
| Storage.Store.Exists | src/storage/mod.rs:36-38 | true exactly when the key is bound |
| Storage.Store.Clear | src/storage/mod.rs:40-42 | leaves the store empty |
| Storage.Store.Len | src/storage/mod.rs:44-46 | the number of bound keys |
| Storage.SetThenGet | src/storage/mod.rs:20-26 | after `set`, `get` of the key finds the value and every other key is as before |
| Storage.RemoveThenAbsent | src/storage/mod.rs:28-38 | `remove` returns the old value, and a second `remove` or an `exists` then finds nothing |
| Storage.ClearThenEmpty | src/storage/mod.rs:40-46 | after `clear`, `len` is 0 and `keys` is empty |
| Registry.CommandHandler.constructor | src/commands/mod.rs:29-32 | a new registry has nothing registered |
| Registry.CommandHandler.RegisterCommand | src/commands/mod.rs:50-58 | binds the upper-cased name to the handler, replacing any handler bound under it before |
| Registry.CommandHandler.Register | src/commands/mod.rs:35-48 | the registry afterwards is the old one with the nine core handlers installed in order |
| Registry.NameIsUpper | src/commands/mod.rs:57 | every handler's name is its own registration key |
| Registry.NamesDistinct | src/commands/mod.rs:57 | two handlers have the same name exactly when they are the same handler |
| Registry.InstallKeys | src/commands/mod.rs:50-58 | registering a list of handlers binds exactly their names on top of the existing ones |
| Registry.InstallLookup | src/commands/mod.rs:50-58 | after registering a list of handlers, each one's name leads to that handler |
| Registry.InstallFrame | src/commands/mod.rs:50-58 | registering handlers leaves a binding under any other name as it was |
| Registry.NamesMember | src/commands/mod.rs:35-48 | every registered name is the name of a handler in the list |
| Registry.RegisteredTable | src/commands/mod.rs:35-48 | after `register` on an empty registry, a name is bound exactly when it is one of the nine core names; each leads to its handler; no other handler is reachable |
| SharedState.State.constructor | src/session/state.rs:15-25 | a new state has an empty store, an empty expiry index and the registry after `register` |
| SharedState.State.Sweep | src/session/state.rs:41-63 | removes from the store and from the index exactly the indexed keys whose stored value is an `Expire` with a deadline before now, and nothing else |
| SharedState.SweepLaws | src/session/state.rs:41-63 | a swept key was indexed, bound and expired; indexed keys without a deadline stay indexed; live keys and unindexed keys stay bound; a second sweep at the same instant removes nothing |
| Sessions.Session.constructor | src/session/mod.rs:16-22 | a new session speaks RESP2 |
| Sessions.Session.GetProtoVersion | src/session/mod.rs:24-26 | returns the stored version |
| Sessions.Session.SetProtoVersion | src/session/mod.rs:28-30 | stores the version truncated to a byte, which is the version itself when it fits in a byte |
| Sessions.Session.VersionedResponse | src/session/mod.rs:32-42 | writes the value in the encoding of the session's version |
| Sessions.SetThenGetVersion | src/session/mod.rs:24-30 | a version that fits in a byte reads back as stored |
| CoreCommands.KeySetMembers | src/commands/core/del.rs:25-31 | the set of named keys holds the key of every `String` argument and nothing else |
| CoreCommands.HandleGet | src/commands/core/get.rs:17-33 | GET replies as `GetReply`: an arity or key error, the stored value, or `Nil` for an unbound key |
| CoreCommands.HandleSet | src/commands/core/set.rs:17-41 | SET replies and leaves the store as `SetEffect`: an arity or key error with the store unchanged, or `OK` with the key bound to the value |
| CoreCommands.SetThenGet | src/commands/core/set.rs:39-41 | after SET, GET of that key returns the value set, and GET of any other key is as before |
| CoreCommands.LookupAll | src/commands/core/mget.rs:27-38 | the i-th value MGET gathers is exactly what GET of the i-th key replies |
| CoreCommands.HandleMGet | src/commands/core/mget.rs:17-40 | MGET replies as `MGetReply`: an arity error, an error at the first non-`String` key, or the array of the keys' lookups |
| CoreCommands.KeyedPrefix | src/commands/core/mset.rs:25-36 | the run of pairs whose keys are all `String`s, ending at the end or at the first pair whose key is not one |
| CoreCommands.WritePairsFrame | src/commands/core/mset.rs:25-36 | writing pairs binds exactly their keys on top of the map, and leaves every other key as it was |
| CoreCommands.WritePairsLastWins | src/commands/core/mset.rs:29 | a key's value after writing pairs is the value of its last pair |
| CoreCommands.HandleMSet | src/commands/core/mset.rs:17-38 | MSET replies and leaves the store as `MSetEffect`: an arity error changes nothing; otherwise the pairs before the first non-`String` key are written in order and the reply is `OK` or "Invalid key" |
| CoreCommands.MSetLastWins | src/commands/core/mset.rs:25-36 | MSET with a repeated key keeps the last value |
| CoreCommands.MSetPartial | src/commands/core/mset.rs:32-34 | a non-`String` key fails MSET, and the pairs before it stay written |
| CoreCommands.StringPrefix | src/commands/core/del.rs:25-37 | the run of `String` arguments ending at the end or at the first non-`String` one |
| CoreCommands.HandleDel | src/commands/core/del.rs:17-39 | DEL replies and leaves the store as `DelEffect`: the named keys are removed up to the first non-`String` argument, and the reply counts the removed keys that were bound or is "Invalid key" |
| CoreCommands.DelRemovesNamed | src/commands/core/del.rs:25-39 | after a DEL of `String` keys, the reply counts the distinct named keys that were bound, no named key is bound, GET of each replies `Nil`, and unnamed keys keep their values |
| CoreCommands.DelCounts | src/commands/core/del.rs:28-30 | DEL of one bound and one unbound key replies 1; naming a bound key twice also replies 1 |
| CoreCommands.LiveCount | src/commands/core/exists.rs:26-41 | never more than the number of keys asked about |
| CoreCommands.LiveCountConcat | src/commands/core/exists.rs:26-41 | the count for two runs of keys is the sum of the counts |
| CoreCommands.HandleExists | src/commands/core/exists.rs:17-43 | EXISTS replies as `ExistsReply`: an arity or key error, or how many of the arguments name a bound key that has not expired, repetitions counted |
| CoreCommands.ExistsCountsOccurrences | src/commands/core/exists.rs:28-34 | a live key named twice counts twice; an expired but unswept key counts zero |
| CoreCommands.MatchingLists | src/commands/core/keys.rs:34-38 | the filtered list holds exactly the matching keys, and holds them once each when the keys were distinct |
| CoreCommands.HandleKeys | src/commands/core/keys.rs:19-40 | KEYS answers an arity error or "Invalid pattern", fails on a malformed glob, or lists every bound key that matches, once each and nothing else |
| CoreCommands.HandleFlushDB | src/commands/core/flushdb.rs:17-25 | FLUSHDB with more than one argument is an arity error that changes nothing; otherwise it empties the store and replies `OK` |
| CoreCommands.FlushThenGet | src/commands/core/flushdb.rs:23-25 | after FLUSHDB, GET of any key replies `Nil` and KEYS lists nothing |
| CoreCommands.PingReply | src/commands/core/ping.rs:17-28 | PING replies `PONG` with no argument, echoes a single argument, and is an arity error with more |
| CoreCommands.InfoReply | src/commands/core/info.rs:17-25 | INFO replies in RESP2; the reply is `loading:0` exactly when there are no arguments, and the arity error otherwise |
| CoreCommands.HelloEffect | src/commands/core/hello.rs:17-55 | the version a HELLO leaves is always 2 or 3 |
| CoreCommands.HandleHello | src/commands/core/hello.rs:17-55 | HELLO replies and sets the session's version as `HelloEffect` |
| CoreCommands.HelloDescribes | src/commands/core/hello.rs:23-55 | a HELLO that succeeds replies with the seven server facts, `proto` being the new version, in that version's encoding; `HELLO 3` switches to RESP3; a HELLO without a version string keeps the version |
| ExpireCommands.SecondsArg | src/commands/expire/expire.rs:33-42 | an `Integer` is taken as it is; a `String` that parses as `i64` gives that number, and one that does not becomes -1; any other variant gives no seconds |
| ExpireCommands.Rearm | src/commands/expire/expire.rs:50-61 | a plain value gets the deadline; a value that already has one keeps its old deadline outside, and the new wrapper goes around its inner value |
| ExpireCommands.HandleExpire | src/commands/expire/expire.rs:17-64 | EXPIRE replies and leaves store and index as `ExpireEffect`: arity, key and seconds errors and an unbound key change nothing; otherwise the value gets the deadline and the key joins the index |
| ExpireCommands.HandleSetEx | src/commands/expire/setex.rs:17-64 | SETEX replies and leaves store and index as `SetExEffect`: the errors change nothing; otherwise the key is bound to the value under the deadline and joins the index |
| ExpireCommands.HandleTtl | src/commands/expire/ttl.rs:17-53 | TTL replies as `TtlReply`: whole seconds left for a key with a deadline, -1 for a key without one, -2 for an unbound key or under one second left |
| ExpireCommands.TtlNeverZero | src/commands/expire/ttl.rs:35-44 | TTL never replies 0; a deadline under a second away, or already passed, replies -2 |
| ExpireCommands.SetExThenTtl | src/commands/expire/setex.rs:55-62 | after `SETEX k s v`, TTL of k at the same instant replies s (-2 when s is 0), k is indexed, and GET replies a value written on the wire exactly as `v` |
| ExpireCommands.ExpireThenTtl | src/commands/expire/expire.rs:48-62 | after EXPIRE of a key without a deadline for s seconds, the key holds its value under the deadline and is indexed, TTL replies s (-2 when s is 0), and a sweep after the deadline removes the key from store and index |
| ExpireCommands.ExpireNests | src/commands/expire/expire.rs:50-61 | EXPIRE on a key that already has a deadline keeps the old deadline outermost and wraps the new one inside |
| ExpireCommands.ExpireSecondsAsText | src/commands/expire/expire.rs:33-36 | EXPIRE with the seconds sent as decimal text acts exactly as with the same number sent as an `Integer`, for every `i64` |
| ExpireCommands.SetExSecondsAsText | src/commands/expire/setex.rs:33-36 | SETEX with the seconds sent as decimal text acts exactly as with the same number sent as an `Integer`, for every `i64` |
| ExpireCommands.RefusedLeavesState | src/commands/expire/expire.rs:17-56 | an EXPIRE or SETEX that does not reply `OK` leaves store and index unchanged |
| HashCommands.HSetEffectAt | src/commands/hash/hset.rs:39-57 | HSET's effect once the run of `String` fields is known: no pair gives 0; a non-hash value gives "Key is not a hashmap"; otherwise the pairs are written into the hash and counted |
| HashCommands.Upsert | src/commands/hash/hset.rs:43-54 | the key holds a hash or nothing exactly when the field is written; then the field is set in the (possibly new) hash; otherwise the store is unchanged |
| HashCommands.HandleHSet | src/commands/hash/hset.rs:17-59 | HSET replies and leaves the store as `HSetEffect` |
| HashCommands.HandleHGetAll | src/commands/hash/hgetall.rs:17-41 | HGETALL replies as `HGetAllReply`: the stored hash, or `Nil` for an unbound key, in the session's encoding; errors for arity, key and a non-hash value |
| HashCommands.HSetThenHGetAll | src/commands/hash/hset.rs:39-57 | HSET of two fields on a new key replies 2, and HGETALL then returns exactly those two fields |
| HashCommands.HSetKeepsOtherFields | src/commands/hash/hset.rs:43-50 | HSET on an existing hash sets each named field to its last value and keeps every other field |
| HashCommands.HSetStopsAtBadField | src/commands/hash/hset.rs:39 | a non-`String` field ends HSET; the pairs before it are written and counted, and there is no error |
| HashCommands.HSetOnNonHash | src/commands/hash/hset.rs:51-53 | HSET on a key holding anything but a hash changes nothing, and replies "Key is not a hashmap" when there is a pair to write |
| Dispatch.Run | src/commands/mod.rs:72 | running a handler takes the server from one snapshot to the next exactly as that handler's specification says |
| Dispatch.HandleCommand | src/commands/mod.rs:60-75 | a missing or non-`String` name is "Invalid command" and an unregistered name "Unknown command", both changing nothing; a registered name in any letter case runs its handler on the remaining arguments |
| Dispatch.FreshSetThenGet | src/commands/mod.rs:60-75 | on a fresh server, `set k v` sent in lower case replies `OK`, and `GET k` then replies `v` |
| Dispatch.UnregisteredUnknown | src/commands/mod.rs:35-48 | on a fresh server each of the seven unregistered handlers is answered "Unknown command", and the session stays at RESP2 |

## Left out

- Sockets, `BufReader`, the tokio runtime, locks and the spawned sweep
  task. `Sweep` is one pass of the task's loop body, run at a given `now`.
  The 60-second interval and its skipped first tick are not modelled.
- The writer. A handler's result is the `Reply` or `Outcome` it would
  write. The bytes of RESP3 are abstract, because `to_resp3` is not part of
  this model.
- UTF-8. Strings are sequences of characters, one per byte. The
  `String::from_utf8` check in src/storage/value.rs:67 always succeeds in
  the model.
- The `glob` crate. Pattern syntax and matching are parameters.
- Unicode. `str::trim` and `str::to_uppercase` are modelled on ASCII only.
- Machine widths of counters. Integers are unbounded. Counts in DEL, MGET,
  EXISTS and HSET cannot reach 2^63 on a real store.
  `Sessions.Session.SetProtoVersion` does model the `as u8` truncation.
- `Instant` overflow. A deadline far in the future panics in Rust. In the
  model it is an ordinary number.
- The "Missing key", "Missing seconds" and "Missing value" branches of
  EXPIRE, SETEX, TTL, HSET and HGETALL. The arity checks before them make
  them unreachable, so the model has no such case.
- src/lib.rs, src/handler.rs and src/listiner.rs: the accept loop and the
  request loop are not part of this model.
- Values.Decode: stated as a function of the unread input. Ownership of the
  `TcpStream` is not modelled, because the recursive `from_resp(stream)`
  call does not type-check as written.
- Values.Decode and Values.DecodeMany: a huge length in a `$n` or `*n`
  header is not modelled as the crash it causes. The source allocates
  `vec![0; len]` and `Vec::with_capacity(len)` before reading anything, and
  a large enough `len` panics or aborts the server. The model instead
  returns `None` for a bulk longer than the input, and reads `*n` as n
  elements, each `Error("Invalid response")` once the input is used up.
- CoreCommands.HandleKeys: the order of the listed keys is left open, as
  the order of `HashMap::keys` is.
- Values.HashmapEncoding: the order of a hash map's entries on the wire is
  left open, as the iteration order of `HashMap` is.

## Findings

| source | as written | input that shows it | evidently intended | confidence | as-written member | corrected member |
|---|---|---|---|---|---|---|
| src/storage/value.rs:26 | a `String` is written as `$len\r\n+payload\r\n`, with a `+` inside the bulk payload that the length does not count | `String("ab")` is written as `$2\r\n+ab\r\n` and decodes back as `String("+a")`, leaving `b\r\n` in the stream | the standard bulk frame `$len\r\npayload\r\n` | high (not executed) | CorrectedCodec.AsWrittenBulkMisread | CorrectedCodec.RoundTrip |
| src/storage/value.rs:59-68 | after reading `len` payload bytes, the CRLF that ends the bulk frame is not consumed | the client request `*2\r\n$1\r\na\r\n$1\r\nb\r\n` decodes as `[String("a"), Error("Invalid response")]`, and `$1\r\nb\r\n` is left unread | consume the CRLF after the payload and fail when it is missing | high (not executed) | CorrectedCodec.AsWrittenArrayOfBulks | CorrectedCodec.RoundTrip |
