/** What a handler writes back: a value and the encoder it is written with,
    and the error messages the handlers build with `value_error!`. */
module Replies {
  import opened Values

  /** A value written with `to_resp`/`to_resp2` (whose bytes are
      `Values.ToResp`), or with the RESP3 encoder `to_resp3`, whose body is
      not part of this model. */
  datatype Reply = Resp2(value: Value) | Resp3(value: Value)

  /** A handler either writes one reply, or returns an `Err` that ends the
      connection without a reply. */
  datatype Outcome = Sent(reply: Reply) | Failed(reason: string)

  const ArityError: string := "Invalid number of arguments"
  const InvalidKey: string := "Invalid key"
  const InvalidCommand: string := "Invalid command"
  const UnknownCommand: string := "Unknown command"
  const InvalidPattern: string := "Invalid pattern"
  const InvalidVersion: string := "Invalid version"
  const InvalidSeconds: string := "Invalid seconds"
  const KeyNotFound: string := "Key not found"
  const NotAHashmap: string := "Key is not a hashmap"

  /** `versioned_response`: the RESP2 encoder under version 2, the RESP3
      encoder under version 3; any other version is unreachable there. */
  function Versioned(version: int, v: Value): (r: Reply)
    requires version == 2 || version == 3
    ensures r.value == v
    ensures r.Resp2? <==> version == 2
    ensures r.Resp3? <==> version == 3
  {
    if version == 2 then Resp2(v) else Resp3(v)
  }
}
