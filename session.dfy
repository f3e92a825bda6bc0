/** A client connection's session, src/session/mod.rs: the shared state and
    the negotiated protocol version. */
module Sessions {
  import opened Values
  import opened Replies
  import opened SharedState

  /** Rust's `u8`. */
  type Byte = x: int | 0 <= x < 256

  class Session {
    const state: State
    var protoVersion: Byte

    /** The versions `versioned_response` can serve. */
    ghost predicate Valid()
      reads this
    {
      protoVersion == 2 || protoVersion == 3
    }

    /** `Session::new`: RESP2 until a `HELLO` says otherwise. */
    constructor (state: State)
      ensures this.state == state
      ensures protoVersion == 2 && Valid()
    {
      this.state := state;
      protoVersion := 2;
    }

    /** `get_proto_version`. */
    method GetProtoVersion() returns (v: int)
      ensures v == protoVersion
    {
      v := protoVersion;
    }

    /** `set_proto_version`: `version as u8` keeps the low eight bits, which
        for the two's-complement `i64` is the value modulo 256. */
    method SetProtoVersion(version: int)
      modifies this
      ensures protoVersion == version % 256
      ensures 0 <= version < 256 ==> protoVersion == version
    {
      protoVersion := version % 256;
    }

    /** `versioned_response`: picks the encoder for the current version and
        leaves the version as it is. */
    method VersionedResponse(response: Value) returns (r: Reply)
      requires Valid()
      ensures r == Versioned(protoVersion, response)
    {
      var version := GetProtoVersion();
      if version == 2 {
        r := Resp2(response);
      } else {
        r := Resp3(response);
      }
    }
  }

  /** A byte written with `set_proto_version` is read back unchanged. */
  method SetThenGetVersion(session: Session, n: int) returns (v: int)
    requires 0 <= n < 256
    modifies session
    ensures v == n
  {
    session.SetProtoVersion(n);
    v := session.GetProtoVersion();
  }
}
