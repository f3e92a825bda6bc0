/** The bulk-string framing of src/storage/value.rs, corrected. As written,
    the encoder puts a `+` in front of a bulk payload (value.rs:26) and the
    decoder leaves the `\r\n` that ends a bulk payload in the stream
    (value.rs:59-67). The first two lemmas exhibit both on concrete input;
    the rest defines the evidently intended framing `$<len>\r\n<s>\r\n` and
    proves that decoding undoes encoding for every value the decoder can
    return unchanged. */
module CorrectedCodec {
  import opened Wrappers
  import opened Text
  import V = Values

  /** The standard bulk frame: length header, payload, `\r\n`. */
  function Bulk(s: string): string
  {
    "$" + Decimal(|s|) + CRLF + s + CRLF
  }

  /** As written, a non-empty `String(s)` is sent as `$|s|\r\n+s\r\n`;
      reading it back takes `|s|` bytes of payload starting at the `+`, so it
      yields `+` and all of `s` but its last byte, and leaves that byte and
      the `\r\n` in the stream. */
  lemma AsWrittenBulkMisread(s: string)
    requires 0 < |s| <= MaxUsize
    ensures V.Decode(V.ToResp(V.String(s)))
         == Some((V.String("+" + s[..|s| - 1]), [s[|s| - 1]] + CRLF))
  {
    var payload := "+" + s + CRLF;
    V.DecodeBulkLine(|s|, payload);
    assert V.ToResp(V.String(s)) == "$" + Decimal(|s|) + CRLF + payload;
    ShiftedPayload(s);
  }

  lemma ShiftedPayload(s: string)
    requires 0 < |s|
    ensures ("+" + s + CRLF)[..|s|] == "+" + s[..|s| - 1]
    ensures ("+" + s + CRLF)[|s|..] == [s[|s| - 1]] + CRLF
  {
    var payload := "+" + s + CRLF;
    assert payload == "+" + s[..|s| - 1] + ([s[|s| - 1]] + CRLF) by {
      assert s == s[..|s| - 1] + [s[|s| - 1]];
    }
  }

  /** A client request of two bulk strings in the standard framing: the
      first element decodes, then the `\r\n` left after its payload is read
      as a line of its own, so the second element becomes
      `Error("Invalid response")` and the second bulk frame stays unread. */
  lemma AsWrittenArrayOfBulks(a: string, b: string)
    requires |a| <= MaxUsize
    ensures V.Decode("*2\r\n" + Bulk(a) + Bulk(b))
         == Some((V.Multi([V.String(a), V.Error(V.InvalidResponse)]), Bulk(b)))
  {
    var body := Bulk(a) + Bulk(b);
    ElementsOfTwoBulks(a, Bulk(b));
    V.DecodeArrayLine(2, body);
    TwoElementHeader(body);
    assert "*2\r\n" + Bulk(a) + Bulk(b) == "*2\r\n" + body;
  }

  lemma TwoElementHeader(body: string)
    ensures "*" + Decimal(2) + CRLF + body == "*2\r\n" + body
  {
    assert Decimal(2) == "2";
  }

  lemma ElementsOfTwoBulks(a: string, left: string)
    requires |a| <= MaxUsize
    ensures V.DecodeMany(Bulk(a) + left, 2)
         == Some(([V.String(a), V.Error(V.InvalidResponse)], left))
  {
    var afterA := CRLF + left;
    var afterLen := a + afterA;
    V.DecodeBulkLine(|a|, afterLen);
    assert Bulk(a) + left == "$" + Decimal(|a|) + CRLF + afterLen;
    assert afterLen[..|a|] == a && afterLen[|a|..] == afterA;
    LeftoverLine(left);
    assert [V.String(a)] + [V.Error(V.InvalidResponse)] == [V.String(a), V.Error(V.InvalidResponse)];
  }

  lemma LeftoverLine(left: string)
    ensures V.DecodeMany(CRLF + left, 1) == Some(([V.Error(V.InvalidResponse)], left))
  {
    V.DecodeOtherLine(CRLF, left);
    assert V.DecodeMany(left, 0) == Some(([], left));
    assert [V.Error(V.InvalidResponse)] + [] == [V.Error(V.InvalidResponse)];
  }

  /** `to_resp` with the standard bulk frame; every other case as written. */
  ghost function Encode(v: V.Value): string
    decreases v, 1
  {
    match v
    case Nil => "$-1\r\n"
    case Integer(i) => ":" + Decimal(i) + CRLF
    case String(s) => Bulk(s)
    case Multi(items) => "*" + Decimal(|items|) + CRLF + EncodeAll(items)
    case Hashmap(h) => "*" + Decimal(|h| * 2) + CRLF + EncodeEntries(h, V.KeyOrder(h.Keys))
    case Expire(inner, _) => Encode(inner)
    case Error(e) => "-" + e + CRLF
    case Ok => "+OK\r\n"
    case Pong => "+PONG\r\n"
  }

  /** `EncodeAll`, `EncodeEntries`, `DecodeMany` and `DecodeManyCons` below
      have the shape of their `Values` counterparts; they differ only in
      calling the corrected `Encode` and `Decode`, whose bulk frame is the
      one change. */
  ghost function EncodeAll(items: seq<V.Value>): string
    decreases items, 0
  {
    if items == [] then "" else Encode(items[0]) + EncodeAll(items[1..])
  }

  ghost function EncodeEntries(h: map<string, V.Value>, ks: seq<string>): string
    requires forall k :: k in ks ==> k in h
    decreases V.Hashmap(h), 0, |ks|
  {
    if ks == [] then "" else Bulk(ks[0]) + Encode(h[ks[0]]) + EncodeEntries(h, ks[1..])
  }

  /** `from_resp` that consumes the `\r\n` closing a bulk payload (and fails,
      like a short read, when it is missing); every other case as written. */
  function Decode(s: string): (r: Option<(V.Value, string)>)
    ensures r.Some? ==> |r.value.1| <= |s|
    decreases |s|, 0
  {
    var (line, rest) := V.ReadLine(s);
    if line == [] then Some((V.Error(V.InvalidResponse), rest))
    else if line[0] == '$' then
      if line == "$-1\r\n" then Some((V.Nil, rest))
      else
        match ParseUnsigned(Trim(line[1..]))
        case None => None
        case Some(n) =>
          if |rest| < n + 2 || rest[n..n + 2] != CRLF then None
          else Some((V.String(rest[..n]), rest[n + 2..]))
    else if line[0] == ':' then
      match ParseI64(Trim(line[1..]))
      case None => None
      case Some(i) => Some((V.Integer(i), rest))
    else if line[0] == '*' then
      match ParseUnsigned(Trim(line[1..]))
      case None => None
      case Some(n) =>
        match DecodeMany(rest, n)
        case None => None
        case Some((items, after)) => Some((V.Multi(items), after))
    else if line[0] == '+' then Some((V.String(Trim(line[1..])), rest))
    else Some((V.Error(V.InvalidResponse), rest))
  }

  function DecodeMany(s: string, n: nat): (r: Option<(seq<V.Value>, string)>)
    ensures r.Some? ==> |r.value.0| == n && |r.value.1| <= |s|
    decreases |s|, 1, n
  {
    if n == 0 then Some(([], s))
    else
      match Decode(s)
      case None => None
      case Some((v, rest)) =>
        match DecodeMany(rest, n - 1)
        case None => None
        case Some((vs, after)) => Some(([v] + vs, after))
  }

  /** The values a client can send and get back unchanged: nil, 64-bit
      integers, strings of any bytes, and arrays of them. */
  predicate Framed(v: V.Value)
  {
    match v
    case Nil => true
    case Integer(i) => MinI64 <= i <= MaxI64
    case String(s) => |s| <= MaxUsize
    case Multi(items) => |items| <= MaxUsize && forall j :: 0 <= j < |items| ==> Framed(items[j])
    case _ => false
  }

  lemma BulkRoundTrip(s: string, rest: string)
    requires |s| <= MaxUsize
    ensures Decode(Bulk(s) + rest) == Some((V.String(s), rest))
  {
    var n := |s|;
    var after := s + CRLF + rest;
    V.DecimalLine('$', n, after);
    assert Bulk(s) + rest == ['$'] + Decimal(n) + CRLF + after;
    var line := ['$'] + Decimal(n) + CRLF;
    assert IsDigit(Decimal(n)[0]);
    assert line[1] == Decimal(n)[0];
    assert line != "$-1\r\n";
    TrimDecimalLine(n);
    ParseUnsignedOfDigits(n);
    assert after[n..n + 2] == CRLF;
    assert after[..n] == s;
    assert after[n + 2..] == rest;
  }

  lemma IntegerRoundTrip(i: int, rest: string)
    requires MinI64 <= i <= MaxI64
    ensures Decode(":" + Decimal(i) + CRLF + rest) == Some((V.Integer(i), rest))
  {
    V.DecimalLine(':', i, rest);
    assert ":" + Decimal(i) + CRLF + rest == [':'] + Decimal(i) + CRLF + rest;
    TrimDecimalLine(i);
    ParseI64OfDecimal(i);
  }

  lemma ArrayLine(n: nat, body: string)
    requires n <= MaxUsize && DecodeMany(body, n).Some?
    ensures Decode("*" + Decimal(n) + CRLF + body)
         == Some((V.Multi(DecodeMany(body, n).value.0), DecodeMany(body, n).value.1))
  {
    V.DecimalLine('*', n, body);
    assert "*" + Decimal(n) + CRLF + body == ['*'] + Decimal(n) + CRLF + body;
    TrimDecimalLine(n);
    ParseUnsignedOfDigits(n);
  }

  lemma DecodeManyCons(s: string, n: nat, v: V.Value, tail: string, vs: seq<V.Value>, after: string)
    requires Decode(s) == Some((v, tail)) && DecodeMany(tail, n) == Some((vs, after))
    ensures DecodeMany(s, n + 1) == Some(([v] + vs, after))
  {
  }

  /** Round trip: decoding the corrected encoding of a framed value yields
      the value and leaves the rest of the stream as it was. */
  lemma {:induction false} RoundTrip(v: V.Value, rest: string)
    requires Framed(v)
    ensures Decode(Encode(v) + rest) == Some((v, rest))
    decreases v, 1
  {
    match v
    case Nil =>
      assert Encode(v) + rest == "$-1\r\n" + rest;
      V.ReadLineOf("$-1\r\n", rest);
    case Integer(i) =>
      assert Encode(v) + rest == ":" + Decimal(i) + CRLF + rest;
      IntegerRoundTrip(i, rest);
    case String(s) =>
      BulkRoundTrip(s, rest);
    case Multi(items) =>
      var body := EncodeAll(items) + rest;
      assert Encode(v) + rest == "*" + Decimal(|items|) + CRLF + body;
      RoundTripMany(items, rest);
      ArrayLine(|items|, body);
  }

  lemma {:induction false} RoundTripMany(items: seq<V.Value>, rest: string)
    requires forall j :: 0 <= j < |items| ==> Framed(items[j])
    ensures DecodeMany(EncodeAll(items) + rest, |items|) == Some((items, rest))
    decreases items, 0
  {
    if items == [] {
      assert EncodeAll(items) + rest == rest;
    } else {
      var s := EncodeAll(items) + rest;
      var tail := EncodeAll(items[1..]) + rest;
      assert s == Encode(items[0]) + tail;
      RoundTrip(items[0], tail);
      RoundTripMany(items[1..], rest);
      DecodeManyCons(s, |items| - 1, items[0], tail, items[1..], rest);
      assert [items[0]] + items[1..] == items;
    }
  }
}
