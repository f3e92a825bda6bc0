/** The value type of src/storage/value.rs and its RESP codec as written:
    `to_resp` (also used for `to_resp2`) and `from_resp` over a byte cursor. */
module Values {
  import opened Wrappers
  import opened Text

  /** Deadlines and the clock are nanoseconds on one monotonic time line. */
  const NanosPerSecond: nat := 1_000_000_000

  datatype Value =
    | Nil
    | Integer(i: int)
    | String(s: string)
    | Multi(items: seq<Value>)
    | Hashmap(h: map<string, Value>)
    | Expire(inner: Value, deadline: nat)
    | Error(msg: string)
    | Ok
    | Pong

  /** `v.expired()`: an `Expire` wrapper whose deadline is already behind `now`. */
  predicate Expired(v: Value, now: nat)
  {
    v.Expire? && v.deadline < now
  }

  // ---------------------------------------------------------------- encoding

  /** The bulk frame value.rs:26 writes for a `String`: the length header
      counts the payload, and a `+` is written in front of it. */
  function EncodeBulk(s: string): string
  {
    "$" + Decimal(|s|) + CRLF + "+" + s + CRLF
  }

  /** Some enumeration of a key set, each key exactly once: the iteration
      order of a `HashMap`, which the source leaves unspecified. */
  ghost function KeyOrder(keys: set<string>): (ks: seq<string>)
    ensures |ks| == |keys|
    ensures forall k :: k in ks <==> k in keys
    ensures forall i, j :: 0 <= i < j < |ks| ==> ks[i] != ks[j]
    decreases keys
  {
    if keys == {} then []
    else
      var k :| k in keys;
      [k] + KeyOrder(keys - {k})
  }

  /** `to_resp`. `Ok` and `Pong` are the simple strings "OK" and "PONG". */
  ghost function ToResp(v: Value): string
    decreases v, 1
  {
    match v
    case Nil => "$-1\r\n"
    case Integer(i) => ":" + Decimal(i) + CRLF
    case String(s) => EncodeBulk(s)
    case Multi(items) => "*" + Decimal(|items|) + CRLF + EncodeAll(items)
    case Hashmap(h) => "*" + Decimal(|h| * 2) + CRLF + EncodeEntries(h, KeyOrder(h.Keys))
    case Expire(inner, _) => ToResp(inner)
    case Error(e) => "-" + e + CRLF
    case Ok => "+OK\r\n"
    case Pong => "+PONG\r\n"
  }

  /** The element encodings of a `Multi`, concatenated in order. */
  ghost function EncodeAll(items: seq<Value>): string
    decreases items, 0
  {
    if items == [] then "" else ToResp(items[0]) + EncodeAll(items[1..])
  }

  /** For each key in `ks`: the key as a `String`, then its value. */
  ghost function EncodeEntries(h: map<string, Value>, ks: seq<string>): string
    requires forall k :: k in ks ==> k in h
    decreases Hashmap(h), 0, |ks|
  {
    if ks == [] then "" else EncodeBulk(ks[0]) + ToResp(h[ks[0]]) + EncodeEntries(h, ks[1..])
  }

  /** A `Multi` is its length header followed by its elements' encodings in
      order: element `i` of the array is the `i`-th piece of the body. */
  lemma {:induction false} EncodeAllSplits(items: seq<Value>, i: nat)
    requires i < |items|
    ensures EncodeAll(items) == EncodeAll(items[..i]) + ToResp(items[i]) + EncodeAll(items[i + 1..])
  {
    assert items == items[..i] + ([items[i]] + items[i + 1..]);
    EncodeAllConcat(items[..i], [items[i]] + items[i + 1..]);
    assert ([items[i]] + items[i + 1..])[1..] == items[i + 1..];
  }

  lemma {:induction false} EncodeAllConcat(a: seq<Value>, b: seq<Value>)
    ensures EncodeAll(a + b) == EncodeAll(a) + EncodeAll(b)
  {
    if a == [] {
      assert a + b == b;
    } else {
      EncodeAllConcat(a[1..], b);
      assert (a + b)[0] == a[0] && (a + b)[1..] == a[1..] + b;
      Associative(ToResp(a[0]), EncodeAll(a[1..]), EncodeAll(b));
    }
  }

  lemma Associative(x: string, y: string, z: string)
    ensures x + (y + z) == (x + y) + z
  {
  }

  /** A `Hashmap` is written as an array of twice as many elements as it has
      entries, followed, for some order that visits each key exactly once,
      by each key as a bulk string and then its value. */
  lemma HashmapEncoding(h: map<string, Value>)
    ensures exists ks: seq<string> ::
      VisitsEachKeyOnce(h, ks) &&
      ToResp(Hashmap(h)) == "*" + Decimal(2 * |h|) + CRLF + EncodeEntries(h, ks)
  {
    var ks := KeyOrder(h.Keys);
    assert VisitsEachKeyOnce(h, ks) by {
      assert |h.Keys| == |h|;
    }
    HashmapHeader(h);
  }

  /** `ks` lists each key of `h` exactly once. */
  ghost predicate VisitsEachKeyOnce(h: map<string, Value>, ks: seq<string>)
  {
    && |ks| == |h|
    && (forall k :: k in ks <==> k in h)
    && (forall i, j :: 0 <= i < j < |ks| ==> ks[i] != ks[j])
  }

  lemma HashmapHeader(h: map<string, Value>)
    ensures ToResp(Hashmap(h)) == "*" + Decimal(2 * |h|) + CRLF + EncodeEntries(h, KeyOrder(h.Keys))
  {
    assert |h| * 2 == 2 * |h|;
  }

  /** The deadline never reaches the wire: an `Expire` writes as its inner
      value, however deeply wrapped. */
  function Unwrapped(v: Value): (r: Value)
    ensures !r.Expire?
  {
    if v.Expire? then Unwrapped(v.inner) else v
  }

  lemma {:induction false} ExpireEncodesInner(v: Value)
    ensures ToResp(v) == ToResp(Unwrapped(v))
  {
    if v.Expire? {
      ExpireEncodesInner(v.inner);
    }
  }

  // ---------------------------------------------------------------- decoding

  /** `read_line`: everything up to and including the first '\n', or the
      whole remaining input when no '\n' is left. */
  function ReadLine(s: string): (r: (string, string))
    ensures r.0 + r.1 == s
    ensures |r.0| > 0 || s == []
  {
    if s == [] then ([], [])
    else if s[0] == '\n' then ("\n", s[1..])
    else
      var (line, rest) := ReadLine(s[1..]);
      ([s[0]] + line, rest)
  }

  /** A line that ends in its only '\n' is read whole, and the rest is left. */
  lemma {:induction false} ReadLineOf(line: string, rest: string)
    requires |line| > 0 && line[|line| - 1] == '\n'
    requires '\n' !in line[..|line| - 1]
    ensures ReadLine(line + rest) == (line, rest)
    decreases |line|
  {
    if |line| > 1 {
      assert (line + rest)[1..] == line[1..] + rest;
      assert line[1..][..|line[1..]| - 1] == line[1..|line| - 1];
      ReadLineOf(line[1..], rest);
      assert [line[0]] + line[1..] == line;
    } else {
      assert (line + rest)[1..] == rest;
    }
  }

  const InvalidResponse: string := "Invalid response"

  /** `from_resp`: the value at the front of `s` and what is left after it,
      or None where the source returns an `Err` (an unparsable length or
      integer, or a stream that ends inside a bulk payload). The line is read
      whatever happens, so a closed stream (an empty line) yields
      `Error("Invalid response")`. The `\r\n` after a bulk payload is not
      consumed. */
  function Decode(s: string): (r: Option<(Value, string)>)
    ensures r.Some? ==> |r.value.1| <= |s|
    decreases |s|, 0
  {
    var (line, rest) := ReadLine(s);
    if line == [] then Some((Error(InvalidResponse), rest))
    else if line[0] == '$' then
      if line == "$-1\r\n" then Some((Nil, rest))
      else
        match ParseUnsigned(Trim(line[1..]))
        case None => None
        case Some(n) => if |rest| < n then None else Some((String(rest[..n]), rest[n..]))
    else if line[0] == ':' then
      match ParseI64(Trim(line[1..]))
      case None => None
      case Some(i) => Some((Integer(i), rest))
    else if line[0] == '*' then
      match ParseUnsigned(Trim(line[1..]))
      case None => None
      case Some(n) =>
        match DecodeMany(rest, n)
        case None => None
        case Some((items, after)) => Some((Multi(items), after))
    else if line[0] == '+' then Some((String(Trim(line[1..])), rest))
    else Some((Error(InvalidResponse), rest))
  }

  /** The loop of value.rs:78-80: `n` values decoded one after the other; the
      first failure fails the whole array. */
  function DecodeMany(s: string, n: nat): (r: Option<(seq<Value>, string)>)
    ensures r.Some? ==> |r.value.0| == n && |r.value.1| <= |s|
    decreases |s|, 1, n
  {
    if n == 0 then Some(([], s))
    else
      match Decode(s)
      case None => None
      case Some((v, rest)) =>
        match DecodeMany(rest, n - 1)
        case None => None
        case Some((vs, after)) => Some(([v] + vs, after))
  }

  /** A `$n` line takes exactly the next `n` bytes as a `String` and leaves
      everything after them, including the payload's `\r\n`. */
  lemma DecodeBulkLine(n: nat, rest: string)
    requires n <= MaxUsize && n <= |rest|
    ensures Decode("$" + Decimal(n) + CRLF + rest) == Some((String(rest[..n]), rest[n..]))
  {
    DecimalLine('$', n, rest);
    assert "$" + Decimal(n) + CRLF + rest == ['$'] + Decimal(n) + CRLF + rest;
    var line := ['$'] + Decimal(n) + CRLF;
    assert IsDigit(Decimal(n)[0]);
    assert line[1] == Decimal(n)[0];
    TrimDecimalLine(n);
    ParseUnsignedOfDigits(n);
  }

  /** A `*n` line followed by `n` decodable values is the array of them. */
  lemma DecodeArrayLine(n: nat, body: string)
    requires n <= MaxUsize && DecodeMany(body, n).Some?
    ensures Decode("*" + Decimal(n) + CRLF + body)
         == Some((Multi(DecodeMany(body, n).value.0), DecodeMany(body, n).value.1))
  {
    DecimalLine('*', n, body);
    assert "*" + Decimal(n) + CRLF + body == ['*'] + Decimal(n) + CRLF + body;
    TrimDecimalLine(n);
    ParseUnsignedOfDigits(n);
  }

  /** A `$n` line whose `n` does not parse as an unsigned number fails the
      decode (value.rs:60-62), unless it is the exact nil line. */
  lemma DecodeBulkBadLength(line: string, rest: string)
    requires |line| > 0 && line[0] == '$' && line[|line| - 1] == '\n' && '\n' !in line[..|line| - 1]
    requires line != "$-1\r\n" && ParseUnsigned(Trim(line[1..])).None?
    ensures Decode(line + rest) == None
  {
    ReadLineOf(line, rest);
  }

  /** The exact line `$-1\r\n` is `Nil`. */
  lemma DecodeNilLine(rest: string)
    ensures Decode("$-1\r\n" + rest) == Some((Nil, rest))
  {
    ReadLineOf("$-1\r\n", rest);
  }

  /** A `+` line is a `String` of its trimmed remainder. */
  lemma DecodeSimpleLine(line: string, rest: string)
    requires |line| > 0 && line[0] == '+' && line[|line| - 1] == '\n' && '\n' !in line[..|line| - 1]
    ensures Decode(line + rest) == Some((String(Trim(line[1..])), rest))
  {
    ReadLineOf(line, rest);
  }

  /** A line with any other first character (`-` included) is answered with
      `Error("Invalid response")`, and only that line is consumed. */
  lemma DecodeOtherLine(line: string, rest: string)
    requires |line| > 0 && line[0] !in "$:*+" && line[|line| - 1] == '\n' && '\n' !in line[..|line| - 1]
    ensures Decode(line + rest) == Some((Error(InvalidResponse), rest))
  {
    ReadLineOf(line, rest);
  }

  /** An array whose elements before the `k`-th decode, and whose `k`-th
      element then fails, fails as a whole. */
  lemma {:induction false} DecodeManyPropagates(s: string, k: nat, n: nat, vs: seq<Value>, r: string)
    requires k < n && DecodeMany(s, k) == Some((vs, r)) && Decode(r).None?
    ensures DecodeMany(s, n) == None
    decreases k
  {
    if k > 0 {
      var (v, rest) := Decode(s).value;
      var (tail, _) := DecodeMany(rest, k - 1).value;
      DecodeManyPropagates(rest, k - 1, n - 1, tail, r);
    }
  }

  /** A `*n` header whose elements fail to decode fails the whole decode. */
  lemma DecodeArrayFails(n: nat, body: string)
    requires n <= MaxUsize && DecodeMany(body, n).None?
    ensures Decode("*" + Decimal(n) + CRLF + body) == None
  {
    DecimalLine('*', n, body);
    assert "*" + Decimal(n) + CRLF + body == ['*'] + Decimal(n) + CRLF + body;
    TrimDecimalLine(n);
    ParseUnsignedOfDigits(n);
  }

  /** The values whose encoding is framed by lines alone (no bulk payload),
      with integers and array lengths in the ranges the decoder parses. */
  predicate LineFramed(v: Value)
  {
    match v
    case Nil => true
    case Integer(i) => MinI64 <= i <= MaxI64
    case Multi(items) => |items| <= MaxUsize && forall j :: 0 <= j < |items| ==> LineFramed(items[j])
    case _ => false
  }

  lemma DecimalLine(prefix: char, i: int, rest: string)
    requires prefix != '\n'
    ensures ReadLine([prefix] + Decimal(i) + CRLF + rest) == ([prefix] + Decimal(i) + CRLF, rest)
    ensures ([prefix] + Decimal(i) + CRLF)[1..] == Decimal(i) + CRLF
  {
    var line := [prefix] + Decimal(i) + CRLF;
    assert line[..|line| - 1] == [prefix] + Decimal(i) + "\r";
    assert [prefix] + Decimal(i) + CRLF + rest == line + rest;
    assert '\n' !in Decimal(i);
    ReadLineOf(line, rest);
  }

  /** `Integer(i)` is `:` + decimal(i) + CRLF, and decoding that line gives
      `Integer(i)` back, leaving the rest of the stream untouched. */
  lemma IntegerRoundTrip(i: int, rest: string)
    requires MinI64 <= i <= MaxI64
    ensures ToResp(Integer(i)) == ":" + Decimal(i) + CRLF
    ensures Decode(ToResp(Integer(i)) + rest) == Some((Integer(i), rest))
  {
    DecimalLine(':', i, rest);
    assert ToResp(Integer(i)) + rest == [':'] + Decimal(i) + CRLF + rest;
    TrimDecimalLine(i);
    ParseI64OfDecimal(i);
  }

  /** Decoding undoes encoding on the line-framed values: nil, 64-bit
      integers, and arrays of them nested to any depth. */
  lemma {:induction false} LineFramedRoundTrip(v: Value, rest: string)
    requires LineFramed(v)
    ensures Decode(ToResp(v) + rest) == Some((v, rest))
    decreases v, 1
  {
    match v
    case Nil =>
      assert ToResp(v) + rest == "$-1\r\n" + rest;
      ReadLineOf("$-1\r\n", rest);
    case Integer(i) =>
      IntegerRoundTrip(i, rest);
    case Multi(items) =>
      var body := EncodeAll(items) + rest;
      assert ToResp(v) + rest == "*" + Decimal(|items|) + CRLF + body;
      LineFramedManyRoundTrip(items, rest);
      DecodeArrayLine(|items|, body);
  }

  lemma {:induction false} LineFramedManyRoundTrip(items: seq<Value>, rest: string)
    requires forall j :: 0 <= j < |items| ==> LineFramed(items[j])
    ensures DecodeMany(EncodeAll(items) + rest, |items|) == Some((items, rest))
    decreases items, 0
  {
    if items == [] {
      assert EncodeAll(items) + rest == rest;
    } else {
      var s := EncodeAll(items) + rest;
      var tail := EncodeAll(items[1..]) + rest;
      Associative(ToResp(items[0]), EncodeAll(items[1..]), rest);
      LineFramedRoundTrip(items[0], tail);
      LineFramedManyRoundTrip(items[1..], rest);
      DecodeManyCons(s, |items| - 1, items[0], tail, items[1..], rest);
      assert [items[0]] + items[1..] == items;
    }
  }

  lemma DecodeManyCons(s: string, n: nat, v: Value, tail: string, vs: seq<Value>, after: string)
    requires Decode(s) == Some((v, tail)) && DecodeMany(tail, n) == Some((vs, after))
    ensures DecodeMany(s, n + 1) == Some(([v] + vs, after))
  {
  }
}
