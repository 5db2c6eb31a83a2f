/** Protocol Buffers Encoding: what the writer writes, and a reader of "Base 128 Varints" and
    "Message Structure" it is inverted by (crates/quickhouse-core/src/sink/bigquery_proto.rs). */
module ProtoWire {
  import opened Options
  import opened Bytes

  const TWO64: int := 0x1_0000_0000_0000_0000
  const TWO63: int := 0x8000_0000_0000_0000

  type U64 = v: int | 0 <= v < 0x1_0000_0000_0000_0000

  // ----- varints -----

  /** Base-128, least significant group first, the top bit of a byte meaning more follow. */
  function Varint(v: nat): (bs: seq<Byte>)
    ensures bs != []
  {
    if v < 128 then [v] else [128 + v % 128] + Varint(v / 128)
  }

  /** A varint of at most `limit` bytes at the front of `s`, and what follows it. */
  function ReadVarintWithin(s: seq<Byte>, limit: nat): (r: Option<(nat, seq<Byte>)>)
    ensures r.Some? ==> |r.value.1| < |s|
  {
    if s == [] || limit == 0 then None
    else if s[0] < 128 then Some((s[0], s[1..]))
    else
      match ReadVarintWithin(s[1..], limit - 1)
      case None => None
      case Some((high, rest)) => Some((s[0] - 128 + 128 * high, rest))
  }

  /** A decoder reads at most ten bytes, and keeps 64 bits of them. */
  function ReadVarint(s: seq<Byte>): (r: Option<(U64, seq<Byte>)>)
    ensures r.Some? ==> |r.value.1| < |s|
  {
    match ReadVarintWithin(s, 10)
    case None => None
    case Some((v, rest)) => Some((v % TWO64, rest))
  }

  /** 128 to the `n`. */
  function Pow128(n: nat): (p: nat)
    ensures p >= 1
  {
    if n == 0 then 1 else 128 * Pow128(n - 1)
  }

  lemma Pow128Bounds()
    ensures Pow128(9) == TWO63
    ensures TWO64 <= Pow128(10)
  {
    assert Pow128(3) == 0x20_0000;
    assert Pow128(6) == 128 * (128 * (128 * Pow128(3)));
    assert Pow128(9) == 128 * (128 * (128 * Pow128(6)));
  }

  lemma {:induction false} VarintReads(v: nat, limit: nat, t: seq<Byte>)
    requires 0 < limit && v < Pow128(limit)
    ensures |Varint(v)| <= limit
    ensures ReadVarintWithin(Varint(v) + t, limit) == Some((v, t))
  {
    var s := Varint(v) + t;
    if v < 128 {
      assert s[1..] == t;
    } else {
      assert s[1..] == Varint(v / 128) + t;
      VarintReads(v / 128, limit - 1, t);
    }
  }

  /** Every 64-bit number is written in at most ten bytes and read back. */
  lemma {:induction false} VarintRoundTrip(v: U64, t: seq<Byte>)
    ensures |Varint(v)| <= 10
    ensures ReadVarint(Varint(v) + t) == Some((v, t))
  {
    FitsTenBytes(v);
    VarintReads(v, 10, t);
    SixtyFourBits(v);
  }

  lemma FitsTenBytes(v: U64)
    ensures v < Pow128(10)
  {
    Pow128Bounds();
  }

  lemma SixtyFourBits(v: U64)
    ensures v % TWO64 == v
  {
  }

  /** No shorter varint means the same number. */
  lemma {:induction false} VarintIsMinimal(s: seq<Byte>, limit: nat, v: nat)
    requires ReadVarintWithin(s, limit) == Some((v, []))
    ensures |Varint(v)| <= |s|
  {
    if s[0] >= 128 {
      var high := ReadVarintWithin(s[1..], limit - 1).value.0;
      VarintIsMinimal(s[1..], limit - 1, high);
      assert v == s[0] - 128 + 128 * high;
      if v >= 128 {
        assert v / 128 == high;
      }
    }
  }

  /** A negative `int64` takes all ten bytes. */
  lemma {:induction false} NegativeTakesTen(i: int)
    requires -TWO63 <= i < 0
    ensures |Varint(i + TWO64)| == 10
  {
    Pow128Bounds();
    VarintLength(i + TWO64, 9);
    VarintRoundTrip(i + TWO64, []);
  }

  lemma {:induction false} VarintLength(v: nat, n: nat)
    requires v >= Pow128(n)
    ensures |Varint(v)| > n
  {
    if n > 0 {
      assert v / 128 >= Pow128(n - 1);
      VarintLength(v / 128, n - 1);
    }
  }

  // ----- two's complement -----

  /** `i64 as u64`. */
  function AsU64(i: int): U64
    requires -TWO63 <= i < TWO64
  {
    if i < 0 then i + TWO64 else i
  }

  /** A varint as a signed 64-bit integer. */
  function AsI64(v: U64): (i: int)
    ensures -TWO63 <= i < TWO63
  {
    if v < TWO63 then v else v - TWO64
  }

  // ----- fields and messages -----

  datatype Wire = Number(v: U64) | Fixed64(bits: seq<Byte>) | Delimited(bytes: seq<Byte>)

  predicate ValidWire(w: Wire) {
    (w.Fixed64? ==> |w.bits| == 8) && (w.Delimited? ==> |w.bytes| < TWO64)
  }

  function WireType(w: Wire): nat {
    if w.Number? then 0 else if w.Fixed64? then 1 else 2
  }

  /** A tagged field. */
  function FieldBytes(number: nat, w: Wire): seq<Byte> {
    Varint(8 * number + WireType(w)) + PayloadBytes(w)
  }

  function PayloadBytes(w: Wire): seq<Byte> {
    match w
    case Number(v) => Varint(v)
    case Fixed64(bits) => bits
    case Delimited(bytes) => Varint(|bytes|) + bytes
  }

  type Message = seq<(nat, Wire)>

  function ReadPayload(wireType: nat, s: seq<Byte>): (r: Option<(Wire, seq<Byte>)>)
    ensures r.Some? ==> |r.value.1| <= |s|
  {
    if wireType == 0 then
      match ReadVarint(s)
      case None => None
      case Some((v, rest)) => Some((Number(v), rest))
    else if wireType == 1 then
      if |s| < 8 then None else Some((Fixed64(s[..8]), s[8..]))
    else if wireType == 2 then
      match ReadVarint(s)
      case None => None
      case Some((len, rest)) => if |rest| < len then None else Some((Delimited(rest[..len]), rest[len..]))
    else None
  }

  /** The fields of a message, in order. */
  function ReadMessage(s: seq<Byte>): Option<Message>
    decreases |s|
  {
    if s == [] then Some([])
    else
      match ReadVarint(s)
      case None => None
      case Some((tag, rest)) =>
        match ReadPayload(tag % 8, rest)
        case None => None
        case Some((w, after)) =>
          match ReadMessage(after)
          case None => None
          case Some(fields) => Some([(tag / 8, w)] + fields)
  }

  lemma PayloadReads(w: Wire, t: seq<Byte>)
    requires ValidWire(w)
    ensures ReadPayload(WireType(w), PayloadBytes(w) + t) == Some((w, t))
  {
    match w {
      case Number(v) => VarintRoundTrip(v, t);
      case Fixed64(bits) =>
        assert (bits + t)[..8] == bits && (bits + t)[8..] == t;
      case Delimited(bytes) =>
        VarintRoundTrip(|bytes|, bytes + t);
        assert (Varint(|bytes|) + bytes) + t == Varint(|bytes|) + (bytes + t);
        assert (bytes + t)[..|bytes|] == bytes && (bytes + t)[|bytes|..] == t;
    }
  }

  lemma {:induction false} FieldReads(number: nat, w: Wire, t: seq<Byte>)
    requires number < 0x2000_0000 && ValidWire(w)
    ensures ReadMessage(FieldBytes(number, w) + t) ==
            match ReadMessage(t) case None => None case Some(fields) => Some([(number, w)] + fields)
  {
    var tag := 8 * number + WireType(w);
    var rest := PayloadBytes(w) + t;
    assert FieldBytes(number, w) + t == Varint(tag) + rest;
    VarintRoundTrip(tag, rest);
    PayloadReads(w, t);
    assert tag / 8 == number && tag % 8 == WireType(w);
  }
}
