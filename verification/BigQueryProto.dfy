/** Rows as serialized protobuf messages for BigQuery's Storage Write API
    (crates/quickhouse-core/src/sink/bigquery_proto.rs). */
module BigQueryProto {
  import opened Options
  import opened Collections
  import opened Bytes
  import opened Buffers
  import opened ProtoWire
  import DateText
  import Calendar
  import DecimalText
  import opened PowersOfTen

  /** The Arrow types a column can be written as; every signed or narrow unsigned integer is `Integer`. */
  datatype DataType = Boolean | Integer | UInt64 | Double | Utf8 | Binary | Date32
                    | TimestampUtc | TimestampNaive | Decimal128(scale: int) | Unsupported

  /** One value of a column: integers (dates, timestamps, mantissas and booleans as 0 and 1 included) or
      bytes (a double as its 8 little-endian bytes). */
  datatype Value = Int(i: int) | Raw(bytes: seq<Byte>)

  type Row = seq<Option<Value>>

  datatype FieldEnc = FieldEnc(number: nat, dataType: DataType)

  // ----- schema -----

  /** A field a column, numbered from 1 in column order. */
  predicate Resolved(schema: seq<DataType>, fields: seq<FieldEnc>) {
    |fields| == |schema| && forall i | 0 <= i < |schema| :: fields[i] == FieldEnc(i + 1, schema[i])
  }

  /** `resolve_fields`: every column's field, or an error at the first type with no mapping. */
  method ResolveFields(schema: seq<DataType>) returns (r: Result<seq<FieldEnc>>)
    ensures r.Ok? <==> Unsupported !in schema
    ensures r.Ok? ==> Resolved(schema, r.value)
  {
    var fields: seq<FieldEnc> := [];
    for i := 0 to |schema|
      invariant Unsupported !in schema[..i] && Resolved(schema[..i], fields)
    {
      if schema[i] == Unsupported { return Err; }
      fields := fields + [FieldEnc(i + 1, schema[i])];
    }
    return Ok(fields);
  }

  /** A value its column type can hold. */
  predicate Fits(t: DataType, v: Value) {
    match t
    case Boolean => v == Int(0) || v == Int(1)
    case Integer => v.Int? && -TWO63 <= v.i < TWO63
    case UInt64 => v.Int? && 0 <= v.i < TWO64
    case Date32 => v.Int? && I32_MIN <= v.i <= I32_MAX
    case TimestampUtc => v.Int? && -TWO63 <= v.i < TWO63
    case TimestampNaive => v.Int? && -TWO63 <= v.i < TWO63
    case Decimal128(scale) => v.Int? && -128 <= scale <= 127 && -I128_MAX <= v.i <= I128_MAX
    case Double => v.Raw? && |v.bytes| == 8
    case Utf8 => v.Raw? && |v.bytes| < TWO64
    case Binary => v.Raw? && |v.bytes| < TWO64
    case Unsupported => false
  }

  /** The wire value of a cell; an error for a naive timestamp out of chrono's range. */
  function WireOf(t: DataType, v: Value): Result<Wire>
    requires Fits(t, v)
  {
    match t
    case Double => Ok(Fixed64(v.bytes))
    case Utf8 => Ok(Delimited(v.bytes))
    case Binary => Ok(Delimited(v.bytes))
    case TimestampNaive =>
      (match DateText.WriteTimestamp(v.i, 6, false)
       case Ok(s) => Ok(Delimited(Ascii(s)))
       case Err => Err)
    case Decimal128(scale) => Ok(Delimited(Ascii(DecimalText.ToText(v.i, scale))))
    case _ => Ok(Number(AsU64(v.i)))
  }

  predicate FitsRow(schema: seq<DataType>, row: Row) {
    |row| == |schema| && forall i | 0 <= i < |row| :: row[i].Some? ==> Fits(schema[i], row[i].value)
  }

  /** The message fields of the first `n` columns: none for a NULL. An error is `WireOf`'s. */
  function RowFields(schema: seq<DataType>, row: Row, n: nat): Result<Message>
    requires FitsRow(schema, row) && n <= |row|
  {
    if n == 0 then Ok([])
    else
      match RowFields(schema, row, n - 1)
      case Err => Err
      case Ok(fields) =>
        match row[n - 1]
        case None => Ok(fields)
        case Some(v) =>
          match WireOf(schema[n - 1], v)
          case Err => Err
          case Ok(w) => Ok(fields + [(n, w)])
  }

  /** The bytes of a message's fields. */
  function MessageBytes(m: Message): seq<Byte> {
    if m == [] then [] else MessageBytes(m[..|m| - 1]) + FieldBytes(m[|m| - 1].0, m[|m| - 1].1)
  }

  // ----- the writer -----

  /** `push_varint`. */
  method PushVarint(buf: ByteBuffer, value: nat)
    modifies buf
    ensures buf.bytes == old(buf.bytes) + Varint(value)
  {
    ghost var before := buf.bytes;
    ghost var done: seq<Byte> := [];
    var v := value;
    while true
      invariant buf.bytes == before + done
      invariant done + Varint(v) == Varint(value)
      decreases v
    {
      var byte := v % 128;
      if v / 128 != 0 {
        buf.Push(byte + 128);
        assert (done + [byte + 128]) + Varint(v / 128) == done + ([128 + byte] + Varint(v / 128));
        done := done + [byte + 128];
        v := v / 128;
      } else {
        buf.Push(byte);
        return;
      }
    }
  }

  /** `push_tag`. */
  method PushTag(buf: ByteBuffer, number: nat, wireType: nat)
    modifies buf
    ensures buf.bytes == old(buf.bytes) + Varint(8 * number + wireType)
  {
    PushVarint(buf, number * 8 + wireType);
  }

  /** `write_varint`, `write_int`, `write_double` and `write_len`: a tag and its payload. */
  method WriteField(buf: ByteBuffer, number: nat, w: Wire)
    modifies buf
    ensures buf.bytes == old(buf.bytes) + FieldBytes(number, w)
  {
    ghost var before := buf.bytes;
    PushTag(buf, number, WireType(w));
    ghost var tag := Varint(8 * number + WireType(w));
    match w {
      case Number(v) => PushVarint(buf, v);
      case Fixed64(bits) => buf.Extend(bits);
      case Delimited(bytes) =>
        PushVarint(buf, |bytes|);
        buf.Extend(bytes);
        Associate(before + tag, Varint(|bytes|), bytes);
    }
    Associate(before, tag, PayloadBytes(w));
  }

  /** A buffer that held `before` and has taken the fields of the first `i` columns. */
  predicate Taken(buf: ByteBuffer, before: seq<Byte>, schema: seq<DataType>, row: Row, i: nat)
    requires FitsRow(schema, row) && i <= |row|
    reads buf
  {
    RowFields(schema, row, i).Ok? && buf.bytes == before + MessageBytes(RowFields(schema, row, i).value)
  }

  /** One column of `encode_row`: its field, unless the cell is NULL. */
  method EncodeCell(buf: ByteBuffer, schema: seq<DataType>, row: Row, i: nat, fields: seq<FieldEnc>,
                    ghost before: seq<Byte>) returns (ok: bool)
    requires FitsRow(schema, row) && Resolved(schema, fields) && i < |row|
    requires Taken(buf, before, schema, row, i)
    modifies buf
    ensures ok == RowFields(schema, row, i + 1).Ok?
    ensures ok ==> Taken(buf, before, schema, row, i + 1)
  {
    NextField(schema, row, i, before);
    var fe := fields[i];
    var cell := row[fe.number - 1];
    if cell.None? { return true; }
    var w := WireOf(fe.dataType, cell.value);
    if w.Err? { return false; }
    WriteField(buf, fe.number, w.value);
    return true;
  }

  /** `encode_row`: append one row's message, skipping NULL cells. */
  method EncodeRow(buf: ByteBuffer, schema: seq<DataType>, row: Row, fields: seq<FieldEnc>) returns (ok: bool)
    requires FitsRow(schema, row) && Resolved(schema, fields)
    modifies buf
    ensures ok == RowFields(schema, row, |row|).Ok?
    ensures ok ==> buf.bytes == old(buf.bytes) + MessageBytes(RowFields(schema, row, |row|).value)
  {
    ghost var before := buf.bytes;
    NothingTaken(buf, schema, row);
    for i := 0 to |fields|
      invariant Taken(buf, before, schema, row, i)
    {
      ok := EncodeCell(buf, schema, row, i, fields, before);
      if !ok {
        FieldsFail(schema, row, i + 1);
        return;
      }
    }
    return true;
  }

  lemma NothingTaken(buf: ByteBuffer, schema: seq<DataType>, row: Row)
    requires FitsRow(schema, row)
    ensures Taken(buf, buf.bytes, schema, row, 0)
  {
    assert buf.bytes + [] == buf.bytes;
  }

  /** What one more column adds to the fields and to their bytes. */
  lemma NextField(schema: seq<DataType>, row: Row, i: nat, before: seq<Byte>)
    requires FitsRow(schema, row) && i < |row| && RowFields(schema, row, i).Ok?
    ensures row[i].None? ==> RowFields(schema, row, i + 1) == RowFields(schema, row, i)
    ensures row[i].Some? ==> (RowFields(schema, row, i + 1).Ok? <==> WireOf(schema[i], row[i].value).Ok?)
    ensures row[i].Some? && WireOf(schema[i], row[i].value).Ok? ==>
              (before + MessageBytes(RowFields(schema, row, i).value))
              + FieldBytes(i + 1, WireOf(schema[i], row[i].value).value)
              == before + MessageBytes(RowFields(schema, row, i + 1).value)
  {
    if row[i].Some? && WireOf(schema[i], row[i].value).Ok? {
      FieldAppended(before, RowFields(schema, row, i).value, i + 1, WireOf(schema[i], row[i].value).value);
    }
  }

  lemma FieldAppended(before: seq<Byte>, m: Message, number: nat, w: Wire)
    ensures (before + MessageBytes(m)) + FieldBytes(number, w) == before + MessageBytes(m + [(number, w)])
  {
    assert (m + [(number, w)])[..|m|] == m;
    Associate(before, MessageBytes(m), FieldBytes(number, w));
  }

  lemma {:induction false} FieldsFail(schema: seq<DataType>, row: Row, n: nat)
    requires FitsRow(schema, row) && n <= |row| && RowFields(schema, row, n) == Err
    ensures RowFields(schema, row, |row|) == Err
    decreases |row| - n
  {
    if n < |row| {
      FieldsFail(schema, row, n + 1);
    }
  }

  // ----- the reader -----

  /** The last field with a number, which is the one that counts. */
  function Lookup(m: Message, number: nat): Option<Wire> {
    if m == [] then None
    else if m[|m| - 1].0 == number then Some(m[|m| - 1].1)
    else Lookup(m[..|m| - 1], number)
  }

  /** A wire value as the column's proto type reads it: an `int32` keeps 32 bits, a `bool` is any non-zero
      varint, and a wire type that does not match is not the field. */
  function ReadAs(t: DataType, w: Wire): Option<Value> {
    match t
    case Boolean => if w.Number? then Some(Int(if w.v != 0 then 1 else 0)) else None
    case Date32 => if w.Number? then Some(Int(Signed(w.v % 0x1_0000_0000, 0x1_0000_0000))) else None
    case Double => if w.Fixed64? then Some(Raw(w.bits)) else None
    case Integer => if w.Number? then Some(Int(AsI64(w.v))) else None
    case UInt64 => if w.Number? then Some(Int(AsI64(w.v))) else None
    case TimestampUtc => if w.Number? then Some(Int(AsI64(w.v))) else None
    case Unsupported => None
    case _ => if w.Delimited? then Some(Raw(w.bytes)) else None
  }

  function ReadColumn(t: DataType, field: Option<Wire>): Option<Value> {
    match field case None => None case Some(w) => ReadAs(t, w)
  }

  /** The columns of a message: an absent field is NULL. */
  function ColumnsOf(schema: seq<DataType>, m: Message): (row: Row)
    ensures |row| == |schema|
    ensures forall i | 0 <= i < |schema| :: row[i] == ReadColumn(schema[i], Lookup(m, i + 1))
  {
    seq(|schema|, i requires 0 <= i < |schema| => ReadColumn(schema[i], Lookup(m, i + 1)))
  }

  /** A row read from its bytes by the schema. */
  function ReadRow(schema: seq<DataType>, s: seq<Byte>): Option<Row> {
    match ReadMessage(s)
    case None => None
    case Some(m) => Some(ColumnsOf(schema, m))
  }

  // ----- the reader inverts the writer -----

  /** What the destination is given for a value: an unsigned 64-bit integer modulo 2^64 as signed, a
      decimal and a naive timestamp as text, and any other value itself. */
  function Delivered(t: DataType, v: Value): Value
    requires Fits(t, v) && WireOf(t, v).Ok?
  {
    match t
    case UInt64 => Int(if v.i < TWO63 then v.i else v.i - TWO64)
    case Decimal128(scale) => Raw(Ascii(DecimalText.ToText(v.i, scale)))
    case TimestampNaive => Raw(Ascii(DateText.WriteTimestamp(v.i, 6, false).value))
    case _ => v
  }

  lemma ReadsDelivered(t: DataType, v: Value)
    requires Fits(t, v) && WireOf(t, v).Ok?
    ensures ReadAs(t, WireOf(t, v).value) == Some(Delivered(t, v))
  {
    match t {
      case TimestampNaive =>
      case Decimal128(scale) =>
      case _ =>
    }
  }

  /** Every wire value written can be written: its text is short. */
  lemma WireIsValid(t: DataType, v: Value)
    requires Fits(t, v) && WireOf(t, v).Ok?
    ensures ValidWire(WireOf(t, v).value)
  {
    match t {
      case Decimal128(scale) => DecimalTextLength(v.i, scale);
      case TimestampNaive => TimestampTextLength(v.i);
      case _ =>
    }
  }

  lemma {:induction false} PrintLength(n: nat, k: nat)
    requires 0 < k && n < Pow10(k)
    ensures |DecimalText.Print(n)| <= k
  {
    if n >= 10 {
      PrintLength(n / 10, k - 1);
    }
  }

  lemma DecimalTextLength(value: int, scale: int)
    requires -128 <= scale <= 127 && -I128_MAX <= value <= I128_MAX
    ensures |DecimalText.ToText(value, scale)| <= 200
  {
    Pow10Bounds();
    PrintLength(DecimalText.Magnitude(value), 39);
  }

  lemma TimestampTextLength(micros: int)
    requires DateText.WriteTimestamp(micros, 6, false).Ok?
    ensures |DateText.WriteTimestamp(micros, 6, false).value| <= 40
  {
    var secs, frac := micros / 1000000, micros % 1000000;
    InstantTextLength(secs / 86400, secs % 86400, frac);
  }

  lemma InstantTextLength(day: int, secondOfDay: int, frac: nat)
    requires 0 <= secondOfDay < 86400 && DateText.WriteInstant(day, secondOfDay, frac, 6, false).Ok?
    ensures |DateText.WriteInstant(day, secondOfDay, frac, 6, false).value| <= 40
  {
    var d := Calendar.DateOf(day + DateText.UNIX_EPOCH_DAYS_FROM_CE);
    YearTextLength(d.year);
    DateText.IsoLength(d, secondOfDay, DateText.TailText(frac, 6, false));
  }

  lemma YearTextLength(year: int)
    requires DateText.YearHeld(year)
    ensures |DateText.YearText(year)| <= 7
  {
    assert Pow10(6) == 1000000;
    PrintLength(if year < 0 then -year else year, 6);
  }

  ghost predicate ValidMessage(m: Message) {
    forall i | 0 <= i < |m| :: m[i].0 < 0x2000_0000 && ValidWire(m[i].1)
  }

  /** The bytes of a message, from its first field on. */
  function BytesFromFirst(m: Message): seq<Byte> {
    if m == [] then [] else FieldBytes(m[0].0, m[0].1) + BytesFromFirst(m[1..])
  }

  lemma {:induction false} OneMoreField(m: Message, field: (nat, Wire))
    ensures BytesFromFirst(m + [field]) == BytesFromFirst(m) + FieldBytes(field.0, field.1)
  {
    var all := m + [field];
    if m == [] {
      assert all[1..] == [];
      assert FieldBytes(field.0, field.1) + [] == [] + FieldBytes(field.0, field.1);
    } else {
      OneMoreField(m[1..], field);
      assert all[1..] == m[1..] + [field];
      Associate(FieldBytes(m[0].0, m[0].1), BytesFromFirst(m[1..]), FieldBytes(field.0, field.1));
    }
  }

  lemma {:induction false} SameBytes(m: Message)
    ensures MessageBytes(m) == BytesFromFirst(m)
  {
    if m != [] {
      var init, last := m[..|m| - 1], m[|m| - 1];
      SameBytes(init);
      OneMoreField(init, last);
      SplitLast(m);
    }
  }

  lemma {:induction false} MessageReads(m: Message)
    requires ValidMessage(m)
    ensures ReadMessage(BytesFromFirst(m)) == Some(m)
  {
    if m != [] {
      MessageReads(m[1..]);
      FieldReads(m[0].0, m[0].1, BytesFromFirst(m[1..]));
      assert [m[0]] + m[1..] == m;
    }
  }

  lemma {:induction false} FieldsAreValid(schema: seq<DataType>, row: Row, n: nat)
    requires FitsRow(schema, row) && n <= |row| < 0x2000_0000 && RowFields(schema, row, n).Ok?
    ensures ValidMessage(RowFields(schema, row, n).value)
    ensures forall k | k > n :: Lookup(RowFields(schema, row, n).value, k) == None
  {
    if n > 0 {
      FieldsAreValid(schema, row, n - 1);
      if row[n - 1].Some? {
        WireIsValid(schema[n - 1], row[n - 1].value);
        var m := RowFields(schema, row, n).value;
        assert m[..|m| - 1] == RowFields(schema, row, n - 1).value;
      }
    }
  }

  lemma {:induction false} FieldOfColumn(schema: seq<DataType>, row: Row, n: nat, i: nat)
    requires FitsRow(schema, row) && i < n <= |row| < 0x2000_0000 && RowFields(schema, row, n).Ok?
    ensures row[i] == None ==> Lookup(RowFields(schema, row, n).value, i + 1) == None
    ensures row[i].Some? ==> WireOf(schema[i], row[i].value).Ok?
    ensures row[i].Some? ==>
              Lookup(RowFields(schema, row, n).value, i + 1) == Some(WireOf(schema[i], row[i].value).value)
  {
    var m := RowFields(schema, row, n).value;
    if row[n - 1].Some? {
      assert m[..|m| - 1] == RowFields(schema, row, n - 1).value;
    }
    if i < n - 1 {
      FieldOfColumn(schema, row, n - 1, i);
    } else {
      FieldsAreValid(schema, row, n - 1);
    }
  }

  /** A cell as the destination is given it. */
  function DeliveredCell(t: DataType, cell: Option<Value>): Option<Value>
    requires cell.Some? ==> Fits(t, cell.value) && WireOf(t, cell.value).Ok?
  {
    match cell case None => None case Some(v) => Some(Delivered(t, v))
  }

  lemma ColumnReads(schema: seq<DataType>, row: Row, i: nat)
    requires FitsRow(schema, row) && i < |row| < 0x2000_0000 && RowFields(schema, row, |row|).Ok?
    ensures row[i].Some? ==> WireOf(schema[i], row[i].value).Ok?
    ensures ReadColumn(schema[i], Lookup(RowFields(schema, row, |row|).value, i + 1))
         == DeliveredCell(schema[i], row[i])
  {
    FieldOfColumn(schema, row, |row|, i);
    if row[i].Some? {
      ReadsDelivered(schema[i], row[i].value);
    }
  }

  lemma BytesReadBack(schema: seq<DataType>, row: Row)
    requires FitsRow(schema, row) && |row| < 0x2000_0000 && RowFields(schema, row, |row|).Ok?
    ensures ReadMessage(MessageBytes(RowFields(schema, row, |row|).value)) == Some(RowFields(schema, row, |row|).value)
  {
    var m := RowFields(schema, row, |row|).value;
    FieldsAreValid(schema, row, |row|);
    MessageReads(m);
    SameBytes(m);
  }

  /** Decoding an encoded row by the Protocol Buffers rules gives exactly the row: a NULL absent, a zero
      or an empty value present, every column its own. */
  lemma {:induction false} RowRoundTrip(schema: seq<DataType>, row: Row, got: Option<Row>)
    requires FitsRow(schema, row) && |row| < 0x2000_0000 && RowFields(schema, row, |row|).Ok?
    requires got == ReadRow(schema, MessageBytes(RowFields(schema, row, |row|).value))
    ensures got.Some? && |got.value| == |row|
    ensures forall i | 0 <= i < |row| ::
              (row[i].Some? ==> WireOf(schema[i], row[i].value).Ok?) && got.value[i] == DeliveredCell(schema[i], row[i])
  {
    BytesReadBack(schema, row);
    forall i | 0 <= i < |row|
      ensures (row[i].Some? ==> WireOf(schema[i], row[i].value).Ok?) && got.value[i] == DeliveredCell(schema[i], row[i])
    {
      ColumnReads(schema, row, i);
    }
  }

  /** A NUMERIC sent as text is the exact decimal: parsing it gives back sign, magnitude and scale. */
  lemma {:induction false} NumericTextIsExact(value: int, scale: nat)
    requires scale <= 127 && -I128_MAX <= value <= I128_MAX
    ensures Fits(Decimal128(scale), Int(value))
    ensures Delivered(Decimal128(scale), Int(value)) == Raw(Ascii(DecimalText.ToText(value, scale)))
    ensures DecimalText.TextMeaning(DecimalText.ToText(value, scale))
         == Ok(DecimalText.Parsed(value < 0, DecimalText.Magnitude(value), scale))
  {
    DecimalText.PrintParseRoundTrip(value, scale);
  }
}
