/** The CSV part writer: one text buffer, handed to the file in pieces
    (crates/quickhouse-core/src/sink/csv_writer.rs). */
module CsvWriter {
  import opened Options
  import opened Collections
  import opened Bytes
  import opened Buffers
  import opened CsvText
  import DateText

  /** A value, by how its column encodes it: text rendered elsewhere (strings, base64, numbers), a
      boolean, days since 1970-01-01, or a timestamp in a unit. */
  datatype Value = Plain(text: seq<Byte>) | Boolean(value: bool) | Date32(days: int)
                 | Timestamp(at: int, digits: nat, utc: bool)

  /** The cell a value is written as; an error for a date or timestamp out of range. */
  function Render(v: Option<Value>): Result<Cell> {
    match v
    case None => Ok(Null)
    case Some(Plain(text)) => Ok(Text(text))
    case Some(Boolean(value)) => Ok(Flag(value))
    case Some(Date32(days)) =>
      (match DateText.WriteDate(days) case Ok(s) => Ok(Text(Ascii(s))) case Err => Err)
    case Some(Timestamp(at, digits, utc)) =>
      if !DateText.IsUnit(digits) then Err
      else match DateText.WriteTimestamp(at, digits, utc) case Ok(s) => Ok(Text(Ascii(s))) case Err => Err
  }

  /** A row of values as cells, when every one of them renders. */
  function RenderRow(row: seq<Option<Value>>): (r: Result<seq<Cell>>)
    ensures r.Ok? ==> |r.value| == |row|
  {
    if row == [] then Ok([])
    else
      match RenderRow(row[..|row| - 1])
      case Err => Err
      case Ok(cells) =>
        match Render(row[|row| - 1])
        case Err => Err
        case Ok(c) => Ok(cells + [c])
  }

  function RenderRows(rows: seq<seq<Option<Value>>>): Result<seq<seq<Cell>>> {
    if rows == [] then Ok([])
    else
      match RenderRows(rows[..|rows| - 1])
      case Err => Err
      case Ok(done) =>
        match RenderRow(rows[|rows| - 1])
        case Err => Err
        case Ok(row) => Ok(done + [row])
  }

  // ----- fields -----

  /** `push_field`: append a value as one field. */
  method PushField(out: ByteBuffer, value: seq<Byte>, delimiter: Byte)
    modifies out
    ensures out.bytes == old(out.bytes) + FieldText(value, delimiter)
  {
    if |value| == 0 {
      out.Extend([QUOTE, QUOTE]);
      return;
    }
    var plain := forall i | 0 <= i < |value| :: !Special(value[i], delimiter);
    if plain {
      out.Extend(value);
      return;
    }
    ghost var before := out.bytes;
    out.Push(QUOTE);
    ghost var text := [QUOTE];
    for i := 0 to |value|
      invariant text == [QUOTE] + DoubleQuotes(value[..i])
      invariant out.bytes == before + text
    {
      DoubleStep(value, i);
      if value[i] == QUOTE {
        out.Push(QUOTE);
      }
      out.Push(value[i]);
      ghost var piece := if value[i] == QUOTE then [QUOTE, QUOTE] else [value[i]];
      assert out.bytes == before + (text + piece);
      Associate([QUOTE], DoubleQuotes(value[..i]), piece);
      text := text + piece;
    }
    assert value[..|value|] == value;
    out.Push(QUOTE);
    Associate([QUOTE], DoubleQuotes(value), [QUOTE]);
    Associate(before, text, [QUOTE]);
  }

  lemma DoubleStep(value: seq<Byte>, i: nat)
    requires i < |value|
    ensures DoubleQuotes(value[..i + 1])
         == DoubleQuotes(value[..i]) + (if value[i] == QUOTE then [QUOTE, QUOTE] else [value[i]])
  {
    assert value[..i + 1] == value[..i] + [value[i]];
    DoubleOne(value[..i], value[i]);
  }

  lemma {:induction false} DoubleOne(value: seq<Byte>, b: Byte)
    ensures DoubleQuotes(value + [b]) == DoubleQuotes(value) + (if b == QUOTE then [QUOTE, QUOTE] else [b])
  {
    if value == [] {
      assert value + [b] == [b] && [b][1..] == [];
    } else {
      assert (value + [b])[1..] == value[1..] + [b];
      DoubleOne(value[1..], b);
    }
  }

  /** `push_header`: the column names as fields. */
  method PushHeader(out: ByteBuffer, names: seq<seq<Byte>>, delimiter: Byte)
    modifies out
    ensures out.bytes == old(out.bytes) + RowText(HeaderRow(names), delimiter)
  {
    ghost var row := HeaderRow(names);
    ghost var before := out.bytes;
    for i := 0 to |names|
      invariant out.bytes == before + Joined(row[..i], delimiter)
    {
      if i > 0 {
        out.Push(delimiter);
      }
      PushField(out, names[i], delimiter);
      JoinOne(before, row, i, delimiter);
    }
    assert row[..|names|] == row;
    out.Push(LF);
    Associate(before, Joined(row, delimiter), [LF]);
  }

  /** The next field of a row, appended after whatever came before it. */
  lemma JoinOne(before: seq<Byte>, row: seq<Cell>, i: nat, delimiter: Byte)
    requires i < |row|
    ensures var text := before + Joined(row[..i], delimiter);
            (if i > 0 then text + [delimiter] else text) + CellText(row[i], delimiter)
            == before + Joined(row[..i + 1], delimiter)
  {
    var cell := CellText(row[i], delimiter);
    assert row[..i + 1][..i] == row[..i];
    if i > 0 {
      Associate(before + Joined(row[..i], delimiter), [delimiter], cell);
      Associate(before, Joined(row[..i], delimiter), [delimiter] + cell);
    } else {
      assert Joined(row[..0], delimiter) == [];
      assert before + [] == before;
    }
  }

  /** `Column::push`: append one value's field, nothing for a NULL. */
  method PushValue(out: ByteBuffer, v: Option<Value>, delimiter: Byte) returns (ok: bool)
    modifies out
    ensures ok == Render(v).Ok?
    ensures ok ==> out.bytes == old(out.bytes) + CellText(Render(v).value, delimiter)
    ensures !ok ==> out.bytes == old(out.bytes)
  {
    match v {
      case None => return true;
      case Some(Boolean(value)) =>
        out.Extend(if value then TRUE else FALSE);
        return true;
      case Some(_) =>
        var cell := Render(v);
        if cell.Err? {
          return false;
        }
        PushField(out, cell.value.text, delimiter);
        return true;
    }
  }

  // ----- the part file -----

  class PartWriter {
    const delimiter: Byte
    /** `FLUSH_BYTES`: how much text is gathered before it is handed to the file. */
    const flushBytes: nat
    const buf: ByteBuffer
    var rows: nat
    /** The bytes handed to the file so far, before compression. */
    var file: seq<Byte>

    /** Between two calls nothing is left in the buffer. */
    ghost predicate Valid()
      reads this, buf
    {
      buf.bytes == []
    }

    /** `create`: with the header row when asked for one. */
    constructor (delimiter: Byte, flushBytes: nat, header: bool, names: seq<seq<Byte>>)
      ensures Valid() && fresh(buf) && rows == 0
      ensures this.delimiter == delimiter && this.flushBytes == flushBytes
      ensures file == if header then RowText(HeaderRow(names), delimiter) else []
    {
      this.delimiter, this.flushBytes := delimiter, flushBytes;
      rows, file := 0, [];
      buf := new ByteBuffer();
      new;
      if header {
        PushHeader(buf, names, delimiter);
        FlushBuf();
      }
    }

    method FlushBuf()
      modifies this`file, buf
      ensures buf.bytes == [] && file == old(file) + old(buf.bytes)
    {
      if |buf.bytes| == 0 {
        return;
      }
      file := file + buf.bytes;
      buf.Clear();
    }

    /** The first cells of a row are in the buffer, after `before`. */
    ghost predicate Pushing(before: seq<Byte>, row: seq<Option<Value>>, i: nat, cells: seq<Cell>)
      requires i <= |row|
      reads this, buf
    {
      RenderRow(row[..i]) == Ok(cells) && buf.bytes == before + Joined(cells, delimiter)
    }

    method PushCell(row: seq<Option<Value>>, i: nat, ghost before: seq<Byte>, ghost cells: seq<Cell>)
        returns (ok: bool, ghost more: seq<Cell>)
      requires i < |row| && Pushing(before, row, i, cells)
      modifies buf
      ensures if ok then Pushing(before, row, i + 1, more) else RenderRow(row) == Err
    {
      RenderOne(row, i, cells);
      if i > 0 {
        buf.Push(delimiter);
      }
      more := cells;
      ok := PushValue(buf, row[i], delimiter);
      if ok {
        more := cells + [Render(row[i]).value];
        JoinOne(before, more, i, delimiter);
        assert more[..i] == cells && more[..i + 1] == more;
      } else {
        RowFails(row, i + 1);
      }
    }

    /** Append one row's text to the buffer. */
    method PushRow(row: seq<Option<Value>>) returns (ok: bool)
      modifies buf
      ensures ok == RenderRow(row).Ok?
      ensures ok ==> buf.bytes == old(buf.bytes) + RowText(RenderRow(row).value, delimiter)
    {
      ghost var before := buf.bytes;
      ghost var cells: seq<Cell> := [];
      assert before + [] == before;
      for i := 0 to |row|
        invariant Pushing(before, row, i, cells)
      {
        ok, cells := PushCell(row, i, before, cells);
        if !ok {
          return;
        }
      }
      assert row[..|row|] == row;
      buf.Push(LF);
      Associate(before, Joined(cells, delimiter), [LF]);
      ok := true;
    }

    /** `write`: append a batch's rows, and return the bytes of text they came to. */
    method Write(batch: seq<seq<Option<Value>>>) returns (r: Result<nat>)
      requires Valid()
      modifies this, buf
      ensures r.Ok? == RenderRows(batch).Ok?
      ensures r.Ok? ==>
                var text := RowsText(RenderRows(batch).value, delimiter);
                Valid() && file == old(file) + text && r.value == |text| && rows == old(rows) + |batch|
    {
      var written: nat := 0;
      ghost var before := file;
      ghost var done: seq<seq<Cell>> := [];
      assert before + [] == before;
      for i := 0 to |batch|
        invariant rows == old(rows)
        invariant Writing(before, batch, i, done, written)
      {
        ghost var held := buf.bytes;
        var ok := PushRow(batch[i]);
        RenderOneRow(batch, i, done);
        if !ok {
          BatchFails(batch, i + 1);
          return Err;
        }
        RowsOne(before, file, held, done, RenderRow(batch[i]).value, delimiter);
        done := done + [RenderRow(batch[i]).value];
        if |buf.bytes| >= flushBytes {
          written := written + |buf.bytes|;
          FlushBuf();
          assert file + [] == file;
        }
      }
      assert batch[..|batch|] == batch;
      written := written + |buf.bytes|;
      FlushBuf();
      assert file + [] == file;
      rows := rows + |batch|;
      return Ok(written);
    }

    /** The first rows of a batch are in the file and the buffer, and counted. */
    ghost predicate Writing(before: seq<Byte>, batch: seq<seq<Option<Value>>>, i: nat, done: seq<seq<Cell>>,
                            written: nat)
      requires i <= |batch|
      reads this, buf
    {
      && RenderRows(batch[..i]) == Ok(done)
      && file + buf.bytes == before + RowsText(done, delimiter)
      && written + |buf.bytes| == |RowsText(done, delimiter)|
    }
  }

  lemma RenderOne(row: seq<Option<Value>>, i: nat, cells: seq<Cell>)
    requires i < |row| && RenderRow(row[..i]) == Ok(cells)
    ensures RenderRow(row[..i + 1]) == if Render(row[i]).Ok? then Ok(cells + [Render(row[i]).value]) else Err
  {
    assert row[..i + 1][..i] == row[..i];
  }

  lemma {:induction false} RowFails(row: seq<Option<Value>>, i: nat)
    requires i <= |row| && RenderRow(row[..i]) == Err
    ensures RenderRow(row) == Err
  {
    if i == |row| {
      assert row[..i] == row;
    } else {
      assert row[..|row| - 1][..i] == row[..i];
      RowFails(row[..|row| - 1], i);
    }
  }

  /** The next row's text, appended to the buffer, is the rest of the text of one row more. */
  lemma RowsOne(before: seq<Byte>, file: seq<Byte>, held: seq<Byte>, done: seq<seq<Cell>>, row: seq<Cell>,
                delimiter: Byte)
    requires file + held == before + RowsText(done, delimiter)
    ensures file + (held + RowText(row, delimiter)) == before + RowsText(done + [row], delimiter)
    ensures |RowsText(done + [row], delimiter)| == |RowsText(done, delimiter)| + |RowText(row, delimiter)|
  {
    assert (done + [row])[..|done|] == done;
    Associate(file, held, RowText(row, delimiter));
    Associate(before, RowsText(done, delimiter), RowText(row, delimiter));
  }

  lemma RenderOneRow(rows: seq<seq<Option<Value>>>, i: nat, done: seq<seq<Cell>>)
    requires i < |rows| && RenderRows(rows[..i]) == Ok(done)
    ensures RenderRows(rows[..i + 1]) == if RenderRow(rows[i]).Ok? then Ok(done + [RenderRow(rows[i]).value]) else Err
  {
    assert rows[..i + 1][..i] == rows[..i];
  }

  lemma {:induction false} BatchFails(rows: seq<seq<Option<Value>>>, i: nat)
    requires i <= |rows| && RenderRows(rows[..i]) == Err
    ensures RenderRows(rows) == Err
  {
    if i == |rows| {
      assert rows[..i] == rows;
    } else {
      assert rows[..|rows| - 1][..i] == rows[..i];
      BatchFails(rows[..|rows| - 1], i);
    }
  }

  /** A whole part reads back: the header and then every batch's rows, wherever the batches and the
      flushes cut, for a delimiter that is a letter of no boolean written. */
  lemma {:induction false} PartReadsBack(names: seq<seq<Byte>>, batches: seq<seq<seq<Cell>>>, delimiter: Byte)
    requires LegalDelimiter(delimiter) && names != []
    requires forall r | 0 <= r < |Flatten(batches)| :: Flatten(batches)[r] != []
    requires IntactRows(Flatten(batches), delimiter)
    ensures ReadFile(RowText(HeaderRow(names), delimiter) + TextOf(batches, delimiter), delimiter)
         == Some([HeldRow(HeaderRow(names))] + HeldRows(Flatten(batches)))
  {
    var header := HeaderRow(names);
    var rows := [header] + Flatten(batches);
    OneRow(header, delimiter);
    TextOfFlatten(batches, delimiter);
    RowsTextConcat([header], Flatten(batches), delimiter);
    HeaderIntact(header, delimiter);
    assert rows[1..] == Flatten(batches);
    ReadsBackIffBooleansIntact(rows, delimiter);
  }

  lemma {:induction false} HeaderIntact(row: seq<Cell>, delimiter: Byte)
    requires forall i | 0 <= i < |row| :: row[i].Text?
    ensures IntactRow(row, delimiter)
  {
    if row != [] {
      HeaderIntact(row[1..], delimiter);
    }
  }

  /** The text of a run of `write` calls. */
  function TextOf(batches: seq<seq<seq<Cell>>>, delimiter: Byte): seq<Byte> {
    if batches == [] then [] else RowsText(batches[0], delimiter) + TextOf(batches[1..], delimiter)
  }

  /** The text of a part depends on its rows, not on how they were batched. */
  lemma {:induction false} TextOfFlatten(batches: seq<seq<seq<Cell>>>, delimiter: Byte)
    ensures TextOf(batches, delimiter) == RowsText(Flatten(batches), delimiter)
  {
    if batches != [] {
      TextOfFlatten(batches[1..], delimiter);
      RowsTextConcat(batches[0], Flatten(batches[1..]), delimiter);
    }
  }
}
