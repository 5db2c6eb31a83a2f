/** The CSV text of rows, and an RFC 4180 reader it is inverted by
    (crates/quickhouse-core/src/sink/csv_writer.rs). */
module CsvText {
  import opened Options
  import opened Collections
  import opened Bytes

  const QUOTE: Byte := 0x22
  const LF: Byte := 0x0A
  const CR: Byte := 0x0D
  const TRUE: seq<Byte> := [0x74, 0x72, 0x75, 0x65]
  const FALSE: seq<Byte> := [0x66, 0x61, 0x6C, 0x73, 0x65]

  /** One ASCII character other than a quote, CR or LF. */
  predicate LegalDelimiter(delimiter: Byte) {
    delimiter < 128 && delimiter != QUOTE && delimiter != LF && delimiter != CR
  }

  // ----- what the writer writes -----

  /** A byte that makes a field quoted. */
  predicate Special(b: Byte, delimiter: Byte) {
    b == delimiter || b == QUOTE || b == LF || b == CR
  }

  predicate Plain(value: seq<Byte>, delimiter: Byte) {
    forall i | 0 <= i < |value| :: !Special(value[i], delimiter)
  }

  function DoubleQuotes(value: seq<Byte>): seq<Byte> {
    if value == [] then []
    else (if value[0] == QUOTE then [QUOTE, QUOTE] else [value[0]]) + DoubleQuotes(value[1..])
  }

  /** A value as a field: quoted when empty or when it holds a special byte. */
  function FieldText(value: seq<Byte>, delimiter: Byte): seq<Byte> {
    if value == [] then [QUOTE, QUOTE]
    else if Plain(value, delimiter) then value
    else [QUOTE] + (DoubleQuotes(value) + [QUOTE])
  }

  /** A rendered cell: NULL, a boolean, or the text of any other value (a string, base64, a number, a
      date or timestamp). */
  datatype Cell = Null | Flag(value: bool) | Text(text: seq<Byte>)

  function FlagText(value: bool): seq<Byte> { if value then TRUE else FALSE }

  /** A cell's field: nothing for a NULL, and a boolean without quoting. */
  function CellText(c: Cell, delimiter: Byte): seq<Byte> {
    match c
    case Null => []
    case Flag(value) => FlagText(value)
    case Text(text) => FieldText(text, delimiter)
  }

  /** Fields joined by the delimiter. */
  function Joined(row: seq<Cell>, delimiter: Byte): seq<Byte> {
    if row == [] then []
    else if |row| == 1 then CellText(row[0], delimiter)
    else Joined(row[..|row| - 1], delimiter) + ([delimiter] + CellText(row[|row| - 1], delimiter))
  }

  function RowText(row: seq<Cell>, delimiter: Byte): seq<Byte> {
    Joined(row, delimiter) + [LF]
  }

  function RowsText(rows: seq<seq<Cell>>, delimiter: Byte): seq<Byte> {
    if rows == [] then [] else RowsText(rows[..|rows| - 1], delimiter) + RowText(rows[|rows| - 1], delimiter)
  }

  /** The header row: the names as fields. */
  function HeaderRow(names: seq<seq<Byte>>): (row: seq<Cell>)
    ensures |row| == |names|
  {
    seq(|names|, i requires 0 <= i < |names| => Text(names[i]))
  }

  // ----- an RFC 4180 reader -----

  /** Section 2, rules 5 to 7: the rest of a quoted field, and what follows its closing quote. */
  function ReadQuoted(s: seq<Byte>): (r: Option<(seq<Byte>, seq<Byte>)>)
    ensures r.Some? ==> |r.value.1| < |s|
  {
    if s == [] then None
    else if s[0] != QUOTE then
      match ReadQuoted(s[1..])
      case None => None
      case Some((field, rest)) => Some(([s[0]] + field, rest))
    else if |s| > 1 && s[1] == QUOTE then
      match ReadQuoted(s[2..])
      case None => None
      case Some((field, rest)) => Some(([QUOTE] + field, rest))
    else Some(([], s[1..]))
  }

  /** An unquoted field: bytes up to a delimiter or a line end, none of them a quote or CR. */
  function ReadPlain(s: seq<Byte>, delimiter: Byte): (r: Option<(seq<Byte>, seq<Byte>)>)
    ensures r.Some? ==> |r.value.1| <= |s|
  {
    if s == [] || s[0] == QUOTE || s[0] == CR then None
    else if s[0] == delimiter || s[0] == LF then Some(([], s))
    else
      match ReadPlain(s[1..], delimiter)
      case None => None
      case Some((field, rest)) => Some(([s[0]] + field, rest))
  }

  /** A field: an empty unquoted one is NULL, an empty quoted one is the empty value. */
  function ReadField(s: seq<Byte>, delimiter: Byte): (r: Option<(Option<seq<Byte>>, seq<Byte>)>)
    ensures r.Some? ==> |r.value.1| <= |s|
  {
    if s != [] && s[0] == QUOTE then
      match ReadQuoted(s[1..])
      case None => None
      case Some((field, rest)) => Some((Some(field), rest))
    else
      match ReadPlain(s, delimiter)
      case None => None
      case Some((field, rest)) => Some((if field == [] then None else Some(field), rest))
  }

  type Record = seq<Option<seq<Byte>>>

  /** A record: fields separated by the delimiter, ended by LF. */
  function ReadRecord(s: seq<Byte>, delimiter: Byte): (r: Option<(Record, seq<Byte>)>)
    ensures r.Some? ==> |r.value.1| < |s|
    decreases |s|
  {
    match ReadField(s, delimiter)
    case None => None
    case Some((field, rest)) =>
      if rest == [] then None
      else if rest[0] == LF then Some(([field], rest[1..]))
      else if rest[0] == delimiter then
        match ReadRecord(rest[1..], delimiter)
        case None => None
        case Some((fields, after)) => Some(([field] + fields, after))
      else None
  }

  function ReadFile(s: seq<Byte>, delimiter: Byte): Option<seq<Record>>
    decreases |s|
  {
    if s == [] then Some([])
    else
      match ReadRecord(s, delimiter)
      case None => None
      case Some((record, rest)) =>
        match ReadFile(rest, delimiter)
        case None => None
        case Some(records) => Some([record] + records)
  }

  // ----- the reader inverts the writer -----

  /** What a cell holds: NULL, or its text. */
  function Held(c: Cell): Option<seq<Byte>> {
    match c
    case Null => None
    case Flag(value) => Some(FlagText(value))
    case Text(text) => Some(text)
  }

  function HeldRow(row: seq<Cell>): (r: Record)
    ensures |r| == |row|
  {
    if row == [] then [] else [Held(row[0])] + HeldRow(row[1..])
  }

  function HeldRows(rows: seq<seq<Cell>>): seq<Record> {
    if rows == [] then [] else [HeldRow(rows[0])] + HeldRows(rows[1..])
  }

  /** A boolean's text is cut by a delimiter that is one of its letters. */
  predicate Intact(c: Cell, delimiter: Byte) {
    c.Flag? ==> delimiter !in FlagText(c.value)
  }

  predicate IntactRow(row: seq<Cell>, delimiter: Byte) {
    row == [] || (Intact(row[0], delimiter) && IntactRow(row[1..], delimiter))
  }

  predicate IntactRows(rows: seq<seq<Cell>>, delimiter: Byte) {
    rows == [] || (IntactRow(rows[0], delimiter) && IntactRows(rows[1..], delimiter))
  }

  lemma Reassociate(a: seq<Byte>, b: seq<Byte>, c: seq<Byte>, d: seq<Byte>)
    ensures (a + (b + c)) + d == a + (b + (c + d))
  {
  }

  lemma SkipHead(a: seq<Byte>, t: seq<Byte>)
    ensures (a + t)[|a|..] == t
  {
  }

  lemma {:induction false} QuotedReads(value: seq<Byte>, t: seq<Byte>)
    requires t == [] || t[0] != QUOTE
    ensures ReadQuoted(DoubleQuotes(value) + ([QUOTE] + t)) == Some((value, t))
  {
    var close := [QUOTE] + t;
    if value == [] {
      assert DoubleQuotes(value) + close == close;
      SkipHead([QUOTE], t);
    } else {
      var head := if value[0] == QUOTE then [QUOTE, QUOTE] else [value[0]];
      var rest := DoubleQuotes(value[1..]) + close;
      Associate(head, DoubleQuotes(value[1..]), close);
      SkipHead(head, rest);
      QuotedReads(value[1..], t);
      assert [value[0]] + value[1..] == value;
    }
  }

  lemma {:induction false} PlainReads(value: seq<Byte>, delimiter: Byte, t: seq<Byte>)
    requires Plain(value, delimiter)
    requires t != [] && (t[0] == delimiter || t[0] == LF) && LegalDelimiter(delimiter)
    ensures ReadPlain(value + t, delimiter) == Some((value, t))
  {
    if value == [] {
      assert value + t == t;
    } else {
      assert (value + t)[1..] == value[1..] + t;
      assert Plain(value[1..], delimiter);
      PlainReads(value[1..], delimiter, t);
      assert [value[0]] + value[1..] == value;
    }
  }

  lemma FieldReads(value: seq<Byte>, delimiter: Byte, t: seq<Byte>)
    requires LegalDelimiter(delimiter)
    requires t != [] && (t[0] == delimiter || t[0] == LF)
    ensures ReadField(FieldText(value, delimiter) + t, delimiter) == Some((Some(value), t))
  {
    if value != [] && Plain(value, delimiter) {
      assert !Special(value[0], delimiter);
      PlainReads(value, delimiter, t);
    } else {
      var body := DoubleQuotes(value) + ([QUOTE] + t);
      assert FieldText(value, delimiter) == [QUOTE] + (DoubleQuotes(value) + [QUOTE]);
      Reassociate([QUOTE], DoubleQuotes(value), [QUOTE], t);
      assert FieldText(value, delimiter) + t == [QUOTE] + body;
      SkipHead([QUOTE], body);
      QuotedReads(value, t);
    }
  }

  /** Some fields read, then the rest of the record. */
  function Prepend(fields: Record, rest: Option<(Record, seq<Byte>)>): Option<(Record, seq<Byte>)> {
    match rest
    case None => None
    case Some((more, after)) => Some((fields + more, after))
  }

  /** The rest of a record, after a field that `t` follows. */
  function Onward(t: seq<Byte>, delimiter: Byte): Option<(Record, seq<Byte>)>
    requires t != []
  {
    if t[0] == LF then Some(([], t[1..])) else ReadRecord(t[1..], delimiter)
  }

  /** Where a delimiter first is in `text`; its length when there is none. */
  function FirstDelimiter(text: seq<Byte>, delimiter: Byte): (i: nat)
    ensures i <= |text| && delimiter !in text[..i]
    ensures i < |text| ==> text[i] == delimiter
    ensures i == |text| <==> delimiter !in text
  {
    if text == [] || text[0] == delimiter then 0
    else
      var i := 1 + FirstDelimiter(text[1..], delimiter);
      assert text[..i] == [text[0]] + text[1..][..i - 1];
      assert text == [text[0]] + text[1..];
      i
  }

  function Unquoted(part: seq<Byte>): Option<seq<Byte>> {
    if part == [] then None else Some(part)
  }

  /** Unquoted text as a reader sees it: one field for each piece between delimiters. */
  function Pieces(text: seq<Byte>, delimiter: Byte): (r: Record)
    ensures |r| >= 1
    ensures |r| == 1 <==> delimiter !in text
    ensures delimiter !in text ==> r == [Unquoted(text)]
    decreases |text|
  {
    var i := FirstDelimiter(text, delimiter);
    if i == |text| then [Unquoted(text)] else [Unquoted(text[..i])] + Pieces(text[i + 1..], delimiter)
  }

  /** What a reader makes of a cell: what it holds, except that a boolean is written unquoted and so is
      cut at a delimiter that is one of its letters. */
  function ReadBack(c: Cell, delimiter: Byte): (r: Record)
    ensures |r| >= 1
    ensures r == [Held(c)] <==> Intact(c, delimiter)
    ensures |r| == 1 <==> Intact(c, delimiter)
  {
    if c.Flag? then Pieces(FlagText(c.value), delimiter) else [Held(c)]
  }

  function ReadBackRow(row: seq<Cell>, delimiter: Byte): Record {
    if row == [] then [] else ReadBack(row[0], delimiter) + ReadBackRow(row[1..], delimiter)
  }

  /** A field read, reading goes on after it. */
  lemma RecordOnward(s: seq<Byte>, delimiter: Byte, field: Option<seq<Byte>>, t: seq<Byte>)
    requires ReadField(s, delimiter) == Some((field, t))
    requires t != [] && (t[0] == delimiter || t[0] == LF)
    ensures ReadRecord(s, delimiter) == Prepend([field], Onward(t, delimiter))
  {
    assert [field] + [] == [field];
  }

  lemma PrependTwice(a: Record, b: Record, rest: Option<(Record, seq<Byte>)>)
    ensures Prepend(a, Prepend(b, rest)) == Prepend(a + b, rest)
  {
    if rest.Some? {
      assert a + (b + rest.value.0) == (a + b) + rest.value.0;
    }
  }

  /** Unquoted text that is plain but for delimiters. */
  predicate Unspecial(text: seq<Byte>, delimiter: Byte) {
    forall i | 0 <= i < |text| :: text[i] == delimiter || !Special(text[i], delimiter)
  }

  lemma PlainFieldReads(part: seq<Byte>, delimiter: Byte, t: seq<Byte>)
    requires Plain(part, delimiter) && LegalDelimiter(delimiter)
    requires t != [] && (t[0] == delimiter || t[0] == LF)
    ensures ReadField(part + t, delimiter) == Some((Unquoted(part), t))
  {
    PlainReads(part, delimiter, t);
    assert (part + t)[0] == if part == [] then t[0] else part[0];
  }

  lemma {:induction false} PiecesRead(text: seq<Byte>, delimiter: Byte, t: seq<Byte>)
    requires LegalDelimiter(delimiter) && Unspecial(text, delimiter)
    requires t != [] && (t[0] == delimiter || t[0] == LF)
    ensures ReadRecord(text + t, delimiter) == Prepend(Pieces(text, delimiter), Onward(t, delimiter))
    decreases |text|
  {
    var i := FirstDelimiter(text, delimiter);
    var part := text[..i];
    assert Plain(part, delimiter);
    if i == |text| {
      assert part == text;
      PlainFieldReads(part, delimiter, t);
      RecordOnward(text + t, delimiter, Unquoted(part), t);
    } else {
      var rest := text[i + 1..];
      var after := [delimiter] + (rest + t);
      assert text + t == part + after;
      PlainFieldReads(part, delimiter, after);
      RecordOnward(text + t, delimiter, Unquoted(part), after);
      assert after[1..] == rest + t;
      PiecesRead(rest, delimiter, t);
      PrependTwice([Unquoted(part)], Pieces(rest, delimiter), Onward(t, delimiter));
    }
  }

  /** Every cell is read back as `ReadBack` says, and reading goes on after it. */
  lemma CellReads(c: Cell, delimiter: Byte, t: seq<Byte>)
    requires LegalDelimiter(delimiter)
    requires t != [] && (t[0] == delimiter || t[0] == LF)
    ensures ReadRecord(CellText(c, delimiter) + t, delimiter) == Prepend(ReadBack(c, delimiter), Onward(t, delimiter))
  {
    match c {
      case Null =>
        PlainFieldReads([], delimiter, t);
        RecordOnward(CellText(c, delimiter) + t, delimiter, None, t);
      case Flag(value) =>
        PiecesRead(FlagText(value), delimiter, t);
      case Text(text) =>
        FieldReads(text, delimiter, t);
        RecordOnward(CellText(c, delimiter) + t, delimiter, Some(text), t);
    }
  }

  /** `Joined`, from the front. */
  lemma {:induction false} JoinedFromFront(row: seq<Cell>, delimiter: Byte)
    requires |row| >= 2
    ensures Joined(row, delimiter) == CellText(row[0], delimiter) + ([delimiter] + Joined(row[1..], delimiter))
  {
    var last := [delimiter] + CellText(row[|row| - 1], delimiter);
    var init := row[..|row| - 1];
    assert row[1..][..|row| - 2] == init[1..];
    if |row| > 2 {
      JoinedFromFront(init, delimiter);
      Reassociate(CellText(row[0], delimiter), [delimiter], Joined(init[1..], delimiter), last);
    }
  }

  lemma {:induction false} RowReads(row: seq<Cell>, delimiter: Byte, t: seq<Byte>)
    requires LegalDelimiter(delimiter) && row != []
    ensures ReadRecord(Joined(row, delimiter) + ([LF] + t), delimiter) == Some((ReadBackRow(row, delimiter), t))
  {
    var end := [LF] + t;
    assert end[1..] == t;
    if |row| == 1 {
      CellReads(row[0], delimiter, end);
      assert row[1..] == [];
    } else {
      JoinedFromFront(row, delimiter);
      var rest := Joined(row[1..], delimiter) + end;
      RowReads(row[1..], delimiter, t);
      assert ([delimiter] + rest)[1..] == rest;
      CellReads(row[0], delimiter, [delimiter] + rest);
      Reassociate(CellText(row[0], delimiter), [delimiter], Joined(row[1..], delimiter), end);
    }
  }

  /** The text of rows does not depend on how they are batched. */
  lemma {:induction false} RowsTextConcat(a: seq<seq<Cell>>, b: seq<seq<Cell>>, delimiter: Byte)
    ensures RowsText(a + b, delimiter) == RowsText(a, delimiter) + RowsText(b, delimiter)
  {
    if b == [] {
      assert a + b == a;
    } else {
      var init, last := b[..|b| - 1], b[|b| - 1];
      assert (a + b)[..|a + b| - 1] == a + init;
      RowsTextConcat(a, init, delimiter);
      Associate(RowsText(a, delimiter), RowsText(init, delimiter), RowText(last, delimiter));
    }
  }

  lemma RowsTextFirst(rows: seq<seq<Cell>>, delimiter: Byte)
    requires rows != []
    ensures RowsText(rows, delimiter) == Joined(rows[0], delimiter) + ([LF] + RowsText(rows[1..], delimiter))
  {
    OneRow(rows[0], delimiter);
    assert rows == [rows[0]] + rows[1..];
    RowsTextConcat([rows[0]], rows[1..], delimiter);
    Associate(Joined(rows[0], delimiter), [LF], RowsText(rows[1..], delimiter));
  }

  lemma OneRow(row: seq<Cell>, delimiter: Byte)
    ensures RowsText([row], delimiter) == RowText(row, delimiter)
  {
    assert [row][..0] == [];
  }

  function ReadBackRows(rows: seq<seq<Cell>>, delimiter: Byte): seq<Record> {
    if rows == [] then [] else [ReadBackRow(rows[0], delimiter)] + ReadBackRows(rows[1..], delimiter)
  }

  /** What a reader makes of the whole text, for any rows of at least one column and any legal
      delimiter. */
  lemma {:induction false} FileReads(rows: seq<seq<Cell>>, delimiter: Byte)
    requires LegalDelimiter(delimiter)
    requires forall r | 0 <= r < |rows| :: rows[r] != []
    ensures ReadFile(RowsText(rows, delimiter), delimiter) == Some(ReadBackRows(rows, delimiter))
  {
    if rows != [] {
      RowsTextFirst(rows, delimiter);
      RowReads(rows[0], delimiter, RowsText(rows[1..], delimiter));
      FileReads(rows[1..], delimiter);
    }
  }

  lemma {:induction false} RowIntact(row: seq<Cell>, delimiter: Byte)
    ensures |ReadBackRow(row, delimiter)| >= |row|
    ensures IntactRow(row, delimiter) ==> ReadBackRow(row, delimiter) == HeldRow(row)
    ensures !IntactRow(row, delimiter) ==> |ReadBackRow(row, delimiter)| > |row|
  {
    if row != [] {
      RowIntact(row[1..], delimiter);
    }
  }

  lemma {:induction false} RowsIntact(rows: seq<seq<Cell>>, delimiter: Byte)
    ensures |ReadBackRows(rows, delimiter)| == |rows| == |HeldRows(rows)|
    ensures IntactRows(rows, delimiter) <==> ReadBackRows(rows, delimiter) == HeldRows(rows)
  {
    if rows != [] {
      RowIntact(rows[0], delimiter);
      RowsIntact(rows[1..], delimiter);
      HeadAndTail(ReadBackRow(rows[0], delimiter), ReadBackRows(rows[1..], delimiter),
                  HeldRow(rows[0]), HeldRows(rows[1..]));
    }
  }

  lemma HeadAndTail(a: Record, as': seq<Record>, b: Record, bs: seq<Record>)
    ensures [a] + as' == [b] + bs <==> a == b && as' == bs
  {
    if [a] + as' == [b] + bs {
      assert ([a] + as')[0] == a && ([a] + as')[1..] == as';
      assert ([b] + bs)[0] == b && ([b] + bs)[1..] == bs;
    }
  }

  /** The text is uniquely readable: reading it gives back every row, NULL apart from empty, exactly
      when the delimiter is a letter of no boolean written. */
  lemma {:induction false} ReadsBackIffBooleansIntact(rows: seq<seq<Cell>>, delimiter: Byte)
    requires LegalDelimiter(delimiter)
    requires forall r | 0 <= r < |rows| :: rows[r] != []
    ensures ReadFile(RowsText(rows, delimiter), delimiter) == Some(HeldRows(rows)) <==> IntactRows(rows, delimiter)
  {
    FileReads(rows, delimiter);
    RowsIntact(rows, delimiter);
  }

  /** A `true` under the delimiter `t` does not read back. */
  lemma {:induction false} CutBooleanExample()
    ensures LegalDelimiter(0x74)
    ensures ReadFile(RowsText([[Flag(true)]], 0x74), 0x74) != Some(HeldRows([[Flag(true)]]))
  {
    var rows := [[Flag(true)]];
    assert TRUE[0] == 0x74;
    assert !IntactRows(rows, 0x74);
    ReadsBackIffBooleansIntact(rows, 0x74);
  }
}
