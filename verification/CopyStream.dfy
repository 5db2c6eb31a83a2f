/** PostgreSQL's "COPY: Binary Format" as a pure stream: parsing, batching, and the layout it inverts
    (crates/quickhouse-core/src/decode.rs). */
module CopyStream {
  import opened Options
  import opened Collections
  import opened Bytes

  // ----- tuples -----

  /** One tuple's raw fields, NULL as `None`. */
  type Fields = seq<Option<seq<Byte>>>

  datatype Parsed = NeedMore | End | Bad | Tuple(size: nat, fields: Fields)

  function I16At(s: seq<Byte>): int
    requires |s| >= 2
  {
    ReadI16(s[0], s[1])
  }

  function I32At(s: seq<Byte>): int
    requires |s| >= 4
  {
    ReadI32(s[0], s[1], s[2], s[3])
  }

  datatype Head = HeadNeedMore | HeadBad | Head(taken: nat, field: Option<seq<Byte>>)

  /** The length-prefixed field at the front of `s`. A length below -1 is refused. */
  function ParseField(s: seq<Byte>): (h: Head)
    ensures h.Head? ==> 4 <= h.taken <= |s|
  {
    if |s| < 4 then HeadNeedMore
    else
      var len := I32At(s);
      if len < -1 then HeadBad
      else if len == -1 then Head(4, None)
      else if |s| < 4 + len then HeadNeedMore
      else Head(4 + len, Some(s[4..4 + len]))
  }

  /** The parse that follows `size` bytes already read as `fields`. */
  function After(size: nat, fields: Fields, rest: Parsed): Parsed {
    if rest.Tuple? then Tuple(size + rest.size, fields + rest.fields) else rest
  }

  /** `n` fields from the front of `s`. */
  function ParseFields(n: nat, s: seq<Byte>): (p: Parsed)
    ensures p.Tuple? ==> p.size <= |s| && |p.fields| == n
    ensures !p.End?
    decreases n, 0
  {
    if n == 0 then Tuple(0, []) else FieldsAfter(n, s, ParseField(s))
  }

  /** The same, once the first of them is parsed. */
  function FieldsAfter(n: nat, s: seq<Byte>, h: Head): (p: Parsed)
    requires n > 0 && (h.Head? ==> h.taken <= |s|)
    ensures p.Tuple? ==> p.size <= |s| && |p.fields| == n
    ensures !p.End?
    decreases n - 1, 1
  {
    match h
    case HeadNeedMore => NeedMore
    case HeadBad => Bad
    case Head(taken, field) => After(taken, [field], ParseFields(n - 1, s[taken..]))
  }

  /** The tuple, or the trailer, at the front of `s`. */
  function ParseTuple(width: nat, s: seq<Byte>): (p: Parsed)
    ensures p.Tuple? ==> 2 <= p.size <= |s| && |p.fields| == width
  {
    if |s| < 2 then NeedMore
    else if I16At(s) == -1 then End
    else if I16At(s) != width then Bad
    else
      var p := ParseFields(width, s[2..]);
      if p.Tuple? then Tuple(2 + p.size, p.fields) else p
  }

  const SIGNATURE: seq<Byte> := [0x50, 0x47, 0x43, 0x4F, 0x50, 0x59, 0x0A, 0xFF, 0x0D, 0x0A, 0x00]

  datatype Header = HeaderNeedMore | HeaderBad | HeaderSize(size: nat)

  /** The header's size. A negative extension length is refused. */
  function ParseHeader(s: seq<Byte>): (h: Header)
    ensures h.HeaderSize? ==> h.size <= |s|
  {
    if |s| < 19 then HeaderNeedMore
    else if s[0..11] != SIGNATURE then HeaderBad
    else
      var extLen := I32At(s[15..19]);
      if extLen < 0 then HeaderBad
      else if |s| < 19 + extLen then HeaderNeedMore
      else HeaderSize(19 + extLen)
  }

  // ----- cells, rows and batches -----

  datatype Coercion = NotCoerced | DateRange | DecimalOverflow

  /** What a column's `append_value` made of one field. */
  datatype Appended<+V> = Appended(cell: Option<V>, coercion: Coercion)

  type Tally = multiset<(nat, Coercion)>

  /** A decoded row, with the bytes its tuple took. */
  datatype Row<+V> = Row(cells: seq<Option<V>>, size: nat)

  /** How a decoder was set up: its columns, how each turns a field's bytes into a value, and the batch
      limits (`batchBytes == 0` is no byte limit). */
  datatype Config<!V> = Config(nullable: seq<bool>, batchRows: nat, batchBytes: nat,
                               append: (nat, seq<Byte>) -> Result<Appended<V>>)
  {
    function Width(): nat { |nullable| }
  }

  /** The decoder between two calls. */
  datatype State<+V> = State(buf: seq<Byte>, headerDone: bool, finished: bool, pending: seq<Row<V>>,
                             rowsTotal: nat, tally: Tally)

  /** A NULL field is a NULL cell; any other is what its column makes of it. */
  function DecodeField<V>(cfg: Config<V>, i: nat, field: Option<seq<Byte>>): Result<Appended<V>> {
    match field
    case None => Ok(Appended(None, NotCoerced))
    case Some(bytes) => cfg.append(i, bytes)
  }

  /** Every column, in order; one that fails fails the row. */
  function DecodeFields<V>(cfg: Config<V>, fields: Fields): (r: Result<seq<Appended<V>>>)
    ensures r.Ok? ==> |r.value| == |fields|
  {
    if fields == [] then Ok([])
    else
      var last := |fields| - 1;
      match DecodeFields(cfg, fields[..last])
      case Err => Err
      case Ok(done) =>
        match DecodeField(cfg, last, fields[last])
        case Err => Err
        case Ok(a) => Ok(done + [a])
  }

  /** A row fails with its first column that fails. */
  lemma {:induction false} PrefixFails<V>(cfg: Config<V>, fields: Fields, i: nat)
    requires i <= |fields| && DecodeFields(cfg, fields[..i]) == Err
    ensures DecodeFields(cfg, fields) == Err
  {
    if i == |fields| {
      assert fields[..i] == fields;
    } else {
      assert fields[..|fields| - 1][..i] == fields[..i];
      PrefixFails(cfg, fields[..|fields| - 1], i);
    }
  }

  function CellsOf<V>(appended: seq<Appended<V>>): (cells: seq<Option<V>>)
    ensures |cells| == |appended|
  {
    seq(|appended|, j requires 0 <= j < |appended| => appended[j].cell)
  }

  function CoercedAt(i: nat, coercion: Coercion): Tally {
    if coercion == NotCoerced then multiset{} else multiset{(i, coercion)}
  }

  /** The coercions of one row, by column. */
  function Coerced<V>(appended: seq<Appended<V>>): Tally {
    if appended == [] then multiset{}
    else Coerced(appended[..|appended| - 1]) + CoercedAt(|appended| - 1, appended[|appended| - 1].coercion)
  }

  function TotalSize<V>(rows: seq<Row<V>>): nat {
    if rows == [] then 0 else TotalSize(rows[..|rows| - 1]) + rows[|rows| - 1].size
  }

  /** Whether `rows` fill a batch. */
  predicate Full<V>(cfg: Config<V>, rows: seq<Row<V>>) {
    |rows| >= cfg.batchRows || (cfg.batchBytes > 0 && TotalSize(rows) >= cfg.batchBytes)
  }

  /** Arrow's `RecordBatch::try_new`: at least one column, and no NULL where the schema has none. */
  predicate Acceptable<V>(cfg: Config<V>, rows: seq<Row<V>>) {
    cfg.Width() > 0
    && forall r, i | 0 <= r < |rows| && 0 <= i < cfg.Width() && i < |rows[r].cells| ::
         cfg.nullable[i] || rows[r].cells[i].Some?
  }

  // ----- the decoder as a function of the bytes -----

  type Run<V> = Result<(State<V>, seq<seq<Row<V>>>)>

  /** The batches of an earlier part of a run, in front of those of the rest. */
  function Then<V>(out: seq<seq<Row<V>>>, next: Run<V>): Run<V> {
    match next
    case Err => Err
    case Ok((st, more)) => Ok((st, out + more))
  }

  function Absorb<V>(st: State<V>, row: Row<V>, coerced: Tally): State<V> {
    st.(pending := st.pending + [row], rowsTotal := st.rowsTotal + 1, tally := st.tally + coerced)
  }

  /** Cut the pending rows off as a batch when they fill one. */
  function CutIfFull<V>(cfg: Config<V>, st: State<V>): Run<V> {
    if !Full(cfg, st.pending) then Ok((st, []))
    else if Acceptable(cfg, st.pending) then Ok((st.(pending := []), [st.pending]))
    else Err
  }

  /** Take in one row, cutting a batch when it fills one. */
  function TakeRow<V>(cfg: Config<V>, st: State<V>, row: Row<V>, coerced: Tally): Run<V> {
    CutIfFull(cfg, Absorb(st, row, coerced))
  }

  /** Take the tuple of `size` bytes off the buffer. */
  function Step<V>(cfg: Config<V>, st: State<V>, size: nat, fields: Fields): (r: Run<V>)
    requires size <= |st.buf|
    ensures r.Ok? ==> r.value.0.buf == st.buf[size..]
  {
    match DecodeFields(cfg, fields)
    case Err => Err
    case Ok(appended) =>
      TakeRow(cfg, st.(buf := st.buf[size..]), Row(CellsOf(appended), size), Coerced(appended))
  }

  /** Decode every complete tuple of `st.buf`. */
  function Drain<V>(cfg: Config<V>, st: State<V>): Run<V>
    decreases |st.buf|
  {
    match ParseTuple(cfg.Width(), st.buf)
    case NeedMore => Ok((st, []))
    case End => Ok((st.(finished := true), []))
    case Bad => Err
    case Tuple(size, fields) =>
      match Step(cfg, st, size, fields)
      case Err => Err
      case Ok((st1, out)) => Then(out, Drain(cfg, st1))
  }

  lemma DrainStops<V>(cfg: Config<V>, st: State<V>)
    ensures ParseTuple(cfg.Width(), st.buf) == NeedMore ==> Drain(cfg, st) == Ok((st, []))
    ensures ParseTuple(cfg.Width(), st.buf) == End ==> Drain(cfg, st) == Ok((st.(finished := true), []))
    ensures ParseTuple(cfg.Width(), st.buf) == Bad ==> Drain(cfg, st) == Err
  {
  }

  lemma DrainStep<V>(cfg: Config<V>, st: State<V>, size: nat, fields: Fields)
    requires ParseTuple(cfg.Width(), st.buf) == Tuple(size, fields)
    ensures 0 < size <= |st.buf|
    ensures Drain(cfg, st) == match Step(cfg, st, size, fields)
                              case Err => Err
                              case Ok(next) => Then(next.1, Drain(cfg, next.0))
  {
  }

  /** Feed one chunk. */
  function Feed<V>(cfg: Config<V>, st: State<V>, chunk: seq<Byte>): Run<V> {
    var st' := st.(buf := st.buf + chunk);
    if st.headerDone then Drain(cfg, st')
    else
      match ParseHeader(st'.buf)
      case HeaderNeedMore => Ok((st', []))
      case HeaderBad => Err
      case HeaderSize(n) => Drain(cfg, st'.(buf := st'.buf[n..], headerDone := true))
  }

  /** Feed chunk after chunk, collecting the batches. */
  function FeedAll<V>(cfg: Config<V>, st: State<V>, chunks: seq<seq<Byte>>): Run<V>
    decreases |chunks|
  {
    if chunks == [] then Ok((st, []))
    else
      match Feed(cfg, st, chunks[0])
      case Err => Err
      case Ok((st1, out)) => Then(out, FeedAll(cfg, st1, chunks[1..]))
  }

  function Start<V>(): State<V> { State([], false, false, [], 0, multiset{}) }

  function Concat(chunks: seq<seq<Byte>>): seq<Byte> {
    if chunks == [] then [] else chunks[0] + Concat(chunks[1..])
  }

  // ----- chunking does not matter -----

  /** Bytes further on never change a parse that did not ask for more. */
  lemma FieldStable(s: seq<Byte>, t: seq<Byte>)
    requires ParseField(s) != HeadNeedMore
    ensures ParseField(s + t) == ParseField(s)
  {
    assert I32At(s + t) == I32At(s);
    var h := ParseField(s);
    if h.Head? && h.field.Some? {
      assert (s + t)[4..h.taken] == s[4..h.taken];
    }
  }

  lemma DropOfConcat(s: seq<Byte>, t: seq<Byte>, k: nat)
    requires k <= |s|
    ensures (s + t)[k..] == s[k..] + t
  {
  }

  lemma {:induction false} FieldsStable(n: nat, s: seq<Byte>, t: seq<Byte>)
    requires ParseFields(n, s) != NeedMore
    ensures ParseFields(n, s + t) == ParseFields(n, s)
    decreases n, 1
  {
    if n > 0 {
      FieldStable(s, t);
      FieldsAfterStable(n, s, t, ParseField(s));
    }
  }

  lemma {:induction false} FieldsAfterStable(n: nat, s: seq<Byte>, t: seq<Byte>, h: Head)
    requires n > 0 && (h.Head? ==> h.taken <= |s|) && FieldsAfter(n, s, h) != NeedMore
    ensures FieldsAfter(n, s + t, h) == FieldsAfter(n, s, h)
    decreases n, 0
  {
    if h.Head? {
      DropOfConcat(s, t, h.taken);
      FieldsStable(n - 1, s[h.taken..], t);
    }
  }

  lemma TupleStable(width: nat, s: seq<Byte>, t: seq<Byte>)
    requires ParseTuple(width, s) != NeedMore
    ensures ParseTuple(width, s + t) == ParseTuple(width, s)
  {
    assert I16At(s + t) == I16At(s);
    assert (s + t)[2..] == s[2..] + t;
    if I16At(s) == width {
      FieldsStable(width, s[2..], t);
    }
  }

  function WithMore<V>(st: State<V>, t: seq<Byte>): State<V> {
    st.(buf := st.buf + t)
  }

  lemma ThenNothing<V>(next: Run<V>)
    ensures Then([], next) == next
  {
    if next.Ok? {
      assert [] + next.value.1 == next.value.1;
    }
  }

  lemma ThenTwice<V>(a: seq<seq<Row<V>>>, b: seq<seq<Row<V>>>, next: Run<V>)
    ensures Then(a, Then(b, next)) == Then(a + b, next)
  {
    if next.Ok? {
      assert a + (b + next.value.1) == (a + b) + next.value.1;
    }
  }

  /** Draining, then appending bytes and draining again, is draining once. */
  lemma {:induction false} DrainInTwo<V>(cfg: Config<V>, st: State<V>, t: seq<Byte>)
    ensures Drain(cfg, WithMore(st, t)) ==
            match Drain(cfg, st)
            case Err => Err
            case Ok((st1, out)) => Then(out, Drain(cfg, WithMore(st1, t)))
    decreases |st.buf|
  {
    var p := ParseTuple(cfg.Width(), st.buf);
    if p == NeedMore {
      ThenNothing(Drain(cfg, WithMore(st, t)));
    } else {
      TupleStable(cfg.Width(), st.buf, t);
      if p == End {
        ThenNothing(Drain(cfg, WithMore(st.(finished := true), t)));
      } else if p.Tuple? {
        DrainTupleInTwo(cfg, st, t);
      }
    }
  }

  lemma {:induction false} DrainTupleInTwo<V>(cfg: Config<V>, st: State<V>, t: seq<Byte>)
    requires ParseTuple(cfg.Width(), st.buf).Tuple?
    requires ParseTuple(cfg.Width(), st.buf + t) == ParseTuple(cfg.Width(), st.buf)
    ensures Drain(cfg, WithMore(st, t)) ==
            match Drain(cfg, st)
            case Err => Err
            case Ok((st1, out)) => Then(out, Drain(cfg, WithMore(st1, t)))
    decreases |st.buf|, 0
  {
    var p := ParseTuple(cfg.Width(), st.buf);
    StepWithMore(cfg, st, p.size, p.fields, t);
    match Step(cfg, st, p.size, p.fields) {
      case Err =>
      case Ok((st1, out)) =>
        DrainInTwo(cfg, st1, t);
        match Drain(cfg, st1) {
          case Err =>
          case Ok((st2, more)) => ThenTwice(out, more, Drain(cfg, WithMore(st2, t)));
        }
    }
  }

  lemma StepWithMore<V>(cfg: Config<V>, st: State<V>, size: nat, fields: Fields, t: seq<Byte>)
    requires size <= |st.buf|
    ensures Step(cfg, WithMore(st, t), size, fields) ==
            match Step(cfg, st, size, fields)
            case Err => Err
            case Ok((st1, out)) => Ok((WithMore(st1, t), out))
  {
    DropOfConcat(st.buf, t, size);
  }

  lemma HeaderStable(s: seq<Byte>, t: seq<Byte>)
    requires ParseHeader(s) != HeaderNeedMore
    ensures ParseHeader(s + t) == ParseHeader(s)
  {
    assert (s + t)[0..11] == s[0..11];
    assert (s + t)[15..19] == s[15..19];
  }

  /** Feeding two pieces is feeding them joined, from any state. */
  lemma FeedInTwo<V>(cfg: Config<V>, st: State<V>, a: seq<Byte>, b: seq<Byte>)
    ensures Feed(cfg, st, a + b) ==
            match Feed(cfg, st, a)
            case Err => Err
            case Ok((st1, out)) => Then(out, Feed(cfg, st1, b))
  {
    var s := st.buf + a;
    assert st.buf + (a + b) == s + b;
    if st.headerDone {
      DrainInTwo(cfg, WithMore(st, a), b);
      DrainKeepsHeader(cfg, WithMore(st, a));
    } else {
      match ParseHeader(s) {
        case HeaderNeedMore => ThenNothing(Feed(cfg, WithMore(st, a), b));
        case HeaderBad => HeaderStable(s, b);
        case HeaderSize(n) =>
          HeaderStable(s, b);
          DropOfConcat(s, b, n);
          var st' := st.(buf := s[n..], headerDone := true);
          DrainInTwo(cfg, st', b);
          DrainKeepsHeader(cfg, st');
      }
    }
  }

  lemma StepKeepsHeader<V>(cfg: Config<V>, st: State<V>, size: nat, fields: Fields)
    requires size <= |st.buf|
    ensures Step(cfg, st, size, fields).Ok? ==> Step(cfg, st, size, fields).value.0.headerDone == st.headerDone
  {
  }

  lemma {:induction false} DrainKeepsHeader<V>(cfg: Config<V>, st: State<V>)
    ensures Drain(cfg, st).Ok? ==> Drain(cfg, st).value.0.headerDone == st.headerDone
    decreases |st.buf|
  {
    var p := ParseTuple(cfg.Width(), st.buf);
    if p.Tuple? {
      DrainStep(cfg, st, p.size, p.fields);
      StepKeepsHeader(cfg, st, p.size, p.fields);
      var next := Step(cfg, st, p.size, p.fields);
      if next.Ok? {
        DrainKeepsHeader(cfg, next.value.0);
      }
    } else {
      DrainStops(cfg, st);
    }
  }

  /** Feeding chunk by chunk is feeding the whole stream at once: the same batches, the same state and
      counters after them, and an error in one exactly when there is one in the other. */
  lemma {:induction false} FeedAllIsFeed<V>(cfg: Config<V>, st: State<V>, chunks: seq<seq<Byte>>)
    requires chunks != []
    ensures FeedAll(cfg, st, chunks) == Feed(cfg, st, Concat(chunks))
    decreases |chunks|
  {
    FeedInTwo(cfg, st, chunks[0], Concat(chunks[1..]));
    match Feed(cfg, st, chunks[0]) {
      case Err =>
      case Ok((st1, out)) =>
        if chunks[1..] != [] {
          FeedAllIsFeed(cfg, st1, chunks[1..]);
        } else {
          assert chunks[0] + Concat(chunks[1..]) == chunks[0];
        }
    }
  }

  /** Any two ways of cutting one stream give one result. */
  lemma {:induction false} ChunkingDoesNotMatter<V>(cfg: Config<V>, some: seq<seq<Byte>>, others: seq<seq<Byte>>)
    requires Concat(some) == Concat(others)
    ensures FeedAll(cfg, Start(), some) == FeedAll(cfg, Start(), others)
  {
    assert Feed(cfg, Start(), []) == Ok((Start(), []));
    if some != [] {
      FeedAllIsFeed(cfg, Start(), some);
    }
    if others != [] {
      FeedAllIsFeed(cfg, Start(), others);
    }
  }

  // ----- batch limits -----

  /** No batch is due yet, and none was due earlier. */
  ghost predicate Short<V>(cfg: Config<V>, rows: seq<Row<V>>) {
    forall k | 0 < k <= |rows| :: !Full(cfg, rows[..k])
  }

  /** A batch that reached a limit with its last row and not before. */
  ghost predicate JustFull<V>(cfg: Config<V>, rows: seq<Row<V>>) {
    rows != [] && Full(cfg, rows) && Short(cfg, rows[..|rows| - 1])
  }

  lemma OneMoreShort<V>(cfg: Config<V>, rows: seq<Row<V>>, row: Row<V>)
    requires Short(cfg, rows)
    ensures if Full(cfg, rows + [row]) then JustFull(cfg, rows + [row]) else Short(cfg, rows + [row])
  {
    var all := rows + [row];
    assert all[..|rows|] == rows && all[..|all|] == all;
    forall k | 0 < k <= |rows| ensures all[..k] == rows[..k] {
    }
  }

  lemma TakeRowCuts<V>(cfg: Config<V>, st: State<V>, row: Row<V>, coerced: Tally)
    requires Short(cfg, st.pending)
    ensures match TakeRow(cfg, st, row, coerced)
            case Err => true
            case Ok((st1, out)) => Short(cfg, st1.pending) && forall b | b in out :: JustFull(cfg, b)
  {
    OneMoreShort(cfg, st.pending, row);
  }

  /** Over every stream that decodes, each batch is cut exactly where it first reaches a limit. */
  lemma {:induction false} DrainCuts<V>(cfg: Config<V>, st: State<V>)
    requires Short(cfg, st.pending)
    ensures match Drain(cfg, st)
            case Err => true
            case Ok((st1, out)) => Short(cfg, st1.pending) && forall b | b in out :: JustFull(cfg, b)
    decreases |st.buf|
  {
    var p := ParseTuple(cfg.Width(), st.buf);
    if p.Tuple? {
      match DecodeFields(cfg, p.fields) {
        case Err =>
        case Ok(appended) =>
          TakeRowCuts(cfg, st.(buf := st.buf[p.size..]), Row(CellsOf(appended), p.size), Coerced(appended));
      }
      match Step(cfg, st, p.size, p.fields) {
        case Err =>
        case Ok((st1, out)) => DrainCuts(cfg, st1);
      }
    }
  }

  lemma FeedCuts<V>(cfg: Config<V>, st: State<V>, chunk: seq<Byte>)
    requires Short(cfg, st.pending)
    ensures match Feed(cfg, st, chunk)
            case Err => true
            case Ok((st1, out)) => Short(cfg, st1.pending) && forall b | b in out :: JustFull(cfg, b)
  {
    var st' := WithMore(st, chunk);
    if st.headerDone {
      DrainCuts(cfg, st');
    } else if ParseHeader(st'.buf).HeaderSize? {
      DrainCuts(cfg, st'.(buf := st'.buf[ParseHeader(st'.buf).size..], headerDone := true));
    }
  }

  /** Whatever the chunks, no batch has more than `batchRows` rows (one row when that is 0), and the
      rows left for `finish` are fewer than a batch. */
  lemma {:induction false} BatchesAreBounded<V>(cfg: Config<V>, chunks: seq<seq<Byte>>)
    ensures match FeedAll(cfg, Start(), chunks)
            case Err => true
            case Ok((st, out)) =>
              && (forall b | b in out :: JustFull(cfg, b) && 0 < |b| <= if cfg.batchRows == 0 then 1 else cfg.batchRows)
              && (st.pending == [] || |st.pending| < cfg.batchRows)
  {
    if chunks == [] {
    } else {
      FeedAllIsFeed(cfg, Start(), chunks);
      FeedCuts(cfg, Start(), Concat(chunks));
      match Feed(cfg, Start(), Concat(chunks)) {
        case Err =>
        case Ok((st, out)) =>
          forall b | b in out
            ensures 0 < |b| <= if cfg.batchRows == 0 then 1 else cfg.batchRows
          {
            assert JustFull(cfg, b);
            var init := b[..|b| - 1];
            assert init[..|init|] == init;
          }
          assert st.pending[..|st.pending|] == st.pending;
      }
    }
  }

  // ----- the layout -----

  predicate Sendable(fields: Fields) {
    |fields| < 0x8000 && forall i | 0 <= i < |fields| :: fields[i].Some? ==> |fields[i].value| < 0x8000_0000
  }

  function EncodeField(field: Option<seq<Byte>>): seq<Byte>
    requires field.Some? ==> |field.value| < 0x8000_0000
  {
    match field
    case None => BeI32(-1)
    case Some(bytes) => BeI32(|bytes|) + bytes
  }

  function EncodeFields(fields: Fields): seq<Byte>
    requires forall i | 0 <= i < |fields| :: fields[i].Some? ==> |fields[i].value| < 0x8000_0000
  {
    if fields == [] then [] else EncodeField(fields[0]) + EncodeFields(fields[1..])
  }

  function EncodeTuple(fields: Fields): seq<Byte>
    requires Sendable(fields)
  {
    BeI16(|fields|) + EncodeFields(fields)
  }

  function EncodeHeader(flags: int, ext: seq<Byte>): seq<Byte>
    requires -0x8000_0000 <= flags < 0x8000_0000 && |ext| < 0x8000_0000
  {
    SIGNATURE + BeI32(flags) + BeI32(|ext|) + ext
  }

  function EncodeTuples(rows: seq<Fields>): seq<Byte>
    requires forall i | 0 <= i < |rows| :: Sendable(rows[i])
  {
    if rows == [] then [] else EncodeTuple(rows[0]) + EncodeTuples(rows[1..])
  }

  function Trailer(): seq<Byte> { BeI16(-1) }

  lemma FieldDecodes(field: Option<seq<Byte>>, t: seq<Byte>)
    requires field.Some? ==> |field.value| < 0x8000_0000
    ensures ParseField(EncodeField(field) + t) == Head(|EncodeField(field)|, field)
    ensures (EncodeField(field) + t)[|EncodeField(field)|..] == t
  {
    var s := EncodeField(field) + t;
    match field {
      case None => assert s[..4] == BeI32(-1);
      case Some(bytes) =>
        assert s[..4] == BeI32(|bytes|);
        assert s[4..4 + |bytes|] == bytes;
    }
  }

  lemma HeadAndTail(fields: Fields)
    requires fields != []
    ensures [fields[0]] + fields[1..] == fields
  {
  }

  lemma FirstField(n: nat, rest: nat, s: seq<Byte>, taken: nat, field: Option<seq<Byte>>, tail: seq<Byte>)
    requires n == rest + 1 && ParseField(s) == Head(taken, field) && tail == s[taken..]
    ensures ParseFields(n, s) == After(taken, [field], ParseFields(rest, tail))
  {
  }

  lemma {:induction false} FieldsDecode(fields: Fields, t: seq<Byte>)
    requires forall i | 0 <= i < |fields| :: fields[i].Some? ==> |fields[i].value| < 0x8000_0000
    ensures ParseFields(|fields|, EncodeFields(fields) + t) == Tuple(|EncodeFields(fields)|, fields)
  {
    if fields != [] {
      var head, tail := EncodeField(fields[0]), EncodeFields(fields[1..]);
      Associate(head, tail, t);
      FieldDecodes(fields[0], tail + t);
      FirstField(|fields|, |fields[1..]|, head + (tail + t), |head|, fields[0], tail + t);
      FieldsDecode(fields[1..], t);
      HeadAndTail(fields);
    }
  }

  lemma TupleDecodes(fields: Fields, t: seq<Byte>)
    requires Sendable(fields)
    ensures ParseTuple(|fields|, EncodeTuple(fields) + t) == Tuple(|EncodeTuple(fields)|, fields)
    ensures (EncodeTuple(fields) + t)[|EncodeTuple(fields)|..] == t
  {
    CountThenFields(BeI16(|fields|), EncodeFields(fields), t);
    FieldsDecode(fields, t);
  }

  lemma CountThenFields(count: seq<Byte>, body: seq<Byte>, t: seq<Byte>)
    requires |count| == 2
    ensures ((count + body) + t)[2..] == body + t && ((count + body) + t)[|count + body|..] == t
    ensures ((count + body) + t)[0] == count[0] && ((count + body) + t)[1] == count[1]
  {
  }

  lemma HeaderDecodes(flags: int, ext: seq<Byte>, t: seq<Byte>)
    requires -0x8000_0000 <= flags < 0x8000_0000 && |ext| < 0x8000_0000
    ensures ParseHeader(EncodeHeader(flags, ext) + t) == HeaderSize(|EncodeHeader(flags, ext)|)
    ensures (EncodeHeader(flags, ext) + t)[|EncodeHeader(flags, ext)|..] == t
  {
    var s := EncodeHeader(flags, ext) + t;
    assert s[0..11] == SIGNATURE;
    assert s[15..19] == BeI32(|ext|);
  }

  lemma TrailerEnds(width: nat, t: seq<Byte>)
    ensures ParseTuple(width, Trailer() + t) == End
  {
    assert (Trailer() + t)[..2] == Trailer();
  }

  /** Rows every column can decode, with no NULL where the schema has none. */
  ghost predicate Decodable<V>(cfg: Config<V>, fields: Fields) {
    && Sendable(fields) && |fields| == cfg.Width()
    && DecodeFields(cfg, fields).Ok?
    && forall i | 0 <= i < cfg.Width() :: cfg.nullable[i] || DecodeFields(cfg, fields).value[i].cell.Some?
  }

  ghost predicate AllDecodable<V>(cfg: Config<V>, tuples: seq<Fields>) {
    forall i | 0 <= i < |tuples| :: Sendable(tuples[i]) && Decodable(cfg, tuples[i])
  }

  /** The row a decodable tuple stands for. */
  ghost function RowOf<V>(cfg: Config<V>, fields: Fields): Row<V>
    requires Decodable(cfg, fields)
  {
    Row(CellsOf(DecodeFields(cfg, fields).value), |EncodeTuple(fields)|)
  }

  ghost function RowsOf<V>(cfg: Config<V>, tuples: seq<Fields>): (rows: seq<Row<V>>)
    requires AllDecodable(cfg, tuples)
    ensures |rows| == |tuples|
    ensures forall i | 0 <= i < |tuples| :: rows[i] == RowOf(cfg, tuples[i])
  {
    if tuples == [] then [] else [RowOf(cfg, tuples[0])] + RowsOf(cfg, tuples[1..])
  }

  ghost function TallyOf<V>(cfg: Config<V>, tuples: seq<Fields>): Tally
    requires AllDecodable(cfg, tuples)
  {
    if tuples == [] then multiset{}
    else Coerced(DecodeFields(cfg, tuples[0]).value) + TallyOf(cfg, tuples[1..])
  }

  /** A batch in the making that Arrow will accept. */
  ghost predicate Clean<V>(cfg: Config<V>, rows: seq<Row<V>>) {
    forall r | r in rows ::
      |r.cells| == cfg.Width() && forall i | 0 <= i < cfg.Width() :: cfg.nullable[i] || r.cells[i].Some?
  }

  /** The run took exactly `rows` in, in order: batches cut plus rows pending. */
  ghost predicate Took<V>(cfg: Config<V>, st: State<V>, run: Run<V>, rows: seq<Row<V>>, tally: Tally) {
    && run.Ok?
    && var (st1, out) := run.value;
       && Flatten(out) + st1.pending == st.pending + rows
       && st1.rowsTotal == st.rowsTotal + |rows|
       && st1.tally == st.tally + tally
       && Clean(cfg, st1.pending)
  }

  lemma TookBoth<V>(cfg: Config<V>, st: State<V>, st1: State<V>, out: seq<seq<Row<V>>>, row: Row<V>, tally: Tally,
                    next: Run<V>, rows: seq<Row<V>>, more: Tally)
    requires Took(cfg, st, Ok((st1, out)), [row], tally)
    requires Took(cfg, st1, next, rows, more)
    ensures Took(cfg, st, Then(out, next), [row] + rows, tally + more)
  {
    var (st2, out2) := next.value;
    FlattenConcat(out, out2);
    calc {
      Flatten(out + out2) + st2.pending;
      Flatten(out) + (Flatten(out2) + st2.pending);
      Flatten(out) + (st1.pending + rows);
      (Flatten(out) + st1.pending) + rows;
      (st.pending + [row]) + rows;
      st.pending + ([row] + rows);
    }
  }

  /** Draining the encoded tuples decodes each of them, once and in order, and stops at the trailer. */
  lemma {:induction false} TuplesDrain<V>(cfg: Config<V>, st: State<V>, tuples: seq<Fields>, after: seq<Byte>)
    requires cfg.Width() > 0
    requires AllDecodable(cfg, tuples)
    requires st.buf == EncodeTuples(tuples) + (Trailer() + after)
    requires Clean(cfg, st.pending)
    ensures Took(cfg, st, Drain(cfg, st), RowsOf(cfg, tuples), TallyOf(cfg, tuples))
    ensures Drain(cfg, st).value.0.finished
    decreases |tuples|
  {
    if tuples == [] {
      TrailerEnds(cfg.Width(), after);
      assert st.buf == Trailer() + after;
    } else {
      var end := Trailer() + after;
      var rest := EncodeTuples(tuples[1..]) + end;
      Associate(EncodeTuple(tuples[0]), EncodeTuples(tuples[1..]), end);
      StepTakes(cfg, st, tuples[0], rest);
      var (st1, out) := Step(cfg, st, |EncodeTuple(tuples[0])|, tuples[0]).value;
      TuplesDrain(cfg, st1, tuples[1..], after);
      TookBoth(cfg, st, st1, out, RowOf(cfg, tuples[0]), Coerced(DecodeFields(cfg, tuples[0]).value),
               Drain(cfg, st1), RowsOf(cfg, tuples[1..]), TallyOf(cfg, tuples[1..]));
    }
  }

  lemma StepTakes<V>(cfg: Config<V>, st: State<V>, fields: Fields, rest: seq<Byte>)
    requires cfg.Width() > 0 && Decodable(cfg, fields) && Clean(cfg, st.pending)
    requires st.buf == EncodeTuple(fields) + rest
    ensures Took(cfg, st, Step(cfg, st, |EncodeTuple(fields)|, fields), [RowOf(cfg, fields)],
                 Coerced(DecodeFields(cfg, fields).value))
    ensures Step(cfg, st, |EncodeTuple(fields)|, fields).value.0.buf == rest
    ensures var (st1, out) := Step(cfg, st, |EncodeTuple(fields)|, fields).value;
            Drain(cfg, st) == Then(out, Drain(cfg, st1))
  {
    TupleDecodes(fields, rest);
    TakeRowTook(cfg, st.(buf := rest), RowOf(cfg, fields), Coerced(DecodeFields(cfg, fields).value));
  }

  lemma TakeRowTook<V>(cfg: Config<V>, st: State<V>, row: Row<V>, coerced: Tally)
    requires cfg.Width() > 0 && Clean(cfg, st.pending) && Clean(cfg, [row])
    ensures Took(cfg, st, TakeRow(cfg, st, row, coerced), [row], coerced)
  {
    var rows := st.pending + [row];
    assert row in [row];
    assert Clean(cfg, rows);
    CleanIsAcceptable(cfg, rows);
    assert Flatten([rows]) == rows + Flatten([]);
    assert Flatten([]) + rows == rows;
  }

  /** `finish`: the last, partial batch. */
  function Finish<V>(cfg: Config<V>, st: State<V>): Result<Option<seq<Row<V>>>> {
    if st.pending == [] then Ok(None)
    else if Acceptable(cfg, st.pending) then Ok(Some(st.pending))
    else Err
  }

  /** The decoder inverts the layout: header, tuples, trailer and anything after it, in any chunks,
      give back exactly the rows sent, in order, with the last of them in `finish`. */
  lemma {:induction false} DecoderInvertsLayout<V>(cfg: Config<V>, flags: int, ext: seq<Byte>, tuples: seq<Fields>,
                                                   after: seq<Byte>, chunks: seq<seq<Byte>>)
    requires cfg.Width() > 0
    requires -0x8000_0000 <= flags < 0x8000_0000 && |ext| < 0x8000_0000
    requires AllDecodable(cfg, tuples)
    requires Concat(chunks) == EncodeHeader(flags, ext) + (EncodeTuples(tuples) + (Trailer() + after))
    ensures FeedAll(cfg, Start(), chunks).Ok?
    ensures var (st, out) := FeedAll(cfg, Start(), chunks).value;
            && st.finished && st.rowsTotal == |tuples| && st.tally == TallyOf(cfg, tuples)
            && Finish(cfg, st).Ok?
            && Flatten(out) + (match Finish(cfg, st).value case None => [] case Some(last) => last)
               == RowsOf(cfg, tuples)
  {
    var body := EncodeTuples(tuples) + (Trailer() + after);
    assert chunks != [];
    FeedAllIsFeed(cfg, Start(), chunks);
    HeaderDecodes(flags, ext, body);
    assert Start<V>().buf + Concat(chunks) == Concat(chunks);
    var st0 := Start<V>().(buf := body, headerDone := true);
    TuplesDrain(cfg, st0, tuples, after);
    var (st, out) := Drain(cfg, st0).value;
    assert st0.pending + RowsOf(cfg, tuples) == RowsOf(cfg, tuples);
    CleanIsAcceptable(cfg, st.pending);
    assert multiset{} + TallyOf(cfg, tuples) == TallyOf(cfg, tuples);
  }

  lemma CleanIsAcceptable<V>(cfg: Config<V>, rows: seq<Row<V>>)
    requires cfg.Width() > 0 && Clean(cfg, rows)
    ensures Acceptable(cfg, rows)
  {
    forall r, i | 0 <= r < |rows| && 0 <= i < cfg.Width() && i < |rows[r].cells|
      ensures cfg.nullable[i] || rows[r].cells[i].Some?
    {
      assert rows[r] in rows;
    }
  }
}
