/** The streaming decoder itself: one buffer, one builder per column, refined to `CopyStream`
    (crates/quickhouse-core/src/decode.rs). */
module CopyDecoder {
  import opened Options
  import opened Bytes
  import opened CopyStream

  ghost predicate Rectangular<V>(rows: seq<Row<V>>, width: nat) {
    forall r | 0 <= r < |rows| :: |rows[r].cells| == width
  }

  /** `columns` are the cells of `rows`, column by column, as Arrow holds a batch. */
  ghost predicate AreColumns<V>(columns: Batch<V>, rows: seq<Row<V>>, width: nat) {
    && |columns| == width
    && Rectangular(rows, width)
    && (forall i | 0 <= i < width :: |columns[i]| == |rows|)
    && (forall i, r | 0 <= i < width && 0 <= r < |rows| :: columns[i][r] == rows[r].cells[i])
  }

  type Batch<V> = seq<seq<Option<V>>>

  /** The emitted batches are the cut rows, column by column. */
  ghost predicate AreColumnsOf<V>(batches: seq<Batch<V>>, cut: seq<seq<Row<V>>>, width: nat) {
    && |batches| == |cut|
    && forall b | 0 <= b < |cut| :: AreColumns(batches[b], cut[b], width)
  }

  /** Where a field's bytes are in the buffer; `None` for a NULL. */
  type Span = Option<(nat, nat)>

  ghost predicate Spans(buf: seq<Byte>, span: Span, field: Option<seq<Byte>>) {
    match span
    case None => field == None
    case Some((s, e)) => s <= e <= |buf| && field == Some(buf[s..e])
  }

  ghost predicate AllSpan(buf: seq<Byte>, spans: seq<Span>, fields: Fields) {
    |spans| == |fields| && forall i | 0 <= i < |fields| :: Spans(buf, spans[i], fields[i])
  }

  lemma AfterTwo(size: nat, fields: Fields, taken: nat, field: Option<seq<Byte>>, rest: Parsed)
    ensures After(size, fields, After(taken, [field], rest)) == After(size + taken, fields + [field], rest)
  {
    if rest.Tuple? {
      assert fields + ([field] + rest.fields) == (fields + [field]) + rest.fields;
    }
  }

  /** `spans` point at the first fields of the tuple body at `start`, and the next one is at `pos`; `whole` is
      what all the fields parse to. */
  ghost predicate Walking(width: nat, buf: seq<Byte>, whole: Parsed, start: nat, pos: nat, spans: seq<Span>,
                          done: Fields)
  {
    && start <= pos <= |buf| && |spans| <= width && AllSpan(buf, spans, done)
    && whole == After(pos - start, done, ParseFields(width - |spans|, buf[pos..]))
  }

  /** One more of a tuple's fields read. */
  lemma FieldsStep(n: nat, rest: nat, buf: seq<Byte>, pos: nat, next: nat, field: Option<seq<Byte>>)
    requires n == rest + 1 && pos <= next <= |buf| && ParseField(buf[pos..]) == Head(next - pos, field)
    ensures ParseFields(n, buf[pos..]) == After(next - pos, [field], ParseFields(rest, buf[next..]))
  {
    DropTwice(buf, pos, next);
    FirstField(n, rest, buf[pos..], next - pos, field, buf[next..]);
  }

  lemma DropTwice(s: seq<Byte>, i: nat, j: nat)
    requires i <= j <= |s|
    ensures s[i..][j - i..] == s[j..]
  {
  }

  lemma SpansMore(buf: seq<Byte>, spans: seq<Span>, fields: Fields, span: Span, field: Option<seq<Byte>>)
    requires AllSpan(buf, spans, fields) && Spans(buf, span, field)
    ensures AllSpan(buf, spans + [span], fields + [field])
  {
  }

  lemma WalkStarts(whole: Parsed)
    ensures After(0, [], whole) == whole
  {
    if whole.Tuple? {
      assert [] + whole.fields == whole.fields;
    }
  }

  lemma WalkMore(width: nat, buf: seq<Byte>, whole: Parsed, start: nat, pos: nat, spans: seq<Span>, done: Fields,
                 span: Span, next: nat, field: Option<seq<Byte>>)
    requires Walking(width, buf, whole, start, pos, spans, done) && |spans| < width
    requires pos <= next <= |buf| && ParseField(buf[pos..]) == Head(next - pos, field) && Spans(buf, span, field)
    ensures Walking(width, buf, whole, start, next, spans + [span], done + [field])
  {
    var rest := width - |spans + [span]|;
    FieldsStep(width - |spans|, rest, buf, pos, next, field);
    AfterTwo(pos - start, done, next - pos, field, ParseFields(rest, buf[next..]));
    SpansMore(buf, spans, done, span, field);
  }

  /** No more of them can be read. */
  lemma WalkStops(width: nat, buf: seq<Byte>, whole: Parsed, start: nat, pos: nat, spans: seq<Span>, done: Fields)
    requires Walking(width, buf, whole, start, pos, spans, done) && |spans| < width
    ensures ParseField(buf[pos..]) == HeadBad ==> whole == Bad
    ensures ParseField(buf[pos..]) == HeadNeedMore ==> whole == NeedMore
  {
    var n, s := width - |spans|, buf[pos..];
    assert ParseFields(n, s) == FieldsAfter(n, s, ParseField(s));
  }

  /** A tuple's size and fields, from those of what follows its count. */
  function AfterCount(p: Parsed): Parsed {
    if p.Tuple? then Tuple(2 + p.size, p.fields) else p
  }

  /** A tuple in the buffer is its count and then its fields. */
  lemma TupleAt(width: nat, buf: seq<Byte>, start: nat)
    requires start + 2 <= |buf|
    ensures ParseTuple(width, buf[start..])
         == if ReadI16(buf[start], buf[start + 1]) == -1 then End
            else if ReadI16(buf[start], buf[start + 1]) != width then Bad
            else AfterCount(ParseFields(width, buf[start + 2..]))
  {
    assert buf[start..][2..] == buf[start + 2..];
  }

  /** What trying to take one tuple came to. */
  datatype Progress = Consumed(size: nat) | AtEnd | Wanting

  /** The builders with the first `|done|` cells of a row appended. */
  ghost predicate Grown<V>(before: seq<seq<Option<V>>>, now: seq<seq<Option<V>>>, done: seq<Appended<V>>) {
    && |before| == |now| && |done| <= |now|
    && forall j | 0 <= j < |now| :: now[j] == if j < |done| then before[j] + [done[j].cell] else before[j]
  }

  /** A row more is a cell more in every column. */
  lemma ColumnsGrow<V>(rows: seq<Row<V>>, width: nat, before: Batch<V>, now: Batch<V>,
                       done: seq<Appended<V>>, size: nat)
    requires AreColumns(before, rows, width)
    requires Grown(before, now, done) && |done| == width
    ensures AreColumns(now, rows + [Row(CellsOf(done), size)], width)
  {
    var row := Row(CellsOf(done), size);
    forall i, r | 0 <= i < width && 0 <= r <= |rows|
      ensures now[i][r] == (rows + [row])[r].cells[i]
    {
      assert now[i] == before[i] + [done[i].cell];
    }
  }

  lemma FieldsOneMore<V>(cfg: Config<V>, fields: Fields, i: nat, done: seq<Appended<V>>)
    requires i < |fields| && DecodeFields(cfg, fields[..i]) == Ok(done)
    ensures var a := DecodeField(cfg, i, fields[i]);
            DecodeFields(cfg, fields[..i + 1]) == if a.Ok? then Ok(done + [a.value]) else Err
  {
    assert fields[..i + 1][..i] == fields[..i];
  }

  lemma CoercedOneMore<V>(before: Tally, done: seq<Appended<V>>, a: Appended<V>)
    ensures before + Coerced(done) + CoercedAt(|done|, a.coercion) == before + Coerced(done + [a])
  {
    assert (done + [a])[..|done|] == done;
  }

  lemma GrownOne<V>(before: seq<seq<Option<V>>>, now: seq<seq<Option<V>>>, done: seq<Appended<V>>, a: Appended<V>)
    requires Grown(before, now, done) && |done| < |now|
    ensures Grown(before, now[|done| := now[|done|] + [a.cell]], done + [a])
  {
  }

  lemma ColumnsOfConcat<V>(a: seq<Batch<V>>, b: seq<Batch<V>>, cutA: seq<seq<Row<V>>>, cutB: seq<seq<Row<V>>>,
                           width: nat)
    requires AreColumnsOf(a, cutA, width) && AreColumnsOf(b, cutB, width)
    ensures AreColumnsOf(a + b, cutA + cutB, width)
  {
  }

  /** A run that cuts nothing more. */
  lemma ThenDone<V>(cfg: Config<V>, st: State<V>, cut: seq<seq<Row<V>>>)
    ensures Drain(cfg, st) == Ok((st, [])) ==> Then(cut, Drain(cfg, st)) == Ok((st, cut))
    ensures Drain(cfg, st) == Ok((st.(finished := true), [])) ==>
              Then(cut, Drain(cfg, st)) == Ok((st.(finished := true), cut))
  {
    assert cut + [] == cut;
  }

  /** `now` is `st` with a decodable tuple taken in as a row, whatever bytes are still in the buffer. */
  ghost predicate Absorbed<V>(cfg: Config<V>, st: State<V>, size: nat, fields: Fields, now: State<V>) {
    && DecodeFields(cfg, fields).Ok?
    && now.headerDone == st.headerDone && now.finished == st.finished && now.rowsTotal == st.rowsTotal + 1
    && now.pending == st.pending + [Row(CellsOf(DecodeFields(cfg, fields).value), size)]
    && now.tally == st.tally + Coerced(DecodeFields(cfg, fields).value)
  }

  /** A step is absorbing the tuple and cutting. */
  lemma StepIsCut<V>(cfg: Config<V>, st: State<V>, size: nat, fields: Fields, now: State<V>)
    requires size <= |st.buf| && Absorbed(cfg, st, size, fields, now)
    ensures Step(cfg, st, size, fields) ==
            match CutIfFull(cfg, now)
            case Err => Err
            case Ok(next) => Ok((next.0.(buf := st.buf[size..]), next.1))
  {
    var appended := DecodeFields(cfg, fields).value;
    var absorbed := Absorb(st.(buf := st.buf[size..]), Row(CellsOf(appended), size), Coerced(appended));
    assert absorbed == now.(buf := st.buf[size..]);
  }

  predicate HasNoNull<V>(column: seq<Option<V>>) {
    forall r | 0 <= r < |column| :: column[r].Some?
  }

  lemma ColumnsAcceptable<V>(cfg: Config<V>, rows: seq<Row<V>>, columns: Batch<V>)
    requires AreColumns(columns, rows, cfg.Width())
    ensures Acceptable(cfg, rows) <==>
            cfg.Width() > 0 && forall i | 0 <= i < cfg.Width() :: cfg.nullable[i] || HasNoNull(columns[i])
  {
    if cfg.Width() > 0 && forall i | 0 <= i < cfg.Width() :: cfg.nullable[i] || HasNoNull(columns[i]) {
      forall r, i | 0 <= r < |rows| && 0 <= i < cfg.Width() && i < |rows[r].cells|
        ensures cfg.nullable[i] || rows[r].cells[i].Some?
      {
        assert columns[i][r] == rows[r].cells[i];
      }
    }
    if Acceptable(cfg, rows) {
      forall i | 0 <= i < cfg.Width()
        ensures cfg.nullable[i] || HasNoNull(columns[i])
      {
        forall r | 0 <= r < |rows|
          ensures cfg.nullable[i] || columns[i][r].Some?
        {
          assert columns[i][r] == rows[r].cells[i];
        }
      }
    }
  }

  lemma RefusedStops<V>(cfg: Config<V>, st: State<V>)
    requires var p := ParseTuple(cfg.Width(), st.buf); p == Bad || (p.Tuple? && DecodeFields(cfg, p.fields) == Err)
    ensures Drain(cfg, st) == Err
  {
  }

  class CopyDecoder<V> {
    const cfg: Config<V>
    var buf: seq<Byte>
    var headerDone: bool
    var finished: bool
    var builders: seq<seq<Option<V>>>
    var rowsInBatch: nat
    var bytesInBatch: nat
    var rowsTotal: nat
    var coercions: Tally
    /** The rows the builders hold. */
    ghost var pending: seq<Row<V>>

    ghost predicate Valid()
      reads this
    {
      && BuildersHold()
      && rowsInBatch == |pending|
      && bytesInBatch == TotalSize(pending)
    }

    /** `Valid` but for the row and byte counts, between appending a tuple and counting it. */
    ghost predicate BuildersHold()
      reads this
    {
      AreColumns(builders, pending, cfg.Width())
    }

    ghost function Abs(): State<V>
      reads this
    {
      State(buf, headerDone, finished, pending, rowsTotal, coercions)
    }

    constructor (cfg: Config<V>)
      ensures Valid() && this.cfg == cfg && Abs() == Start()
    {
      this.cfg := cfg;
      buf, headerDone, finished := [], false, false;
      builders := seq(cfg.Width(), _ => []);
      rowsInBatch, bytesInBatch, rowsTotal := 0, 0, 0;
      coercions, pending := multiset{}, [];
    }

    /** The first `i` fields are appended: their cells are in the builders, their coercions counted. */
    ghost predicate Appending(before: Batch<V>, tally: Tally, fields: Fields, i: nat, done: seq<Appended<V>>)
      requires i <= |fields|
      reads this
    {
      && i == |done|
      && DecodeFields(cfg, fields[..i]) == Ok(done)
      && Grown(before, builders, done)
      && coercions == tally + Coerced(done)
    }

    /** `append_null` on column `i`, or `append_value` and its coercion count. */
    method AppendField(span: Span, i: nat, ghost before: Batch<V>, ghost tally: Tally, ghost fields: Fields,
                       ghost done: seq<Appended<V>>) returns (ok: bool, ghost more: seq<Appended<V>>)
      requires i < |fields| == |builders| && Spans(buf, span, fields[i])
      requires Appending(before, tally, fields, i, done)
      modifies this`builders, this`coercions
      ensures |builders| == old(|builders|)
      ensures if ok then Appending(before, tally, fields, i + 1, more) else DecodeFields(cfg, fields) == Err
    {
      var r: Result<Appended<V>>;
      match span {
        case None => r := Ok(Appended(None, NotCoerced));
        case Some((s, e)) => r := cfg.append(i, buf[s..e]);
      }
      assert r == DecodeField(cfg, i, fields[i]);
      FieldsOneMore(cfg, fields, i, done);
      if r.Err? {
        PrefixFails(cfg, fields, i + 1);
        return false, done;
      }
      GrownOne(before, builders, done, r.value);
      CoercedOneMore(tally, done, r.value);
      builders := builders[i := builders[i] + [r.value.cell]];
      if r.value.coercion != NotCoerced {
        coercions := coercions + multiset{(i, r.value.coercion)};
      }
      return true, done + [r.value];
    }

    /** Second pass: append every field, now that the tuple is complete. */
    method AppendFields(spans: seq<Span>, ghost fields: Fields) returns (ok: bool, ghost done: seq<Appended<V>>)
      requires |fields| == |builders| && AllSpan(buf, spans, fields)
      modifies this`builders, this`coercions
      ensures if ok then DecodeFields(cfg, fields) == Ok(done) else DecodeFields(cfg, fields) == Err
      ensures ok ==> Grown(old(builders), builders, done) && coercions == old(coercions) + Coerced(done)
    {
      done := [];
      for i := 0 to |spans|
        invariant |builders| == |fields| && Appending(old(builders), old(coercions), fields, i, done)
      {
        ok, done := AppendField(spans[i], i, old(builders), old(coercions), fields, done);
        if !ok {
          return;
        }
      }
      assert fields[..|fields|] == fields;
      ok := true;
    }

    /** Append a complete tuple's cells to the builders. */
    method AppendCells(spans: seq<Span>, ghost fields: Fields, ghost size: nat) returns (ok: bool)
      requires BuildersHold() && |fields| == cfg.Width() && AllSpan(buf, spans, fields)
      modifies this`builders, this`coercions
      ensures ok == DecodeFields(cfg, fields).Ok?
      ensures ok ==> coercions == old(coercions) + Coerced(DecodeFields(cfg, fields).value)
      ensures ok ==> AreColumns(builders, pending + [Row(CellsOf(DecodeFields(cfg, fields).value), size)], cfg.Width())
    {
      ghost var done;
      ok, done := AppendFields(spans, fields);
      if ok {
        ColumnsGrow(pending, cfg.Width(), old(builders), builders, done, size);
      }
    }

    /** Append a complete tuple as one more row. */
    method AppendRow(spans: seq<Span>, ghost fields: Fields, ghost size: nat) returns (ok: bool)
      requires Valid() && |fields| == cfg.Width() && AllSpan(buf, spans, fields)
      modifies this`builders, this`coercions, this`pending
      ensures ok == DecodeFields(cfg, fields).Ok?
      ensures ok ==> Uncounted(old(Abs()), fields, size)
    {
      ok := AppendCells(spans, fields, size);
      if ok {
        pending := pending + [Row(CellsOf(DecodeFields(cfg, fields).value), size)];
      }
    }

    /** The fields of a tuple of `n` bytes were appended to what `before` holds, and their row is yet to be
        counted. */
    ghost predicate Uncounted(before: State<V>, fields: Fields, n: nat)
      reads this
    {
      && BuildersHold() && rowsInBatch == |before.pending| && bytesInBatch == TotalSize(before.pending)
      && headerDone == before.headerDone && finished == before.finished && rowsTotal == before.rowsTotal
      && DecodeFields(cfg, fields).Ok?
      && pending == before.pending + [Row(CellsOf(DecodeFields(cfg, fields).value), n)]
      && coercions == before.tally + Coerced(DecodeFields(cfg, fields).value)
    }

    /** Take the fields of the tuple at `start`, once they are all here. */
    method TakeFields(start: nat) returns (r: Result<Progress>, ghost fields: Fields)
      requires Valid() && start + 2 <= |buf|
      modifies this`builders, this`coercions, this`pending
      ensures r.Ok? && !r.value.Consumed? ==> r.value == Wanting && builders == old(builders) && Abs() == old(Abs())
      ensures r == Ok(Wanting) ==> ParseFields(cfg.Width(), buf[start + 2..]) == NeedMore
      ensures r.Ok? && r.value.Consumed? ==> Uncounted(old(Abs()), fields, r.value.size)
      ensures r.Ok? && r.value.Consumed? ==>
                AfterCount(ParseFields(cfg.Width(), buf[start + 2..])) == Tuple(r.value.size, fields)
      ensures r == Err ==> RefusedFields(ParseFields(cfg.Width(), buf[start + 2..]))
    {
      var spans;
      spans, fields := FieldSpans(start + 2);
      if spans.Err? { return Err, fields; }
      if spans.value.None? { return Ok(Wanting), fields; }
      var size := spans.value.value.1 - start;
      var ok := AppendRow(spans.value.value.0, fields, size);
      return if ok then Ok(Consumed(size)) else Err, fields;
    }

    /** Take one tuple starting at `start`. Until the whole tuple is buffered no builder is touched. */
    method TakeTuple(start: nat) returns (r: Result<Progress>, ghost fields: Fields)
      requires Valid() && start <= |buf|
      modifies this`builders, this`coercions, this`pending
      ensures r.Ok? && !r.value.Consumed? ==> builders == old(builders) && Abs() == old(Abs())
      ensures r == Ok(Wanting) ==> ParseTuple(cfg.Width(), buf[start..]) == NeedMore
      ensures r == Ok(AtEnd) ==> ParseTuple(cfg.Width(), buf[start..]) == End
      ensures r.Ok? && r.value.Consumed? ==>
                ParseTuple(cfg.Width(), buf[start..]) == Tuple(r.value.size, fields)
                && Uncounted(old(Abs()), fields, r.value.size)
      ensures r == Err ==> Refused(buf[start..])
    {
      fields := [];
      if |buf| < start + 2 {
        return Ok(Wanting), fields;
      }
      var count := ReadI16(buf[start], buf[start + 1]);
      TupleAt(cfg.Width(), buf, start);
      if count == -1 {
        return Ok(AtEnd), fields;
      }
      if count != cfg.Width() {
        return Err, fields;
      }
      r, fields := TakeFields(start);
    }

    /** The tuple at the front is malformed, or a column cannot decode its field. */
    ghost predicate Refused(s: seq<Byte>) {
      RefusedFields(ParseTuple(cfg.Width(), s))
    }

    ghost predicate RefusedFields(p: Parsed) {
      p == Bad || (p.Tuple? && DecodeFields(cfg, p.fields) == Err)
    }

    /** Hand over the builders' columns as a batch, or fail as `RecordBatch::try_new` does. */
    method FlushBatch() returns (r: Result<Batch<V>>)
      requires Valid()
      modifies this`builders, this`rowsInBatch, this`bytesInBatch, this`pending
      ensures Valid() && pending == []
      ensures if Acceptable(cfg, old(pending)) then r.Ok? && AreColumns(r.value, old(pending), cfg.Width())
              else r == Err
    {
      var columns := builders;
      var ok := cfg.Width() > 0 && forall i | 0 <= i < cfg.Width() :: cfg.nullable[i] || HasNoNull(columns[i]);
      ColumnsAcceptable(cfg, pending, columns);
      builders, pending := seq(cfg.Width(), _ => []), [];
      rowsInBatch, bytesInBatch := 0, 0;
      return if ok then Ok(columns) else Err;
    }

    /** The method did what `run` says: the same state, and its batches column by column. */
    ghost predicate Did(run: Run<V>, r: Result<seq<Batch<V>>>)
      reads this
    {
      match run
      case Err => r == Err
      case Ok((st, cut)) => r.Ok? && Valid() && Abs() == st && AreColumnsOf(r.value, cut, cfg.Width())
    }

    /** The state once the row just appended is counted. */
    ghost function Counted(): State<V>
      reads this
    {
      Abs().(rowsTotal := rowsTotal + 1)
    }

    /** Count the row just appended, and cut a batch when it fills one. */
    method CountRow(n: nat) returns (r: Result<seq<Batch<V>>>)
      requires BuildersHold() && pending != [] && pending[|pending| - 1].size == n
      requires rowsInBatch == |pending| - 1 && bytesInBatch == TotalSize(pending[..|pending| - 1])
      modifies this`builders, this`pending, this`rowsInBatch, this`bytesInBatch, this`rowsTotal
      ensures Did(CutIfFull(cfg, old(Counted())), r)
    {
      rowsInBatch, rowsTotal, bytesInBatch := rowsInBatch + 1, rowsTotal + 1, bytesInBatch + n;
      if rowsInBatch >= cfg.batchRows || (cfg.batchBytes > 0 && bytesInBatch >= cfg.batchBytes) {
        var batch := FlushBatch();
        return if batch.Ok? then Ok([batch.value]) else Err;
      }
      return Ok([]);
    }

    /** The decoder is in the state `st` but for the bytes before `cursor`, which it is done with. */
    ghost predicate Holds(st: State<V>, cursor: nat)
      reads this
    {
      && cursor <= |buf| && st.buf == buf[cursor..] && st.headerDone == headerDone && st.finished == finished
      && st.pending == pending && st.rowsTotal == rowsTotal && st.tally == coercions
    }

    /** Count the tuple of `n` bytes just appended from `cursor`, and add the batch it fills to `out`. */
    method FinishStep(cursor: nat, n: nat, ghost before: State<V>, ghost fields: Fields, out: seq<Batch<V>>,
                      ghost cut: seq<seq<Row<V>>>, ghost target: Run<V>)
        returns (r: Result<seq<Batch<V>>>, ghost after: State<V>, ghost cut': seq<seq<Row<V>>>)
      requires cursor + n <= |buf| && before.buf == buf[cursor..]
      requires ParseTuple(cfg.Width(), before.buf) == Tuple(n, fields)
      requires Uncounted(before, fields, n)
      requires AreColumnsOf(out, cut, cfg.Width()) && target == Then(cut, Drain(cfg, before))
      modifies this`builders, this`pending, this`rowsInBatch, this`bytesInBatch, this`rowsTotal
      ensures r.Err? ==> target == Err
      ensures r.Ok? ==> Valid() && Holds(after, cursor + n) && AreColumnsOf(r.value, cut', cfg.Width())
      ensures r.Ok? ==> target == Then(cut', Drain(cfg, after))
    {
      StepIsCut(cfg, before, n, fields, Counted());
      DrainStep(cfg, before, n, fields);
      assert before.buf[n..] == buf[cursor + n..];
      assert pending[..|pending| - 1] == before.pending;
      ghost var step := Step(cfg, before, n, fields);
      var batches := CountRow(n);
      if batches.Err? {
        return Err, before, cut;
      }
      after := step.value.0;
      ColumnsOfConcat(out, batches.value, cut, step.value.1, cfg.Width());
      ThenTwice(cut, step.value.1, Drain(cfg, after));
      r, cut' := Ok(out + batches.value), cut + step.value.1;
    }

    /** `TakeTuple`, in terms of what is left to drain: at the trailer, or short of a whole tuple, nothing. */
    method TryTuple(cursor: nat, ghost st: State<V>, ghost cut: seq<seq<Row<V>>>, ghost target: Run<V>)
        returns (r: Result<Progress>, ghost fields: Fields, ghost after: State<V>)
      requires Valid() && Holds(st, cursor) && target == Then(cut, Drain(cfg, st))
      modifies this`builders, this`coercions, this`pending, this`finished
      ensures r.Err? ==> target == Err
      ensures r.Ok? && !r.value.Consumed? ==> Valid() && Holds(after, cursor) && target == Ok((after, cut))
      ensures r.Ok? && r.value.Consumed? ==>
                ParseTuple(cfg.Width(), st.buf) == Tuple(r.value.size, fields)
                && Uncounted(st, fields, r.value.size)
    {
      DrainStops(cfg, st);
      ThenDone(cfg, st, cut);
      assert st.(buf := buf) == Abs();
      after := st;
      r, fields := TakeTuple(cursor);
      if r == Err {
        RefusedStops(cfg, st);
      } else if r.value == AtEnd {
        finished := true;
        after := st.(finished := true);
      }
    }

    /** One turn of the feeding loop: `more` to go, or where and in what state it stopped. */
    method TakeStep(start: nat, ghost st: State<V>, out: seq<Batch<V>>, ghost cut: seq<seq<Row<V>>>,
                    ghost target: Run<V>)
        returns (r: Result<seq<Batch<V>>>, more: bool, cursor: nat, ghost after: State<V>, ghost cut': seq<seq<Row<V>>>)
      requires Valid() && Holds(st, start)
      requires AreColumnsOf(out, cut, cfg.Width()) && target == Then(cut, Drain(cfg, st))
      modifies this`builders, this`coercions, this`pending, this`rowsInBatch, this`bytesInBatch, this`rowsTotal,
               this`finished
      ensures r.Err? ==> target == Err
      ensures r.Ok? ==> Valid() && Holds(after, cursor) && AreColumnsOf(r.value, cut', cfg.Width())
      ensures r.Ok? ==> target == if more then Then(cut', Drain(cfg, after)) else Ok((after, cut'))
      ensures cursor >= start && (more ==> cursor > start)
    {
      r, more, cursor, cut' := Ok(out), false, start, cut;
      var progress; ghost var fields;
      progress, fields, after := TryTuple(start, st, cut, target);
      if progress.Err? {
        return Err, false, start, st, cut;
      }
      if progress.value.Consumed? {
        more, cursor := true, start + progress.value.size;
        r, after, cut' := FinishStep(start, progress.value.size, st, fields, out, cut, target);
      }
    }

    /** Decode every complete tuple from `start` on; what is left starts at `cursor`. */
    method DecodeFrom(start: nat, ghost st0: State<V>)
        returns (r: Result<seq<Batch<V>>>, cursor: nat, ghost st: State<V>, ghost cut: seq<seq<Row<V>>>)
      requires Valid() && Holds(st0, start)
      modifies this`builders, this`coercions, this`pending, this`rowsInBatch, this`bytesInBatch, this`rowsTotal,
               this`finished
      ensures r.Err? ==> Drain(cfg, st0) == Err
      ensures r.Ok? ==> Valid() && Holds(st, cursor) && AreColumnsOf(r.value, cut, cfg.Width())
      ensures r.Ok? ==> Drain(cfg, st0) == Ok((st, cut))
    {
      ghost var target := Drain(cfg, st0);
      ThenNothing(target);
      r, cursor, st, cut := Ok([]), start, st0, [];
      var more := true;
      while more
        invariant r.Ok? && Valid() && Holds(st, cursor) && AreColumnsOf(r.value, cut, cfg.Width())
        invariant target == if more then Then(cut, Drain(cfg, st)) else Ok((st, cut))
        decreases |buf| - cursor, more
      {
        r, more, cursor, st, cut := TakeStep(cursor, st, r.value, cut, target);
        if r.Err? {
          return;
        }
      }
    }

    /** Feed a chunk of the stream; returns the batches it completed. */
    method Feed(chunk: seq<Byte>) returns (r: Result<seq<Batch<V>>>)
      requires Valid()
      modifies this
      ensures Did(CopyStream.Feed(cfg, old(Abs()), chunk), r)
    {
      buf := buf + chunk;
      var cursor := 0;
      if !headerDone {
        match ParseHeader(buf) {
          case HeaderNeedMore => return Ok([]);
          case HeaderBad => return Err;
          case HeaderSize(n) =>
            cursor := n;
            headerDone := true;
        }
      }
      assert buf[0..] == buf;
      ghost var st; ghost var cut;
      r, cursor, st, cut := DecodeFrom(cursor, Abs().(buf := buf[cursor..]));
      if r.Ok? {
        buf := buf[cursor..];
      }
    }

    /** The last batch: the rows no limit has cut, if there are any. */
    method Finish() returns (r: Result<Option<Batch<V>>>)
      requires Valid()
      modifies this
      ensures match CopyStream.Finish(cfg, old(Abs()))
              case Err => r == Err
              case Ok(None) => r == Ok(None) && unchanged(this)
              case Ok(Some(rows)) =>
                r.Ok? && r.value.Some? && AreColumns(r.value.value, rows, cfg.Width()) && Valid() && pending == []
    {
      if rowsInBatch > 0 {
        var batch := FlushBatch();
        return if batch.Ok? then Ok(Some(batch.value)) else Err;
      }
      return Ok(None);
    }

    /** The span of the field at `pos`, and where the next one starts; `None` when it is not all here. */
    method FieldSpan(pos: nat) returns (r: Result<Option<(Span, nat)>>)
      requires pos <= |buf|
      ensures match ParseField(buf[pos..])
              case HeadNeedMore => r == Ok(None)
              case HeadBad => r == Err
              case Head(taken, field) =>
                r.Ok? && r.value.Some? && r.value.value.1 == pos + taken && Spans(buf, r.value.value.0, field)
    {
      ghost var s := buf[pos..];
      if |buf| < pos + 4 {
        return Ok(None);
      }
      var len := ReadI32(buf[pos], buf[pos + 1], buf[pos + 2], buf[pos + 3]);
      assert len == I32At(s);
      var from := pos + 4;
      if len == -1 {
        return Ok(Some((None, from)));
      }
      if len < -1 {
        return Err;
      }
      if |buf| < from + len {
        return Ok(None);
      }
      assert s[4..4 + len] == buf[from..from + len];
      return Ok(Some((Some((from, from + len)), from + len)));
    }

    /** Note one more field's span. */
    method WalkField(ghost whole: Parsed, ghost start: nat, pos: nat, spans: seq<Span>, ghost done: Fields)
        returns (r: Result<Option<(seq<Span>, nat)>>, ghost more: Fields)
      requires Walking(cfg.Width(), buf, whole, start, pos, spans, done) && |spans| < cfg.Width()
      ensures r == Err ==> whole == Bad
      ensures r == Ok(None) ==> whole == NeedMore
      ensures r.Ok? && r.value.Some? ==>
                |r.value.value.0| == |spans| + 1
                && Walking(cfg.Width(), buf, whole, start, r.value.value.1, r.value.value.0, more)
    {
      WalkStops(cfg.Width(), buf, whole, start, pos, spans, done);
      var field := FieldSpan(pos);
      if field.Err? { return Err, done; }
      if field.value.None? { return Ok(None), done; }
      var (span, next) := field.value.value;
      more := done + [ParseField(buf[pos..]).field];
      WalkMore(cfg.Width(), buf, whole, start, pos, spans, done, span, next, ParseField(buf[pos..]).field);
      return Ok(Some((spans + [span], next))), more;
    }

    /** First pass over a tuple: check it is all here, noting where each field's bytes are. */
    method FieldSpans(start: nat) returns (r: Result<Option<(seq<Span>, nat)>>, ghost fields: Fields)
      requires start <= |buf|
      ensures r == Err ==> ParseFields(cfg.Width(), buf[start..]) == Bad
      ensures r == Ok(None) ==> ParseFields(cfg.Width(), buf[start..]) == NeedMore
      ensures r.Ok? && r.value.Some? ==>
                && start <= r.value.value.1 <= |buf| && AllSpan(buf, r.value.value.0, fields)
                && ParseFields(cfg.Width(), buf[start..]) == Tuple(r.value.value.1 - start, fields)
    {
      var pos: nat, spans: seq<Span> := start, [];
      fields := [];
      ghost var whole := ParseFields(cfg.Width(), buf[start..]);
      WalkStarts(whole);
      while |spans| < cfg.Width()
        invariant Walking(cfg.Width(), buf, whole, start, pos, spans, fields)
        decreases cfg.Width() - |spans|
      {
        r, fields := WalkField(whole, start, pos, spans, fields);
        if r.Err? || r.value.None? {
          return;
        }
        spans, pos := r.value.value.0, r.value.value.1;
      }
      assert fields + [] == fields;
      r := Ok(Some((spans, pos)));
    }
  }
}
