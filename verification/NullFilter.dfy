/** `NullGuard::filter`: what it keeps, fills and counts (crates/quickhouse-core/src/null_guard.rs). */
module NullFilter {
  import opened Options
  import opened Collections
  import opened NullGuard

  // ----- row by row -----

  /** A batch's rows, each a cell a column. */
  function RowAt(columns: seq<seq<Option<Value>>>, i: nat): (row: Row)
    requires forall c | 0 <= c < |columns| :: i < |columns[c]|
    ensures |row| == |columns| && forall c | 0 <= c < |columns| :: row[c] == columns[c][i]
  {
    seq(|columns|, c requires 0 <= c < |columns| => columns[c][i])
  }

  function RowsOf(b: Batch): (rows: seq<Row>)
    requires ValidBatch(b)
    ensures |rows| == b.rows && forall i | 0 <= i < b.rows :: rows[i] == RowAt(b.columns, i)
  {
    seq(b.rows, i requires 0 <= i < b.rows => RowAt(b.columns, i))
  }

  predicate Wide(rows: seq<Row>, width: nat) {
    forall i | 0 <= i < |rows| :: |rows[i]| == width
  }

  predicate IsNull(row: Row, idx: nat) {
    idx < |row| && row[idx].None?
  }

  /** The first guarded column that is NULL in a row, in check order; `|gs|` when none is. */
  function FirstNull(gs: seq<Guarded>, row: Row): (j: nat)
    ensures j <= |gs|
    ensures j < |gs| ==> IsNull(row, gs[j].idx)
  {
    if gs == [] || IsNull(row, gs[0].idx) then 0 else 1 + FirstNull(gs[1..], row)
  }

  lemma {:induction false} FirstNullIsFirst(gs: seq<Guarded>, row: Row)
    ensures forall k | 0 <= k < FirstNull(gs, row) :: !IsNull(row, gs[k].idx)
  {
    if gs != [] && !IsNull(row, gs[0].idx) {
      FirstNullIsFirst(gs[1..], row);
      assert gs == [gs[0]] + gs[1..];
    }
  }

  predicate Kept(gs: seq<Guarded>, row: Row) {
    FirstNull(gs, row) == |gs|
  }

  /** The rows kept, in order. */
  function Survivors(gs: seq<Guarded>, rows: seq<Row>): seq<Row> {
    if rows == [] then []
    else Survivors(gs, rows[..|rows| - 1]) + IfKept(gs, rows[|rows| - 1])
  }

  function IfKept(gs: seq<Guarded>, row: Row): seq<Row> {
    if Kept(gs, row) then [row] else []
  }

  /** The rows charged to the `j`th guarded column. */
  function LeftOut(gs: seq<Guarded>, rows: seq<Row>, j: nat): nat {
    if rows == [] then 0
    else
      LeftOut(gs, rows[..|rows| - 1], j) + (if FirstNull(gs, rows[|rows| - 1]) == j then 1 else 0)
  }

  function NullCount(rows: seq<Row>, idx: nat): nat {
    if rows == [] then 0
    else NullCount(rows[..|rows| - 1], idx) + (if IsNull(rows[|rows| - 1], idx) then 1 else 0)
  }

  /** The value a defaulted column's NULLs become: a text column may have its own. */
  function FillOf(d: Defaulted, f: Field): Option<Value> {
    if f.isText && d.text.Some? then d.text else f.zero
  }

  function FillCell(ds: seq<Defaulted>, f: Field, c: nat, cell: Option<Value>): Option<Value> {
    if ds == [] || cell.Some? then cell
    else if ds[0].idx == c then FillOf(ds[0], f)
    else FillCell(ds[1..], f, c, cell)
  }

  function FillRow(ds: seq<Defaulted>, schema: seq<Field>, row: Row): (r: Row)
    requires |row| == |schema|
    ensures |r| == |row| && forall c | 0 <= c < |row| :: r[c] == FillCell(ds, schema[c], c, row[c])
  {
    seq(|row|, c requires 0 <= c < |row| => FillCell(ds, schema[c], c, row[c]))
  }

  function FillRows(ds: seq<Defaulted>, schema: seq<Field>, rows: seq<Row>): (r: seq<Row>)
    requires Wide(rows, |schema|)
    ensures |r| == |rows| && forall i | 0 <= i < |rows| :: r[i] == FillRow(ds, schema, rows[i])
  {
    seq(|rows|, i requires 0 <= i < |rows| => FillRow(ds, schema, rows[i]))
  }

  /** `strict_schema`: the checked columns can't be NULL. */
  function StrictSchema(g: Guard, schema: seq<Field>): (strict: seq<Field>)
    ensures |strict| == |schema|
    ensures forall i | 0 <= i < |schema| ::
              strict[i] == schema[i].(nullable := schema[i].nullable && !Checks(g, i))
  {
    seq(|schema|, i requires 0 <= i < |schema| => schema[i].(nullable := schema[i].nullable && !Checks(g, i)))
  }

  predicate Named(schema: seq<Field>, idx: nat, name: string) {
    idx < |schema| && schema[idx].name == name
  }

  /** Every checked column is in the batch under its own name. */
  predicate Shaped(g: Guard, schema: seq<Field>) {
    && (forall j | 0 <= j < |g.columns| :: Named(schema, g.columns[j].idx, g.columns[j].dest))
    && (forall j | 0 <= j < |g.defaulted| :: Named(schema, g.defaulted[j].idx, g.defaulted[j].column))
  }

  /** A column with a NULL to fill has a value to fill it with. */
  predicate Fillable(ds: seq<Defaulted>, schema: seq<Field>, kept: seq<Row>) {
    forall j | 0 <= j < |ds| :: ds[j].idx < |schema| &&
      (NullCount(kept, ds[j].idx) > 0 ==> FillOf(ds[j], schema[ds[j].idx]).Some?)
  }

  datatype Outcome = Outcome(schema: seq<Field>, rows: seq<Row>, leftOut: seq<nat>, defaulted: seq<nat>)

  function LeftOuts(gs: seq<Guarded>, rows: seq<Row>): (counts: seq<nat>)
    ensures |counts| == |gs| && forall j | 0 <= j < |gs| :: counts[j] == LeftOut(gs, rows, j)
  {
    seq(|gs|, j requires 0 <= j < |gs| => LeftOut(gs, rows, j))
  }

  function NullCounts(ds: seq<Defaulted>, rows: seq<Row>): (counts: seq<nat>)
    ensures |counts| == |ds| && forall j | 0 <= j < |ds| :: counts[j] == NullCount(rows, ds[j].idx)
  {
    seq(|ds|, j requires 0 <= j < |ds| => NullCount(rows, ds[j].idx))
  }

  /** The filter's result on a batch with these rows. */
  function Filtered(g: Guard, schema: seq<Field>, rows: seq<Row>): Result<Outcome>
    requires Wide(rows, |schema|)
  {
    SurvivorsWide(g.columns, rows, |schema|);
    var kept := Survivors(g.columns, rows);
    if !Shaped(g, schema) || !Fillable(g.defaulted, schema, kept) then Err
    else Ok(Outcome(StrictSchema(g, schema), FillRows(g.defaulted, schema, kept),
                    LeftOuts(g.columns, rows), NullCounts(g.defaulted, kept)))
  }

  lemma {:induction false} SurvivorsWide(gs: seq<Guarded>, rows: seq<Row>, width: nat)
    requires Wide(rows, width)
    ensures Wide(Survivors(gs, rows), width)
  {
    if rows != [] {
      SurvivorsWide(gs, rows[..|rows| - 1], width);
    }
  }

  // ----- what that means -----

  predicate NoGuardedNull(gs: seq<Guarded>, row: Row) {
    forall j | 0 <= j < |gs| :: !IsNull(row, gs[j].idx)
  }

  predicate Exactly(gs: seq<Guarded>, rows: seq<Row>, at: seq<nat>) {
    forall i | 0 <= i < |rows| :: i in at <==> NoGuardedNull(gs, rows[i])
  }

  /** Exactly the rows with no NULL in a left-out column are kept, in order. */
  lemma {:induction false} KeepsExactly(gs: seq<Guarded>, rows: seq<Row>) returns (at: seq<nat>)
    ensures Ascending(at, |rows|) && Survivors(gs, rows) == Pick(rows, at)
    ensures Exactly(gs, rows, at)
  {
    at := [];
    if rows != [] {
      var n := |rows| - 1;
      var before := KeepsExactly(gs, rows[..n]);
      PickFromPrefix(rows, before, n);
      OneMoreExactly(gs, rows, before);
      at := if Kept(gs, rows[n]) then before + [n] else before;
    }
  }

  lemma OneMoreExactly(gs: seq<Guarded>, rows: seq<Row>, before: seq<nat>)
    requires rows != [] && Ascending(before, |rows| - 1) && Exactly(gs, rows[..|rows| - 1], before)
    ensures Exactly(gs, rows, if Kept(gs, rows[|rows| - 1]) then before + [|rows| - 1] else before)
  {
    var n := |rows| - 1;
    var at := if Kept(gs, rows[n]) then before + [n] else before;
    FirstNullIsFirst(gs, rows[n]);
    forall i | 0 <= i < |rows| ensures i in at <==> NoGuardedNull(gs, rows[i]) {
      if i < n {
        assert rows[..n][i] == rows[i];
      }
    }
  }

  function Sum(counts: seq<nat>): nat {
    if counts == [] then 0 else Sum(counts[..|counts| - 1]) + counts[|counts| - 1]
  }

  /** Every row is either kept or charged to exactly one column. */
  lemma {:induction false} EveryRowAccounted(gs: seq<Guarded>, rows: seq<Row>)
    ensures |rows| == |Survivors(gs, rows)| + Sum(LeftOuts(gs, rows))
  {
    var counts := LeftOuts(gs, rows);
    if rows == [] {
      SumOfZeros(counts);
    } else {
      var n := |rows| - 1;
      EveryRowAccounted(gs, rows[..n]);
      SumOneMore(LeftOuts(gs, rows[..n]), counts, FirstNull(gs, rows[n]));
    }
  }

  lemma {:induction false} SumOfZeros(counts: seq<nat>)
    requires forall j | 0 <= j < |counts| :: counts[j] == 0
    ensures Sum(counts) == 0
  {
    if counts != [] {
      SumOfZeros(counts[..|counts| - 1]);
    }
  }

  lemma {:induction false} SumOneMore(before: seq<nat>, after: seq<nat>, at: nat)
    requires |before| == |after|
    requires forall j | 0 <= j < |before| :: after[j] == before[j] + (if j == at then 1 else 0)
    ensures Sum(after) == Sum(before) + (if at < |before| then 1 else 0)
  {
    if before != [] {
      var n := |before| - 1;
      SumOneMore(before[..n], after[..n], at);
    }
  }

  // ----- batches may be split anywhere -----

  function AddCounts(a: seq<nat>, b: seq<nat>): (r: seq<nat>)
    requires |a| == |b|
    ensures |r| == |a| && forall j | 0 <= j < |a| :: r[j] == a[j] + b[j]
  {
    seq(|a|, j requires 0 <= j < |a| => a[j] + b[j])
  }

  function Join(a: Result<Outcome>, b: Result<Outcome>): Result<Outcome>
    requires a.Ok? && b.Ok? ==>
               |a.value.leftOut| == |b.value.leftOut| && |a.value.defaulted| == |b.value.defaulted|
  {
    if a.Err? || b.Err? then Err
    else Ok(Outcome(a.value.schema, a.value.rows + b.value.rows, AddCounts(a.value.leftOut, b.value.leftOut),
                    AddCounts(a.value.defaulted, b.value.defaulted)))
  }

  lemma {:induction false} SurvivorsConcat(gs: seq<Guarded>, a: seq<Row>, b: seq<Row>)
    ensures Survivors(gs, a + b) == Survivors(gs, a) + Survivors(gs, b)
  {
    if b == [] {
      assert a + b == a;
    } else {
      var n := |b| - 1;
      SurvivorsConcat(gs, a, b[..n]);
      InitOfConcat(a, b);
      Associate(Survivors(gs, a), Survivors(gs, b[..n]), IfKept(gs, b[n]));
    }
  }

  lemma {:induction false} LeftOutConcat(gs: seq<Guarded>, a: seq<Row>, b: seq<Row>, j: nat)
    ensures LeftOut(gs, a + b, j) == LeftOut(gs, a, j) + LeftOut(gs, b, j)
  {
    if b == [] {
      assert a + b == a;
    } else {
      var n := |b| - 1;
      LeftOutConcat(gs, a, b[..n], j);
      InitOfConcat(a, b);
    }
  }

  lemma {:induction false} NullCountConcat(a: seq<Row>, b: seq<Row>, idx: nat)
    ensures NullCount(a + b, idx) == NullCount(a, idx) + NullCount(b, idx)
  {
    if b == [] {
      assert a + b == a;
    } else {
      var n := |b| - 1;
      NullCountConcat(a, b[..n], idx);
      InitOfConcat(a, b);
    }
  }

  /** Filtering two batches one after the other gives the rows and the summed counts of their
      concatenation, and fails exactly when it would. */
  lemma {:induction false} SplittingDoesNotMatter(g: Guard, schema: seq<Field>, a: seq<Row>, b: seq<Row>)
    requires Wide(a, |schema|) && Wide(b, |schema|)
    ensures Filtered(g, schema, a + b) == Join(Filtered(g, schema, a), Filtered(g, schema, b))
  {
    SurvivorsConcat(g.columns, a, b);
    SurvivorsWide(g.columns, a, |schema|);
    SurvivorsWide(g.columns, b, |schema|);
    var keptA, keptB := Survivors(g.columns, a), Survivors(g.columns, b);
    FillableSplits(g.defaulted, schema, keptA, keptB);
    if Filtered(g, schema, a + b).Ok? {
      FillRowsConcat(g.defaulted, schema, keptA, keptB);
      CountsConcat(g, a, b, keptA, keptB);
    }
  }

  lemma FillRowsConcat(ds: seq<Defaulted>, schema: seq<Field>, a: seq<Row>, b: seq<Row>)
    requires Wide(a, |schema|) && Wide(b, |schema|)
    ensures FillRows(ds, schema, a + b) == FillRows(ds, schema, a) + FillRows(ds, schema, b)
  {
  }

  lemma FillableSplits(ds: seq<Defaulted>, schema: seq<Field>, a: seq<Row>, b: seq<Row>)
    ensures Fillable(ds, schema, a + b) <==> Fillable(ds, schema, a) && Fillable(ds, schema, b)
  {
    forall j | 0 <= j < |ds|
      ensures NullCount(a + b, ds[j].idx) == NullCount(a, ds[j].idx) + NullCount(b, ds[j].idx)
    {
      NullCountConcat(a, b, ds[j].idx);
    }
  }

  lemma CountsConcat(g: Guard, a: seq<Row>, b: seq<Row>, keptA: seq<Row>, keptB: seq<Row>)
    ensures LeftOuts(g.columns, a + b) == AddCounts(LeftOuts(g.columns, a), LeftOuts(g.columns, b))
    ensures NullCounts(g.defaulted, keptA + keptB)
         == AddCounts(NullCounts(g.defaulted, keptA), NullCounts(g.defaulted, keptB))
  {
    forall j: nat | j < |g.columns|
      ensures LeftOut(g.columns, a + b, j) == LeftOut(g.columns, a, j) + LeftOut(g.columns, b, j)
    {
      LeftOutConcat(g.columns, a, b, j);
    }
    forall j | 0 <= j < |g.defaulted|
      ensures NullCount(keptA + keptB, g.defaulted[j].idx)
           == NullCount(keptA, g.defaulted[j].idx) + NullCount(keptB, g.defaulted[j].idx)
    {
      NullCountConcat(keptA, keptB, g.defaulted[j].idx);
    }
  }

  // ----- nothing is left to do afterwards -----

  lemma {:induction false} FilledCell(ds: seq<Defaulted>, f: Field, c: nat, j: nat)
    requires j < |ds| && ds[j].idx == c
    requires forall i, k | 0 <= i < k < |ds| :: ds[i].idx < ds[k].idx
    ensures FillCell(ds, f, c, None) == FillOf(ds[j], f)
  {
    if j > 0 {
      FilledCell(ds[1..], f, c, j - 1);
    }
  }

  lemma {:induction false} OtherCell(ds: seq<Defaulted>, f: Field, c: nat, cell: Option<Value>)
    requires forall j | 0 <= j < |ds| :: ds[j].idx != c
    ensures FillCell(ds, f, c, cell) == cell
  {
    if ds != [] {
      OtherCell(ds[1..], f, c, cell);
    }
  }

  /** The rows kept have no NULL in a checked column once filled, and their other cells are as they were. */
  lemma {:induction false} FilledRow(g: Guard, schema: seq<Field>, kept: seq<Row>, i: nat, c: nat)
    requires Disjoint(g) && Wide(kept, |schema|) && Fillable(g.defaulted, schema, kept)
    requires i < |kept| && Kept(g.columns, kept[i]) && c < |schema|
    ensures kept[i][c].Some? || !Checks(g, c) ==> FillRow(g.defaulted, schema, kept[i])[c] == kept[i][c]
    ensures Checks(g, c) ==> FillRow(g.defaulted, schema, kept[i])[c].Some?
    ensures forall j | 0 <= j < |g.defaulted| && g.defaulted[j].idx == c && kept[i][c].None? ::
              FillRow(g.defaulted, schema, kept[i])[c] == FillOf(g.defaulted[j], schema[c])
  {
    var cell := kept[i][c];
    if exists j | 0 <= j < |g.defaulted| :: g.defaulted[j].idx == c {
      var j :| 0 <= j < |g.defaulted| && g.defaulted[j].idx == c;
      if cell.None? {
        FilledCell(g.defaulted, schema[c], c, j);
        assert IsNull(kept[i], c);
        NullCounted(kept, c, i);
      }
    } else {
      OtherCell(g.defaulted, schema[c], c, cell);
      if IsGuarded(g.columns, c) {
        var j :| 0 <= j < |g.columns| && g.columns[j].idx == c;
        FirstNullIsFirst(g.columns, kept[i]);
        assert !IsNull(kept[i], g.columns[j].idx);
      }
    }
  }

  lemma {:induction false} NullCounted(rows: seq<Row>, c: nat, i: nat)
    requires i < |rows| && IsNull(rows[i], c)
    ensures NullCount(rows, c) > 0
  {
    if i < |rows| - 1 {
      NullCounted(rows[..|rows| - 1], c, i);
    }
  }

  lemma {:induction false} SurvivorsKept(gs: seq<Guarded>, rows: seq<Row>)
    ensures forall i | 0 <= i < |Survivors(gs, rows)| :: Kept(gs, Survivors(gs, rows)[i])
  {
    if rows != [] {
      SurvivorsKept(gs, rows[..|rows| - 1]);
    }
  }

  /** Under the strict schema no NULL is left in a column that can't hold one. */
  lemma {:induction false} StrictSchemaHolds(g: Guard, schema: seq<Field>, rows: seq<Row>)
    requires Disjoint(g) && Wide(rows, |schema|) && Filtered(g, schema, rows).Ok?
    ensures var out := Filtered(g, schema, rows).value;
            Wide(out.rows, |schema|) &&
            forall i, c | 0 <= i < |out.rows| && 0 <= c < |schema| && Checks(g, c) :: out.rows[i][c].Some?
  {
    SurvivorsKept(g.columns, rows);
    SurvivorsWide(g.columns, rows, |schema|);
    var kept := Survivors(g.columns, rows);
    var out := Filtered(g, schema, rows).value;
    forall i, c | 0 <= i < |out.rows| && 0 <= c < |schema| && Checks(g, c) ensures out.rows[i][c].Some? {
      FilledRow(g, schema, kept, i, c);
    }
  }

  predicate Clean(g: Guard, row: Row) {
    forall c | 0 <= c < |row| && Checks(g, c) :: row[c].Some?
  }

  lemma CleanRow(g: Guard, schema: seq<Field>, row: Row)
    requires Clean(g, row) && |row| == |schema|
    ensures Kept(g.columns, row)
    ensures forall j | 0 <= j < |g.defaulted| :: !IsNull(row, g.defaulted[j].idx)
    ensures FillRow(g.defaulted, schema, row) == row
  {
    var j := FirstNull(g.columns, row);
    if j < |g.columns| {
      assert Checks(g, g.columns[j].idx);
    }
    forall k | 0 <= k < |g.defaulted| ensures !IsNull(row, g.defaulted[k].idx) {
      assert Checks(g, g.defaulted[k].idx);
    }
    forall c | 0 <= c < |row| ensures FillCell(g.defaulted, schema[c], c, row[c]) == row[c] {
      if row[c].None? {
        OtherCell(g.defaulted, schema[c], c, row[c]);
      }
    }
  }

  lemma {:induction false} NoNulls(rows: seq<Row>, idx: nat)
    requires forall i | 0 <= i < |rows| :: !IsNull(rows[i], idx)
    ensures NullCount(rows, idx) == 0
  {
    if rows != [] {
      NoNulls(rows[..|rows| - 1], idx);
    }
  }

  lemma CleanRows(g: Guard, schema: seq<Field>, rows: seq<Row>)
    requires Wide(rows, |schema|) && forall i | 0 <= i < |rows| :: Clean(g, rows[i])
    ensures Survivors(g.columns, rows) == rows && LeftOuts(g.columns, rows) == NoneCounted(|g.columns|)
    ensures forall j | 0 <= j < |g.defaulted| :: NullCount(rows, g.defaulted[j].idx) == 0
    ensures FillRows(g.defaulted, schema, rows) == rows
  {
    forall i | 0 <= i < |rows|
      ensures NoGuardedNull(g.columns, rows[i]) && FillRow(g.defaulted, schema, rows[i]) == rows[i]
      ensures forall j | 0 <= j < |g.defaulted| :: !IsNull(rows[i], g.defaulted[j].idx)
    {
      CleanRow(g, schema, rows[i]);
    }
    NoneLeftOut(g.columns, rows);
    forall j | 0 <= j < |g.defaulted| ensures NullCount(rows, g.defaulted[j].idx) == 0 {
      NoNulls(rows, g.defaulted[j].idx);
    }
  }

  function NoneCounted(n: nat): (counts: seq<nat>)
    ensures |counts| == n && forall j | 0 <= j < n :: counts[j] == 0
  {
    seq(n, _ => 0)
  }

  lemma CleanRowsFiltered(g: Guard, schema: seq<Field>, rows: seq<Row>)
    requires Wide(rows, |schema|) && Shaped(g, schema) && forall i | 0 <= i < |rows| :: Clean(g, rows[i])
    ensures Filtered(g, schema, rows)
         == Ok(Outcome(StrictSchema(g, schema), rows, NoneCounted(|g.columns|), NoneCounted(|g.defaulted|)))
  {
    CleanRows(g, schema, rows);
    assert NullCounts(g.defaulted, rows) == NoneCounted(|g.defaulted|);
  }

  /** Filtering what the filter returned changes nothing and counts nothing. */
  lemma {:induction false} FilterIsIdempotent(g: Guard, schema: seq<Field>, rows: seq<Row>)
    requires Disjoint(g) && Wide(rows, |schema|) && Filtered(g, schema, rows).Ok?
    ensures var out := Filtered(g, schema, rows).value;
            && Wide(out.rows, |out.schema|)
            && Filtered(g, out.schema, out.rows)
            == Ok(Outcome(out.schema, out.rows, NoneCounted(|g.columns|), NoneCounted(|g.defaulted|)))
  {
    var out := Filtered(g, schema, rows).value;
    StrictSchemaHolds(g, schema, rows);
    assert StrictSchema(g, out.schema) == out.schema;
    CleanRowsFiltered(g, out.schema, out.rows);
  }

  // ----- the filter, column by column -----

  /** `filter_record_batch`: the cells at the positions the mask keeps. */
  function TakeColumns(columns: seq<seq<Option<Value>>>, at: seq<nat>, n: nat): (r: seq<seq<Option<Value>>>)
    requires forall c | 0 <= c < |columns| :: |columns[c]| == n
    requires forall k | 0 <= k < |at| :: at[k] < n
    ensures |r| == |columns| && forall c | 0 <= c < |columns| :: r[c] == Pick(columns[c], at)
  {
    seq(|columns|, c requires 0 <= c < |columns| => Pick(columns[c], at))
  }

  function TakeRows(b: Batch, at: seq<nat>): (r: Batch)
    requires ValidBatch(b) && Ascending(at, b.rows)
    ensures ValidBatch(r) && r.schema == b.schema && RowsOf(r) == Pick(RowsOf(b), at)
  {
    var r := Batch(b.schema, TakeColumns(b.columns, at, b.rows), |at|);
    assert forall k | 0 <= k < |at| :: RowAt(r.columns, k) == RowAt(b.columns, at[k]);
    r
  }

  /** Which of the first `n` rows are kept, and how many each guarded column leaves out. */
  function MaskOf(gs: seq<Guarded>, rows: seq<Row>, n: nat): (seq<nat>, seq<nat>)
    requires n <= |rows|
  {
    if n == 0 then ([], NoneCounted(|gs|))
    else
      var before, j := MaskOf(gs, rows, n - 1), FirstNull(gs, rows[n - 1]);
      (if j == |gs| then before.0 + [n - 1] else before.0, Charged(before.1, j))
  }

  lemma {:induction false} MaskIs(gs: seq<Guarded>, rows: seq<Row>, n: nat)
    requires n <= |rows|
    ensures LeftSoFar(gs, rows, n, MaskOf(gs, rows, n).0, MaskOf(gs, rows, n).1)
  {
    if n == 0 {
      MaskStart(gs, rows);
    } else {
      MaskIs(gs, rows, n - 1);
      MaskMore(gs, rows, n - 1, n);
    }
  }

  lemma MaskMore(gs: seq<Guarded>, rows: seq<Row>, row: nat, n: nat)
    requires n == row + 1 <= |rows| && LeftSoFar(gs, rows, row, MaskOf(gs, rows, row).0, MaskOf(gs, rows, row).1)
    ensures LeftSoFar(gs, rows, n, MaskOf(gs, rows, n).0, MaskOf(gs, rows, n).1)
  {
    LeaveOutStep(gs, rows, row, MaskOf(gs, rows, row).0, MaskOf(gs, rows, row).1, FirstNull(gs, rows[row]));
  }

  method Mask(gs: seq<Guarded>, rows: seq<Row>) returns (at: seq<nat>, leftOut: seq<nat>)
    ensures (at, leftOut) == MaskOf(gs, rows, |rows|)
  {
    at, leftOut := [], NoneCounted(|gs|);
    for row := 0 to |rows|
      invariant (at, leftOut) == MaskOf(gs, rows, row)
    {
      var j := FirstNull(gs, rows[row]);
      leftOut := Charged(leftOut, j);
      if j == |gs| {
        at := at + [row];
      }
    }
  }

  /** The first half of `filter`: leave out the rows with a NULL in a guarded column. */
  method LeaveOut(gs: seq<Guarded>, b: Batch) returns (r: Batch, leftOut: seq<nat>)
    requires ValidBatch(b) && forall j | 0 <= j < |gs| :: gs[j].idx < |b.schema|
    ensures ValidBatch(r) && r.schema == b.schema
    ensures RowsOf(r) == Survivors(gs, RowsOf(b)) && leftOut == LeftOuts(gs, RowsOf(b))
  {
    if forall j | 0 <= j < |gs| :: NoNull(b.columns[gs[j].idx]) {
      NoNullsAtAll(gs, b);
      return b, NoneCounted(|gs|);
    }
    var at;
    at, leftOut := Mask(gs, RowsOf(b));
    MaskIs(gs, RowsOf(b), b.rows);
    AllDone(gs, RowsOf(b), at, leftOut);
    r := TakeRows(b, at);
  }

  lemma NoNullsAtAll(gs: seq<Guarded>, b: Batch)
    requires ValidBatch(b) && forall j | 0 <= j < |gs| :: gs[j].idx < |b.schema| && NoNull(b.columns[gs[j].idx])
    ensures RowsOf(b) == Survivors(gs, RowsOf(b)) && NoneCounted(|gs|) == LeftOuts(gs, RowsOf(b))
  {
    forall i | 0 <= i < b.rows ensures NoGuardedNull(gs, RowsOf(b)[i]) {
      RowHasNoNull(gs, b, i);
    }
    NoneLeftOut(gs, RowsOf(b));
  }

  lemma RowHasNoNull(gs: seq<Guarded>, b: Batch, i: nat)
    requires ValidBatch(b) && forall j | 0 <= j < |gs| :: gs[j].idx < |b.schema| && NoNull(b.columns[gs[j].idx])
    requires i < b.rows
    ensures NoGuardedNull(gs, RowsOf(b)[i])
  {
    var row := RowAt(b.columns, i);
    assert forall c | 0 <= c < |row| && NoNull(b.columns[c]) :: row[c].Some?;
  }

  lemma AllDone(gs: seq<Guarded>, rows: seq<Row>, at: seq<nat>, leftOut: seq<nat>)
    requires LeftSoFar(gs, rows, |rows|, at, leftOut)
    ensures Pick(rows, at) == Survivors(gs, rows) && leftOut == LeftOuts(gs, rows)
  {
    assert rows[..|rows|] == rows;
  }

  /** What the first `row` rows did to the mask and the counts. */
  ghost predicate LeftSoFar(gs: seq<Guarded>, rows: seq<Row>, row: nat, at: seq<nat>, leftOut: seq<nat>)
    requires row <= |rows|
  {
    Ascending(at, row) && Pick(rows, at) == Survivors(gs, rows[..row]) && leftOut == LeftOuts(gs, rows[..row])
  }

  /** The counts once one more row is charged to its first NULL column, if it has one. */
  function Charged(counts: seq<nat>, j: nat): (r: seq<nat>)
    ensures |r| == |counts| && forall k | 0 <= k < |counts| :: r[k] == counts[k] + (if k == j then 1 else 0)
  {
    if j < |counts| then counts[j := counts[j] + 1] else counts
  }

  lemma ChargeStep(gs: seq<Guarded>, rows: seq<Row>, row: nat)
    requires row < |rows|
    ensures LeftOuts(gs, rows[..row + 1]) == Charged(LeftOuts(gs, rows[..row]), FirstNull(gs, rows[row]))
  {
    forall k: nat | k < |gs|
      ensures LeftOut(gs, rows[..row + 1], k)
           == LeftOut(gs, rows[..row], k) + (if FirstNull(gs, rows[row]) == k then 1 else 0)
    {
      LeftOutStep(gs, rows, row, k);
    }
  }

  lemma LeftOutStep(gs: seq<Guarded>, rows: seq<Row>, row: nat, k: nat)
    requires row < |rows|
    ensures LeftOut(gs, rows[..row + 1], k)
         == LeftOut(gs, rows[..row], k) + (if FirstNull(gs, rows[row]) == k then 1 else 0)
  {
    assert rows[..row + 1][..row] == rows[..row];
  }

  lemma SurvivorsStep(gs: seq<Guarded>, rows: seq<Row>, row: nat)
    requires row < |rows|
    ensures Survivors(gs, rows[..row + 1]) == Survivors(gs, rows[..row]) + IfKept(gs, rows[row])
  {
    assert rows[..row + 1][..row] == rows[..row];
  }

  lemma MaskStep(gs: seq<Guarded>, rows: seq<Row>, row: nat, at: seq<nat>)
    requires row < |rows| && Ascending(at, row) && Pick(rows, at) == Survivors(gs, rows[..row])
    ensures var next := if Kept(gs, rows[row]) then at + [row] else at;
            Ascending(next, row + 1) && Pick(rows, next) == Survivors(gs, rows[..row + 1])
  {
    SurvivorsStep(gs, rows, row);
    PickFromPrefix(rows, at, row);
  }

  lemma MaskStart(gs: seq<Guarded>, rows: seq<Row>)
    ensures LeftSoFar(gs, rows, 0, [], NoneCounted(|gs|))
  {
  }

  lemma LeaveOutStep(gs: seq<Guarded>, rows: seq<Row>, row: nat, at: seq<nat>, leftOut: seq<nat>, j: nat)
    requires row < |rows| && LeftSoFar(gs, rows, row, at, leftOut) && j == FirstNull(gs, rows[row])
    ensures LeftSoFar(gs, rows, row + 1, if j == |gs| then at + [row] else at, Charged(leftOut, j))
  {
    MaskStep(gs, rows, row, at);
    ChargeStep(gs, rows, row);
  }

  lemma NoneLeftOut(gs: seq<Guarded>, rows: seq<Row>)
    requires forall i | 0 <= i < |rows| :: NoGuardedNull(gs, rows[i])
    ensures Survivors(gs, rows) == rows && LeftOuts(gs, rows) == NoneCounted(|gs|)
  {
    forall j: nat | j < |gs| ensures LeftOut(gs, rows, j) == 0 {
      NoneCharged(gs, rows, j);
    }
    AllSurvive(gs, rows);
  }

  lemma {:induction false} AllSurvive(gs: seq<Guarded>, rows: seq<Row>)
    requires forall i | 0 <= i < |rows| :: NoGuardedNull(gs, rows[i])
    ensures Survivors(gs, rows) == rows
  {
    if rows != [] {
      var n := |rows| - 1;
      AllSurvive(gs, rows[..n]);
      NoNullIsKept(gs, rows[n]);
      SplitLast(rows);
    }
  }

  lemma NoNullIsKept(gs: seq<Guarded>, row: Row)
    requires NoGuardedNull(gs, row)
    ensures IfKept(gs, row) == [row] && FirstNull(gs, row) == |gs|
  {
  }

  lemma {:induction false} NoneCharged(gs: seq<Guarded>, rows: seq<Row>, j: nat)
    requires j < |gs| && forall i | 0 <= i < |rows| :: NoGuardedNull(gs, rows[i])
    ensures LeftOut(gs, rows, j) == 0
  {
    if rows != [] {
      NoneCharged(gs, rows[..|rows| - 1], j);
      NoNullIsKept(gs, rows[|rows| - 1]);
    }
  }

  /** The NULLs of a column. */
  function ColumnNulls(column: seq<Option<Value>>): nat {
    if column == [] then 0
    else ColumnNulls(column[..|column| - 1]) + (if column[|column| - 1].None? then 1 else 0)
  }

  lemma {:induction false} ColumnNullsAreRowNulls(column: seq<Option<Value>>, rows: seq<Row>, c: nat)
    requires |column| == |rows| && forall i | 0 <= i < |rows| :: c < |rows[i]| && rows[i][c] == column[i]
    ensures ColumnNulls(column) == NullCount(rows, c)
    ensures ColumnNulls(column) == 0 <==> NoNull(column)
  {
    if rows != [] {
      ColumnNullsAreRowNulls(column[..|column| - 1], rows[..|rows| - 1], c);
    }
  }

  /** `fill_nulls`. */
  function FillColumn(column: seq<Option<Value>>, fill: Option<Value>): (r: seq<Option<Value>>)
    ensures |r| == |column|
    ensures forall i | 0 <= i < |column| :: r[i] == if column[i].Some? then column[i] else fill
  {
    seq(|column|, i requires 0 <= i < |column| => if column[i].Some? then column[i] else fill)
  }

  function FillBy(ds: seq<Defaulted>, f: Field, c: nat, column: seq<Option<Value>>): (r: seq<Option<Value>>)
    ensures |r| == |column| && forall i | 0 <= i < |column| :: r[i] == FillCell(ds, f, c, column[i])
  {
    seq(|column|, i requires 0 <= i < |column| => FillCell(ds, f, c, column[i]))
  }

  lemma {:induction false} FillCellMore(ds: seq<Defaulted>, d: Defaulted, f: Field, c: nat, cell: Option<Value>)
    requires d.idx != c
    ensures FillCell(ds + [d], f, c, cell) == FillCell(ds, f, c, cell)
  {
    if ds != [] {
      assert (ds + [d])[1..] == ds[1..] + [d];
      FillCellMore(ds[1..], d, f, c, cell);
    }
  }

  /** The columns once the first `j` defaulted ones are filled. */
  ghost predicate FilledSoFar(ds: seq<Defaulted>, j: nat, b: Batch, columns: seq<seq<Option<Value>>>)
    requires ValidBatch(b) && j <= |ds|
  {
    && |columns| == |b.columns|
    && forall c | 0 <= c < |columns| :: columns[c] == FillBy(ds[..j], b.schema[c], c, b.columns[c])
  }

  lemma NothingFilled(ds: seq<Defaulted>, b: Batch)
    requires ValidBatch(b)
    ensures FilledSoFar(ds, 0, b, b.columns)
  {
    forall c | 0 <= c < |b.columns| ensures b.columns[c] == FillBy(ds[..0], b.schema[c], c, b.columns[c]) {
    }
  }

  lemma OneMoreFilled(ds: seq<Defaulted>, j: nat, b: Batch, columns: seq<seq<Option<Value>>>, c: nat)
    requires ValidBatch(b) && j < |ds| && FilledSoFar(ds, j, b, columns) && c < |columns|
    requires forall i, k | 0 <= i < k < |ds| :: ds[i].idx < ds[k].idx
    ensures FillBy(ds[..j + 1], b.schema[c], c, b.columns[c])
         == if c == ds[j].idx then FillColumn(b.columns[c], FillOf(ds[j], b.schema[c])) else columns[c]
  {
    var column, f := b.columns[c], b.schema[c];
    assert ds[..j + 1] == ds[..j] + [ds[j]];
    forall i | 0 <= i < |column|
      ensures FillCell(ds[..j + 1], f, c, column[i])
           == if c != ds[j].idx then FillCell(ds[..j], f, c, column[i])
              else if column[i].Some? then column[i] else FillOf(ds[j], f)
    {
      if c != ds[j].idx {
        FillCellMore(ds[..j], ds[j], f, c, column[i]);
      } else if column[i].None? {
        FilledCell(ds[..j + 1], f, c, j);
      }
    }
  }

  lemma AlreadyFull(column: seq<Option<Value>>, fill: Option<Value>)
    requires NoNull(column)
    ensures FillColumn(column, fill) == column
  {
  }

  lemma UntouchedColumn(ds: seq<Defaulted>, j: nat, b: Batch, columns: seq<seq<Option<Value>>>)
    requires ValidBatch(b) && j < |ds| && FilledSoFar(ds, j, b, columns) && ds[j].idx < |columns|
    requires forall i, k | 0 <= i < k < |ds| :: ds[i].idx < ds[k].idx
    ensures columns[ds[j].idx] == b.columns[ds[j].idx]
  {
    var at := ds[j].idx;
    forall i | 0 <= i < b.rows ensures FillCell(ds[..j], b.schema[at], at, b.columns[at][i]) == b.columns[at][i] {
      OtherCell(ds[..j], b.schema[at], at, b.columns[at][i]);
    }
  }

  lemma FillStep(ds: seq<Defaulted>, j: nat, b: Batch, columns: seq<seq<Option<Value>>>)
    requires ValidBatch(b) && j < |ds| && FilledSoFar(ds, j, b, columns) && ds[j].idx < |columns|
    requires forall i, k | 0 <= i < k < |ds| :: ds[i].idx < ds[k].idx
    ensures var c := ds[j].idx;
            FilledSoFar(ds, j + 1, b, columns[c := FillColumn(b.columns[c], FillOf(ds[j], b.schema[c]))])
    ensures NoNull(b.columns[ds[j].idx]) ==> FilledSoFar(ds, j + 1, b, columns)
  {
    forall c | 0 <= c < |columns|
      ensures FillBy(ds[..j + 1], b.schema[c], c, b.columns[c])
           == if c == ds[j].idx then FillColumn(b.columns[c], FillOf(ds[j], b.schema[c])) else columns[c]
    {
      OneMoreFilled(ds, j, b, columns, c);
    }
    var at := ds[j].idx;
    if NoNull(b.columns[at]) {
      AlreadyFull(b.columns[at], FillOf(ds[j], b.schema[at]));
      UntouchedColumn(ds, j, b, columns);
    }
  }

  /** What `Fill` has established of the first `j` defaulted columns. */
  ghost predicate FillState(ds: seq<Defaulted>, j: nat, b: Batch, columns: seq<seq<Option<Value>>>, counts: seq<nat>)
    requires ValidBatch(b) && j <= |ds|
  {
    && (forall k | 0 <= k < j :: Named(b.schema, ds[k].idx, ds[k].column))
    && Fillable(ds[..j], b.schema, RowsOf(b))
    && FilledSoFar(ds, j, b, columns)
    && counts == NullCounts(ds[..j], RowsOf(b))
  }

  /** One defaulted column: its NULLs are counted and filled. */
  method FillOne(ds: seq<Defaulted>, j: nat, b: Batch, columns: seq<seq<Option<Value>>>, counts: seq<nat>)
    returns (ok: bool, columns': seq<seq<Option<Value>>>, counts': seq<nat>)
    requires ValidBatch(b) && j < |ds| && FillState(ds, j, b, columns, counts)
    requires forall i, k | 0 <= i < k < |ds| :: ds[i].idx < ds[k].idx
    ensures ok ==> FillState(ds, j + 1, b, columns', counts')
    ensures !ok ==> !Named(b.schema, ds[j].idx, ds[j].column) || !Fillable(ds, b.schema, RowsOf(b))
  {
    ok, columns', counts' := false, columns, counts;
    var d := ds[j];
    if !Named(b.schema, d.idx, d.column) { return; }
    var column := b.columns[d.idx];
    var nulls := ColumnNulls(column);
    ColumnNullsAreRowNulls(column, RowsOf(b), d.idx);
    FillStep(ds, j, b, columns);
    var fill := FillOf(d, b.schema[d.idx]);
    if nulls > 0 {
      if fill.None? { return; }
      columns' := columns[d.idx := FillColumn(column, fill)];
    }
    ok, counts' := true, counts + [nulls];
    OneMoreCounted(ds, j, b);
  }

  lemma OneMoreCounted(ds: seq<Defaulted>, j: nat, b: Batch)
    requires ValidBatch(b) && j < |ds|
    ensures NullCounts(ds[..j + 1], RowsOf(b)) == NullCounts(ds[..j], RowsOf(b)) + [NullCount(RowsOf(b), ds[j].idx)]
    ensures Fillable(ds[..j + 1], b.schema, RowsOf(b)) <==>
              Fillable(ds[..j], b.schema, RowsOf(b)) && Fillable([ds[j]], b.schema, RowsOf(b))
  {
    assert ds[..j + 1] == ds[..j] + [ds[j]];
    forall k | 0 <= k < j ensures ds[..j + 1][k] == ds[..j][k] {
    }
  }

  /** The second half of `filter`: fill the NULLs of the defaulted columns. */
  method Fill(ds: seq<Defaulted>, b: Batch) returns (ok: bool, columns: seq<seq<Option<Value>>>, counts: seq<nat>)
    requires ValidBatch(b)
    requires forall i, k | 0 <= i < k < |ds| :: ds[i].idx < ds[k].idx
    ensures ok <==> (forall j | 0 <= j < |ds| :: Named(b.schema, ds[j].idx, ds[j].column))
                    && Fillable(ds, b.schema, RowsOf(b))
    ensures ok ==> FilledSoFar(ds, |ds|, b, columns) && counts == NullCounts(ds, RowsOf(b))
  {
    ok, columns, counts := true, b.columns, [];
    NothingFilled(ds, b);
    for j := 0 to |ds|
      invariant FillState(ds, j, b, columns, counts)
    {
      ok, columns, counts := FillOne(ds, j, b, columns, counts);
      if !ok { return; }
    }
    assert ds[..|ds|] == ds;
  }

  lemma FilledColumn(g: Guard, b: Batch, columns: seq<seq<Option<Value>>>, i: nat, c: nat)
    requires Disjoint(g) && ValidBatch(b) && FilledSoFar(g.defaulted, |g.defaulted|, b, columns)
    requires Fillable(g.defaulted, b.schema, RowsOf(b))
    requires i < b.rows && c < |columns| && Kept(g.columns, RowsOf(b)[i])
    ensures columns[c][i] == FillRow(g.defaulted, b.schema, RowsOf(b)[i])[c]
    ensures !StrictSchema(g, b.schema)[c].nullable ==> columns[c][i].Some?
  {
    assert g.defaulted[..|g.defaulted|] == g.defaulted;
    FilledRow(g, b.schema, RowsOf(b), i, c);
    assert RowsOf(b)[i][c] == b.columns[c][i];
    assert b.schema[c].nullable || NoNull(b.columns[c]);
  }

  lemma FilledRows(g: Guard, b: Batch, columns: seq<seq<Option<Value>>>)
    requires Disjoint(g) && ValidBatch(b) && FilledSoFar(g.defaulted, |g.defaulted|, b, columns)
    requires Fillable(g.defaulted, b.schema, RowsOf(b))
    requires forall i | 0 <= i < b.rows :: Kept(g.columns, RowsOf(b)[i])
    ensures ValidBatch(Batch(StrictSchema(g, b.schema), columns, b.rows))
    ensures RowsOf(Batch(StrictSchema(g, b.schema), columns, b.rows)) == FillRows(g.defaulted, b.schema, RowsOf(b))
  {
    var strict := StrictSchema(g, b.schema);
    forall c | 0 <= c < |columns| ensures |columns[c]| == b.rows && (strict[c].nullable || NoNull(columns[c])) {
      if !strict[c].nullable {
        forall i | 0 <= i < b.rows ensures columns[c][i].Some? {
          FilledColumn(g, b, columns, i, c);
        }
      }
    }
    forall i | 0 <= i < b.rows ensures RowAt(columns, i) == FillRow(g.defaulted, b.schema, RowsOf(b)[i]) {
      forall c | 0 <= c < |columns| ensures columns[c][i] == FillRow(g.defaulted, b.schema, RowsOf(b)[i])[c] {
        FilledColumn(g, b, columns, i, c);
      }
    }
  }

  /** `filter`: the rows and counts `Filtered` says, in a batch valid under the strict schema, or an error
      for a batch that isn't shaped like the plan or has a NULL with no default. */
  method Filter(g: Guard, b: Batch) returns (ok: bool, out: Batch, leftOut: seq<nat>, defaulted: seq<nat>)
    requires ValidBatch(b) && Disjoint(g)
    ensures ok <==> Filtered(g, b.schema, RowsOf(b)).Ok?
    ensures ok ==> ValidBatch(out)
    ensures ok ==> Filtered(g, b.schema, RowsOf(b)) == Ok(Outcome(out.schema, RowsOf(out), leftOut, defaulted))
  {
    ok, out, leftOut, defaulted := false, b, [], [];
    for j := 0 to |g.columns|
      invariant forall k | 0 <= k < j :: Named(b.schema, g.columns[k].idx, g.columns[k].dest)
    {
      if !Named(b.schema, g.columns[j].idx, g.columns[j].dest) { return; }
    }
    out, leftOut := LeaveOut(g.columns, b);
    SurvivorsKept(g.columns, RowsOf(b));
    var columns;
    ok, columns, defaulted := Fill(g.defaulted, out);
    if ok {
      FilledRows(g, out, columns);
      out := Batch(StrictSchema(g, out.schema), columns, out.rows);
    }
  }
}
