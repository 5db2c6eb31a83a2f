/** The filter every decoded batch passes through: rows with a NULL key or watermark are left out, and
    NULLs in the other NOT NULL columns take a default (crates/quickhouse-core/src/null_guard.rs). */
module NullGuard {
  import opened Options

  /** A cell's value, of any column type. */
  datatype Value = Number(n: int) | Text(s: string)

  datatype DestKind = ClickHouse | BigQuery | Csv

  /** A destination column of the plan; `textDefault` is what `clickhouse_text_default` gives its type
      when it is sent as text. */
  datatype PlanColumn = PlanColumn(name: string, nullable: bool, textDefault: Option<Value>)

  /** The run's options; `engine` is what `engine_parameter_columns` gives its engine. */
  datatype Config = Config(watermark: Option<string>, key: seq<string>, orderBy: seq<string>,
                           primaryKey: seq<string>, notNull: seq<string>, engine: seq<string>)

  datatype WarningKind = NullWatermark | NullKey
  datatype NotNullBy = ByOrderBy | ByPrimaryKey | ByNotNull | ByEngine

  datatype Guarded = Guarded(idx: nat, dest: string, column: string, kind: WarningKind)
  datatype Defaulted = Defaulted(idx: nat, column: string, because: NotNullBy, text: Option<Value>)
  datatype Guard = Guard(columns: seq<Guarded>, defaulted: seq<Defaulted>)

  type Row = seq<Option<Value>>

  /** A batch's field; `zero` is its Arrow type's zero value, if it has one. */
  datatype Field = Field(name: string, nullable: bool, isText: bool, zero: Option<Value>)
  datatype Batch = Batch(schema: seq<Field>, columns: seq<seq<Option<Value>>>, rows: nat)

  predicate NoNull(column: seq<Option<Value>>) {
    forall i | 0 <= i < |column| :: column[i].Some?
  }

  /** What `RecordBatch::try_new` checks. */
  predicate ValidBatch(b: Batch) {
    && |b.columns| == |b.schema|
    && (forall c | 0 <= c < |b.columns| :: |b.columns[c]| == b.rows)
    && (forall c | 0 <= c < |b.columns| :: b.schema[c].nullable || NoNull(b.columns[c]))
  }

  // ----- NullGuard::new -----

  /** Where `p` first holds of `names`; `|names|` when it holds of none. */
  function Position(names: seq<string>, p: string -> bool): (i: nat)
    ensures i <= |names|
    ensures i < |names| ==> p(names[i])
    ensures forall j | 0 <= j < i :: !p(names[j])
  {
    if names == [] || p(names[0]) then 0 else 1 + Position(names[1..], p)
  }

  function Lower(c: char): char {
    if 'A' <= c <= 'Z' then c + (32 as char) else c
  }

  predicate EqIgnoreCase(a: string, b: string) {
    |a| == |b| && forall i | 0 <= i < |a| :: Lower(a[i]) == Lower(b[i])
  }

  function NamesOf(plan: seq<PlanColumn>): (names: seq<string>)
    ensures |names| == |plan| && forall i | 0 <= i < |plan| :: names[i] == plan[i].name
  {
    seq(|plan|, i requires 0 <= i < |plan| => plan[i].name)
  }

  /** The plan's column a key names: by its exact name, or else ignoring ASCII case. */
  function KeyColumn(plan: seq<PlanColumn>, key: string): (i: nat)
    ensures i <= |plan|
    ensures i < |plan| ==> EqIgnoreCase(plan[i].name, key)
  {
    var names := NamesOf(plan);
    var exact := Position(names, n => n == key);
    if exact < |plan| then exact else Position(names, n => EqIgnoreCase(n, key))
  }

  predicate IsGuarded(columns: seq<Guarded>, idx: nat) {
    exists i | 0 <= i < |columns| :: columns[i].idx == idx
  }

  function WatermarkColumns(source: seq<string>, plan: seq<PlanColumn>, watermark: Option<string>): seq<Guarded> {
    match watermark
    case None => []
    case Some(w) =>
      var i := Position(source, n => n == w);
      if i < |source| && i < |plan| && !plan[i].nullable then [Guarded(i, plan[i].name, w, NullWatermark)] else []
  }

  /** The guarded columns after the keys: each key's column once, in key order, after `columns`. */
  function KeyColumns(plan: seq<PlanColumn>, keys: seq<string>, columns: seq<Guarded>): seq<Guarded> {
    if keys == [] then columns
    else
      var before := KeyColumns(plan, keys[..|keys| - 1], columns);
      var key := keys[|keys| - 1];
      var i := KeyColumn(plan, key);
      if i == |plan| || IsGuarded(before, i) then before
      else before + [Guarded(i, plan[i].name, key, NullKey)]
  }

  /** The first option that makes a column NOT NULL. */
  function OptionOf(cfg: Config, dest: DestKind, name: string): Option<NotNullBy> {
    if name in cfg.orderBy then Some(ByOrderBy)
    else if name in cfg.primaryKey then Some(ByPrimaryKey)
    else if name in cfg.notNull then Some(ByNotNull)
    else if dest.ClickHouse? && name in cfg.engine then Some(ByEngine)
    else None
  }

  /** Whether a plan column takes a default. */
  predicate TakesDefault(plan: seq<PlanColumn>, cfg: Config, dest: DestKind, columns: seq<Guarded>, i: nat)
    requires i < |plan|
  {
    !plan[i].nullable && !IsGuarded(columns, i) && OptionOf(cfg, dest, plan[i].name).Some?
  }

  function DefaultedColumns(plan: seq<PlanColumn>, cfg: Config, dest: DestKind, columns: seq<Guarded>, n: nat)
    : seq<Defaulted>
    requires n <= |plan|
  {
    if n == 0 then []
    else
      var before := DefaultedColumns(plan, cfg, dest, columns, n - 1);
      if TakesDefault(plan, cfg, dest, columns, n - 1) then
        before + [Defaulted(n - 1, plan[n - 1].name, OptionOf(cfg, dest, plan[n - 1].name).value,
                            if dest.ClickHouse? then plan[n - 1].textDefault else None)]
      else before
  }

  function GuardOf(source: seq<string>, plan: seq<PlanColumn>, cfg: Config, dest: DestKind): Option<Guard> {
    if dest.Csv? then None
    else
      var columns := KeyColumns(plan, cfg.key, WatermarkColumns(source, plan, cfg.watermark));
      var defaulted := DefaultedColumns(plan, cfg, dest, columns, |plan|);
      if columns == [] && defaulted == [] then None else Some(Guard(columns, defaulted))
  }

  method New(source: seq<string>, plan: seq<PlanColumn>, cfg: Config, dest: DestKind)
    returns (r: Option<Guard>)
    ensures r == GuardOf(source, plan, cfg, dest)
  {
    if dest.Csv? { return None; }
    var columns := WatermarkColumns(source, plan, cfg.watermark);
    ghost var first := columns;
    for k := 0 to |cfg.key|
      invariant columns == KeyColumns(plan, cfg.key[..k], first)
    {
      assert cfg.key[..k + 1][..k] == cfg.key[..k];
      var i := KeyColumn(plan, cfg.key[k]);
      if i == |plan| { continue; }
      if IsGuarded(columns, i) { continue; }
      columns := columns + [Guarded(i, plan[i].name, cfg.key[k], NullKey)];
    }
    assert cfg.key[..|cfg.key|] == cfg.key;
    var defaulted: seq<Defaulted> := [];
    for i := 0 to |plan|
      invariant defaulted == DefaultedColumns(plan, cfg, dest, columns, i)
    {
      var d := plan[i];
      if d.nullable || IsGuarded(columns, i) { continue; }
      var because := OptionOf(cfg, dest, d.name);
      if because.None? { continue; }
      defaulted := defaulted + [Defaulted(i, d.name, because.value, if dest.ClickHouse? then d.textDefault else None)];
    }
    return if columns == [] && defaulted == [] then None else Some(Guard(columns, defaulted));
  }

  /** No column is checked twice. */
  predicate Disjoint(g: Guard) {
    && (forall i, j | 0 <= i < j < |g.columns| :: g.columns[i].idx != g.columns[j].idx)
    && (forall i, j | 0 <= i < j < |g.defaulted| :: g.defaulted[i].idx < g.defaulted[j].idx)
    && (forall i, j | 0 <= i < |g.columns| && 0 <= j < |g.defaulted| :: g.columns[i].idx != g.defaulted[j].idx)
  }

  predicate Checks(g: Guard, idx: nat) {
    IsGuarded(g.columns, idx) || exists j | 0 <= j < |g.defaulted| :: g.defaulted[j].idx == idx
  }

  predicate DistinctBelow(columns: seq<Guarded>, n: nat) {
    && (forall i | 0 <= i < |columns| :: columns[i].idx < n)
    && (forall i, j | 0 <= i < j < |columns| :: columns[i].idx != columns[j].idx)
  }

  lemma {:induction false} KeyColumnsDistinct(plan: seq<PlanColumn>, keys: seq<string>, columns: seq<Guarded>)
    requires DistinctBelow(columns, |plan|)
    ensures columns <= KeyColumns(plan, keys, columns) && DistinctBelow(KeyColumns(plan, keys, columns), |plan|)
  {
    if keys != [] {
      KeyColumnsDistinct(plan, keys[..|keys| - 1], columns);
    }
  }

  lemma {:induction false} KeyIsGuarded(plan: seq<PlanColumn>, keys: seq<string>, columns: seq<Guarded>, k: nat)
    requires k < |keys| && KeyColumn(plan, keys[k]) < |plan|
    ensures IsGuarded(KeyColumns(plan, keys, columns), KeyColumn(plan, keys[k]))
  {
    var n := |keys| - 1;
    var before, out := KeyColumns(plan, keys[..n], columns), KeyColumns(plan, keys, columns);
    var at := KeyColumn(plan, keys[k]);
    if k < n {
      KeyIsGuarded(plan, keys[..n], columns, k);
    }
    if IsGuarded(before, at) {
      var i :| 0 <= i < |before| && before[i].idx == at;
      assert out[i].idx == at;
    } else {
      assert out[|before|].idx == at;
    }
  }

  /** `out` lists columns below `n` that take a default, in plan order. */
  predicate InPlanOrder(plan: seq<PlanColumn>, cfg: Config, dest: DestKind, columns: seq<Guarded>, n: nat,
                        out: seq<Defaulted>)
    requires n <= |plan|
  {
    && (forall j | 0 <= j < |out| :: out[j].idx < n && TakesDefault(plan, cfg, dest, columns, out[j].idx))
    && (forall i, j | 0 <= i < j < |out| :: out[i].idx < out[j].idx)
  }

  lemma {:induction false} DefaultedInPlanOrder(plan: seq<PlanColumn>, cfg: Config, dest: DestKind,
                                                columns: seq<Guarded>, n: nat)
    requires n <= |plan|
    ensures InPlanOrder(plan, cfg, dest, columns, n, DefaultedColumns(plan, cfg, dest, columns, n))
  {
    if n > 0 {
      DefaultedInPlanOrder(plan, cfg, dest, columns, n - 1);
    }
  }

  lemma {:induction false} DefaultedIsListed(plan: seq<PlanColumn>, cfg: Config, dest: DestKind, columns: seq<Guarded>,
                                             n: nat, i: nat) returns (j: nat)
    requires i < n <= |plan| && TakesDefault(plan, cfg, dest, columns, i)
    ensures j < |DefaultedColumns(plan, cfg, dest, columns, n)|
    ensures DefaultedColumns(plan, cfg, dest, columns, n)[j].idx == i
  {
    if i < n - 1 {
      j := DefaultedIsListed(plan, cfg, dest, columns, n - 1, i);
    } else {
      j := |DefaultedColumns(plan, cfg, dest, columns, n - 1)|;
    }
  }

  lemma {:induction false} GuardedByKey(plan: seq<PlanColumn>, keys: seq<string>, columns: seq<Guarded>, i: nat)
    requires IsGuarded(KeyColumns(plan, keys, columns), i)
    ensures IsGuarded(columns, i) || exists k | 0 <= k < |keys| :: KeyColumn(plan, keys[k]) == i
  {
    if keys != [] {
      var n := |keys| - 1;
      var before, out := KeyColumns(plan, keys[..n], columns), KeyColumns(plan, keys, columns);
      if IsGuarded(before, i) {
        GuardedByKey(plan, keys[..n], columns, i);
        if k :| 0 <= k < n && KeyColumn(plan, keys[..n][k]) == i {
          assert KeyColumn(plan, keys[k]) == i;
        }
      } else {
        var at :| 0 <= at < |out| && out[at].idx == i;
        assert KeyColumn(plan, keys[n]) == i;
      }
    }
  }

  /** The watermark's column, which is only checked where it can't be NULL. */
  predicate ByWatermark(source: seq<string>, plan: seq<PlanColumn>, cfg: Config, i: nat)
    requires i < |plan|
  {
    cfg.watermark.Some? && Position(source, n => n == cfg.watermark.value) == i < |source| && !plan[i].nullable
  }

  /** A key's column, nullable or not. */
  predicate ByKey(plan: seq<PlanColumn>, cfg: Config, i: nat) {
    exists k | 0 <= k < |cfg.key| :: KeyColumn(plan, cfg.key[k]) == i
  }

  /** A column an option makes NOT NULL. */
  predicate ByOption(plan: seq<PlanColumn>, cfg: Config, dest: DestKind, i: nat)
    requires i < |plan|
  {
    !plan[i].nullable && OptionOf(cfg, dest, plan[i].name).Some?
  }

  lemma GuardedExactly(source: seq<string>, plan: seq<PlanColumn>, cfg: Config, i: nat)
    requires i < |plan|
    ensures IsGuarded(KeyColumns(plan, cfg.key, WatermarkColumns(source, plan, cfg.watermark)), i)
       <==> ByWatermark(source, plan, cfg, i) || ByKey(plan, cfg, i)
  {
    var first := WatermarkColumns(source, plan, cfg.watermark);
    WatermarkExactly(source, plan, cfg, i);
    if IsGuarded(KeyColumns(plan, cfg.key, first), i) {
      GuardedByKey(plan, cfg.key, first, i);
    }
    if IsGuarded(first, i) {
      StaysGuarded(plan, cfg.key, first, i);
    }
    if ByKey(plan, cfg, i) {
      NeedsGuard(plan, cfg, first, i);
    }
  }

  lemma WatermarkExactly(source: seq<string>, plan: seq<PlanColumn>, cfg: Config, i: nat)
    requires i < |plan|
    ensures IsGuarded(WatermarkColumns(source, plan, cfg.watermark), i) <==> ByWatermark(source, plan, cfg, i)
  {
    if ByWatermark(source, plan, cfg, i) {
      assert WatermarkColumns(source, plan, cfg.watermark)[0].idx == i;
    }
  }

  lemma StaysGuarded(plan: seq<PlanColumn>, keys: seq<string>, columns: seq<Guarded>, i: nat)
    requires DistinctBelow(columns, |plan|) && IsGuarded(columns, i)
    ensures IsGuarded(KeyColumns(plan, keys, columns), i)
  {
    KeyColumnsDistinct(plan, keys, columns);
    var at :| 0 <= at < |columns| && columns[at].idx == i;
    assert KeyColumns(plan, keys, columns)[at] == columns[at];
  }

  lemma NeedsGuard(plan: seq<PlanColumn>, cfg: Config, columns: seq<Guarded>, i: nat)
    requires i < |plan| && ByKey(plan, cfg, i)
    ensures IsGuarded(KeyColumns(plan, cfg.key, columns), i)
  {
    var k: nat :| k < |cfg.key| && KeyColumn(plan, cfg.key[k]) == i;
    KeyIsGuarded(plan, cfg.key, columns, k);
  }

  lemma DefaultedExactly(plan: seq<PlanColumn>, cfg: Config, dest: DestKind, columns: seq<Guarded>, i: nat)
    requires i < |plan|
    ensures TakesDefault(plan, cfg, dest, columns, i)
       <==> exists j | 0 <= j < |DefaultedColumns(plan, cfg, dest, columns, |plan|)| ::
              DefaultedColumns(plan, cfg, dest, columns, |plan|)[j].idx == i
  {
    DefaultedInPlanOrder(plan, cfg, dest, columns, |plan|);
    if TakesDefault(plan, cfg, dest, columns, i) {
      var j := DefaultedIsListed(plan, cfg, dest, columns, |plan|, i);
    }
  }

  /** The guard checks exactly the columns that have to be: the watermark's where it can't be NULL, the keys'
      nullable or not, and each other column an option makes NOT NULL. */
  lemma {:induction false} ChecksExactly(source: seq<string>, plan: seq<PlanColumn>, cfg: Config, dest: DestKind,
                                         i: nat)
    requires i < |plan| && !dest.Csv?
    ensures GuardOf(source, plan, cfg, dest).Some? && Checks(GuardOf(source, plan, cfg, dest).value, i)
       <==> ByWatermark(source, plan, cfg, i) || ByKey(plan, cfg, i) || ByOption(plan, cfg, dest, i)
  {
    var columns := KeyColumns(plan, cfg.key, WatermarkColumns(source, plan, cfg.watermark));
    GuardedExactly(source, plan, cfg, i);
    DefaultedExactly(plan, cfg, dest, columns, i);
    assert TakesDefault(plan, cfg, dest, columns, i) <==> !IsGuarded(columns, i) && ByOption(plan, cfg, dest, i);
  }

  lemma {:induction false} GuardIsDisjoint(source: seq<string>, plan: seq<PlanColumn>, cfg: Config, dest: DestKind)
    requires GuardOf(source, plan, cfg, dest).Some?
    ensures Disjoint(GuardOf(source, plan, cfg, dest).value)
    ensures forall i: nat | Checks(GuardOf(source, plan, cfg, dest).value, i) :: i < |plan|
  {
    var first := WatermarkColumns(source, plan, cfg.watermark);
    KeyColumnsDistinct(plan, cfg.key, first);
    var columns := KeyColumns(plan, cfg.key, first);
    DefaultedInPlanOrder(plan, cfg, dest, columns, |plan|);
    var defaulted := DefaultedColumns(plan, cfg, dest, columns, |plan|);
    assert GuardOf(source, plan, cfg, dest) == Some(Guard(columns, defaulted));
    forall i, j | 0 <= i < |columns| && 0 <= j < |defaulted| ensures columns[i].idx != defaulted[j].idx {
      assert TakesDefault(plan, cfg, dest, columns, defaulted[j].idx);
    }
  }
}
