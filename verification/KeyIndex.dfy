/** The index `diff` builds of a side's rows: a place for every key, the keys by first appearance, and the
    duplicated ones (crates/quickhouse-core/src/reconcile_values.rs). */
module KeyIndex {
  import opened Options
  import opened ValueKeys
  import opened Collections

  /** A row's cells, the key first. */
  type Row = c: seq<Cell> | |c| > 0 witness [Null]

  function KeyAt(row: Row): Option<KeyValue> { KeyOf(row[0]) }

  // ----- of a sequence of rows -----

  /** How often a key occurs. */
  function Count(rows: seq<Row>, k: KeyValue): nat {
    if rows == [] then 0
    else Count(rows[..|rows| - 1], k) + (if KeyAt(rows[|rows| - 1]) == Some(k) then 1 else 0)
  }

  /** Whether a row's key is one no row of `before` has. */
  predicate IsNew(before: seq<Row>, row: Row) {
    KeyAt(row).Some? && Count(before, KeyAt(row).value) == 0
  }

  function IfNew(before: seq<Row>, row: Row): seq<KeyValue> {
    if IsNew(before, row) then [KeyAt(row).value] else []
  }

  /** The keys in the order they first appear. */
  function Order(rows: seq<Row>): seq<KeyValue> {
    if rows == [] then []
    else Order(rows[..|rows| - 1]) + IfNew(rows[..|rows| - 1], rows[|rows| - 1])
  }

  /** Where a key first appears. */
  function First(rows: seq<Row>, k: KeyValue): (i: nat)
    requires Count(rows, k) > 0
    ensures i < |rows| && KeyAt(rows[i]) == Some(k)
    ensures forall j | 0 <= j < i :: KeyAt(rows[j]) != Some(k)
  {
    var n := |rows| - 1;
    if Count(rows[..n], k) > 0 then First(rows[..n], k)
    else
      NotBefore(rows[..n], k);
      n
  }

  lemma {:induction false} NotBefore(rows: seq<Row>, k: KeyValue)
    requires Count(rows, k) == 0
    ensures forall j | 0 <= j < |rows| :: KeyAt(rows[j]) != Some(k)
  {
    if rows != [] {
      NotBefore(rows[..|rows| - 1], k);
    }
  }

  /** The keys that occur, and those that occur more than once. */
  function Keys(rows: seq<Row>): set<KeyValue> { set k | k in Order(rows) }

  function Dups(rows: seq<Row>): set<KeyValue> { set k | k in Order(rows) && Count(rows, k) > 1 }

  lemma {:induction false} OrderIs(rows: seq<Row>)
    ensures forall k :: k in Order(rows) <==> Count(rows, k) > 0
    ensures forall i, j | 0 <= i < j < |Order(rows)| :: Order(rows)[i] != Order(rows)[j]
  {
    if rows != [] {
      var n := |rows| - 1;
      OrderIs(rows[..n]);
    }
  }

  predicate OrderedByFirst(rows: seq<Row>, order: seq<KeyValue>) {
    && (forall i | 0 <= i < |order| :: Count(rows, order[i]) > 0)
    && (forall i, j | 0 <= i < j < |order| :: First(rows, order[i]) < First(rows, order[j]))
  }

  lemma {:induction false} OrderAscends(rows: seq<Row>)
    ensures OrderedByFirst(rows, Order(rows))
  {
    OrderIs(rows);
    if rows != [] {
      var init := rows[..|rows| - 1];
      OrderAscends(init);
      OrderIs(init);
      forall i | 0 <= i < |Order(init)|
        ensures First(rows, Order(init)[i]) == First(init, Order(init)[i])
      {
        assert Order(init)[i] in Order(init);
      }
    }
  }

  // ----- of batches of rows -----

  datatype Loc = Loc(batch: nat, row: nat)

  datatype Index = Index(first: map<KeyValue, Loc>, order: seq<KeyValue>, dups: set<KeyValue>)

  predicate ValidLoc(batches: seq<seq<Row>>, at: Loc) {
    at.batch < |batches| && at.row < |batches[at.batch]|
  }

  function RowAt(batches: seq<seq<Row>>, at: Loc): Row
    requires ValidLoc(batches, at)
  {
    batches[at.batch][at.row]
  }

  /** A place's position in the side's rows. */
  function FlatAt(batches: seq<seq<Row>>, at: Loc): nat
    requires ValidLoc(batches, at)
  {
    |Flatten(batches[..at.batch])| + at.row
  }

  lemma {:induction false} FlatRow(batches: seq<seq<Row>>, at: Loc)
    requires ValidLoc(batches, at)
    ensures FlatAt(batches, at) < |Flatten(batches)| && Flatten(batches)[FlatAt(batches, at)] == RowAt(batches, at)
  {
    FlattenMore(batches, at.batch);
    assert batches == batches[..at.batch + 1] + batches[at.batch + 1..];
    FlattenConcat(batches[..at.batch + 1], batches[at.batch + 1..]);
  }

  /** `first` gives the place of each key's first row. */
  ghost predicate Places(batches: seq<seq<Row>>, rows: seq<Row>, first: map<KeyValue, Loc>) {
    && (forall k :: k in first <==> Count(rows, k) > 0)
    && (forall k | k in first :: ValidLoc(batches, first[k]) && FlatAt(batches, first[k]) == First(rows, k)
                                 && RowAt(batches, first[k]) == rows[First(rows, k)])
  }

  /** The index of the rows read so far. */
  ghost predicate Indexes(batches: seq<seq<Row>>, rows: seq<Row>, index: Index) {
    && Places(batches, rows, index.first)
    && index.order == Order(rows) && index.dups == Dups(rows)
  }

  /** The index once one more row is read. */
  function Indexed(index: Index, row: Row, at: Loc): Index {
    match KeyAt(row)
    case None => index
    case Some(k) =>
      if k in index.first then index.(dups := index.dups + {k})
      else index.(first := index.first[k := at], order := index.order + [k])
  }

  lemma PlacesStep(batches: seq<seq<Row>>, rows: seq<Row>, first: map<KeyValue, Loc>, row: Row, at: Loc)
    requires Places(batches, rows, first)
    requires ValidLoc(batches, at) && RowAt(batches, at) == row && FlatAt(batches, at) == |rows|
    ensures Places(batches, rows + [row], if IsNew(rows, row) then first[KeyAt(row).value := at] else first)
  {
    var all := rows + [row];
    assert all[..|rows|] == rows;
    var next := if IsNew(rows, row) then first[KeyAt(row).value := at] else first;
    forall k | k in next
      ensures Count(all, k) > 0 && ValidLoc(batches, next[k]) && FlatAt(batches, next[k]) == First(all, k)
      ensures RowAt(batches, next[k]) == all[First(all, k)]
    {
    }
  }

  lemma DupsStep(rows: seq<Row>, row: Row)
    ensures Dups(rows + [row])
         == if KeyAt(row).Some? && Count(rows, KeyAt(row).value) > 0 then Dups(rows) + {KeyAt(row).value}
            else Dups(rows)
    ensures Order(rows + [row]) == Order(rows) + IfNew(rows, row)
  {
    var all := rows + [row];
    assert all[..|rows|] == rows;
    OrderIs(all);
    OrderIs(rows);
  }

  lemma IndexStep(batches: seq<seq<Row>>, rows: seq<Row>, index: Index, row: Row, at: Loc)
    requires Indexes(batches, rows, index)
    requires ValidLoc(batches, at) && RowAt(batches, at) == row && FlatAt(batches, at) == |rows|
    ensures Indexes(batches, rows + [row], Indexed(index, row, at))
  {
    PlacesStep(batches, rows, index.first, row, at);
    DupsStep(rows, row);
  }

  /** One batch's rows, the body of `KeyIndex::build`'s outer loop. */
  method BuildBatch(batches: seq<seq<Row>>, b: nat, before: Index, ghost rows: seq<Row>) returns (index: Index)
    requires b < |batches| && rows == Flatten(batches[..b]) && Indexes(batches, rows, before)
    ensures Indexes(batches, rows + batches[b], index)
  {
    index := before;
    assert rows + batches[b][..0] == rows;
    for row := 0 to |batches[b]|
      invariant Indexes(batches, rows + batches[b][..row], index)
    {
      NextRow(batches, b, row, rows, index);
      var k := KeyValueOf(batches[b][row][0]);
      index := match k
        case None => index
        case Some(k) =>
          if k in index.first then index.(dups := index.dups + {k})
          else index.(first := index.first[k := Loc(b, row)], order := index.order + [k]);
    }
    assert batches[b][..|batches[b]|] == batches[b];
  }

  lemma NextRow(batches: seq<seq<Row>>, b: nat, row: nat, rows: seq<Row>, index: Index)
    requires b < |batches| && row < |batches[b]| && rows == Flatten(batches[..b])
    requires Indexes(batches, rows + batches[b][..row], index)
    ensures Indexes(batches, rows + batches[b][..row + 1], Indexed(index, batches[b][row], Loc(b, row)))
  {
    IndexStep(batches, rows + batches[b][..row], index, batches[b][row], Loc(b, row));
    assert rows + batches[b][..row + 1] == (rows + batches[b][..row]) + [batches[b][row]];
  }

  /** `KeyIndex::build`. */
  method Build(batches: seq<seq<Row>>) returns (index: Index)
    ensures Indexes(batches, Flatten(batches), index)
  {
    index := Index(map[], [], {});
    for b := 0 to |batches|
      invariant Indexes(batches, Flatten(batches[..b]), index)
    {
      index := BuildBatch(batches, b, index, Flatten(batches[..b]));
      FlattenMore(batches, b);
    }
    assert batches[..|batches|] == batches;
  }
}
