/** One row per key from a frame: a sort, a re-numbering, a maximum per group and a mask, and why that is
    the best row of each key (python/quickhouse/pandas.py). */
module FrameDedup {
  import opened Options
  import opened Collections

  type Key = seq<Option<string>>

  /** A row's key columns, its watermark (never NULL), and everything else in it. */
  datatype Row = Row(key: Key, watermark: int, rest: string)

  /** A row with the ordinal column appended. */
  datatype Numbered = Numbered(row: Row, ordinal: nat)

  // ----- the pipeline -----

  predicate NullKey(r: Row) { exists i | 0 <= i < |r.key| :: r.key[i] == None }

  function WithNullKey(rows: seq<Row>, wanted: bool): seq<Row> {
    if rows == [] then []
    else WithNullKey(rows[..|rows| - 1], wanted) + IfNullKey(rows[|rows| - 1], wanted)
  }

  function IfNullKey(row: Row, wanted: bool): seq<Row> {
    if NullKey(row) == wanted then [row] else []
  }

  /** The ascending order of (watermark, ordinal). */
  predicate Before(a: Numbered, b: Numbered) {
    a.row.watermark < b.row.watermark || (a.row.watermark == b.row.watermark && a.ordinal < b.ordinal)
  }

  function Insert(x: Numbered, sorted: seq<Numbered>): (r: seq<Numbered>)
    ensures |r| == |sorted| + 1
  {
    if sorted == [] || Before(x, sorted[0]) then [x] + sorted else [sorted[0]] + Insert(x, sorted[1..])
  }

  /** The first `n` rows, numbered and sorted. */
  function SortBy(rows: seq<Row>, n: nat): (r: seq<Numbered>)
    requires n <= |rows|
    ensures |r| == n
  {
    if n == 0 then [] else Insert(Numbered(rows[n - 1], n - 1), SortBy(rows, n - 1))
  }

  function Number(rows: seq<Row>): (r: seq<Numbered>)
    ensures |r| == |rows| && forall i | 0 <= i < |rows| :: r[i] == Numbered(rows[i], i)
  {
    seq(|rows|, i requires 0 <= i < |rows| => Numbered(rows[i], i))
  }

  /** The ordinal column dropped and a fresh one appended. */
  function Renumber(table: seq<Numbered>): (r: seq<Numbered>)
    ensures |r| == |table| && forall i | 0 <= i < |table| :: r[i] == Numbered(table[i].row, i)
  {
    seq(|table|, i requires 0 <= i < |table| => Numbered(table[i].row, i))
  }

  /** `group_by(key).aggregate([(ordinal, "max")])`. */
  function GroupMax(table: seq<Numbered>): map<Key, nat> {
    if table == [] then map[]
    else
      var before, last := GroupMax(table[..|table| - 1]), table[|table| - 1];
      var key := last.row.key;
      before[key := if key in before && before[key] > last.ordinal then before[key] else last.ordinal]
  }

  function Masked(table: seq<Numbered>, wanted: set<nat>): seq<Row> {
    if table == [] then []
    else
      var last := table[|table| - 1];
      Masked(table[..|table| - 1], wanted) + (if last.ordinal in wanted then [last.row] else [])
  }

  /** The rows in the order the ordinals are taken over. */
  function Ordered(rows: seq<Row>, watermark: bool): (r: seq<Numbered>)
    ensures |r| == |rows|
  {
    if watermark then SortBy(rows, |rows|) else Number(rows)
  }

  /** The frame's rows without a NULL key, deduplicated. */
  function DedupeKeyed(table: seq<Row>, watermark: bool): seq<Row> {
    var withOrd := Renumber(Ordered(table, watermark));
    var keep := GroupMax(withOrd);
    if |table| == |keep| then table else Masked(withOrd, keep.Values)
  }

  /** `_dedupe_on_key`. */
  function Dedupe(rows: seq<Row>, watermark: bool): seq<Row> {
    DedupeKeyed(WithNullKey(rows, false), watermark) + WithNullKey(rows, true)
  }

  // ----- best row per key -----

  /** Row `p` loses to row `q`: by position alone, or by watermark and then position. */
  predicate Loses(rows: seq<Row>, watermark: bool, p: nat, q: nat)
    requires p < |rows| && q < |rows|
  {
    if watermark && rows[p].watermark != rows[q].watermark then rows[p].watermark < rows[q].watermark else p < q
  }

  /** Every other row with its key loses to row `p`. */
  predicate Best(rows: seq<Row>, watermark: bool, p: nat)
    requires p < |rows|
  {
    forall q | 0 <= q < |rows| && q != p && rows[q].key == rows[p].key :: Loses(rows, watermark, q, p)
  }

  // ----- the order -----

  predicate Sorted(table: seq<Numbered>) {
    forall i, j | 0 <= i < j < |table| :: Before(table[i], table[j])
  }

  lemma {:induction false} InsertHolds(x: Numbered, sorted: seq<Numbered>)
    ensures forall y :: y in Insert(x, sorted) <==> y == x || y in sorted
  {
    if sorted != [] && !Before(x, sorted[0]) {
      InsertHolds(x, sorted[1..]);
      assert sorted == [sorted[0]] + sorted[1..];
    }
  }

  lemma {:induction false} InsertSorts(x: Numbered, sorted: seq<Numbered>)
    requires Sorted(sorted) && forall y | y in sorted :: y.ordinal != x.ordinal
    ensures Sorted(Insert(x, sorted))
  {
    if sorted != [] && !Before(x, sorted[0]) {
      InsertSorts(x, sorted[1..]);
      InsertHolds(x, sorted[1..]);
      var rest := Insert(x, sorted[1..]);
      forall j | 0 <= j < |rest| ensures Before(sorted[0], rest[j]) {
        assert rest[j] in rest;
      }
    }
  }

  /** The first `n` rows, each numbered by its position. */
  predicate NumberedRow(rows: seq<Row>, n: nat, y: Numbered) {
    y.ordinal < n && y.ordinal < |rows| && y.row == rows[y.ordinal]
  }

  lemma {:induction false} SortIs(rows: seq<Row>, n: nat)
    requires n <= |rows|
    ensures Sorted(SortBy(rows, n))
    ensures forall y :: y in SortBy(rows, n) <==> NumberedRow(rows, n, y)
  {
    if n > 0 {
      SortIs(rows, n - 1);
      InsertSorts(Numbered(rows[n - 1], n - 1), SortBy(rows, n - 1));
      InsertHolds(Numbered(rows[n - 1], n - 1), SortBy(rows, n - 1));
    }
  }

  /** Rearranged positions: each row once, every loser before its winner. */
  predicate Arranges(rows: seq<Row>, watermark: bool, at: seq<nat>) {
    && |at| == |rows| && (forall i | 0 <= i < |at| :: at[i] < |rows|)
    && (forall i, j | 0 <= i < j < |at| :: Loses(rows, watermark, at[i], at[j]))
    && (forall p | 0 <= p < |rows| :: p in at)
  }

  lemma OrderedArranges(rows: seq<Row>, watermark: bool) returns (at: seq<nat>)
    ensures Arranges(rows, watermark, at)
    ensures forall i | 0 <= i < |rows| :: Ordered(rows, watermark)[i].row == rows[at[i]]
  {
    var table := Ordered(rows, watermark);
    if watermark {
      SortIs(rows, |rows|);
    }
    forall i | 0 <= i < |table| ensures NumberedRow(rows, |rows|, table[i]) {
      assert table[i] in table;
    }
    at := seq(|rows|, i requires 0 <= i < |rows| => table[i].ordinal);
    forall p | 0 <= p < |rows| ensures p in at {
      assert NumberedRow(rows, |rows|, Numbered(rows[p], p));
      if !watermark { assert table[p].ordinal == p; }
      assert Numbered(rows[p], p) in table;
      var i :| 0 <= i < |table| && table[i] == Numbered(rows[p], p);
      assert at[i] == p;
    }
  }

  // ----- the maximum per group -----

  /** `m` has the last position of each key. */
  predicate LastOfKeys(table: seq<Numbered>, m: map<Key, nat>) {
    && (forall k | k in m :: m[k] < |table| && table[m[k]].row.key == k)
    && (forall j | 0 <= j < |table| :: table[j].row.key in m && j <= m[table[j].row.key])
  }

  lemma {:induction false} GroupMaxIsLast(table: seq<Numbered>)
    requires forall i | 0 <= i < |table| :: table[i].ordinal == i
    ensures LastOfKeys(table, GroupMax(table))
  {
    if table != [] {
      var n := |table| - 1;
      GroupMaxIsLast(table[..n]);
      var before := GroupMax(table[..n]);
      assert forall k | k in before :: before[k] < n && table[..n][before[k]] == table[before[k]];
      assert forall j | 0 <= j < n :: table[..n][j] == table[j];
    }
  }

  predicate DistinctKeys(rows: seq<Row>) {
    forall i, j | 0 <= i < j < |rows| :: rows[i].key != rows[j].key
  }

  function RowsOf(table: seq<Numbered>): (r: seq<Row>)
    ensures |r| == |table| && forall i | 0 <= i < |table| :: r[i] == table[i].row
  {
    seq(|table|, i requires 0 <= i < |table| => table[i].row)
  }

  function KeysOf(rows: seq<Row>): set<Key> {
    if rows == [] then {} else KeysOf(rows[..|rows| - 1]) + {rows[|rows| - 1].key}
  }

  lemma {:induction false} GroupKeys(table: seq<Numbered>)
    ensures GroupMax(table).Keys == KeysOf(RowsOf(table))
  {
    if table != [] {
      var n := |table| - 1;
      GroupKeys(table[..n]);
      assert RowsOf(table)[..n] == RowsOf(table[..n]);
    }
  }

  lemma {:induction false} KeyIn(rows: seq<Row>, k: Key)
    ensures k in KeysOf(rows) <==> exists i | 0 <= i < |rows| :: rows[i].key == k
  {
    if rows != [] {
      var n := |rows| - 1;
      KeyIn(rows[..n], k);
      if i :| 0 <= i < |rows| && rows[i].key == k {
        assert i < n ==> rows[..n][i].key == k;
      }
    }
  }

  lemma {:induction false} KeysSize(rows: seq<Row>)
    ensures |KeysOf(rows)| <= |rows|
    ensures |KeysOf(rows)| == |rows| <==> DistinctKeys(rows)
  {
    if rows != [] {
      var n := |rows| - 1;
      var before, key := KeysOf(rows[..n]), rows[n].key;
      KeysSize(rows[..n]);
      KeyIn(rows[..n], key);
      if key in before {
        assert before + {key} == before;
        var i :| 0 <= i < n && rows[..n][i].key == key;
        assert rows[i].key == rows[n].key;
      } else {
        assert forall i | 0 <= i < n :: rows[..n][i].key == rows[i].key;
      }
    }
  }

  // ----- the mask -----

  /** The places below `n` that the mask keeps, in order. */
  function Places(wanted: set<nat>, n: nat): seq<nat> {
    if n == 0 then [] else Places(wanted, n - 1) + (if n - 1 in wanted then [n - 1] else [])
  }

  lemma {:induction false} PlacesAre(wanted: set<nat>, n: nat)
    ensures Ascending(Places(wanted, n), n)
    ensures forall i :: i in Places(wanted, n) <==> 0 <= i < n && i in wanted
  {
    if n > 0 {
      PlacesAre(wanted, n - 1);
    }
  }

  lemma {:induction false} MaskPicks(table: seq<Numbered>, wanted: set<nat>)
    requires forall i | 0 <= i < |table| :: table[i].ordinal == i
    ensures Ascending(Places(wanted, |table|), |table|)
    ensures Masked(table, wanted) == Pick(RowsOf(table), Places(wanted, |table|))
  {
    PlacesAre(wanted, |table|);
    if table != [] {
      var n := |table| - 1;
      MaskPicks(table[..n], wanted);
      PlacesAre(wanted, n);
      MaskOneMore(table, wanted);
    }
  }

  lemma MaskOneMore(table: seq<Numbered>, wanted: set<nat>)
    requires table != []
    requires Ascending(Places(wanted, |table| - 1), |table| - 1) && Ascending(Places(wanted, |table|), |table|)
    ensures Pick(RowsOf(table), Places(wanted, |table|))
         == Pick(RowsOf(table[..|table| - 1]), Places(wanted, |table| - 1))
            + (if |table| - 1 in wanted then [table[|table| - 1].row] else [])
  {
    var n := |table| - 1;
    assert RowsOf(table)[..n] == RowsOf(table[..n]);
    PickFromPrefix(RowsOf(table), Places(wanted, n), n);
  }

  // ----- the pipeline keeps the best row of each key -----

  /** The arranged places the mask wants are those holding the best row of a key. */
  lemma {:induction false} WantedIsBest(rows: seq<Row>, watermark: bool, at: seq<nat>, table: seq<Numbered>, i: nat)
    requires Arranges(rows, watermark, at) && |table| == |rows| && i < |rows|
    requires forall j | 0 <= j < |rows| :: table[j] == Numbered(rows[at[j]], j)
    ensures i in GroupMax(table).Values <==> Best(rows, watermark, at[i])
  {
    GroupMaxIsLast(table);
    var m, key := GroupMax(table), rows[at[i]].key;
    assert table[i].row.key == key;
    if i in m.Values {
      var k :| k in m && m[k] == i;
      forall q | 0 <= q < |rows| && q != at[i] && rows[q].key == key ensures Loses(rows, watermark, q, at[i]) {
        assert q in at;
        var j :| 0 <= j < |at| && at[j] == q;
        assert table[j].row.key == key;
      }
    } else {
      var last := m[key];
      assert i < last && table[last].row.key == key;
      assert rows[at[last]].key == key && Loses(rows, watermark, at[i], at[last]);
    }
  }

  /** The table with its fresh ordinals, and the arrangement of rows it holds. */
  lemma WithOrdIs(rows: seq<Row>, watermark: bool) returns (at: seq<nat>)
    ensures Arranges(rows, watermark, at)
    ensures forall j | 0 <= j < |rows| :: Renumber(Ordered(rows, watermark))[j] == Numbered(rows[at[j]], j)
  {
    at := OrderedArranges(rows, watermark);
  }

  lemma {:induction false} SameKeysDistinct(rows: seq<Row>, watermark: bool, at: seq<nat>, table: seq<Numbered>)
    requires Arranges(rows, watermark, at) && |table| == |rows|
    requires forall j | 0 <= j < |rows| :: table[j] == Numbered(rows[at[j]], j)
    ensures DistinctKeys(rows) <==> DistinctKeys(RowsOf(table))
  {
    if DistinctKeys(rows) {
      forall i, j | 0 <= i < j < |rows| ensures rows[at[i]].key != rows[at[j]].key {
        assert Loses(rows, watermark, at[i], at[j]);
        assert at[i] != at[j];
      }
    } else {
      var p, q :| 0 <= p < q < |rows| && rows[p].key == rows[q].key;
      assert p in at && q in at;
      var i :| 0 <= i < |at| && at[i] == p;
      var j :| 0 <= j < |at| && at[j] == q;
      assert RowsOf(table)[i].key == RowsOf(table)[j].key;
    }
  }

  /** Places of the arrangement, as positions in the frame. */
  function Positions(at: seq<nat>, places: seq<nat>): (r: seq<nat>)
    requires forall k | 0 <= k < |places| :: places[k] < |at|
    ensures |r| == |places| && forall k | 0 <= k < |places| :: r[k] == at[places[k]]
  {
    seq(|places|, k requires 0 <= k < |places| => at[places[k]])
  }

  /** `winners` are the best rows' positions, each once, every loser before its winner. */
  predicate AreWinners(rows: seq<Row>, watermark: bool, winners: seq<nat>) {
    && (forall k | 0 <= k < |winners| :: winners[k] < |rows|)
    && (forall k, l | 0 <= k < l < |winners| :: Loses(rows, watermark, winners[k], winners[l]))
    && (forall p | 0 <= p < |rows| :: p in winners <==> Best(rows, watermark, p))
  }

  lemma {:induction false} WinnersAre(rows: seq<Row>, watermark: bool, at: seq<nat>, table: seq<Numbered>,
                                      places: seq<nat>)
    requires Arranges(rows, watermark, at) && |table| == |rows|
    requires forall j | 0 <= j < |rows| :: table[j] == Numbered(rows[at[j]], j)
    requires Ascending(places, |rows|)
    requires forall i :: i in places <==> 0 <= i < |rows| && i in GroupMax(table).Values
    ensures AreWinners(rows, watermark, Positions(at, places))
  {
    var winners := Positions(at, places);
    forall p | 0 <= p < |rows| ensures p in winners <==> Best(rows, watermark, p) {
      assert p in at;
      var i :| 0 <= i < |at| && at[i] == p;
      WantedIsBest(rows, watermark, at, table, i);
      if i in places {
        var k :| 0 <= k < |places| && places[k] == i;
        assert winners[k] == p;
      }
      if p in winners {
        var k :| 0 <= k < |winners| && winners[k] == p;
        assert places[k] in places;
        WantedIsBest(rows, watermark, at, table, places[k]);
      }
    }
  }

  lemma KeyedKeepsBest(table: seq<Row>, watermark: bool) returns (winners: seq<nat>)
    ensures AreWinners(table, watermark, winners)
    ensures DedupeKeyed(table, watermark) == if DistinctKeys(table) then table else Pick(table, winners)
  {
    var at := WithOrdIs(table, watermark);
    var withOrd := Renumber(Ordered(table, watermark));
    winners := MaskedAreWinners(table, watermark, at, withOrd);
    NothingDropped(table, watermark, at, withOrd);
  }

  lemma MaskedAreWinners(table: seq<Row>, watermark: bool, at: seq<nat>, withOrd: seq<Numbered>)
    returns (winners: seq<nat>)
    requires Arranges(table, watermark, at) && |withOrd| == |table|
    requires forall j | 0 <= j < |table| :: withOrd[j] == Numbered(table[at[j]], j)
    ensures AreWinners(table, watermark, winners)
    ensures Masked(withOrd, GroupMax(withOrd).Values) == Pick(table, winners)
  {
    var wanted := GroupMax(withOrd).Values;
    var places := Places(wanted, |table|);
    PlacesAre(wanted, |table|);
    WinnersAre(table, watermark, at, withOrd, places);
    winners := Positions(at, places);
    MaskPicks(withOrd, wanted);
    PickTwice(table, at, withOrd, places);
  }

  lemma PickTwice(table: seq<Row>, at: seq<nat>, withOrd: seq<Numbered>, places: seq<nat>)
    requires |withOrd| == |table| == |at| && forall j | 0 <= j < |at| :: at[j] < |table|
    requires forall j | 0 <= j < |table| :: withOrd[j] == Numbered(table[at[j]], j)
    requires forall k | 0 <= k < |places| :: places[k] < |table|
    ensures Pick(RowsOf(withOrd), places) == Pick(table, Positions(at, places))
  {
  }

  lemma NothingDropped(rows: seq<Row>, watermark: bool, at: seq<nat>, table: seq<Numbered>)
    requires Arranges(rows, watermark, at) && |table| == |rows|
    requires forall j | 0 <= j < |rows| :: table[j] == Numbered(rows[at[j]], j)
    ensures |rows| == |GroupMax(table)| <==> DistinctKeys(rows)
  {
    GroupKeys(table);
    KeysSize(RowsOf(table));
    SameKeysDistinct(rows, watermark, at, table);
    assert |GroupMax(table)| == |GroupMax(table).Keys|;
  }

  /** Every row with a NULL key is kept, after exactly the best row of each other key: the rows as they
      were when no key is shared, and otherwise in the order of (watermark, position). */
  lemma {:induction false} DedupeKeepsBest(rows: seq<Row>, watermark: bool) returns (winners: seq<nat>)
    ensures AreWinners(WithNullKey(rows, false), watermark, winners)
    ensures var table := WithNullKey(rows, false);
            Dedupe(rows, watermark)
            == (if DistinctKeys(table) then table else Pick(table, winners)) + WithNullKey(rows, true)
  {
    winners := KeyedKeepsBest(WithNullKey(rows, false), watermark);
  }

  lemma BestExists(rows: seq<Row>, watermark: bool, at: seq<nat>, table: seq<Numbered>, p: nat) returns (best: nat)
    requires Arranges(rows, watermark, at) && |table| == |rows| && p < |rows|
    requires forall j | 0 <= j < |rows| :: table[j] == Numbered(rows[at[j]], j)
    ensures best < |rows| && rows[best].key == rows[p].key && Best(rows, watermark, best)
  {
    assert p in at;
    var i :| 0 <= i < |at| && at[i] == p;
    GroupMaxIsLast(table);
    assert table[i].row.key == rows[p].key;
    var last := GroupMax(table)[rows[p].key];
    WantedIsBest(rows, watermark, at, table, last);
    best := at[last];
  }

  lemma BestIsUnique(rows: seq<Row>, watermark: bool, p: nat, q: nat)
    requires p < |rows| && q < |rows| && rows[p].key == rows[q].key
    requires Best(rows, watermark, p) && Best(rows, watermark, q)
    ensures p == q
  {
    assert p != q ==> Loses(rows, watermark, q, p);
  }

  /** Of the rows sharing a key exactly one is best. */
  lemma {:induction false} OneBestPerKey(rows: seq<Row>, watermark: bool, p: nat) returns (best: nat)
    requires p < |rows|
    ensures best < |rows| && rows[best].key == rows[p].key && Best(rows, watermark, best)
    ensures forall q | 0 <= q < |rows| && rows[q].key == rows[p].key && Best(rows, watermark, q) :: q == best
  {
    var at := WithOrdIs(rows, watermark);
    best := BestExists(rows, watermark, at, Renumber(Ordered(rows, watermark)), p);
    forall q | 0 <= q < |rows| && rows[q].key == rows[p].key && Best(rows, watermark, q) ensures q == best {
      BestIsUnique(rows, watermark, q, best);
    }
  }

  /** The places of the rows that belong in a part. */
  function PartPlaces(rows: seq<Row>, wanted: bool): set<nat> {
    set i: nat | i < |rows| && NullKey(rows[i]) == wanted
  }

  lemma PlacesBelow(rows: seq<Row>, wanted: bool, n: nat)
    requires n <= |rows|
    ensures Ascending(Places(PartPlaces(rows, wanted), n), |rows|)
  {
    PlacesAre(PartPlaces(rows, wanted), n);
  }

  lemma NextPlace(rows: seq<Row>, wanted: bool, n: nat)
    requires n < |rows|
    requires Ascending(Places(PartPlaces(rows, wanted), n), |rows|)
    requires Ascending(Places(PartPlaces(rows, wanted), n + 1), |rows|)
    ensures Pick(rows, Places(PartPlaces(rows, wanted), n + 1))
         == Pick(rows, Places(PartPlaces(rows, wanted), n)) + IfNullKey(rows[n], wanted)
  {
  }

  lemma {:induction false} PartPicks(rows: seq<Row>, wanted: bool, n: nat)
    requires n <= |rows|
    ensures Ascending(Places(PartPlaces(rows, wanted), n), |rows|)
    ensures WithNullKey(rows[..n], wanted) == Pick(rows, Places(PartPlaces(rows, wanted), n))
  {
    PlacesBelow(rows, wanted, n);
    if n > 0 {
      PartPicks(rows, wanted, n - 1);
      NextPart(rows, wanted, n - 1);
      NextPlace(rows, wanted, n - 1);
    }
  }

  lemma NextPart(rows: seq<Row>, wanted: bool, n: nat)
    requires n < |rows|
    ensures WithNullKey(rows[..n + 1], wanted) == WithNullKey(rows[..n], wanted) + IfNullKey(rows[n], wanted)
  {
    assert rows[..n + 1][..n] == rows[..n];
  }

  /** A part is the rows that belong in it, in the frame's order. */
  lemma PartIs(rows: seq<Row>, wanted: bool) returns (at: seq<nat>)
    ensures Ascending(at, |rows|) && WithNullKey(rows, wanted) == Pick(rows, at)
    ensures forall i | 0 <= i < |rows| :: i in at <==> NullKey(rows[i]) == wanted
  {
    at := Places(PartPlaces(rows, wanted), |rows|);
    PlacesAre(PartPlaces(rows, wanted), |rows|);
    PartPicks(rows, wanted, |rows|);
    assert rows[..|rows|] == rows;
  }

  lemma PartOneMore(init: seq<Row>, last: Row, wanted: bool)
    ensures multiset(WithNullKey(init + [last], wanted))
         == multiset(WithNullKey(init, wanted)) + multiset(IfNullKey(last, wanted))
  {
    assert (init + [last])[..|init|] == init;
  }

  /** The two parts are the rows without and with a NULL key, each row once and in order. */
  lemma {:induction false} NullKeysSplitOff(rows: seq<Row>) returns (keyed: seq<nat>, unkeyed: seq<nat>)
    ensures multiset(WithNullKey(rows, false)) + multiset(WithNullKey(rows, true)) == multiset(rows)
    ensures Ascending(keyed, |rows|) && WithNullKey(rows, false) == Pick(rows, keyed)
    ensures Ascending(unkeyed, |rows|) && WithNullKey(rows, true) == Pick(rows, unkeyed)
    ensures forall i | 0 <= i < |rows| :: (i in unkeyed <==> NullKey(rows[i])) && (i in keyed <==> !NullKey(rows[i]))
  {
    keyed := PartIs(rows, false);
    unkeyed := PartIs(rows, true);
    NothingLost(rows);
  }

  lemma {:induction false} NothingLost(rows: seq<Row>)
    ensures multiset(WithNullKey(rows, false)) + multiset(WithNullKey(rows, true)) == multiset(rows)
  {
    if rows != [] {
      var init, last := rows[..|rows| - 1], rows[|rows| - 1];
      NothingLost(init);
      PartOneMore(init, last, false);
      PartOneMore(init, last, true);
      SplitLast(rows);
    }
  }
}
