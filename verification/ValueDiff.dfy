/** Comparing two sides' rows by key, column by column (crates/quickhouse-core/src/reconcile_values.rs). */
module ValueDiff {
  import opened Options
  import opened Collections
  import opened ValueKeys
  import opened KeyIndex

  datatype Column = Column(name: string, rule: Rule, tolerance: real, nullDefault: bool)

  datatype Drift = Drift(column: string, compared: nat, mismatched: nat, nullInDestOnly: nat, nullInSourceOnly: nat,
                         sample: seq<string>)

  datatype DiffResult = DiffResult(sourceRows: nat, destRows: nat, comparedKeys: nat, missingKeys: nat,
                                   orphanKeys: nat, duplicateKeys: nat, columns: seq<Drift>)

  // ----- where the destination read puts a column and its flag -----

  datatype ReadColumn = Key | Value(i: nat) | Flag(i: nat)

  function ValueColumns(n: nat): (r: seq<ReadColumn>)
    ensures |r| == n && forall i | 0 <= i < n :: r[i] == Value(i)
  {
    seq(n, i requires 0 <= i < n => Value(i))
  }

  /** The flags of the first `n` columns: one for each with a NULL default. */
  function Flags(cols: seq<Column>, n: nat): seq<ReadColumn>
    requires n <= |cols|
  {
    if n == 0 then [] else Flags(cols, n - 1) + (if cols[n - 1].nullDefault then [Flag(n - 1)] else [])
  }

  /** The columns `read_dest` selects, in order. */
  function DestLayout(cols: seq<Column>): seq<ReadColumn> {
    [Key] + ValueColumns(|cols|) + Flags(cols, |cols|)
  }

  /** The columns before `n` that have a NULL default. */
  function FlagsBefore(cols: seq<Column>, n: nat): nat
    requires n <= |cols|
  {
    if n == 0 then 0 else FlagsBefore(cols, n - 1) + (if cols[n - 1].nullDefault then 1 else 0)
  }

  /** Where `diff` looks for column `i`'s flag. */
  function FlagAt(cols: seq<Column>, i: nat): nat
    requires i <= |cols|
  {
    1 + |cols| + FlagsBefore(cols, i)
  }

  lemma {:induction false} FlagsCounted(cols: seq<Column>, n: nat, i: nat)
    requires i <= n <= |cols|
    ensures |Flags(cols, n)| == FlagsBefore(cols, n) && FlagsBefore(cols, i) <= FlagsBefore(cols, n)
    ensures i < n && cols[i].nullDefault ==>
              FlagsBefore(cols, i) < FlagsBefore(cols, n) && Flags(cols, n)[FlagsBefore(cols, i)] == Flag(i)
  {
    if n > 0 {
      if i < n {
        FlagsCounted(cols, n - 1, i);
      } else {
        FlagsCounted(cols, n - 1, n - 1);
      }
    }
  }

  /** Each column is compared with the flag the destination read added for it, and with no other column's. */
  lemma {:induction false} FlagIsItsOwn(cols: seq<Column>, i: nat)
    requires i < |cols|
    ensures 1 + i < |DestLayout(cols)| && DestLayout(cols)[1 + i] == Value(i)
    ensures cols[i].nullDefault ==> FlagAt(cols, i) < |DestLayout(cols)| && DestLayout(cols)[FlagAt(cols, i)] == Flag(i)
    ensures |DestLayout(cols)| == FlagAt(cols, |cols|)
  {
    FlagsCounted(cols, |cols|, i);
    FlagsCounted(cols, |cols|, |cols|);
  }

  // ----- the comparison, row by row -----

  predicate AtLeastWide(rows: seq<Row>, width: nat) {
    forall i | 0 <= i < |rows| :: |rows[i]| >= width
  }

  /** Whether a key is compared: not a duplicate on either side, and on both. */
  predicate IsCompared(src: seq<Row>, dst: seq<Row>, k: KeyValue) {
    k !in Dups(src) + Dups(dst) && Count(dst, k) > 0
  }

  function ComparedOf(src: seq<Row>, dst: seq<Row>, order: seq<KeyValue>): seq<KeyValue> {
    if order == [] then []
    else
      var last := order[|order| - 1];
      ComparedOf(src, dst, order[..|order| - 1]) + (if IsCompared(src, dst, last) then [last] else [])
  }

  /** The compared keys, in source order. */
  function Compared(src: seq<Row>, dst: seq<Row>): seq<KeyValue> { ComparedOf(src, dst, Order(src)) }

  type Pair = (Row, Row)

  predicate OnBoth(src: seq<Row>, dst: seq<Row>, keys: seq<KeyValue>) {
    forall i | 0 <= i < |keys| :: Count(src, keys[i]) > 0 && Count(dst, keys[i]) > 0
  }

  /** The rows keys are first found in. */
  function PairsOf(src: seq<Row>, dst: seq<Row>, keys: seq<KeyValue>): (r: seq<Pair>)
    requires OnBoth(src, dst, keys)
    ensures |r| == |keys|
    ensures forall i | 0 <= i < |keys| :: r[i] == (src[First(src, keys[i])], dst[First(dst, keys[i])])
  {
    seq(|keys|, i requires 0 <= i < |keys| => (src[First(src, keys[i])], dst[First(dst, keys[i])]))
  }

  predicate WidePairs(cols: seq<Column>, pairs: seq<Pair>) {
    forall j | 0 <= j < |pairs| :: |pairs[j].0| > |cols| && |pairs[j].1| >= FlagAt(cols, |cols|)
  }

  /** How column `i` of a pair of rows comes out. */
  function OutcomeOf(doubles: Doubles, cols: seq<Column>, i: nat, p: Pair): Outcome
    requires i < |cols| && |p.0| > |cols| && |p.1| >= FlagAt(cols, |cols|)
  {
    FlagIsItsOwn(cols, i);
    Classify(doubles, cols[i].rule, p.0[1 + i], p.1[1 + i],
             cols[i].nullDefault && p.1[FlagAt(cols, i)] == Bool(true), cols[i].tolerance)
  }

  /** A column's counts with one more outcome, of a row whose key reads `shown`. */
  function Tally(d: Drift, outcome: Outcome, shown: string, limit: nat): Drift {
    if outcome == Same then d
    else
      Drift(d.column, d.compared, d.mismatched + 1,
            d.nullInDestOnly + (if outcome == NullInDestOnly then 1 else 0),
            d.nullInSourceOnly + (if outcome == NullInSourceOnly then 1 else 0),
            if |d.sample| < limit then d.sample + [shown] else d.sample)
  }

  /** Column `i`'s drift over the first `n` pairs. */
  function DriftOf(doubles: Doubles, render: Cell -> string, cols: seq<Column>, i: nat, pairs: seq<Pair>, n: nat,
                   limit: nat): Drift
    requires i < |cols| && n <= |pairs| && WidePairs(cols, pairs)
  {
    if n == 0 then Drift(cols[i].name, |pairs|, 0, 0, 0, [])
    else
      Tally(DriftOf(doubles, render, cols, i, pairs, n - 1, limit), OutcomeOf(doubles, cols, i, pairs[n - 1]),
            render(pairs[n - 1].0[0]), limit)
  }

  function Drifts(doubles: Doubles, render: Cell -> string, cols: seq<Column>, pairs: seq<Pair>, limit: nat)
    : (r: seq<Drift>)
    requires WidePairs(cols, pairs)
    ensures |r| == |cols|
    ensures forall i | 0 <= i < |cols| :: r[i] == DriftOf(doubles, render, cols, i, pairs, |pairs|, limit)
  {
    seq(|cols|, i requires 0 <= i < |cols| => DriftOf(doubles, render, cols, i, pairs, |pairs|, limit))
  }

  /** The error for two sides with no key in common. */
  predicate NoOverlap(src: seq<Row>, dst: seq<Row>) {
    Keys(src) != {} && Keys(dst) != {} && |Keys(src) - Keys(dst)| == |Keys(src)|
  }

  /** `diff`, of the rows alone. */
  function DiffRows(doubles: Doubles, render: Cell -> string, cols: seq<Column>, src: seq<Row>, dst: seq<Row>,
                    limit: nat): Result<DiffResult>
    requires AtLeastWide(src, 1 + |cols|) && AtLeastWide(dst, FlagAt(cols, |cols|))
  {
    if NoOverlap(src, dst) then Err
    else
      OrderIs(src);
      ComparedAreOnBoth(src, dst, Order(src));
      var pairs := PairsOf(src, dst, Compared(src, dst));
      Ok(DiffResult(|src|, |dst|, |pairs|, |Keys(src) - Keys(dst)|, |Keys(dst) - Keys(src)|,
                    |Dups(src) + Dups(dst)|, Drifts(doubles, render, cols, pairs, limit)))
  }

  lemma {:induction false} ComparedAreOnBoth(src: seq<Row>, dst: seq<Row>, order: seq<KeyValue>)
    requires forall k | k in order :: Count(src, k) > 0
    ensures OnBoth(src, dst, ComparedOf(src, dst, order))
  {
    if order != [] {
      ComparedAreOnBoth(src, dst, order[..|order| - 1]);
    }
  }

  // ----- the comparison of two batched sides -----

  /** The rows at pairs of places. */
  ghost predicate Located(source: seq<seq<Row>>, dest: seq<seq<Row>>, locs: seq<(Loc, Loc)>, pairs: seq<Pair>) {
    |locs| == |pairs| && forall j | 0 <= j < |pairs| ::
      && ValidLoc(source, locs[j].0) && RowAt(source, locs[j].0) == pairs[j].0
      && ValidLoc(dest, locs[j].1) && RowAt(dest, locs[j].1) == pairs[j].1
  }

  lemma IndexKeys(batches: seq<seq<Row>>, index: Index)
    requires Indexes(batches, Flatten(batches), index)
    ensures index.first.Keys == Keys(Flatten(batches)) && index.order == Order(Flatten(batches))
    ensures index.dups == Dups(Flatten(batches))
  {
    OrderIs(Flatten(batches));
  }

  lemma LocatedMore(source: seq<seq<Row>>, dest: seq<seq<Row>>, locs: seq<(Loc, Loc)>, pairs: seq<Pair>,
                    at: (Loc, Loc), pair: Pair)
    requires Located(source, dest, locs, pairs)
    requires ValidLoc(source, at.0) && RowAt(source, at.0) == pair.0
    requires ValidLoc(dest, at.1) && RowAt(dest, at.1) == pair.1
    ensures Located(source, dest, locs + [at], pairs + [pair])
  {
  }

  lemma PairsMore(src: seq<Row>, dst: seq<Row>, keys: seq<KeyValue>, k: KeyValue)
    requires OnBoth(src, dst, keys) && Count(src, k) > 0 && Count(dst, k) > 0
    ensures OnBoth(src, dst, keys + [k])
    ensures PairsOf(src, dst, keys + [k]) == PairsOf(src, dst, keys) + [(src[First(src, k)], dst[First(dst, k)])]
  {
  }

  /** The pairs of the first `j` keys. */
  ghost predicate Paired(source: seq<seq<Row>>, dest: seq<seq<Row>>, keys: seq<KeyValue>, locs: seq<(Loc, Loc)>) {
    && OnBoth(Flatten(source), Flatten(dest), keys)
    && Located(source, dest, locs, PairsOf(Flatten(source), Flatten(dest), keys))
  }

  lemma OneMorePaired(source: seq<seq<Row>>, dest: seq<seq<Row>>, s: Index, d: Index, keys: seq<KeyValue>,
                      locs: seq<(Loc, Loc)>, k: KeyValue)
    requires Indexes(source, Flatten(source), s) && Indexes(dest, Flatten(dest), d)
    requires Paired(source, dest, keys, locs) && k in s.first && k in d.first
    ensures Paired(source, dest, keys + [k], locs + [(s.first[k], d.first[k])])
  {
    var src, dst := Flatten(source), Flatten(dest);
    PairsMore(src, dst, keys, k);
    LocatedMore(source, dest, locs, PairsOf(src, dst, keys), (s.first[k], d.first[k]),
                (src[First(src, k)], dst[First(dst, k)]));
  }

  /** What one more of the source's keys does to the compared ones. */
  lemma ComparedStep(src: seq<Row>, dst: seq<Row>, order: seq<KeyValue>, j: nat)
    requires j < |order|
    ensures ComparedOf(src, dst, order[..j + 1]) == if IsCompared(src, dst, order[j])
                                                    then ComparedOf(src, dst, order[..j]) + [order[j]]
                                                    else ComparedOf(src, dst, order[..j])
  {
    assert order[..j + 1][..j] == order[..j];
  }

  /** The places of the compared rows among the first `n` of the source's keys. */
  function MatchedLocs(s: Index, d: Index, n: nat): seq<(Loc, Loc)>
    requires n <= |s.order| && forall k | k in s.order :: k in s.first
  {
    if n == 0 then []
    else
      var k := s.order[n - 1];
      if k !in s.dups + d.dups && k in d.first then MatchedLocs(s, d, n - 1) + [(s.first[k], d.first[k])]
      else MatchedLocs(s, d, n - 1)
  }

  lemma {:induction false} MatchedArePaired(source: seq<seq<Row>>, dest: seq<seq<Row>>, s: Index, d: Index, n: nat)
    requires Indexes(source, Flatten(source), s) && Indexes(dest, Flatten(dest), d) && n <= |s.order|
    ensures forall k | k in s.order :: k in s.first
    ensures Paired(source, dest, ComparedOf(Flatten(source), Flatten(dest), s.order[..n]), MatchedLocs(s, d, n))
  {
    OrderIs(Flatten(source));
    if n > 0 {
      MatchedArePaired(source, dest, s, d, n - 1);
      StillPaired(source, dest, s, d, n - 1, n);
    }
  }

  lemma StillPaired(source: seq<seq<Row>>, dest: seq<seq<Row>>, s: Index, d: Index, m: nat, n: nat)
    requires Indexes(source, Flatten(source), s) && Indexes(dest, Flatten(dest), d) && n == m + 1 <= |s.order|
    requires forall k | k in s.order :: k in s.first
    requires Paired(source, dest, ComparedOf(Flatten(source), Flatten(dest), s.order[..m]), MatchedLocs(s, d, m))
    ensures Paired(source, dest, ComparedOf(Flatten(source), Flatten(dest), s.order[..n]), MatchedLocs(s, d, n))
  {
    NextPaired(source, dest, s, d, m, MatchedLocs(s, d, m));
  }

  lemma NextPaired(source: seq<seq<Row>>, dest: seq<seq<Row>>, s: Index, d: Index, j: nat, locs: seq<(Loc, Loc)>)
    requires Indexes(source, Flatten(source), s) && Indexes(dest, Flatten(dest), d) && j < |s.order|
    requires s.order[j] in s.first
    requires Paired(source, dest, ComparedOf(Flatten(source), Flatten(dest), s.order[..j]), locs)
    ensures var k := s.order[j];
            Paired(source, dest, ComparedOf(Flatten(source), Flatten(dest), s.order[..j + 1]),
                   if k !in s.dups + d.dups && k in d.first then locs + [(s.first[k], d.first[k])] else locs)
  {
    var src, dst, k := Flatten(source), Flatten(dest), s.order[j];
    ComparedStep(src, dst, s.order, j);
    ComparedByIndex(source, dest, s, d, k);
    if IsCompared(src, dst, k) {
      OneMorePaired(source, dest, s, d, ComparedOf(src, dst, s.order[..j]), locs, k);
    }
  }

  lemma ComparedByIndex(source: seq<seq<Row>>, dest: seq<seq<Row>>, s: Index, d: Index, k: KeyValue)
    requires Indexes(source, Flatten(source), s) && Indexes(dest, Flatten(dest), d)
    ensures IsCompared(Flatten(source), Flatten(dest), k) <==> k !in s.dups + d.dups && k in d.first
  {
  }

  lemma MatchedAll(source: seq<seq<Row>>, dest: seq<seq<Row>>, s: Index, d: Index)
    requires Indexes(source, Flatten(source), s) && Indexes(dest, Flatten(dest), d)
    ensures forall k | k in s.order :: k in s.first
    ensures Paired(source, dest, Compared(Flatten(source), Flatten(dest)), MatchedLocs(s, d, |s.order|))
  {
    MatchedArePaired(source, dest, s, d, |s.order|);
    assert s.order[..|s.order|] == s.order;
  }

  /** The places of the compared rows, in source order. */
  method MatchPairs(ghost source: seq<seq<Row>>, ghost dest: seq<seq<Row>>, s: Index, d: Index)
    returns (locs: seq<(Loc, Loc)>)
    requires Indexes(source, Flatten(source), s) && Indexes(dest, Flatten(dest), d)
    ensures Paired(source, dest, Compared(Flatten(source), Flatten(dest)), locs)
  {
    MatchedAll(source, dest, s, d);
    var duplicates := s.dups + d.dups;
    locs := [];
    for j := 0 to |s.order|
      invariant locs == MatchedLocs(s, d, j)
    {
      var k := s.order[j];
      if k !in duplicates && k in d.first {
        locs := locs + [(s.first[k], d.first[k])];
      }
    }
  }

  /** One column of `diff`: its drift over the compared rows. */
  method ColumnDrift(doubles: Doubles, render: Cell -> string, cols: seq<Column>, i: nat, flag: nat,
                     source: seq<seq<Row>>, dest: seq<seq<Row>>, locs: seq<(Loc, Loc)>, ghost pairs: seq<Pair>,
                     limit: nat) returns (drift: Drift)
    requires i < |cols| && flag == FlagAt(cols, i) && WidePairs(cols, pairs) && Located(source, dest, locs, pairs)
    ensures drift == DriftOf(doubles, render, cols, i, pairs, |pairs|, limit)
  {
    var col := cols[i];
    drift := Drift(col.name, |locs|, 0, 0, 0, []);
    FlagIsItsOwn(cols, i);
    for j := 0 to |locs|
      invariant drift == DriftOf(doubles, render, cols, i, pairs, j, limit)
    {
      var s, d := RowAt(source, locs[j].0), RowAt(dest, locs[j].1);
      assert (s, d) == pairs[j];
      var holdsDefault := col.nullDefault && d[flag] == Bool(true);
      var outcome := Classify(doubles, col.rule, s[1 + i], d[1 + i], holdsDefault, col.tolerance);
      if outcome == Same { continue; }
      if outcome == NullInDestOnly {
        drift := drift.(nullInDestOnly := drift.nullInDestOnly + 1);
      } else if outcome == NullInSourceOnly {
        drift := drift.(nullInSourceOnly := drift.nullInSourceOnly + 1);
      }
      drift := drift.(mismatched := drift.mismatched + 1);
      if |drift.sample| < limit {
        drift := drift.(sample := drift.sample + [render(s[0])]);
      }
    }
  }

  lemma FlattenWide(rows: seq<Row>, other: seq<Row>, cols: seq<Column>, keys: seq<KeyValue>)
    requires AtLeastWide(rows, 1 + |cols|) && AtLeastWide(other, FlagAt(cols, |cols|)) && OnBoth(rows, other, keys)
    ensures WidePairs(cols, PairsOf(rows, other, keys))
  {
  }

  /** Every column of `diff`, with the flag column each one reads. */
  method ColumnDrifts(doubles: Doubles, render: Cell -> string, cols: seq<Column>, source: seq<seq<Row>>,
                      dest: seq<seq<Row>>, locs: seq<(Loc, Loc)>, ghost pairs: seq<Pair>, limit: nat)
    returns (columns: seq<Drift>)
    requires WidePairs(cols, pairs) && Located(source, dest, locs, pairs)
    ensures columns == Drifts(doubles, render, cols, pairs, limit)
  {
    var flag := 1 + |cols|;
    columns := [];
    for i := 0 to |cols|
      invariant flag == FlagAt(cols, i)
      invariant |columns| == i
      invariant forall c | 0 <= c < i :: columns[c] == DriftOf(doubles, render, cols, c, pairs, |pairs|, limit)
    {
      var drift := ColumnDrift(doubles, render, cols, i, flag, source, dest, locs, pairs, limit);
      if cols[i].nullDefault {
        flag := flag + 1;
      }
      columns := columns + [drift];
    }
  }

  /** `diff`: what it reports is of each side's rows in order, however they are batched. */
  method Diff(doubles: Doubles, render: Cell -> string, cols: seq<Column>, source: seq<seq<Row>>,
              dest: seq<seq<Row>>, limit: nat) returns (r: Result<DiffResult>)
    requires AtLeastWide(Flatten(source), 1 + |cols|) && AtLeastWide(Flatten(dest), FlagAt(cols, |cols|))
    ensures r == DiffRows(doubles, render, cols, Flatten(source), Flatten(dest), limit)
  {
    var s := Build(source);
    var d := Build(dest);
    IndexKeys(source, s);
    IndexKeys(dest, d);
    var missing, orphans := s.first.Keys - d.first.Keys, d.first.Keys - s.first.Keys;
    if s.first.Keys != {} && d.first.Keys != {} && |missing| == |s.first.Keys| {
      return Err;
    }
    var locs := MatchPairs(source, dest, s, d);
    ghost var pairs := PairsOf(Flatten(source), Flatten(dest), Compared(Flatten(source), Flatten(dest)));
    FlattenWide(Flatten(source), Flatten(dest), cols, Compared(Flatten(source), Flatten(dest)));
    var columns := ColumnDrifts(doubles, render, cols, source, dest, locs, pairs, limit);
    var sourceRows := CountRows(source);
    var destRows := CountRows(dest);
    r := Ok(DiffResult(sourceRows, destRows, |locs|, |missing|, |orphans|, |s.dups + d.dups|, columns));
  }

  /** The rows of every batch. */
  method CountRows(batches: seq<seq<Row>>) returns (n: nat)
    ensures n == |Flatten(batches)|
  {
    n := 0;
    for b := 0 to |batches|
      invariant n == |Flatten(batches[..b])|
    {
      FlattenMore(batches, b);
      n := n + |batches[b]|;
    }
    assert batches[..|batches|] == batches;
  }

  // ----- what the result means -----

  lemma {:induction false} ComparedIs(src: seq<Row>, dst: seq<Row>, order: seq<KeyValue>)
    ensures forall k :: k in ComparedOf(src, dst, order) <==> k in order && IsCompared(src, dst, k)
  {
    if order != [] {
      ComparedIs(src, dst, order[..|order| - 1]);
      SplitLast(order);
    }
  }

  /** The compared keys are those that occur exactly once on both sides. */
  lemma {:induction false} ComparedOnceOnBoth(src: seq<Row>, dst: seq<Row>, k: KeyValue)
    ensures k in Compared(src, dst) <==> Count(src, k) == 1 && Count(dst, k) == 1
  {
    ComparedIs(src, dst, Order(src));
    OrderIs(src);
    OrderIs(dst);
  }

  lemma {:induction false} ComparedAscends(src: seq<Row>, dst: seq<Row>, order: seq<KeyValue>)
    requires OrderedByFirst(src, order)
    ensures OrderedByFirst(src, ComparedOf(src, dst, order))
  {
    if order != [] {
      var init, last := order[..|order| - 1], order[|order| - 1];
      FirstAscends(src, order);
      ComparedAscends(src, dst, init);
      ComparedIs(src, dst, init);
      AllBefore(src, init, last, ComparedOf(src, dst, init));
      AscendsMore(src, ComparedOf(src, dst, init), last);
    }
  }

  lemma FirstAscends(src: seq<Row>, order: seq<KeyValue>)
    requires order != [] && OrderedByFirst(src, order)
    ensures OrderedByFirst(src, order[..|order| - 1])
    ensures order == order[..|order| - 1] + [order[|order| - 1]]
  {
  }

  lemma AllBefore(src: seq<Row>, init: seq<KeyValue>, last: KeyValue, some: seq<KeyValue>)
    requires OrderedByFirst(src, init + [last]) && OrderedByFirst(src, some)
    requires forall k | k in some :: k in init
    ensures Count(src, last) > 0 && forall i | 0 <= i < |some| :: First(src, some[i]) < First(src, last)
  {
    var order := init + [last];
    assert order[|init|] == last;
    forall i | 0 <= i < |some| ensures First(src, some[i]) < First(src, last) {
      assert some[i] in init;
      var j :| 0 <= j < |init| && init[j] == some[i];
      assert order[j] == some[i];
    }
  }

  lemma AscendsMore(src: seq<Row>, keys: seq<KeyValue>, last: KeyValue)
    requires OrderedByFirst(src, keys) && Count(src, last) > 0
    requires forall i | 0 <= i < |keys| :: First(src, keys[i]) < First(src, last)
    ensures OrderedByFirst(src, keys + [last])
  {
    var all := keys + [last];
    forall i, j | 0 <= i < j < |all| ensures Count(src, all[i]) > 0 && Count(src, all[j]) > 0
                                          && First(src, all[i]) < First(src, all[j]) {
      assert all[i] == keys[i];
      assert j < |keys| ==> all[j] == keys[j];
    }
  }

  /** They are compared, each once, in the order of the source's rows. */
  lemma {:induction false} ComparedInSourceOrder(src: seq<Row>, dst: seq<Row>)
    ensures OrderedByFirst(src, Compared(src, dst))
  {
    OrderAscends(src);
    ComparedAscends(src, dst, Order(src));
  }

  /** Which of the first `n` pairs come out in one of some ways. */
  function Where(doubles: Doubles, cols: seq<Column>, i: nat, pairs: seq<Pair>, n: nat, ways: set<Outcome>)
    : (r: set<nat>)
    requires i < |cols| && n <= |pairs| && WidePairs(cols, pairs)
    ensures forall j: nat :: j in r <==> j < n && OutcomeOf(doubles, cols, i, pairs[j]) in ways
  {
    if n == 0 then {}
    else
      var before := Where(doubles, cols, i, pairs, n - 1, ways);
      if OutcomeOf(doubles, cols, i, pairs[n - 1]) in ways then before + {n - 1} else before
  }

  const DIFFERS: set<Outcome> := {Mismatch, NullInDestOnly, NullInSourceOnly}

  lemma WhereMore(doubles: Doubles, cols: seq<Column>, i: nat, pairs: seq<Pair>, n: nat, ways: set<Outcome>)
    requires i < |cols| && n < |pairs| && WidePairs(cols, pairs)
    ensures |Where(doubles, cols, i, pairs, n + 1, ways)|
         == |Where(doubles, cols, i, pairs, n, ways)| + (if OutcomeOf(doubles, cols, i, pairs[n]) in ways then 1 else 0)
  {
  }

  /** A drift's count of the rows that differ, or of one way of differing. */
  function CountOf(d: Drift, way: Option<Outcome>): nat
    requires way.Some? ==> way.value == NullInDestOnly || way.value == NullInSourceOnly
  {
    if way.None? then d.mismatched else if way.value == NullInDestOnly then d.nullInDestOnly else d.nullInSourceOnly
  }

  function Ways(way: Option<Outcome>): set<Outcome> {
    match way case None => DIFFERS case Some(o) => {o}
  }

  lemma TallyCounts(d: Drift, outcome: Outcome, shown: string, limit: nat, way: Option<Outcome>)
    requires way.Some? ==> way.value == NullInDestOnly || way.value == NullInSourceOnly
    ensures CountOf(Tally(d, outcome, shown, limit), way) == CountOf(d, way) + (if outcome in Ways(way) then 1 else 0)
  {
  }

  /** Each count is how many compared rows come out its way. */
  lemma {:induction false} CountsAreExact(doubles: Doubles, render: Cell -> string, cols: seq<Column>, i: nat,
                                          pairs: seq<Pair>, n: nat, limit: nat, way: Option<Outcome>)
    requires i < |cols| && n <= |pairs| && WidePairs(cols, pairs)
    requires way.Some? ==> way.value == NullInDestOnly || way.value == NullInSourceOnly
    ensures CountOf(DriftOf(doubles, render, cols, i, pairs, n, limit), way)
         == |Where(doubles, cols, i, pairs, n, Ways(way))|
  {
    if n > 0 {
      CountsAreExact(doubles, render, cols, i, pairs, n - 1, limit, way);
      WhereMore(doubles, cols, i, pairs, n - 1, Ways(way));
      TallyCounts(DriftOf(doubles, render, cols, i, pairs, n - 1, limit), OutcomeOf(doubles, cols, i, pairs[n - 1]),
                  render(pairs[n - 1].0[0]), limit, way);
    }
  }

  /** The keys of the rows that differ, as text, in order. */
  function Differing(doubles: Doubles, render: Cell -> string, cols: seq<Column>, i: nat, pairs: seq<Pair>, n: nat)
    : seq<string>
    requires i < |cols| && n <= |pairs| && WidePairs(cols, pairs)
  {
    if n == 0 then []
    else
      Differing(doubles, render, cols, i, pairs, n - 1)
      + (if OutcomeOf(doubles, cols, i, pairs[n - 1]) == Same then [] else [render(pairs[n - 1].0[0])])
  }

  /** The sample is the first keys that differ, in source order. */
  lemma {:induction false} SampleIsFirst(doubles: Doubles, render: Cell -> string, cols: seq<Column>, i: nat,
                                         pairs: seq<Pair>, n: nat, limit: nat)
    requires i < |cols| && n <= |pairs| && WidePairs(cols, pairs)
    ensures var all := Differing(doubles, render, cols, i, pairs, n);
            DriftOf(doubles, render, cols, i, pairs, n, limit).sample == if |all| <= limit then all else all[..limit]
  {
    if n > 0 {
      SampleIsFirst(doubles, render, cols, i, pairs, n - 1, limit);
    }
  }

  /** How column `i` of a key's rows comes out. */
  function OutcomeAt(doubles: Doubles, cols: seq<Column>, i: nat, src: seq<Row>, dst: seq<Row>, k: KeyValue): Outcome
    requires AtLeastWide(src, 1 + |cols|) && AtLeastWide(dst, FlagAt(cols, |cols|)) && i < |cols|
    requires Count(src, k) > 0 && Count(dst, k) > 0
  {
    OutcomeOf(doubles, cols, i, (src[First(src, k)], dst[First(dst, k)]))
  }

  /** The keys that occur once on both sides and whose rows come out in one of some ways. */
  function KeysThat(doubles: Doubles, cols: seq<Column>, i: nat, src: seq<Row>, dst: seq<Row>, ways: set<Outcome>)
    : set<KeyValue>
    requires AtLeastWide(src, 1 + |cols|) && AtLeastWide(dst, FlagAt(cols, |cols|)) && i < |cols|
  {
    set k | k in Order(src) && Count(src, k) == 1 && Count(dst, k) == 1
            && OutcomeAt(doubles, cols, i, src, dst, k) in ways
  }

  /** The keys of the first `n` pairs that do. */
  function KeysWhere(doubles: Doubles, cols: seq<Column>, i: nat, keys: seq<KeyValue>, pairs: seq<Pair>, n: nat,
                     ways: set<Outcome>): set<KeyValue>
    requires i < |cols| && n <= |pairs| == |keys| && WidePairs(cols, pairs)
  {
    if n == 0 then {}
    else
      var before := KeysWhere(doubles, cols, i, keys, pairs, n - 1, ways);
      if OutcomeOf(doubles, cols, i, pairs[n - 1]) in ways then before + {keys[n - 1]} else before
  }

  lemma {:induction false} KeysWhereAre(doubles: Doubles, cols: seq<Column>, i: nat, keys: seq<KeyValue>,
                                        pairs: seq<Pair>, n: nat, ways: set<Outcome>, k: KeyValue)
    requires i < |cols| && n <= |pairs| == |keys| && WidePairs(cols, pairs)
    ensures k in KeysWhere(doubles, cols, i, keys, pairs, n, ways)
       <==> exists j | 0 <= j < n :: keys[j] == k && OutcomeOf(doubles, cols, i, pairs[j]) in ways
  {
    if n > 0 {
      KeysWhereAre(doubles, cols, i, keys, pairs, n - 1, ways, k);
    }
  }

  predicate NoTwice(keys: seq<KeyValue>) {
    forall a, b | 0 <= a < b < |keys| :: keys[a] != keys[b]
  }

  lemma NotYet(doubles: Doubles, cols: seq<Column>, i: nat, keys: seq<KeyValue>, pairs: seq<Pair>, n: nat,
               ways: set<Outcome>)
    requires i < |cols| && n < |pairs| == |keys| && WidePairs(cols, pairs) && NoTwice(keys)
    ensures keys[n] !in KeysWhere(doubles, cols, i, keys, pairs, n, ways)
  {
    KeysWhereAre(doubles, cols, i, keys, pairs, n, ways, keys[n]);
  }

  /** How many of the first `n` pairs come out in one of some ways. */
  function HowMany(doubles: Doubles, cols: seq<Column>, i: nat, pairs: seq<Pair>, n: nat, ways: set<Outcome>): nat
    requires i < |cols| && n <= |pairs| && WidePairs(cols, pairs)
  {
    if n == 0 then 0
    else
      HowMany(doubles, cols, i, pairs, n - 1, ways)
      + (if OutcomeOf(doubles, cols, i, pairs[n - 1]) in ways then 1 else 0)
  }

  lemma {:induction false} AsManyPairs(doubles: Doubles, cols: seq<Column>, i: nat, pairs: seq<Pair>, n: nat,
                                       ways: set<Outcome>)
    requires i < |cols| && n <= |pairs| && WidePairs(cols, pairs)
    ensures |Where(doubles, cols, i, pairs, n, ways)| == HowMany(doubles, cols, i, pairs, n, ways)
  {
    if n > 0 {
      AsManyPairs(doubles, cols, i, pairs, n - 1, ways);
      WhereMore(doubles, cols, i, pairs, n - 1, ways);
    }
  }

  lemma OneMoreKey(doubles: Doubles, cols: seq<Column>, i: nat, keys: seq<KeyValue>, pairs: seq<Pair>, n: nat,
                   m: nat, ways: set<Outcome>)
    requires i < |cols| && n + 1 == m <= |pairs| == |keys| && WidePairs(cols, pairs)
    requires keys[n] !in KeysWhere(doubles, cols, i, keys, pairs, n, ways)
    ensures |KeysWhere(doubles, cols, i, keys, pairs, m, ways)|
         == |KeysWhere(doubles, cols, i, keys, pairs, n, ways)|
            + (if OutcomeOf(doubles, cols, i, pairs[n]) in ways then 1 else 0)
  {
    SizeOfMore(KeysWhere(doubles, cols, i, keys, pairs, n, ways), keys[n]);
  }

  lemma SizeOfMore(before: set<KeyValue>, k: KeyValue)
    requires k !in before
    ensures |before + {k}| == |before| + 1
  {
  }

  lemma {:induction false} AsManyKeys(doubles: Doubles, cols: seq<Column>, i: nat, keys: seq<KeyValue>,
                                      pairs: seq<Pair>, n: nat, ways: set<Outcome>)
    requires i < |cols| && n <= |pairs| == |keys| && WidePairs(cols, pairs) && NoTwice(keys)
    ensures |KeysWhere(doubles, cols, i, keys, pairs, n, ways)| == HowMany(doubles, cols, i, pairs, n, ways)
  {
    if n > 0 {
      AsManyKeys(doubles, cols, i, keys, pairs, n - 1, ways);
      NotYet(doubles, cols, i, keys, pairs, n - 1, ways);
      OneMoreKey(doubles, cols, i, keys, pairs, n - 1, n, ways);
    }
  }

  lemma DistinctByFirst(src: seq<Row>, keys: seq<KeyValue>)
    requires OrderedByFirst(src, keys)
    ensures NoTwice(keys)
  {
  }

  lemma {:induction false} KeysThatIs(doubles: Doubles, cols: seq<Column>, i: nat, src: seq<Row>, dst: seq<Row>,
                                      keys: seq<KeyValue>, ways: set<Outcome>)
    requires AtLeastWide(src, 1 + |cols|) && AtLeastWide(dst, FlagAt(cols, |cols|)) && i < |cols|
    requires keys == Compared(src, dst) && OnBoth(src, dst, keys) && WidePairs(cols, PairsOf(src, dst, keys))
    ensures KeysWhere(doubles, cols, i, keys, PairsOf(src, dst, keys), |keys|, ways)
         == KeysThat(doubles, cols, i, src, dst, ways)
  {
    var pairs := PairsOf(src, dst, keys);
    forall k ensures k in KeysWhere(doubles, cols, i, keys, pairs, |keys|, ways)
                <==> k in KeysThat(doubles, cols, i, src, dst, ways)
    {
      ComparedOnceOnBoth(src, dst, k);
      OrderIs(src);
      KeysWhereAre(doubles, cols, i, keys, pairs, |keys|, ways, k);
      if k in keys {
        var j :| 0 <= j < |keys| && keys[j] == k;
        assert pairs[j] == (src[First(src, k)], dst[First(dst, k)]);
      }
    }
  }

  /** One count of a column that `diff` reports. */
  lemma {:induction false} ColumnCount(doubles: Doubles, render: Cell -> string, cols: seq<Column>, i: nat,
                                       src: seq<Row>, dst: seq<Row>, keys: seq<KeyValue>, limit: nat,
                                       way: Option<Outcome>)
    requires AtLeastWide(src, 1 + |cols|) && AtLeastWide(dst, FlagAt(cols, |cols|)) && i < |cols|
    requires keys == Compared(src, dst) && OnBoth(src, dst, keys) && WidePairs(cols, PairsOf(src, dst, keys))
    requires way.Some? ==> way.value == NullInDestOnly || way.value == NullInSourceOnly
    ensures CountOf(DriftOf(doubles, render, cols, i, PairsOf(src, dst, keys), |keys|, limit), way)
         == |KeysThat(doubles, cols, i, src, dst, Ways(way))|
  {
    var pairs := PairsOf(src, dst, keys);
    CountsAreExact(doubles, render, cols, i, pairs, |keys|, limit, way);
    ComparedInSourceOrder(src, dst);
    DistinctByFirst(src, keys);
    AsManyPairs(doubles, cols, i, pairs, |keys|, Ways(way));
    AsManyKeys(doubles, cols, i, keys, pairs, |keys|, Ways(way));
    KeysThatIs(doubles, cols, i, src, dst, keys, Ways(way));
  }

  lemma {:induction false} DriftNames(doubles: Doubles, render: Cell -> string, cols: seq<Column>, i: nat,
                                      pairs: seq<Pair>, n: nat, limit: nat)
    requires i < |cols| && n <= |pairs| && WidePairs(cols, pairs)
    ensures var d := DriftOf(doubles, render, cols, i, pairs, n, limit);
            d.column == cols[i].name && d.compared == |pairs|
  {
    if n > 0 {
      DriftNames(doubles, render, cols, i, pairs, n - 1, limit);
    }
  }

  /** What `diff` reports of a column: every compared key was, the counts are how many keys occurring once on
      both sides come out each way, and the sample is the first of those that differ, in source order. */
  lemma {:induction false} ColumnsReport(doubles: Doubles, render: Cell -> string, cols: seq<Column>, src: seq<Row>,
                                         dst: seq<Row>, limit: nat, i: nat)
    requires AtLeastWide(src, 1 + |cols|) && AtLeastWide(dst, FlagAt(cols, |cols|)) && i < |cols|
    requires DiffRows(doubles, render, cols, src, dst, limit).Ok?
    ensures var r := DiffRows(doubles, render, cols, src, dst, limit).value;
            && |r.columns| == |cols|
            && r.columns[i].column == cols[i].name
            && r.columns[i].compared == r.comparedKeys == |Compared(src, dst)|
            && r.columns[i].mismatched == |KeysThat(doubles, cols, i, src, dst, DIFFERS)|
            && r.columns[i].nullInDestOnly == |KeysThat(doubles, cols, i, src, dst, {NullInDestOnly})|
            && r.columns[i].nullInSourceOnly == |KeysThat(doubles, cols, i, src, dst, {NullInSourceOnly})|
    ensures OnBoth(src, dst, Compared(src, dst)) && WidePairs(cols, PairsOf(src, dst, Compared(src, dst)))
    ensures var pairs := PairsOf(src, dst, Compared(src, dst));
            var all := Differing(doubles, render, cols, i, pairs, |pairs|);
            DiffRows(doubles, render, cols, src, dst, limit).value.columns[i].sample
            == if |all| <= limit then all else all[..limit]
  {
    var keys := Compared(src, dst);
    OrderIs(src);
    ComparedAreOnBoth(src, dst, Order(src));
    FlattenWide(src, dst, cols, keys);
    var pairs := PairsOf(src, dst, keys);
    DriftNames(doubles, render, cols, i, pairs, |pairs|, limit);
    ColumnCount(doubles, render, cols, i, src, dst, keys, limit, None);
    ColumnCount(doubles, render, cols, i, src, dst, keys, limit, Some(NullInDestOnly));
    ColumnCount(doubles, render, cols, i, src, dst, keys, limit, Some(NullInSourceOnly));
    SampleIsFirst(doubles, render, cols, i, pairs, |pairs|, limit);
  }

  /** It refuses exactly two non-empty sides with no key in common; otherwise the two sides' keys that are not
      missing and not orphans are the same ones. */
  lemma {:induction false} KeysBalance(doubles: Doubles, render: Cell -> string, cols: seq<Column>, src: seq<Row>,
                                       dst: seq<Row>, limit: nat)
    requires AtLeastWide(src, 1 + |cols|) && AtLeastWide(dst, FlagAt(cols, |cols|))
    ensures var r := DiffRows(doubles, render, cols, src, dst, limit);
            && (r.Err? <==> Keys(src) != {} && Keys(dst) != {} && Keys(src) !! Keys(dst))
            && (r.Ok? ==> |Keys(src)| - r.value.missingKeys == |Keys(dst)| - r.value.orphanKeys
                          == |Keys(src) * Keys(dst)|)
  {
    var a, b := Keys(src), Keys(dst);
    SplitBy(a, b);
    SplitBy(b, a);
    assert a * b == b * a;
    if |a * b| == 0 {
      assert a * b == {};
      assert forall k | k in a && k in b :: k in a * b;
    } else {
      var k :| k in a * b;
    }
  }
}
