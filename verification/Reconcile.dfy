/** Keyset reconciliation: what `reconcile_keys` decides, and its two reads and its delete racing with the
    source's writers and with syncs (crates/quickhouse-core/src/reconcile.rs). */
module Reconcile {
  import opened Options
  import opened Collections
  import DecimalText

  type Key = string

  datatype Config = Config(sourceTable: Option<string>, sourceQuery: Option<string>, destTable: string, key: string,
                           window: Option<string>, destWindow: Option<string>, delete: bool, maxDeleteKeys: nat,
                           sampleLimit: nat)

  datatype Outcome = Outcome(sourceKeys: nat, destKeys: nat, orphans: seq<Key>, missing: seq<Key>,
                             orphanSample: seq<Key>, missingSample: seq<Key>, deletes: bool)

  // ----- the decision -----

  predicate Blank(s: string) { DecimalText.Trim(s) == "" }

  /** `ReconcileConfig::validate`. */
  predicate ValidConfig(cfg: Config) {
    && !Blank(cfg.destTable) && !Blank(cfg.key)
    && (cfg.sourceTable.Some? <==> cfg.sourceQuery.None?)
    && (cfg.delete ==> cfg.destWindow.Some? || cfg.window.Some?)
  }

  function SetOf(ks: seq<Key>): set<Key> { set k | k in ks }

  predicate Distinct(ks: seq<Key>) {
    forall i, j | 0 <= i < j < |ks| :: ks[i] != ks[j]
  }

  /** The keys that are not in `other`, in order. */
  function Minus(ks: seq<Key>, other: set<Key>): seq<Key> {
    if ks == [] then []
    else
      var last := ks[|ks| - 1];
      Minus(ks[..|ks| - 1], other) + (if last in other then [] else [last])
  }

  function Sample(ks: seq<Key>, limit: nat): seq<Key> {
    if |ks| <= limit then ks else ks[..limit]
  }

  /** What `reconcile_keys` does with the two keysets: an error when they have nothing in common or there
      are more orphans to delete than the ceiling allows. */
  function Decide(cfg: Config, dest: seq<Key>, source: seq<Key>): Result<Outcome> {
    var sourceSet, destSet := SetOf(source), SetOf(dest);
    var orphans, missing := Minus(dest, sourceSet), Minus(source, destSet);
    if sourceSet != {} && destSet != {} && |orphans| == |destSet| && |missing| == |sourceSet| then Err
    else if cfg.delete && orphans != [] && cfg.maxDeleteKeys > 0 && |orphans| > cfg.maxDeleteKeys then Err
    else Ok(Outcome(|sourceSet|, |destSet|, orphans, missing, Sample(orphans, cfg.sampleLimit),
                    Sample(missing, cfg.sampleLimit), cfg.delete && orphans != []))
  }

  lemma SetOfConcat(a: seq<Key>, b: seq<Key>)
    ensures SetOf(a + b) == SetOf(a) + SetOf(b)
  {
    forall k ensures k in SetOf(a + b) <==> k in SetOf(a) + SetOf(b) {
      assert k in a + b <==> k in a || k in b;
    }
  }

  lemma SetOfOne(k: Key)
    ensures SetOf([k]) == {k}
  {
  }

  lemma {:induction false} MinusIs(ks: seq<Key>, other: set<Key>)
    ensures SetOf(Minus(ks, other)) == SetOf(ks) - other
  {
    if ks != [] {
      var init, last := ks[..|ks| - 1], ks[|ks| - 1];
      MinusIs(init, other);
      SplitLast(ks);
      SetOfConcat(init, [last]);
      SetOfOne(last);
      SetOfConcat(Minus(init, other), if last in other then [] else [last]);
    }
  }

  lemma {:induction false} MinusSize(ks: seq<Key>, other: set<Key>)
    requires Distinct(ks)
    ensures |Minus(ks, other)| == |SetOf(ks) - other|
  {
    if ks != [] {
      var init, last := ks[..|ks| - 1], ks[|ks| - 1];
      MinusSize(init, other);
      SplitLast(ks);
      SetOfConcat(init, [last]);
      SetOfOne(last);
      OneMore(SetOf(init), last, other);
    }
  }

  lemma OneMore(a: set<Key>, k: Key, other: set<Key>)
    requires k !in a
    ensures |(a + {k}) - other| == |a - other| + (if k in other then 0 else 1)
  {
    if k in other {
      assert (a + {k}) - other == a - other;
    } else {
      assert (a + {k}) - other == (a - other) + {k};
    }
  }

  lemma DistinctSize(ks: seq<Key>)
    requires Distinct(ks)
    ensures |SetOf(ks)| == |ks|
  {
    MinusSize(ks, {});
    KeepsAll(ks);
    assert SetOf(ks) - {} == SetOf(ks);
  }

  lemma {:induction false} KeepsAll(ks: seq<Key>)
    ensures Minus(ks, {}) == ks
  {
    if ks != [] {
      KeepsAll(ks[..|ks| - 1]);
    }
  }

  /** How the sizes of two keysets, their differences and their intersection relate. */
  lemma Sizes(dest: seq<Key>, source: seq<Key>)
    requires Distinct(dest) && Distinct(source)
    ensures |SetOf(dest)| == |Minus(dest, SetOf(source))| + |SetOf(dest) * SetOf(source)|
    ensures |SetOf(source)| == |Minus(source, SetOf(dest))| + |SetOf(dest) * SetOf(source)|
  {
    MinusSize(dest, SetOf(source));
    MinusSize(source, SetOf(dest));
    SplitBy(SetOf(dest), SetOf(source));
    SplitBy(SetOf(source), SetOf(dest));
    assert SetOf(dest) * SetOf(source) == SetOf(source) * SetOf(dest);
  }

  /** The two sides' keys that are in common are the same ones. */
  lemma {:induction false} CommonKeysBalance(cfg: Config, dest: seq<Key>, source: seq<Key>)
    requires Distinct(dest) && Distinct(source) && Decide(cfg, dest, source).Ok?
    ensures var o := Decide(cfg, dest, source).value;
            && SetOf(o.orphans) == SetOf(dest) - SetOf(source) && SetOf(o.missing) == SetOf(source) - SetOf(dest)
            && o.sourceKeys - |o.missing| == o.destKeys - |o.orphans| == |SetOf(dest) * SetOf(source)|
  {
    MinusIs(dest, SetOf(source));
    MinusIs(source, SetOf(dest));
    Sizes(dest, source);
  }

  lemma DisjointIff(a: set<Key>, b: set<Key>)
    ensures a !! b <==> |a * b| == 0
  {
    if |a * b| == 0 {
      assert a * b == {};
      assert forall k | k in a && k in b :: k in a * b;
    } else {
      var k :| k in a * b;
    }
  }

  /** It refuses exactly two non-empty keysets with nothing in common, and a delete over the ceiling. */
  lemma {:induction false} RefusesExactly(cfg: Config, dest: seq<Key>, source: seq<Key>)
    requires Distinct(dest) && Distinct(source)
    ensures Decide(cfg, dest, source).Err? <==>
              || (source != [] && dest != [] && SetOf(dest) !! SetOf(source))
              || (cfg.delete && 0 < cfg.maxDeleteKeys < |SetOf(dest) - SetOf(source)|)
  {
    Sizes(dest, source);
    DisjointIff(SetOf(dest), SetOf(source));
    MinusSize(dest, SetOf(source));
    DistinctSize(dest);
    DistinctSize(source);
  }

  // ----- the race -----

  /** Which side is read first, and what the environment may do: use a key again, let a row leave the window
      (any row may enter it), put rows into the destination that are not the source's. */
  datatype Rules = Rules(destFirst: bool, reuse: bool, leaves: bool, foreign: bool)

  /** The code's order of reads, keys that are never used twice, rows that never leave the window, and
      destination keys that all came from the source. */
  const SAFE_RULES := Rules(true, false, false, false)

  /** A row is its key and whether it is in the window: `live` in the source, in the destination, or read by a
      sync that may still land it. `ever` has every key the source had, and whether its row ever was. */
  datatype State = State(live: map<Key, bool>, ever: map<Key, bool>, dest: map<Key, bool>, syncs: seq<map<Key, bool>>,
                         destRead: Option<seq<Key>>, sourceRead: Option<seq<Key>>, finished: bool, deleted: set<Key>)

  const START := State(map[], map[], map[], [], None, None, false, {})

  datatype Event =
    | Insert(k: Key, inWindow: bool)
    | Move(k: Key, inWindow: bool)
    | Remove(k: Key)
    | SyncRead(ks: set<Key>)
    | SyncLand(i: nat)
    | Foreign(k: Key, inWindow: bool)
    | DestRemove(k: Key)
    | ReadDest(keys: seq<Key>)
    | ReadSource(keys: seq<Key>)
    | Finish

  /** The distinct keys a read of the window returns, in any order. */
  predicate IsRead(rows: map<Key, bool>, keys: seq<Key>) {
    Distinct(keys) && SetOf(keys) == set k | k in rows && rows[k]
  }

  function Restrict(rows: map<Key, bool>, ks: set<Key>): map<Key, bool> {
    map k | k in rows && k in ks :: rows[k]
  }

  /** Rows with a key to delete that are in the window when it happens are gone. */
  function DeleteKeys(dest: map<Key, bool>, orphans: set<Key>): map<Key, bool> {
    map k | k in dest && !(k in orphans && dest[k]) :: dest[k]
  }

  /** A source row is now in the window, or not. */
  function Put(s: State, k: Key, inWindow: bool): State {
    s.(live := s.live[k := inWindow], ever := s.ever[k := inWindow || (k in s.ever && s.ever[k])])
  }

  /** An event that can't happen changes nothing. */
  function Step(rules: Rules, cfg: Config, s: State, e: Event): State {
    match e
    case Insert(k, inWindow) => if k !in s.live && (rules.reuse || k !in s.ever) then Put(s, k, inWindow) else s
    case Move(k, inWindow) => if k in s.live && (inWindow || rules.leaves) then Put(s, k, inWindow) else s
    case Remove(k) => s.(live := s.live - {k})
    case SyncRead(ks) => s.(syncs := s.syncs + [Restrict(s.live, ks)])
    case SyncLand(i) => if i < |s.syncs| then s.(dest := s.dest + s.syncs[i]) else s
    case Foreign(k, inWindow) => if rules.foreign then s.(dest := s.dest[k := inWindow]) else s
    case DestRemove(k) => s.(dest := s.dest - {k})
    case ReadDest(keys) =>
      if ValidConfig(cfg) && s.destRead.None? && (rules.destFirst || s.sourceRead.Some?) && IsRead(s.dest, keys)
      then s.(destRead := Some(keys)) else s
    case ReadSource(keys) =>
      if ValidConfig(cfg) && s.sourceRead.None? && (rules.destFirst ==> s.destRead.Some?) && IsRead(s.live, keys)
      then s.(sourceRead := Some(keys)) else s
    case Finish =>
      if s.destRead.Some? && s.sourceRead.Some? && !s.finished then Act(cfg, s, s.destRead.value, s.sourceRead.value)
      else s
  }

  function Act(cfg: Config, s: State, dest: seq<Key>, source: seq<Key>): State {
    match Decide(cfg, dest, source)
    case Err => s.(finished := true)
    case Ok(o) =>
      if !o.deletes then s.(finished := true)
      else s.(finished := true, dest := DeleteKeys(s.dest, SetOf(o.orphans)), deleted := SetOf(o.orphans))
  }

  function Run(rules: Rules, cfg: Config, es: seq<Event>): State {
    if es == [] then START else Step(rules, cfg, Run(rules, cfg, es[..|es| - 1]), es[|es| - 1])
  }

  /** No deleted key is live in the source. */
  predicate Safe(s: State) {
    forall k | k in s.deleted :: k !in s.live
  }

  // ----- safe in every interleaving -----

  /** Copies of source rows: one that is in the window was in it in the source. */
  predicate Copied(rows: map<Key, bool>, ever: map<Key, bool>) {
    forall k | k in rows :: k in ever && (rows[k] ==> ever[k])
  }

  /** A live row that was ever in the window still is. */
  predicate Stays(live: map<Key, bool>, ever: map<Key, bool>) {
    forall k | k in live :: k in ever && live[k] == ever[k]
  }

  predicate Gone(s: State, ks: set<Key>) {
    forall k | k in ks :: k in s.ever && k !in s.live
  }

  predicate RowsInv(s: State) {
    Stays(s.live, s.ever) && Copied(s.dest, s.ever) && forall i | 0 <= i < |s.syncs| :: Copied(s.syncs[i], s.ever)
  }

  /** Everything read or landed was inserted in the source as it is now, and an orphan is gone for good. */
  predicate Inv(s: State) {
    && RowsInv(s)
    && (s.destRead.Some? ==> forall k | k in s.destRead.value :: k in s.ever && s.ever[k])
    && (s.sourceRead.Some? ==> s.destRead.Some? && Gone(s, SetOf(s.destRead.value) - SetOf(s.sourceRead.value)))
    && Gone(s, s.deleted)
  }

  lemma StepKeepsRows(cfg: Config, s: State, e: Event)
    requires RowsInv(s)
    ensures RowsInv(Step(SAFE_RULES, cfg, s, e))
  {
  }

  lemma GoneStays(cfg: Config, s: State, e: Event, ks: set<Key>)
    requires Gone(s, ks)
    ensures Gone(Step(SAFE_RULES, cfg, s, e), ks)
  {
  }

  lemma StepKeepsInv(cfg: Config, s: State, e: Event)
    requires Inv(s)
    ensures Inv(Step(SAFE_RULES, cfg, s, e))
  {
    StepKeepsRows(cfg, s, e);
    GoneStays(cfg, s, e, s.deleted);
    var t := Step(SAFE_RULES, cfg, s, e);
    if e.ReadDest? && s.destRead.None? && t.destRead.Some? {
      forall k | k in e.keys ensures k in s.ever && s.ever[k] {
        assert k in SetOf(e.keys);
      }
    }
    if s.sourceRead.Some? {
      GoneStays(cfg, s, e, SetOf(s.destRead.value) - SetOf(s.sourceRead.value));
      if e.Finish? {
        MinusIs(s.destRead.value, SetOf(s.sourceRead.value));
      }
    } else if e.ReadSource? && t.sourceRead.Some? {
      assert forall k | k in SetOf(s.destRead.value) - SetOf(e.keys) :: k in s.ever && s.ever[k] && k !in s.live;
    }
  }

  lemma {:induction false} RunKeepsInv(cfg: Config, es: seq<Event>)
    ensures Inv(Run(SAFE_RULES, cfg, es))
  {
    if es != [] {
      RunKeepsInv(cfg, es[..|es| - 1]);
      StepKeepsInv(cfg, Run(SAFE_RULES, cfg, es[..|es| - 1]), es[|es| - 1]);
    }
  }

  // ----- never without a window, never over the ceiling -----

  predicate Bounded(cfg: Config, s: State) {
    && (s.destRead.Some? ==> ValidConfig(cfg) && Distinct(s.destRead.value))
    && (s.deleted != {} ==> ValidConfig(cfg) && cfg.delete && (cfg.destWindow.Some? || cfg.window.Some?))
    && (cfg.maxDeleteKeys > 0 ==> |s.deleted| <= cfg.maxDeleteKeys)
  }

  lemma ActIsBounded(cfg: Config, s: State, dest: seq<Key>, source: seq<Key>)
    requires Bounded(cfg, s) && ValidConfig(cfg) && Distinct(dest)
    ensures Bounded(cfg, Act(cfg, s, dest, source))
  {
    MinusIs(dest, SetOf(source));
    MinusSize(dest, SetOf(source));
  }

  lemma StepIsBounded(rules: Rules, cfg: Config, s: State, e: Event)
    requires Bounded(cfg, s)
    ensures Bounded(cfg, Step(rules, cfg, s, e))
  {
    if e.Finish? && s.destRead.Some? && s.sourceRead.Some? {
      ActIsBounded(cfg, s, s.destRead.value, s.sourceRead.value);
    }
  }

  /** Whatever the interleaving and the order of reads, keys are only deleted by a delete run with a window,
      and no more of them than its ceiling. */
  lemma {:induction false} DeletesAreBounded(rules: Rules, cfg: Config, es: seq<Event>)
    ensures Bounded(cfg, Run(rules, cfg, es))
  {
    if es != [] {
      DeletesAreBounded(rules, cfg, es[..|es| - 1]);
      StepIsBounded(rules, cfg, Run(rules, cfg, es[..|es| - 1]), es[|es| - 1]);
    }
  }

  // ----- each rule is needed -----

  const DELETING := Config(Some("t"), None, "t", "id", Some("w"), None, true, 0, 10)

  lemma DeletingIsValid()
    ensures ValidConfig(DELETING)
  {
    NotBlank('t', "");
    NotBlank('i', "d");
  }

  /** A text that starts with a character that is no whitespace is not blank. */
  lemma {:induction false} NotBlank(c: char, rest: string)
    requires !DecimalText.IsWhitespace(c)
    ensures !Blank([c] + rest)
  {
    NotTrimmedAway(c, rest);
  }

  lemma {:induction false} NotTrimmedAway(c: char, rest: string)
    requires !DecimalText.IsWhitespace(c)
    ensures DecimalText.TrimEnd([c] + rest) != ""
  {
    if rest != "" {
      assert ([c] + rest)[..|rest|] == [c] + rest[..|rest| - 1];
      NotTrimmedAway(c, rest[..|rest| - 1]);
    }
  }

  /** `es` runs to the state `s`. */
  predicate Reaches(rules: Rules, es: seq<Event>, s: State) {
    Run(rules, DELETING, es) == s
  }

  lemma Then(rules: Rules, es: seq<Event>, s: State, e: Event)
    requires Reaches(rules, es, s)
    ensures Reaches(rules, es + [e], Step(rules, DELETING, s, e))
  {
    assert (es + [e])[..|es|] == es;
  }

  const KEYS_AB: map<Key, bool> := map["a" := true, "b" := true]
  const KEY_A: map<Key, bool> := map["a" := true]

  /** Two keys, inserted and synced. */
  lemma TwoSynced(rules: Rules) returns (es: seq<Event>)
    ensures Reaches(rules, es, State(KEYS_AB, KEYS_AB, KEYS_AB, [KEYS_AB], None, None, false, {}))
  {
    es := [];
    Then(rules, es, START, Insert("a", true));
    es := es + [Insert("a", true)];
    Then(rules, es, State(KEY_A, KEY_A, map[], [], None, None, false, {}), Insert("b", true));
    es := es + [Insert("b", true)];
    var both := State(map["a" := true]["b" := true], map["a" := true]["b" := true], map[], [], None, None, false, {});
    assert both == State(KEYS_AB, KEYS_AB, map[], [], None, None, false, {});
    Then(rules, es, both, SyncRead({"a", "b"}));
    es := es + [SyncRead({"a", "b"})];
    assert Restrict(KEYS_AB, {"a", "b"}) == KEYS_AB;
    Then(rules, es, State(KEYS_AB, KEYS_AB, map[], [KEYS_AB], None, None, false, {}), SyncLand(0));
    es := es + [SyncLand(0)];
    assert map[] + KEYS_AB == KEYS_AB;
  }

  lemma ReadsAB(rows: map<Key, bool>)
    requires rows == KEYS_AB
    ensures IsRead(rows, ["a", "b"])
  {
    assert SetOf(["a", "b"]) == {"a", "b"};
    assert (set k | k in rows && rows[k]) == {"a", "b"};
  }

  lemma ReadsA(rows: map<Key, bool>)
    requires "a" in rows && rows["a"] && forall k | k in rows && rows[k] :: k == "a"
    ensures IsRead(rows, ["a"])
  {
    assert SetOf(["a"]) == {"a"};
    assert (set k | k in rows && rows[k]) == {"a"};
  }

  /** Its one orphan is deleted. */
  lemma DecidesToDelete()
    ensures Decide(DELETING, ["a", "b"], ["a"]).Ok?
    ensures Decide(DELETING, ["a", "b"], ["a"]).value.deletes
    ensures SetOf(Decide(DELETING, ["a", "b"], ["a"]).value.orphans) == {"b"}
  {
    RefusesExactly(DELETING, ["a", "b"], ["a"]);
    CommonKeysBalance(DELETING, ["a", "b"], ["a"]);
    assert "a" in SetOf(["a", "b"]) && "a" in SetOf(["a"]);
    assert SetOf(["a", "b"]) - SetOf(["a"]) == {"b"};
    assert "b" in SetOf(Decide(DELETING, ["a", "b"], ["a"]).value.orphans);
  }

  /** With the source read first, a sync that lands between the reads makes its new row look gone. */
  lemma {:induction false} SourceFirstIsUnsafe(rules: Rules) returns (es: seq<Event>)
    requires !rules.destFirst
    ensures !Safe(Run(rules, DELETING, es))
  {
    es := SyncedBetweenReads(rules);
    ReadsAB(KEYS_AB);
    DeletingIsValid();
    Then(rules, es, State(KEYS_AB, KEYS_AB, KEYS_AB, [KEYS_AB], None, Some(["a"]), false, {}), ReadDest(["a", "b"]));
    es := es + [ReadDest(["a", "b"])];
    var s := State(KEYS_AB, KEYS_AB, KEYS_AB, [KEYS_AB], Some(["a", "b"]), Some(["a"]), false, {});
    es := FinishesUnsafe(rules, es, s);
  }

  /** The source is read, and then a new row is synced. */
  lemma SyncedBetweenReads(rules: Rules) returns (es: seq<Event>)
    requires !rules.destFirst
    ensures Reaches(rules, es, State(KEYS_AB, KEYS_AB, KEYS_AB, [KEYS_AB], None, Some(["a"]), false, {}))
  {
    es := SourceReadThenInsert(rules);
    Then(rules, es, State(KEYS_AB, KEYS_AB, map[], [], None, Some(["a"]), false, {}), SyncRead({"a", "b"}));
    es := es + [SyncRead({"a", "b"})];
    assert Restrict(KEYS_AB, {"a", "b"}) == KEYS_AB;
    Then(rules, es, State(KEYS_AB, KEYS_AB, map[], [KEYS_AB], None, Some(["a"]), false, {}), SyncLand(0));
    es := es + [SyncLand(0)];
    assert map[] + KEYS_AB == KEYS_AB;
  }

  /** The source is read, and then a key is inserted. */
  lemma SourceReadThenInsert(rules: Rules) returns (es: seq<Event>)
    requires !rules.destFirst
    ensures Reaches(rules, es, State(KEYS_AB, KEYS_AB, map[], [], None, Some(["a"]), false, {}))
  {
    es := [];
    Then(rules, es, START, Insert("a", true));
    es := es + [Insert("a", true)];
    ReadsA(KEY_A);
    DeletingIsValid();
    Then(rules, es, State(KEY_A, KEY_A, map[], [], None, None, false, {}), ReadSource(["a"]));
    es := es + [ReadSource(["a"])];
    Then(rules, es, State(KEY_A, KEY_A, map[], [], None, Some(["a"]), false, {}), Insert("b", true));
    es := es + [Insert("b", true)];
    assert KEY_A["b" := true] == KEYS_AB;
  }

  lemma FinishesUnsafe(rules: Rules, es: seq<Event>, s: State) returns (all: seq<Event>)
    requires Reaches(rules, es, s) && s.destRead == Some(["a", "b"]) && s.sourceRead == Some(["a"]) && !s.finished
    requires "b" in s.live
    ensures !Safe(Run(rules, DELETING, all))
  {
    all := es + [Finish];
    Then(rules, es, s, Finish);
    DecidesToDelete();
    assert "b" in Step(rules, DELETING, s, Finish).deleted;
  }

  /** A key used again after the source is read is deleted with its old row. */
  lemma ReuseIsUnsafe(rules: Rules) returns (es: seq<Event>)
    requires rules.destFirst && rules.reuse
    ensures !Safe(Run(rules, DELETING, es))
  {
    DeletingIsValid();
    es := TwoSynced(rules);
    ReadsAB(KEYS_AB);
    Then(rules, es, State(KEYS_AB, KEYS_AB, KEYS_AB, [KEYS_AB], None, None, false, {}), ReadDest(["a", "b"]));
    es := es + [ReadDest(["a", "b"])];
    Then(rules, es, State(KEYS_AB, KEYS_AB, KEYS_AB, [KEYS_AB], Some(["a", "b"]), None, false, {}), Remove("b"));
    es := es + [Remove("b")];
    assert KEYS_AB - {"b"} == KEY_A;
    ReadsA(KEY_A);
    Then(rules, es, State(KEY_A, KEYS_AB, KEYS_AB, [KEYS_AB], Some(["a", "b"]), None, false, {}), ReadSource(["a"]));
    es := es + [ReadSource(["a"])];
    var s := State(KEY_A, KEYS_AB, KEYS_AB, [KEYS_AB], Some(["a", "b"]), Some(["a"]), false, {});
    Then(rules, es, s, Insert("b", true));
    es := es + [Insert("b", true)];
    es := FinishesUnsafe(rules, es, Step(rules, DELETING, s, Insert("b", true)));
  }

  /** A row that leaves the window in the source only is deleted in the destination. */
  lemma LeavingIsUnsafe(rules: Rules) returns (es: seq<Event>)
    requires rules.destFirst && rules.leaves
    ensures !Safe(Run(rules, DELETING, es))
  {
    DeletingIsValid();
    es := TwoSynced(rules);
    Then(rules, es, State(KEYS_AB, KEYS_AB, KEYS_AB, [KEYS_AB], None, None, false, {}), Move("b", false));
    es := es + [Move("b", false)];
    var moved := KEYS_AB["b" := false];
    ReadsAB(KEYS_AB);
    Then(rules, es, State(moved, KEYS_AB, KEYS_AB, [KEYS_AB], None, None, false, {}), ReadDest(["a", "b"]));
    es := es + [ReadDest(["a", "b"])];
    ReadsA(moved);
    Then(rules, es, State(moved, KEYS_AB, KEYS_AB, [KEYS_AB], Some(["a", "b"]), None, false, {}), ReadSource(["a"]));
    es := es + [ReadSource(["a"])];
    var s := State(moved, KEYS_AB, KEYS_AB, [KEYS_AB], Some(["a", "b"]), Some(["a"]), false, {});
    es := FinishesUnsafe(rules, es, s);
  }

  /** A destination key the source never had is deleted though the source starts using it. */
  lemma ForeignIsUnsafe(rules: Rules) returns (es: seq<Event>)
    requires rules.destFirst && rules.foreign
    ensures !Safe(Run(rules, DELETING, es))
  {
    DeletingIsValid();
    es := TwoForeign(rules);
    ReadsAB(KEYS_AB);
    Then(rules, es, State(KEY_A, KEY_A, KEYS_AB, [], None, None, false, {}), ReadDest(["a", "b"]));
    es := es + [ReadDest(["a", "b"])];
    ReadsA(KEY_A);
    Then(rules, es, State(KEY_A, KEY_A, KEYS_AB, [], Some(["a", "b"]), None, false, {}), ReadSource(["a"]));
    es := es + [ReadSource(["a"])];
    var s := State(KEY_A, KEY_A, KEYS_AB, [], Some(["a", "b"]), Some(["a"]), false, {});
    Then(rules, es, s, Insert("b", true));
    es := es + [Insert("b", true)];
    es := FinishesUnsafe(rules, es, Step(rules, DELETING, s, Insert("b", true)));
  }

  /** Two destination keys, one of which the source has. */
  lemma TwoForeign(rules: Rules) returns (es: seq<Event>)
    requires rules.foreign
    ensures Reaches(rules, es, State(KEY_A, KEY_A, KEYS_AB, [], None, None, false, {}))
  {
    es := [];
    Then(rules, es, START, Insert("a", true));
    es := es + [Insert("a", true)];
    Then(rules, es, State(KEY_A, KEY_A, map[], [], None, None, false, {}), Foreign("a", true));
    es := es + [Foreign("a", true)];
    Then(rules, es, State(KEY_A, KEY_A, KEY_A, [], None, None, false, {}), Foreign("b", true));
    es := es + [Foreign("b", true)];
    assert KEY_A["b" := true] == KEYS_AB;
  }

  /** No interleaving deletes a key that is live in the source exactly when the destination is read first,
      keys are not reused, rows don't leave the window and destination keys came from the source. */
  lemma {:induction false} SafeIff(rules: Rules)
    ensures (forall cfg, es :: Safe(Run(rules, cfg, es))) <==> rules == SAFE_RULES
  {
    if rules == SAFE_RULES {
      forall cfg, es ensures Safe(Run(rules, cfg, es)) {
        RunKeepsInv(cfg, es);
      }
    } else {
      var es;
      if !rules.destFirst { es := SourceFirstIsUnsafe(rules); }
      else if rules.reuse { es := ReuseIsUnsafe(rules); }
      else if rules.leaves { es := LeavingIsUnsafe(rules); }
      else { es := ForeignIsUnsafe(rules); }
    }
  }

  // ----- alone -----

  predicate InWindow(rows: map<Key, bool>, k: Key) { k in rows && rows[k] }

  lemma OrphansAre(s: State, dest: seq<Key>, source: seq<Key>, k: Key)
    requires IsRead(s.dest, dest) && IsRead(s.live, source)
    ensures k in SetOf(Minus(dest, SetOf(source))) <==> InWindow(s.dest, k) && !InWindow(s.live, k)
  {
    MinusIs(dest, SetOf(source));
    assert k in SetOf(dest) <==> InWindow(s.dest, k);
    assert k in SetOf(source) <==> InWindow(s.live, k);
  }

  /** Nothing else happening, a delete run that succeeds leaves no key in the destination's window that the
      source's does not have, and every other row as it was. */
  lemma {:induction false} QuiescentRunRepairs(cfg: Config, s: State, dest: seq<Key>, source: seq<Key>)
    requires ValidConfig(cfg) && s.destRead.None? && s.sourceRead.None? && !s.finished && cfg.delete
    requires IsRead(s.dest, dest) && IsRead(s.live, source) && Decide(cfg, dest, source).Ok?
    ensures var read := Step(SAFE_RULES, cfg, Step(SAFE_RULES, cfg, s, ReadDest(dest)), ReadSource(source));
            var t := Step(SAFE_RULES, cfg, read, Finish);
            && t.live == s.live
            && (forall k :: InWindow(t.dest, k) ==> InWindow(t.live, k))
            && (forall k | k in s.dest && !(InWindow(s.dest, k) && !InWindow(s.live, k)) ::
                  k in t.dest && t.dest[k] == s.dest[k])
  {
    var read := s.(destRead := Some(dest), sourceRead := Some(source));
    assert Step(SAFE_RULES, cfg, Step(SAFE_RULES, cfg, s, ReadDest(dest)), ReadSource(source)) == read;
    forall k: Key {
      OrphansAre(s, dest, source, k);
    }
    ActRepairs(cfg, read, dest, source);
  }

  lemma ActRepairs(cfg: Config, s: State, dest: seq<Key>, source: seq<Key>)
    requires Decide(cfg, dest, source).Ok? && cfg.delete
    requires forall k :: k in SetOf(Minus(dest, SetOf(source))) <==> InWindow(s.dest, k) && !InWindow(s.live, k)
    ensures var t := Act(cfg, s, dest, source);
            && t.live == s.live
            && (forall k :: InWindow(t.dest, k) ==> InWindow(t.live, k))
            && (forall k | k in s.dest && !(InWindow(s.dest, k) && !InWindow(s.live, k)) ::
                  k in t.dest && t.dest[k] == s.dest[k])
  {
    var orphans := Minus(dest, SetOf(source));
    assert orphans == [] ==> SetOf(orphans) == {};
  }
}
