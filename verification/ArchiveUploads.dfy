/** Archive uploads and the tasks that write, complete and abort them, interleaved in any way
    (crates/quickhouse-core/src/archive.rs). */
module ArchiveUploads {
  import opened Options

  /** What is called on one upload's `BufWriter`. */
  datatype Call = PutBegins | PutEnds | Shutdown | Abort

  /** One upload: whether its slot is `Open`, whether a put holds its mutex, what whoever took the
      writer out is about to call, and every call made so far. */
  datatype Upload = Upload(open: bool, locked: bool, pending: Option<Call>, log: seq<Call>)

  /** One `abort_unfinished`: the uploads it took, how many of them it has closed, and the one it is
      aborting; `upTo` uploads had been started when it took them. */
  datatype Sweep = Sweep(upTo: nat, taken: seq<nat>, next: nat, current: Option<nat>)

  datatype State = State(uploads: seq<Upload>, started: seq<nat>, sweeps: seq<Sweep>)

  datatype Event =
    | Start
    | Put(u: nat)            // a write takes the mutex
    | PutDone(u: nat)        // and lets it go
    | TakeToComplete(u: nat) // the slot is replaced by `Closed`
    | TakeToAbort(u: nat)
    | CallPending(u: nat)    // the shutdown or abort itself, outside the mutex
    | SweepTakes             // `abort_unfinished` takes the list
    | SweepLocks(k: nat)     // it replaces the next upload's slot
    | SweepCalls(k: nat)     // and aborts it

  // ----- the steps -----

  const NO_UPLOADS := State([], [], [])

  function SetUpload(s: State, u: nat, x: Upload): State
    requires u < |s.uploads|
  {
    s.(uploads := s.uploads[u := x])
  }

  /** The slot is replaced by `Closed` under the mutex; a writer that was in it is the taker's to end. */
  function Take(x: Upload, call: Call): Upload {
    if x.open then x.(open := false, pending := Some(call)) else x
  }

  function Finish(x: Upload): Upload {
    match x.pending
    case None => x
    case Some(call) => x.(pending := None, log := x.log + [call])
  }

  predicate Reachable(s: State, u: nat) {
    u < |s.uploads| && !s.uploads[u].locked
  }

  /** An event that can't happen, one waiting for the mutex included, changes nothing. */
  function Step(s: State, e: Event): State {
    match e
    case Start => State(s.uploads + [Upload(true, false, None, [])], s.started + [|s.uploads|], s.sweeps)
    case Put(u) =>
      if Reachable(s, u) && s.uploads[u].open then
        SetUpload(s, u, s.uploads[u].(locked := true, log := s.uploads[u].log + [PutBegins]))
      else s
    case PutDone(u) =>
      if u < |s.uploads| && s.uploads[u].locked then
        SetUpload(s, u, s.uploads[u].(locked := false, log := s.uploads[u].log + [PutEnds]))
      else s
    case TakeToComplete(u) => if Reachable(s, u) then SetUpload(s, u, Take(s.uploads[u], Shutdown)) else s
    case TakeToAbort(u) => if Reachable(s, u) then SetUpload(s, u, Take(s.uploads[u], Abort)) else s
    case CallPending(u) =>
      if u < |s.uploads| && !Sweeping(s, u) then SetUpload(s, u, Finish(s.uploads[u])) else s
    case SweepTakes => State(s.uploads, [], s.sweeps + [Sweep(|s.uploads|, s.started, 0, None)])
    case SweepLocks(k) => if SweepCanLock(s, k) then SweepLock(s, k) else s
    case SweepCalls(k) =>
      if k < |s.sweeps| && s.sweeps[k].current.Some? && s.sweeps[k].current.value < |s.uploads| then
        var u := s.sweeps[k].current.value;
        SetUpload(s, u, Finish(s.uploads[u])).(sweeps := s.sweeps[k := s.sweeps[k].(current := None)])
      else s
  }

  /** Whether a sweep holds an upload's writer. */
  predicate Sweeping(s: State, u: nat) {
    exists k | 0 <= k < |s.sweeps| :: s.sweeps[k].current == Some(u)
  }

  predicate SweepCanLock(s: State, k: nat) {
    k < |s.sweeps| && s.sweeps[k].current == None && s.sweeps[k].next < |s.sweeps[k].taken|
    && Reachable(s, s.sweeps[k].taken[s.sweeps[k].next])
  }

  /** The sweep replaces its next upload's slot, and has its writer to abort if the slot was open. */
  function SweepLock(s: State, k: nat): State
    requires SweepCanLock(s, k)
  {
    var sweep := s.sweeps[k];
    var u := sweep.taken[sweep.next];
    var current := if s.uploads[u].open then Some(u) else None;
    State(s.uploads[u := Take(s.uploads[u], Abort)], s.started,
          s.sweeps[k := sweep.(next := sweep.next + 1, current := current)])
  }

  function Run(es: seq<Event>): State {
    if es == [] then NO_UPLOADS else Step(Run(es[..|es| - 1]), es[|es| - 1])
  }

  // ----- each upload -----

  predicate Terminal(c: Call) { c == Shutdown || c == Abort }

  /** Puts one after the other, the last of them maybe still going on. */
  predicate Puts(log: seq<Call>) {
    forall i | 0 <= i < |log| :: log[i] == if i % 2 == 0 then PutBegins else PutEnds
  }

  /** What every upload keeps: its log is finished puts, then at most one shutdown or abort, which is
      called by the one task that took the writer out. */
  predicate UploadInv(x: Upload) {
    if x.open then x.pending == None && Puts(x.log) && (x.locked <==> |x.log| % 2 == 1)
    else
      && !x.locked
      && (x.pending.Some? ==> Terminal(x.pending.value) && Puts(x.log) && |x.log| % 2 == 0)
      && (x.pending.None? ==> x.log != [] && Terminal(x.log[|x.log| - 1]) && Puts(x.log[..|x.log| - 1])
                              && |x.log| % 2 == 1)
  }

  /** Whatever step an upload takes keeps its invariant. */
  predicate StepsKeepInv(x: Upload, call: Call) {
    && (!x.locked ==> UploadInv(Take(x, call))) && UploadInv(Finish(x))
    && (x.open && !x.locked ==> UploadInv(x.(locked := true, log := x.log + [PutBegins])))
    && (x.locked ==> UploadInv(x.(locked := false, log := x.log + [PutEnds])))
  }

  lemma UploadSteps(x: Upload, call: Call)
    requires UploadInv(x) && Terminal(call)
    ensures StepsKeepInv(x, call)
  {
    if x.pending.Some? {
      assert (x.log + [x.pending.value])[..|x.log|] == x.log;
    }
  }

  predicate UploadsInv(s: State) {
    forall u | 0 <= u < |s.uploads| :: UploadInv(s.uploads[u])
  }

  lemma StepKeepsUpload(s: State, e: Event, u: nat)
    requires UploadsInv(s) && u < |Step(s, e).uploads|
    ensures UploadInv(Step(s, e).uploads[u])
  {
    if u < |s.uploads| {
      UploadSteps(s.uploads[u], Shutdown);
      UploadSteps(s.uploads[u], Abort);
    }
  }

  lemma StepKeepsUploads(s: State, e: Event)
    requires UploadsInv(s)
    ensures UploadsInv(Step(s, e))
  {
    forall u | 0 <= u < |Step(s, e).uploads| ensures UploadInv(Step(s, e).uploads[u]) {
      StepKeepsUpload(s, e, u);
    }
  }

  lemma {:induction false} RunKeepsUploads(es: seq<Event>)
    ensures UploadsInv(Run(es))
  {
    if es != [] {
      RunKeepsUploads(es[..|es| - 1]);
      StepKeepsUploads(Run(es[..|es| - 1]), es[|es| - 1]);
    }
  }

  /** In every interleaving an upload gets at most one shutdown or abort, nothing is called after it, and
      no put is going on when it is called. */
  lemma {:induction false} EndsAtMostOnce(es: seq<Event>, u: nat, i: nat)
    requires u < |Run(es).uploads| && i < |Run(es).uploads[u].log| && Terminal(Run(es).uploads[u].log[i])
    ensures i == |Run(es).uploads[u].log| - 1
    ensures !Run(es).uploads[u].open && Run(es).uploads[u].pending == None
    ensures i % 2 == 0 && Puts(Run(es).uploads[u].log[..i])
  {
    RunKeepsUploads(es);
    TerminalIsLast(Run(es).uploads[u], i);
  }

  lemma TerminalIsLast(x: Upload, i: nat)
    requires UploadInv(x) && i < |x.log| && Terminal(x.log[i])
    ensures i == |x.log| - 1 && !x.open && x.pending == None && i % 2 == 0 && Puts(x.log[..i])
  {
  }

  /** A closed upload stays closed, and once its end is called its log is final. */
  lemma {:induction false} ClosedForGood(s: State, e: Event, u: nat)
    requires UploadsInv(s) && u < |s.uploads| && !s.uploads[u].open
    ensures u < |Step(s, e).uploads| && !Step(s, e).uploads[u].open
    ensures s.uploads[u].pending == None ==> Step(s, e).uploads[u] == s.uploads[u]
  {
  }

  // ----- each sweep -----

  /** A sweep has closed the uploads it got past. */
  predicate SweepInv(s: State, sweep: Sweep) {
    && sweep.upTo <= |s.uploads| && sweep.next <= |sweep.taken|
    && (forall i | 0 <= i < |sweep.taken| :: sweep.taken[i] < |s.uploads|)
    && (forall i | 0 <= i < sweep.next :: !s.uploads[sweep.taken[i]].open)
    && (sweep.current.Some? ==> sweep.current.value < |s.uploads|)
  }

  /** Whether a sweep up to the `last` took an upload. */
  predicate TakenBy(sweeps: seq<Sweep>, u: nat, last: nat) {
    exists j | 0 <= j <= last && j < |sweeps| :: u in sweeps[j].taken
  }

  /** Every upload is still listed or was taken by a sweep. */
  predicate Listed(s: State) {
    && (forall i | 0 <= i < |s.started| :: s.started[i] < |s.uploads|)
    && (forall u | 0 <= u < |s.uploads| :: u in s.started || TakenBy(s.sweeps, u, |s.sweeps|))
  }

  /** The first `k + 1` sweeps took every upload registered before the last of them. */
  predicate CoveredBy(sweeps: seq<Sweep>, k: nat)
    requires k < |sweeps|
  {
    forall u | 0 <= u < sweeps[k].upTo :: TakenBy(sweeps, u, k)
  }

  predicate Covered(s: State) {
    forall k | 0 <= k < |s.sweeps| :: CoveredBy(s.sweeps, k)
  }

  predicate SweepsInv(s: State) {
    forall k | 0 <= k < |s.sweeps| :: SweepInv(s, s.sweeps[k])
  }

  /** Sweeps are added, and what one took never changes. */
  predicate SameTaken(a: seq<Sweep>, b: seq<Sweep>) {
    |a| <= |b| && forall j | 0 <= j < |a| :: b[j].taken == a[j].taken && b[j].upTo == a[j].upTo
  }

  lemma StepTakes(s: State, e: Event)
    ensures SameTaken(s.sweeps, Step(s, e).sweeps)
    ensures |Step(s, e).uploads| == |s.uploads| + (if e.Start? then 1 else 0)
    ensures Step(s, e).started
         == if e.Start? then s.started + [|s.uploads|] else if e.SweepTakes? then [] else s.started
  {
  }

  lemma TakenStays(a: seq<Sweep>, b: seq<Sweep>, u: nat, n: nat)
    requires SameTaken(a, b) && TakenBy(a, u, n)
    ensures forall m: nat | m >= n :: TakenBy(b, u, m)
  {
    var j :| 0 <= j <= n && j < |a| && u in a[j].taken;
    assert u in b[j].taken;
  }

  lemma StepKeepsListed(s: State, e: Event)
    requires Listed(s)
    ensures Listed(Step(s, e))
  {
    StepTakes(s, e);
    var t := Step(s, e);
    forall u: nat | u < |t.uploads| ensures u in t.started || TakenBy(t.sweeps, u, |t.sweeps|) {
      if u == |s.uploads| {
        assert t.started[|s.started|] == u;
      } else if u in s.started {
        if e.SweepTakes? {
          assert t.sweeps[|s.sweeps|].taken == s.started;
        }
      } else {
        TakenStays(s.sweeps, t.sweeps, u, |s.sweeps|);
      }
    }
  }

  lemma StepKeepsCovered(s: State, e: Event)
    requires Listed(s) && Covered(s)
    ensures Covered(Step(s, e))
  {
    StepTakes(s, e);
    StepKeepsListed(s, e);
    var t := Step(s, e);
    forall k: nat | k < |t.sweeps| ensures CoveredBy(t.sweeps, k) {
      forall u | 0 <= u < t.sweeps[k].upTo ensures TakenBy(t.sweeps, u, k) {
        if k < |s.sweeps| {
          assert CoveredBy(s.sweeps, k);
          TakenStays(s.sweeps, t.sweeps, u, k);
        } else {
          assert u !in t.started;
        }
      }
    }
  }

  lemma SweepSurvives(s: State, e: Event, sweep: Sweep)
    requires SweepInv(s, sweep)
    ensures SweepInv(Step(s, e), sweep)
  {
    StepTakes(s, e);
    forall u: nat | u < |s.uploads| && !s.uploads[u].open ensures !Step(s, e).uploads[u].open {
    }
  }

  lemma StepKeepsSweeps(s: State, e: Event)
    requires SweepsInv(s) && Listed(s)
    ensures SweepsInv(Step(s, e))
  {
    var t := Step(s, e);
    forall k: nat | k < |t.sweeps| ensures SweepInv(t, t.sweeps[k]) {
      if k < |s.sweeps| {
        SweepSurvives(s, e, s.sweeps[k]);
      }
    }
  }

  lemma {:induction false} RunKeepsSweeps(es: seq<Event>)
    ensures Listed(Run(es)) && Covered(Run(es)) && SweepsInv(Run(es))
  {
    if es != [] {
      RunKeepsSweeps(es[..|es| - 1]);
      var s, e := Run(es[..|es| - 1]), es[|es| - 1];
      StepKeepsListed(s, e);
      StepKeepsCovered(s, e);
      StepKeepsSweeps(s, e);
    }
  }

  predicate Finished(sweep: Sweep) {
    sweep.next == |sweep.taken| && sweep.current == None
  }

  /** Once an `abort_unfinished` is done, every upload it took is closed. */
  lemma {:induction false} SweepClosesItsOwn(es: seq<Event>, k: nat, u: nat)
    requires k < |Run(es).sweeps| && Finished(Run(es).sweeps[k]) && u in Run(es).sweeps[k].taken
    ensures u < |Run(es).uploads| && !Run(es).uploads[u].open
  {
    RunKeepsSweeps(es);
    assert SweepInv(Run(es), Run(es).sweeps[k]);
  }

  /** Once an `abort_unfinished` and those that took the list before it are done, every upload registered
      before it took the list is closed. */
  lemma {:induction false} SweptAreClosed(es: seq<Event>, k: nat, u: nat)
    requires k < |Run(es).sweeps| && forall j | 0 <= j <= k :: Finished(Run(es).sweeps[j])
    requires u < Run(es).sweeps[k].upTo
    ensures u < |Run(es).uploads| && !Run(es).uploads[u].open
  {
    RunKeepsSweeps(es);
    var s := Run(es);
    assert CoveredBy(s.sweeps, k) && TakenBy(s.sweeps, u, k);
    var j :| 0 <= j <= k && j < |s.sweeps| && u in s.sweeps[j].taken;
    SweepClosesItsOwn(es, j, u);
  }

  /** Of two that take the list the second may finish, with nothing to close, before the first has begun. */
  lemma {:induction false} EarlierSweepsMatter()
    ensures var s := Run([Start, SweepTakes, SweepTakes]);
            |s.sweeps| == 2 && Finished(s.sweeps[1]) && 0 < s.sweeps[1].upTo && s.uploads[0].open
  {
    var es := [Start, SweepTakes, SweepTakes];
    assert es[..2] == [Start, SweepTakes] && es[..2][..1] == [Start] && es[..1][..0] == [];
    assert Run([Start]) == Step(NO_UPLOADS, Start);
    assert Run([Start, SweepTakes]) == Step(Run([Start]), SweepTakes);
  }
}
