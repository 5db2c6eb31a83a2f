/** The process-wide memory budget: a fair semaphore with a permit a byte
    (crates/quickhouse-core/src/memory.rs). */
module MemoryBudget {
  import opened Options
  import opened Collections

  const MAX_SEMAPHORE: nat := 0x1FFF_FFFF_FFFF_FFFF
  const MAX_PERMITS: nat := 0xFFFF_FFFF
  const USIZE: nat := 0x1_0000_0000_0000_0000

  function Min(a: nat, b: nat): nat { if a < b then a else b }

  /** The semaphore's permits for a ceiling of `max` bytes. */
  function Permits(max: nat): nat { Min(max, MAX_SEMAPHORE) }

  /** The permits a batch of `size` bytes asks for: clamped to the budget and to a `u32`, and at least one. */
  function Want(max: nat, size: nat): nat {
    var clamped := Min(Min(size, max), MAX_PERMITS);
    if clamped == 0 then 1 else clamped
  }

  datatype Holder = Holder(size: nat, permits: nat)

  /** A pending `reserve`: the first in line keeps the permits it has been given so far. */
  datatype Waiter = Waiter(size: nat, want: nat, got: nat)

  datatype Sem = Sem(free: nat, held: seq<Holder>, waiters: seq<Waiter>)

  datatype Event = Reserve(size: nat) | TryReserve(size: nat) | Drop(i: nat) | Cancel(i: nat)

  // ----- the steps -----

  function ServeHead(s: Sem): Sem
    requires s.waiters != []
  {
    Sem(s.free, s.held + [Holder(s.waiters[0].size, s.waiters[0].want)], s.waiters[1..])
  }

  /** `n` permits come back: waiters are served in order, and what none of them needs is free. */
  function Give(s: Sem, n: nat): Sem
    requires forall i | 0 <= i < |s.waiters| :: s.waiters[i].got < s.waiters[i].want
    decreases |s.waiters|
  {
    if s.waiters == [] then s.(free := s.free + n)
    else
      var head := s.waiters[0];
      var need := head.want - head.got;
      if n < need then s.(waiters := [head.(got := head.got + n)] + s.waiters[1..])
      else Give(ServeHead(s), n - need)
  }

  function Without<T>(xs: seq<T>, i: nat): (r: seq<T>)
    requires i < |xs|
    ensures |r| == |xs| - 1
  {
    xs[..i] + xs[i + 1..]
  }

  function Start(max: nat): Sem { Sem(Permits(max), [], []) }

  predicate Waiting(s: Sem) {
    forall i | 0 <= i < |s.waiters| :: s.waiters[i].got < s.waiters[i].want
  }

  function Step(max: nat, s: Sem, e: Event): Sem
    requires Waiting(s)
  {
    match e
    case Reserve(size) =>
      var want := Want(max, size);
      if want <= s.free then Sem(s.free - want, s.held + [Holder(size, want)], s.waiters)
      else Sem(0, s.held, s.waiters + [Waiter(size, want, s.free)])
    case TryReserve(size) =>
      var want := Want(max, size);
      if want <= s.free then Sem(s.free - want, s.held + [Holder(size, want)], s.waiters) else s
    case Drop(i) =>
      if i < |s.held| then Give(s.(held := Without(s.held, i)), s.held[i].permits) else s
    case Cancel(i) =>
      if i < |s.waiters| then Give(s.(waiters := Without(s.waiters, i)), s.waiters[i].got) else s
  }

  // ----- what holds in every reachable state -----

  function HeldPermits(held: seq<Holder>): nat {
    if held == [] then 0 else HeldPermits(held[..|held| - 1]) + held[|held| - 1].permits
  }

  function HeldBytes(held: seq<Holder>): nat {
    if held == [] then 0 else HeldBytes(held[..|held| - 1]) + held[|held| - 1].size
  }

  predicate WellHeld(max: nat, held: seq<Holder>) {
    forall i | 0 <= i < |held| :: held[i].permits == Want(max, held[i].size)
  }

  predicate WellQueued(max: nat, waiters: seq<Waiter>) {
    forall i | 0 <= i < |waiters| ::
      && waiters[i].want == Want(max, waiters[i].size) && waiters[i].got < waiters[i].want
      && (i > 0 ==> waiters[i].got == 0)
  }

  /** The permits given to waiters so far: only the first in line has any. */
  function Given(waiters: seq<Waiter>): nat {
    if waiters == [] then 0 else waiters[0].got
  }

  /** All the permits are outstanding, given, free or among `n` on their way back, and nothing is free
      while someone waits. */
  predicate InvWith(max: nat, s: Sem, n: nat) {
    && s.free + HeldPermits(s.held) + Given(s.waiters) + n == Permits(max)
    && (s.waiters != [] ==> s.free == 0)
    && WellHeld(max, s.held) && WellQueued(max, s.waiters)
  }

  predicate Inv(max: nat, s: Sem) { InvWith(max, s, 0) }

  lemma {:induction false} HeldWithout(held: seq<Holder>, i: nat)
    requires i < |held|
    ensures HeldPermits(Without(held, i)) + held[i].permits == HeldPermits(held)
    ensures HeldBytes(Without(held, i)) + held[i].size == HeldBytes(held)
  {
    var n := |held| - 1;
    if i == n {
      assert Without(held, i) == held[..n];
    } else {
      HeldWithout(held[..n], i);
      assert Without(held, i)[..n - 1] == Without(held[..n], i);
    }
  }

  lemma HeldWith(held: seq<Holder>, h: Holder)
    ensures HeldPermits(held + [h]) == HeldPermits(held) + h.permits
    ensures HeldBytes(held + [h]) == HeldBytes(held) + h.size
  {
    assert (held + [h])[..|held|] == held;
  }

  lemma ServeHeadKeepsInv(max: nat, s: Sem, n: nat)
    requires InvWith(max, s, n) && s.waiters != [] && n >= s.waiters[0].want - s.waiters[0].got
    ensures InvWith(max, ServeHead(s), n - (s.waiters[0].want - s.waiters[0].got))
  {
    HeldWith(s.held, Holder(s.waiters[0].size, s.waiters[0].want));
  }

  lemma {:induction false} GiveKeepsInv(max: nat, s: Sem, n: nat)
    requires InvWith(max, s, n)
    ensures Inv(max, Give(s, n))
    decreases |s.waiters|
  {
    if s.waiters != [] && n >= s.waiters[0].want - s.waiters[0].got {
      ServeHeadKeepsInv(max, s, n);
      GiveKeepsInv(max, ServeHead(s), n - (s.waiters[0].want - s.waiters[0].got));
    }
  }

  lemma GrantKeepsInv(max: nat, s: Sem, size: nat)
    requires Inv(max, s) && Want(max, size) <= s.free
    ensures Inv(max, Sem(s.free - Want(max, size), s.held + [Holder(size, Want(max, size))], s.waiters))
  {
    HeldWith(s.held, Holder(size, Want(max, size)));
  }

  lemma QueueKeepsInv(max: nat, s: Sem, size: nat)
    requires Inv(max, s) && Want(max, size) > s.free
    ensures Inv(max, Sem(0, s.held, s.waiters + [Waiter(size, Want(max, size), s.free)]))
  {
  }

  lemma DropKeepsInv(max: nat, s: Sem, i: nat)
    requires Inv(max, s) && i < |s.held|
    ensures Inv(max, Give(s.(held := Without(s.held, i)), s.held[i].permits))
  {
    HeldWithout(s.held, i);
    GiveKeepsInv(max, s.(held := Without(s.held, i)), s.held[i].permits);
  }

  lemma CancelKeepsInv(max: nat, s: Sem, i: nat)
    requires Inv(max, s) && i < |s.waiters|
    ensures WellQueued(max, Without(s.waiters, i))
    ensures Inv(max, Give(s.(waiters := Without(s.waiters, i)), s.waiters[i].got))
  {
    GiveKeepsInv(max, s.(waiters := Without(s.waiters, i)), s.waiters[i].got);
  }

  lemma {:induction false} StepKeepsInv(max: nat, s: Sem, e: Event)
    requires Inv(max, s)
    ensures Inv(max, Step(max, s, e))
  {
    match e {
      case Reserve(size) =>
        if Want(max, size) <= s.free { GrantKeepsInv(max, s, size); } else { QueueKeepsInv(max, s, size); }
      case TryReserve(size) =>
        if Want(max, size) <= s.free { GrantKeepsInv(max, s, size); }
      case Drop(i) =>
        if i < |s.held| { DropKeepsInv(max, s, i); }
      case Cancel(i) =>
        if i < |s.waiters| { CancelKeepsInv(max, s, i); }
    }
  }

  /** The state after a run of events. */
  function Run(max: nat, es: seq<Event>): (s: Sem)
    ensures Inv(max, s)
  {
    if es == [] then Start(max)
    else
      var before := Run(max, es[..|es| - 1]);
      StepKeepsInv(max, before, es[|es| - 1]);
      Step(max, before, es[|es| - 1])
  }

  // ----- what the invariant means -----

  predicate SizesAtMost(held: seq<Holder>, bound: nat) {
    forall i | 0 <= i < |held| :: held[i].size <= bound
  }

  lemma {:induction false} BytesWithinPermits(max: nat, held: seq<Holder>)
    requires WellHeld(max, held) && SizesAtMost(held, Min(max, MAX_PERMITS))
    ensures HeldBytes(held) <= HeldPermits(held)
  {
    if held != [] {
      BytesWithinPermits(max, held[..|held| - 1]);
    }
  }

  /** In every reachable state the bytes in flight are within the ceiling, when each batch is at most
      min(max, 2^32 - 1) bytes. */
  lemma {:induction false} BytesWithinCeiling(max: nat, es: seq<Event>)
    requires SizesAtMost(Run(max, es).held, Min(max, MAX_PERMITS))
    ensures HeldBytes(Run(max, es).held) <= max
  {
    BytesWithinPermits(max, Run(max, es).held);
  }

  lemma {:induction false} PermitsOfTwo(held: seq<Holder>, i: nat, j: nat)
    requires i < |held| && j < |held| && i != j
    ensures held[i].permits + held[j].permits <= HeldPermits(held)
  {
    HeldWithout(held, i);
    var rest := Without(held, i);
    var at := if j < i then j else j - 1;
    assert rest[at] == held[j];
    HeldWithout(rest, at);
  }

  /** With a ceiling below 2^32 a batch of at least that size runs alone. */
  lemma {:induction false} OversizedRunsAlone(max: nat, es: seq<Event>, i: nat)
    requires 0 < max <= MAX_PERMITS
    requires i < |Run(max, es).held| && Run(max, es).held[i].size >= max
    ensures |Run(max, es).held| == 1 && Run(max, es).free == 0
  {
    var s := Run(max, es);
    if |s.held| > 1 {
      var j: nat := if i == 0 then 1 else 0;
      PermitsOfTwo(s.held, i, j);
    } else {
      HeldWithout(s.held, i);
    }
  }

  /** A waiter is never left waiting with nothing outstanding. */
  lemma {:induction false} NobodyWaitsForNothing(max: nat, es: seq<Event>)
    requires 0 < max && Run(max, es).held == []
    ensures Run(max, es).waiters == [] && Run(max, es).free == Permits(max)
  {
  }

  /** A request is granted at once exactly when nobody waits and its permits are free; otherwise it goes
      to the back of the line. */
  lemma {:induction false} NoOvertaking(max: nat, es: seq<Event>, size: nat)
    ensures var s, t := Run(max, es), Run(max, es + [Reserve(size)]);
            if s.waiters == [] && Want(max, size) <= s.free
            then t.waiters == [] && t.held == s.held + [Holder(size, Want(max, size))]
            else t.held == s.held && |t.waiters| == |s.waiters| + 1
                 && t.waiters[..|s.waiters|] == s.waiters && t.waiters[|s.waiters|].size == size
    ensures var s, t := Run(max, es), Run(max, es + [TryReserve(size)]);
            if s.waiters == [] && Want(max, size) <= s.free
            then t.held == s.held + [Holder(size, Want(max, size))] else t == s
  {
    assert (es + [Reserve(size)])[..|es|] == es;
    assert (es + [TryReserve(size)])[..|es|] == es;
  }

  function Granted(waiters: seq<Waiter>): (held: seq<Holder>)
    ensures |held| == |waiters|
  {
    seq(|waiters|, i requires 0 <= i < |waiters| => Holder(waiters[i].size, waiters[i].want))
  }

  lemma GrantedSplits(waiters: seq<Waiter>, k: nat)
    requires 0 < k <= |waiters|
    ensures Granted(waiters[..k]) == [Holder(waiters[0].size, waiters[0].want)] + Granted(waiters[1..][..k - 1])
  {
  }

  /** Returned permits serve a prefix of the line, in order. */
  lemma {:induction false} GivenInOrder(s: Sem, n: nat) returns (k: nat)
    requires Waiting(s)
    ensures k <= |s.waiters| && Give(s, n).held == s.held + Granted(s.waiters[..k])
    ensures Granted(Give(s, n).waiters) == Granted(s.waiters[k..])
    decreases |s.waiters|
  {
    k := 0;
    assert s.waiters[..0] == [] && s.waiters[0..] == s.waiters;
    assert Granted([]) == [] && s.held + [] == s.held;
    if s.waiters != [] {
      var head := s.waiters[0];
      var need := head.want - head.got;
      if n >= need {
        k := GivenInOrder(ServeHead(s), n - need);
        GrantedSplits(s.waiters, k + 1);
        assert s.waiters[1..][k..] == s.waiters[k + 1..];
        k := k + 1;
      }
    }
  }

  /** Each release leaves one request fewer, so holders that drop serve every waiter. */
  lemma {:induction false} ReleaseServes(max: nat, es: seq<Event>, i: nat)
    requires 0 < max && i < |Run(max, es).held|
    ensures var s, t := Run(max, es), Run(max, es + [Drop(i)]);
            && |t.held| + |t.waiters| == |s.held| + |s.waiters| - 1
            && (t.held == [] ==> t.waiters == [])
  {
    assert (es + [Drop(i)])[..|es|] == es;
    var s := Run(max, es);
    var freed := s.(held := Without(s.held, i));
    var k := GivenInOrder(freed, s.held[i].permits);
    NobodyWaits(max, es, Drop(i));
    assert |Granted(Give(freed, s.held[i].permits).waiters)| == |s.waiters| - k;
  }

  lemma NobodyWaits(max: nat, es: seq<Event>, e: Event)
    requires 0 < max
    ensures Run(max, es + [e]).held == [] ==> Run(max, es + [e]).waiters == []
  {
    if Run(max, es + [e]).held == [] {
      NobodyWaitsForNothing(max, es + [e]);
    }
  }

  // ----- every waiter is served -----

  /** The requests a release serves. */
  function ServedBy(max: nat, s: Sem, i: nat): seq<Holder>
    requires Inv(max, s) && i < |s.held|
  {
    var held := Step(max, s, Drop(i)).held;
    if |held| < |s.held| then [] else held[|s.held| - 1..]
  }

  lemma DropServes(max: nat, s: Sem, i: nat)
    requires Inv(max, s) && i < |s.held|
    ensures var t := Step(max, s, Drop(i));
            && ServedBy(max, s, i) + Granted(t.waiters) == Granted(s.waiters)
            && Requests(t) == Requests(s) - 1
  {
    var freed, n := s.(held := Without(s.held, i)), s.held[i].permits;
    var k := GivenInOrder(freed, n);
    assert |Granted(Give(freed, n).waiters)| == |s.waiters| - k;
    assert Give(freed, n).held[|s.held| - 1..] == Granted(s.waiters[..k]);
    GrantedInTwo(s.waiters, k);
  }

  lemma GrantedInTwo(waiters: seq<Waiter>, k: nat)
    requires k <= |waiters|
    ensures Granted(waiters[..k]) + Granted(waiters[k..]) == Granted(waiters)
  {
  }

  /** Reservations that are dropped one after the other, each held when its turn comes. */
  predicate Droppable(max: nat, s: Sem, ds: seq<nat>)
    requires Inv(max, s)
    decreases |ds|
  {
    ds == [] ||
    (ds[0] < |s.held| && (StepKeepsInv(max, s, Drop(ds[0])); Droppable(max, Step(max, s, Drop(ds[0])), ds[1..])))
  }

  /** The state after them. */
  function AfterDrops(max: nat, s: Sem, ds: seq<nat>): (t: Sem)
    requires Inv(max, s)
    ensures Inv(max, t)
    decreases |ds|
  {
    if ds == [] then s
    else
      StepKeepsInv(max, s, Drop(ds[0]));
      AfterDrops(max, Step(max, s, Drop(ds[0])), ds[1..])
  }

  /** What they serve, in the order it is served. */
  function Served(max: nat, s: Sem, ds: seq<nat>): seq<Holder>
    requires Inv(max, s) && Droppable(max, s, ds)
    decreases |ds|
  {
    if ds == [] then []
    else
      StepKeepsInv(max, s, Drop(ds[0]));
      ServedBy(max, s, ds[0]) + Served(max, Step(max, s, Drop(ds[0])), ds[1..])
  }

  /** Drops serve the line from its front, in order. */
  lemma {:induction false} DropsServeInOrder(max: nat, s: Sem, ds: seq<nat>)
    requires Inv(max, s) && Droppable(max, s, ds)
    ensures Served(max, s, ds) + Granted(AfterDrops(max, s, ds).waiters) == Granted(s.waiters)
    decreases |ds|
  {
    if ds == [] {
      assert [] + Granted(s.waiters) == Granted(s.waiters);
    } else {
      StepKeepsInv(max, s, Drop(ds[0]));
      var t := Step(max, s, Drop(ds[0]));
      DropServes(max, s, ds[0]);
      DropsServeInOrder(max, t, ds[1..]);
      Associate(ServedBy(max, s, ds[0]), Served(max, t, ds[1..]), Granted(AfterDrops(max, t, ds[1..]).waiters));
    }
  }

  function Requests(s: Sem): nat { |s.held| + |s.waiters| }

  /** Each leaves a request fewer. */
  lemma {:induction false} DropsCount(max: nat, s: Sem, ds: seq<nat>)
    requires Inv(max, s) && Droppable(max, s, ds)
    ensures Requests(AfterDrops(max, s, ds)) + |ds| == Requests(s)
    decreases |ds|
  {
    if ds != [] {
      StepKeepsInv(max, s, Drop(ds[0]));
      DropServes(max, s, ds[0]);
      DropsCount(max, Step(max, s, Drop(ds[0])), ds[1..]);
    }
  }

  function DropEvents(ds: seq<nat>): (es: seq<Event>)
    ensures |es| == |ds| && forall i | 0 <= i < |ds| :: es[i] == Drop(ds[i])
  {
    seq(|ds|, i requires 0 <= i < |ds| => Drop(ds[i]))
  }

  lemma {:induction false} DropsAreARun(max: nat, es: seq<Event>, ds: seq<nat>)
    ensures Run(max, es + DropEvents(ds)) == AfterDrops(max, Run(max, es), ds)
    decreases |ds|
  {
    if ds == [] {
      assert es + DropEvents(ds) == es;
    } else {
      RunMore(max, es, Drop(ds[0]));
      DropsAreARun(max, es + [Drop(ds[0])], ds[1..]);
      FirstDrop(es, ds);
    }
  }

  lemma FirstDrop(es: seq<Event>, ds: seq<nat>)
    requires ds != []
    ensures es + DropEvents(ds) == (es + [Drop(ds[0])]) + DropEvents(ds[1..])
  {
  }

  /** From any reachable state, as many drops as there are requests leave nothing held and nobody waiting, with
      every waiter served, once and in line order. */
  lemma {:induction false} DropsServeEveryone(max: nat, es: seq<Event>, ds: seq<nat>)
    requires 0 < max && Droppable(max, Run(max, es), ds)
    requires |ds| == Requests(Run(max, es))
    ensures var t := Run(max, es + DropEvents(ds));
            t.held == [] && t.waiters == [] && t.free == Permits(max)
    ensures Served(max, Run(max, es), ds) == Granted(Run(max, es).waiters)
  {
    var s := Run(max, es);
    DropsAreARun(max, es, ds);
    DropsServeInOrder(max, s, ds);
    DropsCount(max, s, ds);
    NobodyWaitsForNothing(max, es + DropEvents(ds));
    assert Served(max, s, ds) + [] == Served(max, s, ds);
  }

  /** And there always is something to drop until then. */
  lemma {:induction false} CanDrain(max: nat, s: Sem) returns (ds: seq<nat>)
    requires 0 < max && Inv(max, s)
    ensures Droppable(max, s, ds) && |ds| == Requests(s)
    decreases Requests(s)
  {
    ds := [];
    if s.held != [] {
      StepKeepsInv(max, s, Drop(0));
      DropServes(max, s, 0);
      var rest := CanDrain(max, Step(max, s, Drop(0)));
      ds := [0] + rest;
      assert ds[1..] == rest;
    }
  }

  lemma RunMore(max: nat, es: seq<Event>, e: Event)
    ensures Run(max, es + [e]) == Step(max, Run(max, es), e)
  {
    assert (es + [e])[..|es|] == es;
  }

  // ----- the ceiling exactly -----

  /** Every batch of the run has at most `bound` bytes. */
  predicate BatchesAtMost(es: seq<Event>, bound: nat) {
    forall i | 0 <= i < |es| :: es[i].Reserve? || es[i].TryReserve? ==> es[i].size <= bound
  }

  lemma GrantedAtOnce(max: nat, es: seq<Event>, size: nat)
    requires Want(max, size) <= Run(max, es).free
    ensures var s, t := Run(max, es), Run(max, es + [Reserve(size)]);
            && t.free == s.free - Want(max, size) && t.waiters == s.waiters
            && HeldBytes(t.held) == HeldBytes(s.held) + size
  {
    assert (es + [Reserve(size)])[..|es|] == es;
    HeldWith(Run(max, es).held, Holder(size, Want(max, size)));
  }

  /** The most permits one batch asks for. */
  function Largest(max: nat): nat { Min(max, MAX_PERMITS) }

  /** `a` times `b`. */
  function Product(a: nat, b: nat): nat {
    if a == 0 then 0 else Product(a - 1, b) + b
  }

  /** How many times `u` goes into `p`. */
  function TimesIn(p: nat, u: nat): nat
    requires u > 0
  {
    if p < u then 0 else 1 + TimesIn(p - u, u)
  }

  /** The batches of the largest request that fit at once. */
  function Fitting(max: nat): nat
    requires max > 0
  {
    TimesIn(Permits(max), Largest(max))
  }

  /** The most bytes batches of at most `bound` bytes can have in flight: what the permits stand for, and what
      each of the largest requests exceeds its permits by. */
  function MostBytes(max: nat, bound: nat): nat
    requires max > 0
  {
    if bound <= Largest(max) then Permits(max)
    else Permits(max) + Product(Fitting(max), bound - Largest(max))
  }

  /** The holders with the largest request. */
  function FullCount(max: nat, held: seq<Holder>): nat {
    if held == [] then 0
    else FullCount(max, held[..|held| - 1]) + (if held[|held| - 1].permits == Largest(max) then 1 else 0)
  }

  lemma ProductStep(n: nat, e: nat)
    ensures Product(n + 1, e) == Product(n, e) + e && Product(0, e) == 0
  {
  }

  lemma {:induction false} BytesOverPermits(max: nat, held: seq<Holder>, bound: nat)
    requires max > 0 && WellHeld(max, held) && SizesAtMost(held, bound) && bound > Largest(max)
    ensures HeldBytes(held) <= HeldPermits(held) + Product(FullCount(max, held), bound - Largest(max))
    ensures Product(FullCount(max, held), Largest(max)) <= HeldPermits(held)
  {
    if held != [] {
      var init := held[..|held| - 1];
      BytesOverPermits(max, init, bound);
      ProductStep(FullCount(max, init), bound - Largest(max));
      ProductStep(FullCount(max, init), Largest(max));
    }
  }

  lemma {:induction false} ProductMonotone(a: nat, b: nat, e: nat)
    requires a <= b
    ensures Product(a, e) <= Product(b, e)
    decreases b - a
  {
    if a < b {
      ProductMonotone(a, b - 1, e);
    }
  }

  lemma AtMostFitting(n: nat, p: nat, u: nat)
    requires u > 0 && Product(n, u) <= p
    ensures n <= TimesIn(p, u)
  {
    DivParts(p, u);
    ProductStep(TimesIn(p, u), u);
    if n > TimesIn(p, u) {
      ProductMonotone(TimesIn(p, u) + 1, n, u);
    }
  }

  lemma {:induction false} DivParts(p: nat, u: nat)
    requires u > 0
    ensures Product(TimesIn(p, u), u) <= p < Product(TimesIn(p, u), u) + u
  {
    if p >= u {
      DivParts(p - u, u);
      ProductStep(TimesIn(p - u, u), u);
    }
  }

  lemma WantsItself(max: nat, size: nat)
    requires 0 < size <= Largest(max)
    ensures Want(max, size) == size
  {
  }

  /** No reachable state has more bytes in flight. */
  lemma {:induction false} NeverMoreBytes(max: nat, es: seq<Event>, bound: nat)
    requires max > 0 && BatchesAtMost(es, bound)
    ensures HeldBytes(Run(max, es).held) <= MostBytes(max, bound)
  {
    var held := Run(max, es).held;
    RunSizes(max, es, bound);
    if bound <= Largest(max) {
      BytesWithinPermits(max, held);
    } else {
      BytesOverPermits(max, held, bound);
      AtMostFitting(FullCount(max, held), Permits(max), Largest(max));
      ProductMonotone(FullCount(max, held), Fitting(max), bound - Largest(max));
    }
  }

  /** `n` batches of `bound` bytes are held, and nothing else. */
  predicate HoldsFull(max: nat, bound: nat, n: nat, s: Sem) {
    s.free + Product(n, Largest(max)) == Permits(max) && HeldBytes(s.held) == Product(n, bound)
  }

  lemma WantsLargest(max: nat, size: nat)
    requires max > 0 && size > Largest(max)
    ensures Want(max, size) == Largest(max)
  {
  }

  lemma OneMoreFull(max: nat, bound: nat, n: nat, s: Sem)
    requires max > 0 && bound > Largest(max) && n + 1 <= Fitting(max) && Waiting(s) && HoldsFull(max, bound, n, s)
    ensures HoldsFull(max, bound, n + 1, Step(max, s, Reserve(bound)))
  {
    StillFits(max, n + 1);
    ProductStep(n, Largest(max));
    ProductStep(n, bound);
    WantsLargest(max, bound);
    HeldWith(s.held, Holder(bound, Largest(max)));
  }

  /** `n` of the largest requests that fit, each of a batch of `bound` bytes. */
  lemma {:induction false} TakesFull(max: nat, bound: nat, n: nat) returns (es: seq<Event>)
    requires max > 0 && bound > Largest(max) && n <= Fitting(max)
    ensures BatchesAtMost(es, bound) && HoldsFull(max, bound, n, Run(max, es))
  {
    if n == 0 {
      es := [];
      ProductStep(0, Largest(max));
      ProductStep(0, bound);
    } else {
      var before := TakesFull(max, bound, n - 1);
      OneMoreFull(max, bound, n - 1, Run(max, before));
      RunMore(max, before, Reserve(bound));
      es := before + [Reserve(bound)];
    }
  }

  lemma StillFits(max: nat, n: nat)
    requires max > 0 && n <= Fitting(max)
    ensures Product(n, Largest(max)) <= Permits(max)
  {
    ProductMonotone(n, Fitting(max), Largest(max));
    DivParts(Permits(max), Largest(max));
  }

  /** And with batches past the largest request some run has that many. */
  lemma {:induction false} MostBytesReached(max: nat, bound: nat) returns (es: seq<Event>)
    requires max > 0 && bound > Largest(max)
    ensures BatchesAtMost(es, bound) && HeldBytes(Run(max, es).held) == MostBytes(max, bound)
  {
    var full := TakesFull(max, bound, Fitting(max));
    RestIsSmall(max, Run(max, full).free);
    es := TakesRest(max, full, bound);
    MostIs(Permits(max), Fitting(max), Largest(max), bound, Run(max, full).free);
  }

  lemma RestIsSmall(max: nat, rest: nat)
    requires max > 0 && rest + Product(Fitting(max), Largest(max)) == Permits(max)
    ensures rest < Largest(max)
  {
    DivParts(Permits(max), Largest(max));
  }

  lemma MostIs(permits: nat, n: nat, largest: nat, bound: nat, rest: nat)
    requires largest <= bound && rest + Product(n, largest) == permits
    ensures Product(n, bound) + rest == permits + Product(n, bound - largest)
  {
    Distributes(n, largest, bound - largest);
  }

  lemma TakesRest(max: nat, es: seq<Event>, bound: nat) returns (all: seq<Event>)
    requires max > 0 && BatchesAtMost(es, bound) && Run(max, es).free < Largest(max) < bound
    ensures BatchesAtMost(all, bound)
    ensures HeldBytes(Run(max, all).held) == HeldBytes(Run(max, es).held) + Run(max, es).free
  {
    var free := Run(max, es).free;
    all := es;
    if free > 0 {
      WantsItself(max, free);
      GrantedAtOnce(max, es, free);
      all := es + [Reserve(free)];
    }
  }

  lemma {:induction false} Distributes(n: nat, a: nat, b: nat)
    ensures Product(n, a + b) == Product(n, a) + Product(n, b)
  {
    if n > 0 {
      Distributes(n - 1, a, b);
    }
  }

  predicate QueuedAtMost(waiters: seq<Waiter>, bound: nat) {
    forall i | 0 <= i < |waiters| :: waiters[i].size <= bound
  }

  lemma {:induction false} GiveSizes(s: Sem, n: nat, bound: nat)
    requires Waiting(s) && SizesAtMost(s.held, bound) && QueuedAtMost(s.waiters, bound)
    ensures SizesAtMost(Give(s, n).held, bound) && QueuedAtMost(Give(s, n).waiters, bound)
    decreases |s.waiters|
  {
    if s.waiters != [] {
      var head := s.waiters[0];
      var need := head.want - head.got;
      if n >= need {
        GiveSizes(ServeHead(s), n - need, bound);
      }
    }
  }

  lemma {:induction false} RunSizes(max: nat, es: seq<Event>, bound: nat)
    requires BatchesAtMost(es, bound)
    ensures SizesAtMost(Run(max, es).held, bound) && QueuedAtMost(Run(max, es).waiters, bound)
  {
    if es != [] {
      var n := |es| - 1;
      RunSizes(max, es[..n], bound);
      var s := Run(max, es[..n]);
      match es[n] {
        case Drop(i) =>
          if i < |s.held| { GiveSizes(s.(held := Without(s.held, i)), s.held[i].permits, bound); }
        case Cancel(i) =>
          if i < |s.waiters| { GiveSizes(s.(waiters := Without(s.waiters, i)), s.waiters[i].got, bound); }
        case Reserve(size) =>
        case TryReserve(size) =>
      }
    }
  }

  /** The bytes in flight stay within the ceiling in every run whose batches have at most `bound` bytes
      exactly when the most they can have is. */
  lemma {:induction false} CeilingHoldsIff(max: nat, bound: nat)
    requires max > 0
    ensures MostBytes(max, bound) <= max <==>
              forall es | BatchesAtMost(es, bound) :: HeldBytes(Run(max, es).held) <= max
  {
    if MostBytes(max, bound) <= max {
      forall es | BatchesAtMost(es, bound) ensures HeldBytes(Run(max, es).held) <= max {
        NeverMoreBytes(max, es, bound);
      }
    } else {
      var es := MostBytesReached(max, bound);
    }
  }

  /** For a ceiling the semaphore can hold, that is when no batch is past min(max, 2^32 - 1). */
  lemma {:induction false} CeilingInBatches(max: nat, bound: nat)
    requires 0 < max <= MAX_SEMAPHORE
    ensures MostBytes(max, bound) <= max <==> bound <= Min(max, MAX_PERMITS)
  {
    if bound > Largest(max) {
      StillFits(max, 1);
      ProductMonotone(1, Fitting(max), bound - Largest(max));
    }
  }

  // ----- the shared budget -----

  /** `None` for a ceiling of 0: no accounting at all. */
  class MemoryBudget {
    const total: nat
    var sem: Option<Sem>

    ghost predicate Valid()
      reads this
    {
      (total == 0 <==> sem == None) && (sem.Some? ==> Inv(total, sem.value))
    }

    constructor (max: nat)
      requires max < USIZE
      ensures Valid() && total == max
      ensures sem == if max == 0 then None else Some(Start(max))
    {
      total := max;
      sem := if max == 0 then None else Some(Sem(Min(max, MAX_SEMAPHORE), [], []));
    }

    /** The outcome of `reserve`'s request: granted at once, or waiting its turn. */
    method Reserve(size: nat) returns (granted: bool)
      requires Valid()
      modifies this`sem
      ensures Valid()
      ensures old(sem) == None ==> granted && sem == None
      ensures old(sem).Some? ==> sem == Some(Step(total, old(sem).value, Event.Reserve(size)))
      ensures old(sem).Some? ==> granted == (Want(total, size) <= old(sem).value.free)
    {
      if sem == None { return true; }
      var s := sem.value;
      StepKeepsInv(total, s, Event.Reserve(size));
      var want := Min(Min(size, total), MAX_PERMITS);
      if want < 1 { want := 1; }
      granted := want <= s.free;
      sem := Some(if granted then Sem(s.free - want, s.held + [Holder(size, want)], s.waiters)
                  else Sem(0, s.held, s.waiters + [Waiter(size, want, s.free)]));
    }

    method TryReserve(size: nat) returns (granted: bool)
      requires Valid()
      modifies this`sem
      ensures Valid()
      ensures old(sem) == None ==> granted && sem == None
      ensures old(sem).Some? ==> sem == Some(Step(total, old(sem).value, Event.TryReserve(size)))
      ensures !granted ==> sem == old(sem)
    {
      if sem == None { return true; }
      var s := sem.value;
      StepKeepsInv(total, s, Event.TryReserve(size));
      var want := Min(Min(size, total), MAX_PERMITS);
      if want < 1 { want := 1; }
      granted := want <= s.free;
      if granted {
        sem := Some(Sem(s.free - want, s.held + [Holder(size, want)], s.waiters));
      }
    }

    /** A `Reservation` is dropped. */
    method Release(i: nat)
      requires Valid() && sem.Some? && i < |sem.value.held|
      modifies this`sem
      ensures Valid() && sem == Some(Step(total, old(sem).value, Drop(i)))
    {
      var s := sem.value;
      StepKeepsInv(total, s, Drop(i));
      sem := Some(Give(s.(held := Without(s.held, i)), s.held[i].permits));
    }
  }
}
