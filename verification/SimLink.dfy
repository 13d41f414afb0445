/** The simulated link: one bundle at a time is put in flight, arrivals and
    transmissions wait in FIFO queues, and three one-shot timers drive it all. */
module SimLink {
  import opened Common

  type Bundle = nat
  type Time = nat

  datatype Event = Event(bundle: Bundle, len: nat, time: Time)

  /** `sent`, `delivered` and `acked` are what was put in flight, posted to the peer
      and reported as transmitted; `entered` and `started` remember what was queued
      and what was started. */
  datatype State = State(queue: seq<Bundle>, open: bool, now: Time,
                         pending: Option<Event>, arrival: seq<Event>, transmitted: seq<Event>,
                         inflightTimer: Option<Time>, arrivalTimer: Option<Time>, transmittedTimer: Option<Time>,
                         sent: seq<Bundle>, delivered: seq<Event>, acked: seq<Event>,
                         entered: seq<Bundle>, started: seq<Bundle>)

  /** What the environment decides at a start: the token bucket's delay, the latency
      of the connection, and the bundle's length on the wire. */
  datatype Wire = Wire(delay: Time, latency: Time, len: nat, reliable: bool)

  // ---------------------------------------------------- the handlers, on values

  /** A timer that is pending is left alone. */
  function Armed(timer: Option<Time>, q: seq<Event>): Option<Time> {
    if timer.None? && q != [] then Some(q[0].time) else timer
  }

  function AsQueue(pending: Option<Event>): seq<Event> {
    if pending.Some? then [pending.value] else []
  }

  function Rescheduled(s: State): State {
    s.(inflightTimer := Armed(s.inflightTimer, AsQueue(s.pending)),
       arrivalTimer := Armed(s.arrivalTimer, s.arrival),
       transmittedTimer := Armed(s.transmittedTimer, s.transmitted))
  }

  function StartedNext(s: State, w: Wire): State
    requires s.queue != [] && s.pending.None?
  {
    var b := s.queue[0];
    var inflight := s.now + w.delay;
    Rescheduled(s.(
      pending := Some(Event(b, w.len, inflight)),
      arrival := s.arrival + [Event(b, w.len, inflight + w.latency)],
      transmitted := s.transmitted + [Event(b, w.len, if w.reliable then inflight + w.latency * 2 else inflight)],
      started := s.started + [b]))
  }

  function InflightDone(s: State, w: Wire): State
    requires s.pending.Some?
  {
    var e := s.pending.value;
    if e.time > s.now then Rescheduled(s)
    else
      var t := s.(sent := s.sent + [e.bundle], queue := Without(s.queue, e.bundle), pending := None);
      Rescheduled(if t.queue != [] then StartedNext(t, w) else t)
  }

  /** How many events at the front of q are due. */
  function Due(q: seq<Event>, now: Time): (n: nat)
    ensures n <= |q|
  {
    if q != [] && q[0].time <= now then 1 + Due(q[1..], now) else 0
  }

  function Arrived(s: State): State {
    var n := Due(s.arrival, s.now);
    Rescheduled(s.(arrival := s.arrival[n..], delivered := s.delivered + s.arrival[..n]))
  }

  function Transmitted(s: State): State {
    var n := Due(s.transmitted, s.now);
    Rescheduled(s.(transmitted := s.transmitted[n..], acked := s.acked + s.transmitted[..n]))
  }

  function Queued(s: State, b: Bundle, w: Wire): State {
    if b in s.queue then s
    else
      var t := s.(queue := s.queue + [b], entered := s.entered + [b]);
      if t.open && t.pending.None? then StartedNext(t, w) else t
  }

  // ------------------------------------------------------------------- the runs

  datatype Step = Open(w: Wire) | Close | Enqueue(b: Bundle, w: Wire) | Tick(now: Time)
                | FireInflight(w: Wire) | FireArrival | FireTransmitted

  predicate TimerDue(timer: Option<Time>, now: Time) {
    timer.Some? && timer.value <= now
  }

  predicate Enabled(s: State, step: Step) {
    match step
    case Open(_) => !s.open
    case Close => s.open
    case Enqueue(_, _) => true
    case Tick(now) => s.now <= now
    case FireInflight(_) => TimerDue(s.inflightTimer, s.now)
    case FireArrival => TimerDue(s.arrivalTimer, s.now)
    case FireTransmitted => TimerDue(s.transmittedTimer, s.now)
  }

  /** The assertions of the handlers: a start finds nothing pending, a handler finds
      its event, and a transmission report finds a contact. */
  predicate AssertionsHold(s: State, step: Step) {
    match step
    case Open(_) => s.queue != [] ==> s.pending.None?
    case FireInflight(_) => s.pending.Some?
    case FireArrival => s.arrival != []
    case FireTransmitted => s.transmitted != [] && (Due(s.transmitted, s.now) > 0 ==> s.open)
    case _ => true
  }

  /** A timer's pending bit is cleared before its callback. */
  function Apply(s: State, step: Step): State
    requires Enabled(s, step) && AssertionsHold(s, step)
  {
    match step
    case Open(w) => if s.queue != [] then StartedNext(s.(open := true), w) else s.(open := true)
    case Close => s.(open := false)
    case Enqueue(b, w) => Queued(s, b, w)
    case Tick(now) => s.(now := now)
    case FireInflight(w) => InflightDone(s.(inflightTimer := None), w)
    case FireArrival => Arrived(s.(arrivalTimer := None))
    case FireTransmitted => Transmitted(s.(transmittedTimer := None))
  }

  ghost predicate Possible(s: State, steps: seq<Step>)
    decreases |steps|
  {
    steps == [] || (Enabled(s, steps[0]) && AssertionsHold(s, steps[0]) && Possible(Apply(s, steps[0]), steps[1..]))
  }

  ghost function After(s: State, steps: seq<Step>): State
    requires Possible(s, steps)
    decreases |steps|
  {
    if steps == [] then s else After(Apply(s, steps[0]), steps[1..])
  }

  const FRESH := State([], false, 0, None, [], [], None, None, None, [], [], [], [], [])

  // --------------------------------------------------------------- the invariant

  function Bundles(q: seq<Event>): (r: seq<Bundle>)
    ensures |r| == |q|
  {
    seq(|q|, i requires 0 <= i < |q| => q[i].bundle)
  }

  /** A timer is armed exactly when there is something to wait for, at the time of
      the first event. */
  predicate ArmedFor(timer: Option<Time>, q: seq<Event>) {
    timer == if q == [] then None else Some(q[0].time)
  }

  /** Nothing is lost, duplicated or overtaken. */
  predicate Conserved(s: State) {
    && Bundles(s.delivered) + Bundles(s.arrival) == s.started
    && Bundles(s.acked) + Bundles(s.transmitted) == s.started
    && s.sent + Bundles(AsQueue(s.pending)) == s.started
    && s.sent + s.queue == s.entered
    && (s.pending.Some? ==> s.queue != [] && s.queue[0] == s.pending.value.bundle)
  }

  predicate Inv(s: State) {
    && Conserved(s)
    && ArmedFor(s.inflightTimer, AsQueue(s.pending))
    && ArmedFor(s.arrivalTimer, s.arrival)
    && ArmedFor(s.transmittedTimer, s.transmitted)
    && (s.open && s.queue != [] ==> s.pending.Some?)
  }

  lemma BundlesJoin(a: seq<Event>, b: seq<Event>)
    ensures Bundles(a + b) == Bundles(a) + Bundles(b)
  {
  }

  lemma BundlesMove(done: seq<Event>, q: seq<Event>, n: nat)
    requires n <= |q|
    ensures Bundles(done + q[..n]) + Bundles(q[n..]) == Bundles(done) + Bundles(q)
  {
  }

  lemma StartConserves(s: State, w: Wire)
    requires Conserved(s) && s.queue != [] && s.pending.None?
    ensures Conserved(StartedNext(s, w))
  {
    var t := StartedNext(s, w);
    var b := s.queue[0];
    BundlesJoin(s.arrival, [t.arrival[|s.arrival|]]);
    BundlesJoin(s.transmitted, [t.transmitted[|s.transmitted|]]);
    assert Bundles([t.arrival[|s.arrival|]]) == Bundles([t.transmitted[|s.transmitted|]]) == [b];
    assert Bundles(AsQueue(t.pending)) == [b];
    assert Bundles(AsQueue(s.pending)) == [];
  }

  lemma StartKeeps(s: State, w: Wire)
    requires Conserved(s) && s.queue != [] && s.pending.None?
    requires s.inflightTimer.None?
    requires s.arrivalTimer.None? || ArmedFor(s.arrivalTimer, s.arrival)
    requires s.transmittedTimer.None? || ArmedFor(s.transmittedTimer, s.transmitted)
    ensures Inv(StartedNext(s, w))
  {
    StartConserves(s, w);
    hide Conserved, Bundles;
  }

  lemma InflightKeeps(s: State, w: Wire)
    requires Inv(s) && TimerDue(s.inflightTimer, s.now)
    ensures s.pending.Some? && Inv(InflightDone(s.(inflightTimer := None), w))
  {
    var e := s.pending.value;
    var t := s.(inflightTimer := None, sent := s.sent + [e.bundle], queue := Without(s.queue, e.bundle),
                pending := None);
    assert Bundles(AsQueue(s.pending)) == [e.bundle] && Bundles(AsQueue(t.pending)) == [];
    assert s.queue == [e.bundle] + t.queue;
    assert Conserved(t);
    if t.queue != [] {
      StartKeeps(t, w);
    }
  }

  lemma {:induction false} DueFirst(q: seq<Event>, now: Time)
    ensures forall k :: 0 <= k < Due(q, now) ==> q[k].time <= now
    ensures Due(q, now) < |q| ==> q[Due(q, now)].time > now
  {
    if q != [] && q[0].time <= now {
      DueFirst(q[1..], now);
    }
  }

  lemma ArrivedKeeps(s: State)
    requires Inv(s) && TimerDue(s.arrivalTimer, s.now)
    ensures s.arrival != [] && Inv(Arrived(s.(arrivalTimer := None)))
    ensures |Arrived(s.(arrivalTimer := None)).delivered| > |s.delivered|
  {
    BundlesMove(s.delivered, s.arrival, Due(s.arrival, s.now));
  }

  lemma TransmittedKeeps(s: State)
    requires Inv(s) && TimerDue(s.transmittedTimer, s.now)
    ensures s.transmitted != [] && Due(s.transmitted, s.now) > 0 && Inv(Transmitted(s.(transmittedTimer := None)))
  {
    BundlesMove(s.acked, s.transmitted, Due(s.transmitted, s.now));
  }

  lemma QueuedKeeps(s: State, b: Bundle, w: Wire)
    requires Inv(s)
    ensures Inv(Queued(s, b, w))
  {
    if b !in s.queue {
      var t := s.(queue := s.queue + [b], entered := s.entered + [b]);
      assert Conserved(t);
      if t.open && t.pending.None? {
        StartKeeps(t, w);
      }
    }
  }

  lemma StepKeeps(s: State, step: Step)
    requires Inv(s) && Enabled(s, step) && AssertionsHold(s, step)
    ensures Inv(Apply(s, step))
  {
    match step
    case Open(w) =>
      if s.queue != [] {
        StartKeeps(s.(open := true), w);
      }
    case Close =>
    case Enqueue(b, w) => QueuedKeeps(s, b, w);
    case Tick(now) =>
    case FireInflight(w) => InflightKeeps(s, w);
    case FireArrival => ArrivedKeeps(s);
    case FireTransmitted => TransmittedKeeps(s);
  }

  lemma {:induction false} RunKeeps(s: State, steps: seq<Step>)
    requires Inv(s) && Possible(s, steps)
    ensures Inv(After(s, steps))
    decreases |steps|
  {
    if steps != [] {
      StepKeeps(s, steps[0]);
      hide Inv, Apply, Enabled, AssertionsHold;
      RunKeeps(Apply(s, steps[0]), steps[1..]);
    }
  }

  // ---------------------------------------------------------------- the theorems

  /** In every reachable state: what was delivered, followed by what is still to
      arrive, is what was started, in order; so for the transmission reports and for
      what was put in flight; and the queue holds the rest of what was ever queued. */
  lemma DeliveryLaw(steps: seq<Step>)
    requires Possible(FRESH, steps)
    ensures var s := After(FRESH, steps);
      && Bundles(s.delivered) + Bundles(s.arrival) == s.started
      && Bundles(s.acked) + Bundles(s.transmitted) == s.started
      && s.started <= s.entered
      && s.sent + s.queue == s.entered
      && |s.sent| <= |s.started| <= |s.sent| + 1
  {
    RunKeeps(FRESH, steps);
    var s := After(FRESH, steps);
    hide After, Possible;
    if s.pending.Some? {
      assert s.started == s.sent + [s.queue[0]];
    }
  }

  /** No lost wakeups: while anything is outstanding on an open link a timer is
      armed; and when none is, everything ever queued has been delivered, in order,
      and reported. */
  lemma NothingStuck(steps: seq<Step>)
    requires Possible(FRESH, steps)
    requires var s := After(FRESH, steps);
      s.open && s.inflightTimer.None? && s.arrivalTimer.None? && s.transmittedTimer.None?
    ensures var s := After(FRESH, steps);
      Bundles(s.delivered) == Bundles(s.acked) == s.sent == s.entered && s.queue == []
  {
    RunKeeps(FRESH, steps);
    var s := After(FRESH, steps);
    assert s.arrival == s.transmitted == AsQueue(s.pending) == [];
    assert Bundles([]) == [];
    assert Bundles(s.delivered) + [] == Bundles(s.delivered) && Bundles(s.acked) + [] == Bundles(s.acked);
    assert s.sent + [] == s.sent;
  }

  /** Which assertions can fail in a reachable state: a contact is opened while a
      bundle is still being put in flight, or a transmission is due while the link is
      closed; these and no others. */
  lemma AssertionsExactly(s: State, step: Step)
    requires Inv(s) && Enabled(s, step)
    ensures AssertionsHold(s, step) <==> !(step.Open? && s.pending.Some?) && !(step.FireTransmitted? && !s.open)
  {
  }

  /** What a timer's handler relies on. */
  lemma FiringFinds(s: State, step: Step)
    requires Inv(s) && Enabled(s, step) && (step.FireTransmitted? ==> s.open)
    ensures AssertionsHold(s, step) || step.Open?
  {
  }

  /** Both failures can be reached: a link that closes before its first bundle is in
      flight, with the bucket at hand, and opens again; and the same link when the
      report of that bundle falls due, sent without an answer and without delay. */
  lemma ReopeningTooSoon(w: Wire)
    ensures var steps := [Open(w), Enqueue(7, w), Close];
      && Possible(FRESH, steps)
      && var s := After(FRESH, steps);
         && Enabled(s, Open(w)) && !AssertionsHold(s, Open(w))
         && s.transmitted == [Event(7, w.len, if w.reliable then w.delay + w.latency * 2 else w.delay)]
         && s.transmittedTimer == Some(s.transmitted[0].time) && !s.open && s.now == 0
  {
    var s1 := Apply(FRESH, Open(w));
    var s2 := Apply(s1, Enqueue(7, w));
    var s3 := Apply(s2, Close);
    assert Possible(s3, []) && After(s3, []) == s3;
    assert [Close][1..] == [];
    assert Possible(s2, [Close]) && After(s2, [Close]) == s3;
    assert [Enqueue(7, w), Close][1..] == [Close];
    assert Possible(s1, [Enqueue(7, w), Close]) && After(s1, [Enqueue(7, w), Close]) == s3;
    assert [Open(w), Enqueue(7, w), Close][1..] == [Enqueue(7, w), Close];
  }

  lemma ReportAfterClosing(w: Wire)
    requires !w.reliable && w.delay == 0
    ensures var steps := [Open(w), Enqueue(7, w), Close];
      && Possible(FRESH, steps)
      && Enabled(After(FRESH, steps), FireTransmitted) && !AssertionsHold(After(FRESH, steps), FireTransmitted)
  {
    ReopeningTooSoon(w);
    hide After, Possible;
  }

  // --------------------------------------------------------------- fixed latency

  predicate Sorted(q: seq<Event>) {
    forall i, j :: 0 <= i <= j < |q| ==> q[i].time <= q[j].time
  }

  /** The time up to which bundles have been put in flight. */
  function Frontier(s: State): Time {
    if s.pending.Some? then s.pending.value.time else s.now
  }

  predicate InStep(q: seq<Event>, bound: Time) {
    Sorted(q) && forall e :: e in q ==> e.time <= bound
  }

  predicate Steady(s: State, latency: Time, reliable: bool) {
    && InStep(s.arrival, Frontier(s) + latency)
    && InStep(s.transmitted, Frontier(s) + if reliable then latency * 2 else 0)
  }

  /** The step, if it starts a bundle, does so at the given latency and mode. */
  predicate Fixed(step: Step, latency: Time, reliable: bool) {
    step.Open? || step.Enqueue? || step.FireInflight? ==> step.w.latency == latency && step.w.reliable == reliable
  }

  lemma InStepAppend(q: seq<Event>, e: Event, bound: Time)
    requires InStep(q, bound) && bound <= e.time
    ensures InStep(q + [e], e.time)
  {
  }

  lemma InStepDrop(q: seq<Event>, n: nat, bound: Time, bound': Time)
    requires InStep(q, bound) && n <= |q| && bound <= bound'
    ensures InStep(q[n..], bound')
  {
    assert forall k :: 0 <= k < |q[n..]| ==> q[n..][k] == q[k + n];
  }

  lemma StartSteady(s: State, w: Wire)
    requires s.queue != [] && s.pending.None? && Steady(s, w.latency, w.reliable)
    ensures Steady(StartedNext(s, w), w.latency, w.reliable)
  {
    var t := StartedNext(s, w);
    InStepAppend(s.arrival, t.arrival[|s.arrival|], s.now + w.latency);
    InStepAppend(s.transmitted, t.transmitted[|s.transmitted|], s.now + if w.reliable then w.latency * 2 else 0);
  }

  lemma InflightSteady(s: State, w: Wire)
    requires Inv(s) && TimerDue(s.inflightTimer, s.now) && Steady(s, w.latency, w.reliable)
    ensures Steady(InflightDone(s.(inflightTimer := None), w), w.latency, w.reliable)
  {
    hide Conserved;
    var e := s.pending.value;
    var t := s.(inflightTimer := None, sent := s.sent + [e.bundle], queue := Without(s.queue, e.bundle),
                pending := None);
    assert Steady(t, w.latency, w.reliable);
    if t.queue != [] {
      StartSteady(t, w);
    }
  }

  lemma StepSteady(s: State, step: Step, latency: Time, reliable: bool)
    requires Inv(s) && Enabled(s, step) && AssertionsHold(s, step)
    requires Steady(s, latency, reliable) && Fixed(step, latency, reliable)
    ensures Steady(Apply(s, step), latency, reliable)
  {
    match step
    case Open(w) =>
      if s.queue != [] {
        StartSteady(s.(open := true), w);
      }
    case Close =>
    case Enqueue(b, w) =>
      if b !in s.queue && s.open && s.pending.None? {
        StartSteady(s.(queue := s.queue + [b], entered := s.entered + [b]), w);
      }
    case Tick(now) =>
    case FireInflight(w) => InflightSteady(s, w);
    case FireArrival =>
      InStepDrop(s.arrival, Due(s.arrival, s.now), Frontier(s) + latency, Frontier(s) + latency);
    case FireTransmitted =>
      var bound := Frontier(s) + if reliable then latency * 2 else 0;
      InStepDrop(s.transmitted, Due(s.transmitted, s.now), bound, bound);
  }

  lemma {:induction false} RunSteady(s: State, steps: seq<Step>, latency: Time, reliable: bool)
    requires Inv(s) && Possible(s, steps) && Steady(s, latency, reliable)
    requires forall step :: step in steps ==> Fixed(step, latency, reliable)
    ensures Inv(After(s, steps)) && Steady(After(s, steps), latency, reliable)
    decreases |steps|
  {
    if steps != [] {
      assert steps[0] in steps;
      StepKeeps(s, steps[0]);
      StepSteady(s, steps[0], latency, reliable);
      hide Inv, Apply, Enabled, AssertionsHold, Steady;
      RunSteady(Apply(s, steps[0]), steps[1..], latency, reliable);
    }
  }

  /** At a fixed latency the queues stay sorted, and once the timer thread has caught
      up no event in them is overdue. */
  lemma NothingOverdue(steps: seq<Step>, latency: Time, reliable: bool)
    requires Possible(FRESH, steps) && forall step :: step in steps ==> Fixed(step, latency, reliable)
    ensures var s := After(FRESH, steps);
      && Sorted(s.arrival) && Sorted(s.transmitted)
      && (!TimerDue(s.arrivalTimer, s.now) ==> forall e :: e in s.arrival ==> e.time > s.now)
      && (!TimerDue(s.transmittedTimer, s.now) ==> forall e :: e in s.transmitted ==> e.time > s.now)
  {
    RunSteady(FRESH, steps, latency, reliable);
    hide After, Possible, Fixed, Conserved;
  }

  /** How long after the arrival of e its report is due; before it, when the report
      does not wait for an answer. */
  predicate Paired(there: Event, back: Event, latency: Time, reliable: bool) {
    && there.bundle == back.bundle && there.len == back.len
    && (if reliable then back.time == there.time + latency else there.time == back.time + latency)
  }

  predicate AllPaired(there: seq<Event>, back: seq<Event>, latency: Time, reliable: bool) {
    |there| == |back| && forall k :: 0 <= k < |there| ==> Paired(there[k], back[k], latency, reliable)
  }

  /** Everything that was to arrive, and everything that was to be reported. */
  function Arrivals(s: State): seq<Event> {
    s.delivered + s.arrival
  }

  function Reports(s: State): seq<Event> {
    s.acked + s.transmitted
  }

  lemma StartPaired(s: State, w: Wire)
    requires s.queue != [] && s.pending.None? && AllPaired(Arrivals(s), Reports(s), w.latency, w.reliable)
    ensures AllPaired(Arrivals(StartedNext(s, w)), Reports(StartedNext(s, w)), w.latency, w.reliable)
  {
    var t := StartedNext(s, w);
    assert Arrivals(t) == Arrivals(s) + [t.arrival[|s.arrival|]];
    assert Reports(t) == Reports(s) + [t.transmitted[|s.transmitted|]];
  }

  lemma SamePairs(s: State, t: State)
    requires t.arrival == s.arrival && t.transmitted == s.transmitted
    requires t.delivered == s.delivered && t.acked == s.acked
    ensures Arrivals(t) == Arrivals(s) && Reports(t) == Reports(s)
  {
  }

  lemma QueuedPaired(s: State, b: Bundle, w: Wire)
    requires AllPaired(Arrivals(s), Reports(s), w.latency, w.reliable)
    ensures AllPaired(Arrivals(Queued(s, b, w)), Reports(Queued(s, b, w)), w.latency, w.reliable)
  {
    hide AllPaired, Arrivals, Reports, StartedNext;
    var t := s.(queue := s.queue + [b], entered := s.entered + [b]);
    SamePairs(s, t);
    if b !in s.queue && s.open && s.pending.None? {
      StartPaired(t, w);
    }
  }

  lemma InflightPaired(s: State, w: Wire)
    requires s.pending.Some? && AllPaired(Arrivals(s), Reports(s), w.latency, w.reliable)
    ensures var t := InflightDone(s.(inflightTimer := None), w);
      AllPaired(Arrivals(t), Reports(t), w.latency, w.reliable)
  {
    hide AllPaired, Arrivals, Reports, StartedNext;
    var e := s.pending.value;
    var t := s.(inflightTimer := None, sent := s.sent + [e.bundle], queue := Without(s.queue, e.bundle),
                pending := None);
    SamePairs(s, t);
    if e.time > s.now {
      SamePairs(s, Rescheduled(s.(inflightTimer := None)));
    } else if t.queue == [] {
      SamePairs(s, Rescheduled(t));
    } else {
      StartPaired(t, w);
      SamePairs(StartedNext(t, w), Rescheduled(StartedNext(t, w)));
    }
  }

  /** A delivered event only moves from one list to the other. */
  lemma TimersKeepPairs(s: State)
    ensures var t := Arrived(s.(arrivalTimer := None)); Arrivals(t) == Arrivals(s) && Reports(t) == Reports(s)
    ensures var t := Transmitted(s.(transmittedTimer := None)); Arrivals(t) == Arrivals(s) && Reports(t) == Reports(s)
  {
  }

  lemma StepPaired(s: State, step: Step, latency: Time, reliable: bool)
    requires Inv(s) && Enabled(s, step) && AssertionsHold(s, step) && Fixed(step, latency, reliable)
    requires AllPaired(Arrivals(s), Reports(s), latency, reliable)
    ensures AllPaired(Arrivals(Apply(s, step)), Reports(Apply(s, step)), latency, reliable)
  {
    hide AllPaired, Inv, Arrivals, Reports, StartedNext, InflightDone, Arrived, Transmitted;
    match step
    case Open(w) =>
      if s.queue != [] {
        SamePairs(s, s.(open := true));
        StartPaired(s.(open := true), w);
      } else {
        SamePairs(s, s.(open := true));
      }
    case Close => SamePairs(s, s.(open := false));
    case Enqueue(b, w) => QueuedPaired(s, b, w);
    case Tick(now) => SamePairs(s, s.(now := now));
    case FireInflight(w) => InflightPaired(s, w);
    case FireArrival => TimersKeepPairs(s);
    case FireTransmitted => TimersKeepPairs(s);
  }

  lemma {:induction false} RunPaired(s: State, steps: seq<Step>, latency: Time, reliable: bool)
    requires Inv(s) && Possible(s, steps) && AllPaired(Arrivals(s), Reports(s), latency, reliable)
    requires forall step :: step in steps ==> Fixed(step, latency, reliable)
    ensures AllPaired(Arrivals(After(s, steps)), Reports(After(s, steps)), latency, reliable)
    decreases |steps|
  {
    if steps != [] {
      assert steps[0] in steps;
      StepKeeps(s, steps[0]);
      StepPaired(s, steps[0], latency, reliable);
      hide Inv, Apply, Enabled, AssertionsHold, AllPaired;
      RunPaired(Apply(s, steps[0]), steps[1..], latency, reliable);
    }
  }

  /** Over a whole run at a fixed latency and mode: the k-th bundle to arrive is the
      k-th to be reported, at the same length, and its report is due one latency after
      its arrival in reliable mode, and one latency before it otherwise. */
  lemma ReportsMatchArrivals(steps: seq<Step>, latency: Time, reliable: bool)
    requires Possible(FRESH, steps) && forall step :: step in steps ==> Fixed(step, latency, reliable)
    ensures var s := After(FRESH, steps);
      AllPaired(s.delivered + s.arrival, s.acked + s.transmitted, latency, reliable)
  {
    RunPaired(FRESH, steps, latency, reliable);
  }

  ghost predicate AnyDue(q: seq<Event>, now: Time) {
    exists i :: 0 <= i < |q| && q[i].time <= now
  }

  ghost predicate Overtaken(q: seq<Event>, now: Time) {
    exists i, j :: 0 <= i < j < |q| && q[i].time > now && q[j].time <= now
  }

  /** When the arrival handler leaves a due event behind, for any queue: exactly when
      an event that is not due stands in front of one that is. */
  lemma LeavesDueExactly(s: State)
    ensures AnyDue(Arrived(s).arrival, s.now) <==> Overtaken(s.arrival, s.now)
  {
    DueLeft(s.arrival, s.now);
  }

  lemma DueLeft(q: seq<Event>, now: Time)
    ensures AnyDue(q[Due(q, now)..], now) <==> Overtaken(q, now)
  {
    DueFirst(q, now);
    hide Due, AnyDue, Overtaken;
    if Overtaken(q, now) {
      OvertakenLeft(q, now, Due(q, now));
    }
    if AnyDue(q[Due(q, now)..], now) {
      LeftOvertaken(q, now, Due(q, now));
    }
  }

  lemma LeftOvertaken(q: seq<Event>, now: Time, n: nat)
    requires n <= |q| && (n < |q| ==> q[n].time > now) && AnyDue(q[n..], now)
    ensures Overtaken(q, now)
  {
    var i :| 0 <= i < |q[n..]| && q[n..][i].time <= now;
    assert q[n + i] == q[n..][i];
  }

  lemma OvertakenLeft(q: seq<Event>, now: Time, n: nat)
    requires n <= |q| && (forall k :: 0 <= k < n ==> q[k].time <= now) && Overtaken(q, now)
    ensures AnyDue(q[n..], now)
  {
    var i, j :| 0 <= i < j < |q| && q[i].time > now && q[j].time <= now;
    assert q[n..][j - n] == q[j];
  }

  // -------------------------------------------------------------- the class itself

  class Contact {
    var queue: seq<Bundle>
    var open: bool
    var now: Time
    var pending: Option<Event>
    var arrival: seq<Event>
    var transmitted: seq<Event>
    var inflightTimer: Option<Time>
    var arrivalTimer: Option<Time>
    var transmittedTimer: Option<Time>
    var sent: seq<Bundle>
    var delivered: seq<Event>
    var acked: seq<Event>
    ghost var entered: seq<Bundle>
    ghost var started: seq<Bundle>

    ghost function Value(): State
      reads this
    {
      State(queue, open, now, pending, arrival, transmitted, inflightTimer, arrivalTimer, transmittedTimer,
            sent, delivered, acked, entered, started)
    }

    constructor ()
      ensures Value() == FRESH
    {
      queue, open, now, pending, arrival, transmitted := [], false, 0, None, [], [];
      inflightTimer, arrivalTimer, transmittedTimer := None, None, None;
      sent, delivered, acked, entered, started := [], [], [], [], [];
    }

    method RescheduleTimers()
      modifies this
      ensures Value() == Rescheduled(old(Value()))
    {
      if inflightTimer.None? && pending.Some? {
        inflightTimer := Some(pending.value.time);
      }
      if arrivalTimer.None? && arrival != [] {
        arrivalTimer := Some(arrival[0].time);
      }
      if transmittedTimer.None? && transmitted != [] {
        transmittedTimer := Some(transmitted[0].time);
      }
    }

    method StartNextBundle(w: Wire)
      requires queue != [] && pending.None?
      modifies this
      ensures Value() == StartedNext(old(Value()), w)
    {
      var b := queue[0];
      var inflightTime := now + w.delay;
      var arrivalTime := inflightTime + w.latency;
      var transmittedTime := inflightTime;
      if w.reliable {
        transmittedTime := inflightTime + w.latency * 2;
      }
      pending := Some(Event(b, w.len, inflightTime));
      arrival := arrival + [Event(b, w.len, arrivalTime)];
      transmitted := transmitted + [Event(b, w.len, transmittedTime)];
      started := started + [b];
      RescheduleTimers();
    }

    method DelFromQueue(b: Bundle)
      modifies this`queue
      ensures queue == Without(old(queue), b)
    {
      var i := 0;
      while i < |queue| && queue[i] != b
        invariant i <= |queue| && b !in queue[..i] && queue == old(queue)
      {
        i := i + 1;
      }
      WithoutAt(queue, b, i);
      if i < |queue| {
        queue := queue[..i] + queue[i + 1..];
      }
    }

    method HandlePendingInflight(w: Wire)
      requires pending.Some?
      modifies this
      ensures Value() == InflightDone(old(Value()), w)
    {
      hide Rescheduled, StartedNext, Without;
      if pending.value.time <= now {
        var b := pending.value.bundle;
        sent := sent + [b];
        DelFromQueue(b);
        pending := None;
        if queue != [] {
          StartNextBundle(w);
        }
      }
      RescheduleTimers();
    }

    method HandleArrivalEvents()
      requires arrival != []
      modifies this
      ensures Value() == Arrived(old(Value()))
    {
      ghost var s := Value();
      ghost var n := 0;
      while arrival != []
        invariant n <= |s.arrival| && Due(s.arrival, s.now) == n + Due(arrival, now)
        invariant Value() == s.(arrival := s.arrival[n..], delivered := s.delivered + s.arrival[..n])
        decreases |arrival|
      {
        var next := arrival[0];
        if next.time <= now {
          arrival := arrival[1..];
          delivered := delivered + [next];
          n := n + 1;
          assert s.arrival[..n] == s.arrival[..n - 1] + [next];
        } else {
          break;
        }
      }
      RescheduleTimers();
    }

    method HandleTransmittedEvents()
      requires transmitted != [] && (Due(transmitted, now) > 0 ==> open)
      modifies this
      ensures Value() == Transmitted(old(Value()))
    {
      ghost var s := Value();
      ghost var n := 0;
      while transmitted != []
        invariant n <= |s.transmitted| && Due(s.transmitted, s.now) == n + Due(transmitted, now)
        invariant Value() == s.(transmitted := s.transmitted[n..], acked := s.acked + s.transmitted[..n])
        decreases |transmitted|
      {
        var next := transmitted[0];
        if next.time <= now {
          transmitted := transmitted[1..];
          assert open;
          acked := acked + [next];
          n := n + 1;
          assert s.transmitted[..n] == s.transmitted[..n - 1] + [next];
        } else {
          break;
        }
      }
      RescheduleTimers();
    }

    method OpenContact(w: Wire)
      requires !open && (queue != [] ==> pending.None?)
      modifies this
      ensures Value() == Apply(old(Value()), Step.Open(w))
    {
      open := true;
      if queue != [] {
        StartNextBundle(w);
      }
    }

    method BundleQueued(b: Bundle, w: Wire)
      modifies this
      ensures Value() == Queued(old(Value()), b, w)
    {
      if b in queue {
        return;
      }
      queue := queue + [b];
      entered := entered + [b];
      if open && pending.None? {
        StartNextBundle(w);
      }
    }

    /** A timer that has come due: its pending bit is cleared, then the handler runs.
        In a state that meets the invariant the handler's own assertion holds. */
    method Timeout(step: Step)
      requires step.FireInflight? || step.FireArrival? || step.FireTransmitted?
      requires Inv(Value()) && Enabled(Value(), step) && (step.FireTransmitted? ==> open)
      modifies this
      ensures AssertionsHold(old(Value()), step)
      ensures Value() == Apply(old(Value()), step) && Inv(Value())
    {
      StepKeeps(Value(), step);
      hide Inv, Conserved, InflightDone, Arrived, Transmitted, Due;
      FiringFinds(Value(), step);
      match step {
        case FireInflight(w) =>
          inflightTimer := None;
          HandlePendingInflight(w);
        case FireArrival =>
          arrivalTimer := None;
          HandleArrivalEvents();
        case FireTransmitted =>
          transmittedTimer := None;
          HandleTransmittedEvents();
      }
    }
  }
}
