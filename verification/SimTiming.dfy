/** When things happen on the simulated link, read off the steps of a run: who is
    started when, and from that every arrival and every report. */
module SimTiming {
  import opened Common
  import opened SimLink

  /** A bundle was started at this time, with what the environment decided then. */
  datatype Start = Start(at: Time, w: Wire)

  predicate CanStart(step: Step) {
    step.Open? || step.Enqueue? || step.FireInflight?
  }

  /** When a step starts a bundle: opening, when one waits; queueing, when the bundle is
      new and nothing is being put in flight on the open link; and the in-flight timer,
      when another one waits behind the bundle it was armed for. */
  predicate Starts(s: State, step: Step) {
    match step
    case Open(_) => s.queue != []
    case Enqueue(b, _) => s.open && s.pending.None? && b !in s.queue
    case FireInflight(_) => |s.queue| > 1
    case _ => false
  }

  /** The starts of a run. */
  ghost function History(s: State, steps: seq<Step>): seq<Start>
    requires Possible(s, steps)
    decreases |steps|
  {
    if steps == [] then []
    else
      (if Starts(s, steps[0]) then [Start(s.now, steps[0].w)] else [])
      + History(Apply(s, steps[0]), steps[1..])
  }

  function FlightTime(h: Start): Time {
    h.at + h.w.delay
  }

  function ArrivalTime(h: Start): Time {
    h.at + h.w.delay + h.w.latency
  }

  /** The report waits for an answer to come back in reliable mode. */
  function ReportTime(h: Start): Time {
    if h.w.reliable then h.at + h.w.delay + 2 * h.w.latency else h.at + h.w.delay
  }

  /** Everything that was ever to arrive or to be reported is due when its start says,
      with the length decided then, and so is the bundle being put in flight. */
  predicate OnTime(s: State, h: seq<Start>) {
    && |h| == |s.started| == |Arrivals(s)| == |Reports(s)|
    && (forall k :: 0 <= k < |h| ==> Arrivals(s)[k] == Event(s.started[k], h[k].w.len, ArrivalTime(h[k])))
    && (forall k :: 0 <= k < |h| ==> Reports(s)[k] == Event(s.started[k], h[k].w.len, ReportTime(h[k])))
    && (s.pending.Some? ==>
          (h != [] && var last := |h| - 1;
             s.pending.value == Event(s.started[last], h[last].w.len, FlightTime(h[last]))))
  }

  /** No bundle is started before the one in front of it is in flight. */
  predicate Spaced(s: State, h: seq<Start>) {
    && (forall k :: 0 <= k < |h| - 1 ==> FlightTime(h[k]) <= h[k + 1].at)
    && (h != [] && s.pending.None? ==> FlightTime(h[|h| - 1]) <= s.now)
  }

  lemma SpacedStart(s: State, t: State, w: Wire, h: seq<Start>)
    requires Spaced(s, h) && s.pending.None? && t.pending.Some?
    ensures Spaced(t, h + [Start(s.now, w)])
  {
  }

  lemma SpacedStill(s: State, t: State, h: seq<Start>)
    requires Spaced(s, h) && t.pending == s.pending && s.now <= t.now
    ensures Spaced(t, h)
  {
  }

  lemma InFlight(s: State, h: seq<Start>)
    requires Inv(s) && TimerDue(s.inflightTimer, s.now) && OnTime(s, h) && Spaced(s, h)
    ensures s.pending.Some? && Spaced(s.(pending := None), h)
  {
    hide Conserved, Arrivals, Reports;
  }

  /** What a step does to the bundle being put in flight. */
  lemma PendingAfter(s: State, step: Step)
    requires Inv(s) && Enabled(s, step) && AssertionsHold(s, step)
    ensures var t := Apply(s, step);
      && s.now <= t.now
      && (Starts(s, step) ==> t.now == s.now && t.pending.Some? && (s.pending.Some? ==> step.FireInflight?))
      && (!Starts(s, step) ==> t.pending == if step.FireInflight? then None else s.pending)
  {
    hide Bundles;
    if step.FireInflight? {
      assert s.queue == [s.pending.value.bundle] + Without(s.queue, s.pending.value.bundle);
    }
  }

  lemma StepSpaced(s: State, step: Step, h: seq<Start>)
    requires Inv(s) && Enabled(s, step) && AssertionsHold(s, step) && OnTime(s, h) && Spaced(s, h)
    ensures Spaced(Apply(s, step), h + Added(s, step))
  {
    PendingAfter(s, step);
    StartingSteps(s, step);
    assert h + [] == h;
    var t := Apply(s, step);
    hide Inv, Apply, OnTime, Spaced, Starts, AssertionsHold;
    var u := if step.FireInflight? then s.(pending := None) else s;
    if step.FireInflight? {
      InFlight(s, h);
    }
    if Starts(s, step) {
      SpacedStart(u, t, step.w, h);
    } else {
      SpacedStill(u, t, h);
    }
  }

  lemma StartOnTime(s: State, w: Wire, h: seq<Start>)
    requires s.queue != [] && s.pending.None? && OnTime(s, h)
    ensures OnTime(StartedNext(s, w), h + [Start(s.now, w)])
  {
    var t := StartedNext(s, w);
    assert Arrivals(t) == Arrivals(s) + [t.arrival[|s.arrival|]];
    assert Reports(t) == Reports(s) + [t.transmitted[|s.transmitted|]];
  }

  /** Nothing that the history speaks of has changed. */
  lemma SameTimes(s: State, t: State, h: seq<Start>)
    requires OnTime(s, h) && Arrivals(t) == Arrivals(s) && Reports(t) == Reports(s) && t.started == s.started
    requires t.pending == s.pending || t.pending.None?
    ensures OnTime(t, h)
  {
    hide Arrivals, Reports;
  }

  /** What one step adds to the history. */
  function Added(s: State, step: Step): seq<Start> {
    if Starts(s, step) && CanStart(step) then [Start(s.now, step.w)] else []
  }

  lemma InflightOnTime(s: State, w: Wire, h: seq<Start>)
    requires Inv(s) && TimerDue(s.inflightTimer, s.now) && OnTime(s, h)
    ensures s.pending.Some? && OnTime(InflightDone(s.(inflightTimer := None), w), h + Added(s, FireInflight(w)))
  {
    var e := s.pending.value;
    var t := s.(inflightTimer := None, sent := s.sent + [e.bundle], queue := Without(s.queue, e.bundle),
                pending := None);
    assert s.queue == [e.bundle] + t.queue;
    hide Inv, OnTime, StartedNext;
    SamePairs(s, t);
    SameTimes(s, t, h);
    if t.queue != [] {
      StartOnTime(t, w, h);
      RescheduledOnTime(StartedNext(t, w), h + [Start(s.now, w)]);
    } else {
      RescheduledOnTime(t, h);
      assert h + [] == h;
    }
  }

  lemma RescheduledOnTime(s: State, h: seq<Start>)
    requires OnTime(s, h)
    ensures OnTime(Rescheduled(s), h)
  {
    hide OnTime;
    SamePairs(s, Rescheduled(s));
    SameTimes(s, Rescheduled(s), h);
  }

  lemma StepOnTime(s: State, step: Step, h: seq<Start>)
    requires Inv(s) && Enabled(s, step) && AssertionsHold(s, step) && OnTime(s, h)
    ensures OnTime(Apply(s, step), h + Added(s, step))
  {
    hide OnTime, Arrivals, Reports, StartedNext, InflightDone, Arrived, Transmitted, Conserved;
    assert h + [] == h;
    match step
    case Open(w) =>
      SamePairs(s, s.(open := true));
      SameTimes(s, s.(open := true), h);
      if s.queue != [] {
        StartOnTime(s.(open := true), w, h);
      }
    case Close =>
      SamePairs(s, s.(open := false));
      SameTimes(s, s.(open := false), h);
    case Enqueue(b, w) =>
      if b !in s.queue {
        var t := s.(queue := s.queue + [b], entered := s.entered + [b]);
        SamePairs(s, t);
        SameTimes(s, t, h);
        if s.open && s.pending.None? {
          StartOnTime(t, w, h);
        }
      }
    case Tick(now) =>
      SamePairs(s, s.(now := now));
      SameTimes(s, s.(now := now), h);
    case FireInflight(w) => InflightOnTime(s, w, h);
    case FireArrival =>
      TimersKeepPairs(s);
      HandlersStart(s);
      SameTimes(s, Arrived(s.(arrivalTimer := None)), h);
    case FireTransmitted =>
      TimersKeepPairs(s);
      HandlersStart(s);
      SameTimes(s, Transmitted(s.(transmittedTimer := None)), h);
  }

  lemma HandlersStart(s: State)
    ensures var t := Arrived(s.(arrivalTimer := None)); t.started == s.started && t.pending == s.pending
    ensures var t := Transmitted(s.(transmittedTimer := None)); t.started == s.started && t.pending == s.pending
  {
  }

  lemma {:induction false} RunOnTime(s: State, steps: seq<Step>, h: seq<Start>)
    requires Inv(s) && Possible(s, steps) && OnTime(s, h) && Spaced(s, h)
    ensures OnTime(After(s, steps), h + History(s, steps)) && Spaced(After(s, steps), h + History(s, steps))
    decreases |steps|
  {
    if steps == [] {
      assert h + [] == h;
    } else {
      StepKeeps(s, steps[0]);
      StepOnTime(s, steps[0], h);
      StepSpaced(s, steps[0], h);
      StartingSteps(s, steps[0]);
      hide Inv, Apply, Enabled, AssertionsHold, OnTime, Spaced, Starts;
      RunOnTime(Apply(s, steps[0]), steps[1..], h + Added(s, steps[0]));
      Regroup(h, Added(s, steps[0]), History(Apply(s, steps[0]), steps[1..]));
    }
  }

  lemma StartingSteps(s: State, step: Step)
    ensures Starts(s, step) ==> CanStart(step)
  {
  }

  /** In every reachable state, at any delays, latencies and modes: the k-th bundle
      started arrives one delay and one latency after its start, and its report is due
      two latencies after its delay in reliable mode and none otherwise; the bundle
      being put in flight, and its timer, stand at its start and its delay; and none is
      started before the one in front of it is in flight. */
  lemma TimingLaw(steps: seq<Step>)
    requires Possible(FRESH, steps)
    ensures var s, h := After(FRESH, steps), History(FRESH, steps);
      OnTime(s, h) && Spaced(s, h) && (s.pending.Some? ==> h != [] && s.inflightTimer == Some(FlightTime(h[|h| - 1])))
  {
    Beginning();
    hide *;
    RunOnTime(FRESH, steps, []);
    RunKeeps(FRESH, steps);
    assert [] + History(FRESH, steps) == History(FRESH, steps);
    if After(FRESH, steps).pending.Some? {
      TimerOnTime(After(FRESH, steps), History(FRESH, steps));
    }
  }

  lemma Beginning()
    ensures Inv(FRESH) && OnTime(FRESH, []) && Spaced(FRESH, [])
  {
  }

  lemma TimerOnTime(s: State, h: seq<Start>)
    requires Inv(s) && OnTime(s, h) && s.pending.Some?
    ensures h != [] && s.inflightTimer == Some(FlightTime(h[|h| - 1]))
  {
    hide Conserved, Bundles, Arrivals, Reports;
  }

  /** Which steps start a bundle: those and no others, and the one in front. */
  lemma StartsExactly(s: State, step: Step)
    requires Inv(s) && Enabled(s, step) && AssertionsHold(s, step)
    ensures var t := Apply(s, step);
      if Starts(s, step) then t.queue != [] && t.started == s.started + [t.queue[0]] else t.started == s.started
  {
    if step.FireInflight? {
      var e := s.pending.value;
      assert s.queue == [e.bundle] + Without(s.queue, e.bundle);
    }
    hide Bundles;
  }

  /** The link is taken from a start until the delay is over, whatever happens in
      between; the first firing of the in-flight timer from then on starts the next
      bundle if one waits. */
  lemma NextStart(steps: seq<Step>, step: Step)
    requires Possible(FRESH, steps) && Enabled(After(FRESH, steps), step) && AssertionsHold(After(FRESH, steps), step)
    requires After(FRESH, steps).pending.Some?
    ensures var s, h := After(FRESH, steps), History(FRESH, steps);
      && h != []
      && (Starts(s, step) ==> step.FireInflight?)
      && (step.FireInflight? ==>
            && s.now >= FlightTime(h[|h| - 1])
            && (Starts(s, step) <==> |s.queue| > 1)
            && (|s.queue| == 1 ==> Apply(s, step).pending.None?))
      && (!step.FireInflight? ==>
            Apply(s, step).pending == s.pending && Apply(s, step).inflightTimer == s.inflightTimer)
  {
    TimingLaw(steps);
    RunKeeps(FRESH, steps);
    var s := After(FRESH, steps);
    hide After, History, Possible;
    if step.FireInflight? {
      assert s.queue == [s.pending.value.bundle] + Without(s.queue, s.pending.value.bundle);
    }
    hide Bundles;
  }

  // ------------------------------------------------------------ once in the queue

  predicate NoTwice(q: seq<Bundle>) {
    forall i, j :: 0 <= i < j < |q| ==> q[i] != q[j]
  }

  lemma StepNoTwice(s: State, step: Step)
    requires Inv(s) && Enabled(s, step) && AssertionsHold(s, step) && NoTwice(s.queue)
    ensures NoTwice(Apply(s, step).queue)
    ensures step.Enqueue? && step.b in s.queue ==> Apply(s, step) == s
  {
    hide Bundles;
    if step.FireInflight? {
      assert s.queue == [s.pending.value.bundle] + Without(s.queue, s.pending.value.bundle);
    }
  }

  lemma {:induction false} RunNoTwice(s: State, steps: seq<Step>)
    requires Inv(s) && Possible(s, steps) && NoTwice(s.queue)
    ensures NoTwice(After(s, steps).queue)
    decreases |steps|
  {
    if steps != [] {
      StepKeeps(s, steps[0]);
      StepNoTwice(s, steps[0]);
      hide Inv, Apply, Enabled, AssertionsHold, NoTwice;
      RunNoTwice(Apply(s, steps[0]), steps[1..]);
    }
  }

  /** No bundle is ever queued twice, and queueing it again changes nothing. */
  lemma QueuedOnce(steps: seq<Step>, b: Bundle, w: Wire)
    requires Possible(FRESH, steps)
    ensures var s := After(FRESH, steps); NoTwice(s.queue) && (b in s.queue ==> Apply(s, Enqueue(b, w)) == s)
  {
    RunNoTwice(FRESH, steps);
    RunKeeps(FRESH, steps);
    hide After, Possible, Conserved;
    StepNoTwice(After(FRESH, steps), Enqueue(b, w));
  }
}
