/** What each handler answers and does, said of the state before and after, and what
    becomes of a registration that has been unregistered. */
module RegistrationEffects {
  import opened Common
  import opened Registrations

  // ------------------------------------------------------------- the daemon

  /** Draining in two goes. */
  lemma {:induction false} DrainSplits(s: State, n: nat, m: nat)
    ensures Drain(s, n + m) == Drain(Drain(s, n), m)
    decreases n
  {
    if n > 0 && s.queue != [] {
      DrainSplits(Process(s), n - 1, m);
    } else if s.queue == [] {
      assert Drain(s, n + m) == s == Drain(s, m);
    }
  }

  /** No event speaks of r. */
  predicate Quiet(q: seq<Event>, r: RegId) {
    forall e :: e in q ==> e.id != r
  }

  /** What is true of r is the same in both states. */
  predicate SameOf(s: State, t: State, r: RegId) {
    && (r in t.live <==> r in s.live) && (r in s.live ==> t.live[r] == s.live[r])
    && (r in t.table <==> r in s.table)
  }

  /** A registration no event speaks of is left alone. */
  lemma {:induction false} DrainLeaves(s: State, n: nat, r: RegId)
    requires Quiet(s.queue, r)
    ensures SameOf(s, Drain(s, n), r) && Quiet(Drain(s, n).queue, r)
    decreases n
  {
    if n > 0 && s.queue != [] {
      DrainLeaves(Process(s), n - 1, r);
    }
  }

  lemma ProcessLeaves(s: State, r: RegId)
    requires s.queue != [] && s.queue[0].id != r
    ensures SameOf(s, Process(s), r)
  {
  }

  /** The event at j comes to the head of the queue, with its registration as it was. */
  lemma {:induction false} DrainReaches(s: State, j: nat)
    requires j < |s.queue| && Quiet(s.queue[..j], s.queue[j].id)
    ensures var t := Drain(s, j);
      t.queue != [] && t.queue[0] == s.queue[j] && SameOf(s, t, s.queue[j].id)
    decreases j
  {
    hide Process;
    if j > 0 {
      var t, r := Process(s), s.queue[j].id;
      assert s.queue[..j][0] == s.queue[0] && s.queue[..j][1..] == s.queue[1..][..j - 1];
      ProcessQueue(s);
      ProcessLeaves(s, r);
      assert t.queue[j - 1] == s.queue[j] && t.queue[..j - 1] == s.queue[1..j];
      DrainReaches(t, j - 1);
    }
  }

  /** r is out of the table, and nothing queued puts it back. */
  lemma {:induction false} StaysOut(s: State, r: RegId, n: nat)
    requires r !in s.table && Added(r) !in s.queue
    ensures r !in Drain(s, n).table
    decreases n
  {
    if n > 0 && s.queue != [] {
      ProcessQueue(s);
      StaysOut(Process(s), r, n - 1);
    }
  }

  /** An expiry or a removal takes an inactive registration out of the table. */
  lemma {:induction false} TakenOut(s: State, r: RegId, j: nat, n: nat)
    requires j < n && j < |s.queue| && s.queue[j] in {Expired(r), Removed(r)} && Added(r) !in s.queue
    requires r in s.table ==> r in s.live && !s.live[r].active
    ensures r !in Drain(s, n).table
    decreases n
  {
    ProcessQueue(s);
    if j == 0 {
      StaysOut(Process(s), r, n - 1);
    } else {
      assert Process(s).queue[j - 1] == s.queue[j];
      TakenOut(Process(s), r, j - 1, n - 1);
    }
  }

  // ---------------------------------------------------------------- the handlers

  lemma TableLives(s: State, r: RegId)
    requires Inv(s) && r in s.table
    ensures r in s.live
  {
  }

  /** Whoever holds it, it is a live API registration, active, with its holder the only one. */
  lemma HeldFacts(s: State, c: Client, r: RegId)
    requires Inv(s) && Holds(s.bindings, c, r)
    ensures r in s.live && s.live[r].api && s.live[r].active && r in s.table
    ensures forall d :: Holds(s.bindings, d, r) ==> d == c
  {
    assert Held(s.bindings, r);
    OwnedBelow(s, r);
    NothingAwaited(s, r);
  }

  lemma InactiveIsFree(s: State, r: RegId)
    requires Inv(s) && r in s.live && !s.live[r].active
    ensures s.live[r].api && !Held(s.bindings, r)
  {
    OwnedBelow(s, r);
    OnlyApiIdle(s, r);
  }

  /** Registering: the next number, in the table and bound last in the client's list
      unless passive; whatever no queued event speaks of is as it was. */
  lemma RegisterEffect(s: State, c: Client, passive: bool, expiration: nat)
    requires Inv(s) && c in s.bindings
    ensures var t, r := Registered(s, c, passive, expiration), s.nextId;
      && t.nextId == r + 1 && r !in s.live && r in t.table && r in t.live
      && t.live[r].api && (t.live[r].active <==> !passive)
      && (t.live[r].expired <==> expiration == 0) && (t.live[r].timer <==> expiration > 0)
      && t.bindings == (if passive then s.bindings else s.bindings[c := s.bindings[c] + [r]])
      && forall x :: x != r && Quiet(s.queue, x) ==> SameOf(s, t, x)
  {
    var r, t := s.nextId, Enrolled(s, c, passive, expiration);
    var posted := t.(queue := t.queue + [Added(r)]);
    NewIsUnknown(s);
    forall e | e in s.queue
      ensures e.id != r
    {
      assert e in Evs(s.queue);
    }
    hide Inv;
    DrainBindings(posted, |s.queue| + 1);
    AddedIsDrained(t, r);
    forall x | x != r && Quiet(s.queue, x)
      ensures SameOf(s, Drain(posted, |s.queue| + 1), x)
    {
      hide Drain, Process;
      DrainLeaves(posted, |s.queue| + 1, x);
    }
    hide Drain, Process;
  }

  lemma AddedIsDrained(s: State, r: RegId)
    requires Quiet(s.queue, r) && r in s.live
    ensures var t := Drain(s.(queue := s.queue + [Added(r)]), |s.queue| + 1);
      r in t.table && r in t.live && t.live[r] == s.live[r]
  {
    hide Drain, Process;
    var posted := s.(queue := s.queue + [Added(r)]);
    assert posted.queue[..|s.queue|] == s.queue;
    DrainReaches(posted, |s.queue|);
    DrainSplits(posted, |s.queue|, 1);
    OneEvent(Drain(posted, |s.queue|));
    AddedEnters(Drain(posted, |s.queue|), r);
  }

  lemma OneEvent(s: State)
    requires s.queue != []
    ensures Drain(s, 1) == Process(s)
  {
    assert Drain(Process(s), 0) == Process(s);
  }

  lemma AddedEnters(s: State, r: RegId)
    requires s.queue != [] && s.queue[0] == Added(r) && r in s.live
    ensures var t := Process(s); r in t.table && r in t.live && t.live[r] == s.live[r]
  {
  }

  /** Binding: refused exactly when the registration is not a client's, or somebody has
      it; else it is active and last in the client's list, and nothing else changes. */
  lemma BindEffect(s: State, c: Client, r: RegId)
    requires Inv(s) && c in s.bindings
    ensures var (t, code) := Bound(s, c, r);
      && (code.NotFound? <==> r !in s.table || !s.live[r].api)
      && (code.Busy? <==> Held(s.bindings, r) && r in s.table)
      && !code.Invalid?
      && (!code.Success? ==> t == s)
      && (code.Success? ==>
            && t == s.(live := t.live, bindings := t.bindings) && t.live.Keys == s.live.Keys
            && t.live[r] == s.live[r].(active := true, bornExpired := false)
            && (forall x :: x in s.live && x != r ==> t.live[x] == s.live[x])
            && t.bindings == s.bindings[c := s.bindings[c] + [r]])
  {
    if r in s.table {
      TableLives(s, r);
      OwnedBelow(s, r);
      OnlyApiIdle(s, r);
    }
  }

  /** Unbinding: refused exactly when the client does not hold it; else nobody does,
      the rest of the list keeps its order, and an expired registration is reported. */
  lemma UnbindEffect(s: State, c: Client, r: RegId)
    requires Inv(s) && c in s.bindings
    ensures var (t, code) := Unbound(s, c, r);
      && (code.NotFound? <==> !Holds(s.bindings, c, r))
      && (code.NotFound? || code.Success?)
      && (!code.Success? ==> t == s)
      && (code.Success? ==>
            && !Held(t.bindings, r) && LetGo(s, t, r)
            && (exists i :: 0 <= i < |s.bindings[c]| && s.bindings[c][i] == r
                            && t.bindings == s.bindings[c := s.bindings[c][..i] + s.bindings[c][i + 1..]]))
  {
    if Holds(s.bindings, c, r) {
      HeldFacts(s, c, r);
      UnbindKeeps(s, c, r);
      var (t, code) := Unbound(s, c, r);
      OwnedBelow(t, r);
      var i := FirstPlace(s.bindings[c], r);
      WithoutAt(s.bindings[c], r, i);
    }
  }

  lemma FirstPlace(rs: seq<RegId>, r: RegId) returns (i: nat)
    requires r in rs
    ensures i < |rs| && rs[i] == r && r !in rs[..i]
  {
    i := 0;
    while rs[i] != r
      invariant i < |rs| && r !in rs[..i] && r in rs[i..]
      decreases |rs| - i
    {
      i := i + 1;
    }
  }

  /** Between s and t, r was made inactive and reported if it had expired; no other
      registration changed. */
  ghost predicate LetGo(s: State, t: State, r: RegId) {
    && r in s.live && t == s.(live := t.live, bindings := t.bindings, queue := t.queue)
    && t.live == s.live[r := s.live[r].(active := false)]
    && t.queue == s.queue + if s.live[r].expired then [Expired(r)] else []
  }

  /** Unregistering, exactly: not found when it is not in the table, invalid when the
      client holds it and it has expired, busy when somebody else has it.  The client's
      own is expired on the spot, its timer cancelled and nothing else changed; one that
      nobody has leaves the table, and its object lives until the daemon comes to the
      deletion, unless an expiry was queued already. */
  lemma UnregisterEffect(s: State, c: Client, r: RegId)
    requires Inv(s) && c in s.bindings
    ensures var (t, code) := Unregistered(s, c, r);
      && (code.NotFound? <==> r !in s.table)
      && (code.Invalid? <==> Holds(s.bindings, c, r) && s.live[r].expired)
      && (code.Busy? <==> r in s.table && s.live[r].active && !Holds(s.bindings, c, r))
      && (!code.Success? ==> t == s)
      && (Holds(s.bindings, c, r) && !s.live[r].expired ==>
            code.Success? && t == s.(live := s.live[r := s.live[r].(expired := true, timer := false)]))
      && (r in s.table && !s.live[r].active ==>
            && code.Success? && r !in t.table && t.bindings == s.bindings
            && (forall x :: x != r && Quiet(s.queue, x) ==> SameOf(s, t, x))
            && (Expired(r) !in s.queue ==>
                  r in t.live && t.live[r] == s.live[r] && t.queue != [] && t.queue[|t.queue| - 1] == Delete(r)))
  {
    if Holds(s.bindings, c, r) {
      HeldFacts(s, c, r);
    }
    if r in s.table {
      TableLives(s, r);
      if !s.live[r].active {
        InactiveIsFree(s, r);
        assert !Holds(s.bindings, c, r) ==> r !in s.bindings[c];
        assert !Holds(s.bindings, c, r);
        RemoveEffect(s, r);
      }
    }
  }

  lemma RemoveEffect(s: State, r: RegId)
    requires Inv(s) && r in s.table && r in s.live && !s.live[r].active
    ensures var t := PostAndWait(s, Removed(r));
      && r !in t.table && t.bindings == s.bindings
      && (forall x :: x != r && Quiet(s.queue, x) ==> SameOf(s, t, x))
      && (Expired(r) !in s.queue ==>
            r in t.live && t.live[r] == s.live[r] && t.queue != [] && t.queue[|t.queue| - 1] == Delete(r))
  {
    var posted := s.(queue := s.queue + [Removed(r)]);
    NothingAwaited(s, r);
    assert Added(r) !in posted.queue by {
      assert forall e :: e in s.queue ==> e in Evs(s.queue);
    }
    if Expired(r) !in s.queue {
      OnlyExpiry(s, r);
    }
    hide Inv, Drain, Process;
    TakenOut(posted, r, |s.queue|, |s.queue| + 1);
    DrainBindings(posted, |s.queue| + 1);
    forall x | x != r && Quiet(s.queue, x)
      ensures SameOf(s, Drain(posted, |s.queue| + 1), x)
    {
      DrainLeaves(posted, |s.queue| + 1, x);
    }
    if Expired(r) !in s.queue {
      RemovedIsDrained(s, r);
    }
  }

  lemma RemovedIsDrained(s: State, r: RegId)
    requires Quiet(s.queue, r) && r in s.live && r in s.table
    ensures var t := Drain(s.(queue := s.queue + [Removed(r)]), |s.queue| + 1);
      r in t.live && t.live[r] == s.live[r] && t.queue != [] && t.queue[|t.queue| - 1] == Delete(r)
  {
    hide Drain, Process;
    var posted := s.(queue := s.queue + [Removed(r)]);
    assert posted.queue[..|s.queue|] == s.queue;
    DrainReaches(posted, |s.queue|);
    DrainSplits(posted, |s.queue|, 1);
    OneEvent(Drain(posted, |s.queue|));
    RemovedPosts(Drain(posted, |s.queue|), r);
  }

  lemma RemovedPosts(s: State, r: RegId)
    requires s.queue != [] && s.queue[0] == Removed(r) && r in s.live && r in s.table
    ensures var t := Process(s);
      r in t.live && t.live[r] == s.live[r] && r !in t.table && t.queue == s.queue[1..] + [Delete(r)]
  {
  }

  /** The expiry events of those that have expired, in the order of the list. */
  function Reports(live: map<RegId, Registration>, rs: seq<RegId>): seq<Event> {
    if rs == [] then []
    else (if rs[0] in live && live[rs[0]].expired then [Expired(rs[0])] else []) + Reports(live, rs[1..])
  }

  /** c is gone, everything it held, the list `rs`, is inactive, and what had expired is
      reported, front to back; nothing else has changed. */
  ghost predicate Parted(s: State, t: State, c: Client, rs: seq<RegId>) {
    && t == s.(live := t.live, bindings := s.bindings - {c}, queue := s.queue + Reports(s.live, rs))
    && t.live.Keys == s.live.Keys
    && forall r :: r in s.live ==> t.live[r] == if r in rs then s.live[r].(active := false) else s.live[r]
  }

  lemma {:induction false} CloseEffect(s: State, c: Client)
    requires Inv(s) && c in s.bindings
    ensures Parted(s, Closed(s, c), c, s.bindings[c])
    decreases |s.bindings[c]|
  {
    if s.bindings[c] == [] {
      assert s.queue + [] == s.queue;
    } else {
      var r, rest := s.bindings[c][0], s.bindings[c][1..];
      var u := Released(s.(bindings := s.bindings[c := rest]), r);
      HeldFacts(s, c, r);
      HeadNotInTail(s.bindings, c);
      ReleaseKeeps(s, c, rest, r);
      hide *;
      ReleaseOne(s, c, rest, r);
      CloseEffect(u, c);
      CloseFirst(s, c);
      OneMoreParted(s, u, Closed(u, c), c, r, rest);
      assert s.bindings[c] == [r] + rest;
    }
  }

  lemma CloseFirst(s: State, c: Client)
    requires c in s.bindings && s.bindings[c] != []
    ensures var u := Released(s.(bindings := s.bindings[c := s.bindings[c][1..]]), s.bindings[c][0]);
      c in u.bindings && Closed(s, c) == Closed(u, c)
  {
  }

  lemma ReleaseOne(s: State, c: Client, rest: seq<RegId>, r: RegId)
    requires r in s.live
    ensures var u := Released(s.(bindings := s.bindings[c := rest]), r);
      && u == s.(live := s.live[r := s.live[r].(active := false)], bindings := s.bindings[c := rest],
                 queue := s.queue + if s.live[r].expired then [Expired(r)] else [])
  {
    assert s.queue + [] == s.queue;
  }

  lemma OneMoreParted(s: State, u: State, t: State, c: Client, r: RegId, rest: seq<RegId>)
    requires r in s.live && r !in rest && c in s.bindings
    requires u == s.(live := s.live[r := s.live[r].(active := false)], bindings := s.bindings[c := rest],
                     queue := s.queue + if s.live[r].expired then [Expired(r)] else [])
    requires Parted(u, t, c, rest)
    ensures Parted(s, t, c, [r] + rest)
  {
    SameReports(s.live, u.live, rest);
    assert ([r] + rest)[1..] == rest;
    var first := if s.live[r].expired then [Expired(r)] else [];
    Regroup(s.queue, first, Reports(s.live, rest));
    assert Reports(s.live, [r] + rest) == first + Reports(s.live, rest);
    assert u.bindings - {c} == s.bindings - {c};
    hide Reports;
  }

  lemma {:induction false} SameReports(live: map<RegId, Registration>, after: map<RegId, Registration>, rs: seq<RegId>)
    requires forall r :: r in rs ==>
      (r in live <==> r in after) && (r in live ==> after[r].expired == live[r].expired)
    ensures Reports(after, rs) == Reports(live, rs)
  {
    if rs != [] {
      SameReports(live, after, rs[1..]);
    }
  }

  /** A timer that fires marks its registration as expired, and reports it exactly when
      nobody holds it. */
  lemma TimerEffect(s: State, r: RegId)
    requires Inv(s) && r in s.live && s.live[r].timer
    ensures var t := Fire(s, r);
      && t == s.(live := s.live[r := s.live[r].(timer := false, expired := true)], queue := t.queue)
      && t.queue == if Held(s.bindings, r) then s.queue else s.queue + [Expired(r)]
  {
    OwnedBelow(s, r);
    OnlyApiTimers(s, r);
  }

  /** What the daemon does with an event: an expiry removes the registration and its
      object exactly when nobody holds it and it has not left the table yet, a deletion
      in any case; a removal leaves the object for a deletion that it posts, once; and
      an event whose object is gone uses it all the same. */
  lemma EventEffect(s: State)
    requires Working(s) && s.queue != []
    ensures var (t, e, r) := (Process(s), s.queue[0], s.queue[0].id);
      && t.bindings == s.bindings && s.queue[1..] <= t.queue && (forall x :: x != r ==> SameOf(s, t, x))
      && (t.dead <==> s.dead || r !in s.live)
      && (r in s.live ==>
            && (r in t.live <==> !(e.Delete? || (e.Expired? && r in s.table && !Held(s.bindings, r))))
            && (r in t.table <==>
                  e.Added? || (r in s.table && e.Expired? && Held(s.bindings, r)))
            && (r in t.live ==> t.live[r] == s.live[r])
            && t.queue == s.queue[1..] + if e.Removed? && r in s.table then [Delete(r)] else [])
  {
    var r := s.queue[0].id;
    HeldIsActive(s, r);
    EvsTail(s.queue);
    hide Held, OneHolder, Evs, Kept;
  }

  lemma HeldIsActive(s: State, r: RegId)
    requires Working(s)
    ensures Held(s.bindings, r) <==> r in s.live && s.live[r].api && s.live[r].active
  {
  }

  // -------------------------------------------------- what is unregistered goes

  /** r has expired for good, or has gone. */
  predicate Spent(s: State, r: RegId) {
    r < s.nextId && (r in s.live ==> s.live[r].api && s.live[r].expired && !s.live[r].bornExpired)
  }

  lemma {:induction false} DrainSpent(s: State, n: nat, r: RegId)
    requires Spent(s, r)
    ensures Spent(Drain(s, n), r)
    decreases n
  {
    if n > 0 && s.queue != [] {
      DrainSpent(Process(s), n - 1, r);
    }
  }

  lemma {:induction false} CloseSpent(s: State, c: Client, r: RegId)
    requires c in s.bindings && Spent(s, r)
    ensures Spent(Closed(s, c), r)
    decreases |s.bindings[c]|
  {
    if s.bindings[c] != [] {
      CloseSpent(Released(s.(bindings := s.bindings[c := s.bindings[c][1..]]), s.bindings[c][0]), c, r);
    }
  }

  lemma StepSpent(s: State, step: Step, r: RegId)
    requires Enabled(s, step) && Spent(s, r)
    ensures Spent(Apply(s, step), r)
  {
    hide Drain, Closed;
    match step
    case Register(c, passive, expiration) =>
      var t := Enrolled(s, c, passive, expiration);
      DrainSpent(t.(queue := t.queue + [Added(s.nextId)]), |t.queue| + 1, r);
    case Unregister(c, x) => DrainSpent(s.(queue := s.queue + [Removed(x)]), |s.queue| + 1, r);
    case Close(c) => CloseSpent(s, c, r);
    case _ =>
  }

  lemma {:induction false} RunSpent(s: State, steps: seq<Step>, r: RegId)
    requires Possible(s, steps) && Spent(s, r)
    ensures Spent(After(s, steps), r)
    decreases |steps|
  {
    if steps != [] {
      hide Apply, Spent;
      StepSpent(s, steps[0], r);
      RunSpent(Apply(s, steps[0]), steps[1..], r);
    }
  }

  /** A client unregisters what it holds.  Whatever anybody does after that, the
      registration stays expired, and as soon as nobody holds it, its expiry is queued,
      which takes it out of the table. */
  lemma UnregisteredGoes(s: State, c: Client, r: RegId, steps: seq<Step>)
    requires Inv(s) && Holds(s.bindings, c, r)
    requires Enabled(s, Unregister(c, r)) && Possible(Apply(s, Unregister(c, r)), steps)
    ensures var t := After(Apply(s, Unregister(c, r)), steps);
      && (r in t.live ==> t.live[r].expired)
      && (r in t.table && !Held(t.bindings, r) ==> Expired(r) in t.queue)
      && (!Held(t.bindings, r) ==> r !in Drain(t, |t.queue|).table)
  {
    var u := Apply(s, Unregister(c, r));
    HeldFacts(s, c, r);
    UnregisterEffect(s, c, r);
    StepKeeps(s, Unregister(c, r));
    assert Spent(u, r) by {
      OwnedBelow(s, r);
      BoundIsKept(s, r);
    }
    RunKeeps(u, steps);
    RunSpent(u, steps, r);
    var t := After(u, steps);
    hide Apply, After, Possible, Drain;
    if !Held(t.bindings, r) {
      Goes(t, r);
    }
  }

  lemma BoundIsKept(s: State, r: RegId)
    requires Inv(s) && r in s.live && s.live[r].active
    ensures !s.live[r].bornExpired
  {
  }

  lemma Goes(t: State, r: RegId)
    requires Inv(t) && Spent(t, r) && !Held(t.bindings, r)
    ensures r in t.table ==> Expired(r) in t.queue
    ensures r !in Drain(t, |t.queue|).table
  {
    NothingAwaited(t, r);
    assert Added(r) !in t.queue by {
      assert forall e :: e in t.queue ==> e in Evs(t.queue);
    }
    if r in t.table {
      TableLives(t, r);
      OwnedBelow(t, r);
      ForgottenExactly(t, r);
      var j :| 0 <= j < |t.queue| && t.queue[j] == Expired(r);
      hide Inv, Drain;
      TakenOut(t, r, j, |t.queue|);
    } else {
      hide Inv, Drain;
      StaysOut(t, r, |t.queue|);
    }
  }
}
