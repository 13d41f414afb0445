/** Who owns which registration: the API server's handlers for any number of
    clients, the registration timers and the daemon's event queue.  Each handler
    is one atomic step. */
module Registrations {
  import opened Common

  type Client = nat
  type RegId = nat

  /** Registrations of the daemon itself (ping, admin) are not API registrations:
      they are active from birth and nobody can bind them.  `timer`: the expiration
      timer is armed.  `bornExpired`: created passive with expiration 0, and not
      bound since. */
  datatype Registration = Registration(api: bool, active: bool, expired: bool, timer: bool, bornExpired: bool)

  datatype Event = Added(id: RegId) | Removed(id: RegId) | Expired(id: RegId) | Delete(id: RegId)

  /** `live`: the objects not yet deleted; `table`: the registration table;
      `dead`: a deleted object has been used. */
  datatype State = State(live: map<RegId, Registration>, table: set<RegId>, bindings: map<Client, seq<RegId>>,
                         queue: seq<Event>, nextId: RegId, dead: bool)

  datatype Code = Success | NotFound | Busy | Invalid

  // ------------------------------------------------------------- the daemon

  function Set(s: State, r: RegId, reg: Registration): State {
    s.(live := s.live[r := reg])
  }

  function Drop(s: State, r: RegId): State {
    s.(live := s.live - {r}, table := s.table - {r})
  }

  /** BundleDaemon takes the event at the head of its queue.  An expiry posts the
      deletion at the head, so the two are one step here. */
  function Process(s: State): State
    requires s.queue != []
  {
    var t := s.(queue := s.queue[1..]);
    var r := s.queue[0].id;
    if r !in s.live then t.(dead := true)
    else match s.queue[0]
      case Added(_) => t.(table := t.table + {r})
      case Removed(_) => if r !in t.table then t else t.(table := t.table - {r}, queue := t.queue + [Delete(r)])
      case Expired(_) =>
        if r !in t.table then t
        else if s.live[r].active then Set(t, r, s.live[r].(expired := true))
        else Drop(t, r)
      case Delete(_) => Drop(t, r)
  }

  /** post_and_wait: the event goes to the tail, and the daemon works through the
      queue up to and including it. */
  function PostAndWait(s: State, e: Event): State {
    Drain(s.(queue := s.queue + [e]), |s.queue| + 1)
  }

  function Drain(s: State, n: nat): State
    decreases n
  {
    if n == 0 || s.queue == [] then s else Drain(Process(s), n - 1)
  }

  /** The expiration timer of r fires. */
  function Fire(s: State, r: RegId): State
    requires r in s.live && s.live[r].timer
  {
    var t := Set(s, r, s.live[r].(timer := false, expired := true));
    if s.live[r].active then t else t.(queue := t.queue + [Expired(r)])
  }

  // ----------------------------------------------------- the handlers, on values

  function Enrolled(s: State, c: Client, passive: bool, expiration: nat): State
    requires c in s.bindings
  {
    var r := s.nextId;
    var reg := Registration(true, !passive, expiration == 0, expiration != 0, passive && expiration == 0);
    s.(live := s.live[r := reg], nextId := r + 1,
       bindings := if passive then s.bindings else s.bindings[c := s.bindings[c] + [r]])
  }

  function Registered(s: State, c: Client, passive: bool, expiration: nat): State
    requires c in s.bindings
  {
    PostAndWait(Enrolled(s, c, passive, expiration), Added(s.nextId))
  }

  function Bound(s: State, c: Client, r: RegId): (State, Code)
    requires c in s.bindings
  {
    if r !in s.table || r !in s.live || !s.live[r].api then (s, NotFound)
    else if s.live[r].active then (s, Busy)
    else
      var t := Set(s, r, s.live[r].(active := true, bornExpired := false));
      (t.(bindings := s.bindings[c := s.bindings[c] + [r]]), Success)
  }

  /** Let go of r: it becomes inactive, and if it has expired meanwhile the daemon
      is told to clean it up. */
  function Released(s: State, r: RegId): State {
    if r !in s.live then s.(dead := true)
    else
      var t := Set(s, r, s.live[r].(active := false));
      if s.live[r].expired then t.(queue := t.queue + [Expired(r)]) else t
  }

  function Unbound(s: State, c: Client, r: RegId): (State, Code)
    requires c in s.bindings
  {
    if r !in s.table || r !in s.live || !s.live[r].api || r !in s.bindings[c] then (s, NotFound)
    else (Released(s.(bindings := s.bindings[c := Without(s.bindings[c], r)]), r), Success)
  }

  function Unregistered(s: State, c: Client, r: RegId): (State, Code)
    requires c in s.bindings
  {
    if r !in s.table || r !in s.live then (s, NotFound)
    else if r in s.bindings[c] && s.live[r].active then
      if s.live[r].expired then (s, Invalid)
      else (Set(s, r, s.live[r].(expired := true, timer := false)), Success)
    else if s.live[r].active then (s, Busy)
    else (PostAndWait(s, Removed(r)), Success)
  }

  /** `close_client`: release everything bound, front to back. */
  function Closed(s: State, c: Client): State
    requires c in s.bindings
    decreases |s.bindings[c]|
  {
    if s.bindings[c] == [] then s.(bindings := s.bindings - {c})
    else
      var r := s.bindings[c][0];
      Closed(Released(s.(bindings := s.bindings[c := s.bindings[c][1..]]), r), c)
  }

  // ------------------------------------------------------------ the invariant

  ghost predicate Holds(b: map<Client, seq<RegId>>, c: Client, r: RegId) {
    c in b && r in b[c]
  }

  ghost predicate Held(b: map<Client, seq<RegId>>, r: RegId) {
    exists c :: Holds(b, c, r)
  }

  predicate NoRepeats(rs: seq<RegId>) {
    forall i, j :: 0 <= i < j < |rs| ==> rs[i] != rs[j]
  }

  /** Held once, and by one client. */
  ghost predicate OneHolder(b: map<Client, seq<RegId>>) {
    && (forall c :: c in b ==> NoRepeats(b[c]))
    && (forall c, d, r :: Holds(b, c, r) && Holds(b, d, r) ==> c == d)
  }

  type Bindings = map<Client, seq<RegId>>
  type Objects = map<RegId, Registration>

  /** An API registration is active exactly when some client holds it, and then
      it is one client and once; numbers are fresh. */
  ghost predicate Owned(b: Bindings, live: Objects, table: set<RegId>, nextId: RegId) {
    && OneHolder(b)
    && (forall r :: Held(b, r) <==> r in live && live[r].api && live[r].active)
    && (forall r :: r in live ==> r < nextId)
    && table <= live.Keys
  }

  /** Expired, with nobody bound to it. */
  predicate Forgotten(reg: Registration) {
    reg.api && !reg.active && reg.expired
  }

  /** An addition to the table can only be forgotten already if it was born so. */
  predicate Awaitable(reg: Registration) {
    Forgotten(reg) ==> reg.bornExpired
  }

  /** An unexpired API registration has its timer armed, and only such a one; an
      event says of its registration what is true of it. */
  ghost predicate Timed(live: Objects, table: set<RegId>, nextId: RegId, q: set<Event>) {
    && (forall r :: r in live ==> if live[r].api then live[r].timer == !live[r].expired
                                  else live[r].active && !live[r].timer)
    && (forall e :: e in q ==> e.id < nextId)
    && (forall r :: Expired(r) in q && r in live ==> live[r].api && live[r].expired)
    && (forall r :: Delete(r) in q && r in live ==> live[r].api && !live[r].active && r !in table)
    && (forall r :: Removed(r) in q && r in live ==> live[r].api && !live[r].active)
    && (forall r :: Added(r) in q ==> Delete(r) !in q && Removed(r) !in q && (r in live ==> Awaitable(live[r])))
    && (forall r :: r in live && live[r].bornExpired ==> live[r].api && Forgotten(live[r]) && Expired(r) !in q)
  }

  /** Nothing bound is lost from the table, and of an expired registration that
      nobody holds the expiry event is queued, unless it was born expired. */
  ghost predicate Kept(b: Bindings, live: Objects, table: set<RegId>, q: set<Event>) {
    && (forall r :: Held(b, r) ==> r in table || Added(r) in q)
    && (forall r :: r in table && r in live && Forgotten(live[r]) && !live[r].bornExpired ==> Expired(r) in q)
  }

  ghost function Evs(q: seq<Event>): set<Event> {
    set e | e in q
  }

  ghost predicate Working(s: State) {
    && Owned(s.bindings, s.live, s.table, s.nextId)
    && Timed(s.live, s.table, s.nextId, Evs(s.queue))
    && Kept(s.bindings, s.live, s.table, Evs(s.queue))
  }

  /** Additions and removals are never left in the queue: their posters wait. */
  predicate Settled(q: seq<Event>) {
    forall e :: e in q ==> e.Expired? || e.Delete?
  }

  /** What holds between any two steps of any number of clients. */
  ghost predicate Inv(s: State) {
    Working(s) && Settled(s.queue)
  }

  lemma EvsAppend(q: seq<Event>, e: Event)
    ensures Evs(q + [e]) == Evs(q) + {e}
    ensures Settled(q) && (e.Expired? || e.Delete?) ==> Settled(q + [e])
  {
  }

  lemma EvsTail(q: seq<Event>)
    requires q != []
    ensures q[0] in Evs(q) && Evs(q[1..]) <= Evs(q) <= Evs(q[1..]) + {q[0]}
  {
    assert q == [q[0]] + q[1..];
  }

  /** What Timed asks of one registration. */
  ghost predicate TimedAt(reg: Registration, inTable: bool, r: RegId, q: set<Event>) {
    && reg.api && reg.timer == !reg.expired
    && (Expired(r) in q ==> reg.expired)
    && (Delete(r) in q ==> !reg.active && !inTable)
    && (Removed(r) in q ==> !reg.active)
    && (Added(r) in q ==> Delete(r) !in q && Removed(r) !in q && Awaitable(reg))
    && (reg.bornExpired ==> Forgotten(reg) && Expired(r) !in q)
  }

  lemma TimedHere(live: Objects, table: set<RegId>, nextId: RegId, q: set<Event>, r: RegId)
    requires Timed(live, table, nextId, q) && r in live && live[r].api
    ensures TimedAt(live[r], r in table, r, q)
  {
  }

  lemma TimedUpdate(live: Objects, table: set<RegId>, nextId: RegId, q: set<Event>,
                    r: RegId, reg: Registration, nextId': RegId, q': set<Event>)
    requires Timed(live, table, nextId, q) && r < nextId' && nextId <= nextId'
    requires TimedAt(reg, r in table, r, q')
    requires q <= q' && forall e :: e in q' && e !in q ==> e.id == r
    ensures Timed(live[r := reg], table, nextId', q')
  {
    var live' := live[r := reg];
    forall x | x != r
      ensures Expired(x) in q' ==> Expired(x) in q
      ensures Delete(x) in q' ==> Delete(x) in q
      ensures Removed(x) in q' ==> Removed(x) in q
      ensures Added(x) in q' ==> Added(x) in q
    {
    }
  }

  lemma ProcessWorks(s: State)
    requires Working(s) && s.queue != []
    ensures Working(Process(s))
  {
    hide Held, OneHolder, Evs;
    var t, e := Process(s), s.queue[0];
    EvsTail(s.queue);
    EvsAppend(s.queue[1..], Delete(e.id));
    ProcessOwned(s);
    ProcessTimed(s);
    assert Kept(t.bindings, t.live, t.table, Evs(t.queue));
  }

  lemma ProcessOwned(s: State)
    requires Working(s) && s.queue != []
    ensures var t := Process(s); Owned(t.bindings, t.live, t.table, t.nextId)
  {
    hide Held, OneHolder, Evs, Kept;
    EvsTail(s.queue);
  }

  /** Fewer events and fewer objects keep what was true of the rest. */
  lemma TimedFewer(live: Objects, table: set<RegId>, nextId: RegId, q: set<Event>,
                   live': Objects, table': set<RegId>, q': set<Event>)
    requires Timed(live, table, nextId, q) && q' <= q
    requires forall r :: r in live' ==> r in live && live'[r] == live[r]
    requires forall r :: r in table' && r !in table ==> Added(r) in q
    ensures Timed(live', table', nextId, q')
  {
  }

  lemma ProcessTimed(s: State)
    requires Working(s) && s.queue != []
    ensures var t := Process(s); Timed(t.live, t.table, t.nextId, Evs(t.queue))
  {
    var t, r, rest := Process(s), s.queue[0].id, s.queue[1..];
    var q := Evs(s.queue);
    hide Held, OneHolder, Evs, Kept, Timed, Owned;
    EvsTail(s.queue);
    if r !in s.live {
      TimedFewer(s.live, s.table, s.nextId, q, t.live, t.table, Evs(rest));
    } else {
      TimedOfHead(s);
      if s.queue[0].Removed? && r in s.table {
        EvsAppend(rest, Delete(r));
        TimedFewer(s.live, s.table, s.nextId, q, t.live, t.table, Evs(rest));
        TimedHere(t.live, t.table, s.nextId, Evs(rest), r);
        TimedUpdate(t.live, t.table, s.nextId, Evs(rest), r, t.live[r], s.nextId, Evs(t.queue));
        assert t.live[r := t.live[r]] == t.live;
      } else {
        TimedFewer(s.live, s.table, s.nextId, q, t.live, t.table, Evs(rest));
      }
    }
  }

  /** What is true of the registration the first event speaks of. */
  lemma TimedOfHead(s: State)
    requires Working(s) && s.queue != []
    ensures var r := s.queue[0].id;
      && r < s.nextId
      && (r in s.live && s.queue[0].Expired? ==> s.live[r].expired)
      && (r in s.live && s.queue[0].Removed? ==> s.live[r].api && !s.live[r].active && Added(r) !in Evs(s.queue))
  {
    hide Held, OneHolder, Kept, Evs, Owned;
    EvsTail(s.queue);
  }

  /** The daemon gets through what was queued; only deletions can be left. */
  lemma {:induction false} DrainWorks(s: State, n: nat)
    requires Working(s) && n <= |s.queue|
    requires forall e :: e in s.queue[n..] ==> e.Delete?
    ensures Working(Drain(s, n)) && forall e :: e in Drain(s, n).queue ==> e.Delete?
    decreases n
  {
    if n > 0 {
      ProcessWorks(s);
      hide Working;
      ProcessQueue(s);
      DrainWorks(Process(s), n - 1);
    }
  }

  /** Handling an event takes it off the queue and adds at most a deletion. */
  lemma ProcessQueue(s: State)
    requires s.queue != []
    ensures Process(s).queue == s.queue[1..] || Process(s).queue == s.queue[1..] + [Delete(s.queue[0].id)]
    ensures Process(s).bindings == s.bindings && Process(s).nextId == s.nextId
  {
  }

  lemma PostAndWaitWorks(s: State, e: Event)
    requires Working(s.(queue := s.queue + [e]))
    ensures Inv(PostAndWait(s, e)) && PostAndWait(s, e).bindings == s.bindings
  {
    var t := s.(queue := s.queue + [e]);
    assert t.queue[|t.queue|..] == [];
    DrainWorks(t, |t.queue|);
    DrainBindings(t, |t.queue|);
  }

  lemma {:induction false} DrainBindings(s: State, n: nat)
    ensures Drain(s, n).bindings == s.bindings && Drain(s, n).nextId == s.nextId
    decreases n
  {
    if n > 0 && s.queue != [] {
      DrainBindings(Process(s), n - 1);
    }
  }

  lemma BindMap(b: map<Client, seq<RegId>>, c: Client, r: RegId)
    requires OneHolder(b) && c in b && !Held(b, r)
    ensures var t := b[c := b[c] + [r]]; OneHolder(t) && forall x :: Held(t, x) <==> Held(b, x) || x == r
  {
    var t := b[c := b[c] + [r]];
    assert !Holds(b, c, r);
    assert Holds(t, c, r);
    assert forall d, x :: Holds(t, d, x) <==> Holds(b, d, x) || (d == c && x == r);
    forall x | Held(b, x)
      ensures Held(t, x)
    {
      var d :| Holds(b, d, x);
      assert Holds(t, d, x);
    }
  }

  lemma ReleaseMap(b: map<Client, seq<RegId>>, c: Client, rest: seq<RegId>, r: RegId)
    requires OneHolder(b) && Holds(b, c, r)
    requires NoRepeats(rest) && forall x :: x in rest <==> x in b[c] && x != r
    ensures OneHolder(b[c := rest]) && forall x :: Held(b[c := rest], x) <==> Held(b, x) && x != r
  {
    var t := b[c := rest];
    forall d, x
      ensures Holds(t, d, x) <==> Holds(b, d, x) && x != r
    {
      if d != c && x == r {
        assert !Holds(b, d, r);
      }
    }
    forall x | Held(b, x) && x != r
      ensures Held(t, x)
    {
      var d :| Holds(b, d, x);
      assert Holds(t, d, x);
    }
    forall x | Held(t, x)
      ensures Held(b, x) && x != r
    {
      var d :| Holds(t, d, x);
      assert Holds(b, d, x);
    }
  }

  lemma ForgetMap(b: map<Client, seq<RegId>>, c: Client)
    requires OneHolder(b) && c in b && b[c] == []
    ensures OneHolder(b - {c}) && forall x :: Held(b - {c}, x) <==> Held(b, x)
  {
    assert forall d, x :: Holds(b - {c}, d, x) <==> Holds(b, d, x);
    forall x | Held(b, x)
      ensures Held(b - {c}, x)
    {
      var d :| Holds(b, d, x);
      assert Holds(b - {c}, d, x);
    }
  }

  /** One registration changes, and with it at most the holding of it. */
  lemma OwnedUpdate(b: Bindings, live: Objects, table: set<RegId>, nextId: RegId,
                    b': Bindings, r: RegId, reg: Registration, nextId': RegId)
    requires Owned(b, live, table, nextId) && r < nextId' && nextId <= nextId'
    requires OneHolder(b') && forall x :: x != r ==> (Held(b', x) <==> Held(b, x))
    requires Held(b', r) <==> reg.api && reg.active
    ensures Owned(b', live[r := reg], table, nextId')
  {
    hide Held, OneHolder;
  }

  lemma KeptUpdate(b: Bindings, live: Objects, table: set<RegId>, q: set<Event>,
                   b': Bindings, r: RegId, reg: Registration, q': set<Event>)
    requires Kept(b, live, table, q) && q <= q'
    requires forall x :: x != r ==> (Held(b', x) <==> Held(b, x))
    requires Held(b', r) ==> r in table || Added(r) in q'
    requires r in table && Forgotten(reg) && !reg.bornExpired ==> Expired(r) in q'
    ensures Kept(b', live[r := reg], table, q')
  {
    hide Held;
  }

  /** A new object, with its addition queued, before the daemon has seen it. */
  lemma NewWorks(s: State, b: Bindings, reg: Registration)
    requires Inv(s) && OneHolder(b) && reg.api && reg.timer == !reg.expired
    requires Awaitable(reg) && (reg.bornExpired ==> Forgotten(reg))
    requires forall x :: x != s.nextId ==> (Held(b, x) <==> Held(s.bindings, x))
    requires Held(b, s.nextId) <==> reg.active
    ensures Working(State(s.live[s.nextId := reg], s.table, b, s.queue + [Added(s.nextId)], s.nextId + 1, s.dead))
  {
    hide Held, OneHolder, Evs, Timed, Owned, Kept, Settled;
    var r := s.nextId;
    NewIsUnknown(s);
    EvsAppend(s.queue, Added(r));
    OwnedUpdate(s.bindings, s.live, s.table, s.nextId, b, r, reg, r + 1);
    KeptUpdate(s.bindings, s.live, s.table, Evs(s.queue), b, r, reg, Evs(s.queue + [Added(r)]));
    TimedUpdate(s.live, s.table, s.nextId, Evs(s.queue), r, reg, r + 1, Evs(s.queue + [Added(r)]));
  }

  lemma EnrollWorks(s: State, c: Client, passive: bool, expiration: nat)
    requires Inv(s) && c in s.bindings
    ensures var t := Enrolled(s, c, passive, expiration); Working(t.(queue := t.queue + [Added(s.nextId)]))
  {
    hide Inv, Working, Held, OneHolder;
    var t := Enrolled(s, c, passive, expiration);
    NewIsUnknown(s);
    OwnedBelow(s, s.nextId);
    if !passive {
      BindMap(s.bindings, c, s.nextId);
    }
    NewWorks(s, t.bindings, t.live[s.nextId]);
  }

  lemma RegisterKeeps(s: State, c: Client, passive: bool, expiration: nat)
    requires Inv(s) && c in s.bindings
    ensures Inv(Registered(s, c, passive, expiration))
  {
    hide Inv, Working, Enrolled, PostAndWait;
    EnrollWorks(s, c, passive, expiration);
    PostAndWaitWorks(Enrolled(s, c, passive, expiration), Added(s.nextId));
  }

  /** No event speaks of the next number. */
  lemma NewIsUnknown(s: State)
    requires Inv(s)
    ensures s.nextId !in s.live && s.nextId !in s.table && forall e :: e in Evs(s.queue) ==> e.id != s.nextId
  {
  }

  lemma BindKeeps(s: State, c: Client, r: RegId)
    requires Inv(s) && c in s.bindings
    ensures Inv(Bound(s, c, r).0)
  {
    if Bound(s, c, r).1.Success? {
      var b := s.bindings[c := s.bindings[c] + [r]];
      var reg := s.live[r].(active := true, bornExpired := false);
      hide Held, OneHolder, Evs, Owned, Kept, Timed, Settled;
      OwnedBelow(s, r);
      BindMap(s.bindings, c, r);
      NothingAwaited(s, r);
      TimedHere(s.live, s.table, s.nextId, Evs(s.queue), r);
      OwnedUpdate(s.bindings, s.live, s.table, s.nextId, b, r, reg, s.nextId);
      KeptUpdate(s.bindings, s.live, s.table, Evs(s.queue), b, r, reg, Evs(s.queue));
      TimedUpdate(s.live, s.table, s.nextId, Evs(s.queue), r, reg, s.nextId, Evs(s.queue));
    }
  }

  lemma OwnedBelow(s: State, r: RegId)
    requires Inv(s)
    ensures OneHolder(s.bindings)
    ensures r in s.live ==> r < s.nextId
    ensures Held(s.bindings, r) <==> r in s.live && s.live[r].api && s.live[r].active
    ensures Held(s.bindings, r) ==> r in s.table || Added(r) in Evs(s.queue)
  {
    hide Held, OneHolder, Timed;
  }

  /** Releasing a registration from the client that holds it. */
  lemma ReleaseKeeps(s: State, c: Client, rest: seq<RegId>, r: RegId)
    requires Inv(s) && Holds(s.bindings, c, r)
    requires NoRepeats(rest) && forall x :: x in rest <==> x in s.bindings[c] && x != r
    ensures r in s.live && s.live[r].active
    ensures var t := Released(s.(bindings := s.bindings[c := rest]), r);
      Inv(t) && r in t.live && !t.live[r].active && (s.live[r].expired ==> Expired(r) in t.queue)
  {
    assert Held(s.bindings, r);
    hide Held, OneHolder, Evs, Timed, Owned, Kept, NoRepeats, Settled;
    OwnedBelow(s, r);
    ReleaseMap(s.bindings, c, rest, r);
    EvsAppend(s.queue, Expired(r));
    NothingAwaited(s, r);
    TimedHere(s.live, s.table, s.nextId, Evs(s.queue), r);
    var b := s.bindings[c := rest];
    var t := Released(s.(bindings := b), r);
    OwnedUpdate(s.bindings, s.live, s.table, s.nextId, b, r, t.live[r], s.nextId);
    KeptUpdate(s.bindings, s.live, s.table, Evs(s.queue), b, r, t.live[r], Evs(t.queue));
    TimedUpdate(s.live, s.table, s.nextId, Evs(s.queue), r, t.live[r], s.nextId, Evs(t.queue));
  }

  lemma {:induction false} WithoutHeld(rs: seq<RegId>, r: RegId)
    requires NoRepeats(rs)
    ensures NoRepeats(Without(rs, r)) && forall x :: x in Without(rs, r) <==> x in rs && x != r
  {
    if rs != [] {
      if rs[0] == r {
        assert forall x :: x in rs[1..] ==> x != r;
        assert forall i, j :: 0 <= i < j < |rs[1..]| ==> rs[1..][i] != rs[1..][j];
      } else {
        assert forall i, j :: 0 <= i < j < |rs[1..]| ==> rs[1..][i] != rs[1..][j];
        WithoutHeld(rs[1..], r);
        assert rs[0] !in Without(rs[1..], r);
      }
    }
  }

  /** Unbinding: the assertion that the registration is active cannot fail, and an
      expired registration leaves its event behind. */
  lemma UnbindKeeps(s: State, c: Client, r: RegId)
    requires Inv(s) && c in s.bindings
    ensures Inv(Unbound(s, c, r).0)
    ensures Unbound(s, c, r).1.Success? ==>
      && s.live[r].active && r in Unbound(s, c, r).0.live && !Unbound(s, c, r).0.live[r].active
      && (s.live[r].expired ==> Expired(r) in Unbound(s, c, r).0.queue)
  {
    if Unbound(s, c, r).1.Success? {
      assert Holds(s.bindings, c, r);
      WithoutHeld(s.bindings[c], r);
      ReleaseKeeps(s, c, Without(s.bindings[c], r), r);
    }
  }

  lemma ForceExpireKeeps(s: State, r: RegId)
    requires Inv(s) && r in s.live && s.live[r].api && s.live[r].active
    ensures Inv(Set(s, r, s.live[r].(expired := true, timer := false)))
  {
    hide Held, OneHolder, Evs, Timed, Owned, Kept, Settled;
    var reg := s.live[r].(expired := true, timer := false);
    OwnedBelow(s, r);
    NothingAwaited(s, r);
    TimedHere(s.live, s.table, s.nextId, Evs(s.queue), r);
    OwnedUpdate(s.bindings, s.live, s.table, s.nextId, s.bindings, r, reg, s.nextId);
    KeptUpdate(s.bindings, s.live, s.table, Evs(s.queue), s.bindings, r, reg, Evs(s.queue));
    TimedUpdate(s.live, s.table, s.nextId, Evs(s.queue), r, reg, s.nextId, Evs(s.queue));
  }

  lemma RemoveKeeps(s: State, r: RegId)
    requires Inv(s) && r in s.table && r in s.live && !s.live[r].active
    ensures Inv(PostAndWait(s, Removed(r)))
  {
    hide Held, OneHolder, Evs, Timed, Owned, Settled, PostAndWait;
    OwnedBelow(s, r);
    OnlyApiIdle(s, r);
    NothingAwaited(s, r);
    EvsAppend(s.queue, Removed(r));
    TimedHere(s.live, s.table, s.nextId, Evs(s.queue), r);
    TimedUpdate(s.live, s.table, s.nextId, Evs(s.queue), r, s.live[r], s.nextId, Evs(s.queue) + {Removed(r)});
    assert s.live[r := s.live[r]] == s.live;
    PostAndWaitWorks(s, Removed(r));
  }

  /** Unregistering: `force_expire` is only called on an active, unexpired
      registration whose timer is still pending. */
  lemma UnregisterKeeps(s: State, c: Client, r: RegId)
    requires Inv(s) && c in s.bindings
    ensures Inv(Unregistered(s, c, r).0)
    ensures r in s.table && r in s.bindings[c] ==> s.live[r].active && (s.live[r].timer || s.live[r].expired)
  {
    if r in s.bindings[c] {
      assert Holds(s.bindings, c, r) && Held(s.bindings, r);
    }
    hide Held, OneHolder, Evs, Timed, Owned, Kept, Settled, PostAndWait;
    OwnedBelow(s, r);
    if r in s.table && r in s.live {
      if s.live[r].active {
        if r in s.bindings[c] {
          TimedHere(s.live, s.table, s.nextId, Evs(s.queue), r);
          ForceExpireKeeps(s, r);
        }
      } else {
        RemoveKeeps(s, r);
      }
    }
  }

  /** The daemon's own registrations are always active. */
  lemma OnlyApiIdle(s: State, r: RegId)
    requires Inv(s) && r in s.live
    ensures s.live[r].api || s.live[r].active
  {
  }

  lemma NothingAwaited(s: State, r: RegId)
    requires Settled(s.queue)
    ensures Added(r) !in Evs(s.queue) && Removed(r) !in Evs(s.queue)
  {
  }

  lemma {:induction false} CloseKeeps(s: State, c: Client)
    requires Inv(s) && c in s.bindings
    ensures forall r :: r in s.bindings[c] ==> r in s.live
    ensures Inv(Closed(s, c)) && Closed(s, c).bindings.Keys == s.bindings.Keys - {c}
    decreases |s.bindings[c]|
  {
    hide Inv, Held, OneHolder, Released, NoRepeats;
    forall r | r in s.bindings[c]
      ensures r in s.live
    {
      HeldLives(s, c, r);
    }
    if s.bindings[c] == [] {
      ForgetKeeps(s, c);
    } else {
      var r, rest := s.bindings[c][0], s.bindings[c][1..];
      HeldLives(s, c, r);
      HeadNotInTail(s.bindings, c);
      ReleaseKeeps(s, c, rest, r);
      ReleaseAppends(s, c, rest, r);
      CloseKeeps(Released(s.(bindings := s.bindings[c := rest]), r), c);
    }
  }

  lemma HeldLives(s: State, c: Client, r: RegId)
    requires Inv(s) && Holds(s.bindings, c, r)
    ensures OneHolder(s.bindings) && r in s.live
  {
    assert Held(s.bindings, r);
  }

  lemma ForgetKeeps(s: State, c: Client)
    requires Inv(s) && c in s.bindings && s.bindings[c] == []
    ensures Inv(s.(bindings := s.bindings - {c}))
  {
    hide Held, OneHolder, Timed, Settled, Evs;
    OwnedBelow(s, 0);
    ForgetMap(s.bindings, c);
  }

  lemma HeadNotInTail(b: map<Client, seq<RegId>>, c: Client)
    requires OneHolder(b) && c in b && b[c] != []
    ensures var rest := b[c][1..]; NoRepeats(rest) && forall x :: x in rest <==> x in b[c] && x != b[c][0]
  {
    var rs := b[c];
    assert rs == [rs[0]] + rs[1..];
    assert forall i, j :: 0 <= i < j < |rs[1..]| ==> rs[1..][i] != rs[1..][j];
  }

  lemma FireKeeps(s: State, r: RegId)
    requires Inv(s) && r in s.live && s.live[r].timer
    ensures Inv(Fire(s, r))
  {
    hide Held, OneHolder, Evs, Timed;
    EvsAppend(s.queue, Expired(r));
    var t := Fire(s, r);
    OnlyApiTimers(s, r);
    NothingAwaited(s, r);
    TimedHere(s.live, s.table, s.nextId, Evs(s.queue), r);
    TimedUpdate(s.live, s.table, s.nextId, Evs(s.queue), r, t.live[r], s.nextId, Evs(t.queue));
  }

  lemma OnlyApiTimers(s: State, r: RegId)
    requires Inv(s) && r in s.live && s.live[r].timer
    ensures s.live[r].api
  {
  }

  // -------------------------------------------------------- whole runs

  datatype Step = Connect(c: Client) | Register(c: Client, passive: bool, expiration: nat)
                | Bind(c: Client, r: RegId) | Unbind(c: Client, r: RegId) | Unregister(c: Client, r: RegId)
                | Close(c: Client) | Timer(r: RegId) | Daemon

  predicate Enabled(s: State, step: Step) {
    match step
    case Connect(c) => c !in s.bindings
    case Timer(r) => r in s.live && s.live[r].timer
    case Daemon => s.queue != []
    case _ => step.c in s.bindings
  }

  function Apply(s: State, step: Step): State
    requires Enabled(s, step)
  {
    match step
    case Connect(c) => s.(bindings := s.bindings[c := []])
    case Register(c, passive, expiration) => Registered(s, c, passive, expiration)
    case Bind(c, r) => Bound(s, c, r).0
    case Unbind(c, r) => Unbound(s, c, r).0
    case Unregister(c, r) => Unregistered(s, c, r).0
    case Close(c) => Closed(s, c)
    case Timer(r) => Fire(s, r)
    case Daemon => Process(s)
  }

  ghost predicate Possible(s: State, steps: seq<Step>)
    decreases |steps|
  {
    steps == [] || (Enabled(s, steps[0]) && Possible(Apply(s, steps[0]), steps[1..]))
  }

  function After(s: State, steps: seq<Step>): State
    requires Possible(s, steps)
    decreases |steps|
  {
    if steps == [] then s else After(Apply(s, steps[0]), steps[1..])
  }

  /** No client yet; only the daemon's own registrations exist. */
  predicate Initial(s: State) {
    && s.bindings == map[] && s.queue == [] && !s.dead
    && s.table == s.live.Keys
    && (forall r :: r in s.live ==>
          (r < s.nextId && !s.live[r].api && s.live[r].active && !s.live[r].timer && !s.live[r].bornExpired))
  }

  lemma ConnectKeeps(s: State, c: Client)
    requires Inv(s) && c !in s.bindings
    ensures Inv(s.(bindings := s.bindings[c := []]))
  {
    ForgottenMap(s.bindings, c);
    hide Held, OneHolder;
  }

  lemma ForgottenMap(b: Bindings, c: Client)
    requires OneHolder(b) && c !in b
    ensures OneHolder(b[c := []]) && forall x :: Held(b[c := []], x) <==> Held(b, x)
  {
    var t := b[c := []];
    assert forall d, x :: Holds(t, d, x) <==> Holds(b, d, x);
    forall x | Held(b, x)
      ensures Held(t, x)
    {
      var d :| Holds(b, d, x);
      assert Holds(t, d, x);
    }
  }

  lemma ProcessKeeps(s: State)
    requires Inv(s) && s.queue != []
    ensures Inv(Process(s))
  {
    hide Working;
    ProcessWorks(s);
    ProcessQueue(s);
  }

  lemma StepKeeps(s: State, step: Step)
    requires Inv(s) && Enabled(s, step)
    ensures Inv(Apply(s, step))
  {
    hide Inv, Registered, Bound, Unbound, Unregistered, Closed, Fire, Process;
    match step
    case Connect(c) => ConnectKeeps(s, c);
    case Register(c, passive, expiration) => RegisterKeeps(s, c, passive, expiration);
    case Bind(c, r) => BindKeeps(s, c, r);
    case Unbind(c, r) => UnbindKeeps(s, c, r);
    case Unregister(c, r) => UnregisterKeeps(s, c, r);
    case Close(c) => CloseKeeps(s, c);
    case Timer(r) => FireKeeps(s, r);
    case Daemon => ProcessKeeps(s);
  }

  lemma {:induction false} RunKeeps(s: State, steps: seq<Step>)
    requires Inv(s) && Possible(s, steps)
    ensures Inv(After(s, steps))
    decreases |steps|
  {
    if steps != [] {
      hide Inv, Apply;
      StepKeeps(s, steps[0]);
      RunKeeps(Apply(s, steps[0]), steps[1..]);
    }
  }

  lemma InitialHolds(s: State)
    requires Initial(s)
    ensures Inv(s)
  {
  }

  // What the flag `bornExpired` says of the run so far.

  /** The registrations created passive with expiration 0 and not bound since, after
      one more step. */
  function BornAfter(s: State, step: Step, born: set<RegId>): set<RegId>
    requires Enabled(s, step)
  {
    match step
    case Register(_, passive, expiration) => if passive && expiration == 0 then born + {s.nextId} else born
    case Bind(c, r) => if Bound(s, c, r).1.Success? then born - {r} else born
    case _ => born
  }

  function BornExpired(s: State, steps: seq<Step>, born: set<RegId>): set<RegId>
    requires Possible(s, steps)
    decreases |steps|
  {
    if steps == [] then born
    else BornExpired(Apply(s, steps[0]), steps[1..], BornAfter(s, steps[0], born))
  }

  /** The flag stands at exactly the live registrations in `born`. */
  ghost predicate Flagged(s: State, born: set<RegId>) {
    && (forall r :: r in s.live ==> (s.live[r].bornExpired <==> r in born))
    && (forall r :: r in s.live || r in born ==> r < s.nextId)
  }

  /** From s to t no registration is created and no flag changes. */
  predicate FlagsKept(s: State, t: State) {
    t.nextId == s.nextId && forall r :: r in t.live ==> r in s.live && t.live[r].bornExpired == s.live[r].bornExpired
  }

  lemma ProcessFlags(s: State)
    requires s.queue != []
    ensures FlagsKept(s, Process(s))
  {
  }

  lemma {:induction false} DrainFlags(s: State, n: nat)
    ensures FlagsKept(s, Drain(s, n))
    decreases n
  {
    if n > 0 && s.queue != [] {
      ProcessFlags(s);
      hide Process;
      DrainFlags(Process(s), n - 1);
    }
  }

  lemma {:induction false} CloseFlags(s: State, c: Client)
    requires c in s.bindings
    ensures FlagsKept(s, Closed(s, c))
    decreases |s.bindings[c]|
  {
    if s.bindings[c] != [] {
      var r, rest := s.bindings[c][0], s.bindings[c][1..];
      var t := Released(s.(bindings := s.bindings[c := rest]), r);
      assert FlagsKept(s, t);
      hide Released;
      CloseFlags(t, c);
    }
  }

  lemma RegisterFlags(s: State, c: Client, passive: bool, expiration: nat, born: set<RegId>)
    requires c in s.bindings && Flagged(s, born)
    ensures Flagged(Registered(s, c, passive, expiration), BornAfter(s, Register(c, passive, expiration), born))
  {
    hide Drain, Process;
    var t := Enrolled(s, c, passive, expiration);
    DrainFlags(t.(queue := t.queue + [Added(s.nextId)]), |t.queue| + 1);
  }

  lemma UnregisterFlags(s: State, c: Client, r: RegId)
    requires c in s.bindings
    ensures FlagsKept(s, Unregistered(s, c, r).0)
  {
    hide Drain, Process;
    DrainFlags(s.(queue := s.queue + [Removed(r)]), |s.queue| + 1);
  }

  lemma UnbindFlags(s: State, c: Client, r: RegId)
    requires c in s.bindings
    ensures FlagsKept(s, Unbound(s, c, r).0)
  {
  }

  lemma BindFlags(s: State, c: Client, r: RegId, born: set<RegId>)
    requires c in s.bindings && Flagged(s, born)
    ensures Flagged(Bound(s, c, r).0, BornAfter(s, Bind(c, r), born))
  {
  }

  lemma StepFlags(s: State, step: Step, born: set<RegId>)
    requires Enabled(s, step) && Flagged(s, born)
    ensures Flagged(Apply(s, step), BornAfter(s, step, born))
  {
    hide Drain, Registered, Bound, Unbound, Unregistered, Closed, Process;
    match step
    case Register(c, passive, expiration) => RegisterFlags(s, c, passive, expiration, born);
    case Bind(c, r) => BindFlags(s, c, r, born);
    case Unregister(c, r) => UnregisterFlags(s, c, r);
    case Close(c) => CloseFlags(s, c);
    case Unbind(c, r) => UnbindFlags(s, c, r);
    case Daemon => ProcessFlags(s);
    case _ =>
  }

  lemma {:induction false} RunFlags(s: State, steps: seq<Step>, born: set<RegId>)
    requires Possible(s, steps) && Flagged(s, born)
    ensures Flagged(After(s, steps), BornExpired(s, steps, born))
    decreases |steps|
  {
    if steps != [] {
      hide Flagged, Apply, BornAfter;
      StepFlags(s, steps[0], born);
      RunFlags(Apply(s, steps[0]), steps[1..], BornAfter(s, steps[0], born));
    }
  }

  /** Of an expired registration that nobody holds the expiry event is missing
      exactly when it was born expired. */
  lemma ForgottenExactly(s: State, r: RegId)
    requires Inv(s) && r in s.table && r in s.live && Forgotten(s.live[r])
    ensures Expired(r) !in s.queue <==> s.live[r].bornExpired
  {
    hide Held, OneHolder, Owned;
    assert Expired(r) in s.queue <==> Expired(r) in Evs(s.queue);
  }

  /** After any run of any number of clients: an API registration is active exactly
      when it stands in some client's list, and then in no other and only once
      there; whatever is bound is in the table; and of an expired registration in
      the table that nobody holds, the expiry event is missing if and only if it was
      created passive with expiration 0 and not bound since. */
  lemma OwnershipLaw(s: State, steps: seq<Step>)
    requires Initial(s) && Possible(s, steps)
    ensures var t := After(s, steps);
      && (forall r :: r in t.live && t.live[r].api ==> (t.live[r].active <==> Held(t.bindings, r)))
      && (forall c, i, d, j ::
            (&& c in t.bindings && d in t.bindings && 0 <= i < |t.bindings[c]| && 0 <= j < |t.bindings[d]|
             && t.bindings[c][i] == t.bindings[d][j]) ==> c == d && i == j)
      && (forall r :: Held(t.bindings, r) ==> r in t.live && r in t.table)
      && (forall r :: r in t.table ==> r in t.live)
      && (forall r :: r in t.table && Forgotten(t.live[r]) ==>
            (Expired(r) !in t.queue <==> r in BornExpired(s, steps, {})))
  {
    InitialHolds(s);
    RunKeeps(s, steps);
    RunFlags(s, steps, {});
    var t := After(s, steps);
    hide After, Possible, Initial, BornExpired;
    forall r | r in t.table
      ensures r in t.live
      ensures Forgotten(t.live[r]) ==> (Expired(r) !in t.queue <==> r in BornExpired(s, steps, {}))
    {
      OwnedBelow(t, r);
      if Forgotten(t.live[r]) {
        ForgottenExactly(t, r);
      }
    }
    forall c, i, d, j | c in t.bindings && d in t.bindings && 0 <= i < |t.bindings[c]| && 0 <= j < |t.bindings[d]|
      && t.bindings[c][i] == t.bindings[d][j]
      ensures c == d && i == j
    {
      var r := t.bindings[c][i];
      assert Holds(t.bindings, c, r) && Holds(t.bindings, d, r);
    }
    assert Working(t) && Settled(t.queue);
    hide Held, OneHolder, Timed;
    forall r | Held(t.bindings, r)
      ensures r in t.live && r in t.table
    {
      OwnedBelow(t, r);
      NothingAwaited(t, r);
    }
  }

  // ------------------------------------------- when a deleted object is used

  /** One event at most for each registration, and each of a live one. */
  predicate Sound(s: State) {
    && !s.dead
    && (forall i, j :: 0 <= i < j < |s.queue| ==> s.queue[i].id != s.queue[j].id)
    && (forall e :: e in s.queue ==> e.id in s.live)
  }

  /** The steps that put a second event behind one that may delete the object:
      letting go of a registration while an expiry event of it is queued (it was
      bound in between), unregistering one then, and an expiration timer firing
      between the removal and the deletion. */
  predicate Risky(s: State, step: Step)
    requires Enabled(s, step)
  {
    match step
    case Unbind(c, r) => r in s.bindings[c] && Expired(r) in s.queue
    case Unregister(c, r) => r in s.table && r in s.live && !s.live[r].active && Expired(r) in s.queue
    case Close(c) => exists r :: r in s.bindings[c] && Expired(r) in s.queue
    case Timer(r) => Delete(r) in s.queue
    case _ => false
  }

  lemma ProcessSound(s: State)
    requires Sound(s) && s.queue != []
    ensures Sound(Process(s))
  {
    var t, rest := Process(s), s.queue[1..];
    assert forall k :: 0 <= k < |rest| ==> rest[k] == s.queue[k + 1] && rest[k].id != s.queue[0].id;
    assert t.queue == rest || t.queue == rest + [Delete(s.queue[0].id)];
  }

  lemma {:induction false} DrainSound(s: State, n: nat)
    requires Sound(s)
    ensures Sound(Drain(s, n))
    decreases n
  {
    if n > 0 && s.queue != [] {
      ProcessSound(s);
      hide Sound, Process;
      DrainSound(Process(s), n - 1);
    }
  }

  lemma PostSound(s: State, e: Event)
    requires Sound(s) && e.id in s.live && forall x :: x in s.queue ==> x.id != e.id
    ensures Sound(s.(queue := s.queue + [e]))
  {
  }

  /** r is deleted by its first event, and there is another one behind it. */
  predicate Doomed(s: State, r: RegId, i: nat, j: nat) {
    && i < j < |s.queue| && s.queue[j].id == r
    && (forall k :: 0 <= k < i ==> s.queue[k].id != r)
    && (s.queue[i] == Delete(r) || (s.queue[i] == Expired(r) && r in s.table && r in s.live && !s.live[r].active))
  }

  lemma {:induction false} DeadForGood(s: State, n: nat)
    requires s.dead
    ensures Drain(s, n).dead
    decreases n
  {
    if n > 0 && s.queue != [] {
      DeadForGood(Process(s), n - 1);
    }
  }

  lemma {:induction false} DeadEventKills(s: State, r: RegId, j: nat, n: nat)
    requires j < |s.queue| && s.queue[j].id == r && r !in s.live && j < n
    ensures Drain(s, n).dead
    decreases n
  {
    if j == 0 {
      DeadForGood(Process(s), n - 1);
    } else {
      assert Process(s).queue[j - 1] == s.queue[j];
      DeadEventKills(Process(s), r, j - 1, n - 1);
    }
  }

  lemma {:induction false} DoomedDies(s: State, r: RegId, i: nat, j: nat, n: nat)
    requires Doomed(s, r, i, j) && j < n
    ensures Drain(s, n).dead
    decreases n
  {
    var t := Process(s);
    assert t.queue[j - 1] == s.queue[j];
    if i == 0 {
      if t.dead {
        DeadForGood(t, n - 1);
      } else {
        DeadEventKills(t, r, j - 1, n - 1);
      }
    } else {
      assert t.queue[i - 1] == s.queue[i] && s.queue[0].id != r;
      assert forall k :: 0 <= k < i - 1 ==> t.queue[k] == s.queue[k + 1];
      DoomedDies(t, r, i - 1, j - 1, n - 1);
    }
  }

  /** The only event that can be queued for a registration in the table is its
      expiry. */
  lemma OnlyExpiry(s: State, r: RegId)
    requires Inv(s) && r in s.live && Expired(r) !in s.queue
    requires s.live[r].active || r in s.table
    ensures forall e :: e in s.queue ==> e.id != r
  {
    forall e | e in s.queue
      ensures e.id != r
    {
      assert e in Evs(s.queue);
    }
  }

  lemma ReleaseSound(s: State, c: Client, rest: seq<RegId>, r: RegId)
    requires Inv(s) && Sound(s) && Holds(s.bindings, c, r) && Expired(r) !in s.queue
    ensures Sound(Released(s.(bindings := s.bindings[c := rest]), r))
  {
    assert Held(s.bindings, r);
    OnlyExpiry(s, r);
  }

  /** Letting go of r with its expiry already queued. */
  lemma ReleaseDooms(s: State, c: Client, rest: seq<RegId>, r: RegId, i: nat)
    requires Inv(s) && Holds(s.bindings, c, r)
    requires i < |s.queue| && s.queue[i] == Expired(r) && forall k :: 0 <= k < i ==> s.queue[k].id != r
    ensures Doomed(Released(s.(bindings := s.bindings[c := rest]), r), r, i, |s.queue|)
  {
    assert Held(s.bindings, r) && Expired(r) in Evs(s.queue);
    OwnedBelow(s, r);
    NothingAwaited(s, r);
    TimedHere(s.live, s.table, s.nextId, Evs(s.queue), r);
    var t := Released(s.(bindings := s.bindings[c := rest]), r);
    assert t.queue == s.queue + [Expired(r)];
  }

  lemma {:induction false} CloseSound(s: State, c: Client)
    requires Inv(s) && Sound(s) && c in s.bindings && forall r :: r in s.bindings[c] ==> Expired(r) !in s.queue
    ensures Sound(Closed(s, c))
    decreases |s.bindings[c]|
  {
    if s.bindings[c] != [] {
      var r, rest := s.bindings[c][0], s.bindings[c][1..];
      var t := Released(s.(bindings := s.bindings[c := rest]), r);
      assert Holds(s.bindings, c, r);
      HeadNotInTail(s.bindings, c);
      hide Inv, Held, Holds, OneHolder, NoRepeats, Sound;
      ReleaseKeeps(s, c, rest, r);
      ReleaseSound(s, c, rest, r);
      ReleaseAppends(s, c, rest, r);
      CloseSound(t, c);
    }
  }

  /** What a release leaves alone. */
  lemma ReleaseAppends(s: State, c: Client, rest: seq<RegId>, r: RegId)
    ensures var t := Released(s.(bindings := s.bindings[c := rest]), r);
      && t.bindings == s.bindings[c := rest] && t.table == s.table && t.live.Keys == s.live.Keys
      && (t.queue == s.queue || t.queue == s.queue + [Expired(r)])
      && (forall x :: x in s.live && x != r ==> t.live[x] == s.live[x])
      && (r in s.live ==> !t.live[r].active)
  {
  }

  lemma {:induction false} CloseKeepsDoom(s: State, c: Client, r: RegId, i: nat, j: nat)
    requires c in s.bindings && Doomed(s, r, i, j)
    ensures Doomed(Closed(s, c), r, i, j)
    decreases |s.bindings[c]|
  {
    if s.bindings[c] != [] {
      var x, rest := s.bindings[c][0], s.bindings[c][1..];
      var t := Released(s.(bindings := s.bindings[c := rest]), x);
      ReleaseAppends(s, c, rest, x);
      hide Released;
      assert forall k :: 0 <= k < |s.queue| ==> t.queue[k] == s.queue[k];
      CloseKeepsDoom(t, c, r, i, j);
    }
  }

  lemma {:induction false} CloseDooms(s: State, c: Client, r: RegId, i: nat) returns (j: nat)
    requires Inv(s) && c in s.bindings && r in s.bindings[c]
    requires i < |s.queue| && s.queue[i] == Expired(r) && forall k :: 0 <= k < i ==> s.queue[k].id != r
    ensures Doomed(Closed(s, c), r, i, j)
    decreases |s.bindings[c]|
  {
    var x, rest := s.bindings[c][0], s.bindings[c][1..];
    var t := Released(s.(bindings := s.bindings[c := rest]), x);
    assert Holds(s.bindings, c, x);
    HeadNotInTail(s.bindings, c);
    hide Inv, Held, Holds, OneHolder, NoRepeats;
    if x == r {
      ReleaseDooms(s, c, rest, r, i);
      j := |s.queue|;
      ReleaseAppends(s, c, rest, x);
      hide Released, Doomed;
      CloseKeepsDoom(t, c, r, i, j);
    } else {
      ReleaseKeeps(s, c, rest, x);
      ReleaseAppends(s, c, rest, x);
      hide Released, Doomed;
      assert forall k :: 0 <= k < |s.queue| ==> t.queue[k] == s.queue[k];
      j := CloseDooms(t, c, r, i);
    }
  }

  lemma FirstEvent(s: State, e: Event) returns (i: nat)
    requires Sound(s) && e in s.queue
    ensures i < |s.queue| && s.queue[i] == e && forall k :: 0 <= k < i ==> s.queue[k].id != e.id
  {
    i :| i < |s.queue| && s.queue[i] == e;
  }

  lemma RegisterSound(s: State, c: Client, passive: bool, expiration: nat)
    requires Inv(s) && Sound(s) && c in s.bindings
    ensures Sound(Registered(s, c, passive, expiration))
  {
    var t := Enrolled(s, c, passive, expiration);
    NewIsUnknown(s);
    assert forall e :: e in s.queue ==> e in Evs(s.queue);
    hide Inv;
    PostSound(t, Added(s.nextId));
    hide Sound, Enrolled;
    DrainSound(t.(queue := t.queue + [Added(s.nextId)]), |s.queue| + 1);
  }

  lemma RemoveSound(s: State, r: RegId)
    requires Inv(s) && Sound(s) && r in s.table && r in s.live && !s.live[r].active && Expired(r) !in s.queue
    ensures Sound(PostAndWait(s, Removed(r)))
  {
    hide Inv;
    OnlyExpiry(s, r);
    PostSound(s, Removed(r));
    hide Sound;
    DrainSound(s.(queue := s.queue + [Removed(r)]), |s.queue| + 1);
  }

  lemma FireSound(s: State, r: RegId)
    requires Inv(s) && Sound(s) && r in s.live && s.live[r].timer && Delete(r) !in s.queue
    ensures Sound(Fire(s, r))
  {
    if !s.live[r].active {
      forall e | e in s.queue
        ensures e.id != r
      {
        assert e in Evs(s.queue);
      }
    }
  }

  lemma UnbindSound(s: State, c: Client, r: RegId)
    requires Inv(s) && Sound(s) && c in s.bindings && (r in s.bindings[c] ==> Expired(r) !in s.queue)
    ensures Sound(Unbound(s, c, r).0)
  {
    hide Inv;
    if Unbound(s, c, r).1.Success? {
      assert Holds(s.bindings, c, r);
      ReleaseSound(s, c, Without(s.bindings[c], r), r);
    }
  }

  lemma SafeSteps(s: State, step: Step)
    requires Inv(s) && Sound(s) && Enabled(s, step) && !Risky(s, step)
    ensures Sound(Apply(s, step))
  {
    hide Inv, PostAndWait, Registered, Unbound, Fire, Process, Closed;
    match step
    case Connect(c) =>
    case Register(c, passive, expiration) => RegisterSound(s, c, passive, expiration);
    case Bind(c, r) =>
    case Unbind(c, r) => UnbindSound(s, c, r);
    case Unregister(c, r) =>
      if r in s.table && r in s.live && !s.live[r].active {
        RemoveSound(s, r);
      }
    case Close(c) => CloseSound(s, c);
    case Timer(r) => FireSound(s, r);
    case Daemon => ProcessSound(s);
  }

  lemma RiskySteps(s: State, step: Step)
    requires Inv(s) && Sound(s) && Enabled(s, step) && Risky(s, step)
    ensures var t := Apply(s, step); Drain(t, |t.queue|).dead
  {
    var t := Apply(s, step);
    match step
    case Unbind(c, r) =>
      assert Holds(s.bindings, c, r) && Held(s.bindings, r);
      var i := FirstEvent(s, Expired(r));
      OwnedBelow(s, r);
      NothingAwaited(s, r);
      ReleaseDooms(s, c, Without(s.bindings[c], r), r, i);
      DoomedDies(t, r, i, |s.queue|, |t.queue|);
    case Unregister(c, r) =>
      var i := FirstEvent(s, Expired(r));
      var posted := s.(queue := s.queue + [Removed(r)]);
      assert Doomed(posted, r, i, |s.queue|);
      DoomedDies(posted, r, i, |s.queue|, |s.queue| + 1);
      DeadForGood(t, |t.queue|);
    case Close(c) =>
      var r :| r in s.bindings[c] && Expired(r) in s.queue;
      var i := FirstEvent(s, Expired(r));
      var j := CloseDooms(s, c, r, i);
      DoomedDies(t, r, i, j, |t.queue|);
    case Timer(r) =>
      assert Delete(r) in Evs(s.queue);
      var i := FirstEvent(s, Delete(r));
      assert Doomed(t, r, i, |s.queue|);
      DoomedDies(t, r, i, |s.queue|, |t.queue|);
  }

  /** Exactly when a deleted registration gets used: from a sound state, a step
      leaves a queue the daemon can work through without touching a deleted object
      if and only if it is not one of the risky ones. */
  lemma DeletedUseExactly(s: State, step: Step)
    requires Inv(s) && Sound(s) && Enabled(s, step)
    ensures var t := Apply(s, step); Drain(t, |t.queue|).dead <==> Risky(s, step)
    ensures Sound(Apply(s, step)) <==> !Risky(s, step)
  {
    var t := Apply(s, step);
    if Risky(s, step) {
      RiskySteps(s, step);
      hide Apply;
      if Sound(t) {
        DrainSound(t, |t.queue|);
      }
    } else {
      SafeSteps(s, step);
      DrainSound(t, |t.queue|);
    }
  }

  lemma InitialSound(s: State)
    requires Initial(s)
    ensures Sound(s)
  {
  }

  /** No step of the run is a risky one. */
  ghost predicate Careful(s: State, steps: seq<Step>)
    requires Possible(s, steps)
    decreases |steps|
  {
    steps == [] || (!Risky(s, steps[0]) && Careful(Apply(s, steps[0]), steps[1..]))
  }

  lemma {:induction false} CarefulSound(s: State, steps: seq<Step>)
    requires Inv(s) && Sound(s) && Possible(s, steps) && Careful(s, steps)
    ensures Sound(After(s, steps))
    decreases |steps|
  {
    if steps != [] {
      hide Inv, Sound, Apply, Risky;
      StepKeeps(s, steps[0]);
      SafeSteps(s, steps[0]);
      CarefulSound(Apply(s, steps[0]), steps[1..]);
    }
  }

  /** A run of any clients without a risky step never uses a deleted registration, and
      leaves a queue that does not; the first risky step of a run leaves one that
      does, once the daemon works through it. */
  lemma DeletedUseLaw(s: State, steps: seq<Step>, step: Step)
    requires Initial(s) && Possible(s, steps) && Careful(s, steps) && Enabled(After(s, steps), step)
    ensures var t := After(s, steps); !t.dead && !Drain(t, |t.queue|).dead
    ensures var t := Apply(After(s, steps), step); Drain(t, |t.queue|).dead <==> Risky(After(s, steps), step)
  {
    var t := After(s, steps);
    InitialHolds(s);
    InitialSound(s);
    RunKeeps(s, steps);
    CarefulSound(s, steps);
    hide Inv, Initial, Possible, After, Careful, Apply, Risky, Drain;
    DrainSound(t, |t.queue|);
    DeletedUseExactly(t, step);
  }

  lemma Then(s: State, step: Step, rest: seq<Step>)
    requires Enabled(s, step) && Possible(Apply(s, step), rest)
    ensures Possible(s, [step] + rest) && After(s, [step] + rest) == After(Apply(s, step), rest)
  {
    assert ([step] + rest)[1..] == rest;
  }

  const NOBODY := State(map[], {}, map[], [], 0, false)

  /** A client and a passive registration that expires later. */
  const ONE_IDLE := State(map[0 := Registration(true, false, false, true, false)], {0}, map[0 := []], [], 1, false)

  /** A passive registration with expiration 0 is expired from birth, and nothing is
      queued that would clean it up. */
  lemma BornExpiredIsForgotten()
    ensures var steps := [Connect(0), Register(0, true, 0)];
      && Initial(NOBODY) && Possible(NOBODY, steps)
      && var t := After(NOBODY, steps);
         0 in t.table && 0 in t.live && Forgotten(t.live[0]) && t.queue == []
  {
    var s1 := NOBODY.(bindings := map[0 := []]);
    var t := Enrolled(s1, 0, true, 0);
    var queued := t.(queue := [Added(0)]);
    var end := t.(table := {0});
    assert t.queue + [Added(0)] == queued.queue && queued.queue[1..] == [];
    assert Process(queued) == end;
    assert Drain(queued, 1) == Drain(end, 0);
    assert Apply(s1, Register(0, true, 0)) == end;
    assert Apply(NOBODY, Connect(0)) == s1;
    Then(s1, Register(0, true, 0), []);
    Then(NOBODY, Connect(0), [Register(0, true, 0)]);
    assert [Connect(0)] + [Register(0, true, 0)] == [Connect(0), Register(0, true, 0)];
    assert [Register(0, true, 0)] + [] == [Register(0, true, 0)];
  }

  lemma OneIdleReached()
    ensures Initial(NOBODY) && Possible(NOBODY, [Connect(0), Register(0, true, 5)])
    ensures After(NOBODY, [Connect(0), Register(0, true, 5)]) == ONE_IDLE
  {
    var s1 := NOBODY.(bindings := map[0 := []]);
    var t := Enrolled(s1, 0, true, 5);
    var queued := t.(queue := [Added(0)]);
    assert t.queue + [Added(0)] == queued.queue && queued.queue[1..] == [];
    assert Process(queued) == ONE_IDLE;
    assert Drain(queued, 1) == Drain(ONE_IDLE, 0);
    assert Apply(s1, Register(0, true, 5)) == ONE_IDLE;
    assert Apply(NOBODY, Connect(0)) == s1;
    Then(s1, Register(0, true, 5), []);
    Then(NOBODY, Connect(0), [Register(0, true, 5)]);
    assert [Connect(0)] + [Register(0, true, 5)] == [Connect(0), Register(0, true, 5)];
    assert [Register(0, true, 5)] + [] == [Register(0, true, 5)];
  }

  /** The timer fires between the removal of a registration and its deletion. */
  lemma LateTimerUsesDeleted()
    ensures var steps := [Unregister(0, 0), Timer(0), Daemon, Daemon];
      Possible(ONE_IDLE, steps) && After(ONE_IDLE, steps).dead
  {
    var s0 := ONE_IDLE;
    var posted := s0.(queue := [Removed(0)]);
    assert s0.queue + [Removed(0)] == posted.queue && posted.queue[1..] == [];
    var s1 := s0.(table := {}, queue := [Delete(0)]);
    assert Process(posted) == s1;
    assert Drain(posted, 1) == Drain(s1, 0) == s1;
    assert Apply(s0, Unregister(0, 0)) == s1;
    var s2 := s1.(live := map[0 := Registration(true, false, true, false, false)], queue := [Delete(0), Expired(0)]);
    assert s1.queue + [Expired(0)] == s2.queue;
    assert Apply(s1, Timer(0)) == s2;
    var s3 := s2.(live := map[], queue := [Expired(0)]);
    assert s2.queue[1..] == s3.queue;
    assert Apply(s2, Daemon) == s3;
    assert Apply(s3, Daemon).dead;
    Then(s3, Daemon, []);
    Then(s2, Daemon, [Daemon]);
    Then(s1, Timer(0), [Daemon, Daemon]);
    Then(s0, Unregister(0, 0), [Timer(0), Daemon, Daemon]);
  }

  /** A passive registration that has expired, with the event that says so. */
  const ONE_EXPIRED := ONE_IDLE.(live := map[0 := Registration(true, false, true, false, false)], queue := [Expired(0)])

  /** Bound and let go of again, it has a second such event. */
  const TWICE_EXPIRED := ONE_EXPIRED.(queue := [Expired(0), Expired(0)])

  lemma RebindQueuesTwo()
    ensures Enabled(ONE_EXPIRED, Bind(0, 0))
    ensures var t := Apply(ONE_EXPIRED, Bind(0, 0)); Enabled(t, Unbind(0, 0)) && Apply(t, Unbind(0, 0)) == TWICE_EXPIRED
  {
    var s1 := ONE_EXPIRED;
    var s2 := s1.(live := map[0 := Registration(true, true, true, false, false)], bindings := map[0 := [0]]);
    assert s1.bindings[0] + [0] == [0];
    assert Apply(s1, Bind(0, 0)) == s2;
    assert s2.queue + [Expired(0)] == TWICE_EXPIRED.queue && Without([0], 0) == [];
  }

  lemma TwoEventsUseDeleted()
    ensures Possible(TWICE_EXPIRED, [Daemon, Daemon]) && After(TWICE_EXPIRED, [Daemon, Daemon]).dead
  {
    var s3 := TWICE_EXPIRED;
    var s4 := s3.(live := map[], table := {}, queue := [Expired(0)]);
    assert s3.queue[1..] == s4.queue;
    assert Apply(s3, Daemon) == s4;
    assert Apply(s4, Daemon).dead;
    Then(s4, Daemon, []);
    Then(s3, Daemon, [Daemon]);
  }

  /** A registration bound and let go of again while its expiry is queued. */
  lemma RebindUsesDeleted()
    ensures var steps := [Timer(0), Bind(0, 0), Unbind(0, 0), Daemon, Daemon];
      Possible(ONE_IDLE, steps) && After(ONE_IDLE, steps).dead
  {
    var s0, s1 := ONE_IDLE, ONE_EXPIRED;
    assert s0.queue + [Expired(0)] == s1.queue;
    assert Enabled(s0, Timer(0)) && Apply(s0, Timer(0)) == s1;
    RebindQueuesTwo();
    TwoEventsUseDeleted();
    hide Apply, Enabled;
    var s2 := Apply(s1, Bind(0, 0));
    Then(s2, Unbind(0, 0), [Daemon, Daemon]);
    Then(s1, Bind(0, 0), [Unbind(0, 0), Daemon, Daemon]);
    Then(s0, Timer(0), [Bind(0, 0), Unbind(0, 0), Daemon, Daemon]);
  }
}
