/** The handlers as the API server runs them, on lists and flags updated in place,
    against the value functions of Registrations. */
module RegistrationServer {
  import opened Common
  import opened Registrations

  class Server {
    var live: map<RegId, Registration>
    var table: set<RegId>
    var bindings: map<Client, seq<RegId>>
    var queue: seq<Event>
    var nextId: RegId
    var dead: bool

    ghost function Value(): State
      reads this
    {
      State(live, table, bindings, queue, nextId, dead)
    }

    constructor ()
      ensures Initial(Value())
    {
      live, table, bindings, queue, nextId, dead := map[], {}, map[], [], 0, false;
    }

    /** One turn of the daemon's event loop. */
    method HandleEvent()
      requires queue != []
      modifies this
      ensures Value() == Process(old(Value()))
    {
      var event := queue[0];
      var r := event.id;
      queue := queue[1..];
      if r !in live {
        dead := true;
        return;
      }
      match event {
        case Added(_) =>
          table := table + {r};
        case Removed(_) =>
          if r in table {
            table := table - {r};
            queue := queue + [Delete(r)];
          }
        case Expired(_) =>
          if r in table {
            if live[r].active {
              live := live[r := live[r].(expired := true)];
            } else {
              table := table - {r};
              live := live - {r};
            }
          }
        case Delete(_) =>
          table := table - {r};
          live := live - {r};
      }
    }

    method Wait(event: Event)
      modifies this
      ensures Value() == PostAndWait(old(Value()), event)
    {
      ghost var s := Value();
      queue := queue + [event];
      var n: nat := |queue|;
      while n > 0 && queue != []
        invariant Drain(Value(), n) == PostAndWait(s, event)
        decreases n
      {
        HandleEvent();
        n := n - 1;
      }
    }

    method IsBound(c: Client, r: RegId) returns (bound: bool)
      requires c in bindings
      ensures bound <==> Holds(bindings, c, r)
    {
      var i := 0;
      while i < |bindings[c]|
        invariant i <= |bindings[c]| && r !in bindings[c][..i]
      {
        if bindings[c][i] == r {
          return true;
        }
        i := i + 1;
      }
      return false;
    }

    method HandleRegister(c: Client, passive: bool, expiration: nat) returns (r: RegId)
      requires Inv(Value()) && c in bindings
      modifies this
      ensures Value() == Registered(old(Value()), c, passive, expiration) && Inv(Value())
      ensures r == old(nextId) && r !in old(live)
    {
      ghost var s := Value();
      RegisterKeeps(s, c, passive, expiration);
      NewIsUnknown(s);
      hide Inv, PostAndWait, Drain, Process;
      r := nextId;
      nextId := nextId + 1;
      var reg := Registration(true, false, expiration == 0, expiration != 0, passive && expiration == 0);
      if !passive {
        bindings := bindings[c := bindings[c] + [r]];
        reg := reg.(active := true);
      }
      live := live[r := reg];
      assert Value() == Enrolled(s, c, passive, expiration);
      Wait(Added(r));
    }

    method HandleBind(c: Client, r: RegId) returns (code: Code)
      requires Inv(Value()) && c in bindings
      modifies this
      ensures (Value(), code) == Bound(old(Value()), c, r) && Inv(Value())
    {
      BindKeeps(Value(), c, r);
      if r !in table || r !in live {
        return NotFound;
      }
      if !live[r].api {
        return NotFound;
      }
      if live[r].active {
        return Busy;
      }
      bindings := bindings[c := bindings[c] + [r]];
      live := live[r := live[r].(active := true, bornExpired := false)];
      return Success;
    }

    /** The loop over the list: its entry for r, if there is one, is erased. */
    method EraseBinding(c: Client, r: RegId) returns (found: bool)
      requires c in bindings
      modifies this`bindings
      ensures found <==> r in old(bindings)[c]
      ensures bindings == if found then old(bindings)[c := Without(old(bindings)[c], r)] else old(bindings)
    {
      var i := 0;
      while i < |bindings[c]|
        invariant i <= |bindings[c]| && r !in bindings[c][..i] && bindings == old(bindings)
      {
        if bindings[c][i] == r {
          WithoutAt(bindings[c], r, i);
          bindings := bindings[c := bindings[c][..i] + bindings[c][i + 1..]];
          return true;
        }
        i := i + 1;
      }
      return false;
    }

    /** The inner assertion is the source's own. */
    method HandleUnbind(c: Client, r: RegId) returns (code: Code)
      requires Inv(Value()) && c in bindings
      modifies this
      ensures (Value(), code) == Unbound(old(Value()), c, r) && Inv(Value())
    {
      ghost var s := Value();
      UnbindKeeps(s, c, r);
      hide Inv, Without;
      if r !in table || r !in live {
        return NotFound;
      }
      if !live[r].api {
        return NotFound;
      }
      var found := EraseBinding(c, r);
      if !found {
        return NotFound;
      }
      assert live[r].active;
      live := live[r := live[r].(active := false)];
      if live[r].expired {
        queue := queue + [Expired(r)];
      }
      return Success;
    }

    /** `force_expire` with its two assertions: the registration is active, and its
        timer is either still pending or has expired it. */
    method ForceExpire(r: RegId)
      requires r in live && live[r].active && (live[r].timer || live[r].expired)
      modifies this`live
      ensures live == old(live)[r := old(live)[r].(expired := true, timer := false)]
    {
      assert live[r].active;
      var pending := live[r].timer;
      live := live[r := live[r].(timer := false)];
      if !pending {
        assert live[r].expired;
      }
      live := live[r := live[r].(expired := true)];
    }

    method HandleUnregister(c: Client, r: RegId) returns (code: Code)
      requires Inv(Value()) && c in bindings
      modifies this
      ensures (Value(), code) == Unregistered(old(Value()), c, r) && Inv(Value())
    {
      ghost var s := Value();
      UnregisterKeeps(s, c, r);
      hide Inv;
      if r !in table || r !in live {
        return NotFound;
      }
      var bound := IsBound(c, r);
      if bound && live[r].active {
        if live[r].expired {
          return Invalid;
        }
        ForceExpire(r);
        assert live[r].expired;
        return Success;
      }
      if live[r].active {
        return Busy;
      }
      Wait(Removed(r));
      return Success;
    }

    method CloseClient(c: Client)
      requires Inv(Value()) && c in bindings
      modifies this
      ensures Value() == Closed(old(Value()), c) && Inv(Value()) && bindings.Keys == old(bindings.Keys) - {c}
    {
      ghost var s := Value();
      CloseKeeps(s, c);
      hide Inv;
      while bindings[c] != []
        invariant c in bindings && Closed(Value(), c) == Closed(s, c)
        invariant forall r :: r in bindings[c] ==> r in live
        decreases |bindings[c]|
      {
        ghost var t := Value();
        var r := bindings[c][0];
        bindings := bindings[c := bindings[c][1..]];
        live := live[r := live[r].(active := false)];
        if live[r].expired {
          queue := queue + [Expired(r)];
        }
        assert Value() == Released(t.(bindings := t.bindings[c := t.bindings[c][1..]]), r);
      }
      bindings := bindings - {c};
    }

    /** The expiration timer of r fires. */
    method Timeout(r: RegId)
      requires Inv(Value()) && r in live && live[r].timer
      modifies this
      ensures Value() == Fire(old(Value()), r) && Inv(Value())
    {
      FireKeeps(Value(), r);
      live := live[r := live[r].(timer := false, expired := true)];
      if !live[r].active {
        queue := queue + [Expired(r)];
      }
    }
  }
}
