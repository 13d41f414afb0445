/** The client side of the DTN IPC: the calls of dtn_api.c on top of the mutually
    recursive transport of dtn_ipc.c, proved against a small client machine that
    only sees whole requests and reply codes. */
module DtnClient {
  import opened Common
  import opened DtnWire

  // ------------------------------------------------------------ the machine

  /** Packing the arguments behind whatever the encoder already holds; a failure
      leaves part of them there. */
  datatype Pack = Packed(args: seq<byte>) | PackFailed(part: seq<byte>)

  /** The API calls that matter to the exchange of messages.  Simple stands for
      every call that sends one request and reads one reply; Receive for dtn_recv
      and dtn_session_update. */
  datatype Call =
    | Simple(kind: byte, pack: Pack)
    | BeginPoll(pack: Pack)
    | CancelPoll
    | Receive(kind: byte, pack: Pack)

  /** Which reply the client is blocked on, if any. */
  datatype Pc = Idle | AwaitReply | AwaitPoll(kind: byte, pack: Pack) | AwaitCancel1 | AwaitCancel2

  datatype Client = Client(pc: Pc, inPoll: bool, err: int, enc: seq<byte>)

  /** A step of the client: its next state, the request it sends, and, once idle
      again, whether the call succeeds. */
  datatype Move = Move(client: Client, sends: Option<Request>, ok: bool)

  /** Pack the arguments and send; `next` is the state to wait in. */
  function PackAndSend(c: Client, kind: byte, pack: Pack, next: Pc): Move {
    match pack
    case PackFailed(part) => Move(c.(pc := Idle, enc := c.enc + part, err := DTN_EXDR), None, false)
    case Packed(args) => Move(c.(pc := next, enc := []), Some(Request(kind, c.enc + args)), true)
  }

  function Start(c: Client, call: Call): Move {
    match call
    case Simple(kind, pack) =>
      if c.inPoll then Move(c.(err := DTN_EINPOLL), None, false) else PackAndSend(c, kind, pack, AwaitReply)
    case BeginPoll(pack) =>
      if c.inPoll then Move(c.(err := DTN_EINPOLL), None, false)
      else PackAndSend(c.(inPoll := true), DTN_BEGIN_POLL, pack, Idle)
    case CancelPoll =>
      if !c.inPoll then Move(c.(err := DTN_EINVAL), None, false)
      else Move(c.(inPoll := false, enc := [], pc := AwaitCancel1), Some(Request(DTN_CANCEL_POLL, c.enc)), true)
    case Receive(kind, pack) =>
      if c.inPoll then Move(c.(inPoll := false, pc := AwaitPoll(kind, pack)), None, true)
      else PackAndSend(c, kind, pack, AwaitReply)
  }

  /** A reply arrives.  The calls that read a poll or cancel reply by hand expect
      it to have no body.  After a cancel the first code must be success: a
      failure, even the timeout the code asks about, ends the call with one reply
      still unread. */
  function OnReply(c: Client, reply: Reply): Move
    requires !c.pc.Idle?
  {
    var status := reply.status;
    match c.pc
    case AwaitPoll(kind, pack) =>
      if reply.body != [] then Move(c.(pc := Idle), None, false)
      else if status != DTN_SUCCESS then Move(c.(pc := Idle, err := status), None, false)
      else PackAndSend(c, kind, pack, AwaitReply)
    case AwaitCancel1 =>
      if status != DTN_SUCCESS then Move(c.(pc := Idle, err := -1), None, false)
      else Move(c.(pc := AwaitCancel2), None, true)
    case AwaitCancel2 =>
      if reply.body != [] then Move(c.(pc := Idle), None, false)
      else Move(c.(pc := Idle, err := status), None, status == DTN_SUCCESS)
    case AwaitReply =>
      if status != DTN_SUCCESS then Move(c.(pc := Idle, err := status), None, false)
      else Move(c.(pc := Idle), None, true)
  }

  /** A reply whose announced length wraps: `dtnipc_recv` returns it as a negative
      number, which ends the call without a code, except that a cancel keeps the -1. */
  function OnOverlong(c: Client): Move {
    Move(c.(pc := Idle, err := if c.pc.AwaitCancel1? then -1 else c.err), None, false)
  }

  /** Replies still to come before the call can end. */
  function Waits(pc: Pc): nat {
    match pc
    case Idle => 0
    case AwaitPoll(_, _) => 3
    case AwaitCancel1 => 2
    case _ => 1
  }

  /** How a call ends: with the machine idle, or with the connection lost while
      the machine was in `pc`, or never, going round in a body loop. */
  datatype Ending = Done(client: Client, io: Io, ok: bool) | Lost(io: Io, pc: Pc) | Stuck(io: Io)

  predicate Fits(c: Client, call: Call) {
    |c.enc| + (match call
               case CancelPoll => 0
               case _ => PackSize(call.pack)) < 0x1_0000_0000
  }

  function PackSize(pack: Pack): nat {
    match pack case Packed(args) => |args| case PackFailed(part) => |part|
  }

  /** Run the machine against a socket until it is idle. */
  function Drive(m: Move, io: Io): Ending
    requires m.sends.Some? ==> Word32(|m.sends.value.body|)
    requires m.client.pc.AwaitPoll? ==> |m.client.enc| + PackSize(m.client.pc.pack) < 0x1_0000_0000
    decreases Waits(m.client.pc)
  {
    var s := if m.sends.Some? then SendAll(io, RequestFrame(m.sends.value)) else (io, true);
    if !s.1 then Lost(s.0, m.client.pc)
    else if m.client.pc.Idle? then Done(m.client, s.0, m.ok)
    else
      var r := RecvReply(s.0);
      match r.1
      case Broke => Lost(r.0, m.client.pc)
      case Hangs => Stuck(r.0)
      case Overlong => Done(OnOverlong(m.client).client, r.0, false)
      case Received(reply) => Drive(OnReply(m.client, reply), r.0)
  }

  /** The last reply of a call. */
  lemma DriveLast(m: Move, io: Io)
    requires m.sends.None? && !m.client.pc.Idle? && !m.client.pc.AwaitPoll?
    ensures var r := RecvReply(io);
      match r.1
      case Broke => Drive(m, io) == Lost(r.0, m.client.pc)
      case Hangs => Drive(m, io) == Stuck(r.0)
      case Overlong => Drive(m, io) == Done(OnOverlong(m.client).client, r.0, false)
      case Received(reply) =>
        var n := OnReply(m.client, reply);
        n.client.pc.Idle? && n.sends.None? ==> Drive(m, io) == Done(n.client, r.0, n.ok)
  {
    hide RecvReply;
  }

  /** An exchange that ends a call. */
  lemma DriveExchange(m: Move, io: Io)
    requires m.sends.Some? && Word32(|m.sends.value.body|) && m.client.pc.AwaitReply?
    ensures match Exchange(io, m.sends.value)
      case (io1, Broke) => Drive(m, io) == Lost(io1, AwaitReply)
      case (io1, Hangs) => Drive(m, io) == Stuck(io1)
      case (io1, Overlong) => Drive(m, io) == Done(OnOverlong(m.client).client, io1, false)
      case (io1, Received(reply)) =>
        var n := OnReply(m.client, reply);
        Drive(m, io) == Done(n.client, io1, n.ok)
  {
    hide RecvReply, SendAll, RequestFrame;
  }

  /** One request and its reply. */
  function Exchange(io: Io, q: Request): (Io, Outcome<Reply>)
    requires Word32(|q.body|)
  {
    var s := SendAll(io, RequestFrame(q));
    if !s.1 then (s.0, Broke) else RecvReply(s.0)
  }

  lemma WriteLater(io: Io, data: seq<byte>)
    requires data != [] && (Write(io, data).1 > 0 || Write(io, data).0.errno == EINTR)
    ensures Later(io, Write(io, data).0)
  {
    var next := Write(io, data).0;
    assert io.script == [io.script[0]] + io.script[1..];
    assert Used(io, next) == [io.script[0]];
  }

  /** A request that is written whole has met signals at most. */
  lemma {:induction false} SendLater(io: Io, data: seq<byte>)
    requires SendAll(io, data).1
    ensures Later(io, SendAll(io, data).0)
    decreases |io.script|, |data|
  {
    if data == [] {
      assert Used(io, io) == [];
    } else {
      var w := Write(io, data);
      WriteLater(io, data);
      hide Write, Later;
      SendLater(w.0, if w.1 > 0 then data[w.1..] else data);
      LaterStill(io, w.0, SendAll(io, data).0);
    }
  }

  /** A cancel loses the connection before its first reply exactly when its exchange
      breaks; that is when -1 stands where DTN_ECOMM is meant, and the handle is
      closed. */
  lemma LostCancelExactly(c: Client, io: Io)
    requires c.pc.Idle? && c.inPoll && Word32(|c.enc|)
    ensures (exists io1 :: Drive(Start(c, CancelPoll), io) == Lost(io1, AwaitCancel1)) <==>
      Exchange(io, Request(DTN_CANCEL_POLL, c.enc)).1.Broke?
  {
    hide SendAll, RecvReply, RequestFrame;
    var m := Start(c, CancelPoll);
    var s := SendAll(io, RequestFrame(m.sends.value));
    if s.1 {
      var r := RecvReply(s.0);
      if r.1.Received? {
        var n := OnReply(m.client, r.1.value);
        assert Drive(m, io) == Drive(n, r.0);
        if n.client.pc.AwaitCancel2? {
          DriveLast(n, r.0);
        }
      }
    }
    assert Exchange(io, Request(DTN_CANCEL_POLL, c.enc)).1.Broke? ==>
      Drive(m, io) == Lost(Exchange(io, Request(DTN_CANCEL_POLL, c.enc)).0, AwaitCancel1);
  }

  /** A broken connection is an input. */
  lemma CancelCanBeLost(c: Client)
    requires c.pc.Idle? && c.inPoll && Word32(|c.enc|)
    ensures Exchange(Io([], Broken, 0, [], []), Request(DTN_CANCEL_POLL, c.enc)).1.Broke?
  {
    hide Be32;
  }

  /** An exchange never ends exactly when its request is written, the header of the
      reply comes whole, and the loop for the body goes round for ever: it comes to a
      closed peer or a full buffer, and there has been a signal since the exchange
      began, or `errno` said so before it. */
  lemma ExchangeHangsExactly(io: Io, q: Request)
    requires Word32(|q.body|)
    ensures var s := SendAll(io, RequestFrame(q)); var h := Read(s.0, 8);
      Exchange(io, q).1.Hangs? <==>
        s.1 && h.2 == 8 && forall n: nat :: Turns(h.0, FromBe32(h.1[4..8]), [], n).Going?
    ensures var s := SendAll(io, RequestFrame(q)); var h := Read(s.0, 8);
      Exchange(io, q).1.Hangs? <==>
        && s.1 && h.2 == 8
        && var len := FromBe32(h.1[4..8]);
           exists n: nat :: NoMore(Turns(h.0, len, [], n), len) && Signalled(io, Turns(h.0, len, [], n).io)
  {
    hide SendAll, Read, RecvBody, RequestFrame, Turns, NoMore, Signalled;
    var s := SendAll(io, RequestFrame(q));
    var h := Read(s.0, 8);
    if s.1 && h.2 == 8 {
      var len := FromBe32(h.1[4..8]);
      BodyHangsExactly(h.0, len, []);
      SendLater(io, RequestFrame(q));
      ReadLater(s.0, 8);
      LaterStill(io, s.0, h.0);
      forall n: nat | NoMore(Turns(h.0, len, [], n), len)
        ensures Signalled(io, Turns(h.0, len, [], n).io) == Signalled(h.0, Turns(h.0, len, [], n).io)
      {
        SameSignals(io, h.0, len, n);
      }
    }
  }

  lemma SameSignals(io: Io, later: Io, len: nat, n: nat)
    requires Later(io, later) && NoMore(Turns(later, len, [], n), len)
    ensures Signalled(io, Turns(later, len, [], n).io) == Signalled(later, Turns(later, len, [], n).io)
  {
    hide Turns;
    TurnsKeep(later, len, [], n);
    LaterStill(io, later, Turns(later, len, [], n).io);
  }

  /** It can: one signal while the body is awaited, and then the peer closes. */
  lemma ExchangeCanHang(kind: byte)
    ensures var io := Io([DtnWire.Moved(5), DtnWire.Moved(8), Interrupted], Closed, 0, Be32(DTN_SUCCESS) + Be32(1), []);
      Exchange(io, Request(kind, [])).1.Hangs?
  {
    var io := Io([DtnWire.Moved(5), DtnWire.Moved(8), Interrupted], Closed, 0, Be32(DTN_SUCCESS) + Be32(1), []);
    var msg := RequestFrame(Request(kind, []));
    Be32RoundTrip(1);
    hide Be32, FromBe32;
    var w := Write(io, msg);
    assert w.1 == 5 && msg[5..] == [] && w.0.script == [DtnWire.Moved(8), Interrupted];
    assert SendAll(io, msg) == SendAll(w.0, msg[5..]) == (w.0, true);
    var h := Read(w.0, 8);
    assert h.2 == 8 && h.1 == Be32(DTN_SUCCESS) + Be32(1) && h.1[4..8] == Be32(1);
    assert h.0.script == [Interrupted];
    var d := Read(h.0, BUFFER - 8);
    assert d.0.script == [] && d.0.errno == EINTR && d.2 == -1;
    assert RecvBody(h.0, 1, []) == RecvBody(d.0, 1, []) == (d.0, Hangs);
  }

  /** Without signals, past or present, every exchange ends. */
  lemma QuietExchangeEnds(io: Io, q: Request)
    requires Word32(|q.body|) && io.errno != EINTR && Interrupted !in io.script
    ensures !Exchange(io, q).1.Hangs?
  {
    hide Exchange, SendAll, Read, RequestFrame, Turns, NoMore;
    ExchangeHangsExactly(io, q);
  }

  // -------------------------------------------------------------- the library

  /** The socket and descriptor 0, after a call on descriptor d. */
  function Descriptors(d: nat, now: Io, io: Io, zero: Io): (Io, Io) {
    if d == 0 then (io, now) else (now, zero)
  }

  class Handle {
    var sock: nat        // socket descriptor, 0 once closed
    var err: int         // error code
    var inPoll: bool
    var enc: seq<byte>   // what xdr_encode holds
    var dec: seq<byte>   // the reply body xdr_decode reads
    var io: Io           // the socket
    var zero: Io         // what descriptor 0 stands for
    var hung: bool       // the call never returns
    ghost var closings: nat

    function ToClient(): Client
      reads this
    {
      Client(Idle, inPoll, err, enc)
    }

    /** Nothing asks whether the handle is open: a closed one talks to descriptor 0. */
    predicate Ready()
      reads this
    {
      Word32(|enc|) && !hung
    }

    function Fd(): Io
      reads this
    {
      if sock == 0 then zero else io
    }

    method SetFd(now: Io)
      modifies this`io, this`zero
      ensures (io, zero) == Descriptors(sock, now, old(io), old(zero)) && Fd() == now
    {
      if sock == 0 {
        zero := now;
      } else {
        io := now;
      }
    }

    /** `dtnipc_send`. */
    method Send(kind: byte) returns (ret: int)
      requires Ready()
      modifies this
      decreases 1
      ensures enc == [] && dec == old(dec) && inPoll == old(inPoll) && closings <= old(closings) + 1 && !hung
      ensures var s := SendAll(old(Fd()), RequestFrame(Request(kind, old(enc))));
        && (io, zero) == Descriptors(old(sock), s.0, old(io), old(zero))
        && (s.1 ==> ret == 0 && sock == old(sock) && err == old(err) && closings == old(closings))
        && (!s.1 ==> ret == -1 && sock == 0 && err == DTN_ECOMM)
    {
      hide Write, Be32;
      var msg := RequestFrame(Request(kind, enc));
      ghost var io0 := Fd();
      enc := [];
      while msg != []
        invariant SendAll(Fd(), msg) == SendAll(io0, RequestFrame(Request(kind, old(enc))))
        invariant (io, zero) == Descriptors(sock, Fd(), old(io), old(zero))
        invariant enc == [] && dec == old(dec) && inPoll == old(inPoll) && closings == old(closings)
        invariant sock == old(sock) && err == old(err) && !hung
        decreases |Fd().script|, |msg|
      {
        var w := Write(Fd(), msg);
        SetFd(w.0);
        if w.1 <= 0 {
          if w.0.errno == EINTR {
            continue;
          }
          err := DTN_ECOMM;
          var _ := Close();
          return -1;
        }
        msg := msg[w.1..];
      }
      return 0;
    }

    /** `dtnipc_recv`: the length of the reply, or -1. */
    method Recv() returns (ret: int, status: int)
      requires Ready()
      modifies this
      decreases 1
      ensures enc == old(enc) && inPoll == old(inPoll) && closings <= old(closings) + 1
      ensures var r := RecvReply(old(Fd()));
        && (io, zero) == Descriptors(old(sock), r.0, old(io), old(zero))
        && hung == r.1.Hangs?
        && (match r.1
            case Received(reply) => ret == |reply.body| && status == reply.status && dec == reply.body
                                    && sock == old(sock) && err == old(err) && closings == old(closings)
            case Broke => ret == -1 && sock == 0 && err == DTN_ECOMM && dec == old(dec)
            case Overlong => -8 <= ret < 0 && dec == old(dec)
                             && sock == old(sock) && err == old(err) && closings == old(closings)
            case Hangs => true)
    {
      hide Read, FromBe32;
      status := 0;
      var h := Read(Fd(), 8);
      SetFd(h.0);
      if h.2 != 8 {
        err := DTN_ECOMM;
        var _ := Close();
        return -1, status;
      }
      status := FromBe32(h.1[..4]);
      var len := FromBe32(h.1[4..8]);
      var got: seq<byte> := [];
      RecvBodyLength(h.0, len, []);
      while !Complete(len, got)
        invariant |got| <= BUFFER - 8
        invariant RecvBody(Fd(), len, got) == RecvBody(h.0, len, [])
        invariant (io, zero) == Descriptors(sock, Fd(), old(io), old(zero))
        invariant enc == old(enc) && dec == old(dec) && inPoll == old(inPoll) && closings == old(closings)
        invariant sock == old(sock) && err == old(err) && !hung
        decreases |Fd().script|
      {
        var d := Read(Fd(), BUFFER - 8 - |got|);
        var stands := d.0 == Fd();
        SetFd(d.0);
        if d.2 <= 0 {
          if d.0.errno == EINTR {
            if stands {
              hung := true;
              return -1, status;
            }
            continue;
          }
          err := DTN_ECOMM;
          var _ := Close();
          return -1, status;
        }
        got := got + d.1;
      }
      CompleteMeans(len, got);
      if |got| >= len {
        dec := got[..len];
        return len, status;
      }
      // as an int
      return len - 0x1_0000_0000, status;
    }

    /** `dtnipc_send_recv`. */
    method SendRecv(kind: byte) returns (ret: int)
      requires Ready()
      modifies this
      decreases 2
      ensures enc == [] && inPoll == old(inPoll) && closings <= old(closings) + 1
      ensures var r := Exchange(old(Fd()), Request(kind, old(enc)));
        && (io, zero) == Descriptors(old(sock), r.0, old(io), old(zero))
        && hung == r.1.Hangs?
        && (match r.1
            case Broke => ret == -1 && sock == 0 && err == DTN_ECOMM
            case Overlong => ret == -1 && sock == old(sock) && err == old(err) && closings == old(closings)
            case Hangs => true
            case Received(reply) =>
              && sock == old(sock) && dec == reply.body && closings == old(closings)
              && ret == (if reply.status == DTN_SUCCESS then 0 else -1)
              && err == if reply.status == DTN_SUCCESS then old(err) else reply.status)
    {
      hide SendAll, RecvReply, RequestFrame;
      ret := Send(kind);
      if ret < 0 {
        return -1;
      }
      var status;
      ret, status := Recv();
      if ret < 0 {
        return -1;
      }
      if status != DTN_SUCCESS {
        err := status;
        return -1;
      }
      return 0;
    }

    /** `dtnipc_close`.  Its own exchange may fail, which closes the handle once
        more on the way out; since that sets DTN_ECOMM first, it goes no deeper.  It
        returns unless that exchange hangs. */
    method Close() returns (ret: int)
      requires !hung && (err == DTN_ECOMM || Ready())
      modifies this
      decreases if err == DTN_ECOMM then 0 else 3
      ensures !hung ==> sock == 0
      ensures inPoll == old(inPoll)
      ensures closings <= old(closings) + (if old(err) == DTN_ECOMM then 1 else 2)
      ensures old(err) == DTN_ECOMM ==>
        && ret == -1 && err == DTN_ECOMM && !hung
        && io == old(io) && zero == old(zero) && enc == old(enc) && dec == old(dec)
      ensures old(err) != DTN_ECOMM ==>
        var r := Exchange(old(Fd()), Request(DTN_CLOSE, old(enc)));
        && (io, zero) == Descriptors(old(sock), r.0, old(io), old(zero))
        && hung == r.1.Hangs?
        && (match r.1
            case Broke => ret == -1 && err == DTN_ECOMM
            case Overlong => ret == -1 && err == old(err)
            case Hangs => true
            case Received(reply) => ret == 0 <==> reply.status == DTN_SUCCESS)
    {
      hide Exchange;
      if err != DTN_ECOMM {
        ret := SendRecv(DTN_CLOSE);
        if hung {
          return -1;
        }
      } else {
        ret := -1;
      }
      sock := 0;
      closings := closings + 1;
    }

    /** The outcome of a call on descriptor d, in terms of the machine.  A lost
        connection leaves the handle closed; DTN_ECOMM says so, except that a cancel
        whose first exchange is lost overwrites it with -1. */
    ghost predicate Ended(e: Ending, ret: int, d: nat, io0: Io, zero0: Io)
      reads this
    {
      && (io, zero) == Descriptors(d, e.io, io0, zero0)
      && hung == e.Stuck?
      && match e
         case Done(c, _, ok) => c == ToClient() && sock == d && (if ok then ret >= 0 else ret == -1)
         case Lost(_, pc) => ret == -1 && sock == 0 && err == if pc.AwaitCancel1? then -1 else DTN_ECOMM
         case Stuck(_) => true
    }

    /** `dtn_bind`, `dtn_unbind`, `dtn_cancel`, `dtn_send`, and the calls that write
        out the same exchange by hand: `dtn_register`, `dtn_unregister`,
        `dtn_find_registration`, `dtn_build_local_eid`. */
    method DtnSimple(kind: byte, pack: Pack) returns (ret: int)
      requires Ready() && Fits(ToClient(), Simple(kind, pack))
      modifies this
      ensures Ended(Drive(Start(old(ToClient()), Simple(kind, pack)), old(Fd())), ret, old(sock), old(io), old(zero))
    {
      hide SendAll, RecvReply, RequestFrame;
      if inPoll {
        err := DTN_EINPOLL;
        return -1;
      }
      match pack {
        case PackFailed(part) =>
          enc := enc + part;
          err := DTN_EXDR;
          return -1;
        case Packed(args) =>
          DriveExchange(PackAndSend(ToClient(), kind, pack, AwaitReply), Fd());
          enc := enc + args;
      }
      ret := SendRecv(kind);
      if ret < 0 {
        return -1;
      }
      return 0;
    }

    /** `dtn_begin_poll`: the reply is left to be read by a later call. */
    method DtnBeginPoll(pack: Pack) returns (ret: int)
      requires Ready() && Fits(ToClient(), BeginPoll(pack))
      modifies this
      ensures Ended(Drive(Start(old(ToClient()), BeginPoll(pack)), old(Fd())), ret, old(sock), old(io), old(zero))
    {
      hide SendAll, RecvReply, RequestFrame;
      if inPoll {
        err := DTN_EINPOLL;
        return -1;
      }
      inPoll := true;
      match pack {
        case PackFailed(part) =>
          enc := enc + part;
          err := DTN_EXDR;
          return -1;
        case Packed(args) =>
          enc := enc + args;
      }
      ret := Send(DTN_BEGIN_POLL);
      if ret < 0 {
        return -1;
      }
      return sock;
    }

    /** `dtn_cancel_poll`: one reply is for the poll, the other for the cancel. */
    method DtnCancelPoll() returns (ret: int)
      requires Ready() && Fits(ToClient(), CancelPoll)
      modifies this
      ensures Ended(Drive(Start(old(ToClient()), CancelPoll), old(Fd())), ret, old(sock), old(io), old(zero))
    {
      hide SendAll, RecvReply, RequestFrame;
      if !inPoll {
        err := DTN_EINVAL;
        return -1;
      }
      ghost var m, io0 := Start(ToClient(), CancelPoll), Fd();
      inPoll := false;
      var pollStatus := SendRecv(DTN_CANCEL_POLL);
      if hung {
        return -1;
      }
      if pollStatus != DTN_SUCCESS && pollStatus != DTN_ETIMEOUT {
        err := pollStatus;
        return -1;
      }
      ghost var e := Drive(Move(Client(AwaitCancel2, false, err, enc), None, true), Fd());
      assert Drive(m, io0) == e;
      DriveLast(Move(Client(AwaitCancel2, false, err, enc), None, true), Fd());
      var cancelStatus;
      ret, cancelStatus := Recv();
      if hung || ret != 0 {
        return -1;
      }
      err := cancelStatus;
      if cancelStatus != DTN_SUCCESS {
        return -1;
      }
      return 0;
    }

    /** `dtn_recv` and `dtn_session_update`: take the outstanding poll reply first. */
    method DtnReceive(kind: byte, pack: Pack) returns (ret: int)
      requires Ready() && Fits(ToClient(), Receive(kind, pack))
      modifies this
      ensures Ended(Drive(Start(old(ToClient()), Receive(kind, pack)), old(Fd())), ret, old(sock), old(io), old(zero))
    {
      hide SendAll, RecvReply, RequestFrame;
      ghost var m, io0 := Start(ToClient(), Receive(kind, pack)), Fd();
      if inPoll {
        inPoll := false;
        var pollStatus;
        ret, pollStatus := Recv();
        if hung || ret != 0 {
          return -1;
        }
        if pollStatus != DTN_SUCCESS {
          err := pollStatus;
          return -1;
        }
      }
      ghost var e := Drive(PackAndSend(ToClient(), kind, pack, AwaitReply), Fd());
      assert Drive(m, io0) == e;
      match pack {
        case PackFailed(part) =>
          enc := enc + part;
          err := DTN_EXDR;
          return -1;
        case Packed(args) =>
          DriveExchange(PackAndSend(ToClient(), kind, pack, AwaitReply), Fd());
          enc := enc + args;
      }
      ret := SendRecv(kind);
      if ret < 0 {
        return -1;
      }
      return 0;
    }
  }
}
