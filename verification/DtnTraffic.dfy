/** What the calls of the client library put on the wire and how they end, said of
    the socket alone; and when a message gets through it. */
module DtnTraffic {
  import opened Common
  import opened DtnWire
  import opened DtnClient

  // -------------------------------------------------------- the calls, one by one

  /** A request is written and its reply read.  `lost` is where a lost connection
      finds the call, and `replied` says how it goes on. */
  ghost predicate Asks(io: Io, q: Request, lost: Pc, c: Client, e: Ending, replied: (Reply, Io) -> bool)
    requires Word32(|q.body|)
  {
    var s := SendAll(io, RequestFrame(q));
    if !s.1 then e == Lost(s.0, lost) && PartWritten(io.outbox, RequestFrame(q), s.0.outbox)
    else s.0.outbox == io.outbox + RequestFrame(q) && Hears(s.0, lost, c, e, replied)
  }

  /** A reply is read, without anything being written. */
  ghost predicate Hears(io: Io, lost: Pc, c: Client, e: Ending, replied: (Reply, Io) -> bool) {
    var r := RecvReply(io);
    && r.0.outbox == io.outbox
    && match r.1
       case Broke => e == Lost(r.0, lost)
       case Hangs => e == Stuck(r.0)
       case Overlong => e == Done(c, r.0, false)
       case Received(reply) => replied(reply, r.0)
  }

  /** One exchange, whose status is kept as the error code when it is a failure. */
  ghost predicate OneExchange(io: Io, kind: byte, body: seq<byte>, err: int, e: Ending)
    requires Word32(|body|)
  {
    Asks(io, Request(kind, body), AwaitReply, Client(Idle, false, err, []), e, (reply: Reply, io1: Io) =>
      e == if reply.status == 0 then Done(Client(Idle, false, err, []), io1, true)
           else Done(Client(Idle, false, reply.status, []), io1, false))
  }

  lemma RecvKeepsOutbox(io: Io)
    ensures RecvReply(io).0.outbox == io.outbox
  {
    hide Read, FromBe32;
    var h := Read(io, 8);
    if h.2 == 8 {
      RecvBodyTakes(h.0, FromBe32(h.1[4..8]), []);
    }
  }

  /** A call with one request and one reply: nothing is written in a poll or when the
      arguments do not pack, and otherwise the request with the call's own code, the
      arguments behind what the encoder held. */
  lemma SimpleTraffic(c: Client, kind: byte, pack: Pack, io: Io)
    requires c.pc.Idle? && Fits(c, Simple(kind, pack))
    ensures var e := Drive(Start(c, Simple(kind, pack)), io);
      if c.inPoll then e == Done(c.(err := DTN_EINPOLL), io, false)
      else if pack.PackFailed? then e == Done(Client(Idle, false, DTN_EXDR, c.enc + pack.part), io, false)
      else OneExchange(io, kind, c.enc + pack.args, c.err, e)
  {
    hide SendAll, RecvReply, RequestFrame, PartWritten;
    if !c.inPoll && pack.Packed? {
      ExchangeTraffic(Client(AwaitReply, false, c.err, []), kind, c.enc + pack.args, io);
    }
  }

  lemma ExchangeTraffic(c: Client, kind: byte, body: seq<byte>, io: Io)
    requires c == Client(AwaitReply, false, c.err, []) && Word32(|body|)
    ensures OneExchange(io, kind, body, c.err, Drive(Move(c, Some(Request(kind, body)), true), io))
  {
    hide SendAll, RecvReply, RequestFrame, PartWritten;
    var q := Request(kind, body);
    SendAllWrites(io, RequestFrame(q));
    RecvKeepsOutbox(SendAll(io, RequestFrame(q)).0);
    DriveExchange(Move(c, Some(q), true), io);
  }

  /** Beginning a poll writes its request and waits for nothing; the flag is up even
      when nothing could be packed. */
  lemma BeginTraffic(c: Client, pack: Pack, io: Io)
    requires c.pc.Idle? && Fits(c, BeginPoll(pack))
    ensures var e := Drive(Start(c, BeginPoll(pack)), io);
      if c.inPoll then e == Done(c.(err := DTN_EINPOLL), io, false)
      else if pack.PackFailed? then e == Done(Client(Idle, true, DTN_EXDR, c.enc + pack.part), io, false)
      else
          var frame := RequestFrame(Request(DTN_BEGIN_POLL, c.enc + pack.args));
          var s := SendAll(io, frame);
          if s.1 then e == Done(Client(Idle, true, c.err, []), s.0, true) && s.0.outbox == io.outbox + frame
          else e == Lost(s.0, Idle) && PartWritten(io.outbox, frame, s.0.outbox)
  {
    hide SendAll, RecvReply, RequestFrame, PartWritten;
    if pack.Packed? {
      SendAllWrites(io, RequestFrame(Request(DTN_BEGIN_POLL, c.enc + pack.args)));
    }
  }

  /** How the second reply to a cancel ends the call: its status is the error code,
      success included, unless it has a body. */
  ghost predicate SecondReply(io: Io, err: int, e: Ending) {
    Hears(io, AwaitCancel2, Client(Idle, false, err, []), e, (second: Reply, io2: Io) =>
      e == if second.body != [] then Done(Client(Idle, false, err, []), io2, false)
           else Done(Client(Idle, false, second.status, []), io2, second.status == 0))
  }

  /** A cancel writes its request with whatever the encoder held, and reads two
      replies; a failure as the first one is reported as -1 and ends it. */
  lemma CancelTraffic(c: Client, io: Io)
    requires c.pc.Idle? && Fits(c, CancelPoll)
    ensures var e := Drive(Start(c, CancelPoll), io);
      if !c.inPoll then e == Done(c.(err := DTN_EINVAL), io, false)
      else Asks(io, Request(DTN_CANCEL_POLL, c.enc), AwaitCancel1, Client(Idle, false, -1, []), e,
                (first: Reply, io1: Io) =>
                  if first.status != 0 then e == Done(Client(Idle, false, -1, []), io1, false)
                  else SecondReply(io1, c.err, e))
  {
    hide SendAll, RecvReply, RequestFrame, PartWritten;
    if c.inPoll {
      var q := Request(DTN_CANCEL_POLL, c.enc);
      var s := SendAll(io, RequestFrame(q));
      SendAllWrites(io, RequestFrame(q));
      RecvKeepsOutbox(s.0);
      var r := RecvReply(s.0);
      if s.1 && r.1.Received? && r.1.value.status == 0 {
        var m := Move(Client(AwaitCancel2, false, c.err, []), None, true);
        assert Drive(Start(c, CancelPoll), io) == Drive(m, r.0);
        SecondTraffic(c.err, r.0);
      }
    }
  }

  lemma SecondTraffic(err: int, io: Io)
    ensures SecondReply(io, err, Drive(Move(Client(AwaitCancel2, false, err, []), None, true), io))
  {
    hide RecvReply;
    RecvKeepsOutbox(io);
    DriveLast(Move(Client(AwaitCancel2, false, err, []), None, true), io);
  }

  /** A receive in a poll writes nothing before the poll's reply was success without a
      body; then, or out of a poll at once, it is an exchange with its own code. */
  lemma ReceiveTraffic(c: Client, kind: byte, pack: Pack, io: Io)
    requires c.pc.Idle? && Fits(c, Receive(kind, pack))
    ensures var e := Drive(Start(c, Receive(kind, pack)), io);
      if !c.inPoll then FreeReceive(c, kind, pack, io, e)
      else Hears(io, AwaitPoll(kind, pack), c.(inPoll := false), e, (poll: Reply, io1: Io) =>
        if poll.body != [] then e == Done(c.(inPoll := false), io1, false)
        else if poll.status != 0 then e == Done(c.(inPoll := false, err := poll.status), io1, false)
        else FreeReceive(c, kind, pack, io1, e))
  {
    hide SendAll, RecvReply, RequestFrame, PartWritten, OneExchange;
    if c.inPoll {
      RecvKeepsOutbox(io);
      var r := RecvReply(io);
      if r.1.Received? && r.1.value == Reply(0, []) {
        var m := PackAndSend(c.(inPoll := false), kind, pack, AwaitReply);
        assert Drive(Start(c, Receive(kind, pack)), io) == Drive(m, r.0);
        FreeTraffic(c.(inPoll := false), kind, pack, r.0);
      }
    } else {
      FreeTraffic(c, kind, pack, io);
    }
  }

  ghost predicate FreeReceive(c: Client, kind: byte, pack: Pack, io: Io, e: Ending)
    requires Fits(c, Receive(kind, pack))
  {
    if pack.PackFailed? then e == Done(Client(Idle, false, DTN_EXDR, c.enc + pack.part), io, false)
    else OneExchange(io, kind, c.enc + pack.args, c.err, e)
  }

  lemma FreeTraffic(c: Client, kind: byte, pack: Pack, io: Io)
    requires Fits(c, Receive(kind, pack)) && !c.inPoll
    ensures FreeReceive(c, kind, pack, io, Drive(PackAndSend(c, kind, pack, AwaitReply), io))
  {
    hide SendAll, RecvReply, RequestFrame, OneExchange;
    if pack.Packed? {
      ExchangeTraffic(Client(AwaitReply, false, c.err, []), kind, c.enc + pack.args, io);
    }
  }

  // ------------------------------------------------------------- what is written

  function Code(call: Call): byte {
    match call
    case Simple(kind, _) => kind
    case BeginPoll(_) => DTN_BEGIN_POLL
    case CancelPoll => DTN_CANCEL_POLL
    case Receive(kind, _) => kind
  }

  /** The one request a call is there to send, if its arguments pack. */
  function OwnRequest(c: Client, call: Call): Option<Request> {
    match call
    case CancelPoll => Some(Request(DTN_CANCEL_POLL, c.enc))
    case _ =>
      match call.pack
      case Packed(args) => Some(Request(Code(call), c.enc + args))
      case PackFailed(_) => None
  }

  function SocketAfter(e: Ending): Io {
    match e
    case Done(_, io, _) => io
    case Lost(io, _) => io
    case Stuck(io) => io
  }

  /** Own request, beginning or nothing; whole after a success. */
  ghost predicate Wrote(io: Io, own: Option<Request>, e: Ending)
    requires own.Some? ==> Word32(|own.value.body|)
  {
    var out := SocketAfter(e).outbox;
    && (out == io.outbox || (own.Some? && (out == io.outbox + RequestFrame(own.value) ||
                                           PartWritten(io.outbox, RequestFrame(own.value), out))))
    && (e.Done? && e.ok ==> own.Some? && out == io.outbox + RequestFrame(own.value))
  }

  lemma FreeWrote(c: Client, kind: byte, pack: Pack, io: Io, e: Ending)
    requires Fits(c, Receive(kind, pack)) && FreeReceive(c, kind, pack, io, e)
    ensures Wrote(io, OwnRequest(c, Receive(kind, pack)), e)
  {
    hide SendAll, RecvReply, RequestFrame, PartWritten;
  }

  lemma CancelWrote(c: Client, io: Io, e: Ending)
    requires Word32(|c.enc|)
    requires Asks(io, Request(DTN_CANCEL_POLL, c.enc), AwaitCancel1, Client(Idle, false, -1, []), e,
                  (first: Reply, io1: Io) =>
                    if first.status != 0 then e == Done(Client(Idle, false, -1, []), io1, false)
                    else SecondReply(io1, c.err, e))
    ensures Wrote(io, Some(Request(DTN_CANCEL_POLL, c.enc)), e)
  {
    hide SendAll, RecvReply, RequestFrame, PartWritten;
    var s := SendAll(io, RequestFrame(Request(DTN_CANCEL_POLL, c.enc)));
    if s.1 {
      var r := RecvReply(s.0);
      if r.1.Received? && r.1.value.status == 0 {
        assert SecondReply(r.0, c.err, e);
      }
    }
  }

  /** Whatever a call does, it writes its own request or a beginning of it and nothing
      else; a call that succeeds has written it whole. */
  lemma OwnRequestOnly(c: Client, call: Call, io: Io)
    requires c.pc.Idle? && Fits(c, call)
    ensures Wrote(io, OwnRequest(c, call), Drive(Start(c, call), io))
  {
    hide SendAll, RecvReply, RequestFrame, PartWritten, Drive;
    match call
    case Simple(kind, pack) => SimpleTraffic(c, kind, pack, io);
    case BeginPoll(pack) => BeginTraffic(c, pack, io);
    case CancelPoll =>
      CancelTraffic(c, io);
      if c.inPoll {
        CancelWrote(c, io, Drive(Start(c, CancelPoll), io));
      }
    case Receive(kind, pack) =>
      var e := Drive(Start(c, call), io);
      ReceiveTraffic(c, kind, pack, io);
      if !c.inPoll {
        FreeWrote(c, kind, pack, io, e);
      } else {
        var r := RecvReply(io);
        if r.1.Received? && r.1.value.body == [] && r.1.value.status == 0 {
          FreeWrote(c, kind, pack, r.0, e);
        }
      }
  }

  // -------------------------------------------------- when a message gets through

  /** `errno` is at EINTR when outcome k is met. */
  predicate Retries(io: Io, k: nat)
    requires k <= |io.script|
  {
    io.errno == EINTR || Interrupted in io.script[..k]
  }

  /** Outcome k ends a loop: a failure, an end of file that is not taken for a signal,
      or there is none. */
  predicate StopsAt(io: Io, k: nat)
    requires k <= |io.script|
  {
    k == |io.script| || io.script[k].Failed? || (io.script[k].Eof? && !Retries(io, k))
  }

  predicate FirstStop(io: Io, k: nat) {
    k <= |io.script| && StopsAt(io, k) && forall j :: 0 <= j < k ==> !StopsAt(io, j)
  }

  /** What the outcomes would move, given enough to move. */
  function Offered(script: seq<Sys>): nat {
    if script == [] then 0
    else (if script[0].Moved? then if script[0].n == 0 then 1 else script[0].n else 0) + Offered(script[1..])
  }

  /** One outcome later. */
  lemma StopMoves(io: Io, k: nat, later: Io)
    requires FirstStop(io, k) && k > 0 && later.script == io.script[1..]
    requires later.errno == if io.script[0].Interrupted? then EINTR else io.errno
    ensures FirstStop(later, k - 1)
    ensures Offered(io.script[..k]) ==
      (if io.script[0].Moved? then if io.script[0].n == 0 then 1 else io.script[0].n else 0) +
      Offered(later.script[..k - 1])
  {
    forall j: nat | j < |io.script|
      ensures Retries(later, j) == Retries(io, j + 1)
    {
      assert io.script[..j + 1] == [io.script[0]] + later.script[..j];
    }
    assert forall j :: 0 <= j < |io.script| ==> StopsAt(later, j) == StopsAt(io, j + 1);
    assert io.script[..k][1..] == later.script[..k - 1];
    assert !StopsAt(io, 0);
  }

  /** A message is written whole exactly when the outcomes in front of the first stop
      offer to take as much. */
  lemma {:induction false} SentExactly(io: Io, data: seq<byte>, k: nat)
    requires FirstStop(io, k)
    ensures SendAll(io, data).1 <==> |data| <= Offered(io.script[..k])
    decreases |io.script|
  {
    if data != [] {
      var w := Write(io, data);
      if k == 0 {
        assert io.script[..0] == [] && w.1 <= 0 && w.0.errno != EINTR;
      } else {
        assert !StopsAt(io, 0);
        StopMoves(io, k, w.0);
        SentExactly(w.0, if w.1 > 0 then data[w.1..] else data, k - 1);
      }
    }
  }

  /** So is a body read, when it fits the buffer and has been sent. */
  lemma {:induction false} BodyExactly(io: Io, len: nat, got: seq<byte>, k: nat)
    requires FirstStop(io, k) && |got| <= BUFFER - 8 && len < 0x1_0000_0000 - 8
    ensures RecvBody(io, len, got).1.Received? <==>
      len <= |got| || (len <= BUFFER - 8 && len - |got| <= |io.inbox| && len - |got| <= Offered(io.script[..k]))
    decreases |io.script|
  {
    CompleteMeans(len, got);
    if |got| < len {
      if len > BUFFER - 8 || len - |got| > |io.inbox| {
        NotAllThere(io, len, got);
      } else {
        var d := Read(io, BUFFER - 8 - |got|);
        if k == 0 {
          assert io.script[..0] == [] && d.2 <= 0;
          StoppedRead(io, len, got);
        } else {
          assert !StopsAt(io, 0);
          StopMoves(io, k, d.0);
          BodyExactly(d.0, len, if d.2 > 0 then got + d.1 else got, k - 1);
        }
      }
    }
  }

  lemma NotAllThere(io: Io, len: nat, got: seq<byte>)
    requires |got| < len < 0x1_0000_0000 - 8 && |got| <= BUFFER - 8
    requires len > BUFFER - 8 || len - |got| > |io.inbox|
    ensures !RecvBody(io, len, got).1.Received?
  {
    RecvBodyTakes(io, len, got);
    RecvBodyLength(io, len, got);
    var b := RecvBody(io, len, got);
    assert b.1.Received? ==> |got| + |io.inbox| == |b.1.value| + |b.0.inbox|;
    if b.1.Received? {
      CompleteMeans(len, b.1.value);
    }
  }

  lemma StoppedRead(io: Io, len: nat, got: seq<byte>)
    requires FirstStop(io, 0) && |got| < len <= BUFFER - 8
    ensures !RecvBody(io, len, got).1.Received?
  {
    CompleteMeans(len, got);
  }

  /** A reply that is waiting is received exactly when the first read is granted the
      header in one piece and the outcomes behind it, up to the first stop, the body. */
  lemma ReplyExactly(io: Io, r: Reply, rest: seq<byte>, k: nat)
    requires Sendable(r) && io.inbox == ReplyFrame(r) + rest && FirstStop(io, k)
    ensures RecvReply(io).1.Received? <==>
      && io.script != [] && io.script[0].Moved? && io.script[0].n >= 8
      && |r.body| <= Offered(io.script[1..k])
  {
    hide RecvBody, Be32, FromBe32;
    var h := Read(io, 8);
    if h.2 == 8 {
      assert !StopsAt(io, 0);
      StopMoves(io, k, h.0);
      assert h.0.script[..k - 1] == io.script[1..k];
      HeaderReceived(io, r, rest);
      BodyExactly(h.0, |r.body|, [], k - 1);
      RecvBodyLength(h.0, |r.body|, []);
      var b := RecvBody(h.0, |r.body|, []);
      if b.1.Received? {
        CompleteMeans(|r.body|, b.1.value);
      }
    }
  }
}
