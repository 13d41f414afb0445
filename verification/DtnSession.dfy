/** One API session: the client machine, the server thread of APIServer.cc, and a
    FIFO of messages each way, taking steps in any order.  Requests carry numbers
    the program does not have, so that one can say which request a reply answers. */
module DtnSession {
  import opened Common
  import opened DtnWire
  import opened DtnClient

  datatype Tag<T> = Tag(id: nat, msg: T)

  /** The server thread: between requests, blocked in `wait_for_notify` on behalf of
      a poll or of a receive, or gone after a protocol error. */
  datatype Server = Ready | Polling(id: nat) | Waiting(id: nat) | Down

  /** `due`: the requests whose replies the client still means to read, in the
      order it sent them.  `stale`: replies it will never read, less replies it
      expects though nothing was sent. */
  datatype System = System(client: Client, server: Server, requests: seq<Tag<Request>>, replies: seq<Tag<Reply>>,
                           due: seq<nat>, nextId: nat, stale: int)

  const INIT := System(Client(Idle, false, DTN_SUCCESS, []), Ready, [], [], [], 0, 0)

  datatype Answer = Replies(reply: Reply) | Blocks

  datatype Step =
    | Calls(call: Call)            // the application calls the library
    | Reads                        // the client reads a reply
    | Takes(answer: Answer)        // the server takes the next request and handles it
    | Wakes(reply: Reply)          // a bundle, a notification or the timeout ends the wait
    | DataReady                    // the wait ends because the socket has data

  predicate Ordinary(kind: byte) {
    kind !in {DTN_CLOSE, DTN_RECV, DTN_BEGIN_POLL, DTN_CANCEL_POLL, DTN_SESSION_UPDATE}
  }

  predicate Blocking(kind: byte) {
    kind == DTN_RECV || kind == DTN_SESSION_UPDATE
  }

  /** Codes a handler returns without ending the session. */
  predicate Code(status: int) {
    status == DTN_SUCCESS || (128 <= status <= 255 && status != DTN_ECOMM && status != DTN_EMSGTYPE)
  }

  /** What the handler of a request may do.  `handle_begin_poll` and
      `handle_cancel_poll` encode nothing, so their replies have no body. */
  predicate Handles(q: Request, answer: Answer) {
    match answer
    case Blocks => q.kind == DTN_BEGIN_POLL || Blocking(q.kind)
    case Replies(r) =>
      && Code(r.status) && Sendable(r)
      && (q.kind == DTN_BEGIN_POLL ==> r.body == [])
      && (q.kind == DTN_CANCEL_POLL ==> r == Reply(DTN_SUCCESS, []))
  }

  predicate Enabled(s: System, step: Step) {
    match step
    case Calls(call) =>
      && s.client.pc.Idle?
      && (call.Simple? ==> Ordinary(call.kind)) && (call.Receive? ==> Blocking(call.kind))
    case Reads => !s.client.pc.Idle? && s.replies != []
    case Takes(answer) => s.server.Ready? && s.requests != [] && Handles(s.requests[0].msg, answer)
    case Wakes(r) =>
      && (s.server.Polling? || s.server.Waiting?) && Code(r.status) && Sendable(r)
      && (s.server.Polling? ==> r.body == [])
    case DataReady => (s.server.Polling? || s.server.Waiting?) && s.requests != []
  }

  /** The client makes its move: a request gets the next number. */
  function Moved(s: System, m: Move, due: seq<nat>, stale: int): System {
    match m.sends
    case None => s.(client := m.client, due := due, stale := stale)
    case Some(q) => s.(client := m.client, requests := s.requests + [Tag(s.nextId, q)], due := due + [s.nextId],
                       nextId := s.nextId + 1, stale := stale)
  }

  function Apply(s: System, step: Step): System
    requires Enabled(s, step)
  {
    match step
    case Calls(call) =>
      var m := Start(s.client, call);
      // dtn_begin_poll has set in_poll by the time packing fails
      var missing := call.BeginPoll? && !s.client.inPoll && m.sends.None?;
      Moved(s, m, s.due, if missing then s.stale - 1 else s.stale)
    case Reads =>
      var r := s.replies[0];
      var m := OnReply(s.client, r.msg);
      // a cancel that ends at its first reply leaves the second one unread
      var unread := s.client.pc.AwaitCancel1? && m.client.pc.Idle?;
      Moved(s.(replies := s.replies[1..]), m, if unread then [] else Without(s.due, r.id),
            if unread then s.stale + 1 else s.stale)
    case Takes(answer) =>
      var q := s.requests[0];
      var taken := s.(requests := s.requests[1..]);
      (match answer
       case Replies(r) => taken.(replies := s.replies + [Tag(q.id, r)])
       case Blocks => taken.(server := if q.msg.kind == DTN_BEGIN_POLL then Polling(q.id) else Waiting(q.id)))
    case Wakes(r) => s.(server := Ready, replies := s.replies + [Tag(s.server.id, r)])
    case DataReady =>
      var q := s.requests[0];
      var taken := s.(requests := s.requests[1..]);
      if s.server.Polling? && q.msg == Request(DTN_CANCEL_POLL, []) then
        taken.(server := Ready,
               replies := s.replies + [Tag(q.id, Reply(DTN_SUCCESS, [])), Tag(s.server.id, Reply(DTN_SUCCESS, []))])
      else
        taken.(server := Down, replies := s.replies + [Tag(s.server.id, Reply(DTN_ECOMM, []))])
  }

  /** A run of the session. */
  ghost predicate Path(s: System, steps: seq<Step>, t: System)
    decreases |steps|
  {
    if steps == [] then s == t
    else Enabled(s, steps[0]) && Path(Apply(s, steps[0]), steps[1..], t)
  }

  // ------------------------------------------------------- the law of all runs

  /** Everything on its way: requests queued, the one being served, replies queued. */
  function Outstanding(s: System): nat {
    |s.requests| + (if s.server.Ready? then 0 else 1) + |s.replies|
  }

  /** Replies the client still intends to read. */
  function Expected(c: Client): nat {
    match c.pc
    case Idle => if c.inPoll then 1 else 0
    case AwaitCancel1 => 2
    case _ => 1
  }

  /** The flag is only up between calls. */
  ghost predicate Counted(s: System) {
    && (!s.client.pc.Idle? ==> !s.client.inPoll)
    && (!s.server.Down? ==> Outstanding(s) == Expected(s.client) + s.stale)
  }

  lemma StartsCounted()
    ensures Counted(INIT)
  {
  }

  lemma CountedStep(s: System, step: Step)
    requires Counted(s) && Enabled(s, step)
    ensures Counted(Apply(s, step))
  {
  }

  /** In every run, with any interleaving and any failures, while the session is up
      what is outstanding is what the client expects plus the stale replies. */
  lemma {:induction false} CountingLaw(s: System, steps: seq<Step>, t: System)
    requires Counted(s) && Path(s, steps, t)
    ensures Counted(t)
    decreases |steps|
  {
    if steps != [] {
      CountedStep(s, steps[0]);
      CountingLaw(Apply(s, steps[0]), steps[1..], t);
    }
  }

  /** So it is in every run of a session that has just been opened. */
  lemma EveryRunIsCounted(steps: seq<Step>, t: System)
    requires Path(INIT, steps, t)
    ensures !t.server.Down? ==> Outstanding(t) == Expected(t.client) + t.stale
  {
    StartsCounted();
    CountingLaw(INIT, steps, t);
  }

  // ------------------------------------------------------------------ lockstep

  /** Exactly one exchange is under way: number `id`, queued, being served or answered. */
  predicate One(s: System, id: nat, poll: bool) {
    || (s.server.Ready? && s.replies == [] && |s.requests| == 1 && s.requests[0].id == id
        && if poll then s.requests[0].msg.kind == DTN_BEGIN_POLL
           else s.requests[0].msg.kind !in {DTN_BEGIN_POLL, DTN_CANCEL_POLL, DTN_CLOSE})
    || (s.server == (if poll then Polling(id) else Waiting(id)) && s.replies == [] && s.requests == [])
    || (s.server.Ready? && s.requests == [] && |s.replies| == 1 && s.replies[0].id == id
        && (poll ==> s.replies[0].msg.body == []))
  }

  const CANCEL := Request(DTN_CANCEL_POLL, [])
  const YES := Reply(DTN_SUCCESS, [])

  /** A poll b and its cancel c are under way. */
  predicate Crossing(s: System, b: nat, c: nat) {
    || (s.server.Ready? && s.replies == [] && |s.requests| == 2 && s.requests[1] == Tag(c, CANCEL)
        && s.requests[0].id == b && s.requests[0].msg.kind == DTN_BEGIN_POLL)
    || (s.server == Polling(b) && s.replies == [] && s.requests == [Tag(c, CANCEL)])
    || (s.server.Ready? && s.requests == [Tag(c, CANCEL)]
        && |s.replies| == 1 && s.replies[0].id == b && s.replies[0].msg.body == [])
    || (s.server.Ready? && s.requests == []
        && |s.replies| == 2 && s.replies[0].id == b && s.replies[0].msg.body == [] && s.replies[1] == Tag(c, YES))
    || (s.server.Ready? && s.requests == [] && s.replies == [Tag(c, YES), Tag(b, YES)])
  }

  /** One of the two has been read. */
  predicate Crossed(s: System, x: nat) {
    s.server.Ready? &&
    ((s.replies == [] && s.requests == [Tag(x, CANCEL)]) || (s.requests == [] && s.replies == [Tag(x, YES)]))
  }

  /** Client and server agree on what is outstanding. */
  predicate Lockstep(s: System) {
    && s.client.enc == [] && s.stale == 0 && !s.server.Down?
    && (forall k :: 0 <= k < |s.due| ==> s.due[k] < s.nextId)
    && (!s.client.pc.AwaitCancel2? ==> forall k :: 0 <= k < |s.due| ==> s.due[k] == s.nextId - |s.due| + k)
    && (forall k :: 0 <= k < |s.replies| ==> Sendable(s.replies[k].msg))
    && match s.client.pc
       case Idle =>
         if s.client.inPoll then |s.due| == 1 && One(s, s.due[0], true)
         else s.due == [] && s.server.Ready? && s.requests == [] && s.replies == []
       case AwaitPoll(kind, _) => !s.client.inPoll && Blocking(kind) && |s.due| == 1 && One(s, s.due[0], true)
       case AwaitReply => !s.client.inPoll && |s.due| == 1 && One(s, s.due[0], false)
       case AwaitCancel1 => !s.client.inPoll && |s.due| == 2 && s.due[0] != s.due[1] && Crossing(s, s.due[0], s.due[1])
       case AwaitCancel2 => !s.client.inPoll && |s.due| == 1 && Crossed(s, s.due[0])
  }

  lemma StartsInLockstep()
    ensures Lockstep(INIT)
  {
    hide One, Crossing, Crossed;
  }

  function PackBytes(pack: Pack): seq<byte> {
    match pack case Packed(args) => args case PackFailed(part) => part
  }

  predicate LeavesPart(pack: Pack) { pack.PackFailed? && pack.part != [] }

  /** The steps that end lockstep: a begin_poll whose arguments do not pack, any
      other call that leaves a half-packed argument in the encoder, and a cancel
      whose first reply is a failure. */
  predicate Derails(s: System, step: Step)
    requires Enabled(s, step)
  {
    match step
    case Calls(BeginPoll(pack)) => !s.client.inPoll && pack.PackFailed?
    case Calls(Simple(_, pack)) => !s.client.inPoll && LeavesPart(pack)
    case Calls(Receive(_, pack)) => !s.client.inPoll && LeavesPart(pack)
    case Reads =>
      (match s.client.pc
       case AwaitPoll(_, pack) => s.replies[0].msg == YES && LeavesPart(pack)
       case AwaitCancel1 => s.replies[0].msg.status != DTN_SUCCESS
       case _ => false)
    case _ => false
  }

  /** From lockstep, a step keeps lockstep exactly when it is not one of those. */
  lemma LockstepExactly(s: System, step: Step)
    requires Lockstep(s) && Enabled(s, step)
    ensures Lockstep(Apply(s, step)) <==> !Derails(s, step)
  {
    hide Lockstep, Apply, Handles;
    match step
    case Calls(call) => CallKeeps(s, call);
    case Reads => ReadKeeps(s);
    case Takes(answer) => TakeKeeps(s, answer);
    case Wakes(r) => WakeKeeps(s, r);
    case DataReady => DataKeeps(s);
  }

  lemma TakeKeeps(s: System, answer: Answer)
    requires Lockstep(s) && Enabled(s, Takes(answer))
    ensures Lockstep(Apply(s, Takes(answer)))
  {
  }

  lemma WakeKeeps(s: System, r: Reply)
    requires Lockstep(s) && Enabled(s, Wakes(r))
    ensures Lockstep(Apply(s, Wakes(r)))
  {
  }

  /** In lockstep only a cancel can interrupt a wait. */
  lemma DataKeeps(s: System)
    requires Lockstep(s) && Enabled(s, DataReady)
    ensures s.client.pc.AwaitCancel1? && Lockstep(Apply(s, DataReady))
  {
  }

  lemma CallKeeps(s: System, call: Call)
    requires Lockstep(s) && Enabled(s, Calls(call))
    ensures Lockstep(Apply(s, Calls(call))) <==> !Derails(s, Calls(call))
  {
    if s.client.inPoll {
      PollingCallKeeps(s, call);
    } else {
      FreeCallKeeps(s, call);
    }
  }

  lemma PollingCallKeeps(s: System, call: Call)
    requires Lockstep(s) && Enabled(s, Calls(call)) && s.client.inPoll
    ensures Lockstep(Apply(s, Calls(call))) && !Derails(s, Calls(call))
  {
  }

  lemma FreeCallKeeps(s: System, call: Call)
    requires Lockstep(s) && Enabled(s, Calls(call)) && !s.client.inPoll
    ensures Lockstep(Apply(s, Calls(call))) <==> !Derails(s, Calls(call))
  {
    hide Crossing, Crossed;
  }

  lemma ReadKeeps(s: System)
    requires Lockstep(s) && Enabled(s, Reads)
    ensures Lockstep(Apply(s, Reads)) <==> !Derails(s, Reads)
  {
    var r, t := s.replies[0], Apply(s, Reads);
    match s.client.pc
    case AwaitPoll(kind, pack) =>
      assert Without(s.due, r.id) == [];
      if r.msg == YES {
        assert s.client.enc + PackBytes(pack) == PackBytes(pack);
      } else {
        assert r.msg.body == [] && t.client.pc.Idle?;
      }
    case AwaitReply =>
      assert Without(s.due, r.id) == [];
    case AwaitCancel1 =>
      var b, c := s.due[0], s.due[1];
      assert s.due == [b, c] && Without(s.due, b) == [c] && Without(s.due, c) == [b];
      if r.msg.status == DTN_SUCCESS {
        assert r.id == b ==> Crossed(t, c);
        assert r.id == c ==> Crossed(t, b);
      }
    case AwaitCancel2 =>
      assert Without(s.due, r.id) == [];
  }

  /** A run none of whose steps derails. */
  ghost predicate Clean(s: System, steps: seq<Step>, t: System)
    decreases |steps|
  {
    if steps == [] then s == t
    else Enabled(s, steps[0]) && !Derails(s, steps[0]) && Clean(Apply(s, steps[0]), steps[1..], t)
  }

  /** Lockstep holds at every point of every clean run, whatever the interleaving;
      in particular the server never takes the protocol for broken. */
  lemma {:induction false} CleanRunsStayInLockstep(s: System, steps: seq<Step>, t: System)
    requires Lockstep(s) && Clean(s, steps, t)
    ensures Lockstep(t) && !t.server.Down?
    decreases |steps|
  {
    if steps != [] {
      LockstepExactly(s, steps[0]);
      CleanRunsStayInLockstep(Apply(s, steps[0]), steps[1..], t);
    }
  }

  /** So it is from the opening of the session on. */
  lemma CleanSessionsStayInLockstep(steps: seq<Step>, t: System)
    requires Clean(INIT, steps, t)
    ensures Lockstep(t) && !t.server.Down?
  {
    StartsInLockstep();
    CleanRunsStayInLockstep(INIT, steps, t);
  }

  /** Messages keep their order: at the back what is new, at the front what is taken. */
  lemma ChannelsAreFifo(s: System, step: Step)
    requires Enabled(s, step)
    ensures var t := Apply(s, step);
      && (if step.Reads? then t.replies == s.replies[1..] else s.replies <= t.replies)
      && (if step.Takes? || step.DataReady? then t.requests == s.requests[1..] else s.requests <= t.requests)
  {
  }

  /** How a wait ends: a cancel that is nothing but its code, met while polling, is
      answered first and the poll behind it, both with success; any other data gets the
      waiting request answered with DTN_ECOMM and ends the session, and nothing else
      ends one; a reply goes to the request that waits, and to no other. */
  lemma WaitEndsExactly(s: System, step: Step)
    requires Enabled(s, step) && !s.server.Down?
    ensures var t := Apply(s, step);
      && (t.server.Down? <==> step.DataReady? && !(s.server.Polling? && s.requests[0].msg == Request(13, [])))
      && (step.DataReady? && t.server.Down? ==>
            t.replies == s.replies + [Tag(s.server.id, Reply(DTN_ECOMM, []))])
      && (step.DataReady? && !t.server.Down? ==>
            t.server.Ready? && t.replies ==
              s.replies + [Tag(s.requests[0].id, Reply(0, []))] + [Tag(s.server.id, Reply(0, []))])
      && (step.Wakes? ==> t.server.Ready? && t.replies == s.replies + [Tag(s.server.id, step.reply)])
  {
    if step.DataReady? && !Apply(s, step).server.Down? {
      Regroup(s.replies, [Tag(s.requests[0].id, Reply(0, []))], [Tag(s.server.id, Reply(0, []))]);
    }
  }

  /** In lockstep a call reads the reply to the request it has just sent, and a
      receive first reads the reply to the poll; a cancel reads the poll's and its
      own, in the order the server chose. */
  lemma RepliesMatch(s: System)
    requires Lockstep(s) && Enabled(s, Reads)
    ensures s.client.pc.AwaitReply? || s.client.pc.AwaitPoll? ==> s.replies[0].id == s.nextId - 1
    ensures s.client.pc.AwaitCancel1? ==> s.replies[0].id in {s.nextId - 2, s.nextId - 1}
    ensures s.client.pc.AwaitCancel2? ==> [s.replies[0].id] == s.due && s.replies == [Tag(s.due[0], YES)]
  {
  }

  function Messages(replies: seq<Tag<Reply>>): (r: seq<Reply>)
    ensures |r| == |replies|
  {
    seq(|replies|, k requires 0 <= k < |replies| => replies[k].msg)
  }

  /** The client's reader asks the socket for more than its own reply.  In lockstep
      that is harmless: a reply with a body has no other reply behind it, and the
      server has nothing left to answer, so none can arrive during the read.
      Whatever way the bytes are split, the reply is decoded as sent and the bytes
      of later replies stay in the socket. */
  lemma FramingIsSound(s: System, io: Io)
    requires Lockstep(s) && Enabled(s, Reads)
    requires io.inbox == ReplyFrames(Messages(s.replies))
    ensures s.replies[0].msg.body != [] ==>
      |s.replies| == 1 && forall step :: Enabled(s, step) ==> step.Reads?
    ensures var got := RecvReply(io);
      got.1.Received? ==> got.1.value == s.replies[0].msg && got.0.inbox == ReplyFrames(Messages(s.replies[1..]))
  {
    hide RecvReply;
    var msgs := Messages(s.replies);
    assert msgs[1..] == Messages(s.replies[1..]);
    assert io.inbox == ReplyFrame(msgs[0]) + ReplyFrames(msgs[1..]);
    ReplyReceived(io, msgs[0], ReplyFrames(msgs[1..]));
  }

  // ---------------------------------------------- what the timeout test costs

  /** Two or more steps from here to there. */
  lemma PathCons(s: System, step: Step, steps: seq<Step>, t: System)
    requires Enabled(s, step) && Path(Apply(s, step), steps, t)
    ensures Path(s, [step] + steps, t)
  {
    assert ([step] + steps)[1..] == steps;
  }

  const POLL := Calls(BeginPoll(Packed([0, 0, 0, 0])))
  const TIMED_OUT := Takes(Replies(Reply(DTN_ETIMEOUT, [])))

  /** After a poll has timed out, the state dtn_cancel_poll leaves: idle, not
      polling, and a reply unread. */
  const LEFT_OVER := System(Client(Idle, false, -1, []), Ready, [], [Tag(1, YES)], [], 2, 1)

  lemma TimedOutPollLeavesReply()
    ensures Path(INIT, [POLL, TIMED_OUT, Calls(CancelPoll), Reads, Takes(Replies(YES))], LEFT_OVER)
  {
    var s1 := Apply(INIT, POLL);
    assert INIT.client.enc + [0, 0, 0, 0] == [0, 0, 0, 0];
    assert s1.requests == [Tag(0, Request(DTN_BEGIN_POLL, [0, 0, 0, 0]))];
    var s2 := Apply(s1, TIMED_OUT);
    assert s2.replies == [Tag(0, Reply(DTN_ETIMEOUT, []))] && s2.requests == [];
    var s3 := Apply(s2, Calls(CancelPoll));
    assert s3.requests == [Tag(1, CANCEL)];
    var s4 := Apply(s3, Reads);
    assert s4.replies == [] && s4.client == Client(Idle, false, -1, []);
    var s5 := Apply(s4, Takes(Replies(YES)));
    assert s5 == LEFT_OVER;
    assert Path(s5, [], LEFT_OVER);
    PathCons(s4, Takes(Replies(YES)), [], LEFT_OVER);
    PathCons(s3, Reads, [Takes(Replies(YES))], LEFT_OVER);
    PathCons(s2, Calls(CancelPoll), [Reads, Takes(Replies(YES))], LEFT_OVER);
    PathCons(s1, TIMED_OUT, [Calls(CancelPoll), Reads, Takes(Replies(YES))], LEFT_OVER);
    PathCons(INIT, POLL, [TIMED_OUT, Calls(CancelPoll), Reads, Takes(Replies(YES))], LEFT_OVER);
  }

  /** A call has ended and its request is still to be looked at. */
  function Behind(kind: byte, args: seq<byte>): System {
    System(Client(Idle, false, -1, []), Ready, [Tag(2, Request(kind, args))], [], [2], 3, 1)
  }

  /** From there the next call takes the left-over reply for its own: it succeeds
      before the server has looked at its request. */
  lemma NextCallReadsStaleReply(kind: byte, args: seq<byte>)
    requires Ordinary(kind)
    ensures Path(LEFT_OVER, [Calls(Simple(kind, Packed(args))), Reads], Behind(kind, args))
  {
    var s1 := Apply(LEFT_OVER, Calls(Simple(kind, Packed(args))));
    assert LEFT_OVER.client.enc + args == args;
    assert s1.requests == [Tag(2, Request(kind, args))] && s1.due == [2];
    var s2 := Apply(s1, Reads);
    assert Without([2], 1) == [2];
    assert Path(s2, [], s2);
    PathCons(s1, Reads, [], s2);
    PathCons(LEFT_OVER, Calls(Simple(kind, Packed(args))), [Reads], s2);
  }

  /** A further call has both its own reply and another in front of it. */
  function TwoReplies(body: seq<byte>): System {
    System(Client(AwaitReply, false, -1, []), Ready, [], [Tag(2, Reply(DTN_SUCCESS, body)), Tag(3, YES)], [2, 3], 4, 1)
  }

  lemma TwoRepliesReached(kind: byte, body: seq<byte>)
    requires Ordinary(kind) && |body| <= BUFFER - 8
    ensures Path(Behind(kind, []),
                 [Takes(Replies(Reply(DTN_SUCCESS, body))), Calls(Simple(kind, Packed([]))), Takes(Replies(YES))],
                 TwoReplies(body))
  {
    var s, t, r := Behind(kind, []), TwoReplies(body), Reply(DTN_SUCCESS, body);
    var s1 := Apply(s, Takes(Replies(r)));
    assert s1.replies == [Tag(2, r)] && s1.requests == [];
    var call := Calls(Simple(kind, Packed([])));
    var s2 := Apply(s1, call);
    assert s1.client.enc + [] == [];
    assert s2.requests == [Tag(3, Request(kind, []))];
    assert Apply(s2, Takes(Replies(YES))) == t;
    assert Path(t, [], t);
    PathCons(s2, Takes(Replies(YES)), [], t);
    PathCons(s1, call, [Takes(Replies(YES))], t);
    PathCons(s, Takes(Replies(r)), [call, Takes(Replies(YES))], t);
  }

  /** One call later a reply with a body can have another reply behind it, and the
      reader's greed is no longer harmless. */
  lemma StaleReplyBreaksFraming(kind: byte, body: seq<byte>)
    requires Ordinary(kind) && body != [] && |body| < BUFFER - 8
    ensures exists steps :: Path(Behind(kind, []), steps, TwoReplies(body))
    ensures exists io: Io ::
      && io.inbox == ReplyFrame(Reply(DTN_SUCCESS, body)) + ReplyFrame(YES)
      && RecvReply(io).1.Received? && RecvReply(io).0.inbox != ReplyFrame(YES)
  {
    TwoRepliesReached(kind, body);
    hide Path, RecvReply, ReplyFrame;
    FramingExactly(Reply(DTN_SUCCESS, body), ReplyFrame(YES));
  }
}
