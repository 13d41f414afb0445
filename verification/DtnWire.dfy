/** The wire level of the DTN client library: the frames of dtn_ipc.c and
    APIServer::send_response, and the socket loops that move them.  A socket is a
    script of system-call outcomes plus the bytes on either side. */
module DtnWire {
  import opened Common

  type byte = x: int | 0 <= x < 256

  // DTN_MAX_API_MSG: the client's whole buffer, the eight header bytes included
  const BUFFER: nat := 65536
  const EINTR: int := 4
  const EIO: int := 5

  // DTN_ERRBASE 128 and what is added to it
  const DTN_SUCCESS: int := 0
  const DTN_EINVAL: int := 129
  const DTN_EXDR: int := 130
  const DTN_ECOMM: int := 131
  const DTN_ETIMEOUT: int := 133
  const DTN_EINPOLL: int := 137
  const DTN_EMSGTYPE: int := 140

  const DTN_CLOSE: byte := 2
  const DTN_RECV: byte := 11
  const DTN_BEGIN_POLL: byte := 12
  const DTN_CANCEL_POLL: byte := 13
  const DTN_SESSION_UPDATE: byte := 15

  // ------------------------------------------------------------------ frames

  datatype Request = Request(kind: byte, body: seq<byte>)
  datatype Reply = Reply(status: int, body: seq<byte>)

  /** A status or length that fits its four bytes on the wire. */
  predicate Word32(n: int) { 0 <= n < 0x1_0000_0000 }

  predicate Sendable(r: Reply) { Word32(r.status) && |r.body| <= BUFFER - 8 }

  /** Most significant byte first. */
  function Be32(n: int): (r: seq<byte>)
    requires Word32(n)
    ensures |r| == 4
    ensures n == r[0] as int * 0x100_0000 + r[1] as int * 0x1_0000 + r[2] as int * 0x100 + r[3] as int
  {
    var high := n / 0x100;
    [high / 0x100 / 0x100, high / 0x100 % 0x100, high % 0x100, n % 0x100]
  }

  function FromBe32(b: seq<byte>): (n: int)
    requires |b| == 4
    ensures Word32(n)
  {
    (b[0] as int) * 0x100_0000 + (b[1] as int) * 0x1_0000 + (b[2] as int) * 0x100 + b[3] as int
  }

  lemma Be32RoundTrip(n: int)
    requires Word32(n)
    ensures FromBe32(Be32(n)) == n
  {
  }

  /** `send_response`: status, length, body. */
  function ReplyFrame(r: Reply): (f: seq<byte>)
    requires Sendable(r)
    ensures |f| == 8 + |r.body| && f[..4] == Be32(r.status) && f[4..8] == Be32(|r.body|) && f[8..] == r.body
  {
    Be32(r.status) + Be32(|r.body|) + r.body
  }

  function ReplyFrames(rs: seq<Reply>): seq<byte>
    requires forall k :: 0 <= k < |rs| ==> Sendable(rs[k])
  {
    if rs == [] then [] else ReplyFrame(rs[0]) + ReplyFrames(rs[1..])
  }

  /** `dtnipc_send`: type code, length, body. */
  function RequestFrame(q: Request): (f: seq<byte>)
    requires Word32(|q.body|)
    ensures |f| == 5 + |q.body| && f[0] == q.kind && f[1..5] == Be32(|q.body|) && f[5..] == q.body
  {
    [q.kind] + Be32(|q.body|) + q.body
  }

  /** How the server cuts a request off its input: five header bytes, then exactly
      the announced length. */
  function CutRequest(input: seq<byte>): Option<(Request, seq<byte>)> {
    if |input| < 5 then None
    else
      var len := FromBe32(input[1..5]);
      if |input| < 5 + len then None
      else Some((Request(input[0], input[5..5 + len]), input[5 + len..]))
  }

  /** Requests cannot run together: the server reads back each as it was sent. */
  lemma RequestRoundTrip(q: Request, more: seq<byte>)
    requires Word32(|q.body|)
    ensures CutRequest(RequestFrame(q) + more) == Some((q, more))
  {
    var input := RequestFrame(q) + more;
    assert input[1..5] == Be32(|q.body|);
    Be32RoundTrip(|q.body|);
    assert input[5..5 + |q.body|] == q.body && input[5 + |q.body|..] == more;
  }

  // ------------------------------------------------------------------ socket

  /** Outcomes of a read or write call: some bytes moved, end of file, a signal,
      or another error. */
  datatype Sys = Moved(n: nat) | Eof | Interrupted | Failed

  /** What a read meets once the script is used up, again and again: the end of file
      of a peer that has closed, or an error. */
  datatype Tail = Closed | Broken

  /** The socket and `errno`, which only a failing call sets. */
  datatype Io = Io(script: seq<Sys>, tail: Tail, errno: int, inbox: seq<byte>, outbox: seq<byte>)

  /** How a receiving call ends: with a value, with an error, with a length that has
      wrapped, or never. */
  datatype Outcome<T> = Received(value: T) | Broke | Overlong | Hangs

  function Clamp(n: nat, cap: nat): (k: nat)
    requires cap > 0
    ensures 1 <= k <= cap
  {
    if n == 0 then 1 else if n > cap then cap else n
  }

  /** write(2).  Past its script nobody takes the data any more. */
  function Write(io: Io, data: seq<byte>): (r: (Io, int))
    requires data != []
    ensures r.1 <= |data| && r.0.inbox == io.inbox && r.0.tail == io.tail
    ensures io.script != [] ==> |r.0.script| < |io.script|
    ensures io.script == [] ==> r.1 == -1 && r.0.errno == EIO
    ensures r.0.outbox == io.outbox + (if r.1 > 0 then data[..r.1] else [])
  {
    if io.script == [] then (io.(errno := EIO), -1)
    else
      var next := io.(script := io.script[1..]);
      match io.script[0]
      case Moved(n) => var k: int := Clamp(n, |data|); (next.(outbox := io.outbox + data[..k]), k)
      case Eof => (next, 0)
      case Interrupted => (next.(errno := EINTR), -1)
      case Failed => (next.(errno := EIO), -1)
  }

  /** read(2) into a buffer of `cap` bytes; the data read, and the return value.  A
      read of no bytes returns 0 whatever the socket has. */
  function Read(io: Io, cap: nat): (r: (Io, seq<byte>, int))
    ensures r.2 <= cap && r.0.outbox == io.outbox && r.0.tail == io.tail
    ensures r.2 > 0 ==> |r.0.script| < |io.script|
    ensures r.0 == io || |r.0.script| < |io.script| || r.0.errno == EIO
    ensures |r.1| == if r.2 > 0 then r.2 else 0
    ensures io.inbox == r.1 + r.0.inbox
  {
    if cap == 0 then (io, [], 0)
    else if io.script == [] then
      match io.tail
      case Closed => (io, [], 0)
      case Broken => (io.(errno := EIO), [], -1)
    else
      var next := io.(script := io.script[1..]);
      match io.script[0]
      case Moved(n) =>
        if io.inbox == [] then (next, [], 0)
        else
          var k: int := Clamp(n, if cap < |io.inbox| then cap else |io.inbox|);
          (next.(inbox := io.inbox[k..]), io.inbox[..k], k)
      case Eof => (next, [], 0)
      case Interrupted => (next.(errno := EINTR), [], -1)
      case Failed => (next.(errno := EIO), [], -1)
  }

  // ------------------------------------------------------- the loops, as functions

  /** The write loop: retry after a signal, give up on any other failure. */
  function SendAll(io: Io, data: seq<byte>): (r: (Io, bool))
    decreases |io.script|, |data|
  {
    if data == [] then (io, true)
    else
      var w := Write(io, data);
      if w.1 <= 0 then
        if w.0.errno == EINTR then SendAll(w.0, data) else (w.0, false)
      else SendAll(w.0, data[w.1..])
  }

  /** The guard of the body loop, in unsigned 32-bit arithmetic: from 2^32 - 8 on the
      announced length plus eight wraps, and nothing is waited for. */
  predicate Complete(len: nat, got: seq<byte>) {
    8 + |got| >= (len + 8) % 0x1_0000_0000
  }

  lemma CompleteMeans(len: nat, got: seq<byte>)
    requires len < 0x1_0000_0000
    ensures len < 0x1_0000_0000 - 8 ==> (Complete(len, got) <==> |got| >= len)
    ensures len >= 0x1_0000_0000 - 8 ==> Complete(len, got)
  {
  }

  /** The body loop of `dtnipc_recv`: it always asks for all the buffer has room for.
      A turn that changes nothing is repeated for ever. */
  function RecvBody(io: Io, len: nat, got: seq<byte>): (r: (Io, Outcome<seq<byte>>))
    requires |got| <= BUFFER - 8
    decreases |io.script|
  {
    if Complete(len, got) then (io, Received(got))
    else
      var d := Read(io, BUFFER - 8 - |got|);
      if d.2 > 0 then RecvBody(d.0, len, got + d.1)
      else if d.0.errno != EINTR then (d.0, Broke)
      else if d.0 == io then (io, Hangs)
      else RecvBody(d.0, len, got)
  }

  /** `dtnipc_recv`: the header in one read, then the body. */
  function RecvReply(io: Io): (r: (Io, Outcome<Reply>)) {
    var h := Read(io, 8);
    if h.2 != 8 then (h.0, Broke)
    else
      var len := FromBe32(h.1[4..8]);
      var b := RecvBody(h.0, len, []);
      match b.1
      case Broke => (b.0, Broke)
      case Hangs => (b.0, Hangs)
      case Overlong => (b.0, Overlong)
      case Received(got) =>
        if |got| < len then (b.0, Overlong) else (b.0, Received(Reply(FromBe32(h.1[..4]), got[..len])))
  }

  lemma {:induction false} RecvBodyLength(io: Io, len: nat, got: seq<byte>)
    requires |got| <= BUFFER - 8
    ensures var b := RecvBody(io, len, got);
      !b.1.Overlong? && (b.1.Received? ==> Complete(len, b.1.value) && |b.1.value| <= BUFFER - 8)
    decreases |io.script|
  {
    if !Complete(len, got) {
      var d := Read(io, BUFFER - 8 - |got|);
      if d.2 > 0 {
        RecvBodyLength(d.0, len, got + d.1);
      } else if d.0.errno == EINTR && d.0 != io {
        RecvBodyLength(d.0, len, got);
      }
    }
  }

  /** When a reply is cut short by its own length: exactly when its header comes whole
      and announces 2^32 - 8 bytes or more; nothing behind the header is read then. */
  lemma OverlongExactly(io: Io)
    ensures var h := Read(io, 8);
      RecvReply(io).1.Overlong? <==> h.2 == 8 && FromBe32(h.1[4..8]) >= 0x1_0000_0000 - 8
    ensures RecvReply(io).1.Overlong? ==> RecvReply(io).0 == Read(io, 8).0
  {
    hide Read, FromBe32;
    var h := Read(io, 8);
    if h.2 == 8 {
      var len := FromBe32(h.1[4..8]);
      RecvBodyLength(h.0, len, []);
      CompleteMeans(len, []);
      var b := RecvBody(h.0, len, []);
      if b.1.Received? {
        CompleteMeans(len, b.1.value);
      }
    }
  }

  // ------------------------------------------------------------- their meaning

  /** Some of the data, from the front and not all of it, stands behind what was
      written before. */
  ghost predicate PartWritten(before: seq<byte>, data: seq<byte>, after: seq<byte>) {
    exists k :: 0 <= k < |data| && after == before + data[..k]
  }

  lemma WriteMore(before: seq<byte>, data: seq<byte>, n: nat, after: seq<byte>)
    requires n <= |data|
    ensures before + data == (before + data[..n]) + data[n..]
    ensures PartWritten(before + data[..n], data[n..], after) ==> PartWritten(before, data, after)
  {
    if PartWritten(before + data[..n], data[n..], after) {
      var k :| 0 <= k < |data[n..]| && after == before + data[..n] + data[n..][..k];
      assert data[..n + k] == data[..n] + data[n..][..k];
      assert after == before + data[..n + k];
    }
  }

  /** What has been written is the whole of the data, or some of it from the front. */
  lemma {:induction false} SendAllWrites(io: Io, data: seq<byte>)
    ensures var r := SendAll(io, data);
      && r.0.inbox == io.inbox
      && (r.1 ==> r.0.outbox == io.outbox + data)
      && (!r.1 ==> PartWritten(io.outbox, data, r.0.outbox))
    decreases |io.script|, |data|
  {
    if data == [] {
      assert io.outbox + data == io.outbox;
    } else {
      var w := Write(io, data);
      assert io.outbox + data[..0] == io.outbox && io.outbox + [] == io.outbox;
      if w.1 <= 0 {
        if w.0.errno == EINTR {
          SendAllWrites(w.0, data);
        }
      } else {
        hide PartWritten, Write;
        SendAllWrites(w.0, data[w.1..]);
        WriteMore(io.outbox, data, w.1, SendAll(w.0, data[w.1..]).0.outbox);
      }
    }
  }

  /** The body loop takes its bytes off the front of the input, at least `len` of
      them and never more than the buffer holds. */
  lemma {:induction false} RecvBodyTakes(io: Io, len: nat, got: seq<byte>)
    requires |got| <= BUFFER - 8
    ensures var b := RecvBody(io, len, got);
      && b.0.outbox == io.outbox
      && (b.1.Received? ==> got + io.inbox == b.1.value + b.0.inbox)
      && (Complete(len, got) ==> b.1 == Received(got))
    decreases |io.script|
  {
    hide Read;
    if !Complete(len, got) {
      var d := Read(io, BUFFER - 8 - |got|);
      if d.2 > 0 {
        RecvBodyTakes(d.0, len, got + d.1);
        assert got + (d.1 + d.0.inbox) == (got + d.1) + d.0.inbox;
      } else if d.0.errno == EINTR && d.0 != io {
        RecvBodyTakes(d.0, len, got);
        assert [] + d.0.inbox == d.0.inbox;
      }
    }
  }

  /** However the socket splits the body, a reply that is received at all is
      received as it was sent.  What is left for the next call is a suffix of what
      followed it, and all of that when there is no body to read or nothing
      followed, or the body fills the buffer. */
  lemma ReplyReceived(io: Io, r: Reply, rest: seq<byte>)
    requires Sendable(r) && io.inbox == ReplyFrame(r) + rest
    ensures var got := RecvReply(io);
      got.1.Received? ==>
        && got.1.value == r
        && (exists k :: 0 <= k <= |rest| && got.0.inbox == rest[k..])
        && (r.body == [] || rest == [] || |r.body| == BUFFER - 8 ==> got.0.inbox == rest)
  {
    hide Read, RecvBody, Be32, FromBe32;
    var h := Read(io, 8);
    if h.2 == 8 {
      HeaderReceived(io, r, rest);
      var len := |r.body|;
      var b := RecvBody(h.0, len, []);
      RecvBodyTakes(h.0, len, []);
      RecvBodyLength(h.0, len, []);
      if b.1.Received? {
        var got := b.1.value;
        CompleteMeans(len, got);
        assert [] + h.0.inbox == h.0.inbox;
        LongerPrefix(r.body, rest, got, b.0.inbox);
      }
    }
  }

  /** A header read whole decodes to the reply's status and length. */
  lemma HeaderReceived(io: Io, r: Reply, rest: seq<byte>)
    requires Sendable(r) && io.inbox == ReplyFrame(r) + rest && Read(io, 8).2 == 8
    ensures var h := Read(io, 8);
      FromBe32(h.1[..4]) == r.status && FromBe32(h.1[4..8]) == |r.body| && h.0.inbox == r.body + rest
  {
    var h := Read(io, 8);
    hide Read, Be32, FromBe32;
    assert h.1 == (h.1 + h.0.inbox)[..8] == Be32(r.status) + Be32(|r.body|);
    assert h.0.inbox == (h.1 + h.0.inbox)[8..] == r.body + rest;
    assert h.1[..4] == Be32(r.status) && h.1[4..8] == Be32(|r.body|);
    Be32RoundTrip(r.status);
    Be32RoundTrip(|r.body|);
  }

  /** Two ways of cutting the same bytes. */
  lemma LongerPrefix(body: seq<byte>, rest: seq<byte>, got: seq<byte>, left: seq<byte>)
    requires body + rest == got + left && |body| <= |got|
    ensures got[..|body|] == body && left == rest[|got| - |body|..] && |got| - |body| <= |rest|
  {
    assert got[..|body|] == (got + left)[..|body|];
    assert left == (got + left)[|got|..];
  }

  /** The condition is exact: otherwise some way of splitting the input swallows
      bytes of the next reply. */
  lemma FramingExactly(r: Reply, rest: seq<byte>)
    requires Sendable(r)
    ensures (forall io: Io :: io.inbox == ReplyFrame(r) + rest && RecvReply(io).1.Received?
                ==> RecvReply(io).0.inbox == rest)
            <==> (r.body == [] || rest == [] || |r.body| == BUFFER - 8)
  {
    forall io: Io | io.inbox == ReplyFrame(r) + rest && RecvReply(io).1.Received?
      ensures (r.body == [] || rest == [] || |r.body| == BUFFER - 8) ==> RecvReply(io).0.inbox == rest
    {
      ReplyReceived(io, r, rest);
    }
    if r.body != [] && rest != [] && |r.body| < BUFFER - 8 {
      var io := Io([Moved(8), Moved(|r.body| + 1)], Broken, 0, ReplyFrame(r) + rest, []);
      SwallowsOne(io, r, rest);
    }
  }

  lemma SwallowsOne(io: Io, r: Reply, rest: seq<byte>)
    requires Sendable(r) && r.body != [] && rest != [] && |r.body| < BUFFER - 8
    requires io == Io([Moved(8), Moved(|r.body| + 1)], Broken, 0, ReplyFrame(r) + rest, [])
    ensures RecvReply(io).1.Received? && RecvReply(io).0.inbox == rest[1..]
  {
    var h := Read(io, 8);
    HeaderReceived(io, r, rest);
    hide Be32, FromBe32;
    assert h.0.script == [Moved(|r.body| + 1)];
    var d := Read(h.0, BUFFER - 8);
    assert d.2 == |r.body| + 1;
    assert d.0.inbox == (r.body + rest)[|r.body| + 1..] == rest[1..];
    assert [] + d.1 == d.1;
    assert RecvBody(h.0, |r.body|, []) == RecvBody(d.0, |r.body|, d.1) == (d.0, Received(d.1));
  }

  // --------------------------------------------------- when the body loop ends

  /** The loop, turn by turn. */
  datatype Turn = Going(io: Io, got: seq<byte>) | Over(io: Io, result: Outcome<seq<byte>>)

  function BodyTurn(io: Io, len: nat, got: seq<byte>): (t: Turn)
    requires |got| <= BUFFER - 8
    ensures t.Going? ==> |t.got| <= BUFFER - 8
  {
    if Complete(len, got) then Over(io, Received(got))
    else
      var d := Read(io, BUFFER - 8 - |got|);
      if d.2 > 0 then Going(d.0, got + d.1)
      else if d.0.errno == EINTR then Going(d.0, got)
      else Over(d.0, Broke)
  }

  /** The loop after n turns. */
  function Turns(io: Io, len: nat, got: seq<byte>, n: nat): (t: Turn)
    requires |got| <= BUFFER - 8
    ensures t.Going? ==> |t.got| <= BUFFER - 8
    decreases n
  {
    if n == 0 then Going(io, got)
    else
      var t := BodyTurn(io, len, got);
      if t.Over? then t else Turns(t.io, len, t.got, n - 1)
  }

  lemma {:induction false} BodyEnds(io: Io, len: nat, got: seq<byte>) returns (n: nat)
    requires |got| <= BUFFER - 8 && !RecvBody(io, len, got).1.Hangs?
    ensures Turns(io, len, got, n) == Over(RecvBody(io, len, got).0, RecvBody(io, len, got).1)
    decreases |io.script|
  {
    var t := BodyTurn(io, len, got);
    hide Read;
    if t.Over? {
      n := 1;
    } else {
      var k := BodyEnds(t.io, len, t.got);
      n := k + 1;
    }
  }

  lemma {:induction false} BodyGoesOn(io: Io, len: nat, got: seq<byte>, n: nat)
    requires |got| <= BUFFER - 8 && RecvBody(io, len, got).1.Hangs?
    ensures Turns(io, len, got, n).Going?
    decreases n
  {
    if n > 0 {
      var t := BodyTurn(io, len, got);
      hide Read;
      BodyGoesOn(t.io, len, t.got, n - 1);
    }
  }

  /** The outcomes used up between two states of a socket. */
  function Used(io: Io, later: Io): seq<Sys> {
    if |later.script| <= |io.script| then io.script[..|io.script| - |later.script|] else []
  }

  /** A read that brings nothing, now and for ever: the peer has closed, or the buffer
      is full. */
  predicate NoMore(t: Turn, len: nat) {
    t.Going? && !Complete(len, t.got) && (|t.got| == BUFFER - 8 || (t.io.script == [] && t.io.tail.Closed?))
  }

  /** `errno` says EINTR: an earlier call has left it so, or a signal has come. */
  predicate Signalled(io: Io, later: Io) {
    io.errno == EINTR || Interrupted in Used(io, later)
  }

  /** The same socket, some outcomes later, no failure among them. */
  predicate Later(io: Io, later: Io) {
    && later.tail == io.tail && io.script == Used(io, later) + later.script
    && (later.errno == EINTR <==> Signalled(io, later))
  }

  lemma LaterStill(a: Io, b: Io, c: Io)
    requires Later(a, b) && Later(b, c)
    ensures Later(a, c)
  {
    assert a.script == (Used(a, b) + Used(b, c)) + c.script;
    assert Used(a, c) == Used(a, b) + Used(b, c);
  }

  lemma ReadLater(io: Io, cap: nat)
    requires Read(io, cap).2 > 0 || Read(io, cap).0.errno == EINTR
    ensures Later(io, Read(io, cap).0)
  {
    var next := Read(io, cap).0;
    if next == io {
      assert Used(io, io) == [];
    } else {
      assert io.script == [io.script[0]] + io.script[1..];
      assert Used(io, next) == [io.script[0]];
    }
  }

  lemma OneTurn(io: Io, len: nat, got: seq<byte>)
    requires |got| <= BUFFER - 8 && BodyTurn(io, len, got).Going?
    ensures var t := BodyTurn(io, len, got); Later(io, t.io) && RecvBody(io, len, got) == RecvBody(t.io, len, t.got)
  {
    ReadLater(io, BUFFER - 8 - |got|);
    hide Read, Later;
  }

  lemma {:induction false} TurnsKeep(io: Io, len: nat, got: seq<byte>, n: nat)
    requires |got| <= BUFFER - 8 && Turns(io, len, got, n).Going?
    ensures var t := Turns(io, len, got, n); Later(io, t.io) && RecvBody(io, len, got) == RecvBody(t.io, len, t.got)
    decreases n
  {
    if n == 0 {
      assert Used(io, io) == [];
    } else {
      var u := BodyTurn(io, len, got);
      hide Read, RecvBody, BodyTurn, Later;
      TurnsKeep(u.io, len, u.got, n - 1);
      OneTurn(io, len, got);
      LaterStill(io, u.io, Turns(u.io, len, u.got, n - 1).io);
    }
  }

  lemma NoMoreHangs(t: Turn, len: nat)
    requires NoMore(t, len) && |t.got| <= BUFFER - 8
    ensures RecvBody(t.io, len, t.got) == if t.io.errno == EINTR then (t.io, Hangs) else (t.io, Broke)
  {
  }

  lemma {:induction false} HangsAtNoMore(io: Io, len: nat, got: seq<byte>) returns (n: nat)
    requires |got| <= BUFFER - 8 && RecvBody(io, len, got).1.Hangs?
    ensures NoMore(Turns(io, len, got, n), len)
    decreases |io.script|
  {
    var t := BodyTurn(io, len, got);
    if t.io == io {
      n := 0;
    } else {
      hide Read;
      var k := HangsAtNoMore(t.io, len, t.got);
      n := k + 1;
    }
  }

  /** When the body loop never ends, for any socket and whatever has been read: it
      goes round for ever exactly when it comes to a read that brings nothing for
      good, because the peer has closed or the buffer is full, with the body
      incomplete and `errno` at EINTR, which nothing in the loop resets: left there
      by an earlier call, or by a signal on the way. */
  lemma BodyHangsExactly(io: Io, len: nat, got: seq<byte>)
    requires |got| <= BUFFER - 8
    ensures RecvBody(io, len, got).1.Hangs? <==> forall n: nat :: Turns(io, len, got, n).Going?
    ensures RecvBody(io, len, got).1.Hangs? <==>
      exists n: nat :: NoMore(Turns(io, len, got, n), len) && Signalled(io, Turns(io, len, got, n).io)
  {
    hide Turns, RecvBody, NoMore, Signalled;
    if RecvBody(io, len, got).1.Hangs? {
      forall n: nat
        ensures Turns(io, len, got, n).Going?
      {
        BodyGoesOn(io, len, got, n);
      }
      var n := HangsAtNoMore(io, len, got);
      TurnsKeep(io, len, got, n);
      NoMoreHangs(Turns(io, len, got, n), len);
    } else {
      var m := BodyEnds(io, len, got);
      forall n: nat | NoMore(Turns(io, len, got, n), len)
        ensures !Signalled(io, Turns(io, len, got, n).io)
      {
        assert Turns(io, len, got, n).Going? by { NoMoreGoes(Turns(io, len, got, n), len); }
        TurnsKeep(io, len, got, n);
        NoMoreHangs(Turns(io, len, got, n), len);
      }
    }
  }

  lemma NoMoreGoes(t: Turn, len: nat)
    requires NoMore(t, len)
    ensures t.Going?
  {
  }

  /** An end of file inside a body stops the loop there if and only if `errno` is not
      EINTR. */
  lemma EofStopsExactly(io: Io, len: nat, got: seq<byte>)
    requires !Complete(len, got) && |got| < BUFFER - 8
    requires if io.script == [] then io.tail.Closed? else io.script[0].Eof?
    ensures var next := Read(io, BUFFER - 8 - |got|).0;
      RecvBody(io, len, got) == (next, Broke) <==> io.errno != EINTR
  {
    BrokeSetsErrno(Read(io, BUFFER - 8 - |got|).0, len, got);
  }

  lemma {:induction false} BrokeSetsErrno(io: Io, len: nat, got: seq<byte>)
    requires |got| <= BUFFER - 8
    ensures RecvBody(io, len, got).1.Broke? ==> RecvBody(io, len, got).0.errno != EINTR
    decreases |io.script|
  {
    hide Read;
    if !Complete(len, got) {
      var d := Read(io, BUFFER - 8 - |got|);
      if d.2 > 0 {
        BrokeSetsErrno(d.0, len, got + d.1);
      } else if d.0.errno == EINTR && d.0 != io {
        BrokeSetsErrno(d.0, len, got);
      }
    }
  }
}
