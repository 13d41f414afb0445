/** Buffered reading from a client that delivers its stream in chunks of any size:
    lines and blocks come out the same however the stream is cut up. */
module BufferedInput {
  import opened Common

  type Byte = bv8

  const READ_AHEAD := 256
  const DEFAULT_BUFSIZE := 1024

  // ------------------------------------------------------------ lines, on values

  /** The string nl, as C sees it: its first character is NUL when it is empty. */
  function First(nl: seq<Byte>): Byte {
    if nl == [] then 0 else nl[0]
  }

  predicate Matches(s: seq<Byte>, nl: seq<Byte>, i: int) {
    0 <= i < |s| && s[i] == First(nl) && i + |nl| <= |s| && s[i..i + |nl|] == nl
  }

  /** The first match of nl in s. */
  ghost predicate IsFirstMatch(s: seq<Byte>, nl: seq<Byte>, i: int) {
    Matches(s, nl, i) && forall k :: 0 <= k < i ==> !Matches(s, nl, k)
  }

  ghost predicate NoMatch(s: seq<Byte>, nl: seq<Byte>) {
    forall k :: 0 <= k < |s| ==> !Matches(s, nl, k)
  }

  /** More data behind it does not change where a string first matches. */
  lemma FirstMatchStable(s: seq<Byte>, more: seq<Byte>, nl: seq<Byte>, i: int)
    requires IsFirstMatch(s, nl, i)
    ensures IsFirstMatch(s + more, nl, i)
  {
    var t := s + more;
    assert t[i..i + |nl|] == s[i..i + |nl|];
    forall k | 0 <= k < i
      ensures !Matches(t, nl, k)
    {
      if Matches(t, nl, k) {
        FirstMatchInside(s, nl, i, k);
        assert t[k..k + |nl|] == s[k..k + |nl|];
        assert Matches(s, nl, k);
      }
    }
  }

  /** A match that starts before another one ends no later. */
  lemma FirstMatchInside(s: seq<Byte>, nl: seq<Byte>, i: int, k: int)
    requires Matches(s, nl, i) && 0 <= k < i
    ensures k + |nl| <= |s|
  {
  }

  // -------------------------------------------------------------- the stream buffer

  /** A buffer that grows at the end and is consumed at the front. */
  class StreamBuffer {
    var buf: array<Byte>
    var start: nat
    var end: nat

    ghost predicate Valid()
      reads this
    {
      start <= end <= buf.Length && buf.Length > 0 && (start == end ==> start == 0)
    }

    ghost function Contents(): seq<Byte>
      requires Valid()
      reads this, buf
    {
      buf[start..end]
    }

    constructor (size: nat)
      ensures Valid() && Contents() == [] && fresh(buf)
    {
      buf := new Byte[if size == 0 then 4 else size](_ => 0);
      start, end := 0, 0;
    }

    function FullBytes(): nat
      requires Valid()
      reads this
    {
      end - start
    }

    function TailBytes(): nat
      requires Valid()
      reads this
    {
      buf.Length - end
    }

    method MoveUp()
      requires Valid()
      modifies this, buf
      ensures Valid() && buf == old(buf) && start == 0 && Contents() == old(Contents())
    {
      if start == 0 {
        return;
      }
      var i := 0;
      ghost var data := buf[start..end];
      while i < end - start
        invariant i <= end - start && start == old(start) && end == old(end) && buf == old(buf)
        invariant forall k :: 0 <= k < i ==> buf[k] == data[k]
        invariant forall k :: i <= k < |data| ==> buf[start + k] == data[k]
        modifies buf
      {
        buf[i] := buf[start + i];
        i := i + 1;
      }
      assert buf[..|data|] == data;
      end := end - start;
      start := 0;
    }

    method Realloc(size: nat)
      requires Valid() && start == 0 && end <= size && size > 0
      modifies this
      ensures Valid() && buf.Length == size && Contents() == old(Contents()) && fresh(buf) && start == 0
    {
      var bigger := new Byte[size](_ => 0);
      var i := 0;
      while i < end
        invariant i <= end && bigger[..i] == buf[..i]
        modifies bigger
      {
        bigger[i] := buf[i];
        i := i + 1;
      }
      buf := bigger;
    }

    method Reserve(amount: nat)
      requires Valid()
      modifies this, buf
      ensures Valid() && Contents() == old(Contents()) && amount <= TailBytes()
      ensures buf == old(buf) || fresh(buf)
    {
      if amount <= TailBytes() {
      } else if amount <= start + TailBytes() {
        MoveUp();
      } else {
        MoveUp();
        var wanted := amount + FullBytes();
        Realloc(if wanted > buf.Length * 2 then wanted else buf.Length * 2);
      }
    }

    /** Bytes that were written behind the end become part of the contents. */
    method Fill(data: seq<Byte>)
      requires Valid() && 0 < |data| <= TailBytes()
      modifies this`end, buf
      ensures Valid() && buf == old(buf) && Contents() == old(Contents()) + data
    {
      var i := 0;
      while i < |data|
        invariant i <= |data| && end == old(end) && buf[end..end + i] == data[..i]
        invariant buf[start..end] == old(buf[start..end])
        modifies buf
      {
        buf[end + i] := data[i];
        i := i + 1;
      }
      end := end + |data|;
      assert buf[start..end] == buf[start..old(end)] + buf[old(end)..end];
    }

    method Consume(amount: nat)
      requires Valid() && amount <= FullBytes()
      modifies this`start, this`end
      ensures Valid() && buf == old(buf) && buf[..] == old(buf[..]) && Contents() == old(Contents())[amount..]
    {
      start := start + amount;
      if start == end {
        start, end := 0, 0;
      }
    }
  }

  // ------------------------------------------------------------------- the client

  /** What comes from the other side, one thing after the other: k + 1 bytes, read at
      once or in parts as there is room, the end of the stream, or an error (a timeout
      is one). */
  datatype Delivery = Bytes(k: nat) | Eof | Error(code: int)

  /** The bytes in front of the first end or error. */
  function Offer(script: seq<Delivery>): nat {
    if script == [] || !script[0].Bytes? then 0 else script[0].k + 1 + Offer(script[1..])
  }

  function Reachable(script: seq<Delivery>, stream: seq<Byte>): seq<Byte> {
    stream[..Min(Offer(script), |stream|)]
  }

  function ErrorCode(code: int): int {
    if code < 0 then code else -1
  }

  /** What a read returns once all that is reachable of `left` bytes has been read. */
  function Stop(script: seq<Delivery>, left: nat): int {
    if script == [] then 0
    else match script[0]
      case Eof => 0
      case Error(code) => ErrorCode(code)
      case Bytes(k) => if k + 1 > left then 0 else Stop(script[1..], left - (k + 1))
  }

  /** It is the end or error that comes first, unless the stream ends before that. */
  lemma {:induction false} StopExactly(script: seq<Delivery>, left: nat, i: nat)
    requires i <= |script| && (forall j :: 0 <= j < i ==> script[j].Bytes?) && (i < |script| ==> !script[i].Bytes?)
    ensures Stop(script, left) ==
      if i < |script| && script[i].Error? && Offer(script) <= left then
        (if script[i].code < 0 then script[i].code else -1)
      else 0
    decreases i
  {
    if i > 0 {
      var k := script[0].k;
      if k + 1 <= left {
        assert forall j :: 0 <= j < i - 1 ==> script[1..][j] == script[j + 1];
        StopExactly(script[1..], left - (k + 1), i - 1);
      }
    }
  }

  class Client {
    var script: seq<Delivery>
    var stream: seq<Byte>

    constructor (script: seq<Delivery>, stream: seq<Byte>)
      ensures this.script == script && this.stream == stream
    {
      this.script, this.stream := script, stream;
    }

    ghost function ToReach(): seq<Byte>
      reads this
    {
      Reachable(script, stream)
    }

    ghost function ToStop(): int
      reads this
    {
      Stop(script, |stream|)
    }

    /** Bytes come in order; nothing is lost on an error; a script that has run out,
        and a stream that has, read as the end. */
    method Read(room: nat) returns (cc: int, data: seq<Byte>)
      requires room > 0
      modifies this
      ensures data + stream == old(stream) && |data| <= room
      ensures cc > 0 ==> cc == |data| && old(ToReach()) == data + ToReach() && ToStop() == old(ToStop())
      ensures cc <= 0 ==> data == [] && old(ToReach()) == [] && cc == old(ToStop())
    {
      if script == [] {
        return 0, [];
      }
      match script[0] {
        case Eof =>
          script := script[1..];
          return 0, [];
        case Error(code) =>
          script := script[1..];
          return ErrorCode(code), [];
        case Bytes(k) =>
          var n := Min(k + 1, Min(room, |stream|));
          TakePart(script, stream, n);
          data := stream[..n];
          stream := stream[n..];
          script := (if n == k + 1 then [] else [Bytes(k - n)]) + script[1..];
          cc := n;
      }
    }
  }

  /** Part of the first delivery is taken. */
  lemma TakePart(script: seq<Delivery>, stream: seq<Byte>, n: nat)
    requires script != [] && script[0].Bytes? && n <= script[0].k + 1 && n <= |stream| && (n == 0 ==> stream == [])
    ensures var left := (if n == script[0].k + 1 then [] else [Bytes(script[0].k - n)]) + script[1..];
      && Reachable(script, stream) == stream[..n] + Reachable(left, stream[n..])
      && Stop(left, |stream| - n) == Stop(script, |stream|)
      && (n == 0 ==> Reachable(script, stream) == [] && Stop(script, |stream|) == 0)
  {
    var k := script[0].k;
    var left := (if n == k + 1 then [] else [Bytes(k - n)]) + script[1..];
    if n == k + 1 {
      assert left == script[1..];
    } else {
      assert left[1..] == script[1..];
    }
    assert Offer(left) == Offer(script) - n;
  }

  // ---------------------------------------------------------------- buffered input

  class Input {
    const client: Client
    const buf: StreamBuffer
    var seenEof: bool

    ghost predicate Valid()
      reads this, buf
    {
      buf.Valid()
    }

    /** Everything the caller has not been given yet: what is buffered and what the
        client still has. */
    ghost function Ahead(): seq<Byte>
      requires Valid()
      reads this, buf, buf.buf, client
    {
      buf.Contents() + client.stream
    }

    /** As much of it as comes before the client's next end or error. */
    ghost function Reach(): seq<Byte>
      requires Valid()
      reads this, buf, buf.buf, client
    {
      buf.Contents() + client.ToReach()
    }

    constructor (client: Client)
      ensures Valid() && this.client == client && Ahead() == client.stream && !seenEof
      ensures Reach() == client.ToReach()
      ensures fresh(buf) && fresh(buf.buf)
    {
      this.client := client;
      buf := new StreamBuffer(DEFAULT_BUFSIZE);
      seenEof := false;
    }

    method InternalRead(len: nat) returns (ret: int)
      requires Valid() && len > 0 && len > buf.FullBytes()
      modifies this, buf, buf.buf, client
      ensures Valid() && Ahead() == old(Ahead()) && (buf.buf == old(buf.buf) || fresh(buf.buf))
      ensures ret > 0 ==> ret == Min(buf.FullBytes(), len) && |client.stream| < old(|client.stream|)
      ensures ret > 0 ==> old(buf.Contents()) < buf.Contents() && seenEof == old(seenEof)
      ensures ret <= 0 ==> buf.Contents() == old(buf.Contents()) && client.stream == old(client.stream)
      ensures seenEof == (old(seenEof) || ret == 0)
      ensures ret > 0 ==> Reach() == old(Reach()) && client.ToStop() == old(client.ToStop())
      ensures ret <= 0 ==> old(Reach()) == buf.Contents() && ret == old(client.ToStop())
    {
      ghost var reach := Reach();
      buf.Reserve(len);
      var cc, data := client.Read(buf.TailBytes());
      if cc == 0 {
        seenEof := true;
        return cc;
      }
      if cc < 0 {
        return cc;
      }
      ghost var was := buf.Contents();
      buf.Fill(data);
      assert was + (data + client.stream) == buf.Contents() + client.stream;
      assert was + (data + client.ToReach()) == buf.Contents() + client.ToReach();
      ret := Min(buf.FullBytes(), len);
    }

    /** `*buf = buf_.start(); buf_.consume(n);` */
    method Take(n: nat) returns (data: seq<Byte>)
      requires Valid() && n <= buf.FullBytes()
      modifies buf`start, buf`end
      ensures Valid() && data == old(buf.Contents())[..n] && buf.Contents() == old(buf.Contents())[n..]
      ensures buf.buf == old(buf.buf)
      ensures n <= |old(Ahead())| && data == old(Ahead())[..n] && Ahead() == old(Ahead())[n..]
      ensures n <= |old(Reach())| && data == old(Reach())[..n] && Reach() == old(Reach())[n..]
    {
      data := buf.buf[buf.start..buf.start + n];
      TakeLaw(buf.Contents(), client.stream, n);
      TakeLaw(buf.Contents(), client.ToReach(), n);
      assert data == buf.Contents()[..n];
      buf.Consume(n);
    }

    /** Where nl first matches in the buffer, or -1. */
    method FindNl(nl: seq<Byte>) returns (r: int)
      requires Valid()
      ensures r == -1 || IsFirstMatch(buf.Contents(), nl, r)
      ensures r == -1 ==> NoMatch(buf.Contents(), nl)
    {
      var s := buf.buf[buf.start..buf.end];
      var offset := 0;
      while true
        invariant offset <= |s| && forall k :: 0 <= k < offset ==> !Matches(s, nl, k)
        decreases |s| - offset
      {
        var next := MemChr(s, offset, First(nl));
        if next < 0 || |s| - next < |nl| {
          return -1;
        }
        if s[next..next + |nl|] == nl {
          return next;
        }
        offset := next + 1;
      }
    }

    /** A line with its terminator: the shortest beginning of everything still to come
        that ends in nl.  There is one exactly when nl stands in what comes before the
        client's next end or error; otherwise (`found` is false) the result is that end
        or error, and not a byte is lost: a later call finds the same line. */
    method ReadLine(nl: seq<Byte>) returns (ret: int, line: seq<Byte>, ghost found: bool)
      requires Valid()
      modifies this, buf, buf.buf, client
      ensures Valid() && (buf.buf == old(buf.buf) || fresh(buf.buf))
      ensures found ==> ret >= |nl| && IsFirstMatch(old(Ahead()), nl, ret - |nl|)
      ensures found ==> line == old(Ahead())[..ret] && Ahead() == old(Ahead())[ret..]
      ensures !found ==> ret <= 0 && line == [] && Ahead() == old(Ahead()) && NoMatch(buf.Contents(), nl)
      ensures seenEof == (old(seenEof) || (!found && ret == 0))
      ensures found <==> !NoMatch(old(Reach()), nl)
      ensures found ==> IsFirstMatch(old(Reach()), nl, ret - |nl|) && line == old(Reach())[..ret]
      ensures found ==> Reach() == old(Reach())[ret..] && client.ToStop() == old(client.ToStop())
      ensures !found ==> buf.Contents() == old(Reach()) && ret == old(client.ToStop())
    {
      ghost var ahead, reach, stop := Ahead(), Reach(), client.ToStop();
      hide IsFirstMatch, NoMatch;
      var endl := FindNl(nl);
      while endl == -1
        invariant Valid() && Ahead() == ahead && (buf.buf == old(buf.buf) || fresh(buf.buf))
        invariant Reach() == reach && client.ToStop() == stop
        invariant seenEof == old(seenEof) && (endl == -1 ==> NoMatch(buf.Contents(), nl))
        invariant endl != -1 ==> IsFirstMatch(buf.Contents(), nl, endl)
        decreases endl == -1, |client.stream|
      {
        var cc := InternalRead(buf.FullBytes() + READ_AHEAD);
        if cc <= 0 {
          return cc, [], false;
        }
        endl := FindNl(nl);
      }
      FirstMatchStable(buf.Contents(), client.stream, nl, endl);
      FirstMatchStable(buf.Contents(), client.ToReach(), nl, endl);
      FirstMatchIsMatch(reach, nl, endl);
      FirstMatchFits(buf.Contents(), nl, endl);
      ret, found := endl + |nl|, true;
      line := Take(ret);
    }

    /** len bytes, if as many come before the client's next end or error, or nothing: at
        the end of the stream the count is 0 and what is there stays in the buffer. */
    method ReadBytes(len: nat) returns (ret: int, data: seq<Byte>)
      requires Valid() && len > 0
      modifies this, buf, buf.buf, client
      ensures Valid() && (buf.buf == old(buf.buf) || fresh(buf.buf))
      ensures ret > 0 ==> ret == len <= |old(Ahead())|
      ensures ret > 0 ==> data == old(Ahead())[..len] && Ahead() == old(Ahead())[len..]
      ensures ret <= 0 ==> data == [] && Ahead() == old(Ahead()) && |buf.Contents()| < len
      ensures seenEof == (old(seenEof) || ret == 0)
      ensures ret > 0 <==> |old(Reach())| >= len
      ensures if ret > 0 then Reach() == old(Reach())[len..]
              else buf.Contents() == old(Reach()) && ret == old(client.ToStop())
    {
      ghost var ahead, reach, stop := Ahead(), Reach(), client.ToStop();
      var total := buf.FullBytes();
      while total < len
        invariant Valid() && Ahead() == ahead && (buf.buf == old(buf.buf) || fresh(buf.buf))
        invariant Reach() == reach && client.ToStop() == stop
        invariant seenEof == old(seenEof) && (total < len ==> total == buf.FullBytes())
        invariant total >= len ==> buf.FullBytes() >= len
        decreases |client.stream|
      {
        var cc := InternalRead(len);
        if cc <= 0 {
          return cc, [];
        }
        total := cc;
      }
      data := Take(len);
      ret := len;
    }

    /** Whatever is buffered, after one read if that is nothing. */
    method ReadSomeBytes() returns (ret: int, data: seq<Byte>)
      requires Valid()
      modifies this, buf, buf.buf, client
      ensures Valid() && (buf.buf == old(buf.buf) || fresh(buf.buf))
      ensures ret > 0 ==> ret <= |old(Ahead())| && data == old(Ahead())[..ret] && Ahead() == old(Ahead())[ret..]
      ensures ret > 0 ==> buf.Contents() == []
      ensures ret <= 0 ==> data == [] && Ahead() == old(Ahead())
      ensures seenEof == (old(seenEof) || ret == 0)
      ensures ret > 0 <==> old(Reach()) != []
      ensures ret <= 0 ==> ret == old(client.ToStop())
      ensures old(buf.Contents()) != [] ==> data == old(buf.Contents()) && client.stream == old(client.stream)
    {
      ghost var ahead := Ahead();
      if buf.FullBytes() == 0 {
        assert buf.start == buf.end;
        ret := InternalRead(buf.TailBytes());
        if ret <= 0 {
          return ret, [];
        }
        assert buf.FullBytes() > 0;
      }
      ret := buf.FullBytes();
      data := Take(ret);
    }
  }

  lemma FirstMatchIsMatch(s: seq<Byte>, nl: seq<Byte>, i: int)
    requires IsFirstMatch(s, nl, i)
    ensures !NoMatch(s, nl)
  {
  }

  lemma TakeLaw(a: seq<Byte>, b: seq<Byte>, n: nat)
    requires n <= |a|
    ensures (a + b)[..n] == a[..n] && (a + b)[n..] == a[n..] + b
  {
  }

  lemma FirstMatchFits(s: seq<Byte>, nl: seq<Byte>, i: int)
    requires IsFirstMatch(s, nl, i)
    ensures 0 <= i && i + |nl| <= |s|
  {
  }

  method MemChr(s: seq<Byte>, from: nat, c: Byte) returns (r: int)
    requires from <= |s|
    ensures r == -1 || (from <= r < |s| && s[r] == c && c !in s[from..r])
    ensures r == -1 ==> c !in s[from..]
  {
    var i := from;
    while i < |s|
      invariant from <= i <= |s| && c !in s[from..i]
    {
      if s[i] == c {
        return i;
      }
      i := i + 1;
    }
    return -1;
  }

  // ------------------------------------------------------- any number of lines

  /** Successive lines taken from a stream, and what is left of it. */
  ghost predicate Reads(ahead: seq<Byte>, nl: seq<Byte>, lines: seq<seq<Byte>>, rest: seq<Byte>)
    decreases |lines|
  {
    if lines == [] then ahead == rest
    else
      var n := |lines[0]|;
      && n <= |ahead| && lines[0] == ahead[..n] && IsFirstMatch(ahead, nl, n - |nl|)
      && Reads(ahead[n..], nl, lines[1..], rest)
  }

  lemma FirstMatchUnique(s: seq<Byte>, nl: seq<Byte>, i: int, j: int)
    requires IsFirstMatch(s, nl, i) && IsFirstMatch(s, nl, j)
    ensures i == j
  {
  }

  /** The lines read do not depend on how the stream was chunked, on timeouts or on
      when the reader stopped: of two readers of the same stream one has read a
      beginning of what the other has. */
  lemma {:induction false} ChunksDoNotMatter(ahead: seq<Byte>, nl: seq<Byte>, ls: seq<seq<Byte>>, rest: seq<Byte>,
                                             ms: seq<seq<Byte>>, rest': seq<Byte>)
    requires Reads(ahead, nl, ls, rest) && Reads(ahead, nl, ms, rest') && |ls| <= |ms|
    ensures ls == ms[..|ls|]
    decreases |ls|
  {
    if ls != [] {
      FirstMatchUnique(ahead, nl, |ls[0]| - |nl|, |ms[0]| - |nl|);
      ChunksDoNotMatter(ahead[|ls[0]|..], nl, ls[1..], rest, ms[1..], rest');
      assert ms[..|ls|] == [ms[0]] + ms[1..][..|ls| - 1];
      assert ls == [ls[0]] + ls[1..];
    }
  }

  lemma JoinedFirst(lines: seq<seq<Byte>>)
    requires lines != []
    ensures Joined(lines) == lines[0] + Joined(lines[1..])
  {
  }

  /** The lines and what is left are the stream: nothing is lost or made up. */
  lemma {:induction false} LinesAreTheStream(ahead: seq<Byte>, nl: seq<Byte>, lines: seq<seq<Byte>>, rest: seq<Byte>)
    requires Reads(ahead, nl, lines, rest)
    ensures Joined(lines) + rest == ahead
    decreases |lines|
  {
    if lines != [] {
      var n := |lines[0]|;
      hide IsFirstMatch;
      LinesAreTheStream(ahead[n..], nl, lines[1..], rest);
      hide Reads, Joined;
      calc {
        Joined(lines) + rest;
        { JoinedFirst(lines); }
        (lines[0] + Joined(lines[1..])) + rest;
        lines[0] + (Joined(lines[1..]) + rest);
        ahead[..n] + ahead[n..];
        ahead;
      }
    }
  }

  /** A reader's next line extends what it has read. */
  lemma {:induction false} ReadsNext(ahead: seq<Byte>, nl: seq<Byte>, lines: seq<seq<Byte>>, rest: seq<Byte>, n: nat)
    requires Reads(ahead, nl, lines, rest) && n <= |rest| && IsFirstMatch(rest, nl, n - |nl|)
    ensures Reads(ahead, nl, lines + [rest[..n]], rest[n..])
    decreases |lines|
  {
    var more := lines + [rest[..n]];
    if lines == [] {
      assert more[1..] == [];
    } else {
      ReadsNext(ahead[|lines[0]|..], nl, lines[1..], rest, n);
      assert more[1..] == lines[1..] + [rest[..n]];
    }
  }

  /** The customary loop: read lines until there is none.  The lines are all those in
      what comes before the client's next end or error, whatever the chunks. */
  method ReadLines(input: Input, nl: seq<Byte>) returns (lines: seq<seq<Byte>>, ret: int)
    requires input.Valid()
    modifies input, input.buf, input.buf.buf, input.client
    ensures input.Valid() && ret <= 0
    ensures Reads(old(input.Ahead()), nl, lines, input.Ahead())
    ensures nl != [] ==>
      && Reads(old(input.Reach()), nl, lines, input.buf.Contents()) && NoMatch(input.buf.Contents(), nl)
      && ret == old(input.client.ToStop())
  {
    ghost var ahead, reach, stop := input.Ahead(), input.Reach(), input.client.ToStop();
    lines := [];
    while true
      invariant input.Valid() && (input.buf.buf == old(input.buf.buf) || fresh(input.buf.buf))
      invariant Reads(ahead, nl, lines, input.Ahead()) && Reads(reach, nl, lines, input.Reach())
      invariant input.client.ToStop() == stop
      decreases |input.Ahead()|
    {
      ghost var before, near := input.Ahead(), input.Reach();
      var line;
      ghost var found;
      ret, line, found := input.ReadLine(nl);
      if ret <= 0 {
        assert before[0..] == before && near[0..] == near;
        return;
      }
      ReadsNext(ahead, nl, lines, before, ret);
      ReadsNext(reach, nl, lines, near, ret);
      lines := lines + [line];
    }
  }
}
