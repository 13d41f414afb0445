/** The marshalling actions as they run: a buffer handed out slice by slice, fixed or
    growing, an error flag that sticks, and values assigned one by one. */
module MarshalActions {
  import opened Common
  import opened Records
  import opened Marshal

  // ------------------------------------------------------------ slices that fit

  /** How many of the slices are written into `room` bytes: those before the first
      that does not fit (all of them into a growing buffer). */
  function Fitting(ss: seq<seq<Byte>>, room: Option<nat>): (n: nat)
    ensures n <= |ss|
  {
    if ss == [] || (room.Some? && |ss[0]| > room.value) then 0 else 1 + Fitting(ss[1..], Less(room, |ss[0]|))
  }

  function Less(room: Option<nat>, n: nat): Option<nat> {
    if room.None? || n > room.value then room else Some(room.value - n)
  }

  /** Everything is written exactly when it fits as a whole; what is written is made
      of whole slices, and stays within the buffer. */
  lemma {:induction false} FittingExactly(ss: seq<seq<Byte>>, room: Option<nat>)
    ensures Fitting(ss, room) == |ss| <==> room.None? || |Joined(ss)| <= room.value
    ensures Joined(ss[..Fitting(ss, room)]) <= Joined(ss)
    ensures room.Some? ==> |Joined(ss[..Fitting(ss, room)])| <= room.value
    decreases ss
  {
    if ss != [] && (room.None? || |ss[0]| <= room.value) {
      var n := Fitting(ss, room);
      FittingExactly(ss[1..], Less(room, |ss[0]|));
      assert ss[..n][1..] == ss[1..][..n - 1];
    }
  }

  lemma {:induction false} FittingJoin(a: seq<seq<Byte>>, b: seq<seq<Byte>>, room: Option<nat>)
    ensures Fitting(a + b, room) ==
      if Fitting(a, room) == |a| then |a| + Fitting(b, Less(room, |Joined(a)|)) else Fitting(a, room)
    decreases a
  {
    if a == [] {
      assert a + b == b;
    } else {
      assert (a + b)[1..] == a[1..] + b;
      if room.None? || |a[0]| <= room.value {
        FittingExactly(a[1..], Less(room, |a[0]|));
        FittingJoin(a[1..], b, Less(room, |a[0]|));
      }
    }
  }

  /** What asking for the slices ss does, from `was` without an error: `now` is what
      has been written. */
  ghost predicate Outcome(was: seq<Byte>, room: Option<nat>, ss: seq<seq<Byte>>, now: seq<Byte>, error: bool) {
    var n := Fitting(ss, room);
    now == was + Joined(ss[..n]) && error == (n < |ss|)
  }

  lemma OutcomeNothing(was: seq<Byte>, room: Option<nat>)
    ensures Outcome(was, room, [], was, false)
  {
    assert was + [] == was;
  }

  lemma OutcomeOne(was: seq<Byte>, room: Option<nat>, s: seq<Byte>)
    ensures Outcome(was, room, [s], if room.None? || |s| <= room.value then was + s else was,
                    room.Some? && |s| > room.value)
  {
    Join1(s);
    assert [s][..1] == [s] && [s][..0] == [] && was + [] == was;
    assert Fitting([s][1..], Less(room, |s|)) == 0;
  }

  lemma OutcomeFull(was: seq<Byte>, room: Option<nat>, a: seq<seq<Byte>>, mid: seq<Byte>)
    requires Outcome(was, room, a, mid, false)
    ensures Fitting(a, room) == |a| && mid == was + Joined(a)
  {
    assert a[..|a|] == a;
  }

  lemma JoinedPrefix(a: seq<seq<Byte>>, b: seq<seq<Byte>>, k: nat)
    requires k <= |b|
    ensures Joined((a + b)[..|a| + k]) == Joined(a) + Joined(b[..k])
  {
    assert (a + b)[..|a| + k] == a + b[..k];
    JoinedJoin(a, b[..k]);
  }

  lemma OutcomeIs(was: seq<Byte>, room: Option<nat>, ss: seq<seq<Byte>>, now: seq<Byte>, error: bool, n: nat)
    requires n == Fitting(ss, room)
    ensures n <= |ss|
    ensures Outcome(was, room, ss, now, error) <==> now == was + Joined(ss[..n]) && error == (n < |ss|)
  {
  }

  /** One thing after another; after an error nothing more happens. */
  lemma OutcomeJoin(was: seq<Byte>, room: Option<nat>, a: seq<seq<Byte>>, mid: seq<Byte>,
                    b: seq<seq<Byte>>, now: seq<Byte>, error: bool)
    requires Outcome(was, room, a, mid, false) && Outcome(mid, Less(room, |Joined(a)|), b, now, error)
    ensures mid == was + Joined(a) && Outcome(was, room, a + b, now, error)
  {
    hide *;
    OutcomeFull(was, room, a, mid);
    var k := Fitting(b, Less(room, |Joined(a)|));
    FittingJoin(a, b, room);
    OutcomeIs(mid, Less(room, |Joined(a)|), b, now, error, k);
    JoinedPrefix(a, b, k);
    Associate(was, Joined(a), Joined(b[..k]));
    OutcomeIs(was, room, a + b, now, error, |a| + k);
  }

  lemma Associate(a: seq<Byte>, b: seq<Byte>, c: seq<Byte>)
    ensures (a + b) + c == a + (b + c)
  {
  }

  lemma OutcomeStop(was: seq<Byte>, room: Option<nat>, a: seq<seq<Byte>>, b: seq<seq<Byte>>, now: seq<Byte>)
    requires Outcome(was, room, a, now, true)
    ensures Outcome(was, room, a + b, now, true)
  {
    FittingJoin(a, b, room);
    assert (a + b)[..Fitting(a, room)] == a[..Fitting(a, room)];
  }

  // -------------------------------------------------------------------- marshalling

  /** The buffer, the offset, the error flag, and whether the buffer grows. */
  datatype Target = Target(buf: seq<Byte>, offset: nat, error: bool, expandable: bool)

  ghost predicate Within(t: Target) {
    t.offset <= |t.buf|
  }

  ghost function Room(t: Target): Option<nat>
    requires Within(t)
  {
    if t.expandable then None else Some(|t.buf| - t.offset)
  }

  /** What asking for the slices ss makes of s: after an error nothing; otherwise they
      are written as far as they fit.  Nothing behind the new offset is touched. */
  ghost predicate Writes(s: Target, ss: seq<seq<Byte>>, t: Target)
    requires Within(s)
  {
    && Within(t) && t.expandable == s.expandable
    && (s.error ==> t.error && t.offset == s.offset && t.buf[..t.offset] == s.buf[..s.offset])
    && (!s.error ==> Outcome(s.buf[..s.offset], Room(s), ss, t.buf[..t.offset], t.error))
    && (!s.expandable ==> |t.buf| == |s.buf| && t.offset >= s.offset && t.buf[t.offset..] == s.buf[t.offset..])
  }

  lemma WritesNothing(s: Target)
    requires Within(s)
    ensures Writes(s, [], s)
  {
    OutcomeNothing(s.buf[..s.offset], Room(s));
  }

  lemma RoomLeft(s: Target, a: seq<seq<Byte>>, t: Target)
    requires Within(s) && Writes(s, a, t) && !t.error
    ensures !s.error && Room(t) == Less(Room(s), |Joined(a)|)
  {
    OutcomeFull(s.buf[..s.offset], Room(s), a, t.buf[..t.offset]);
    FittingExactly(a, Room(s));
  }

  lemma WritesJoin(s: Target, a: seq<seq<Byte>>, t: Target, b: seq<seq<Byte>>, u: Target)
    requires Within(s) && Writes(s, a, t) && Writes(t, b, u)
    ensures Writes(s, a + b, u)
  {
    hide Outcome, Joined, Less;
    if !t.error {
      RoomLeft(s, a, t);
      OutcomeJoin(s.buf[..s.offset], Room(s), a, t.buf[..t.offset], b, u.buf[..u.offset], u.error);
    } else if !s.error {
      OutcomeStop(s.buf[..s.offset], Room(s), a, b, t.buf[..t.offset]);
    }
    Behind(s, t, u);
  }

  lemma Behind(s: Target, t: Target, u: Target)
    requires Within(s) && Within(t) && Within(u)
    requires !s.expandable ==> |t.buf| == |s.buf| && t.offset >= s.offset && t.buf[t.offset..] == s.buf[t.offset..]
    requires !s.expandable ==> |u.buf| == |t.buf| && u.offset >= t.offset && u.buf[u.offset..] == t.buf[u.offset..]
    ensures !s.expandable ==> u.buf[u.offset..] == s.buf[u.offset..]
  {
    if !s.expandable {
      assert t.buf[u.offset..] == t.buf[t.offset..][u.offset - t.offset..];
      assert s.buf[u.offset..] == s.buf[t.offset..][u.offset - t.offset..];
    }
  }

  class MarshalAction {
    const expandable: bool
    var buf: array<Byte>
    var offset: nat
    var error: bool

    ghost predicate Valid()
      reads this
    {
      offset <= buf.Length
    }

    ghost function Value(): (t: Target)
      requires Valid()
      reads this, buf
      ensures Within(t)
    {
      Target(buf[..], offset, error, expandable)
    }

    constructor Fixed(buf: array<Byte>)
      ensures Valid() && this.buf == buf && Value() == Target(buf[..], 0, false, false)
    {
      this.buf, offset, error, expandable := buf, 0, false, false;
    }

    constructor Expandable()
      ensures Valid() && fresh(buf) && offset == 0 && !error && expandable
    {
      buf := new Byte[16](_ => 0);
      offset, error, expandable := 0, false, true;
    }

    /** `tail_buf`: room for n more bytes behind the offset. */
    method Grow(n: nat)
      requires Valid() && expandable
      modifies this`buf
      ensures Valid() && buf[..offset] == old(buf[..offset]) && offset + n <= buf.Length
      ensures buf == old(buf) || fresh(buf)
    {
      if offset + n <= buf.Length {
        return;
      }
      var bigger := new Byte[(offset + n) * 2](_ => 0);
      var i := 0;
      while i < offset
        invariant i <= offset && bigger[..i] == buf[..i]
        modifies bigger
      {
        bigger[i] := buf[i];
        i := i + 1;
      }
      buf := bigger;
    }

    method Copy(s: seq<Byte>)
      requires offset + |s| <= buf.Length
      modifies buf
      ensures buf[..offset + |s|] == old(buf[..offset]) + s && buf[offset + |s|..] == old(buf[offset + |s|..])
    {
      var i := 0;
      while i < |s|
        invariant i <= |s| && buf[..offset] == old(buf[..offset]) && buf[offset..offset + i] == s[..i]
        invariant buf[offset + |s|..] == old(buf[offset + |s|..])
      {
        buf[offset + i] := s[i];
        i := i + 1;
      }
      assert buf[..offset + |s|] == buf[..offset] + buf[offset..offset + |s|];
    }

    /** `next_slice`, and the bytes copied into it: the error flag is set, for good,
        when a fixed buffer has no room. */
    method Put(s: seq<Byte>)
      requires Valid()
      modifies this`buf, this`offset, this`error, buf
      ensures Valid() && (buf == old(buf) || (expandable && fresh(buf)))
      ensures Writes(old(Value()), [s], Value())
    {
      OutcomeOne(buf[..offset], Room(Value()), s);
      hide Outcome;
      if error {
        return;
      }
      if expandable {
        Grow(|s|);
      } else if offset + |s| > buf.Length {
        error := true;
        return;
      }
      Copy(s);
      offset := offset + |s|;
    }

    /** One field: its slices, one after the other. */
    method Process(v: Value, k: Kind)
      requires Valid() && HasKind(v, k)
      modifies this`buf, this`offset, this`error, buf
      ensures Valid() && (buf == old(buf) || (expandable && fresh(buf)))
      ensures Writes(old(Value()), Slices(v, k), Value())
      decreases k, 0
    {
      hide Writes, BigEndian, AllSlices, Within;
      match k {
        case Int(w) => Put(BigEndian(v.n, w));
        case Bool => Put([if v.b then 1 else 0]);
        case Fixed(_) => Put(v.s);
        case Carrier => PutCounted(v.s);
        case Terminated(t) =>
          var len := 0;
          while v.s[len] != t
            invariant len < |v.s|
            decreases |v.s| - len
          {
            len := len + 1;
          }
          assert v.s[..len + 1] == v.s;
          Put(v.s[..len + 1]);
        case Str => PutCounted(v.s);
        case Object(fields) => Serialize(v.fs, fields);
      }
    }

    /** A length and as many bytes. */
    method PutCounted(s: seq<Byte>)
      requires Valid()
      modifies this`buf, this`offset, this`error, buf
      ensures Valid() && (buf == old(buf) || (expandable && fresh(buf)))
      ensures Writes(old(Value()), [BigEndian(|s|, 4), s], Value())
    {
      hide Writes, BigEndian, Within;
      ghost var t0 := Value();
      Put(BigEndian(|s|, 4));
      ghost var t1 := Value();
      Put(s);
      WritesJoin(t0, [BigEndian(|s|, 4)], t1, [s], Value());
      assert [BigEndian(|s|, 4)] + [s] == [BigEndian(|s|, 4), s];
    }

    /** `serialize`: the fields one after the other. */
    method Serialize(vs: seq<Value>, ks: seq<Kind>)
      requires Valid() && HasKinds(vs, ks)
      modifies this`buf, this`offset, this`error, buf
      ensures Valid() && (buf == old(buf) || (expandable && fresh(buf)))
      ensures Writes(old(Value()), AllSlices(vs, ks), Value())
      decreases ks
    {
      hide Writes, Slices, HasKind, Within;
      ghost var t0 := Value();
      if ks == [] {
        WritesNothing(t0);
      } else {
        Process(vs[0], ks[0]);
        ghost var t1 := Value();
        Serialize(vs[1..], ks[1..]);
        WritesJoin(t0, Slices(vs[0], ks[0]), t1, AllSlices(vs[1..], ks[1..]), Value());
      }
    }

    /** `action` with the checksum option or without: the fields, then the checksum
        of what has been written. */
    method Action(vs: seq<Value>, ks: seq<Kind>, crc: Option<seq<Byte> -> Crc>) returns (code: int)
      requires Valid() && HasKinds(vs, ks) && offset == 0
      modifies this`buf, this`offset, this`error, buf
      ensures Valid() && (buf == old(buf) || (expandable && fresh(buf)))
      ensures Writes(old(Value()).(error := false), SealedSlices(vs, ks, crc), Value())
      ensures code == if error then -1 else 0
    {
      hide Writes, Within, SealedSlices;
      error := false;
      ghost var t0 := Value();
      Serialize(vs, ks);
      ghost var t1 := Value();
      if crc.Some? {
        var sum: nat := crc.value(buf[..offset]);
        Put(BigEndian(sum, 4));
        SealJoin(t0, vs, ks, crc, t1, BigEndian(sum, 4), Value());
      } else {
        SealNothing(vs, ks, crc);
      }
      code := if error then -1 else 0;
    }
  }

  /** The slices of an object and, with the option, of its checksum. */
  function SealedSlices(vs: seq<Value>, ks: seq<Kind>, crc: Option<seq<Byte> -> Crc>): seq<seq<Byte>>
    requires HasKinds(vs, ks)
  {
    AllSlices(vs, ks) + if crc.Some? then [BigEndian(crc.value(Flat(vs, ks)), 4)] else []
  }

  lemma SealNothing(vs: seq<Value>, ks: seq<Kind>, crc: Option<seq<Byte> -> Crc>)
    requires HasKinds(vs, ks) && crc.None?
    ensures SealedSlices(vs, ks, crc) == AllSlices(vs, ks)
  {
  }

  lemma SealJoin(s: Target, vs: seq<Value>, ks: seq<Kind>, crc: Option<seq<Byte> -> Crc>, t: Target,
                 sum: seq<Byte>, u: Target)
    requires HasKinds(vs, ks) && crc.Some? && Within(s) && s.offset == 0 && !s.error
    requires Writes(s, AllSlices(vs, ks), t) && Writes(t, [sum], u)
    requires sum == BigEndian(crc.value(t.buf[..t.offset]), 4)
    ensures Writes(s, SealedSlices(vs, ks, crc), u)
  {
    if t.error {
      FailedStays(s, AllSlices(vs, ks), t, [sum], u, [BigEndian(crc.value(Flat(vs, ks)), 4)]);
    } else {
      OutcomeFull([], Room(s), AllSlices(vs, ks), t.buf[..t.offset]);
      assert s.buf[..0] == [] && [] + Flat(vs, ks) == Flat(vs, ks);
      WritesJoin(s, AllSlices(vs, ks), t, [sum], u);
    }
  }

  /** After an error it does not matter what would have come next. */
  lemma FailedStays(s: Target, a: seq<seq<Byte>>, t: Target, b: seq<seq<Byte>>, u: Target, c: seq<seq<Byte>>)
    requires Within(s) && !s.error && Writes(s, a, t) && t.error && Writes(t, b, u)
    ensures Writes(s, a + c, u)
  {
    hide Outcome, Joined;
    OutcomeStop(s.buf[..s.offset], Room(s), a, c, t.buf[..t.offset]);
    Behind(s, t, u);
  }

  /** The size of the whole, as MarshalSize computes it. */
  function SealedSize(vs: seq<Value>, ks: seq<Kind>, crc: bool): nat
    requires HasKinds(vs, ks)
  {
    TotalSize(vs, ks) + if crc then 4 else 0
  }

  function Whole(vs: seq<Value>, ks: seq<Kind>, crc: Option<seq<Byte> -> Crc>): seq<Byte>
    requires HasKinds(vs, ks)
  {
    if crc.Some? then Sealed(Flat(vs, ks), crc.value) else Flat(vs, ks)
  }

  lemma WholeIs(vs: seq<Value>, ks: seq<Kind>, crc: Option<seq<Byte> -> Crc>)
    requires HasKinds(vs, ks)
    ensures Joined(SealedSlices(vs, ks, crc)) == Whole(vs, ks, crc)
    ensures |Whole(vs, ks, crc)| == SealedSize(vs, ks, crc.Some?)
  {
    hide Joined, AllSlices, BigEndian;
    SizeIsExact(vs, ks);
    if crc.Some? {
      var sum := BigEndian(crc.value(Flat(vs, ks)), 4);
      JoinedJoin(AllSlices(vs, ks), [sum]);
      Join1(sum);
    } else {
      SealNothing(vs, ks, crc);
    }
  }

  /** Marshalling into a fixed buffer succeeds exactly when the size computed
      beforehand is at most its length, and then ends at that offset with the whole
      object in front of it; otherwise whole slices of its beginning have been
      written.  Either way nothing behind the offset is touched. */
  method MarshalFixed(buf: array<Byte>, vs: seq<Value>, ks: seq<Kind>, crc: Option<seq<Byte> -> Crc>)
    returns (code: int, offset: nat, ghost n: nat)
    requires HasKinds(vs, ks)
    modifies buf
    ensures code == 0 <==> SealedSize(vs, ks, crc.Some?) <= buf.Length
    ensures code == 0 ==> offset == SealedSize(vs, ks, crc.Some?) <= buf.Length && buf[..offset] == Whole(vs, ks, crc)
    ensures code != 0 ==> code == -1 && n < |SealedSlices(vs, ks, crc)| && offset <= buf.Length
    ensures code != 0 ==> buf[..offset] == Joined(SealedSlices(vs, ks, crc)[..n])
    ensures offset <= buf.Length && buf[offset..] == old(buf[..])[offset..]
  {
    hide SealedSlices, Joined, Whole, SealedSize;
    var m := new MarshalAction.Fixed(buf);
    ghost var before := m.Value();
    code := m.Action(vs, ks, crc);
    offset := m.offset;
    WholeIs(vs, ks, crc);
    n := FixedLaw(before, SealedSlices(vs, ks, crc), m.Value());
  }

  lemma FixedLaw(s: Target, ss: seq<seq<Byte>>, t: Target) returns (n: nat)
    requires Within(s) && s.offset == 0 && !s.error && !s.expandable && Writes(s, ss, t)
    ensures !t.error <==> |Joined(ss)| <= |s.buf|
    ensures t.offset <= |t.buf| == |s.buf| && t.buf[t.offset..] == s.buf[t.offset..]
    ensures !t.error ==> t.offset == |Joined(ss)| && t.buf[..t.offset] == Joined(ss)
    ensures n <= |ss| && t.buf[..t.offset] == Joined(ss[..n]) && (t.error ==> n < |ss|)
  {
    n := Fitting(ss, Room(s));
    FittingExactly(ss, Room(s));
    assert s.buf[..0] == [] && [] + Joined(ss[..n]) == Joined(ss[..n]);
    if !t.error {
      OutcomeFull([], Room(s), ss, t.buf[..t.offset]);
      assert [] + Joined(ss) == Joined(ss);
    }
  }

  // ------------------------------------------------------------------------ sizing

  class SizeAction {
    var size: nat

    constructor ()
      ensures size == 0
    {
      size := 0;
    }

    method Process(v: Value, k: Kind)
      requires HasKind(v, k)
      modifies this
      ensures size == old(size) + Size(v, k)
      decreases k, 0
    {
      match k {
        case Int(w) => size := size + w;
        case Bool => size := size + 1;
        case Fixed(len) => size := size + len;
        case Carrier =>
          size := size + 4;
          size := size + |v.s|;
        case Terminated(t) =>
          var len := 0;
          while v.s[len] != t
            invariant len < |v.s| && size == old(size)
            decreases |v.s| - len
          {
            len := len + 1;
          }
          size := size + len + 1;
        case Str => size := size + |v.s| + 4;
        case Object(fields) => Serialize(v.fs, fields);
      }
    }

    method Serialize(vs: seq<Value>, ks: seq<Kind>)
      requires HasKinds(vs, ks)
      modifies this
      ensures size == old(size) + TotalSize(vs, ks)
      decreases ks
    {
      if ks != [] {
        Process(vs[0], ks[0]);
        Serialize(vs[1..], ks[1..]);
      }
    }

    method Action(vs: seq<Value>, ks: seq<Kind>, crc: bool)
      requires HasKinds(vs, ks)
      modifies this
      ensures size == old(size) + SealedSize(vs, ks, crc)
    {
      if crc {
        size := size + 4;
      }
      Serialize(vs, ks);
    }
  }

  // ------------------------------------------------------------------ unmarshalling

  class UnmarshalAction {
    const buf: seq<Byte>
    var offset: nat
    var error: bool

    predicate Valid()
      reads this
    {
      offset <= |buf|
    }

    constructor (buf: seq<Byte>)
      ensures Valid() && this.buf == buf && offset == 0 && !error
    {
      this.buf, offset, error := buf, 0, false;
    }

    /** `next_slice` in a fixed buffer; the slice is empty after an error. */
    method NextSlice(n: nat) returns (s: seq<Byte>)
      requires Valid()
      modifies this
      ensures Valid()
      ensures old(error) ==> error && s == [] && offset == old(offset)
      ensures !old(error) ==>
        var r := ReadBytes(buf, old(offset), n);
        if r.Failed? then error else !error && offset == r.cur && s == r.value
    {
      if error {
        return [];
      }
      if offset + n > |buf| {
        error := true;
        return [];
      }
      s := buf[offset..offset + n];
      offset := offset + n;
    }

    method ProcessInt(w: nat) returns (n: nat)
      requires Valid()
      modifies this
      ensures Valid()
      ensures old(error) ==> error
      ensures !old(error) ==>
        var r := ReadInt(buf, old(offset), w);
        if r.Failed? then error else !error && offset == r.cur && n == r.value
    {
      var s := NextSlice(w);
      n := FromBig(s);
    }

    method ProcessCounted() returns (s: seq<Byte>)
      requires Valid()
      modifies this
      ensures Valid()
      ensures old(error) ==> error
      ensures !old(error) ==>
        var r := ReadCounted(buf, old(offset));
        if r.Failed? then error else !error && offset == r.cur && s == r.value
    {
      var len := ProcessInt(4);
      s := NextSlice(len);
    }

    /** Byte by byte up to and including the terminator. */
    method ProcessTerminated(t: Byte) returns (v: Value)
      requires Valid() && !error
      modifies this
      ensures Valid()
      ensures var n := ToTerminator(buf, old(offset), t);
        if n.None? then error
        else !error && offset == old(offset) + n.value <= |buf| && v == Overlong(buf[old(offset)..offset])
    {
      ghost var start := offset;
      v := Overlong([]);
      var bytes: seq<Byte> := [];
      while true
        invariant !error && start <= offset <= |buf| && bytes == buf[start..offset]
        invariant ToTerminator(buf, start, t) ==
          var n := ToTerminator(buf, offset, t); if n.None? then None else Some(offset - start + n.value)
        decreases |buf| - offset
      {
        var c := NextSlice(1);
        if error {
          return;
        }
        bytes := bytes + c;
        if c[0] == t {
          break;
        }
      }
      v := Overlong(bytes);
    }

    method Process(k: Kind) returns (v: Value)
      requires ProperKind(k)
      requires Valid()
      modifies this
      ensures Valid()
      ensures old(error) ==> error
      ensures !old(error) ==>
        var r := Unmarshalled(buf, old(offset), k);
        if r.Failed? then error else !error && offset == r.cur && v == r.value
      decreases k, 0
    {
      v := Flag(false);
      if error {
        return;
      }
      match k {
        case Int(w) =>
          var n := ProcessInt(w);
          v := Num(n);
        case Bool =>
          var s := NextSlice(1);
          if !error {
            v := Flag(s[0] != 0);
          }
        case Fixed(len) =>
          var s := NextSlice(len);
          v := Bytes(s);
        case Carrier =>
          var s := ProcessCounted();
          v := Bytes(s);
        case Terminated(t) =>
          v := ProcessTerminated(t);
        case Str =>
          var s := ProcessCounted();
          v := Bytes(s);
        case Object(fields) =>
          var fs := Serialize(fields);
          v := Fields(fs);
      }
    }

    method Serialize(ks: seq<Kind>) returns (vs: seq<Value>)
      requires ProperKinds(ks)
      requires Valid()
      modifies this
      ensures Valid()
      ensures old(error) ==> error
      ensures !old(error) ==>
        var r := AllUnmarshalled(buf, old(offset), ks);
        if r.Failed? then error else !error && offset == r.cur && vs == r.value
      decreases ks
    {
      vs := [];
      if ks != [] {
        var v := Process(ks[0]);
        var rest := Serialize(ks[1..]);
        vs := [v] + rest;
      }
    }

    /** `action` with the checksum option: the check comes first, and its verdict
        counts only when a log is set. */
    method CheckedRun(ks: seq<Kind>, crc: seq<Byte> -> Crc, logging: bool) returns (code: int, vs: seq<Value>)
      requires ProperKinds(ks) && |buf| >= 4 && offset == 0
      modifies this
      ensures code == 0 || code == -1
      ensures code == 0 <==> CheckedAction(buf, ks, crc, logging).Some?
      ensures code == 0 ==> vs == CheckedAction(buf, ks, crc, logging).value
    {
      error := false;
      var found := FromBig(buf[|buf| - 4..]);
      if crc(buf[..|buf| - 4]) != found {
        if logging {
          error := true;
        }
      }
      vs := Serialize(ks);
      code := if error then -1 else 0;
    }
  }

  /** `MarshalCopy`: through a growing buffer that never fails; the copy is equal
      exactly when no field is a terminated buffer. */
  method Copy(src: seq<Value>, ks: seq<Kind>) returns (dst: seq<Value>, size: nat)
    requires HasKinds(src, ks)
    ensures dst == AllReceived(src, ks) && (dst == src <==> !AnyTerminated(ks))
    ensures size == TotalSize(src, ks)
  {
    var m := new MarshalAction.Expandable();
    ghost var before := m.Value();
    var code := m.Action(src, ks, None);
    GrowingLaw(before, src, ks, m.Value());
    assert code == 0;
    var flat := m.buf[..m.offset];
    var u := new UnmarshalAction(flat);
    AllReceivedExactly(src, ks);
    assert flat[0..0 + |flat|] == flat;
    FlatBack(flat, 0, src, ks);
    SizeIsExact(src, ks);
    hide *;
    dst := u.Serialize(ks);
    size := |flat|;
  }

  lemma GrowingLaw(s: Target, vs: seq<Value>, ks: seq<Kind>, t: Target)
    requires HasKinds(vs, ks) && Within(s) && s.offset == 0 && s.expandable
    requires Writes(s.(error := false), SealedSlices(vs, ks, None), t)
    ensures !t.error && t.offset <= |t.buf| && t.buf[..t.offset] == Flat(vs, ks)
  {
    SealNothing(vs, ks, None);
    FittingExactly(AllSlices(vs, ks), None);
    OutcomeFull(s.buf[..0], None, AllSlices(vs, ks), t.buf[..t.offset]);
    assert s.buf[..0] + Flat(vs, ks) == Flat(vs, ks);
  }
}
