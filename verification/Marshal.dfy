/** Flat binary records: what is written for a schema, what is read back, how large
    it is, and the checksum behind it. */
module Marshal {
  import opened Arithmetic
  import opened Common
  import opened Records

  // -------------------------------------------------------------- big-endian

  function BigEndian(v: nat, w: nat): (s: seq<Byte>)
    ensures |s| == w
  {
    if w == 0 then [] else BigEndian(v / 256, w - 1) + [v % 256]
  }

  function FromBig(s: seq<Byte>): nat {
    if s == [] then 0 else 256 * FromBig(s[..|s| - 1]) + s[|s| - 1]
  }

  lemma {:induction false} BigEndianBack(v: nat, w: nat)
    requires v < Power(256, w)
    ensures FromBig(BigEndian(v, w)) == v
  {
    if w > 0 {
      assert v / 256 < Power(256, w - 1);
      BigEndianBack(v / 256, w - 1);
      FromBigEnd(BigEndian(v / 256, w - 1), v % 256);
    }
  }

  /** The most significant byte comes first. */
  lemma {:induction false} BigEndianByte(v: nat, w: nat, i: nat)
    requires i < w
    ensures BigEndian(v, w)[i] == v / Power(256, w - 1 - i) % 256
    decreases w
  {
    if i < w - 1 {
      BigEndianByte(v / 256, w - 1, i);
      DivideTwice(v, 256, Power(256, w - 2 - i));
    } else {
      assert Power(256, 0) == 1;
    }
  }

  /** Any bytes are those of the number they are read as. */
  lemma {:induction false} FromBigBack(s: seq<Byte>)
    ensures FromBig(s) < Power(256, |s|) && BigEndian(FromBig(s), |s|) == s
  {
    if s != [] {
      var init, last := s[..|s| - 1], s[|s| - 1];
      FromBigBack(init);
      hide BigEndian;
      QuotientIsUnique(256 * FromBig(init) + last, 256, FromBig(init), last);
      assert s == init + [last];
      BigEndianEnd(FromBig(s), |s|);
    }
  }

  lemma BigEndianEnd(v: nat, w: nat)
    requires w > 0
    ensures BigEndian(v, w) == BigEndian(v / 256, w - 1) + [v % 256]
  {
  }

  lemma FromBigEnd(s: seq<Byte>, b: Byte)
    ensures FromBig(s + [b]) == 256 * FromBig(s) + b
  {
    assert (s + [b])[..|s|] == s;
  }

  // ---------------------------------------------------------------- what is written

  /** The slices of the buffer a field asks for, one after the other. */
  function Slices(v: Value, k: Kind): seq<seq<Byte>>
    requires HasKind(v, k)
    decreases k, 0
  {
    match k
    case Int(w) => [BigEndian(v.n, w)]
    case Bool => [[if v.b then 1 else 0]]
    case Fixed(_) => [v.s]
    case Carrier => [BigEndian(|v.s|, 4), v.s]
    case Terminated(_) => [v.s]
    case Str => [BigEndian(|v.s|, 4), v.s]
    case Object(fields) => AllSlices(v.fs, fields)
  }

  function AllSlices(vs: seq<Value>, ks: seq<Kind>): seq<seq<Byte>>
    requires HasKinds(vs, ks)
    decreases ks
  {
    if ks == [] then [] else Slices(vs[0], ks[0]) + AllSlices(vs[1..], ks[1..])
  }

  lemma {:induction false} JoinedJoin(a: seq<seq<Byte>>, b: seq<seq<Byte>>)
    ensures Joined(a + b) == Joined(a) + Joined(b)
  {
    if a == [] {
      assert a + b == b;
    } else {
      assert (a + b)[1..] == a[1..] + b;
      JoinedJoin(a[1..], b);
    }
  }

  /** The flat form of an object. */
  function Flat(vs: seq<Value>, ks: seq<Kind>): seq<Byte>
    requires HasKinds(vs, ks)
  {
    Joined(AllSlices(vs, ks))
  }

  // -------------------------------------------------------------------- its size

  /** What `MarshalSize` adds up. */
  function Size(v: Value, k: Kind): nat
    requires HasKind(v, k)
    decreases k, 0
  {
    match k
    case Int(w) => w
    case Bool => 1
    case Fixed(len) => len
    case Carrier => 4 + |v.s|
    case Terminated(_) => |v.s|
    case Str => |v.s| + 4
    case Object(fields) => TotalSize(v.fs, fields)
  }

  function TotalSize(vs: seq<Value>, ks: seq<Kind>): nat
    requires HasKinds(vs, ks)
    decreases ks
  {
    if ks == [] then 0 else Size(vs[0], ks[0]) + TotalSize(vs[1..], ks[1..])
  }

  lemma Join1(a: seq<Byte>)
    ensures Joined([a]) == a
  {
    assert [a][1..] == [] && a + [] == a;
  }

  lemma Join2(a: seq<Byte>, b: seq<Byte>)
    ensures Joined([a, b]) == a + b
  {
    assert [a, b][1..] == [b];
    Join1(b);
  }

  /** The flat form of one field. */
  lemma FieldForm(v: Value, k: Kind)
    requires HasKind(v, k)
    ensures Joined(Slices(v, k)) ==
      match k
      case Int(w) => BigEndian(v.n, w)
      case Bool => [if v.b then 1 else 0]
      case Fixed(_) => v.s
      case Carrier => BigEndian(|v.s|, 4) + v.s
      case Terminated(_) => v.s
      case Str => BigEndian(|v.s|, 4) + v.s
      case Object(fields) => Flat(v.fs, fields)
  {
    hide Joined, BigEndian, AllSlices;
    match k
    case Int(w) => Join1(BigEndian(v.n, w));
    case Bool => Join1([if v.b then 1 else 0]);
    case Fixed(_) => Join1(v.s);
    case Carrier => Join2(BigEndian(|v.s|, 4), v.s);
    case Terminated(_) => Join1(v.s);
    case Str => Join2(BigEndian(|v.s|, 4), v.s);
    case Object(fields) =>
  }

  lemma FlatStep(vs: seq<Value>, ks: seq<Kind>)
    requires HasKinds(vs, ks) && ks != []
    ensures |vs| == |ks| && HasKind(vs[0], ks[0]) && HasKinds(vs[1..], ks[1..])
    ensures Flat(vs, ks) == Joined(Slices(vs[0], ks[0])) + Flat(vs[1..], ks[1..])
  {
    hide Slices, Joined;
    JoinedJoin(Slices(vs[0], ks[0]), AllSlices(vs[1..], ks[1..]));
  }

  /** MarshalSize is exact. */
  lemma {:induction false} SizeIsExact(vs: seq<Value>, ks: seq<Kind>)
    requires HasKinds(vs, ks)
    ensures TotalSize(vs, ks) == |Flat(vs, ks)|
    decreases ks
  {
    if ks != [] {
      FlatStep(vs, ks);
      hide Flat, Slices, Joined;
      FieldSizeIsExact(vs[0], ks[0]);
      SizeIsExact(vs[1..], ks[1..]);
    }
  }

  lemma {:induction false} FieldSizeIsExact(v: Value, k: Kind)
    requires HasKind(v, k)
    ensures Size(v, k) == |Joined(Slices(v, k))|
    decreases k, 0
  {
    FieldForm(v, k);
    if k.Object? {
      SizeIsExact(v.fs, k.fields);
    }
  }

  // -------------------------------------------------------------------- reading

  function ReadInt(buf: seq<Byte>, off: nat, w: nat): Read<nat> {
    if off + w > |buf| then Failed else Got(FromBig(buf[off..off + w]), off + w)
  }

  function ReadCounted(buf: seq<Byte>, off: nat): Read<seq<Byte>> {
    var len := ReadInt(buf, off, 4);
    if len.Failed? then Failed else ReadBytes(buf, len.cur, len.value)
  }

  /** How far the first terminator is, itself included. */
  function ToTerminator(buf: seq<Byte>, off: nat, t: Byte): Option<nat>
    decreases |buf| - off
  {
    if off >= |buf| then None
    else if buf[off] == t then Some(1)
    else
      var n := ToTerminator(buf, off + 1, t);
      if n.None? then None else Some(1 + n.value)
  }

  /** Unmarshalling one field.  A terminated buffer is made a carrier whose length
      counts one more byte than was read. */
  function Unmarshalled(buf: seq<Byte>, off: nat, k: Kind): Read<Value>
    requires ProperKind(k)
    decreases k, 0
  {
    match k
    case Int(w) =>
      var r := ReadInt(buf, off, w);
      if r.Failed? then Failed else Got(Num(r.value), r.cur)
    case Bool => if off + 1 > |buf| then Failed else Got(Flag(buf[off] != 0), off + 1)
    case Fixed(len) =>
      var r := ReadBytes(buf, off, len);
      if r.Failed? then Failed else Got(Bytes(r.value), r.cur)
    case Carrier =>
      var r := ReadCounted(buf, off);
      if r.Failed? then Failed else Got(Bytes(r.value), r.cur)
    case Terminated(t) =>
      var n := ToTerminator(buf, off, t);
      if n.None? || off + n.value > |buf| then Failed
      else Got(Overlong(buf[off..off + n.value]), off + n.value)
    case Str =>
      var r := ReadCounted(buf, off);
      if r.Failed? then Failed else Got(Bytes(r.value), r.cur)
    case Object(fields) =>
      var r := AllUnmarshalled(buf, off, fields);
      if r.Failed? then Failed else Got(Fields(r.value), r.cur)
  }

  function AllUnmarshalled(buf: seq<Byte>, off: nat, ks: seq<Kind>): Read<seq<Value>>
    requires ProperKinds(ks)
    decreases ks
  {
    if ks == [] then Got([], off)
    else
      var first := Unmarshalled(buf, off, ks[0]);
      if first.Failed? then Failed
      else
        var rest := AllUnmarshalled(buf, first.cur, ks[1..]);
        if rest.Failed? then Failed else Got([first.value] + rest.value, rest.cur)
  }

  /** Any byte but zero is true. */
  lemma AnyByteIsTrue(b: Byte)
    ensures Unmarshalled([b], 0, Bool) == Got(Flag(b > 0), 1)
  {
  }

  // --------------------------------------------------------------- the round trip

  /** What arrives of a value. */
  function Received(v: Value, k: Kind): Value
    requires HasKind(v, k)
    decreases k, 0
  {
    match k
    case Terminated(_) => Overlong(v.s)
    case Object(fields) => Fields(AllReceived(v.fs, fields))
    case _ => v
  }

  function AllReceived(vs: seq<Value>, ks: seq<Kind>): seq<Value>
    requires HasKinds(vs, ks)
    decreases ks
  {
    if ks == [] then [] else [Received(vs[0], ks[0])] + AllReceived(vs[1..], ks[1..])
  }

  predicate HasTerminated(k: Kind)
    decreases k, 0
  {
    match k
    case Terminated(_) => true
    case Object(fields) => AnyTerminated(fields)
    case _ => false
  }

  predicate AnyTerminated(ks: seq<Kind>)
    decreases ks
  {
    ks != [] && (HasTerminated(ks[0]) || AnyTerminated(ks[1..]))
  }

  lemma {:induction false} ReceivedExactly(v: Value, k: Kind)
    requires HasKind(v, k)
    ensures Received(v, k) == v <==> !HasTerminated(k)
    decreases k, 0
  {
    match k
    case Object(fields) => AllReceivedExactly(v.fs, fields);
    case _ =>
  }

  lemma {:induction false} AllReceivedExactly(vs: seq<Value>, ks: seq<Kind>)
    requires HasKinds(vs, ks)
    ensures AllReceived(vs, ks) == vs <==> !AnyTerminated(ks)
    decreases ks
  {
    if ks != [] {
      ReceivedExactly(vs[0], ks[0]);
      AllReceivedExactly(vs[1..], ks[1..]);
      assert vs == [vs[0]] + vs[1..];
      assert AllReceived(vs, ks)[0] == Received(vs[0], ks[0]);
      assert AllReceived(vs, ks)[1..] == AllReceived(vs[1..], ks[1..]);
    }
  }

  lemma ReadIntAt(buf: seq<Byte>, off: nat, v: nat, w: nat)
    requires v < Power(256, w) && StandsAt(buf, off, BigEndian(v, w))
    ensures ReadInt(buf, off, w) == Got(v, off + w)
  {
    BigEndianBack(v, w);
  }

  lemma ReadCountedAt(buf: seq<Byte>, off: nat, s: seq<Byte>)
    requires |s| < TWO32 && StandsAt(buf, off, BigEndian(|s|, 4) + s)
    ensures ReadCounted(buf, off) == Got(s, off + 4 + |s|)
  {
    Widths();
    hide StandsAt, BigEndian, ReadInt, ReadBytes, Power;
    StandsSplit(buf, off, BigEndian(|s|, 4), s);
    ReadIntAt(buf, off, |s|, 4);
    ReadBytesAt(buf, off + 4, s);
  }

  lemma {:induction false} TerminatorFound(buf: seq<Byte>, off: nat, s: seq<Byte>, t: Byte)
    requires StandsAt(buf, off, s) && s != [] && s[|s| - 1] == t && t !in s[..|s| - 1]
    ensures ToTerminator(buf, off, t) == Some(|s|)
    decreases |s|
  {
    assert buf[off] == buf[off..off + |s|][0] == s[0];
    if |s| > 1 {
      assert s[0] in s[..|s| - 1];
      assert s == [s[0]] + s[1..];
      StandsSplit(buf, off, [s[0]], s[1..]);
      assert s[1..][..|s[1..]| - 1] == s[..|s| - 1][1..];
      TerminatorFound(buf, off + 1, s[1..], t);
    }
  }

  lemma LeafBack(buf: seq<Byte>, off: nat, v: Value, k: Kind)
    requires HasKind(v, k) && !k.Object? && StandsAt(buf, off, Joined(Slices(v, k)))
    ensures ProperKind(k) && Unmarshalled(buf, off, k) == Got(Received(v, k), off + |Joined(Slices(v, k))|)
  {
    KindIsProper(v, k);
    FieldForm(v, k);
    hide Joined, Slices, ReadInt, ReadCounted, ReadBytes, BigEndian, Flat, Power, ToTerminator, AllReceived,
      AllUnmarshalled, StandsAt;
    match k
    case Int(w) => ReadIntAt(buf, off, v.n, w);
    case Bool => StandsOne(buf, off, if v.b then 1 else 0);
    case Fixed(_) => ReadBytesAt(buf, off, v.s);
    case Carrier => ReadCountedAt(buf, off, v.s);
    case Terminated(t) =>
      StandsInside(buf, off, v.s);
      TerminatorFound(buf, off, v.s, t);
    case Str => ReadCountedAt(buf, off, v.s);
  }

  lemma StandsInside(buf: seq<Byte>, off: nat, s: seq<Byte>)
    requires StandsAt(buf, off, s)
    ensures off + |s| <= |buf| && buf[off..off + |s|] == s
  {
  }

  lemma {:induction false} FieldBack(buf: seq<Byte>, off: nat, v: Value, k: Kind)
    requires HasKind(v, k) && StandsAt(buf, off, Joined(Slices(v, k)))
    ensures ProperKind(k) && Unmarshalled(buf, off, k) == Got(Received(v, k), off + |Joined(Slices(v, k))|)
    decreases k, 0
  {
    if k.Object? {
      KindIsProper(v, k);
      FieldForm(v, k);
      hide Joined, Slices, Flat, AllReceived, AllUnmarshalled, StandsAt;
      FlatBack(buf, off, v.fs, k.fields);
    } else {
      hide *;
      LeafBack(buf, off, v, k);
    }
  }

  lemma AllUnmarshalledStep(buf: seq<Byte>, off: nat, ks: seq<Kind>, v: Value, mid: nat, rest: seq<Value>, end: nat)
    requires ks != [] && ProperKinds(ks)
    requires Unmarshalled(buf, off, ks[0]) == Got(v, mid) && AllUnmarshalled(buf, mid, ks[1..]) == Got(rest, end)
    ensures AllUnmarshalled(buf, off, ks) == Got([v] + rest, end)
  {
    hide Unmarshalled;
  }

  lemma AllReceivedStep(vs: seq<Value>, ks: seq<Kind>)
    requires HasKinds(vs, ks) && ks != []
    ensures |vs| == |ks| && HasKind(vs[0], ks[0]) && HasKinds(vs[1..], ks[1..])
    ensures AllReceived(vs, ks) == [Received(vs[0], ks[0])] + AllReceived(vs[1..], ks[1..])
  {
    hide Received;
  }

  /** Reading what was written, wherever it stands and whatever follows. */
  lemma {:induction false} FlatBack(buf: seq<Byte>, off: nat, vs: seq<Value>, ks: seq<Kind>)
    requires HasKinds(vs, ks) && StandsAt(buf, off, Flat(vs, ks))
    ensures ProperKinds(ks)
    ensures AllUnmarshalled(buf, off, ks) == Got(AllReceived(vs, ks), off + |Flat(vs, ks)|)
    decreases ks
  {
    KindsAreProper(vs, ks);
    if ks != [] {
      hide *;
      FlatStep(vs, ks);
      AllReceivedStep(vs, ks);
      var first, others := Joined(Slices(vs[0], ks[0])), Flat(vs[1..], ks[1..]);
      StandsSplit(buf, off, first, others);
      FieldBack(buf, off, vs[0], ks[0]);
      FlatBack(buf, off + |first|, vs[1..], ks[1..]);
      AllUnmarshalledStep(buf, off, ks, Received(vs[0], ks[0]), off + |first|,
                          AllReceived(vs[1..], ks[1..]), off + |first| + |others|);
    }
  }

  /** Unmarshalling what was marshalled consumes exactly that and gives the object
      back exactly when its schema has no terminated buffer. */
  lemma RoundTripExactly(vs: seq<Value>, ks: seq<Kind>, rest: seq<Byte>)
    requires HasKinds(vs, ks)
    ensures ProperKinds(ks)
    ensures var r := AllUnmarshalled(Flat(vs, ks) + rest, 0, ks);
      r.Got? && r.cur == |Flat(vs, ks)| && (r.value == vs <==> !AnyTerminated(ks))
  {
    FlatBack(Flat(vs, ks) + rest, 0, vs, ks);
    AllReceivedExactly(vs, ks);
  }

  // ------------------------------------------------------------------ the checksum

  type Crc = n: nat | n < 0x1_0000_0000

  /** With the checksum behind it. */
  function Sealed(body: seq<Byte>, crc: seq<Byte> -> Crc): seq<Byte> {
    body + BigEndian(crc(body), 4)
  }

  predicate Intact(buf: seq<Byte>, crc: seq<Byte> -> Crc)
    requires |buf| >= 4
  {
    FromBig(buf[|buf| - 4..]) == crc(buf[..|buf| - 4])
  }

  /** An unmarshal action with the checksum option: a mismatch is an error only when
      there is a log to write it to. */
  function CheckedAction(buf: seq<Byte>, ks: seq<Kind>, crc: seq<Byte> -> Crc, logging: bool): Option<seq<Value>>
    requires |buf| >= 4 && ProperKinds(ks)
  {
    if !Intact(buf, crc) && logging then None
    else
      var r := AllUnmarshalled(buf, 0, ks);
      if r.Failed? then None else Some(r.value)
  }

  lemma SealedSplit(body: seq<Byte>, n: nat)
    ensures var buf := body + BigEndian(n, 4); buf[|buf| - 4..] == BigEndian(n, 4) && buf[..|buf| - 4] == body
  {
  }

  /** A buffer as it was written always passes; one whose checksum was changed is
      turned down exactly when a log is set. */
  lemma ChecksumExactly(vs: seq<Value>, ks: seq<Kind>, crc: seq<Byte> -> Crc, found: Crc, logging: bool)
    requires HasKinds(vs, ks)
    ensures ProperKinds(ks)
    ensures Intact(Sealed(Flat(vs, ks), crc), crc)
    ensures CheckedAction(Sealed(Flat(vs, ks), crc), ks, crc, logging) == Some(AllReceived(vs, ks))
    ensures CheckedAction(Flat(vs, ks) + BigEndian(found, 4), ks, crc, logging) ==
      if found == crc(Flat(vs, ks)) || !logging then Some(AllReceived(vs, ks)) else None
  {
    var body := Flat(vs, ks);
    Widths();
    KindsAreProper(vs, ks);
    BigEndianBack(found, 4);
    BigEndianBack(crc(body), 4);
    SealedSplit(body, found);
    SealedSplit(body, crc(body));
    hide Flat, BigEndian, FromBig, AllUnmarshalled, AllReceived, Power;
    assert (body + BigEndian(found, 4))[0..0 + |body|] == body;
    assert Sealed(body, crc)[0..0 + |body|] == body;
    FlatBack(body + BigEndian(found, 4), 0, vs, ks);
    FlatBack(Sealed(body, crc), 0, vs, ks);
  }
}
