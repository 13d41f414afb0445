/** The key marshaller and unmarshaller as they run: a buffer that is enlarged when
    asked, a cursor that advances, an error flag that sticks. */
module KeyActions {
  import opened Arithmetic
  import opened Common
  import opened Records
  import opened KeySerialize
  import opened KeyRoom

  /** The buffer: what is reserved, and how much of it is used. */
  class ExpandableBuffer {
    var buf: array<Byte>
    var len: nat

    ghost predicate Valid()
      reads this
    {
      len <= buf.Length
    }

    ghost function Contents(): seq<Byte>
      requires Valid()
      reads this, buf
    {
      buf[..len]
    }

    function ToRoom(): Room
      reads this
    {
      Room(len, buf.Length)
    }

    constructor (size: nat)
      ensures Valid() && Contents() == [] && ToRoom() == Room(0, size) && fresh(buf)
    {
      buf := new Byte[size](_ => 0);
      len := 0;
    }

    method Reserve(size: nat)
      requires Valid()
      modifies this`buf
      ensures Valid() && Contents() == old(Contents()) && (buf == old(buf) || fresh(buf))
      ensures ToRoom() == Room(len, Max(old(buf.Length), size))
    {
      if size > buf.Length {
        var was := buf;
        buf := new Byte[size](i requires i >= 0 reads was => if i < was.Length then was[i] else 0);
      }
    }

    /** The copy to the end, and `set_len`. */
    method Append(s: seq<Byte>)
      requires Valid() && len + |s| <= buf.Length
      modifies this`len, buf
      ensures Valid() && buf == old(buf) && Contents() == old(Contents()) + s && len == old(len) + |s|
    {
      ghost var was := Contents();
      var i := 0;
      while i < |s|
        invariant i <= |s| && len == old(len) && buf == old(buf)
        invariant forall k :: 0 <= k < len ==> buf[k] == was[k]
        invariant forall k :: 0 <= k < i ==> buf[len + k] == s[k]
        modifies buf
      {
        buf[len + i] := s[i];
        i := i + 1;
      }
      len := len + |s|;
      assert buf[..len] == was + s;
    }
  }

  /** What a call of the marshaller leaves: whether an assertion has failed, the room,
      and the key so far. */
  datatype Tally = Tally(aborted: bool, room: Room, contents: seq<Byte>)

  /** Between the two, these operations took place and wrote this text. */
  ghost predicate Wrote(was: Tally, now: Tally, ops: seq<Op>, text: seq<Byte>) {
    match Runs(ops, was.room)
    case None => now.aborted
    case Some(r) => !now.aborted && now.room == r && now.contents == was.contents + text
  }

  lemma WroteMore(was: Tally, mid: Tally, now: Tally, a: seq<Op>, b: seq<Op>, x: seq<Byte>, y: seq<Byte>)
    requires Wrote(was, mid, a, x)
    requires if mid.aborted then now == mid else Wrote(mid, now, b, y)
    ensures Wrote(was, now, a + b, x + y)
  {
    RunsAppend(a, b, was.room);
    hide Runs;
    Regroup(was.contents, x, y);
  }

  lemma WroteOne(was: Tally, now: Tally, op: Op, text: seq<Byte>)
    requires match Run(op, was.room)
             case None => now.aborted
             case Some(r) => !now.aborted && now.room == r && now.contents == was.contents + text
    ensures Wrote(was, now, [op], text)
  {
    RunsOne(op, was.room);
    hide Runs, Run;
  }

  lemma WroteNothing(t: Tally)
    requires !t.aborted
    ensures Wrote(t, t, [], [])
  {
    assert t.contents + [] == t.contents;
  }

  class KeyMarshal {
    const buffer: ExpandableBuffer
    const border: Edge
    var error: bool
    var aborted: bool   // an assertion of the buffer has failed

    constructor (buffer: ExpandableBuffer, border: Edge)
      ensures this.buffer == buffer && this.border == border && !error && !aborted
    {
      this.buffer, this.border, error, aborted := buffer, border, false, false;
    }

    ghost function ToTally(): Tally
      requires buffer.Valid()
      reads this, buffer, buffer.buf
    {
      Tally(aborted, buffer.ToRoom(), buffer.Contents())
    }

    /** snprintf of digits and a NUL; the end always lies inside the buffer. */
    method ProcessInt(digits: seq<Byte>)
      requires buffer.Valid() && !aborted && !error
      modifies this`aborted, buffer, buffer.buf
      ensures buffer.Valid() && (buffer.buf == old(buffer.buf) || fresh(buffer.buf))
      ensures Wrote(old(ToTally()), ToTally(), [Digits(|digits|)], digits)
    {
      ghost var was := ToTally();
      buffer.Reserve(buffer.len + |digits| + 1);
      assert buffer.len < buffer.buf.Length;
      buffer.Append(digits);
      WroteOne(was, ToTally(), Digits(|digits|), digits);
    }

    method ProcessBytes(s: seq<Byte>)
      requires buffer.Valid() && !aborted && !error
      modifies this`aborted, buffer, buffer.buf
      ensures buffer.Valid() && (buffer.buf == old(buffer.buf) || fresh(buffer.buf))
      ensures Wrote(old(ToTally()), ToTally(), [Text(|s|)], s)
    {
      ghost var was := ToTally();
      buffer.Reserve(buffer.len + |s|);
      if buffer.len < buffer.buf.Length {
        buffer.Append(s);
      } else {
        aborted := true;
      }
      WroteOne(was, ToTally(), Text(|s|), s);
    }

    /** `border()`: room is reserved for the border alone. */
    method Border()
      requires buffer.Valid() && !aborted && !error
      modifies this`aborted, buffer, buffer.buf
      ensures buffer.Valid() && (buffer.buf == old(buffer.buf) || fresh(buffer.buf))
      ensures Wrote(old(ToTally()), ToTally(), EdgeOps(border), EdgeText(border))
    {
      ghost var was := ToTally();
      match border {
        case None => WroteNothing(was);
        case Some(b) =>
          buffer.Reserve(|b|);
          if buffer.len < buffer.buf.Length && buffer.len + |b| <= buffer.buf.Length {
            buffer.Append(b);
          } else {
            aborted := true;
          }
          WroteOne(was, ToTally(), KeyRoom.Border(|b|), b);
      }
    }

    /** `end_action()`: a NUL behind the key, for which one byte is reserved. */
    method EndAction()
      requires buffer.Valid() && !aborted && !error
      modifies this`aborted, buffer, buffer.buf
      ensures buffer.Valid() && (buffer.buf == old(buffer.buf) || fresh(buffer.buf))
      ensures Wrote(old(ToTally()), ToTally(), [End], [])
      ensures !aborted ==> buffer.len < buffer.buf.Length && buffer.buf[buffer.len] == 0
    {
      ghost var was := ToTally();
      buffer.Reserve(1);
      assert was.contents + [] == was.contents;
      if buffer.len < buffer.buf.Length {
        buffer.buf[buffer.len] := 0;
      } else {
        aborted := true;
      }
      WroteOne(was, ToTally(), End, []);
    }

    /** The bytes in front of the terminator. */
    method BeforeTerminator(s: seq<Byte>, t: Byte) returns (size: nat)
      requires s != [] && s[|s| - 1] == t && t !in s[..|s| - 1]
      ensures size == |s| - 1
    {
      size := 0;
      while s[size] != t
        invariant size < |s|
        decreases |s| - size
      {
        size := size + 1;
      }
    }

    method ProcessCounted(s: seq<Byte>)
      requires buffer.Valid() && !aborted && !error
      modifies this`aborted, buffer, buffer.buf
      ensures buffer.Valid() && (buffer.buf == old(buffer.buf) || fresh(buffer.buf))
      ensures Wrote(old(ToTally()), ToTally(), [Digits(8), Text(|s|)], LengthKey(|s|) + s)
    {
      hide Wrote, Hex;
      ghost var was := ToTally();
      ProcessInt(Hex(|s|, 8, ZERO));
      ghost var mid := ToTally();
      if !aborted {
        ProcessBytes(s);
      }
      WroteMore(was, mid, ToTally(), [Digits(8)], [Text(|s|)], LengthKey(|s|), s);
      assert [Digits(8)] + [Text(|s|)] == [Digits(8), Text(|s|)];
    }

    method ProcessText(v: Value, k: Kind)
      requires HasKind(v, k) && buffer.Valid() && !aborted && !error
      modifies this`error, this`aborted, buffer, buffer.buf
      ensures buffer.Valid() && !error && (buffer.buf == old(buffer.buf) || fresh(buffer.buf))
      ensures Wrote(old(ToTally()), ToTally(), TextOps(v, k, border), FieldText(v, k, EdgeText(border)))
      decreases k, 0
    {
      hide Hex, Keys, KeysOps, LengthKey, HasKinds, Wrote;
      match k {
        case Int(w) =>
          var printed := if w == 8 then v.n % TWO32 else v.n;
          ProcessInt(Hex(printed, 2 * w, if w == 8 then BLANK else ZERO));
        case Bool =>
          ProcessInt([if v.b then 49 else 48]);
        case Fixed(_) =>
          ProcessBytes(v.s);
        case Carrier =>
          ProcessCounted(v.s);
        case Terminated(t) =>
          var size := BeforeTerminator(v.s, t);
          ProcessCounted(v.s[..size]);
        case Str =>
          ProcessCounted(v.s);
        case Object(fields) =>
          var err := Action(v.fs, fields);
          // the flag is set on failure, and nothing in here fails
          assert err == 0;
      }
    }

    /** A field and its border; nothing after an error. */
    method Process(v: Value, k: Kind)
      requires HasKind(v, k) && buffer.Valid() && !aborted
      modifies this`error, this`aborted, buffer, buffer.buf
      ensures buffer.Valid() && error == old(error) && (buffer.buf == old(buffer.buf) || fresh(buffer.buf))
      ensures if error then ToTally() == old(ToTally())
              else Wrote(old(ToTally()), ToTally(), KeyOps(v, k, border), Key(v, k, EdgeText(border)))
      decreases k, 1
    {
      if error {
        return;
      }
      hide TextOps, FieldText, Wrote;
      ghost var was := ToTally();
      ProcessText(v, k);
      ghost var mid := ToTally();
      if !aborted {
        Border();
      }
      WroteMore(was, mid, ToTally(), TextOps(v, k, border), EdgeOps(border),
                FieldText(v, k, EdgeText(border)), EdgeText(border));
    }

    /** `serialize` of an object: its fields one after the other. */
    method Serialize(vs: seq<Value>, ks: seq<Kind>)
      requires HasKinds(vs, ks) && buffer.Valid() && !aborted && !error
      modifies this`error, this`aborted, buffer, buffer.buf
      ensures buffer.Valid() && !error && (buffer.buf == old(buffer.buf) || fresh(buffer.buf))
      ensures Wrote(old(ToTally()), ToTally(), KeysOps(vs, ks, border), Keys(vs, ks, EdgeText(border)))
      decreases ks, 0
    {
      ghost var was := ToTally();
      if ks == [] {
        WroteNothing(was);
      } else {
        KeysStep(vs, ks, EdgeText(border));
        assert KeysOps(vs, ks, border) == KeyOps(vs[0], ks[0], border) + KeysOps(vs[1..], ks[1..], border);
        hide *;
        Process(vs[0], ks[0]);
        ghost var mid := ToTally();
        if !aborted {
          Serialize(vs[1..], ks[1..]);
        }
        WroteMore(was, mid, ToTally(), KeyOps(vs[0], ks[0], border), KeysOps(vs[1..], ks[1..], border),
                  Key(vs[0], ks[0], EdgeText(border)), Keys(vs[1..], ks[1..], EdgeText(border)));
      }
    }

    /** `action`: an object, and a NUL behind it. */
    method Action(vs: seq<Value>, ks: seq<Kind>) returns (err: int)
      requires HasKinds(vs, ks) && buffer.Valid() && !aborted
      modifies this`error, this`aborted, buffer, buffer.buf
      ensures buffer.Valid() && !error && err == 0 && (buffer.buf == old(buffer.buf) || fresh(buffer.buf))
      ensures Wrote(old(ToTally()), ToTally(), ActionOps(vs, ks, border), Keys(vs, ks, EdgeText(border)))
      ensures !aborted ==> buffer.len < buffer.buf.Length && buffer.buf[buffer.len] == 0
      decreases ks, 1
    {
      hide Wrote, Keys, KeysOps;
      ghost var was := ToTally();
      error := false;
      Serialize(vs, ks);
      ghost var mid := ToTally();
      if !aborted {
        EndAction();
      }
      ghost var text := Keys(vs, ks, EdgeText(border));
      WroteMore(was, mid, ToTally(), KeysOps(vs, ks, border), [End], text, []);
      assert text + [] == text;
      err := if error then -1 else 0;
    }
  }

  class KeyUnmarshal {
    const key: seq<Byte>
    const border: seq<Byte>
    var cur: nat
    var error: bool

    constructor (key: seq<Byte>, border: seq<Byte>)
      ensures this.key == key && this.border == border && cur == 0 && !error
    {
      this.key, this.border, cur, error := key, border, 0, false;
    }

    /** `process_int`: it does not look at the error flag, only sets it. */
    method ProcessInt(w: nat) returns (val: nat)
      requires w > 0
      modifies this
      ensures var r := ReadInt(key, old(cur), w);
        if r.Failed? then error else error == old(error) && cur == r.cur && val == r.value
    {
      if cur + 2 * w > |key| {
        error := true;
        return 0;
      }
      val := Strtoul(key[cur..cur + 2 * w], Power(256, w));
      cur := cur + 2 * w;
    }

    method ProcessBytes(len: nat) returns (s: seq<Byte>)
      modifies this
      ensures var r := ReadBytes(key, old(cur), len);
        if r.Failed? then error else error == old(error) && cur == r.cur && s == r.value
    {
      if cur + len > |key| {
        error := true;
        return [];
      }
      s := key[cur..cur + len];
      cur := cur + len;
    }

    /** A length, and as many bytes. */
    method ProcessCounted() returns (s: seq<Byte>)
      requires !error
      modifies this
      ensures var r := ReadCounted(key, old(cur));
        if r.Failed? then error else error == old(error) && cur == r.cur && s == r.value
    {
      var len := ProcessInt(4);
      if error {
        return [];
      }
      s := ProcessBytes(len);
    }

    /** One field.  After an error only the integers still move the cursor, and
        nothing is assigned. */
    method Process(k: Kind) returns (v: Value)
      requires ProperKind(k)
      modifies this
      ensures old(error) ==> error
      ensures !old(error) ==>
        var r := Unkey(key, old(cur), k, border);
        if r.Failed? then error else !error && cur == r.cur && v == r.value
      decreases k, 0
    {
      v := Flag(false);
      match k {
        case Int(w) =>
          var n := ProcessInt(w);
          v := Num(n);
          cur := cur + |border|;
          return;
        case _ =>
      }
      if error {
        return;
      }
      match k {
        case Bool =>
          if cur + 1 > |key| {
            error := true;
            return;
          }
          v := Flag(key[cur] == 49);
          cur := cur + 1;
        case Fixed(len) =>
          var s := ProcessBytes(len);
          v := Bytes(s);
        case Carrier =>
          var s := ProcessCounted();
          v := Bytes(s);
        case Terminated(t) =>
          var s := ProcessCounted();
          v := Bytes(s + [t]);
        case Str =>
          var s := ProcessCounted();
          v := Bytes(s);
        case Object(fields) =>
          var fs := Serialize(fields);
          v := Fields(fs);
      }
      cur := cur + |border|;
    }

    method Serialize(ks: seq<Kind>) returns (vs: seq<Value>)
      requires ProperKinds(ks)
      modifies this
      ensures old(error) ==> error
      ensures !old(error) ==>
        var r := Unkeys(key, old(cur), ks, border);
        if r.Failed? then error else !error && cur == r.cur && vs == r.value
      decreases ks
    {
      vs := [];
      if ks != [] {
        var v := Process(ks[0]);
        var rest := Serialize(ks[1..]);
        vs := [v] + rest;
      }
    }
  }

  /** A record written by one, into a fresh buffer with room for `size` bytes, and
      read by the other: it comes back unless an assertion fails on the way. */
  method StoreAndLoad(vs: seq<Value>, ks: seq<Kind>, border: Edge, size: nat)
    returns (done: bool, us: seq<Value>, error: bool)
    requires HasKinds(vs, ks)
    ensures done <==> Runs(ActionOps(vs, ks, border), Room(0, size)).Some?
    ensures done ==> !error && us == AllRemembered(vs, ks)
    ensures done ==> (us == vs <==> AllSmall(vs, ks))
  {
    RoundTripExactly(vs, ks, EdgeText(border));
    AllRememberedExactly(vs, ks);
    KeyReadBack(Keys(vs, ks, EdgeText(border)), 0, vs, ks, EdgeText(border));
    us, error := [], false;
    var buffer := new ExpandableBuffer(size);
    var m := new KeyMarshal(buffer, border);
    var err := m.Action(vs, ks);
    done := !m.aborted;
    if done {
      var key := buffer.buf[..buffer.len];
      assert key == Keys(vs, ks, EdgeText(border));
      hide *;
      var u := new KeyUnmarshal(key, EdgeText(border));
      us := u.Serialize(ks);
      error := u.error;
    }
  }
}
