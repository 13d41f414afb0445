/** The room a key takes in an expandable buffer while it is written: what each step
    of the marshaller reserves, and which of the buffer's assertions it meets. */
module KeyRoom {
  import opened Common
  import opened Records
  import opened KeySerialize

  /** `len` bytes are used of a buffer of `cap`; a null pointer has none. */
  datatype Room = Room(len: nat, cap: nat)

  /** Digits printed, with room for a NUL; bytes copied; a border, for which only its
      own length is reserved; and the NUL at the end of an action, for which one byte
      is. */
  datatype Op = Digits(n: nat) | Text(n: nat) | Border(n: nat) | End

  type Edge = Option<seq<Byte>>

  function EdgeText(edge: Edge): seq<Byte> {
    match edge case None => [] case Some(s) => s
  }

  function Written(op: Op): nat {
    if op.End? then 0 else op.n
  }

  /** What an operation makes sure of beforehand. */
  function Reserved(op: Op, len: nat): nat {
    match op
    case Digits(n) => len + n + 1
    case Text(n) => len + n
    case Border(n) => n
    case End => 1
  }

  function Max(a: nat, b: nat): nat {
    if a < b then b else a
  }

  /** `reserve`, `end` and `set_len`: the end must lie inside the buffer, and so must
      what is written there; None stands for a failed assertion. */
  function Run(op: Op, r: Room): Option<Room> {
    var cap := Max(r.cap, Reserved(op, r.len));
    if r.len < cap && r.len + Written(op) <= cap then Some(Room(r.len + Written(op), cap)) else None
  }

  /** A border behind something else fits exactly when there was room for it before:
      what it reserves does not help. */
  lemma BorderNeedsRoom(n: nat, r: Room)
    requires n > 0 && 0 < r.len <= r.cap
    ensures Run(Border(n), r) == if r.len + n <= r.cap then Some(Room(r.len + n, r.cap)) else None
  {
  }

  function Runs(ops: seq<Op>, r: Room): Option<Room> {
    if ops == [] then Some(r)
    else
      match Run(ops[0], r)
      case None => None
      case Some(next) => Runs(ops[1..], next)
  }

  function Length(ops: seq<Op>): nat {
    if ops == [] then 0 else Written(ops[0]) + Length(ops[1..])
  }

  lemma {:induction false} RunsAppend(a: seq<Op>, b: seq<Op>, r: Room)
    ensures Runs(a + b, r) == (match Runs(a, r) case None => None case Some(next) => Runs(b, next))
    ensures Length(a + b) == Length(a) + Length(b)
    decreases |a|
  {
    if a == [] {
      assert a + b == b;
    } else {
      assert (a + b)[1..] == a[1..] + b;
      RunsAppend(a[1..], b, match Run(a[0], r) case None => r case Some(next) => next);
    }
  }

  lemma RunsOne(op: Op, r: Room)
    ensures Runs([op], r) == Run(op, r)
    ensures Length([op]) == Written(op)
  {
    assert [op][1..] == [];
  }

  lemma SnocRuns(ops: seq<Op>, op: Op, r: Room)
    ensures Runs(ops + [op], r) == (match Runs(ops, r) case None => None case Some(t) => Run(op, t))
    ensures Length(ops + [op]) == Length(ops) + Written(op)
  {
    hide Runs, Run;
    RunsAppend(ops, [op], r);
    if Runs(ops, r).Some? {
      RunsOne(op, Runs(ops, r).value);
    }
    RunsOne(op, r);
  }

  // ---------------------------------------------------- what a record asks for

  function EdgeOps(edge: Edge): seq<Op> {
    match edge case None => [] case Some(s) => [Border(|s|)]
  }

  function TextOps(v: Value, k: Kind, edge: Edge): seq<Op>
    requires HasKind(v, k)
    decreases k, 0
  {
    match k
    case Int(w) => [Digits(2 * w)]
    case Bool => [Digits(1)]
    case Fixed(_) => [Text(|v.s|)]
    case Carrier => [Digits(8), Text(|v.s|)]
    case Terminated(_) => [Digits(8), Text(|v.s| - 1)]
    case Str => [Digits(8), Text(|v.s|)]
    case Object(fields) => KeysOps(v.fs, fields, edge) + [End]
  }

  function KeyOps(v: Value, k: Kind, edge: Edge): seq<Op>
    requires HasKind(v, k)
    decreases k, 1
  {
    TextOps(v, k, edge) + EdgeOps(edge)
  }

  function KeysOps(vs: seq<Value>, ks: seq<Kind>, edge: Edge): seq<Op>
    requires HasKinds(vs, ks)
    decreases ks
  {
    if ks == [] then [] else KeyOps(vs[0], ks[0], edge) + KeysOps(vs[1..], ks[1..], edge)
  }

  /** A whole action on an object: its fields, and a NUL behind them. */
  function ActionOps(vs: seq<Value>, ks: seq<Kind>, edge: Edge): seq<Op>
    requires HasKinds(vs, ks)
  {
    KeysOps(vs, ks, edge) + [End]
  }

  lemma TwoOps(a: Op, b: Op)
    ensures Length([a, b]) == Written(a) + Written(b)
  {
    assert [a] + [b] == [a, b];
    RunsAppend([a], [b], Room(0, 0));
    RunsOne(a, Room(0, 0));
    RunsOne(b, Room(0, 0));
  }

  lemma {:induction false} KeyLength(v: Value, k: Kind, edge: Edge)
    requires HasKind(v, k)
    ensures Length(TextOps(v, k, edge)) == |FieldText(v, k, EdgeText(edge))|
    ensures Length(KeyOps(v, k, edge)) == |Key(v, k, EdgeText(edge))|
    decreases k, 0
  {
    if k.Object? {
      KeysLength(v.fs, k.fields, edge);
      RunsAppend(KeysOps(v.fs, k.fields, edge), [End], Room(0, 0));
      RunsOne(End, Room(0, 0));
    } else {
      LeafLength(v, k, edge);
    }
    RunsAppend(TextOps(v, k, edge), EdgeOps(edge), Room(0, 0));
    if edge.Some? {
      RunsOne(Border(|edge.value|), Room(0, 0));
    }
  }

  lemma LeafLength(v: Value, k: Kind, edge: Edge)
    requires HasKind(v, k) && !k.Object?
    ensures Length(TextOps(v, k, edge)) == |FieldText(v, k, EdgeText(edge))|
  {
    hide Keys, KeysOps, Length;
    match k
    case Int(w) => RunsOne(Digits(2 * w), Room(0, 0));
    case Bool => RunsOne(Digits(1), Room(0, 0));
    case Fixed(_) => RunsOne(Text(|v.s|), Room(0, 0));
    case Carrier => TwoOps(Digits(8), Text(|v.s|));
    case Terminated(_) => TwoOps(Digits(8), Text(|v.s| - 1));
    case Str => TwoOps(Digits(8), Text(|v.s|));
  }

  lemma {:induction false} KeysLength(vs: seq<Value>, ks: seq<Kind>, edge: Edge)
    requires HasKinds(vs, ks)
    ensures Length(KeysOps(vs, ks, edge)) == |Keys(vs, ks, EdgeText(edge))|
    decreases ks
  {
    if ks != [] {
      KeysStep(vs, ks, EdgeText(edge));
      RunsAppend(KeyOps(vs[0], ks[0], edge), KeysOps(vs[1..], ks[1..], edge), Room(0, 0));
      hide Key, KeyOps, Keys, Length;
      KeyLength(vs[0], ks[0], edge);
      KeysLength(vs[1..], ks[1..], edge);
    }
  }

  // ------------------------------------------------------- borders of any length

  /** With more than the whole in reserve nothing fails, and nothing is added. */
  lemma {:induction false} Enough(ops: seq<Op>, r: Room)
    requires r.len + Length(ops) < r.cap
    ensures Runs(ops, r) == Some(Room(r.len + Length(ops), r.cap))
    decreases |ops|
  {
    if ops != [] {
      Enough(ops[1..], Room(r.len + Written(ops[0]), r.cap));
    }
  }

  /** Operations add a byte to spare at most. */
  lemma {:induction false} GrowsByOne(ops: seq<Op>, r: Room)
    requires Runs(ops, r).Some?
    ensures var t := Runs(ops, r).value;
      t.len == r.len + Length(ops) && r.cap <= t.cap <= Max(r.cap, t.len + 1)
    decreases |ops|
  {
    if ops != [] {
      GrowsByOne(ops[1..], Run(ops[0], r).value);
    }
  }

  /** The last thing a record with a border writes is the border. */
  lemma {:induction false} EndsInBorder(vs: seq<Value>, ks: seq<Kind>, edge: Edge) returns (front: seq<Op>)
    requires HasKinds(vs, ks) && ks != [] && edge.Some?
    ensures KeysOps(vs, ks, edge) == front + [Border(|edge.value|)]
    decreases ks
  {
    var first := TextOps(vs[0], ks[0], edge);
    if ks[1..] == [] {
      front := first;
      assert first + [Border(|edge.value|)] + [] == first + [Border(|edge.value|)];
    } else {
      var rest := EndsInBorder(vs[1..], ks[1..], edge);
      front := first + [Border(|edge.value|)] + rest;
    }
  }

  lemma TooLittle(front: seq<Op>, n: nat, r: Room)
    requires n > 0 && r.len <= r.cap <= r.len + Length(front + [Border(n)])
    ensures var t := Runs(front + [Border(n)], r); t.None? || Run(End, t.value).None?
  {
    hide Runs, Length;
    SnocRuns(front, Border(n), r);
    if Runs(front, r).Some? {
      GrowsByOne(front, r);
    }
  }

  lemma BorderThenEnd(front: seq<Op>, n: nat, r: Room)
    requires n > 0 && r.len <= r.cap
    ensures var ops := front + [Border(n)]; var size := r.len + Length(ops);
      Runs(ops + [End], r) == if size < r.cap then Some(Room(size, r.cap)) else None
  {
    var ops := front + [Border(n)];
    SnocRuns(ops, End, r);
    hide Runs, Length;
    if r.len + Length(ops) < r.cap {
      Enough(ops, r);
    } else {
      TooLittle(front, n, r);
    }
  }

  lemma ActionIs(vs: seq<Value>, ks: seq<Kind>, edge: Edge)
    requires HasKinds(vs, ks)
    ensures ActionOps(vs, ks, edge) == KeysOps(vs, ks, edge) + [End]
  {
  }

  /** With a border that is not empty, a record is marshalled if and only if the
      buffer had more room than the whole key needs, reserved beforehand: `border` and
      `end_action` reserve their own lengths only, and nobody else reserves for them. */
  lemma BorderedExactly(vs: seq<Value>, ks: seq<Kind>, edge: Edge, r: Room)
    requires HasKinds(vs, ks) && ks != [] && edge.Some? && edge.value != [] && r.len <= r.cap
    ensures var size := r.len + |Keys(vs, ks, EdgeText(edge))|;
      Runs(ActionOps(vs, ks, edge), r) == if size < r.cap then Some(Room(size, r.cap)) else None
  {
    hide *;
    KeysLength(vs, ks, edge);
    var front := EndsInBorder(vs, ks, edge);
    ActionIs(vs, ks, edge);
    BorderThenEnd(front, |edge.value|, r);
  }

  // ------------------------------------------------------------- no border

  /** An operation that writes nothing only asks whether there is a byte to spare. */
  predicate Asks(op: Op) {
    op.End? || op.n == 0
  }

  /** The last operation that wrote something. */
  function LastWrite(ops: seq<Op>): Option<Op> {
    if ops == [] then None
    else if Written(ops[|ops| - 1]) > 0 then Some(ops[|ops| - 1])
    else LastWrite(ops[..|ops| - 1])
  }

  /** A byte is to spare: it was reserved beforehand, digits have just left one, or a
      NUL was put into an empty buffer. */
  predicate Spare(ops: seq<Op>, r: Room) {
    || r.len + Length(ops) < r.cap
    || (LastWrite(ops).Some? && LastWrite(ops).value.Digits?)
    || (r.len + Length(ops) == 0 && End in ops)
  }

  /** Digits are never empty, and borders never anything else. */
  predicate Plain(ops: seq<Op>) {
    forall op :: op in ops ==> (op.Digits? ==> op.n > 0) && (op.Border? ==> op.n == 0)
  }

  /** Where the i-th operation finds what it needs. */
  predicate Met(ops: seq<Op>, i: nat, r: Room)
    requires i < |ops|
  {
    Asks(ops[i]) ==> Spare(ops[..i], r) || (ops[i].End? && r.len + Length(ops[..i]) == 0)
  }

  lemma SnocSpare(ops: seq<Op>, op: Op, r: Room)
    ensures Spare(ops + [op], r) <==>
      || r.len + Length(ops) + Written(op) < r.cap
      || (if Written(op) > 0 then op.Digits? else LastWrite(ops).Some? && LastWrite(ops).value.Digits?)
      || (r.len + Length(ops) + Written(op) == 0 && (End in ops || op.End?))
  {
    SnocRuns(ops, op, r);
    assert (ops + [op])[..|ops|] == ops;
  }

  /** Without a border there is a byte to spare exactly when `Spare` says so. */
  lemma {:induction false} SpareExactly(ops: seq<Op>, r: Room)
    requires Plain(ops) && r.len <= r.cap && Runs(ops, r).Some?
    ensures var t := Runs(ops, r).value;
      && t.len == r.len + Length(ops) && t.len <= t.cap
      && (t.len < t.cap <==> Spare(ops, r)) && (t.cap <= Max(r.cap, t.len + 1))
    decreases |ops|
  {
    GrowsByOne(ops, r);
    if ops != [] {
      var front, op := ops[..|ops| - 1], ops[|ops| - 1];
      assert ops == front + [op] && op in ops && forall x :: x in front ==> x in ops;
      SnocRuns(front, op, r);
      SnocSpare(front, op, r);
      hide Spare, LastWrite;
      SpareExactly(front, r);
      assert Spare(front, r) <==> Runs(front, r).value.len < Runs(front, r).value.cap;
    }
  }

  /** Where an operation that comes after `front` finds what it needs. */
  lemma RunAfter(front: seq<Op>, op: Op, r: Room)
    requires Plain(front) && Plain([op]) && r.len <= r.cap && Runs(front, r).Some?
    ensures Run(op, Runs(front, r).value).Some? <==>
      (Asks(op) ==> Spare(front, r) || (op.End? && r.len + Length(front) == 0))
  {
    SpareExactly(front, r);
    assert op in [op];
    hide Spare, Runs, Length;
  }

  /** Without a border, or with an empty one, operations succeed if and only if each of
      those that write nothing finds a byte to spare. */
  lemma {:induction false} RunsExactly(ops: seq<Op>, r: Room)
    requires Plain(ops) && r.len <= r.cap
    ensures Runs(ops, r).Some? <==> forall i :: 0 <= i < |ops| ==> Met(ops, i, r)
    decreases |ops|
  {
    if ops != [] {
      var n := |ops| - 1;
      var front, op := ops[..n], ops[n];
      assert ops == front + [op] && op in ops && forall x :: x in front ==> x in ops;
      SnocRuns(front, op, r);
      hide Runs, Run, Spare, Length;
      RunsExactly(front, r);
      assert forall i :: 0 <= i < n ==> front[..i] == ops[..i] && front[i] == ops[i];
      assert forall i :: 0 <= i < n ==> (Met(front, i, r) <==> Met(ops, i, r));
      if Runs(front, r).Some? {
        RunAfter(front, op, r);
        assert Met(ops, n, r) <==> Run(op, Runs(front, r).value).Some?;
      }
    }
  }

  lemma {:induction false} KeysPlain(vs: seq<Value>, ks: seq<Kind>, edge: Edge)
    requires HasKinds(vs, ks) && EdgeText(edge) == []
    ensures Plain(KeysOps(vs, ks, edge))
    decreases ks
  {
    if ks != [] {
      KeyPlain(vs[0], ks[0], edge);
      KeysPlain(vs[1..], ks[1..], edge);
    }
  }

  lemma {:induction false} KeyPlain(v: Value, k: Kind, edge: Edge)
    requires HasKind(v, k) && EdgeText(edge) == []
    ensures Plain(KeyOps(v, k, edge))
    decreases k, 0
  {
    if k.Object? {
      KeysPlain(v.fs, k.fields, edge);
    }
  }

  /** A record without a border, or with an empty one, is marshalled if and only if each
      text that is empty, each empty border, and the end of each object finds a byte to
      spare behind the key written so far. */
  lemma UnborderedExactly(vs: seq<Value>, ks: seq<Kind>, edge: Edge, r: Room)
    requires HasKinds(vs, ks) && EdgeText(edge) == [] && r.len <= r.cap
    ensures var ops := ActionOps(vs, ks, edge);
      Runs(ops, r).Some? <==> forall i :: 0 <= i < |ops| ==> Met(ops, i, r)
    ensures var t := Runs(ActionOps(vs, ks, edge), r); t.Some? ==> t.value.len == r.len + |Keys(vs, ks, [])|
  {
    var ops := ActionOps(vs, ks, edge);
    KeysPlain(vs, ks, edge);
    hide Runs, Met, Keys, Length;
    RunsExactly(ops, r);
    KeysLength(vs, ks, edge);
    SnocRuns(KeysOps(vs, ks, edge), End, r);
    if Runs(ops, r).Some? {
      GrowsByOne(ops, r);
    }
  }

  // ------------------------------------------------------- flat records

  /** Neither an object nor an empty text. */
  predicate Filled(v: Value, k: Kind)
    requires HasKind(v, k)
  {
    match k
    case Fixed(_) => v.s != []
    case Carrier => v.s != []
    case Terminated(_) => |v.s| > 1
    case Str => v.s != []
    case Object(_) => false
    case _ => true
  }

  predicate AllFilled(vs: seq<Value>, ks: seq<Kind>)
    requires HasKinds(vs, ks)
    decreases ks
  {
    ks == [] || (Filled(vs[0], ks[0]) && AllFilled(vs[1..], ks[1..]))
  }

  lemma FilledOps(v: Value, k: Kind)
    requires HasKind(v, k) && Filled(v, k)
    ensures var ops := KeyOps(v, k, None);
      ops != [] && (forall op :: op in ops ==> !Asks(op)) && (ops[|ops| - 1].Digits? <==> k.Int? || k.Bool?)
  {
  }

  lemma {:induction false} AllFilledOps(vs: seq<Value>, ks: seq<Kind>)
    requires HasKinds(vs, ks) && AllFilled(vs, ks) && ks != []
    ensures var ops, k := KeysOps(vs, ks, None), ks[|ks| - 1];
      ops != [] && (forall op :: op in ops ==> !Asks(op)) && (ops[|ops| - 1].Digits? <==> k.Int? || k.Bool?)
    decreases ks
  {
    FilledOps(vs[0], ks[0]);
    hide KeyOps, Filled, Asks;
    var first := KeyOps(vs[0], ks[0], None);
    if ks[1..] == [] {
      assert KeysOps(vs, ks, None) == first + [] == first;
    } else {
      AllFilledOps(vs[1..], ks[1..]);
      assert KeysOps(vs, ks, None) == first + KeysOps(vs[1..], ks[1..], None);
    }
  }

  /** A flat record without empty texts and without a border is marshalled if and only
      if the buffer had more room than the key needs, or the last field is a number or
      a boolean. */
  lemma FlatExactly(vs: seq<Value>, ks: seq<Kind>, r: Room)
    requires HasKinds(vs, ks) && AllFilled(vs, ks) && ks != [] && r.len <= r.cap
    ensures Runs(ActionOps(vs, ks, None), r).Some? <==>
      r.len + |Keys(vs, ks, [])| < r.cap || ks[|ks| - 1].Int? || ks[|ks| - 1].Bool?
  {
    var ops := KeysOps(vs, ks, None);
    UnborderedExactly(vs, ks, None, r);
    KeysLength(vs, ks, None);
    AllFilledOps(vs, ks);
    hide KeysOps, Keys, Runs, Length, AllFilled;
    var all := ActionOps(vs, ks, None);
    assert all == ops + [End] && all[..|ops|] == ops;
    assert ops[|ops| - 1] in ops && !Asks(ops[|ops| - 1]);
    assert LastWrite(ops) == Some(ops[|ops| - 1]);
    assert forall i :: 0 <= i < |ops| ==> all[i] == ops[i] && ops[i] in ops;
    LengthAtLeast(ops);
    assert Met(all, |ops|, r) <==> Spare(ops, r);
    assert (forall i :: 0 <= i < |all| ==> Met(all, i, r)) <==> Met(all, |ops|, r);
  }

  lemma {:induction false} LengthAtLeast(ops: seq<Op>)
    requires ops != [] && Written(ops[|ops| - 1]) > 0
    ensures Length(ops) > 0
  {
    if |ops| > 1 {
      LengthAtLeast(ops[1..]);
    }
  }

  /** A string of one letter into a fresh buffer: the digits of its length reserve nine
      bytes, the letter takes the ninth, and there is none for the NUL. */
  lemma OneLetterDies()
    ensures HasKinds([Bytes([97])], [Str]) && AllSmall([Bytes([97])], [Str])
    ensures Runs(ActionOps([Bytes([97])], [Str], None), Room(0, 0)) == None
  {
    var vs, ks := [Bytes([97])], [Str];
    assert vs[1..] == [] && ks[1..] == [];
    assert HasKinds(vs, ks) && AllFilled(vs, ks);
    FlatExactly(vs, ks, Room(0, 0));
  }
}
