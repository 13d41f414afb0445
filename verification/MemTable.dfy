/** The allocation table: open addressing with linear probing and no wrap-around,
    against the plain map from call sites to counts that it stands for. */
module MemTable {
  import opened Common

  const SIZE := 1024
  const TWO32 := 0x1_0000_0000

  /** The stack frames that identify a call site; a null first frame marks an empty
      slot. */
  datatype Key = Key(f0: nat, f1: nat, f2: nat)

  datatype Entry = Entry(key: Key, live: int, size: nat)

  type Hash = Key -> nat
  type Table = seq<Entry>

  const NOBODY := Entry(Key(0, 0, 0), 0, 0)

  predicate Empty(e: Entry) {
    e.key.f0 == 0
  }

  /** The hash reduced to the table size, a power of two. */
  function Home(hash: Hash, k: Key): (h: nat)
    ensures h < SIZE
  {
    hash(k) % SIZE
  }

  // ------------------------------------------------------------------- on values

  /** The first slot from i on that is empty or holds k; none when the probe walks
      off the end of the table. */
  function Probe(t: Table, i: nat, k: Key): (r: Option<nat>)
    ensures r.Some? ==> i <= r.value < |t| && (Empty(t[r.value]) || t[r.value].key == k)
    decreases |t| - i
  {
    if i >= |t| then None
    else if Empty(t[i]) || t[i].key == k then Some(i)
    else Probe(t, i + 1, k)
  }

  function Find(t: Table, hash: Hash, k: Key): Option<nat> {
    Probe(t, Home(hash, k), k)
  }

  /** What the table says of a call site: live objects and bytes. */
  function Lookup(t: Table, hash: Hash, k: Key): Option<(int, nat)> {
    var i := Find(t, hash, k);
    if i.None? || Empty(t[i.value]) then None else Some((t[i.value].live, t[i.value].size))
  }

  function Inc(t: Table, hash: Hash, k: Key, size: nat): Table
    requires Find(t, hash, k).Some?
  {
    var i := Find(t, hash, k).value;
    var e := if Empty(t[i]) then Entry(k, 1, t[i].size) else t[i].(live := t[i].live + 1);
    t[i := e.(size := (e.size + size) % TWO32)]
  }

  function Dec(t: Table, hash: Hash, k: Key, size: nat): Table
    requires Find(t, hash, k).Some?
  {
    var i := Find(t, hash, k).value;
    var e := t[i];
    t[i := e.(live := e.live - 1, size := (e.size + TWO32 - size % TWO32) % TWO32)]
  }

  // ---------------------------------------------------------------- the invariant

  /** An entry can be reached from its home: all slots on the way are taken, by other
      call sites. */
  predicate Reachable(t: Table, hash: Hash, j: nat)
    requires j < |t|
  {
    var k := t[j].key;
    Home(hash, k) <= j && forall i :: Home(hash, k) <= i < j ==> !Empty(t[i]) && t[i].key != k
  }

  predicate Inv(t: Table, hash: Hash) {
    && |t| == SIZE
    && (forall j :: 0 <= j < |t| && !Empty(t[j]) ==> Reachable(t, hash, j))
    && (forall j :: 0 <= j < |t| && Empty(t[j]) ==> t[j].size == 0)
  }

  lemma {:induction false} ProbeIs(t: Table, i: nat, k: Key, j: nat)
    requires i <= j < |t| && (Empty(t[j]) || t[j].key == k)
    requires forall m :: i <= m < j ==> !Empty(t[m]) && t[m].key != k
    ensures Probe(t, i, k) == Some(j)
    decreases j - i
  {
    if i < j {
      ProbeIs(t, i + 1, k, j);
    }
  }

  lemma {:induction false} ProbeStops(t: Table, i: nat, k: Key)
    ensures Probe(t, i, k).None? ==> forall m :: i <= m < |t| ==> !Empty(t[m]) && t[m].key != k
    ensures Probe(t, i, k).Some? ==> forall m :: i <= m < Probe(t, i, k).value ==> !Empty(t[m]) && t[m].key != k
    decreases |t| - i
  {
    if i < |t| && !(Empty(t[i]) || t[i].key == k) {
      ProbeStops(t, i + 1, k);
    }
  }

  /** `find` reaches the slot of a stored call site, and there is only one. */
  lemma FindsTheEntry(t: Table, hash: Hash, j: nat)
    requires Inv(t, hash) && j < SIZE && !Empty(t[j])
    ensures Find(t, hash, t[j].key) == Some(j)
    ensures forall i :: 0 <= i < SIZE && t[i].key == t[j].key ==> i == j
  {
    assert Reachable(t, hash, j);
    ProbeIs(t, Home(hash, t[j].key), t[j].key, j);
    forall i | 0 <= i < SIZE && t[i].key == t[j].key
      ensures i == j
    {
      assert Reachable(t, hash, i);
      ProbeIs(t, Home(hash, t[i].key), t[i].key, i);
    }
  }

  /** When `find` stays within the table: exactly when from the home slot on there is
      an empty slot or the call site itself. */
  lemma FindExactly(t: Table, hash: Hash, k: Key)
    requires |t| == SIZE
    ensures Find(t, hash, k).Some? <==> exists j :: Home(hash, k) <= j < SIZE && (Empty(t[j]) || t[j].key == k)
  {
    ProbeStops(t, Home(hash, k), k);
  }

  /** A table with a single entry is enough to walk off the end. */
  lemma WalksOffTheEnd(hash: Hash, a: Key, b: Key)
    requires a.f0 != 0 && b.f0 != 0 && a != b && Home(hash, a) == Home(hash, b) == SIZE - 1
    ensures var t := seq(SIZE, _ => NOBODY)[SIZE - 1 := Entry(a, 1, 8)];
      Inv(t, hash) && Find(t, hash, b).None?
  {
    var t := seq(SIZE, _ => NOBODY)[SIZE - 1 := Entry(a, 1, 8)];
    assert Reachable(t, hash, SIZE - 1);
    FindExactly(t, hash, b);
  }

  /** A slot is filled, or the counts in one are changed. */
  lemma UpdateKeeps(t: Table, hash: Hash, k: Key, i: nat, e: Entry)
    requires Inv(t, hash) && k.f0 != 0 && Find(t, hash, k) == Some(i) && e.key == k
    ensures Inv(t[i := e], hash) && Find(t[i := e], hash, k) == Some(i)
    ensures forall x :: x != k ==> Lookup(t[i := e], hash, x) == Lookup(t, hash, x)
  {
    var t' := t[i := e];
    ProbeStops(t, Home(hash, k), k);
    assert Reachable(t', hash, i);
    forall j | 0 <= j < SIZE && !Empty(t'[j])
      ensures Reachable(t', hash, j)
    {
      if j != i {
        assert Reachable(t, hash, j);
        if t[j].key == k {
          FindsTheEntry(t, hash, j);
        }
      }
    }
    ProbeIs(t', Home(hash, k), k, i);
    forall x | x != k
      ensures Lookup(t', hash, x) == Lookup(t, hash, x)
    {
      OthersSame(t, hash, k, i, e, x);
    }
  }

  lemma OthersSame(t: Table, hash: Hash, k: Key, i: nat, e: Entry, x: Key)
    requires Inv(t, hash) && i < SIZE && Inv(t[i := e], hash) && e.key == k && k.f0 != 0 && x != k
    requires Empty(t[i]) || t[i].key == k
    ensures Lookup(t[i := e], hash, x) == Lookup(t, hash, x)
  {
    var t' := t[i := e];
    if Lookup(t, hash, x).Some? {
      var j := Find(t, hash, x).value;
      FindsTheEntry(t', hash, j);
    } else if Lookup(t', hash, x).Some? {
      var j := Find(t', hash, x).value;
      FindsTheEntry(t, hash, j);
    }
  }

  /** Counting an allocation: the call site's counts go up, and no other call site's
      change, whether it is in the table or not. */
  lemma IncRefines(t: Table, hash: Hash, k: Key, size: nat)
    requires Inv(t, hash) && k.f0 != 0 && Find(t, hash, k).Some?
    ensures var t' := Inc(t, hash, k, size); var was := Lookup(t, hash, k);
      && Inv(t', hash)
      && Lookup(t', hash, k) == Some(if was.None? then (1, size % TWO32)
                                     else (was.value.0 + 1, (was.value.1 + size) % TWO32))
      && forall x :: x != k ==> Lookup(t', hash, x) == Lookup(t, hash, x)
  {
    var i := Find(t, hash, k).value;
    UpdateKeeps(t, hash, k, i, Inc(t, hash, k, size)[i]);
  }

  lemma DecRefines(t: Table, hash: Hash, k: Key, size: nat)
    requires Inv(t, hash) && Lookup(t, hash, k).Some?
    ensures k.f0 != 0 && Find(t, hash, k).Some?
    ensures var t' := Dec(t, hash, k, size); var was := Lookup(t, hash, k).value;
      && Inv(t', hash)
      && Lookup(t', hash, k) == Some((was.0 - 1, (was.1 + TWO32 - size % TWO32) % TWO32))
      && forall x :: x != k ==> Lookup(t', hash, x) == Lookup(t, hash, x)
  {
    var i := Find(t, hash, k).value;
    UpdateKeeps(t, hash, k, i, Dec(t, hash, k, size)[i]);
  }

  /** A call site without a first frame cannot be kept: what was counted for it is
      not found again. */
  lemma FramelessIsForgotten(t: Table, hash: Hash, k: Key, size: nat)
    requires |t| == SIZE && k.f0 == 0 && Find(t, hash, k).Some?
    ensures Lookup(Inc(t, hash, k, size), hash, k).None?
  {
    var t' := Inc(t, hash, k, size);
    var i := Find(t', hash, k);
    if i.Some? {
      assert Empty(t'[i.value]);
    }
  }

  // ----------------------------------------------------------------- whole runs

  datatype Block = Block(key: Key, size: nat)

  /** An allocation, or a deletion of the j-th block that is still live. */
  datatype Step = New(b: Block) | Delete(j: nat)

  /** The table and the live blocks. */
  datatype State = State(t: Table, blocks: seq<Block>)

  predicate Enabled(s: State, hash: Hash, step: Step) {
    match step
    case New(b) => b.key.f0 != 0 && Find(s.t, hash, b.key).Some?
    case Delete(j) => j < |s.blocks| && Find(s.t, hash, s.blocks[j].key).Some?
  }

  function Apply(s: State, hash: Hash, step: Step): State
    requires Enabled(s, hash, step)
  {
    match step
    case New(b) => State(Inc(s.t, hash, b.key, b.size), s.blocks + [b])
    case Delete(j) =>
      State(Dec(s.t, hash, s.blocks[j].key, s.blocks[j].size), s.blocks[..j] + s.blocks[j + 1..])
  }

  ghost predicate Possible(s: State, hash: Hash, steps: seq<Step>)
    decreases |steps|
  {
    steps == [] || (Enabled(s, hash, steps[0]) && Possible(Apply(s, hash, steps[0]), hash, steps[1..]))
  }

  ghost function After(s: State, hash: Hash, steps: seq<Step>): State
    requires Possible(s, hash, steps)
    decreases |steps|
  {
    if steps == [] then s else After(Apply(s, hash, steps[0]), hash, steps[1..])
  }

  function Count(bs: seq<Block>, k: Key): nat {
    if bs == [] then 0 else Count(bs[..|bs| - 1], k) + if bs[|bs| - 1].key == k then 1 else 0
  }

  function Bytes(bs: seq<Block>, k: Key): nat {
    if bs == [] then 0 else Bytes(bs[..|bs| - 1], k) + if bs[|bs| - 1].key == k then bs[|bs| - 1].size else 0
  }

  lemma {:induction false} CountJoin(a: seq<Block>, b: seq<Block>, k: Key)
    ensures Count(a + b, k) == Count(a, k) + Count(b, k) && Bytes(a + b, k) == Bytes(a, k) + Bytes(b, k)
  {
    if b == [] {
      assert a + b == a;
    } else {
      assert (a + b)[..|a + b| - 1] == a + b[..|b| - 1];
      CountJoin(a, b[..|b| - 1], k);
    }
  }

  lemma CountOne(b: Block, k: Key)
    ensures Count([b], k) == (if b.key == k then 1 else 0) && Bytes([b], k) == if b.key == k then b.size else 0
  {
    assert [b][..0] == [];
  }

  lemma CountWithout(bs: seq<Block>, j: nat, k: Key)
    requires j < |bs|
    ensures Count(bs, k) == Count(bs[..j] + bs[j + 1..], k) + if bs[j].key == k then 1 else 0
    ensures Bytes(bs, k) == Bytes(bs[..j] + bs[j + 1..], k) + if bs[j].key == k then bs[j].size else 0
  {
    assert bs == bs[..j] + ([bs[j]] + bs[j + 1..]);
    CountJoin(bs[..j], [bs[j]] + bs[j + 1..], k);
    CountJoin([bs[j]], bs[j + 1..], k);
    CountJoin(bs[..j], bs[j + 1..], k);
    CountOne(bs[j], k);
  }

  /** What the table should say of a call site. */
  ghost predicate AgreesOn(said: Option<(int, nat)>, bs: seq<Block>, k: Key) {
    match said
    case None => Count(bs, k) == 0
    case Some(e) => e.0 == Count(bs, k) && e.1 == Bytes(bs, k) % TWO32
  }

  /** The table says of every call site what is true of the live blocks. */
  ghost predicate Agrees(s: State, hash: Hash) {
    forall k :: AgreesOn(Lookup(s.t, hash, k), s.blocks, k)
  }

  lemma AgreesAt(s: State, hash: Hash, k: Key)
    requires Agrees(s, hash)
    ensures AgreesOn(Lookup(s.t, hash, k), s.blocks, k)
  {
  }

  lemma {:induction false} NoneNoBytes(bs: seq<Block>, k: Key)
    requires Count(bs, k) == 0
    ensures Bytes(bs, k) == 0
  {
    if bs != [] {
      NoneNoBytes(bs[..|bs| - 1], k);
    }
  }

  lemma NewAgreesOn(was: Option<(int, nat)>, bs: seq<Block>, b: Block, k: Key)
    requires AgreesOn(was, bs, k)
    ensures k != b.key ==> AgreesOn(was, bs + [b], k)
    ensures k == b.key ==>
      AgreesOn(Some(if was.None? then (1, b.size % TWO32) else (was.value.0 + 1, (was.value.1 + b.size) % TWO32)),
               bs + [b], k)
  {
    CountJoin(bs, [b], k);
    CountOne(b, k);
    if was.None? {
      NoneNoBytes(bs, k);
    }
  }

  lemma NewAgrees(s: State, hash: Hash, b: Block)
    requires Inv(s.t, hash) && Agrees(s, hash) && Enabled(s, hash, New(b))
    ensures var s' := Apply(s, hash, New(b)); Inv(s'.t, hash) && Agrees(s', hash)
  {
    var s' := Apply(s, hash, New(b));
    IncRefines(s.t, hash, b.key, b.size);
    hide Lookup, Inc, Inv, Find, AgreesOn;
    forall k
      ensures AgreesOn(Lookup(s'.t, hash, k), s'.blocks, k)
    {
      AgreesAt(s, hash, k);
      NewAgreesOn(Lookup(s.t, hash, k), s.blocks, b, k);
    }
  }

  lemma DeleteAgreesOn(was: Option<(int, nat)>, bs: seq<Block>, j: nat, k: Key)
    requires AgreesOn(was, bs, k) && j < |bs|
    ensures k != bs[j].key ==> AgreesOn(was, bs[..j] + bs[j + 1..], k)
    ensures k == bs[j].key ==>
      was.Some? && was.value.0 > 0
      && AgreesOn(Some((was.value.0 - 1, (was.value.1 + TWO32 - bs[j].size % TWO32) % TWO32)), bs[..j] + bs[j + 1..], k)
  {
    CountWithout(bs, j, k);
    SubtractBytes(Bytes(bs[..j] + bs[j + 1..], k), bs[j].size);
  }

  /** Deleting a live block: its entry is found, with a count above zero. */
  lemma DeleteAgrees(s: State, hash: Hash, j: nat)
    requires Inv(s.t, hash) && Agrees(s, hash) && Enabled(s, hash, Delete(j))
    ensures var s' := Apply(s, hash, Delete(j)); Inv(s'.t, hash) && Agrees(s', hash)
    ensures Lookup(s.t, hash, s.blocks[j].key).Some? && Lookup(s.t, hash, s.blocks[j].key).value.0 > 0
  {
    var s', b := Apply(s, hash, Delete(j)), s.blocks[j];
    AgreesAt(s, hash, b.key);
    DeleteAgreesOn(Lookup(s.t, hash, b.key), s.blocks, j, b.key);
    DecRefines(s.t, hash, b.key, b.size);
    hide Lookup, Dec, Inv, Find, AgreesOn;
    forall k
      ensures AgreesOn(Lookup(s'.t, hash, k), s'.blocks, k)
    {
      AgreesAt(s, hash, k);
      DeleteAgreesOn(Lookup(s.t, hash, k), s.blocks, j, k);
    }
  }

  lemma SubtractBytes(rest: nat, size: nat)
    ensures ((rest + size) % TWO32 + TWO32 - size % TWO32) % TWO32 == rest % TWO32
  {
  }

  lemma {:induction false} RunAgrees(s: State, hash: Hash, steps: seq<Step>)
    requires Inv(s.t, hash) && Agrees(s, hash) && Possible(s, hash, steps)
    ensures Inv(After(s, hash, steps).t, hash) && Agrees(After(s, hash, steps), hash)
    decreases |steps|
  {
    if steps != [] {
      match steps[0] {
        case New(b) => NewAgrees(s, hash, b);
        case Delete(j) => DeleteAgrees(s, hash, j);
      }
      hide Inv, Agrees, Apply, Enabled;
      RunAgrees(Apply(s, hash, steps[0]), hash, steps[1..]);
    }
  }

  const CLEAR := seq(SIZE, _ => NOBODY)

  /** After any run of allocations and deletions the table agrees with the live
      blocks, and no deletion can find a count of zero or no entry at all: neither
      panic is reached. */
  lemma TableLaw(hash: Hash, steps: seq<Step>, k: Key, j: nat)
    requires Possible(State(CLEAR, []), hash, steps)
    ensures var s := After(State(CLEAR, []), hash, steps);
      && (Lookup(s.t, hash, k).None? ==> Count(s.blocks, k) == 0)
      && (Lookup(s.t, hash, k).Some? ==>
            Lookup(s.t, hash, k).value == (Count(s.blocks, k) as int, Bytes(s.blocks, k) % TWO32))
      && (j < |s.blocks| ==>
            Lookup(s.t, hash, s.blocks[j].key).Some? && Lookup(s.t, hash, s.blocks[j].key).value.0 > 0)
  {
    var s0 := State(CLEAR, []);
    assert Agrees(s0, hash) && Inv(CLEAR, hash);
    RunAgrees(s0, hash, steps);
    var s := After(s0, hash, steps);
    hide Inv, Lookup, After;
    AgreesAt(s, hash, k);
    if j < |s.blocks| {
      AgreesAt(s, hash, s.blocks[j].key);
      CountWithout(s.blocks, j, s.blocks[j].key);
    }
  }

  // ---------------------------------------------------------------- the class itself

  class DbgMemInfo {
    const hash: Hash
    var table: array<Entry>
    var entries: nat

    ghost predicate Valid()
      reads this, table
    {
      Inv(table[..], hash)
    }

    constructor (hash: Hash)
      ensures Valid() && fresh(table) && table[..] == CLEAR && this.hash == hash && entries == 0
    {
      this.hash := hash;
      entries := 0;
      table := new Entry[SIZE](_ => NOBODY);
      new;
      assert table[..] == CLEAR;
    }

    method FindSlot(k: Key) returns (i: nat)
      requires Valid() && Find(table[..], hash, k).Some?
      ensures Find(table[..], hash, k) == Some(i) && i < table.Length
    {
      i := Home(hash, k);
      while !Empty(table[i]) && table[i].key != k
        invariant i < table.Length && Probe(table[..], i, k) == Find(table[..], hash, k)
        decreases table.Length - i
      {
        i := i + 1;
      }
    }

    method Count(k: Key, size: nat) returns (i: nat)
      requires Valid() && k.f0 != 0 && Find(table[..], hash, k).Some?
      modifies table, this`entries
      ensures Valid() && table[..] == Inc(old(table[..]), hash, k, size) && entries == old(entries) + 1
      ensures Find(table[..], hash, k) == Some(i)
    {
      IncRefines(table[..], hash, k, size);
      i := FindSlot(k);
      UpdateKeeps(table[..], hash, k, i, Inc(table[..], hash, k, size)[i]);
      hide Inv, Find;
      if Empty(table[i]) {
        table[i] := Entry(k, 1, table[i].size);
      } else {
        table[i] := table[i].(live := table[i].live + 1);
      }
      table[i] := table[i].(size := (table[i].size + size) % TWO32);
      entries := entries + 1;
      assert table[..] == Inc(old(table[..]), hash, k, size);
    }

    /** `dec`, with its two panics as assertions. */
    method Uncount(k: Key, size: nat)
      requires Valid() && Lookup(table[..], hash, k).Some? && Lookup(table[..], hash, k).value.0 > 0
      modifies table
      ensures Find(old(table[..]), hash, k).Some?
      ensures Valid() && table[..] == Dec(old(table[..]), hash, k, size)
    {
      DecRefines(table[..], hash, k, size);
      var i := FindSlot(k);
      assert !Empty(table[i]);
      hide Inv, Find;
      table[i] := table[i].(live := table[i].live - 1,
                            size := (table[i].size + TWO32 - size % TWO32) % TWO32);
      assert table[i].live >= 0;
      assert table[..] == Dec(old(table[..]), hash, k, size);
    }
  }
}
