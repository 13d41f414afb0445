/** Scatter/gather transfers: the copy-on-write list of buffers and the loop that
    moves all of it however the system splits the transfer. */
module IoVec {
  import opened Common

  type Addr = int
  type Byte = bv8

  datatype Vec = Vec(base: Addr, len: nat)

  function Span(v: Vec): (s: seq<Addr>)
    ensures |s| == v.len
  {
    seq(v.len, i => v.base + i)
  }

  /** The addresses of all buffers, in order. */
  function Flat(vs: seq<Vec>): seq<Addr> {
    if vs == [] then [] else Span(vs[0]) + Flat(vs[1..])
  }

  function Total(vs: seq<Vec>): (n: nat)
    ensures n == |Flat(vs)|
  {
    if vs == [] then 0 else vs[0].len + Total(vs[1..])
  }

  function FirstLength(vs: seq<Vec>): nat {
    if vs == [] then 0 else vs[0].len
  }

  /** What the destructor hands to free: nothing, the block that was allocated, a
      pointer into it, or a null pointer, which leaves the block behind. */
  datatype Freed = Nothing | Block | Inside | Null

  lemma {:induction false} TotalEnd(vs: seq<Vec>, v: Vec)
    ensures Total(vs + [v]) == Total(vs) + v.len
  {
    if vs == [] {
      assert vs + [v] == [v];
    } else {
      assert (vs + [v])[1..] == vs[1..] + [v];
      TotalEnd(vs[1..], v);
    }
  }

  lemma {:induction false} FlatEnd(vs: seq<Vec>, v: Vec)
    ensures Flat(vs + [v]) == Flat(vs) + Span(v)
  {
    if vs == [] {
      assert vs + [v] == [v];
      assert Flat([v]) == Span(v) + Flat([]);
    } else {
      assert (vs + [v])[1..] == vs[1..] + [v];
      FlatEnd(vs[1..], v);
    }
  }

  /** Without its first cc bytes, the list stands for `left`. */
  predicate LeavesAfter(vs: seq<Vec>, cc: nat, left: seq<Addr>) {
    cc <= |Flat(vs)| && Flat(vs)[cc..] == left
  }

  lemma NothingToDrop(vs: seq<Vec>, left: seq<Addr>)
    requires LeavesAfter(vs, 0, left)
    ensures Flat(vs) == left
  {
  }

  /** A first buffer that is used up is dropped; one that is not is shortened. */
  lemma ConsumeFirst(vs: seq<Vec>, cc: nat, left: seq<Addr>)
    requires cc > 0 && LeavesAfter(vs, cc, left)
    ensures vs != []
    ensures vs[0].len <= cc ==> LeavesAfter(vs[1..], cc - vs[0].len, left)
    ensures cc < vs[0].len ==> LeavesAfter([Vec(vs[0].base + cc, vs[0].len - cc)] + vs[1..], 0, left)
  {
    if cc < vs[0].len {
      var w := [Vec(vs[0].base + cc, vs[0].len - cc)] + vs[1..];
      assert w[1..] == vs[1..];
      assert Span(w[0]) == Span(vs[0])[cc..];
      assert Flat(vs)[cc..] == Span(vs[0])[cc..] + Flat(vs[1..]);
      assert Flat(w) == Flat(w)[0..];
    }
  }

  function Part(all: seq<Vec>, off: nat, n: nat): seq<Vec>
    requires off + n <= |all|
  {
    all[off..off + n]
  }

  lemma PartOf(a: array<Vec>, off: nat, n: nat)
    requires off + n <= a.Length
    ensures Part(a[..], off, n) == a[off..off + n]
  {
  }

  lemma DropFirst(all: seq<Vec>, off: nat, n: nat, cc: nat, left: seq<Addr>)
    requires off + n <= |all| && cc > 0 && LeavesAfter(Part(all, off, n), cc, left)
    ensures n > 0
    ensures all[off].len <= cc ==> LeavesAfter(Part(all, off + 1, n - 1), cc - all[off].len, left)
    ensures cc < all[off].len ==>
      LeavesAfter(Part(all[off := Vec(all[off].base + cc, all[off].len - cc)], off, n), 0, left)
  {
    var vs := Part(all, off, n);
    hide LeavesAfter;
    ConsumeFirst(vs, cc, left);
    assert vs[1..] == Part(all, off + 1, n - 1);
    if cc < all[off].len {
      var v := Vec(all[off].base + cc, all[off].len - cc);
      assert Part(all[off := v], off, n) == [v] + vs[1..];
    }
  }

  /** Where the dropping of cc bytes began, and what it is to leave. */
  datatype Dropping = Dropping(off: nat, cnt: nat, all: seq<Vec>, cc: nat, left: seq<Addr>)

  /** With cc bytes still to be dropped: the pointer has moved on if and only if the
      first buffer has been used up. */
  predicate Drops(off: nat, cnt: nat, all: seq<Vec>, cc: nat, g: Dropping) {
    && g.off <= off && cc <= g.cc && g.off + g.cnt <= |g.all| && off + cnt <= |all|
    && LeavesAfter(Part(all, off, cnt), cc, g.left)
    && (off == g.off && cc == g.cc ==> cnt == g.cnt && all == g.all)
    && (off > g.off ==> g.cc > 0 && g.cnt > 0 && g.cc >= g.all[g.off].len)
    && (off == g.off && cc < g.cc ==>
          cc == 0 && g.cnt > 0 && cnt > 0 && g.cc < g.all[g.off].len && all[off].len == g.all[g.off].len - g.cc)
  }

  lemma DropsFirst(a: array<Vec>, off: nat, cnt: nat, cc: nat, g: Dropping)
    requires off + cnt <= a.Length && cc <= |Flat(a[off..off + cnt])|
    requires g == Dropping(off, cnt, a[..], cc, Flat(a[off..off + cnt])[cc..])
    ensures Drops(off, cnt, a[..], cc, g)
  {
    PartOf(a, off, cnt);
  }

  lemma DropsNext(off: nat, cnt: nat, all: seq<Vec>, cc: nat, g: Dropping)
    requires Drops(off, cnt, all, cc, g) && cc > 0
    ensures cnt > 0 && off < |all|
    ensures all[off].len <= cc ==> Drops(off + 1, cnt - 1, all, cc - all[off].len, g)
    ensures cc < all[off].len ==> Drops(off, cnt, all[off := Vec(all[off].base + cc, all[off].len - cc)], 0, g)
  {
    hide LeavesAfter, Part;
    DropFirst(all, off, cnt, cc, g.left);
  }

  lemma DropsLast(a: array<Vec>, off: nat, cnt: nat, g: Dropping)
    requires off + cnt <= a.Length && Drops(off, cnt, a[..], 0, g)
    ensures Flat(a[off..off + cnt]) == g.left
    ensures g.off <= off && g.off + g.cnt <= |g.all| && (g.cc == 0 ==> off == g.off && cnt == g.cnt)
    ensures g.cc > 0 ==> g.cnt > 0 && (off == g.off <==> g.cc < g.all[g.off].len)
    ensures off == g.off && cnt > 0 ==> g.cnt > 0 && a[off].len == g.all[g.off].len - g.cc
  {
    hide LeavesAfter, Part;
    PartOf(a, off, cnt);
    NothingToDrop(Part(a[..], off, cnt), g.left);
  }

  /** The list is a pointer into an array: the caller's until the first partial
      consumption, a private copy from then on, null when all is gone. */
  class COWIoVec {
    ghost const caller: array<Vec>
    var iov: array?<Vec>
    var off: nat
    var iovcnt: nat
    var bytesLeft: nat
    var copied: bool
    var dynamic: bool       // the copy was allocated
    ghost const first: nat  // length of the first buffer
    ghost var used: nat     // bytes consumed so far

    ghost predicate Valid()
      reads this, iov
    {
      && (iov == null ==> bytesLeft == 0)
      && (iov != null ==> off + iovcnt <= iov.Length && bytesLeft == |Flat(iov[off..off + iovcnt])|)
      && (!copied && iov != null ==> iov == caller && off == 0 && iovcnt == caller.Length && used == 0)
      && (copied && iov != null ==> iov != caller)
      && (dynamic <==> copied && caller.Length > 16)
    }

    /** The pointer stands at the first buffer of the copy until that has been used up. */
    ghost predicate Tracked()
      reads this, iov
    {
      iov != null && off + iovcnt <= iov.Length ==>
        && (off == 0 <==> used == 0 || used < first)
        && (off == 0 && iovcnt > 0 ==> iov[0].len + used == first)
    }

    /** What is left to transfer. */
    ghost function View(): seq<Addr>
      requires Valid()
      reads this, iov
    {
      if iov == null then [] else Flat(iov[off..off + iovcnt])
    }

    /** What this object may write: its own copy, never the caller's array. */
    ghost function Owned(): set<object>
      reads this
    {
      if copied && iov != null then {iov} else {}
    }

    constructor (iov: array<Vec>)
      ensures Valid() && Tracked() && View() == Flat(iov[..]) && bytesLeft == |View()| && used == 0
      ensures first == FirstLength(iov[..])
      ensures !copied && caller == iov && this.iov == iov && Owned() == {}
    {
      this.caller := iov;
      this.iov, off, iovcnt, bytesLeft, copied, dynamic := iov, 0, iov.Length, 0, false, false;
      first, used := FirstLength(iov[..]), 0;
      new;
      var i := 0;
      while i < iovcnt
        invariant i <= iovcnt == iov.Length && bytesLeft == Total(iov[..i])
        invariant this.iov == iov && off == 0 && iovcnt == iov.Length && !copied && !dynamic && used == 0
        invariant first == FirstLength(iov[..])
      {
        assert iov[..i + 1] == iov[..i] + [iov[i]];
        TotalEnd(iov[..i], iov[i]);
        bytesLeft := bytesLeft + iov[i].len;
        i := i + 1;
      }
      assert iov[0..iovcnt] == iov[..] == iov[..i];
    }

    /** The addresses handed to the system call. */
    method Addresses() returns (s: seq<Addr>)
      requires Valid() && iov != null
      ensures s == View()
    {
      s := [];
      var i := 0;
      while i < iovcnt
        invariant i <= iovcnt && s == Flat(iov[off..off + i])
      {
        assert iov[off..off + i + 1] == iov[off..off + i] + [iov[off + i]];
        FlatEnd(iov[off..off + i], iov[off + i]);
        s := s + Span(iov[off + i]);
        i := i + 1;
      }
    }

    /** From here on the list is private. */
    method Copy()
      requires Valid() && !copied && iov != null
      modifies this
      ensures Valid() && copied && iov != null && fresh(iov) && off == 0 && iovcnt == old(iovcnt) && used == 0
      ensures old(Tracked()) ==> Tracked()
      ensures View() == old(View()) && bytesLeft == old(bytesLeft)
    {
      var mine := new Vec[iovcnt](_ => Vec(0, 0));
      var i := 0;
      while i < iovcnt
        invariant i <= iovcnt == mine.Length && mine[..i] == iov[off..off + i]
        invariant iov == old(iov) && off == old(off) && iovcnt == old(iovcnt) && copied == old(copied)
        modifies mine
      {
        mine[i] := iov[off + i];
        i := i + 1;
      }
      assert mine[0..iovcnt] == mine[..i] == old(iov[off..off + iovcnt]);
      dynamic := iovcnt > 16;
      iov, off, copied := mine, 0, true;
    }

    method ShortenFirst(cc: nat)
      requires iov != null && off < iov.Length && cc < iov[off].len
      modifies iov
      ensures iov[..] == old(iov[..][off := Vec(iov[off].base + cc, iov[off].len - cc)])
    {
      iov[off] := Vec(iov[off].base + cc, iov[off].len - cc);
    }

    /** The loop on the private list. */
    method DropLoop(cc0: nat, ghost g: Dropping)
      requires iov != null && iov != caller && off + iovcnt <= iov.Length && Drops(off, iovcnt, iov[..], cc0, g)
      modifies this`off, this`iovcnt, iov
      ensures off + iovcnt <= iov.Length && Drops(off, iovcnt, iov[..], 0, g)
    {
      hide *;
      var cc: nat := cc0;
      while cc > 0
        invariant off + iovcnt <= iov.Length && Drops(off, iovcnt, iov[..], cc, g)
        decreases iovcnt, cc
      {
        DropsNext(off, iovcnt, iov[..], cc, g);
        var first := iov[off];
        if first.len <= cc {
          cc := cc - first.len;
          iovcnt := iovcnt - 1;
          off := off + 1;
        } else {
          ShortenFirst(cc);
          cc := 0;
        }
      }
    }

    /** Drops cc bytes; the pointer moves on exactly when the first buffer is used up. */
    method DropBytes(cc0: nat)
      requires iov != null && copied && iov != caller && off + iovcnt <= iov.Length
      requires cc0 <= |Flat(iov[off..off + iovcnt])|
      modifies this`off, this`iovcnt, iov
      ensures off + iovcnt <= iov.Length
      ensures Flat(iov[off..off + iovcnt]) == old(Flat(iov[off..off + iovcnt]))[cc0..]
      ensures off >= old(off) && (cc0 == 0 ==> off == old(off) && iovcnt == old(iovcnt))
      ensures cc0 > 0 ==> old(iovcnt) > 0 && (off == old(off) <==> cc0 < old(iov[off].len))
      ensures off == old(off) && iovcnt > 0 ==> iov[off].len == old(iov[off].len) - cc0
    {
      ghost var g := Dropping(off, iovcnt, iov[..], cc0, Flat(iov[off..off + iovcnt])[cc0..]);
      hide *;
      DropsFirst(iov, off, iovcnt, cc0, g);
      DropLoop(cc0, g);
      DropsLast(iov, off, iovcnt, g);
    }

    /** Drops exactly cc bytes from what is left. */
    method Consume(cc: nat)
      requires Valid() && cc <= bytesLeft
      modifies this, Owned()
      ensures Valid() && View() == old(View())[cc..] && bytesLeft == old(bytesLeft) - cc
      ensures fresh(Owned() - old(Owned()))
      ensures old(Tracked()) ==> Tracked()
      ensures used == old(used) + cc && copied == (old(copied) || cc != old(bytesLeft))
      ensures bytesLeft == 0 ==> iov == null
    {
      hide Flat;
      if !copied && cc == bytesLeft {
        iov := null;
        used := used + cc;
        bytesLeft := 0;
        return;
      }
      if iov == null {
        return;
      }
      if !copied {
        Copy();
      }
      bytesLeft := bytesLeft - cc;
      DropBytes(cc);
      used := used + cc;
      if bytesLeft == 0 {
        iov := null;
      }
    }

    lemma WhereItStands()
      requires Valid() && Tracked() && bytesLeft > 0 && used > 0
      ensures iov != null && (off == 0 <==> used < first)
    {
    }

    /** The destructor: it frees what the pointer has become, if a copy was allocated. */
    method Destroy() returns (freed: Freed)
      requires Valid()
      modifies this`dynamic
      ensures freed == (if !(copied && caller.Length > 16) then Nothing
                        else if iov == null then Null else if off == 0 then Block else Inside)
    {
      freed := Nothing;
      if dynamic {
        freed := if iov == null then Null else if off == 0 then Block else Inside;
        dynamic := false;
      }
    }
  }

  // ------------------------------------------------------------ whole transfers

  const IOEOF := 0
  const IOERROR := -1
  const IOTIMEOUT := -2
  const IOINTR := -3

  /** How one attempt goes: the poll stops it, the call is interrupted or would
      block (and is tried again), fails, finds the end, or moves k + 1 bytes, or as
      many as there are. */
  datatype Attempt = Stopped(code: int) | Again | Failed | End | Moves(k: nat)

  predicate Plausible(script: seq<Attempt>) {
    forall a :: a in script && a.Stopped? ==> a.code == IOERROR || a.code == IOTIMEOUT || a.code == IOINTR
  }

  /** How the transfer of `left` bytes goes: the code that stops it, if one does, and
      the bytes moved by then. */
  datatype Transfer = Transfer(stop: Option<int>, n: nat)

  function Moved(k: nat, left: nat): nat {
    if k + 1 < left then k + 1 else left
  }

  function Transferred(script: seq<Attempt>, left: nat): (t: Transfer)
    ensures t.n <= left && (t.stop.None? ==> t.n == left)
    decreases |script|
  {
    if left == 0 then Transfer(None, 0)
    else if script == [] then Transfer(Some(IOERROR), 0)
    else match script[0]
      case Stopped(code) => Transfer(Some(code), 0)
      case Again => Transferred(script[1..], left)
      case Failed => Transfer(Some(IOERROR), 0)
      case End => Transfer(Some(IOEOF), 0)
      case Moves(k) =>
        Plus(Moved(k, left), Transferred(script[1..], left - Moved(k, left)))
  }

  function Plus(k: nat, t: Transfer): Transfer {
    t.(n := k + t.n)
  }

  /** What the first attempt that moves anything moves. */
  function FirstMoved(script: seq<Attempt>, left: nat): (n: nat)
    ensures n <= left
  {
    if left == 0 || script == [] then 0
    else match script[0]
      case Again => FirstMoved(script[1..], left)
      case Moves(k) => Moved(k, left)
      case _ => 0
  }

  /** What the destructor frees at the end of a transfer that moved n bytes in all, the
      first time `once` of them: a copy was allocated when there were more than 16
      buffers and the first time did not do. */
  function Fate(vs: seq<Vec>, once: nat, n: nat): Freed {
    if |vs| <= 16 || once == 0 || once >= |Flat(vs)| then Nothing
    else if n >= |Flat(vs)| then Null
    else if n < FirstLength(vs) then Block
    else Inside
  }

  /** The system on the other side of readv and writev: it takes the addresses it is
      given in order.  A script that has run out fails. */
  class System {
    var script: seq<Attempt>
    var moved: seq<Addr>

    constructor (script: seq<Attempt>)
      ensures this.script == script && moved == []
    {
      this.script, moved := script, [];
    }

    /** One call of `rwdata`: polls, and tries again until something happens. */
    method RwData(view: seq<Addr>) returns (cc: int)
      requires view != [] && Plausible(script)
      modifies this
      ensures Plausible(script) && cc <= |view|
      ensures moved == old(moved) + view[..if cc > 0 then cc else 0]
      ensures cc <= 0 ==> cc == IOEOF || cc == IOERROR || cc == IOTIMEOUT || cc == IOINTR
      ensures cc > 0 ==> |script| < old(|script|)
      ensures Transferred(old(script), |view|) ==
        if cc > 0 then Plus(cc, Transferred(script, |view| - cc)) else Transfer(Some(cc), 0)
      ensures FirstMoved(old(script), |view|) == if cc > 0 then cc else 0
    {
      while script != []
        invariant Plausible(script) && moved == old(moved) && |script| <= old(|script|)
        invariant Transferred(script, |view|) == Transferred(old(script), |view|)
        invariant FirstMoved(script, |view|) == FirstMoved(old(script), |view|)
        decreases |script|
      {
        var a := script[0];
        script := script[1..];
        match a {
          case Stopped(code) => return code;
          case Again =>
          case Failed => return IOERROR;
          case End => return IOEOF;
          case Moves(k) =>
            cc := Moved(k, |view|);
            moved := moved + view[..cc];
            return;
        }
      }
      return IOERROR;
    }
  }

  /** One transfer, and what it moved is consumed. */
  method TransferSome(sys: System, cow: COWIoVec) returns (cc: int)
    requires Plausible(sys.script) && cow.Valid() && cow.bytesLeft > 0
    requires cow.bytesLeft == |cow.View()|
    modifies sys, cow, cow.Owned()
    ensures Plausible(sys.script) && cow.Valid() && cc <= |old(cow.View())|
    ensures fresh(cow.Owned() - old(cow.Owned()))
    ensures var k := if cc > 0 then cc else 0;
      && sys.moved == old(sys.moved) + old(cow.View())[..k]
      && cow.View() == old(cow.View())[k..] && cow.bytesLeft == old(cow.bytesLeft) - k
    ensures cc <= 0 ==> cc == IOEOF || cc == IOERROR || cc == IOTIMEOUT || cc == IOINTR
    ensures Transferred(old(sys.script), old(cow.bytesLeft)) ==
      if cc > 0 then Plus(cc, Transferred(sys.script, old(cow.bytesLeft) - cc)) else Transfer(Some(cc), 0)
    ensures FirstMoved(old(sys.script), old(cow.bytesLeft)) == if cc > 0 then cc else 0
    ensures old(cow.Tracked()) ==> cow.Tracked()
    ensures cow.used == old(cow.used) + (if cc > 0 then cc else 0)
    ensures cow.copied == (old(cow.copied) || 0 < cc < old(cow.bytesLeft))
    ensures cc > 0 && cow.bytesLeft == 0 ==> cow.iov == null
    ensures cc <= 0 ==> cow.iov == old(cow.iov) && cow.off == old(cow.off)
  {
    hide Flat, Transferred, FirstMoved;
    var addrs := cow.Addresses();
    cc := sys.RwData(addrs);
    if cc > 0 {
      cow.Consume(cc);
    }
  }

  /** The first n of the addresses have been used, behind those used before. */
  predicate UsedUp(moved: seq<Addr>, before: seq<Addr>, all: seq<Addr>, n: nat) {
    n <= |all| && moved == before + all[..n]
  }

  lemma NothingUsed(before: seq<Addr>, all: seq<Addr>)
    ensures UsedUp(before, before, all, 0)
  {
    assert before + all[..0] == before;
  }

  lemma Advance(moved: seq<Addr>, before: seq<Addr>, all: seq<Addr>, n: nat, cc: nat)
    requires UsedUp(moved, before, all, n) && n + cc <= |all|
    ensures UsedUp(moved + all[n..][..cc], before, all, n + cc)
    ensures all[n..][cc..] == all[n + cc..]
  {
    assert (before + all[..n]) + all[n..][..cc] == before + all[..n + cc];
  }

  /** With `now` left of the script, n of `total` bytes have been moved. */
  predicate Continues(script: seq<Attempt>, total: nat, now: seq<Attempt>, n: nat) {
    n <= total && Transferred(script, total) == Plus(n, Transferred(now, total - n))
  }

  lemma Begins(script: seq<Attempt>, total: nat)
    ensures Continues(script, total, script, 0)
  {
  }

  lemma Proceeds(script: seq<Attempt>, total: nat, now: seq<Attempt>, n: nat, next: seq<Attempt>, cc: int)
    requires Continues(script, total, now, n) && cc <= total - n
    requires Transferred(now, total - n) ==
      if cc > 0 then Plus(cc, Transferred(next, total - n - cc)) else Transfer(Some(cc), 0)
    ensures cc > 0 ==> Continues(script, total, next, n + cc)
    ensures cc <= 0 ==> Transferred(script, total) == Transfer(Some(cc), n)
  {
    hide Transferred;
  }

  lemma Ends(script: seq<Attempt>, total: nat, now: seq<Attempt>)
    requires Continues(script, total, now, total)
    ensures Transferred(script, total) == Transfer(None, total)
  {
    assert Transferred(now, 0) == Transfer(None, 0);
  }

  /** `rwvall`: everything is moved, in order and exactly once, and the total is
      returned; on an early stop what was moved is a proper beginning, of n bytes, and
      the code of the stop is returned, which says nothing of n.  The caller's list is
      left as it was. */
  method RwvAll(sys: System, iov: array<Vec>) returns (result: int, ghost n: nat, freed: Freed)
    requires Plausible(sys.script)
    modifies sys
    ensures iov[..] == old(iov[..])
    ensures UsedUp(sys.moved, old(sys.moved), Flat(iov[..]), n)
    ensures result > 0 ==> result == n == |Flat(iov[..])|
    ensures result <= 0 ==> n < |Flat(iov[..])| || (result == 0 && Flat(iov[..]) == [])
    ensures result < 0 ==> result == IOERROR || result == IOTIMEOUT || result == IOINTR
    ensures var t := Transferred(old(sys.script), |Flat(iov[..])|);
      n == t.n && result == if t.stop.Some? then t.stop.value else |Flat(iov[..])|
    ensures freed == Fate(iov[..], FirstMoved(old(sys.script), |Flat(iov[..])|), n)
  {
    hide Flat, Transferred, Continues, UsedUp, Plausible, COWIoVec.View, COWIoVec.Valid;
    ghost var all := Flat(iov[..]);
    ghost var before, script := sys.moved, sys.script;
    ghost var once := FirstMoved(script, |all|);
    var cow := new COWIoVec(iov);
    var total := cow.bytesLeft;
    n := 0;
    NothingUsed(before, all);
    Begins(script, |all|);
    assert all[0..] == all;
    while cow.bytesLeft > 0
      invariant cow.Valid() && fresh(cow) && fresh(cow.Owned())
      invariant n <= |all| && cow.View() == all[n..] && cow.bytesLeft == |all| - n
      invariant UsedUp(sys.moved, before, all, n) && Plausible(sys.script)
      invariant Continues(script, |all|, sys.script, n)
      invariant cow.caller == iov && cow.first == FirstLength(iov[..]) && cow.Tracked() && cow.used == n
      invariant if n == 0 then !cow.copied && sys.script == script else 0 < once <= n && (cow.copied <==> once < |all|)
      invariant n > 0 && cow.bytesLeft == 0 ==> cow.iov == null
      decreases cow.bytesLeft
    {
      ghost var now, moved := sys.script, sys.moved;
      var cc := TransferSome(sys, cow);
      Proceeds(script, |all|, now, n, sys.script, cc);
      Advance(moved, before, all, n, if cc > 0 then cc else 0);
      if cc <= 0 {
        freed := Dispose(cow, once, |all|);
        return cc, n, freed;
      }
      n := n + cc;
    }
    Ends(script, |all|, sys.script);
    freed := Dispose(cow, once, |all|);
    return total, n, freed;
  }

  /** At the end of a transfer. */
  method Dispose(cow: COWIoVec, ghost once: nat, ghost total: nat) returns (freed: Freed)
    requires cow.Valid() && cow.Tracked() && cow.first == FirstLength(cow.caller[..])
    requires cow.used + cow.bytesLeft == total == |Flat(cow.caller[..])|
    requires if cow.used == 0 then !cow.copied && (once == 0 || total == 0)
             else once > 0 && (cow.copied <==> once < total)
    requires cow.used > 0 && cow.bytesLeft == 0 ==> cow.iov == null
    modifies cow`dynamic
    ensures freed == Fate(cow.caller[..], once, cow.used)
  {
    hide Flat, COWIoVec.Valid, COWIoVec.Tracked;
    if cow.bytesLeft > 0 && cow.used > 0 {
      cow.WhereItStands();
    }
    freed := cow.Destroy();
  }

  // The same, from the script alone.

  /** The first attempt that stops, or the length of the script. */
  function FirstStop(script: seq<Attempt>): (i: nat)
    ensures i <= |script|
  {
    if script == [] || script[0].Stopped? || script[0].Failed? || script[0].End? then 0 else 1 + FirstStop(script[1..])
  }

  /** The bytes the script would move, given room. */
  function Offered(script: seq<Attempt>): nat {
    if script == [] then 0 else (if script[0].Moves? then script[0].k + 1 else 0) + Offered(script[1..])
  }

  function StopCode(script: seq<Attempt>, i: nat): int {
    if i >= |script| || script[i].Failed? then IOERROR
    else if script[i].Stopped? then script[i].code else IOEOF
  }

  /** A transfer is complete exactly when the attempts before the first stop offer
      enough; otherwise it moves what they offer, and returns the code of the stop. */
  lemma {:induction false} TransferExactly(script: seq<Attempt>, left: nat)
    ensures var i := FirstStop(script); var offered := Offered(script[..i]);
      Transferred(script, left) ==
        if offered >= left then Transfer(None, left) else Transfer(Some(StopCode(script, i)), offered)
    decreases |script|
  {
    if left > 0 && script != [] && (script[0].Again? || script[0].Moves?) {
      var i := FirstStop(script[1..]);
      assert script[..1 + i][1..] == script[1..][..i];
      TransferExactly(script[1..], if script[0].Moves? then left - Moved(script[0].k, left) else left);
    }
  }

  /** When the end of file that `rwvall` reports hides that bytes were moved: exactly
      when the first stop is an end of file, and some bytes, but not all, were on
      offer before it. */
  lemma EofHidesBytesExactly(script: seq<Attempt>, total: nat)
    requires Plausible(script)
    ensures var t := Transferred(script, total); var i := FirstStop(script);
      t.stop == Some(IOEOF) && t.n > 0 <==> i < |script| && script[i].End? && 0 < Offered(script[..i]) < total
  {
    TransferExactly(script, total);
    FirstStopStops(script);
    var i := FirstStop(script);
    if i < |script| {
      assert script[i] in script;
    }
  }

  lemma {:induction false} FirstStopStops(script: seq<Attempt>)
    ensures var i := FirstStop(script); i < |script| ==> script[i].Stopped? || script[i].Failed? || script[i].End?
  {
    if script != [] {
      FirstStopStops(script[1..]);
    }
  }

  /** One byte is read, and the caller is told that the stream has ended. */
  lemma OneByteHidden()
    ensures Transferred([Moves(0), End], 2) == Transfer(Some(IOEOF), 1)
  {
    assert [Moves(0), End][1..] == [End];
  }

  /** With more than 16 buffers, a first transfer of exactly the first one is enough: a
      pointer into the copy is freed, or, when the rest comes too, none. */
  lemma FirstBufferAlone(vs: seq<Vec>, more: seq<Attempt>)
    requires |vs| > 16 && 0 < vs[0].len < |Flat(vs)|
    ensures var script := [Moves(vs[0].len - 1)] + more; var total := |Flat(vs)|;
      var freed := Fate(vs, FirstMoved(script, total), Transferred(script, total).n);
      freed == if Transferred(script, total).stop.None? then Null else Inside
  {
    var script, total := [Moves(vs[0].len - 1)] + more, |Flat(vs)|;
    assert script[1..] == more;
    hide Flat;
    var t := Transferred(more, total - vs[0].len);
    assert Transferred(script, total) == Plus(vs[0].len, t);
    ShortOfAll(more, total - vs[0].len);
  }

  /** The destructor frees what was allocated, and no more, if and only if there were at
      most 16 buffers, the first transfer moved everything or nothing was ever moved, or
      the first buffer was never used up. */
  lemma FreedRightExactly(vs: seq<Vec>, script: seq<Attempt>)
    ensures var total := |Flat(vs)|;
      var once, t := FirstMoved(script, total), Transferred(script, total);
      var freed := Fate(vs, once, t.n);
      && once <= t.n
      && (freed == Nothing || freed == Block <==>
            |vs| <= 16 || t.n == 0 || once == total || (t.stop.Some? && vs != [] && t.n < vs[0].len))
  {
    hide Flat;
    FirstIsMoved(script, |Flat(vs)|);
  }

  lemma {:induction false} FirstIsMoved(script: seq<Attempt>, left: nat)
    ensures FirstMoved(script, left) <= Transferred(script, left).n
    ensures FirstMoved(script, left) == 0 <==> Transferred(script, left).n == 0
    ensures Transferred(script, left).stop.Some? ==> Transferred(script, left).n < left
    decreases |script|
  {
    ShortOfAll(script, left);
    if left > 0 && script != [] && script[0].Again? {
      FirstIsMoved(script[1..], left);
    }
  }

  lemma {:induction false} ShortOfAll(script: seq<Attempt>, left: nat)
    ensures Transferred(script, left).stop.Some? ==> Transferred(script, left).n < left
    decreases |script|
  {
    if left > 0 && script != [] && (script[0].Again? || script[0].Moves?) {
      ShortOfAll(script[1..], if script[0].Moves? then left - Moved(script[0].k, left) else left);
    }
  }

  // ----------------------------------------------- what it means for the memory

  type Memory = map<Addr, Byte>

  /** readv: the data goes to the addresses in order. */
  function Scatter(m: Memory, addrs: seq<Addr>, data: seq<Byte>): Memory
    requires |addrs| == |data|
    decreases |addrs|
  {
    if addrs == [] then m else Scatter(m[addrs[0] := data[0]], addrs[1..], data[1..])
  }

  /** However a transfer is split, the memory ends up the same. */
  lemma {:induction false} ScatterSplit(m: Memory, addrs: seq<Addr>, data: seq<Byte>, n: nat)
    requires |addrs| == |data| && n <= |addrs|
    ensures Scatter(Scatter(m, addrs[..n], data[..n]), addrs[n..], data[n..]) == Scatter(m, addrs, data)
    decreases |addrs|
  {
    if n > 0 {
      assert addrs[..n][1..] == addrs[1..][..n - 1] && data[..n][1..] == data[1..][..n - 1];
      assert addrs[n..] == addrs[1..][n - 1..] && data[n..] == data[1..][n - 1..];
      ScatterSplit(m[addrs[0] := data[0]], addrs[1..], data[1..], n - 1);
    } else {
      assert addrs[0..] == addrs && data[0..] == data;
    }
  }

  lemma {:induction false} ScatterElsewhere(m: Memory, addrs: seq<Addr>, data: seq<Byte>, a: Addr)
    requires |addrs| == |data| && a !in addrs
    ensures a in Scatter(m, addrs, data) <==> a in m
    ensures a in m ==> Scatter(m, addrs, data)[a] == m[a]
    decreases |addrs|
  {
    if addrs != [] {
      assert addrs[0] in addrs;
      ScatterElsewhere(m[addrs[0] := data[0]], addrs[1..], data[1..], a);
    }
  }

  predicate Disjoint(addrs: seq<Addr>) {
    forall i, j :: 0 <= i < j < |addrs| ==> addrs[i] != addrs[j]
  }

  /** In buffers that do not overlap the k-th byte received stands at the k-th
      address. */
  lemma {:induction false} ScatterPlaces(m: Memory, addrs: seq<Addr>, data: seq<Byte>, k: nat)
    requires |addrs| == |data| && Disjoint(addrs) && k < |addrs|
    ensures addrs[k] in Scatter(m, addrs, data) && Scatter(m, addrs, data)[addrs[k]] == data[k]
    decreases |addrs|
  {
    var m' := m[addrs[0] := data[0]];
    assert forall i :: 0 <= i < |addrs[1..]| ==> addrs[1..][i] == addrs[i + 1];
    if k == 0 {
      ScatterElsewhere(m', addrs[1..], data[1..], addrs[0]);
    } else {
      ScatterPlaces(m', addrs[1..], data[1..], k - 1);
    }
  }
}
