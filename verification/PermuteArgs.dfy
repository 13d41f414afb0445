/** The in-place block exchange of getopt_long.c: `gcd` and `permute_args`.

    A vector slice of length n = a + b (a operands followed by b option words)
    is rotated so that the option words come first.  Slot q of the slice goes to
    slot (q + b) mod n; the code follows the gcd(a, b) cycles of that map, one
    swap per slot. */
module PermuteArgs {
  import opened Arithmetic

  // --------------------------------------------------------------- gcd

  /** Euclid's loop.  The ghost results are the Bezout coefficients, which are
      what makes `g` the greatest common divisor. */
  method Gcd(a: int, b: int) returns (g: int, ghost x: int, ghost y: int)
    requires a > 0 && b > 0
    ensures g > 0 && a % g == 0 && b % g == 0
    ensures forall d :: d > 0 && a % d == 0 && b % d == 0 ==> g % d == 0
    ensures x * a + y * b == g
  {
    var m, n := a, b;
    var c := m % n;
    // m == mx * a + my * b  and  n == x * a + y * b
    ghost var mx, my := 1, 0;
    x, y := 0, 1;
    while c != 0
      invariant m > 0 && n > 0 && c == m % n
      invariant m == mx * a + my * b && n == x * a + y * b
      invariant forall d :: d > 0 && m % d == 0 && n % d == 0 ==> a % d == 0 && b % d == 0
      decreases n
    {
      ghost var q := m / n;
      assert m == n * q + c;
      forall d | d > 0 && n % d == 0 && c % d == 0
        ensures m % d == 0
      {
        CombinationIsMultiple(n, q, c, 1, d);
      }
      calc {
        c;
        m - n * q;
        (mx * a + my * b) - (x * a + y * b) * q;
        { Distribute(mx, my, x, y, q, a, b); }
        (mx - x * q) * a + (my - y * q) * b;
      }
      mx, my, x, y := x, y, mx - x * q, my - y * q;
      m := n;
      n := c;
      c := m % n;
    }
    g := n;
    forall d | d > 0 && a % d == 0 && b % d == 0
      ensures g % d == 0
    {
      assert x * a == a * x && y * b == b * y;
      CombinationIsMultiple(a, x, b, y, d);
    }
  }

  lemma Distribute(mx: int, my: int, x: int, y: int, q: int, a: int, b: int)
    ensures (mx * a + my * b) - (x * a + y * b) * q == (mx - x * q) * a + (my - y * q) * b
  {
    assert (x * a + y * b) * q == (x * a) * q + (y * b) * q;
    assert (x * a) * q == (x * q) * a;
    assert (y * b) * q == (y * q) * b;
  }

  /** A common divisor divides every integer combination. */
  lemma CombinationIsMultiple(n: int, x: int, m: int, y: int, d: int)
    requires d > 0 && n % d == 0 && m % d == 0
    ensures (n * x + m * y) % d == 0
  {
    var p, q := n / d, m / d;
    assert n == d * p && m == d * q;
    assert n * x + m * y == d * (p * x + q * y) by {
      assert (d * p) * x == d * (p * x);
      assert (d * q) * y == d * (q * y);
    }
    MultipleHasNoRemainder(d, p * x + q * y);
  }

  // --------------------------------------------------- orbits of a rotation

  /** The slot reached from `c` after `j` hops of length `b` on a ring of n. */
  function Hop(c: int, j: int, b: int, n: int): int
    requires n > 0
  {
    (c + j * b) % n
  }

  /** What the orbit lemmas assume: `g` is the gcd of the two block lengths with
      its Bezout coefficients, and `len` the cycle length the code computes. */
  ghost predicate Cycles(a: int, b: int, g: int, len: int, x: int, y: int) {
    && a > 0 && b > 0 && g > 0 && len > 0
    && a % g == 0 && b % g == 0
    && x * a + y * b == g
    && g * len == a + b
  }

  /** The code's branch is one hop: back by the operand count from the option
      block, forward by the option count from the operand block. */
  lemma BranchIsHop(q: int, a: int, b: int)
    requires a > 0 && b > 0 && 0 <= q < a + b
    ensures (if q >= a then q - a else q + b) == (q + b) % (a + b)
  {
    var n := a + b;
    if q >= a {
      QuotientIsUnique(q + b, n, 1, q - a);
    } else {
      QuotientIsUnique(q + b, n, 0, q + b);
    }
  }

  lemma HopNext(c: int, j: int, b: int, n: int)
    requires n > 0
    ensures Hop(c, j + 1, b, n) == (Hop(c, j, b, n) + b) % n
  {
    assert c + (j + 1) * b == (c + j * b) + b;
    ModAddLeft(c + j * b, b, n);
  }

  /** g * t written as whole laps and hops. */
  lemma BezoutHops(a: int, b: int, g: int, x: int, y: int, t: int)
    requires x * a + y * b == g
    ensures g * t == (a + b) * (x * t) + (t * (y - x)) * b
  {
    var n := a + b;
    calc {
      g * t;
      { assert g == x * (n - b) + y * b; assert x * (n - b) == x * n - x * b; }
      (x * n + (y - x) * b) * t;
      { assert (x * n + (y - x) * b) * t == (x * n) * t + ((y - x) * b) * t; }
      (x * n) * t + ((y - x) * b) * t;
      { assert (x * n) * t == n * (x * t); assert ((y - x) * b) * t == (t * (y - x)) * b; }
      n * (x * t) + (t * (y - x)) * b;
    }
  }

  /** Multiplying a hop count by the gcd turns "hops ending where they began"
      into a statement about whole laps. */
  lemma GcdTimesCount(a: int, b: int, g: int, len: int, x: int, y: int, d: int, m: int)
    requires Cycles(a, b, g, len, x, y)
    requires d * b == (a + b) * m
    ensures d == len * (x * d + (y - x) * m)
  {
    BezoutHops(a, b, g, x, y, d);
    InLaps(a + b, g, len, x, y - x, d, d * b, m);
    CancelFactor(g, d, len * (x * d + (y - x) * m));
  }

  lemma InLaps(n: int, g: int, len: int, x: int, z: int, d: int, db: int, m: int)
    requires g * len == n && db == n * m
    ensures n * (x * d) + z * db == g * (len * (x * d + z * m))
  {
    assert z * (n * m) == n * (z * m);
    assert n * (x * d) + n * (z * m) == n * (x * d + z * m);
    assert (g * len) * (x * d + z * m) == g * (len * (x * d + z * m));
  }

  lemma CancelFactor(g: int, u: int, v: int)
    requires g > 0 && u * g == g * v
    ensures u == v
  {
    ProductBounds(g, u - v);
    assert g * (u - v) == 0;
  }

  /** A cycle does not meet itself before its full length. */
  lemma CycleIsInjective(c: int, i: int, j: int, a: int, b: int, g: int, len: int, x: int, y: int)
    requires Cycles(a, b, g, len, x, y)
    requires 0 <= i < j < len
    ensures Hop(c, i, b, a + b) != Hop(c, j, b, a + b)
  {
    var n, d := a + b, j - i;
    if Hop(c, i, b, n) == Hop(c, j, b, n) {
      var m := EqualModsDifferByMultiple(c + j * b, c + i * b, n);
      assert d * b == n * m by { assert d * b == j * b - i * b; }
      ProductBounds(len, x * d + (y - x) * m);
      GcdTimesCount(a, b, g, len, x, y, d, m);
      assert false;
    }
  }

  /** ... and is back at its start exactly then. */
  lemma CycleCloses(c: int, a: int, b: int, g: int, len: int, x: int, y: int)
    requires Cycles(a, b, g, len, x, y)
    requires 0 <= c < a + b
    ensures Hop(c, len, b, a + b) == c
  {
    var n, k := a + b, b / g;
    assert b == g * k;
    assert len * b == n * k by { assert len * (g * k) == (g * len) * k; }
    ModAddMultiple(c, n, k);
    QuotientIsUnique(c, n, 0, c);
  }

  lemma QuotientAndRest(n: int, d: int)
    requires d > 0
    ensures n == d * (n / d) + n % d && 0 <= n % d < d
  {
  }

  /** A cycle stays in its residue class modulo the gcd, so cycles with different
      starting classes are disjoint. */
  lemma CycleKeepsResidue(c: int, j: int, a: int, b: int, g: int, len: int, x: int, y: int)
    requires Cycles(a, b, g, len, x, y)
    ensures Hop(c, j, b, a + b) % g == c % g
  {
    var n, k := a + b, b / g;
    QuotientAndRest(b, g);
    QuotientAndRest(c + j * b, n);
    StaysByMultiples(c, j, b, n, g, len, k, (c + j * b) / n, Hop(c, j, b, n));
    ModAddMultiple(c, g, j * k - len * ((c + j * b) / n));
  }

  lemma StaysByMultiples(c: int, j: int, b: int, n: int, g: int, len: int, k: int, lap: int, slot: int)
    requires b == g * k && n == g * len && c + j * b == n * lap + slot
    ensures slot == c + g * (j * k - len * lap)
  {
    assert j * (g * k) == g * (j * k);
    assert (g * len) * lap == g * (len * lap);
  }

  /** Every slot of the residue class is on the cycle: Bezout supplies the hop count. */
  lemma CycleCoversResidue(c: int, q: int, a: int, b: int, g: int, len: int, x: int, y: int) returns (j: int)
    requires Cycles(a, b, g, len, x, y)
    requires 0 <= q < a + b && q % g == c % g
    ensures 0 <= j < len && Hop(c, j, b, a + b) == q
  {
    var t := EqualModsDifferByMultiple(q, c, g);
    var hops := t * (y - x);
    j := hops % len;
    QuotientAndRest(hops, len);
    QuotientAndRest(b, g);
    HopsReach(c, q, a, b, g, len, x, y, t, hops, hops / len, j, b / g);
  }

  /** q == c + g * t, and g == x * n + (y - x) * b; whole laps do not count. */
  lemma HopsReach(c: int, q: int, a: int, b: int, g: int, len: int, x: int, y: int,
                  t: int, hops: int, laps: int, j: int, k: int)
    requires 0 <= q < a + b && q - c == g * t && x * a + y * b == g && g * len == a + b
    requires hops == t * (y - x) && hops == len * laps + j && b == g * k
    ensures Hop(c, j, b, a + b) == q
  {
    BezoutHops(a, b, g, x, y, t);
    LapsAreWhole(len, laps, j, g, k, a + b);
    LandsOn(q, c, g, t, a + b, x, laps, k, j, b);
  }

  lemma LandsOn(q: int, c: int, g: int, t: int, n: int, x: int, laps: int, k: int, j: int, b: int)
    requires 0 <= q < n && q == c + g * t && g * t == n * (x * t) + (n * (laps * k) + j * b)
    ensures Hop(c, j, b, n) == q
  {
    var u := x * t + laps * k;
    assert n * (x * t) + n * (laps * k) == n * u;
    assert q == (c + j * b) + n * u;
    ModAddMultiple(c + j * b, n, u);
    QuotientIsUnique(q, n, 0, q);
  }

  lemma LapsAreWhole(len: int, laps: int, j: int, g: int, k: int, n: int)
    requires g * len == n
    ensures (len * laps + j) * (g * k) == n * (laps * k) + j * (g * k)
  {
    assert (len * laps + j) * (g * k) == (len * laps) * (g * k) + j * (g * k);
    assert (len * laps) * (g * k) == (g * len) * (laps * k);
  }

  // ---------------------------------------------------------- permute_args

  /** The vector with blocks [lo, mid) and [mid, hi) exchanged. */
  function Exchanged<T>(s: seq<T>, lo: nat, mid: nat, hi: nat): (r: seq<T>)
    requires lo <= mid <= hi <= |s|
    ensures |r| == |s|
  {
    s[..lo] + s[mid..hi] + s[lo..mid] + s[hi..]
  }

  /** Where the content of slot t (relative to the slice) comes from. */
  function Source(t: int, a: int, b: int): int {
    if t >= b then t - b else t + a
  }

  lemma SourceOfHop(q: int, a: int, b: int)
    requires a > 0 && b > 0 && 0 <= q < a + b
    ensures 0 <= (q + b) % (a + b) < a + b && Source((q + b) % (a + b), a, b) == q
  {
    BranchIsHop(q, a, b);
  }

  /** Which old slot fills slot k of the vector once the residue classes below
      `classes`, and the slots in `done`, have been filled. */
  ghost function Origin(k: int, lo: int, a: int, b: int, g: int, classes: int, done: set<int>): int
    requires g > 0
  {
    if lo <= k < lo + a + b && ((k - lo) % g < classes || k - lo in done)
    then lo + Source(k - lo, a, b) else k
  }

  /** Mid-cycle state: every slot but the cycle's start holds its Origin's word;
      the start slot holds the word in hand, which came from slot `hand`. */
  ghost predicate Partway<T>(now: seq<T>, was: seq<T>, lo: int, a: int, b: int, g: int,
                             classes: int, done: set<int>, c: int, hand: int)
  {
    && a > 0 && b > 0 && g > 0 && 0 <= lo && lo + a + b <= |was| == |now|
    && 0 <= c < a + b && 0 <= hand < a + b
    && now[lo + c] == was[lo + hand]
    && forall k {:trigger now[k]} :: 0 <= k < |was| && k != lo + c ==>
         now[k] == was[Origin(k, lo, a, b, g, classes, done)]
  }

  /** One swap that fills a new slot and picks up what was in it. */
  lemma SwapFills<T>(now: seq<T>, was: seq<T>, lo: int, a: int, b: int, g: int,
                     classes: int, done: set<int>, c: int, q: int, next: int)
    requires Partway(now, was, lo, a, b, g, classes, done, c, q)
    requires next == (q + b) % (a + b) && next != c && next !in done && next % g == classes
    ensures Partway(now[lo + next := now[lo + c]][lo + c := now[lo + next]], was, lo, a, b, g,
                    classes, done + {next}, c, next)
  {
    SourceOfHop(q, a, b);
    assert Origin(lo + next, lo, a, b, g, classes, done) == lo + next;
  }

  /** `done` holds exactly the slots reached by hops 1..j. */
  ghost predicate Visited(done: set<int>, c: int, j: int, b: int, n: int) {
    && n > 0
    && (forall k :: 1 <= k <= j ==> Hop(c, k, b, n) in done)
    && forall t :: t in done ==> exists k :: 1 <= k <= j && Hop(c, k, b, n) == t
  }

  /** The state of the inner loop after `j` of its `len` swaps. */
  ghost predicate InCycle<T>(now: seq<T>, was: seq<T>, lo: int, a: int, b: int, g: int, len: int,
                             i: int, j: int, done: set<int>)
  {
    && 0 <= i < g && 0 <= j <= len
    && Visited(done, a + i, j, b, a + b)
    && Partway(now, was, lo, a, b, g, i, done, a + i,
               if j == len then Source(a + i, a, b) else Hop(a + i, j, b, a + b))
  }

  lemma CycleStep<T>(now: seq<T>, was: seq<T>, lo: int, a: int, b: int, g: int, len: int, x: int, y: int,
                     i: int, j: int, done: set<int>) returns (next: int)
    requires Cycles(a, b, g, len, x, y)
    requires InCycle(now, was, lo, a, b, g, len, i, j, done) && j < len
    ensures next == Hop(a + i, j + 1, b, a + b) && 0 <= next < a + b
    ensures var q := Hop(a + i, j, b, a + b);
      0 <= q < a + b && next == if q >= a then q - a else q + b
    ensures InCycle(now[lo + next := now[lo + a + i]][lo + a + i := now[lo + next]], was, lo, a, b, g, len,
                    i, j + 1, done + {next})
  {
    var n, c := a + b, a + i;
    var q := Hop(c, j, b, n);
    next := Hop(c, j + 1, b, n);
    BranchIsHop(q, a, b);
    SourceOfHop(q, a, b);
    HopNext(c, j, b, n);
    NextIsNew(c, j, done, n, a, b, g, len, x, y);
    StartOfCycle(a, b, g, i);
    CycleKeepsResidue(c, j + 1, a, b, g, len, x, y);
    VisitOneMore(done, c, j, b, n);
    if next != c {
      SwapFills(now, was, lo, a, b, g, i, done, c, q, next);
    } else {
      assert now[lo + next := now[lo + c]][lo + c := now[lo + next]] == now;
    }
  }

  lemma VisitOneMore(done: set<int>, c: int, j: int, b: int, n: int)
    requires j >= 0 && Visited(done, c, j, b, n)
    ensures Visited(done + {Hop(c, j + 1, b, n)}, c, j + 1, b, n)
  {
  }

  lemma CycleFinished<T>(now: seq<T>, was: seq<T>, lo: int, a: int, b: int, g: int, len: int, x: int, y: int,
                         i: int, done: set<int>)
    requires Cycles(a, b, g, len, x, y)
    requires InCycle(now, was, lo, a, b, g, len, i, len, done)
    ensures ClassesDone(now, was, lo, a, b, g, i + 1)
  {
    StartOfCycle(a, b, g, i);
    CycleComplete(a + i, done, a + b, a, b, g, len, x, y);
    forall k | 0 <= k < |was|
      ensures now[k] == was[Origin(k, lo, a, b, g, i + 1, {})]
    {
      assert k != lo + a + i ==> now[k] == was[Origin(k, lo, a, b, g, i, done)];
    }
  }

  /** Between cycles, the classes below `classes` are in place. */
  ghost predicate ClassesDone<T>(now: seq<T>, was: seq<T>, lo: int, a: int, b: int, g: int, classes: int) {
    && a > 0 && b > 0 && g > 0 && 0 <= lo && lo + a + b <= |was| == |now|
    && forall k {:trigger now[k]} :: 0 <= k < |was| ==> now[k] == was[Origin(k, lo, a, b, g, classes, {})]
  }

  lemma NoClassesYet<T>(was: seq<T>, lo: int, a: int, b: int, g: int)
    requires a > 0 && b > 0 && g > 0 && 0 <= lo && lo + a + b <= |was|
    ensures ClassesDone(was, was, lo, a, b, g, 0)
  {
  }

  lemma CycleBegins<T>(now: seq<T>, was: seq<T>, lo: int, a: int, b: int, g: int, len: int, x: int, y: int, i: int)
    requires Cycles(a, b, g, len, x, y) && 0 <= i < g
    requires ClassesDone(now, was, lo, a, b, g, i)
    ensures a + i < a + b && Hop(a + i, 0, b, a + b) == a + i
    ensures InCycle(now, was, lo, a, b, g, len, i, 0, {})
  {
    StartOfCycle(a, b, g, i);
    assert now[lo + a + i] == was[Origin(lo + a + i, lo, a, b, g, i, {})];
  }

  /** `permute_args`: exchange the operands in [nonoptStart, nonoptEnd) with the
      option words in [nonoptEnd, optEnd), keeping the order inside each block. */
  method Permute<T>(nonoptStart: int, nonoptEnd: int, optEnd: int, nargv: array<T>)
    requires 0 <= nonoptStart < nonoptEnd < optEnd <= nargv.Length
    modifies nargv
    ensures nargv[..] == Exchanged(old(nargv[..]), nonoptStart, nonoptEnd, optEnd)
  {
    hide *;
    var nnonopts := nonoptEnd - nonoptStart;
    var nopts := optEnd - nonoptEnd;
    var ncycle; ghost var x, y;
    ncycle, x, y := Gcd(nnonopts, nopts);
    var cyclelen := (optEnd - nonoptStart) / ncycle;
    ghost var was, n := nargv[..], nnonopts + nopts;
    ghost var now := was;
    NoClassesYet(was, nonoptStart, nnonopts, nopts, ncycle);
    CycleLength(optEnd - nonoptStart, nnonopts, nopts, ncycle, x, y);

    for i := 0 to ncycle
      invariant nargv[..] == now && ClassesDone(now, was, nonoptStart, nnonopts, nopts, ncycle, i)
    {
      var cstart := nonoptEnd + i;
      var pos := cstart;
      ghost var done: set<int> := {};
      CycleBegins(now, was, nonoptStart, nnonopts, nopts, ncycle, cyclelen, x, y, i);
      for j := 0 to cyclelen
        invariant pos == nonoptStart + Hop(nnonopts + i, j, nopts, n)
        invariant nargv[..] == now && InCycle(now, was, nonoptStart, nnonopts, nopts, ncycle, cyclelen, i, j, done)
      {
        ghost var next := CycleStep(now, was, nonoptStart, nnonopts, nopts, ncycle, cyclelen, x, y, i, j, done);
        if pos >= nonoptEnd {
          pos := pos - nnonopts;
        } else {
          pos := pos + nopts;
        }
        var swap := nargv[pos];
        nargv[pos] := nargv[cstart];
        nargv[cstart] := swap;
        now, done := now[pos := now[cstart]][cstart := now[pos]], done + {next};
      }
      CycleFinished(now, was, nonoptStart, nnonopts, nopts, ncycle, cyclelen, x, y, i, done);
    }
    ExchangedFromSources(was, now, nonoptStart, nonoptEnd, optEnd, ncycle);
  }

  lemma StartOfCycle(a: int, b: int, g: int, i: int)
    requires a > 0 && b > 0 && g > 0 && a % g == 0 && b % g == 0 && 0 <= i < g
    ensures (a + i) % g == i && a + i < a + b && Hop(a + i, 0, b, a + b) == a + i
  {
    assert a + i == g * (a / g) + i && b == g * (b / g);
    ProductBounds(g, b / g);
    QuotientIsUnique(a + i, g, a / g, i);
    QuotientIsUnique(a + i, a + b, 0, a + i);
  }

  /** The quotient the code computes is the exact cycle length. */
  lemma CycleLength(n: int, a: int, b: int, g: int, x: int, y: int)
    requires n == a + b && a > 0 && b > 0 && g > 0 && a % g == 0 && b % g == 0 && x * a + y * b == g
    ensures Cycles(a, b, g, n / g, x, y)
  {
    CombinationIsMultiple(a, 1, b, 1, g);
    ProductBounds(g, n / g);
    assert n == g * (n / g);
  }

  /** The next hop lands on a slot not yet filled, or closes the cycle. */
  lemma NextIsNew(c: int, j: int, done: set<int>, n: int, a: int, b: int, g: int, len: int, x: int, y: int)
    requires Cycles(a, b, g, len, x, y) && n == a + b
    requires 0 <= c < n && 0 <= j < len
    requires forall t :: t in done ==> exists k :: 1 <= k <= j && Hop(c, k, b, n) == t
    ensures Hop(c, j + 1, b, n) == c <==> j + 1 == len
    ensures Hop(c, j + 1, b, n) !in done
  {
    CycleCloses(c, a, b, g, len, x, y);
    assert Hop(c, 0, b, n) == c by { QuotientIsUnique(c, n, 0, c); }
    if j + 1 < len {
      CycleIsInjective(c, 0, j + 1, a, b, g, len, x, y);
    }
    if Hop(c, j + 1, b, n) in done {
      var k :| 1 <= k <= j && Hop(c, k, b, n) == Hop(c, j + 1, b, n);
      if j + 1 < len {
        CycleIsInjective(c, k, j + 1, a, b, g, len, x, y);
      } else {
        CycleIsInjective(c, 0, k, a, b, g, len, x, y);
      }
      assert false;
    }
  }

  /** After its full length a cycle has filled the whole residue class and nothing else. */
  lemma CycleComplete(c: int, done: set<int>, n: int, a: int, b: int, g: int, len: int, x: int, y: int)
    requires Cycles(a, b, g, len, x, y) && n == a + b
    requires 0 <= c < n
    requires forall k :: 1 <= k <= len ==> Hop(c, k, b, n) in done
    requires forall t :: t in done ==> exists k :: 1 <= k <= len && Hop(c, k, b, n) == t
    ensures forall t :: 0 <= t < n ==> (t in done <==> t % g == c % g)
  {
    forall t | 0 <= t < n
      ensures t in done <==> t % g == c % g
    {
      if t in done {
        var k :| 1 <= k <= len && Hop(c, k, b, n) == t;
        CycleKeepsResidue(c, k, a, b, g, len, x, y);
      }
      if t % g == c % g {
        var j := CycleCoversResidue(c, t, a, b, g, len, x, y);
        if j == 0 {
          CycleCloses(c, a, b, g, len, x, y);
          assert Hop(c, 0, b, n) == c by { QuotientIsUnique(c, n, 0, c); }
          assert Hop(c, len, b, n) in done;
        } else {
          assert Hop(c, j, b, n) in done;
        }
      }
    }
  }

  lemma ExchangedFromSources<T>(was: seq<T>, now: seq<T>, lo: nat, mid: nat, hi: nat, g: int)
    requires lo < mid < hi <= |was|
    requires ClassesDone(now, was, lo, mid - lo, hi - mid, g, g)
    ensures now == Exchanged(was, lo, mid, hi)
  {
    var want := Exchanged(was, lo, mid, hi);
    forall k | 0 <= k < |was|
      ensures now[k] == want[k]
    {
      assert now[k] == was[Origin(k, lo, mid - lo, hi - mid, g, g, {})];
    }
  }
}
