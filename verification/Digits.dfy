/** Integers as text: the digit loops of the printf engine, which write backwards
    through a scratch buffer and put in thousands separators as they go. */
module Digits {
  import opened Arithmetic

  /** What the loops need to know of the platform: the largest `long` and the
      largest `intmax_t`; the unsigned types go up to twice that and one. */
  datatype Widths = Widths(longMax: nat, intmaxMax: nat)

  predicate Sensible(w: Widths) {
    9 <= w.longMax <= w.intmaxMax < 0x8000_0000_0000_0000_0000_0000_0000_0000
  }

  const SCRATCH := 100
  const CHAR_MAX := 127

  function Decimals(): (g: string)
    ensures |g| == 10
  {
    "0123456789"
  }

  /** The conversion's other parameters; `grp` is the locale's list of group sizes. */
  datatype Style = Style(base: nat, octzero: bool, xdigs: string, needgrp: bool, thousep: char, grp: seq<int>)

  predicate Usable(st: Style) {
    && (st.base == 8 || st.base == 10 || st.base == 16)
    && |st.xdigs| == 16
    && forall g :: g in st.grp ==> g != 0
  }

  // ------------------------------------------------------------ what is meant

  function Glyphs(st: Style): (g: string)
    requires Usable(st)
    ensures |g| >= st.base
  {
    if st.base == 16 then st.xdigs else Decimals()
  }

  /** v in base b, most significant digit first. */
  function Numeral(v: nat, b: nat, glyphs: string): (s: string)
    requires 2 <= b <= |glyphs|
    ensures |s| >= 1
  {
    if v < b then [glyphs[v]]
    else
      DivisionShrinks(v, b);
      Numeral(v / b, b, glyphs) + [glyphs[v % b]]
  }

  predicate Stops(grp: seq<int>) {
    grp == [] || grp[0] <= 0 || grp[0] == CHAR_MAX
  }

  /** The sizes that apply further left: the last one repeats. */
  function Further(grp: seq<int>): (r: seq<int>)
    ensures r == [] <==> grp == []
  {
    if |grp| > 1 then grp[1..] else grp
  }

  /** Digits with separators: whole groups are split off from the right for as long
      as digits remain to their left. */
  function Grouped(d: string, grp: seq<int>, sep: char): string
    decreases |d|
  {
    if Stops(grp) || |d| <= grp[0] then d
    else Grouped(d[..|d| - grp[0]], Further(grp), sep) + [sep] + d[|d| - grp[0]..]
  }

  /** What the conversion is meant to write. */
  function Intended(v: nat, st: Style): string
    requires Usable(st)
  {
    var d := Numeral(v, st.base, Glyphs(st));
    if st.base == 10 then (if st.needgrp then Grouped(d, st.grp, st.thousep) else d)
    else if st.base == 8 && st.octzero && d[0] != '0' then "0" + d
    else d
  }

  /** The input on which the code departs: a first group of one digit, in a value
      whose first digit is split off with unsigned arithmetic. */
  predicate SkipsCheck(max: nat, v: nat, st: Style) {
    st.base == 10 && st.needgrp && v > max && st.grp != [] && st.grp[0] == 1
  }

  /** What it does write. */
  function Written(max: nat, v: nat, st: Style): string
    requires Usable(st)
  {
    if SkipsCheck(max, v, st) then Numeral(v, 10, Decimals()) else Intended(v, st)
  }

  // --------------------------------------------------------------- the loops

  /** The separators still to come when `ndig` digits of the current group are out. */
  function Rest(d: string, ndig: nat, grp: seq<int>, sep: char): string {
    if Stops(grp) || ndig >= grp[0] || |d| + ndig <= grp[0] then d
    else Grouped(d[..|d| - (grp[0] - ndig)], Further(grp), sep) + [sep] + d[|d| - (grp[0] - ndig)..]
  }

  /** The digit just written fills its group, and there are more. */
  predicate Fills(d: string, ndig: nat, grp: seq<int>) {
    !Stops(grp) && ndig == grp[0] && d != ""
  }

  /** One more digit of the group, in front of what is written already. */
  lemma RestStep(d: string, c: char, ndig: nat, grp: seq<int>, sep: char, tail: string)
    ensures Rest(d + [c], ndig, grp, sep) + tail ==
      (if Fills(d, ndig + 1, grp) then Rest(d, 0, Further(grp), sep) + ([sep] + ([c] + tail))
       else Rest(d, ndig + 1, grp, sep) + ([c] + tail))
  {
    RestDigit(d, c, ndig, grp, sep);
    hide *;
  }

  lemma RestDigit(d: string, c: char, ndig: nat, grp: seq<int>, sep: char)
    ensures Rest(d + [c], ndig, grp, sep) ==
      (if Fills(d, ndig + 1, grp) then Rest(d, 0, Further(grp), sep) + [sep] + [c]
       else Rest(d, ndig + 1, grp, sep) + [c])
  {
    var e := d + [c];
    if !Stops(grp) && ndig < grp[0] && |e| + ndig > grp[0] {
      var k := |e| - (grp[0] - ndig);
      assert e[..k] == d[..k];
      assert e[k..] == d[k..] + [c];
      if ndig + 1 == grp[0] {
        assert d[..k] == d;
        assert Rest(d, 0, Further(grp), sep) == Grouped(d, Further(grp), sep) by { RestOfAll(d, Further(grp), sep); }
      }
    }
  }

  lemma FillsWhen(d: string, ndig: nat, grp: seq<int>)
    requires ndig > 0
    ensures Fills(d, ndig, grp) <==> grp != [] && ndig == grp[0] && grp[0] != CHAR_MAX && d != ""
  {
  }

  /** `*--cp = c`. */
  method Put(buf: array<char>, end: nat, c: char) returns (cp: nat)
    requires 0 < end <= buf.Length
    modifies buf
    ensures cp == end - 1 && buf[cp..] == [c] + old(buf[end..])
  {
    cp := end - 1;
    buf[cp] := c;
  }

  function Rules(st: Style): seq<int> {
    if st.needgrp then st.grp else []
  }

  lemma NumeralStep(v: nat)
    requires v > 0
    ensures Numeral(v, 10, Decimals()) ==
      (if v > 9 then Numeral(v / 10, 10, Decimals()) else "") + [Decimals()[v % 10]]
  {
  }

  lemma {:induction false} GroupedRoom(d: string, grp: seq<int>, sep: char)
    ensures |Grouped(d, grp, sep)| >= |d|
    decreases |d|
  {
    if !(Stops(grp) || |d| <= grp[0]) {
      GroupedRoom(d[..|d| - grp[0]], Further(grp), sep);
    }
  }

  /** The decimal loop: `ndig0` digits of the first group are out already. */
  method Decimal(v: nat, buf: array<char>, end: nat, ndig0: nat, st: Style) returns (cp: nat)
    requires v > 0
    requires |Rest(Numeral(v, 10, Decimals()), ndig0, Rules(st), st.thousep)| <= end <= buf.Length
    modifies buf
    ensures cp <= end
    ensures buf[cp..] == Rest(Numeral(v, 10, Decimals()), ndig0, Rules(st), st.thousep) + old(buf[end..])
  {
    var sval, ndig := v, ndig0;
    var grp := if st.needgrp then st.grp else [];
    assert grp == Rules(st);
    ghost var d := Numeral(v, 10, Decimals());
    ghost var text := Rest(d, ndig0, grp, st.thousep) + buf[end..];
    hide *;
    cp := end;
    while true
      invariant cp <= end && sval > 0 && d == Numeral(sval, 10, Decimals())
      invariant grp != [] ==> st.needgrp
      invariant text == Rest(d, ndig, grp, st.thousep) + buf[cp..]
      invariant |Rest(d, ndig, grp, st.thousep)| <= cp
      decreases sval
    {
      NumeralStep(sval);
      d := if sval > 9 then Numeral(sval / 10, 10, Decimals()) else "";
      RestStep(d, Decimals()[sval % 10], ndig, grp, st.thousep, buf[cp..]);
      cp := Put(buf, cp, Decimals()[sval % 10]);
      ndig := ndig + 1;
      FillsWhen(d, ndig, grp);
      if st.needgrp && grp != [] && ndig == grp[0] && grp[0] != CHAR_MAX && sval > 9 {
        cp := Put(buf, cp, st.thousep);
        ndig := 0;
        grp := Further(grp);
      }
      sval := sval / 10;
      if sval == 0 {
        break;
      }
    }
    RestOfNothing(ndig, grp, st.thousep);
  }

  lemma Join2(a: string, c: char, t: string)
    ensures (a + [c]) + t == a + ([c] + t)
  {
  }

  lemma RestOfNothing(ndig: nat, grp: seq<int>, sep: char)
    ensures Rest("", ndig, grp, sep) == ""
  {
  }

  /** The octal and hexadecimal loops. */
  method Bits(v: nat, buf: array<char>, b: nat, glyphs: string) returns (cp: nat)
    requires 2 <= b <= |glyphs| && |Numeral(v, b, glyphs)| <= buf.Length
    modifies buf
    ensures cp <= buf.Length && buf[cp..] == Numeral(v, b, glyphs)
  {
    var val: nat := v;
    cp := buf.Length;
    while true
      invariant |Numeral(val, b, glyphs)| <= cp <= buf.Length
      invariant Numeral(v, b, glyphs) == Numeral(val, b, glyphs) + buf[cp..]
      decreases val
    {
      ghost var tail := buf[cp..];
      cp := Put(buf, cp, glyphs[val % b]);
      if val < b {
        assert val % b == val;
        break;
      }
      DivisionShrinks(val, b);
      Join2(Numeral(val / b, b, glyphs), glyphs[val % b], tail);
      val := val / b;
    }
  }

  /** The body shared by both conversions, which differ in the largest value they
      take into signed arithmetic. */
  method Convert(max: nat, v: nat, buf: array<char>, st: Style) returns (cp: nat)
    requires Usable(st) && 9 <= max && v <= 2 * max + 1
    requires |Written(max, v, st)| < buf.Length
    modifies buf
    ensures cp <= buf.Length && buf[cp..] == Written(max, v, st)
  {
    cp := buf.Length;
    if st.base == 10 {
      NumeralRoom(max, v, st);
      if v < 10 {
        cp := Put(buf, cp, Decimals()[v]);
        return;
      }
      var ndig, sval := 0, v;
      if v > max {
        cp := Put(buf, cp, Decimals()[v % 10]);
        ndig := 1;
        sval := v / 10;
        FirstDigit(max, v, st);
      } else {
        IntendedIsRest(v, st);
      }
      cp := Decimal(sval, buf, cp, ndig, st);
    } else if st.base == 8 {
      cp := Bits(v, buf, 8, Decimals());
      if st.octzero && buf[cp] != '0' {
        cp := Put(buf, cp, '0');
      }
    } else {
      cp := Bits(v, buf, 16, st.xdigs);
    }
  }

  lemma RestOfAll(d: string, grp: seq<int>, sep: char)
    ensures Rest(d, 0, grp, sep) == Grouped(d, grp, sep)
    ensures Rest(d, 0, [], sep) == d
  {
  }

  lemma IntendedIsRest(v: nat, st: Style)
    requires Usable(st) && st.base == 10
    ensures Intended(v, st) == Rest(Numeral(v, 10, Decimals()), 0, Rules(st), st.thousep)
  {
    hide Numeral, Rest, Grouped;
    RestOfAll(Numeral(v, 10, Decimals()), st.grp, st.thousep);
  }

  /** What the decimal loop has left to write when the first digit is out already. */
  lemma FirstDigit(max: nat, v: nat, st: Style)
    requires Usable(st) && st.base == 10 && v > max >= 9
    ensures Written(max, v, st) ==
      Rest(Numeral(v / 10, 10, Decimals()), 1, Rules(st), st.thousep) + [Decimals()[v % 10]]
  {
    hide Numeral, Rest, Intended, Decimals, Grouped;
    var d, c := Numeral(v / 10, 10, Decimals()), Decimals()[v % 10];
    NumeralStep(v);
    IntendedIsRest(v, st);
    if SkipsCheck(max, v, st) {
      GroupIsFull(d, 1, st.grp, st.thousep);
    } else {
      RestStep(d, c, 0, Rules(st), st.thousep, "");
      assert Rest(d + [c], 0, Rules(st), st.thousep) + "" == Rest(d + [c], 0, Rules(st), st.thousep);
      assert [c] + "" == [c];
    }
  }

  lemma GroupIsFull(d: string, ndig: nat, grp: seq<int>, sep: char)
    requires grp != [] && ndig >= grp[0]
    ensures Rest(d, ndig, grp, sep) == d
  {
  }

  lemma NumeralRoom(max: nat, v: nat, st: Style)
    requires Usable(st) && st.base == 10
    ensures v < 10 ==> Written(max, v, st) == [Decimals()[v]]
  {
  }

  /** `__ultoa`. */
  method Ultoa(w: Widths, v: nat, buf: array<char>, st: Style) returns (cp: nat)
    requires Sensible(w) && Usable(st) && v <= 2 * w.longMax + 1 && buf.Length == SCRATCH
    modifies buf
    ensures cp <= SCRATCH && buf[cp..] == Written(w.longMax, v, st)
  {
    FitsScratch(w.longMax, v, st);
    cp := Convert(w.longMax, v, buf, st);
  }

  function UjtoaText(w: Widths, v: nat, st: Style): string
    requires Usable(st)
  {
    Written(if v <= 2 * w.longMax + 1 then w.longMax else w.intmaxMax, v, st)
  }

  /** `__ujtoa`: values that fit an `unsigned long` go to `__ultoa`. */
  method Ujtoa(w: Widths, v: nat, buf: array<char>, st: Style) returns (cp: nat)
    requires Sensible(w) && Usable(st) && v <= 2 * w.intmaxMax + 1 && buf.Length == SCRATCH
    modifies buf
    ensures cp <= SCRATCH && buf[cp..] == UjtoaText(w, v, st)
  {
    if v <= 2 * w.longMax + 1 {
      cp := Ultoa(w, v, buf, st);
    } else {
      FitsScratch(w.intmaxMax, v, st);
      cp := Convert(w.intmaxMax, v, buf, st);
    }
  }

  // ------------------------------------------------- the scratch buffer is enough

  lemma {:induction false} NumeralLength(v: nat, b: nat, glyphs: string, k: nat)
    requires 2 <= b <= |glyphs| && k >= 1 && v < Power(b, k)
    ensures |Numeral(v, b, glyphs)| <= k
  {
    if v >= b {
      PowerAbove(v, b, k);
      DivisionShrinks(v, b);
      hide Power;
      NumeralLength(v / b, b, glyphs, k - 1);
    }
  }

  lemma PowerAbove(v: nat, b: nat, k: nat)
    requires b >= 2 && k >= 1 && b <= v < Power(b, k)
    ensures k >= 2 && 0 <= v / b < Power(b, k - 1)
  {
    var p, q := Power(b, k - 1), v / b;
    assert k == 1 ==> p == 1;
    assert Power(b, k) == b * p;
    DivisionShrinks(v, b);
    hide *;
    assert v == b * q + v % b;
    ProductLess(b, q, p);
  }

  lemma {:induction false} GroupedLength(d: string, grp: seq<int>, sep: char)
    requires d != ""
    ensures |Grouped(d, grp, sep)| <= 2 * |d| - 1
    decreases |d|
  {
    if !Stops(grp) && |d| > grp[0] {
      GroupedLength(d[..|d| - grp[0]], Further(grp), sep);
    }
  }

  lemma {:induction false} PowerAdd(b: nat, m: nat, n: nat)
    ensures Power(b, m + n) == Power(b, m) * Power(b, n)
  {
    if m > 0 {
      PowerAdd(b, m - 1, n);
      var x, y, z := Power(b, m - 1), Power(b, n), Power(b, m - 1 + n);
      assert Power(b, m) == b * x && Power(b, m + n) == b * z && z == x * y;
      hide *;
      assert b * (x * y) == (b * x) * y;
    }
  }

  const TWO128 := 0x1_0000_0000_0000_0000_0000_0000_0000_0000

  lemma Magnitudes()
    ensures Power(10, 39) >= TWO128 && Power(8, 43) >= TWO128 && Power(16, 32) >= TWO128
  {
    assert Power(10, 10) == 1_0000000000;
    PowerAdd(10, 10, 10);
    PowerAdd(10, 20, 10);
    assert Power(10, 9) == 1_000000000;
    PowerAdd(10, 30, 9);
    assert Power(8, 10) == 0x4000_0000;
    PowerAdd(8, 10, 10);
    PowerAdd(8, 20, 20);
    assert Power(8, 3) == 0x200;
    PowerAdd(8, 40, 3);
    assert Power(16, 8) == 0x1_0000_0000;
    PowerAdd(16, 8, 8);
    PowerAdd(16, 16, 16);
  }

  /** Even for a 128-bit integer with a separator between any two digits. */
  lemma FitsScratch(max: nat, v: nat, st: Style)
    requires Usable(st) && v < TWO128
    ensures |Written(max, v, st)| <= 77 < SCRATCH
  {
    Magnitudes();
    var d := Numeral(v, st.base, Glyphs(st));
    if st.base == 10 {
      NumeralLength(v, 10, Decimals(), 39);
      GroupedLength(d, st.grp, st.thousep);
    } else if st.base == 8 {
      NumeralLength(v, 8, Decimals(), 43);
    } else {
      NumeralLength(v, 16, st.xdigs, 32);
    }
  }

  // ---------------------------------------------------------- reading it back

  predicate Distinct(glyphs: string) {
    forall i, j :: 0 <= i < j < |glyphs| ==> glyphs[i] != glyphs[j]
  }

  function IndexOf(glyphs: string, c: char): nat {
    if glyphs == "" || glyphs[0] == c then 0 else 1 + IndexOf(glyphs[1..], c)
  }

  lemma {:induction false} IndexFound(glyphs: string, k: nat)
    requires Distinct(glyphs) && k < |glyphs|
    ensures IndexOf(glyphs, glyphs[k]) == k
  {
    if k > 0 {
      assert glyphs[1..][k - 1] == glyphs[k];
      IndexFound(glyphs[1..], k - 1);
    }
  }

  /** The number that s denotes in base b. */
  function Evaluate(s: string, b: nat, glyphs: string): nat {
    if s == "" then 0 else Evaluate(s[..|s| - 1], b, glyphs) * b + IndexOf(glyphs, s[|s| - 1])
  }

  lemma EvaluateEnd(s: string, c: char, b: nat, glyphs: string)
    ensures Evaluate(s + [c], b, glyphs) == Evaluate(s, b, glyphs) * b + IndexOf(glyphs, c)
  {
    assert (s + [c])[..|s|] == s;
  }

  lemma {:induction false} EvaluateNumeral(v: nat, b: nat, glyphs: string)
    requires 2 <= b <= |glyphs| && Distinct(glyphs)
    ensures Evaluate(Numeral(v, b, glyphs), b, glyphs) == v
  {
    hide Evaluate, IndexOf, Distinct;
    IndexFound(glyphs, v % b);
    if v < b {
      assert v % b == v;
      EvaluateEnd("", glyphs[v], b, glyphs);
      assert "" + [glyphs[v]] == [glyphs[v]];
      assert Evaluate("", b, glyphs) == 0 by { EvaluateNothing(b, glyphs); }
    } else {
      DivisionShrinks(v, b);
      EvaluateNumeral(v / b, b, glyphs);
      EvaluateEnd(Numeral(v / b, b, glyphs), glyphs[v % b], b, glyphs);
      hide *;
      assert v / b * b + v % b == v;
    }
  }

  lemma EvaluateNothing(b: nat, glyphs: string)
    ensures Evaluate("", b, glyphs) == 0
  {
  }

  function Stripped(s: string, sep: char): string {
    if s == "" then "" else Stripped(s[..|s| - 1], sep) + (if s[|s| - 1] == sep then "" else [s[|s| - 1]])
  }

  lemma {:induction false} StripNothing(s: string, sep: char)
    requires sep !in s
    ensures Stripped(s, sep) == s
  {
    if s != "" {
      StripNothing(s[..|s| - 1], sep);
    }
  }

  lemma {:induction false} StripJoin(s: string, t: string, sep: char)
    ensures Stripped(s + t, sep) == Stripped(s, sep) + Stripped(t, sep)
  {
    if t == "" {
      assert s + t == s;
    } else {
      StripJoin(s, t[..|t| - 1], sep);
      assert (s + t)[..|s + t| - 1] == s + t[..|t| - 1];
    }
  }

  lemma {:induction false} StripGrouped(d: string, grp: seq<int>, sep: char)
    requires sep !in d
    ensures Stripped(Grouped(d, grp, sep), sep) == d
    decreases |d|
  {
    hide Stripped;
    if Stops(grp) || |d| <= grp[0] {
      StripNothing(d, sep);
    } else {
      var k := |d| - grp[0];
      assert d == d[..k] + d[k..];
      StripGrouped(d[..k], Further(grp), sep);
      StripOne(Grouped(d[..k], Further(grp), sep), d[k..], sep);
    }
  }

  /** The size of the k-th group from the right; the last size given repeats. */
  function SizeAt(grp: seq<int>, k: nat): int
    requires grp != []
  {
    if k < |grp| then grp[k] else grp[|grp| - 1]
  }

  /** The digits in the first k groups. */
  function Reach(grp: seq<int>, k: nat): int
    requires grp != []
  {
    if k == 0 then 0 else Reach(grp, k - 1) + SizeAt(grp, k - 1)
  }

  /** A separator is due behind the k-th group: no size so far ends the grouping, and
      there are digits to the left. */
  ghost predicate Due(d: string, grp: seq<int>, k: nat)
    requires grp != []
  {
    (forall i :: 0 <= i < k ==> 0 < SizeAt(grp, i) && SizeAt(grp, i) != CHAR_MAX) && Reach(grp, k) < |d|
  }

  lemma {:induction false} ReachFurther(grp: seq<int>, k: nat)
    requires grp != []
    ensures forall i: nat :: SizeAt(Further(grp), i) == SizeAt(grp, i + 1)
    ensures Reach(grp, k + 1) == grp[0] + Reach(Further(grp), k)
  {
    if k > 0 {
      ReachFurther(grp, k - 1);
    }
  }

  lemma DueFurther(d: string, grp: seq<int>, k: nat)
    requires grp != [] && !Stops(grp) && |d| > grp[0]
    ensures Due(d[..|d| - grp[0]], Further(grp), k) <==> Due(d, grp, k + 1)
  {
    ReachFurther(grp, k);
    var near := Further(grp);
    assert SizeAt(grp, 0) == grp[0];
    if Due(d[..|d| - grp[0]], near, k) {
      forall i | 0 <= i < k + 1
        ensures 0 < SizeAt(grp, i) && SizeAt(grp, i) != CHAR_MAX
      {
        assert i > 0 ==> SizeAt(near, i - 1) == SizeAt(grp, i);
      }
    }
    if Due(d, grp, k + 1) {
      forall i | 0 <= i < k
        ensures 0 < SizeAt(near, i) && SizeAt(near, i) != CHAR_MAX
      {
        assert SizeAt(near, i) == SizeAt(grp, i + 1);
      }
    }
  }

  /** Where the separators stand: the k-th one from the right in front of exactly k
      groups, for every k that is due. */
  lemma {:induction false} SeparatorsAt(d: string, grp: seq<int>, sep: char, k: nat)
    requires grp != [] && k > 0 && Due(d, grp, k)
    ensures var s := Grouped(d, grp, sep);
      0 <= |s| - Reach(grp, k) - k < |s| && s[|s| - Reach(grp, k) - k] == sep
    decreases k
  {
    assert SizeAt(grp, 0) == grp[0] && Reach(grp, 0) == 0;
    assert !Stops(grp);
    DueReaches(d, grp, k);
    var left := d[..|d| - grp[0]];
    ReachFurther(grp, k - 1);
    if k == 1 {
      assert Reach(grp, 1) == grp[0];
    } else {
      DueFurther(d, grp, k - 1);
      SeparatorsAt(left, Further(grp), sep, k - 1);
    }
  }

  lemma {:induction false} DueReaches(d: string, grp: seq<int>, k: nat)
    requires grp != [] && k > 0 && Due(d, grp, k)
    ensures grp[0] <= Reach(grp, k) && |d| > grp[0]
    decreases k
  {
    assert SizeAt(grp, 0) == grp[0] && Reach(grp, 0) == 0;
    if k > 1 {
      assert 0 < SizeAt(grp, k - 1);
      DueReaches(d, grp, k - 1);
    }
  }

  /** And there are no more than are due. */
  lemma {:induction false} SeparatorsCounted(d: string, grp: seq<int>, sep: char, n: nat)
    requires grp != [] && (forall k :: 1 <= k <= n ==> Due(d, grp, k)) && !Due(d, grp, n + 1)
    ensures |Grouped(d, grp, sep)| == |d| + n
    decreases n
  {
    assert SizeAt(grp, 0) == grp[0] && Reach(grp, 0) == 0 && Reach(grp, 1) == grp[0];
    if n == 0 {
      assert Stops(grp) || |d| <= grp[0];
    } else {
      assert Due(d, grp, 1);
      var left := d[..|d| - grp[0]];
      DueFurther(d, grp, n);
      forall k | 1 <= k <= n - 1
        ensures Due(left, Further(grp), k)
      {
        DueFurther(d, grp, k);
      }
      SeparatorsCounted(left, Further(grp), sep, n - 1);
    }
  }

  lemma StripOne(a: string, b: string, sep: char)
    requires sep !in b
    ensures Stripped(a + [sep] + b, sep) == Stripped(a, sep) + b
  {
    hide Stripped;
    StripNothing(b, sep);
    StripJoin(a + [sep], b, sep);
    StripLast(a, sep);
  }

  lemma StripLast(a: string, sep: char)
    ensures Stripped(a + [sep], sep) == Stripped(a, sep)
  {
    assert (a + [sep])[..|a|] == a;
  }

  lemma {:induction false} NumeralGlyphs(v: nat, b: nat, glyphs: string)
    requires 2 <= b <= |glyphs|
    ensures forall c :: c in Numeral(v, b, glyphs) ==> c in glyphs
  {
    if v >= b {
      NumeralGlyphs(v / b, b, glyphs);
    }
  }

  lemma LeadingZero(d: string, b: nat, glyphs: string)
    requires |glyphs| > 0
    ensures Evaluate([glyphs[0]] + d, b, glyphs) == Evaluate(d, b, glyphs)
    decreases |d|
  {
    var s := [glyphs[0]] + d;
    if d == "" {
      assert s[..0] == "";
    } else {
      LeadingZero(d[..|d| - 1], b, glyphs);
      assert s[..|s| - 1] == [glyphs[0]] + d[..|d| - 1];
    }
  }

  lemma WrittenReadsBack(max: nat, v: nat, st: Style)
    requires Usable(st) && Distinct(Glyphs(st)) && st.thousep !in Glyphs(st)
    ensures Evaluate(Stripped(Written(max, v, st), st.thousep), st.base, Glyphs(st)) == v
  {
    var g := Glyphs(st);
    var d := Numeral(v, st.base, g);
    hide Distinct, Evaluate, Numeral, Grouped, Stripped, Glyphs, Decimals;
    EvaluateNumeral(v, st.base, g);
    NumeralGlyphs(v, st.base, g);
    StripNothing(d, st.thousep);
    GlyphsOf(st);
    if st.base == 10 {
      StripGrouped(d, st.grp, st.thousep);
    } else if st.base == 8 {
      LeadingZero(d, 8, g);
      StripNothing("0" + d, st.thousep);
    }
  }

  /** With the separators taken out, what is written evaluates back to the value, in
      every base, for every rule, and for every value (also where separators are
      missing); and in the alternate octal form it begins with a zero. */
  lemma ReadsBack(max: nat, v: nat, st: Style)
    requires Usable(st) && Distinct(Glyphs(st)) && st.thousep !in Glyphs(st)
    ensures Evaluate(Stripped(Written(max, v, st), st.thousep), st.base, Glyphs(st)) == v
    ensures st.base == 8 && st.octzero ==> Written(max, v, st) != "" && Written(max, v, st)[0] == '0'
  {
    hide Distinct, Evaluate, Grouped, Stripped;
    WrittenReadsBack(max, v, st);
  }

  lemma GlyphsOf(st: Style)
    requires Usable(st)
    ensures st.base != 16 ==> Glyphs(st) == Decimals() && Decimals()[0] == '0' && '0' in Decimals()
  {
  }

  // ------------------------------------------------------- where it is as meant

  lemma LongEnough(v: nat)
    requires v >= 10
    ensures |Numeral(v, 10, Decimals())| >= 2
  {
  }

  /** The separators are where the rule puts them exactly when the check after the
      first digit is not skipped. */
  lemma GroupingExactly(max: nat, v: nat, st: Style)
    requires Usable(st) && 9 <= max
    ensures Written(max, v, st) == Intended(v, st) <==> !SkipsCheck(max, v, st)
  {
    if SkipsCheck(max, v, st) {
      var d := Numeral(v, 10, Decimals());
      LongEnough(v);
      var k := |d| - 1;
      GroupedRoom(d[..k], Further(st.grp), st.thousep);
      assert |Grouped(d, st.grp, st.thousep)| > |d|;
    }
  }

  /** The direct loops of `__ujtoa` and those of `__ultoa` write the same for a value
      both can take, except that one where only one of them skips the check. */
  lemma LoopsAgreeExactly(w: Widths, v: nat, st: Style)
    requires Sensible(w) && Usable(st) && v <= 2 * w.longMax + 1
    ensures Written(w.intmaxMax, v, st) == Written(w.longMax, v, st)
      <==> !(SkipsCheck(w.longMax, v, st) && v <= w.intmaxMax)
  {
    GroupingExactly(w.longMax, v, st);
    GroupingExactly(w.intmaxMax, v, st);
  }
}
