/** The printf engine that writes into a bounded buffer: every output step truncates
    on its own, and the count goes on. */
module BoundedPrintf {
  import opened Common
  import opened Digits
  import opened PrintfSpec

  const PADSIZE := 16

  /** The first characters of `out` that fit in front of a NUL, in a buffer that held
      `was`. */
  function Stored(out: string, strsz: nat, was: string): string
    requires 0 < strsz <= |was|
  {
    var k := Min(|out|, strsz - 1);
    out[..k] + ['\0'] + was[k + 1..]
  }

  method Memcpy(str: array<char>, at: nat, s: string, sz: nat)
    requires sz <= |s| && at + sz <= str.Length
    modifies str
    ensures str[..] == old(str[..])[..at] + s[..sz] + old(str[..])[at + sz..]
  {
    var i := 0;
    while i < sz
      invariant i <= sz
      invariant str[..] == old(str[..])[..at] + s[..i] + old(str[..])[at + i..]
    {
      str[at + i] := s[i];
      i := i + 1;
    }
  }

  /** `str` with its write position, the room left (one character is kept for the
      NUL), and all that was meant to be written so far. */
  class Output {
    const str: array<char>
    var pos: nat
    var room: nat
    ghost const size: nat
    ghost const initial: string
    ghost var meant: string

    /** The first characters of what was meant are in place, as many as fit, and the
        rest of the buffer is as it was. */
    ghost predicate Valid()
      reads this, str
    {
      && 0 < size <= str.Length && |initial| == str.Length
      && pos + room == size - 1
      && pos == Min(|meant|, size - 1)
      && str[..] == meant[..pos] + initial[pos..]
    }

    constructor (str: array<char>, size: nat)
      requires 0 < size <= str.Length
      ensures Valid() && this.str == str && this.size == size && meant == "" && initial == str[..]
    {
      this.str := str;
      this.size := size;
      this.initial := str[..];
      pos, room, meant := 0, size - 1, "";
      new;
      assert str[..] == meant[..pos] + initial[pos..];
    }

    /** PRINT: as much of s as there is room for. */
    method Print(s: string)
      requires Valid()
      modifies this, str
      ensures Valid() && meant == old(meant) + s
    {
      var sz := if |s| <= room then |s| else room;
      PrintLaw(meant, initial, s, pos, size - 1);
      Memcpy(str, pos, s, sz);
      pos := pos + sz;
      room := room - sz;
      meant := meant + s;
    }

    /** PAD, in chunks of sixteen. */
    method Pad(howmany: int, with: char)
      requires Valid()
      modifies this, str
      ensures Valid() && meant == old(meant) + Repeat(with, howmany)
    {
      var n := howmany;
      if n > 0 {
        while n > PADSIZE
          invariant Valid() && 0 < n <= howmany
          invariant meant + Repeat(with, n) == old(meant) + Repeat(with, howmany)
        {
          RepeatSplit(with, PADSIZE, n - PADSIZE);
          ghost var was := meant;
          Print(Repeat(with, PADSIZE));
          assert was + (Repeat(with, PADSIZE) + Repeat(with, n - PADSIZE)) == meant + Repeat(with, n - PADSIZE);
          n := n - PADSIZE;
        }
        Print(Repeat(with, n));
      }
    }

    /** `*str = '\0'`. */
    method Terminate()
      requires Valid()
      modifies str
      ensures str[..] == Stored(meant, size, initial)
    {
      str[pos] := '\0';
    }
  }

  lemma PrintLaw(meant: string, initial: string, s: string, pos: nat, cap: nat)
    requires pos == Min(|meant|, cap) && cap < |initial|
    ensures var sz := Min(|s|, cap - pos);
      && Min(|meant + s|, cap) == pos + sz
      && (meant[..pos] + initial[pos..])[..pos] + s[..sz] + (meant[..pos] + initial[pos..])[pos + sz..]
         == (meant + s)[..pos + sz] + initial[pos + sz..]
  {
  }

  lemma {:induction false} RepeatSplit(c: char, m: nat, n: nat)
    ensures Repeat(c, m + n) == Repeat(c, m) + Repeat(c, n)
  {
    assert forall k :: 0 <= k < m + n ==> Repeat(c, m + n)[k] == (Repeat(c, m) + Repeat(c, n))[k];
  }

  // ------------------------------------------------------ reading a directive

  method ReadDigits(fmt: string, i: nat) returns (n: nat, j: nat)
    ensures (n, j) == ReadNumber(fmt, i, 0)
  {
    n, j := 0, i;
    while IsDigit(At(fmt, j))
      invariant ReadNumber(fmt, j, n) == ReadNumber(fmt, i, 0)
      decreases |fmt| - j
    {
      n := 10 * n + DigitValue(At(fmt, j));
      j := j + 1;
    }
  }

  method ScanDirective(fmt: string, start: nat, args: seq<Arg>) returns (r: Scanned)
    requires start <= |fmt|
    ensures r == ReadDirective(fmt, start, args, FRESH)
  {
    var i, rest := start, args;
    var d := FRESH;
    while true
      invariant i <= |fmt| && ReadDirective(fmt, i, rest, d) == ReadDirective(fmt, start, args, FRESH)
      decreases |fmt| - i
    {
      if i == |fmt| {
        return Conversion(d, '\0', i, rest);
      }
      var ch := fmt[i];
      if ch == ' ' {
        if d.sign == "" {
          d := d.(sign := " ");
        }
        i := i + 1;
      } else if ch == '+' {
        d := d.(sign := "+");
        i := i + 1;
      } else if ch == '*' || (ch == '.' && At(fmt, i + 1) == '*') {
        var after := if ch == '*' then i + 1 else i + 2;
        var _, k := ReadDigits(fmt, after);
        if At(fmt, k) == '$' || rest == [] || !rest[0].Num? {
          return Unmodelled;
        }
        var v := Signed(rest[0].v, INT_MAX);
        if ch == '.' {
          d := d.(prec := v);
        } else if v >= 0 {
          d := d.(width := v);
        } else {
          d := d.(width := -v, flags := d.flags + {LAdjust});
        }
        i, rest := after, rest[1..];
      } else if ch == '.' {
        var n, j := ReadDigits(fmt, i + 1);
        d := d.(prec := n);
        i := j;
      } else if '1' <= ch <= '9' {
        var n, j := ReadDigits(fmt, i);
        if At(fmt, j) == '$' {
          return Unmodelled;
        }
        d := d.(width := n);
        i := j;
      } else {
        var marked := Marked(ch, d);
        if marked.None? {
          return Conversion(d, ch, i + 1, rest);
        }
        d := marked.value;
        i := i + 1;
      }
    }
  }

  // ---------------------------------------------------------- one conversion

  /** The digits of a number, written backwards into the scratch buffer. */
  method NumberText(v: nat, prec: int, flags: set<Flag>, st: Style, w: Widths) returns (body: string)
    requires Sensible(w) && Usable(st)
    requires v <= 2 * (if Jumbo(flags) then w.intmaxMax else w.longMax) + 1
    ensures body == Body(v, prec, flags, st, w)
  {
    var buf := new char[SCRATCH];
    var cp := SCRATCH;
    if v != 0 || prec != 0 || (Alt in flags && st.base == 8) {
      if Jumbo(flags) {
        cp := Ujtoa(w, v, buf, st);
      } else {
        cp := Ultoa(w, v, buf, st);
      }
    }
    body := buf[cp..];
  }

  lemma MagnitudeFits(v: int, flags: set<Flag>, w: Widths)
    requires Sensible(w) && INT_MAX <= w.longMax
    ensures var s := SignedValue(v, flags, w); var max := if Jumbo(flags) then w.intmaxMax else w.longMax;
      -max - 1 <= s <= max && UnsignedValue(v, flags, w) <= 2 * max + 1
  {
  }

  method Convert(d: Directive, ch: char, args: seq<Arg>, env: Env) returns (f: Field)
    requires GoodEnv(env) && !IsUnmodelledConv(d, ch)
    requires TakesArgument(ch) ==> ArgumentFits(ch, args)
    ensures f == FieldOf(d, ch, args, env)
  {
    if IsSignedConv(ch) || IsUnsignedConv(ch) {
      var flags := Lengthened(ch, d.flags);
      var sign, v := "", 0;
      MagnitudeFits(args[0].v, flags, env.w);
      if IsSignedConv(ch) {
        var s := SignedValue(args[0].v, flags, env.w);
        sign, v := d.sign, s;
        if s < 0 {
          sign, v := "-", -s;
        }
      } else {
        v := UnsignedValue(args[0].v, flags, env.w);
      }
      var ox := "";
      if Base(ch) == 16 && Alt in flags && v != 0 {
        ox := ['0', ch];
      }
      var body := NumberText(v, d.prec, flags, StyleOf(ch, flags, env), env.w);
      f := Field(sign, ox, d.prec, body, LAdjust in flags, ZeroPad in flags && d.prec < 0, d.width);
    } else if ch == 'c' {
      f := TextField(d, [Unsigned(args[0].v, 127) as char]);
    } else if ch == 's' {
      var cp := if args[0].Null? then "(null)" else args[0].s;
      var size := |cp|;
      if d.prec >= 0 {
        size := if |cp| < d.prec then |cp| else d.prec;
      }
      f := TextField(d, cp[..size]);
    } else {
      f := TextField(d, [ch]);
    }
  }

  /** The field, piece by piece, as the engine emits it. */
  method PrintField(out: Output, f: Field)
    requires out.Valid()
    modifies out, out.str
    ensures out.Valid() && out.meant == old(out.meant) + Layout(f)
  {
    hide *;
    var size := |f.body|;
    var realsz := (if f.dprec > size then f.dprec else size) + |f.sign| + |f.ox|;
    ghost var m := out.meant;
    if !f.ladjust && !f.zeropad {
      out.Pad(f.width - realsz, ' ');
    }
    ghost var m1 := out.meant;
    out.Print(f.sign);
    out.Print(f.ox);
    ghost var m2 := out.meant;
    if !f.ladjust && f.zeropad {
      out.Pad(f.width - realsz, '0');
    }
    ghost var m3 := out.meant;
    out.Pad(f.dprec - size, '0');
    out.Print(f.body);
    ghost var m4 := out.meant;
    if f.ladjust {
      out.Pad(f.width - realsz, ' ');
    }
    LayoutLaw(f, realsz, m, m1, m2, m3, m4, out.meant);
  }

  lemma LayoutLaw(f: Field, realsz: nat, m: string, m1: string, m2: string, m3: string, m4: string, m5: string)
    requires realsz == (if f.dprec > |f.body| then f.dprec else |f.body|) + |f.sign| + |f.ox|
    requires m1 == if !f.ladjust && !f.zeropad then m + Repeat(' ', f.width - realsz) else m
    requires m2 == m1 + f.sign + f.ox
    requires m3 == if !f.ladjust && f.zeropad then m2 + Repeat('0', f.width - realsz) else m2
    requires m4 == m3 + Repeat('0', f.dprec - |f.body|) + f.body
    requires m5 == if f.ladjust then m4 + Repeat(' ', f.width - realsz) else m4
    ensures m5 == m + Layout(f)
  {
    hide Repeat;
    assert realsz == RealSize(f);
    var before := if !f.ladjust && !f.zeropad then Repeat(' ', f.width - realsz) else "";
    var zeros := if !f.ladjust && f.zeropad then Repeat('0', f.width - realsz) else "";
    var after := if f.ladjust then Repeat(' ', f.width - realsz) else "";
    var inner := Repeat('0', f.dprec - |f.body|);
    assert m1 == m + before && m3 == m2 + zeros && m5 == m4 + after;
    assert Layout(f) == before + f.sign + f.ox + zeros + inner + f.body + after;
    hide *;
    Gather(m, before, f.sign, f.ox, zeros, inner, f.body, after);
  }

  lemma Gather(m: string, a: string, b: string, c: string, d: string, e: string, f: string, g: string)
    ensures m + a + b + c + d + e + f + g == m + (a + b + c + d + e + f + g)
  {
  }

  lemma CountStep(p: string, ps: seq<string>, ret: nat)
    ensures Joined([p] + ps) == p + Joined(ps)
    ensures Counted([p] + ps, ret) == if ret + |p| > INT_MAX then "" else p + Counted(ps, ret + |p|)
  {
    assert ([p] + ps)[1..] == ps;
  }

  /** What is counted is the beginning of the whole, and all of it if it can be
      counted. */
  lemma {:induction false} CountedIsPrefix(ps: seq<string>, ret: nat)
    ensures Counted(ps, ret) <= Joined(ps)
    ensures ret + |Joined(ps)| <= INT_MAX ==> Counted(ps, ret) == Joined(ps)
  {
    if ps != [] && ret + |ps[0]| <= INT_MAX {
      CountedIsPrefix(ps[1..], ret + |ps[0]|);
    }
  }

  /** What is left to print, and how it hangs together with what has been. */
  ghost predicate Underway(ps: seq<string>, printed: string, ret: int, rest: seq<string>) {
    && 0 <= ret <= INT_MAX
    && Counted(ps, 0) == printed + Counted(rest, ret)
    && ret + |Joined(rest)| == |Joined(ps)|
  }

  lemma PieceUnderway(ps: seq<string>, printed: string, ret: int, p: string, rest: seq<string>)
    requires Underway(ps, printed, ret, [p] + rest)
    ensures ret + |p| <= INT_MAX ==> Underway(ps, printed + p, ret + |p|, rest)
    ensures ret + |p| > INT_MAX ==> Overflowed(ps, printed)
  {
    CountStep(p, rest, ret);
    assert printed + (p + Counted(rest, ret + |p|)) == (printed + p) + Counted(rest, ret + |p|);
  }

  lemma NoneLeft(ps: seq<string>, printed: string, ret: int)
    requires Underway(ps, printed, ret, [])
    ensures printed == Counted(ps, 0) && ret == |Joined(ps)| <= INT_MAX
  {
  }

  /** Literal text up to the next directive. */
  method SkipText(fmt: string, i: nat) returns (j: nat)
    requires i <= |fmt|
    ensures j == NextPercent(fmt, i)
  {
    j := i;
    while j < |fmt| && fmt[j] != '%'
      invariant j <= |fmt| && NextPercent(fmt, j) == NextPercent(fmt, i)
    {
      j := j + 1;
    }
  }

  /** The count has left the range of an int: what was printed before stays. */
  ghost predicate Overflowed(ps: seq<string>, printed: string) {
    printed == Counted(ps, 0) && |Joined(ps)| > INT_MAX
  }

  /** Literal text, unless there is none; -1 when it cannot be counted. */
  method TextStep(out: Output, fmt: string, i: nat, args: seq<Arg>, env: Env, ret0: nat,
                  ghost ps: seq<string>, ghost left: seq<string>)
    returns (j: nat, ret: int, ghost rest: seq<string>)
    requires out.Valid() && GoodEnv(env) && i <= |fmt| && Pieces(fmt, i, args, env) == Some(left)
    requires Underway(ps, out.meant, ret0, left)
    modifies out, out.str
    ensures out.Valid() && i <= j <= |fmt|
    ensures ret < 0 ==> ret == -1 && Overflowed(ps, out.meant)
    ensures ret >= 0 ==> Underway(ps, out.meant, ret, rest)
    ensures j == |fmt| ==> rest == []
    ensures j < |fmt| ==> fmt[j] == '%' && Pieces(fmt, j, args, env) == Some(rest)
  {
    hide *;
    j := SkipText(fmt, i);
    ret := ret0;
    rest := PiecesAfterText(fmt, i, args, env, left);
    assert ret >= 0 by { NeverNegative(ps, out.meant, ret, left); }
    if j > i {
      PieceUnderway(ps, out.meant, ret, fmt[i..j], rest);
      if ret + (j - i) > INT_MAX {
        ret := -1;
        return;
      }
      out.Print(fmt[i..j]);
      ret := ret + (j - i);
    }
  }

  /** One directive, from its percent sign. */
  method FieldStep(out: Output, fmt: string, j: nat, args0: seq<Arg>, env: Env, ret0: nat,
                   ghost ps: seq<string>, ghost rest: seq<string>)
    returns (i: nat, args: seq<Arg>, ret: int, done: bool, ghost tail: seq<string>)
    requires out.Valid() && GoodEnv(env) && j < |fmt| && fmt[j] == '%' && Pieces(fmt, j, args0, env) == Some(rest)
    requires Underway(ps, out.meant, ret0, rest)
    modifies out, out.str
    ensures out.Valid()
    ensures ret < 0 ==> ret == -1 && Overflowed(ps, out.meant)
    ensures ret >= 0 ==> Underway(ps, out.meant, ret, tail)
    ensures done ==> tail == []
    ensures !done ==> j < i <= |fmt| && Pieces(fmt, i, args, env) == Some(tail)
  {
    hide *;
    var r := ScanDirective(fmt, j + 1, args0);
    tail := PiecesAfterField(fmt, j, args0, env, rest);
    i, args, ret, done := r.next, r.args, ret0, true;
    if r.ch == '\0' {
      tail := rest;
      return;
    }
    var f := Convert(r.d, r.ch, r.args, env);
    var prsize := FieldSize(f);
    PieceUnderway(ps, out.meant, ret, Layout(f), tail);
    if TakesArgument(r.ch) {
      args := args[1..];
    }
    done := false;
    if ret + prsize > INT_MAX {
      ret := -1;
    } else {
      PrintField(out, f);
      ret := ret + prsize;
    }
  }

  /** The loop over the format. */
  method Scan(out: Output, fmt: string, args0: seq<Arg>, env: Env, ghost ps: seq<string>) returns (ret: int)
    requires out.Valid() && out.meant == ""
    requires GoodEnv(env) && Pieces(fmt, 0, args0, env) == Some(ps)
    modifies out, out.str
    ensures out.Valid() && out.meant == Counted(ps, 0)
    ensures ret == if |Joined(ps)| > INT_MAX then -1 else |Joined(ps)|
  {
    hide *;
    var i, args := 0, args0;
    ghost var left := ps;
    ret := 0;
    Starting(ps);
    while true
      invariant out.Valid() && 0 <= i <= |fmt| && ret >= 0
      invariant Pieces(fmt, i, args, env) == Some(left) && Underway(ps, out.meant, ret, left)
      decreases |fmt| - i
    {
      var j, done;
      j, ret, left := TextStep(out, fmt, i, args, env, ret, ps, left);
      if ret < 0 {
        OverflowCounts(ps, out.meant);
        return;
      }
      if j == |fmt| {
        NoneLeft(ps, out.meant, ret);
        return;
      }
      i, args, ret, done, left := FieldStep(out, fmt, j, args, env, ret, ps, left);
      if ret < 0 {
        OverflowCounts(ps, out.meant);
        return;
      }
      if done {
        NoneLeft(ps, out.meant, ret);
        return;
      }
    }
  }

  lemma NeverNegative(ps: seq<string>, printed: string, ret: int, rest: seq<string>)
    requires Underway(ps, printed, ret, rest)
    ensures ret >= 0
  {
  }

  lemma OverflowCounts(ps: seq<string>, printed: string)
    requires Overflowed(ps, printed)
    ensures printed == Counted(ps, 0) && |Joined(ps)| > INT_MAX
  {
  }

  lemma Starting(ps: seq<string>)
    ensures Underway(ps, "", 0, ps)
  {
  }

  /** The pieces behind the literal text at i. */
  lemma PiecesAfterText(fmt: string, i: nat, args: seq<Arg>, env: Env, left: seq<string>) returns (rest: seq<string>)
    requires GoodEnv(env) && i <= |fmt| && Pieces(fmt, i, args, env) == Some(left)
    ensures var j := NextPercent(fmt, i);
      && i <= j <= |fmt|
      && left == (if j > i then [fmt[i..j]] else []) + rest
      && (j == |fmt| ==> rest == [])
      && (j < |fmt| ==> fmt[j] == '%' && Pieces(fmt, j, args, env) == Some(rest))
  {
    var j := NextPercent(fmt, i);
    var text := if j > i then [fmt[i..j]] else [];
    if j == |fmt| {
      rest := [];
    } else {
      assert NextPercent(fmt, j) == j;
      rest := Pieces(fmt, j, args, env).value;
      assert text + rest == Pieces(fmt, i, args, env).value;
    }
  }

  lemma PiecesAfterField(fmt: string, j: nat, args: seq<Arg>, env: Env, rest: seq<string>) returns (tail: seq<string>)
    requires GoodEnv(env) && j < |fmt| && fmt[j] == '%' && Pieces(fmt, j, args, env) == Some(rest)
    ensures var r := ReadDirective(fmt, j + 1, args, FRESH);
      && r.Conversion?
      && (r.ch == '\0' ==> rest == [])
      && (r.ch != '\0' ==>
            && !IsUnmodelledConv(r.d, r.ch) && (TakesArgument(r.ch) ==> ArgumentFits(r.ch, r.args))
            && j < r.next <= |fmt|
            && rest == [Layout(FieldOf(r.d, r.ch, r.args, env))] + tail
            && Pieces(fmt, r.next, if TakesArgument(r.ch) then r.args[1..] else r.args, env) == Some(tail))
  {
    assert NextPercent(fmt, j) == j;
    var r := ReadDirective(fmt, j + 1, args, FRESH);
    tail := if r.Conversion? && r.ch != '\0' then rest[1..] else [];
  }

  /** The size of a field before it is printed: the wider of what it asks for and
      what it needs. */
  method FieldSize(f: Field) returns (prsize: nat)
    ensures prsize == |Layout(f)|
  {
    var size := |f.body|;
    var realsz := if f.dprec > size then f.dprec else size;
    if f.sign != "" {
      realsz := realsz + |f.sign|;
    }
    if f.ox != "" {
      realsz := realsz + |f.ox|;
    }
    prsize := if f.width > realsz then f.width else realsz;
    LayoutSize(f);
  }

  /** Padding, prefix, zeros and digits always add up to the field size. */
  lemma LayoutSize(f: Field)
    ensures |Layout(f)| == if f.width > RealSize(f) then f.width else RealSize(f)
  {
  }

  /** `log_vsnprintf`: of the rendering (as much of it as can be counted) the first
      strsz - 1 characters are stored and a NUL, and nothing else of the buffer is
      touched; the length of the whole is returned, whatever the size. */
  method LogVsnprintf(str: array<char>, strsz: nat, fmt: string, args: seq<Arg>, env: Env) returns (ret: int)
    requires strsz <= str.Length && GoodEnv(env) && Modelled(fmt, args, env)
    modifies str
    ensures strsz == 0 ==> ret == -1 && str[..] == old(str[..])
    ensures strsz > 0 ==> ret == ReturnValue(Rendering(fmt, args, env))
    ensures strsz > 0 ==> str[..] == Stored(Countable(fmt, args, env), strsz, old(str[..]))
  {
    if strsz == 0 {
      return -1;
    }
    ghost var ps := PiecesOf(fmt, args, env);
    hide *;
    var out := new Output(str, strsz);
    ret := Scan(out, fmt, args, env, ps);
    out.Terminate();
    assert ret == ReturnValue(Joined(ps)) by { ReturnValueIs(Joined(ps)); }
  }

  function ReturnValue(whole: string): int {
    if |whole| > INT_MAX then -1 else |whole|
  }

  lemma ReturnValueIs(whole: string)
    ensures ReturnValue(whole) == if |whole| > INT_MAX then -1 else |whole|
  {
  }

  lemma PiecesOf(fmt: string, args: seq<Arg>, env: Env) returns (ps: seq<string>)
    requires GoodEnv(env) && Modelled(fmt, args, env)
    ensures Pieces(fmt, 0, args, env) == Some(ps)
    ensures Rendering(fmt, args, env) == Joined(ps) && Countable(fmt, args, env) == Counted(ps, 0)
  {
    ps := Pieces(fmt, 0, args, env).value;
  }

  /** The promise of the bound (7.19.6.12 of ISO/IEC 9899:1999): whatever the size,
      the return value is the length of the whole rendering, the buffer holds its
      first characters and a NUL behind them; of a rendering too long to be counted
      still only a beginning is stored. */
  lemma BoundedRendering(fmt: string, args: seq<Arg>, env: Env, strsz: nat, was: string)
    requires GoodEnv(env) && Modelled(fmt, args, env) && 0 < strsz <= |was|
    ensures var whole := Rendering(fmt, args, env);
      var s := Stored(Countable(fmt, args, env), strsz, was);
      && |s| == |was|
      && Countable(fmt, args, env) <= whole
      && ReturnValue(whole) == (if |whole| < 0x8000_0000 then |whole| else -1)
      && (ReturnValue(whole) >= 0 ==>
            var k := Min(|whole|, strsz - 1);
            ReturnValue(whole) == |whole| && s[..k] == whole[..k] && s[k] == '\0' && s[k + 1..] == was[k + 1..])
  {
    CountedIsPrefix(Pieces(fmt, 0, args, env).value, 0);
  }

  /** The first n pieces. */
  function FirstPieces(ps: seq<string>, n: nat): string {
    Joined(if n <= |ps| then ps[..n] else ps)
  }

  /** `text` is the first n pieces, as many as can be counted behind `ret` characters. */
  predicate AsCounted(ps: seq<string>, ret: nat, text: string, n: nat) {
    && n <= |ps| && text == FirstPieces(ps, n)
    && (n > 0 ==> ret + |FirstPieces(ps, n)| < 0x8000_0000)
    && (n < |ps| ==> ret + |FirstPieces(ps, n + 1)| >= 0x8000_0000)
  }

  lemma {:induction false} CountedPieces(ps: seq<string>, ret: nat) returns (n: nat)
    ensures AsCounted(ps, ret, Counted(ps, ret), n)
  {
    if ps == [] || ret + |ps[0]| > INT_MAX {
      n := 0;
      assert ps[..0] == [];
      if ps != [] {
        assert ps[..1] == [ps[0]] && [ps[0]][1..] == [];
      }
    } else {
      var k := CountedPieces(ps[1..], ret + |ps[0]|);
      n := k + 1;
      assert ps[..n][1..] == ps[1..][..k];
      if n < |ps| {
        assert ps[..n + 1][1..] == ps[1..][..k + 1];
      }
      if k == 0 {
        assert ps[..1] == [ps[0]] && [ps[0]][1..] == [];
      }
    }
  }

  /** Of a rendering too long to be counted, the texts and fields are printed whole up
      to the one with which the count would leave the range of an int. */
  lemma CountableExactly(fmt: string, args: seq<Arg>, env: Env)
    requires GoodEnv(env) && Modelled(fmt, args, env)
    ensures exists ps, n: nat :: Pieces(fmt, 0, args, env) == Some(ps) && AsCounted(ps, 0, Countable(fmt, args, env), n)
  {
    var ps := PiecesOf(fmt, args, env);
    hide *;
    var n := CountedPieces(ps, 0);
  }
}
