/** What an integer, a character and any other conversion print, from the format string:
    sign, prefix, digits, zeros and padding, each from the marks that ask for it. */
module PrintfLayouts {
  import opened Arithmetic
  import opened Common
  import opened Digits
  import opened PrintfSpec
  import opened PrintfLaws
  import opened PrintfFormats

  // ------------------------------------------------------------ what is asked for

  predicate IsInteger(conv: char) {
    conv in "diDoOuUxX"
  }

  function Radix(conv: char): nat {
    if conv in "oO" then 8 else if conv in "xX" then 16 else 10
  }

  /** The digits to choose from. */
  function Figures(conv: char): (g: string)
    ensures |g| >= Radix(conv)
  {
    if conv == 'x' then "0123456789abcdef" else if conv == 'X' then "0123456789ABCDEF" else "0123456789"
  }

  /** In front of a signed number: a minus sign if it is negative, else what is asked for. */
  function SignMark(t: Text, m: int): string {
    if m < 0 then "-"
    else if t.conv !in "diD" then ""
    else if '+' in t.marks then "+"
    else if ' ' in t.marks then " "
    else ""
  }

  function PrefixMark(t: Text, m: int): string {
    if '#' in t.marks && m != 0 && t.conv == 'x' then "0x"
    else if '#' in t.marks && m != 0 && t.conv == 'X' then "0X"
    else ""
  }

  /** n in base b, without zeros in front. */
  ghost predicate IsNumeral(s: string, n: nat, b: nat, glyphs: string) {
    && s != "" && (forall c :: c in s ==> c in glyphs) && Evaluate(s, b, glyphs) == n
    && (s[0] == '0' ==> |s| == 1)
  }

  /** Thousands are asked for, and the check that puts in the first is not skipped. */
  predicate Separated(t: Text, n: nat, env: Env)
    requires WellWritten(t)
  {
    var long := if Jumbo(Lengthened(t.conv, Meaning(t).flags)) && n > 2 * env.w.longMax + 1
                then env.w.intmaxMax else env.w.longMax;
    '\'' in t.marks && Radix(t.conv) == 10 && !(n > long && env.grp != [] && env.grp[0] == 1)
  }

  /** The digits proper: none for a zero with precision zero, except that the alternate
      octal form always begins with a zero. */
  ghost predicate DigitText(body: string, t: Text, n: nat, env: Env)
    requires WellWritten(t)
  {
    var octal := Radix(t.conv) == 8 && '#' in t.marks;
    if n == 0 && t.prec == Some(0) && !octal then body == ""
    else exists s ::
      && IsNumeral(s, n, Radix(t.conv), Figures(t.conv))
      && body == if octal && n != 0 then "0" + s
                 else if Separated(t, n, env) then Grouped(s, env.grp, env.thousep) else s
  }

  /** `head` and `core` in a field of the given width: at the left, at the right, or with
      zeros between them. */
  predicate LaidOut(out: string, head: string, core: string, width: nat, left: bool, filled: bool) {
    var n := |head| + |core|;
    && |out| == (if width > n then width else n)
    && (if left then out[..n] == head + core && forall k :: n <= k < |out| ==> out[k] == ' '
        else if filled then
          && out[..|head|] == head && out[|out| - |core|..] == core
          && forall k :: |head| <= k < |out| - |core| ==> out[k] == '0'
        else out[|out| - n..] == head + core && forall k :: 0 <= k < |out| - n ==> out[k] == ' ')
  }

  /** Zeros up to the precision, and the digits. */
  predicate Precise(core: string, body: string, prec: Option<nat>) {
    && |core| == (if prec.Some? && prec.value > |body| then prec.value else |body|)
    && core[|core| - |body|..] == body && forall k :: 0 <= k < |core| - |body| ==> core[k] == '0'
  }

  // -------------------------------------------------------------------- the proof

  lemma {:induction false} LeadingDigit(v: nat, b: nat, glyphs: string)
    requires 2 <= b <= |glyphs| && Distinct(glyphs) && v > 0
    ensures Numeral(v, b, glyphs)[0] != glyphs[0]
  {
    if v >= b {
      DivisionShrinks(v, b);
      assert v / b > 0;
      LeadingDigit(v / b, b, glyphs);
    }
  }

  lemma NumeralIs(v: nat, b: nat, glyphs: string)
    requires 2 <= b <= |glyphs| && Distinct(glyphs) && glyphs[0] == '0'
    ensures IsNumeral(Numeral(v, b, glyphs), v, b, glyphs)
    ensures Numeral(v, b, glyphs)[0] == '0' <==> v == 0
  {
    NumeralGlyphs(v, b, glyphs);
    EvaluateNumeral(v, b, glyphs);
    if v > 0 {
      LeadingDigit(v, b, glyphs);
    }
  }

  lemma FiguresAreGood(conv: char)
    requires IsInteger(conv)
    ensures Radix(conv) == Base(conv) && Figures(conv) == GlyphSet(conv)
    ensures Distinct(Figures(conv)) && Figures(conv)[0] == '0'
  {
    GoodGlyphSet(conv);
  }

  lemma MarksAre(t: Text)
    requires WellWritten(t)
    ensures var flags := Lengthened(t.conv, Meaning(t).flags);
      && (Alt in flags <==> '#' in t.marks) && (LAdjust in flags <==> '-' in t.marks)
      && (ZeroPad in flags <==> '0' in t.marks) && (Grouping in flags <==> '\'' in t.marks)
  {
    NoMarks(t.length);
    FlagOfMark(t.marks);
    hide LengthFlags, MarkFlags;
  }

  lemma FlagOfMark(marks: string)
    ensures var flags := MarkFlags(marks);
      && (Alt in flags <==> '#' in marks) && (LAdjust in flags <==> '-' in marks)
      && (ZeroPad in flags <==> '0' in marks) && (Grouping in flags <==> '\'' in marks)
  {
  }

  lemma NoMarks(length: string)
    requires LengthFlags(length).Some?
    ensures LengthFlags(length).value * {Alt, LAdjust, ZeroPad, Grouping} == {}
  {
  }

  /** What the loops write, in terms of the plain numeral. */
  lemma WrittenAs(max: nat, n: nat, st: Style)
    requires Usable(st) && Distinct(Glyphs(st)) && Glyphs(st)[0] == '0'
    ensures var s := Numeral(n, st.base, Glyphs(st));
      && IsNumeral(s, n, st.base, Glyphs(st))
      && Written(max, n, st) ==
           if st.base == 8 && st.octzero && n != 0 then "0" + s
           else if st.base == 10 && st.needgrp && !(n > max && st.grp != [] && st.grp[0] == 1)
           then Grouped(s, st.grp, st.thousep) else s
  {
    hide Evaluate, Distinct, Numeral, Grouped;
    NumeralIs(n, st.base, Glyphs(st));
  }

  /** The style the marks ask for. */
  lemma StyleIs(t: Text, env: Env)
    requires WellWritten(t) && GoodEnv(env) && IsInteger(t.conv)
    ensures var st := StyleOf(t.conv, Lengthened(t.conv, Meaning(t).flags), env);
      && st.base == Radix(t.conv) && Glyphs(st) == Figures(t.conv) && Usable(st)
      && (st.octzero <==> '#' in t.marks) && (st.base == 10 ==> (st.needgrp <==> '\'' in t.marks))
      && st.thousep == env.thousep && st.grp == env.grp && Distinct(Glyphs(st)) && Glyphs(st)[0] == '0'
  {
    FiguresAreGood(t.conv);
    MarksAre(t);
    StyleGlyphs(t.conv, Lengthened(t.conv, Meaning(t).flags), env);
    hide Meaning, Lengthened, Distinct;
  }

  /** The digits the field gets. */
  lemma BodyIs(t: Text, n: nat, env: Env)
    requires WellWritten(t) && GoodEnv(env) && IsInteger(t.conv)
    ensures var flags := Lengthened(t.conv, Meaning(t).flags);
      DigitText(Body(n, Meaning(t).prec, flags, StyleOf(t.conv, flags, env), env.w), t, n, env)
  {
    var flags := Lengthened(t.conv, Meaning(t).flags);
    var st := StyleOf(t.conv, flags, env);
    hide *;
    MarksAre(t);
    StyleIs(t, env);
    PrecisionIs(t);
    var long := LongFor(t, n, env);
    BodyWritten(n, Meaning(t).prec, flags, st, env.w);
    WrittenAs(long, n, st);
    SeparatedWhen(t, n, env);
    IsDigitText(Body(n, Meaning(t).prec, flags, st, env.w), Numeral(n, st.base, Glyphs(st)), t, n, env);
  }

  /** The largest value the loop that is used takes into signed arithmetic. */
  function LongFor(t: Text, n: nat, env: Env): nat
    requires WellWritten(t)
  {
    if Jumbo(Lengthened(t.conv, Meaning(t).flags)) && n > 2 * env.w.longMax + 1 then env.w.intmaxMax
    else env.w.longMax
  }

  lemma BodyWritten(n: nat, prec: int, flags: set<Flag>, st: Style, w: Widths)
    requires Usable(st)
    ensures Body(n, prec, flags, st, w) ==
      if n == 0 && prec == 0 && !(st.base == 8 && Alt in flags) then ""
      else Written(if Jumbo(flags) && n > 2 * w.longMax + 1 then w.intmaxMax else w.longMax, n, st)
  {
    hide Written, Jumbo;
  }

  lemma SeparatedWhen(t: Text, n: nat, env: Env)
    requires WellWritten(t)
    ensures Separated(t, n, env) <==>
      '\'' in t.marks && Radix(t.conv) == 10 && !(n > LongFor(t, n, env) && env.grp != [] && env.grp[0] == 1)
    ensures LongFor(t, n, env) ==
      if Jumbo(Lengthened(t.conv, Meaning(t).flags)) && n > 2 * env.w.longMax + 1 then env.w.intmaxMax
      else env.w.longMax
  {
    hide WellWritten, Meaning, Lengthened, Jumbo;
  }

  lemma IsDigitText(body: string, s: string, t: Text, n: nat, env: Env)
    requires WellWritten(t) && IsNumeral(s, n, Radix(t.conv), Figures(t.conv))
    requires var octal := Radix(t.conv) == 8 && '#' in t.marks;
      body == if n == 0 && t.prec == Some(0) && !octal then ""
              else if octal && n != 0 then "0" + s
              else if Separated(t, n, env) then Grouped(s, env.grp, env.thousep) else s
    ensures DigitText(body, t, n, env)
  {
    hide WellWritten, IsNumeral, Separated, Grouped;
  }

  lemma PrecisionIs(t: Text)
    requires WellWritten(t)
    ensures Meaning(t).prec == if t.prec.None? then -1 else t.prec.value
  {
    hide MarkFlags, LengthFlags;
  }

  lemma CoreOf(f: Field, prec: Option<nat>)
    requires f.dprec == if prec.None? then -1 else prec.value
    ensures Precise(Inner(f), f.body, prec)
  {
  }

  lemma LayoutIs(f: Field)
    ensures LaidOut(Layout(f), f.sign + f.ox, Inner(f), f.width, f.ladjust, f.zeropad)
  {
    var pad := if f.width > RealSize(f) then f.width - RealSize(f) else 0;
    PaddedLayout(f, pad);
    assert |Inner(f)| == if f.dprec > |f.body| then f.dprec else |f.body|;
    assert RealSize(f) == |f.sign + f.ox| + |Inner(f)|;
    hide Layout, Inner, RealSize, Repeat;
    Placed(f.sign + f.ox, Inner(f), Repeat(' ', pad), Repeat('0', pad), f.width);
  }

  lemma Placed(head: string, core: string, blanks: string, zeros: string, width: nat)
    requires |blanks| == |zeros| == if width > |head| + |core| then width - (|head| + |core|) else 0
    requires forall k :: 0 <= k < |blanks| ==> blanks[k] == ' ' && zeros[k] == '0'
    ensures LaidOut(head + core + blanks, head, core, width, true, false)
    ensures LaidOut(head + core + blanks, head, core, width, true, true)
    ensures LaidOut(blanks + (head + core), head, core, width, false, false)
    ensures LaidOut(head + zeros + core, head, core, width, false, true)
  {
  }

  lemma FieldMarks(d: Directive, flags: set<Flag>, sign: string, ch: char, n: nat, env: Env)
    requires GoodEnv(env)
    ensures var f := NumberField(d, flags, sign, ch, n, env);
      && f.sign == sign && f.dprec == d.prec && f.width == d.width
      && f.ox == (if Base(ch) == 16 && Alt in flags && n != 0 then ['0', ch] else "")
      && f.body == Body(n, d.prec, flags, StyleOf(ch, flags, env), env.w)
      && (f.ladjust <==> LAdjust in flags) && (f.zeropad <==> ZeroPad in flags && d.prec < 0)
  {
  }

  /** Sign and prefix from the marks. */
  lemma HeadIs(t: Text, m: int)
    requires WellWritten(t) && IsInteger(t.conv)
    ensures (if m < 0 then "-" else if IsSignedConv(t.conv) then Meaning(t).sign else "") == SignMark(t, m)
    ensures (if Base(t.conv) == 16 && Alt in Lengthened(t.conv, Meaning(t).flags) && m != 0 then ['0', t.conv] else "")
      == PrefixMark(t, m)
    ensures Meaning(t).width == t.width
  {
    MarksAre(t);
    assert ['0', 'x'] == "0x" && ['0', 'X'] == "0X";
    hide MarkFlags, LengthFlags, Lengthened, WellWritten;
  }

  lemma FieldIs(t: Text, v: int, env: Env)
    requires WellWritten(t) && GoodEnv(env) && IsInteger(t.conv)
    ensures !IsUnmodelledConv(Meaning(t), t.conv) && TakesArgument(t.conv) && ArgumentFits(t.conv, [Num(v)])
    ensures var m := Meant(Meaning(t), t.conv, v, env);
      FieldOf(Meaning(t), t.conv, [Num(v)], env) ==
        NumberField(Meaning(t), Lengthened(t.conv, Meaning(t).flags), SignMark(t, m), t.conv,
                    if m < 0 then -m else m, env)
  {
    IntegerConv(t.conv);
    var d, m := Meaning(t), Meant(Meaning(t), t.conv, v, env);
    hide *;
    NumberConversion(d, t.conv, v);
    NumberIsField(d, t.conv, v, env);
    HeadIs(t, m);
  }

  /** The field has the sign, the prefix, the digits and the sizes of what is written. */
  ghost predicate AsWritten(f: Field, t: Text, m: int, env: Env)
    requires WellWritten(t)
  {
    && f.sign == SignMark(t, m) && f.ox == PrefixMark(t, m)
    && f.dprec == (if t.prec.None? then -1 else t.prec.value)
    && DigitText(f.body, t, if m < 0 then -m else m, env)
    && (f.ladjust <==> '-' in t.marks) && (f.zeropad <==> '0' in t.marks && t.prec.None?) && f.width == t.width
  }

  lemma NumberAsWritten(t: Text, m: int, env: Env)
    requires WellWritten(t) && GoodEnv(env) && IsInteger(t.conv)
    ensures AsWritten(NumberField(Meaning(t), Lengthened(t.conv, Meaning(t).flags), SignMark(t, m), t.conv,
                                  if m < 0 then -m else m, env), t, m, env)
  {
    hide *;
    var n: nat := if m < 0 then -m else m;
    var flags := Lengthened(t.conv, Meaning(t).flags);
    MarksAre(t);
    HeadIs(t, m);
    PrecisionIs(t);
    BodyIs(t, n, env);
    FieldMarks(Meaning(t), flags, SignMark(t, m), t.conv, n, env);
    Assemble(NumberField(Meaning(t), flags, SignMark(t, m), t.conv, n, env), t, m, env);
  }

  lemma Assemble(f: Field, t: Text, m: int, env: Env)
    requires WellWritten(t) && f.sign == SignMark(t, m) && f.ox == PrefixMark(t, m)
    requires f.dprec == (if t.prec.None? then -1 else t.prec.value)
    requires DigitText(f.body, t, if m < 0 then -m else m, env)
    requires f.ladjust <==> '-' in t.marks
    requires f.zeropad <==> '0' in t.marks && f.dprec < 0
    requires f.width == t.width
    ensures AsWritten(f, t, m, env)
  {
    hide WellWritten, SignMark, PrefixMark, DigitText;
  }

  lemma IntegerConv(ch: char)
    requires IsInteger(ch)
    ensures IsSignedConv(ch) || IsUnsignedConv(ch)
  {
  }

  /** Sign, prefix, zeros up to the precision and digits, in a field of the given width,
      padded with blanks on the side the marks ask for or with zeros behind sign and
      prefix; a precision cancels those zeros. */
  ghost predicate ShowsInteger(out: string, t: Text, m: int, env: Env)
    requires WellWritten(t)
  {
    exists body, core ::
      && DigitText(body, t, if m < 0 then -m else m, env) && Precise(core, body, t.prec)
      && LaidOut(out, SignMark(t, m) + PrefixMark(t, m), core, t.width, '-' in t.marks, '0' in t.marks && t.prec.None?)
  }

  lemma FieldShows(f: Field, t: Text, m: int, env: Env)
    requires WellWritten(t) && AsWritten(f, t, m, env)
    ensures ShowsInteger(Layout(f), t, m, env)
  {
    hide WellWritten, DigitText, Precise, LaidOut, SignMark, PrefixMark, Layout, Inner;
    CoreOf(f, t.prec);
    LayoutIs(f);
  }

  /** From the format string to the text of an integer: an integer conversion on its
      own, written in any way. */
  lemma IntegerRendering(t: Text, v: int, env: Env)
    requires WellWritten(t) && GoodEnv(env) && IsInteger(t.conv)
    ensures Modelled("%" + Spelled(t), [Num(v)], env)
    ensures ShowsInteger(Rendering("%" + Spelled(t), [Num(v)], env), t, Meant(Meaning(t), t.conv, v, env), env)
  {
    hide *;
    var m := Meant(Meaning(t), t.conv, v, env);
    FieldIs(t, v, env);
    NumberAsWritten(t, m, env);
    AloneRenders(t, Num(v), env);
    FieldShows(FieldOf(Meaning(t), t.conv, [Num(v)], env), t, m, env);
  }

  // ----------------------------------------------------- characters and the rest

  /** A character conversion prints the one character of its argument, as an unsigned
      char, in its field. */
  lemma CharacterRendering(t: Text, v: int, env: Env)
    requires WellWritten(t) && GoodEnv(env) && t.conv == 'c' && t.length != "l"
    ensures Modelled("%" + Spelled(t), [Num(v)], env)
    ensures Padded(Rendering("%" + Spelled(t), [Num(v)], env), [(v % 256) as char], t.width, '-' in t.marks,
                   if '0' in t.marks then '0' else ' ')
  {
    CharacterField(t, v, env);
    hide *;
    AloneRenders(t, Num(v), env);
    TextLayout(Meaning(t), [(v % 256) as char]);
  }

  lemma CharacterField(t: Text, v: int, env: Env)
    requires WellWritten(t) && GoodEnv(env) && t.conv == 'c' && t.length != "l"
    ensures var d := Meaning(t);
      && !IsUnmodelledConv(d, 'c') && TakesArgument('c') && ArgumentFits('c', [Num(v)])
      && FieldOf(d, 'c', [Num(v)], env) == TextField(d, [(v % 256) as char])
      && d.width == t.width && (LAdjust in d.flags <==> '-' in t.marks) && (ZeroPad in d.flags <==> '0' in t.marks)
  {
    NotLong(t.length);
    FlagOfMark(t.marks);
    hide LengthFlags, MarkFlags;
  }

  /** A character that is no conversion, a percent sign for one, prints itself and takes
      no argument. */
  lemma OtherRendering(t: Text, env: Env)
    requires WellWritten(t) && GoodEnv(env) && !TakesArgument(t.conv) && !IsUnmodelledConv(Meaning(t), t.conv)
    ensures Modelled("%" + Spelled(t), [], env)
    ensures Padded(Rendering("%" + Spelled(t), [], env), [t.conv], t.width, '-' in t.marks,
                   if '0' in t.marks then '0' else ' ')
  {
    var ps := [Conv(t, None)];
    OneConv(t, env);
    OtherField(t, env);
    hide *;
    FormatRenders(ps, env);
    TextLayout(Meaning(t), [t.conv]);
  }

  lemma OneConv(t: Text, env: Env)
    requires WellWritten(t) && GoodEnv(env) && !TakesArgument(t.conv) && !IsUnmodelledConv(Meaning(t), t.conv)
    ensures var ps := [Conv(t, None)];
      && GoodParts(ps) && FormatOf(ps) == "%" + Spelled(t) && ArgsOf(ps) == []
      && AllShown(ps, env) == Layout(FieldOf(Meaning(t), t.conv, [], env))
  {
    hide Spelled, Meaning, WellWritten, IsUnmodelledConv, TakesArgument, Layout, FieldOf;
    var ps := [Conv(t, None)];
    assert ps[1..] == [];
    assert "%" + Spelled(t) + "" == "%" + Spelled(t);
    assert Layout(FieldOf(Meaning(t), t.conv, [], env)) + "" == Layout(FieldOf(Meaning(t), t.conv, [], env));
  }

  lemma OtherField(t: Text, env: Env)
    requires WellWritten(t) && GoodEnv(env) && !TakesArgument(t.conv) && !IsUnmodelledConv(Meaning(t), t.conv)
    ensures var d := Meaning(t);
      && FieldOf(d, t.conv, [], env) == TextField(d, [t.conv])
      && d.width == t.width && (LAdjust in d.flags <==> '-' in t.marks) && (ZeroPad in d.flags <==> '0' in t.marks)
  {
    NoMarks(t.length);
    FlagOfMark(t.marks);
    hide LengthFlags, MarkFlags, IsUnmodelledConv;
  }

  // ------------------------------------------------------- arguments out of range

  /** Some multiple of the type's size away. */
  lemma SignedWraps(v: int, max: nat) returns (k: int)
    ensures Signed(v, max) == v + (2 * max + 2) * k
  {
    var n := 2 * max + 2;
    assert v == n * (v / n) + v % n;
    if v % n <= max {
      k := -(v / n);
    } else {
      k := -(v / n) - 1;
      assert n * k == -n * (v / n) - n;
    }
    assert n * -(v / n) == -n * (v / n);
  }

  lemma UnsignedWraps(v: int, max: nat) returns (k: int)
    ensures Unsigned(v, max) == v + (2 * max + 2) * k
  {
    var n := 2 * max + 2;
    assert v == n * (v / n) + v % n;
    k := -(v / n);
    assert n * k == -n * (v / n);
  }

  lemma Congruent(x: int, v: int, n: int, k: int)
    requires n > 0 && x == v + n * k
    ensures (x - v) % n == 0
  {
    MultipleHasNoRemainder(n, k);
  }

  /** The type the modifiers name is not one of different width from its container. */
  predicate PlainWidth(flags: set<Flag>, w: Widths) {
    IntMaxT in flags || {SizeT, PtrDiffT} * flags == {} || w.longMax == w.intmaxMax
  }

  /** Narrowing to `max` what has been taken modulo a multiple of its size already. */
  lemma NarrowWraps(x: int, v: int, max: nat, k: int)
    requires x == v + (2 * max + 2) * k
    ensures (Signed(x, max) - v) % (2 * max + 2) == 0
    ensures (Unsigned(x, max) - v) % (2 * max + 2) == 0
  {
    var j := SignedWraps(x, max);
    var u := UnsignedWraps(x, max);
    hide *;
    var n := 2 * max + 2;
    assert n * k + n * j == n * (k + j) && n * k + n * u == n * (k + u);
    Congruent(Signed(x, max), v, n, k + j);
    Congruent(Unsigned(x, max), v, n, k + u);
  }

  lemma IntWraps(v: int, max: nat)
    requires max in {0x7f, 0x7fff}
    ensures (Signed(Signed(v, INT_MAX), max) - v) % (2 * max + 2) == 0
    ensures (Unsigned(Signed(v, INT_MAX), max) - v) % (2 * max + 2) == 0
  {
    var k := SignedWraps(v, INT_MAX);
    NarrowWraps(Signed(v, INT_MAX), v, max, if max == 0x7f then 0x100_0000 * k else 0x1_0000 * k);
  }

  lemma WideWraps(v: int, max: nat)
    ensures (Signed(v, max) - v) % (2 * max + 2) == 0 && (Unsigned(v, max) - v) % (2 * max + 2) == 0
    ensures (Signed(Unsigned(v, max), max) - v) % (2 * max + 2) == 0
    ensures (Unsigned(Signed(v, max), max) - v) % (2 * max + 2) == 0
  {
    var j := SignedWraps(v, max);
    var u := UnsignedWraps(v, max);
    NarrowWraps(v, v, max, 0);
    NarrowWraps(Signed(v, max), v, max, j);
    NarrowWraps(Unsigned(v, max), v, max, u);
  }

  /** In the range of a type with the given maximum, and equal modulo its size. */
  predicate Wrapped(signed: int, unsigned: nat, v: int, max: nat) {
    && -(max as int) - 1 <= signed <= max && unsigned <= 2 * max + 1
    && (signed - v) % (2 * max + 2) == 0 && (unsigned - v) % (2 * max + 2) == 0
  }

  lemma SmallWraps(v: int, flags: set<Flag>, w: Widths)
    requires Sensible(w)
    ensures Wrapped(SArg(v, flags, w), UArg(v, flags, w), v,
                    if LongInt in flags then w.longMax else if ShortInt in flags then 0x7fff
                    else if CharInt in flags then 0x7f else INT_MAX)
  {
    hide Signed, Unsigned;
    IntWraps(v, 0x7f);
    IntWraps(v, 0x7fff);
    WideWraps(v, INT_MAX);
    WideWraps(v, w.longMax);
  }

  lemma LargeWraps(v: int, flags: set<Flag>, w: Widths)
    requires Sensible(w) && PlainWidth(flags, w)
    ensures Wrapped(SJArg(v, flags, w), UJArg(v, flags, w), v,
                    if {IntMaxT, SizeT} * flags == {} && PtrDiffT in flags then w.longMax else w.intmaxMax)
  {
    hide Signed, Unsigned;
    WideWraps(v, w.longMax);
    WideWraps(v, w.intmaxMax);
    assert IntMaxT in {IntMaxT, SizeT} * flags <==> IntMaxT in flags;
    assert SizeT in {IntMaxT, SizeT} * flags <==> SizeT in flags;
    assert SizeT in {SizeT, PtrDiffT} * flags <==> SizeT in flags;
    assert PtrDiffT in {SizeT, PtrDiffT} * flags <==> PtrDiffT in flags;
  }

  /** An argument of any size is printed as the value of the named type that it equals
      modulo the size of that type. */
  lemma AnyArgumentWraps(v: int, flags: set<Flag>, w: Widths)
    requires Sensible(w) && PlainWidth(flags, w)
    ensures Wrapped(SignedValue(v, flags, w), UnsignedValue(v, flags, w), v, Largest(flags, w))
  {
    hide Wrapped, SArg, UArg, SJArg, UJArg;
    SmallWraps(v, flags, w);
    LargeWraps(v, flags, w);
  }

  /** The sizes z and t stand for are those of a long, whatever an intmax_t has: a signed
      or unsigned argument is that of the same size, and of the other sign converted to
      the larger type. */
  lemma SizesWrap(v: int, flags: set<Flag>, w: Widths)
    requires Sensible(w) && IntMaxT !in flags
    ensures SizeT in flags ==>
      var u := UnsignedValue(v, flags, w);
      u <= 2 * w.longMax + 1 && (u - v) % (2 * w.longMax + 2) == 0
      && (2 * w.longMax + 1 <= w.intmaxMax ==> SignedValue(v, flags, w) == u)
    ensures SizeT !in flags && PtrDiffT in flags ==>
      var s := SignedValue(v, flags, w);
      -(w.longMax as int) - 1 <= s <= w.longMax && (s - v) % (2 * w.longMax + 2) == 0
      && (s >= 0 ==> UnsignedValue(v, flags, w) == s)
  {
    assert SizeT in flags ==> SizeT in flags * INTMAX_SIZE;
    assert PtrDiffT in flags ==> PtrDiffT in flags * INTMAX_SIZE;
    WideWraps(v, w.longMax);
    KeptAt(Unsigned(v, w.longMax), w.intmaxMax);
    KeptAt(Signed(v, w.longMax), w.intmaxMax);
    hide Signed, Unsigned;
  }

  /** The capital letters D, O and U are d, o and u with the modifier l. */
  lemma CapitalsAreLong(d: Directive, ch: char, v: int, env: Env)
    requires GoodEnv(env) && ch in "DOU"
    ensures var small := if ch == 'D' then 'd' else if ch == 'O' then 'o' else 'u';
      var e := d.(flags := d.flags + {LongInt});
      && !IsUnmodelledConv(d, ch) && !IsUnmodelledConv(e, small)
      && FieldOf(d, ch, [Num(v)], env) == FieldOf(e, small, [Num(v)], env)
  {
    hide SignedValue, UnsignedValue, Body;
  }
}
