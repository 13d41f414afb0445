/** Sizes taken from the arguments: a directive with an asterisk prints what the same
    directive prints with the number written out. */
module PrintfStars {
  import opened Common
  import opened Digits
  import opened PrintfSpec
  import opened PrintfLaws

  predicate FitsInt(n: Option<int>) {
    n.Some? ==> -INT_MAX - 1 <= n.value <= INT_MAX
  }

  function StarArg(n: Option<int>): seq<Arg> {
    if n.Some? then [Num(n.value)] else []
  }

  function StarWidth(t: Text, width: Option<int>): string {
    if width.Some? then "*" else WidthText(t)
  }

  function StarPrec(t: Text, prec: Option<int>): string {
    if prec.Some? then ".*" else PrecText(t)
  }

  /** The directive with asterisks for the sizes that are given as arguments. */
  function Starred(t: Text, width: Option<int>, prec: Option<int>): string {
    t.marks + (StarWidth(t, width) + (StarPrec(t, prec) + (t.length + [t.conv])))
  }

  /** It with those sizes written out: a negative width is a minus sign and a width, a
      negative precision none. */
  function WrittenOut(t: Text, width: Option<int>, prec: Option<int>): Text {
    t.(marks := if width.Some? && width.value < 0 then t.marks + "-" else t.marks,
       width := if width.None? then t.width else if width.value < 0 then -width.value else width.value,
       prec := if prec.None? then t.prec else if prec.value < 0 then None else Some(prec.value))
  }

  lemma StarAt(fmt: string, i: nat, args: seq<Arg>, d: Directive, w: int)
    requires StandsAt(fmt, i, "*") && !IsDigit(At(fmt, i + 1)) && At(fmt, i + 1) != '$'
    requires -INT_MAX - 1 <= w <= INT_MAX
    ensures i + 1 <= |fmt|
    ensures ReadDirective(fmt, i, [Num(w)] + args, d) == ReadDirective(fmt, i + 1, args, WidthArg(d, w))
  {
    assert fmt[i] == fmt[i..i + 1][0] == '*';
    assert ([Num(w)] + args)[1..] == args;
    KeptAt(w, INT_MAX);
    hide Signed;
  }

  lemma DotStarAt(fmt: string, i: nat, args: seq<Arg>, d: Directive, p: int)
    requires StandsAt(fmt, i, ".*") && !IsDigit(At(fmt, i + 2)) && At(fmt, i + 2) != '$'
    requires -INT_MAX - 1 <= p <= INT_MAX
    ensures i + 2 <= |fmt|
    ensures ReadDirective(fmt, i, [Num(p)] + args, d) == ReadDirective(fmt, i + 2, args, d.(prec := p))
  {
    assert fmt[i] == fmt[i..i + 2][0] == '.' && fmt[i + 1] == fmt[i..i + 2][1] == '*';
    assert ([Num(p)] + args)[1..] == args;
    KeptAt(p, INT_MAX);
    hide Signed;
  }

  lemma WidthPart(fmt: string, i: nat, args: seq<Arg>, d: Directive, t: Text, width: Option<int>)
    requires FitsInt(width) && StandsAt(fmt, i, StarWidth(t, width)) && d.width == 0
    requires !IsDigit(At(fmt, i + |StarWidth(t, width)|)) && At(fmt, i + |StarWidth(t, width)|) != '$'
    ensures i + |StarWidth(t, width)| <= |fmt|
    ensures ReadDirective(fmt, i, StarArg(width) + args, d) ==
      ReadDirective(fmt, i + |StarWidth(t, width)|, args,
                    if width.Some? then WidthArg(d, width.value) else d.(width := t.width))
  {
    hide ReadDirective, WidthText;
    if width.Some? {
      StarAt(fmt, i, args, d, width.value);
    } else {
      assert [] + args == args;
      OptionalWidth(fmt, i, args, d, t);
    }
  }

  lemma PrecPart(fmt: string, i: nat, args: seq<Arg>, d: Directive, t: Text, prec: Option<int>)
    requires FitsInt(prec) && StandsAt(fmt, i, StarPrec(t, prec)) && d.prec == -1
    requires !IsDigit(At(fmt, i + |StarPrec(t, prec)|)) && At(fmt, i + |StarPrec(t, prec)|) != '$'
    ensures i + |StarPrec(t, prec)| <= |fmt|
    ensures ReadDirective(fmt, i, StarArg(prec) + args, d) ==
      ReadDirective(fmt, i + |StarPrec(t, prec)|, args,
                    d.(prec := if prec.Some? then prec.value else if t.prec.None? then -1 else t.prec.value))
  {
    hide ReadDirective, PrecText;
    if prec.Some? {
      DotStarAt(fmt, i, args, d, prec.value);
    } else {
      assert [] + args == args;
      OptionalPrec(fmt, i, args, d, t);
    }
  }

  /** The pieces of the directive stand one after the other. */
  lemma PiecesStand(fmt: string, i: nat, t: Text, width: Option<int>, prec: Option<int>)
    requires WellWritten(t) && StandsAt(fmt, i, Starred(t, width, prec))
    ensures var (a, b, c) := (t.marks, StarWidth(t, width), StarPrec(t, prec));
      && StandsAt(fmt, i, a) && StandsAt(fmt, i + |a|, b) && StandsAt(fmt, i + |a| + |b|, c)
      && StandsAt(fmt, i + |a| + |b| + |c|, t.length + [t.conv])
      && i + |a| + |b| + |c| <= |fmt|
      && !IsDigit(At(fmt, i + |a| + |b|)) && At(fmt, i + |a| + |b|) != '$'
      && !IsDigit(At(fmt, i + |a| + |b| + |c|)) && At(fmt, i + |a| + |b| + |c|) != '$'
  {
    var (a, b, c) := (t.marks, StarWidth(t, width), StarPrec(t, prec));
    var last := t.length + [t.conv];
    hide *;
    StarredParts(t, width, prec);
    TailStart(t);
    StarPrecStart(t, prec);
    StandsSplit(fmt, i, a, b + (c + last));
    StandsInside(fmt, i, a);
    SizesStand(fmt, i + |a|, b, c, last);
    NoDigitNext(fmt, i + |a| + |b| + |c|, last);
  }

  lemma StarredParts(t: Text, width: Option<int>, prec: Option<int>)
    ensures var (b, c) := (StarWidth(t, width), StarPrec(t, prec));
      && Starred(t, width, prec) == t.marks + (b + (c + (t.length + [t.conv])))
      && |Starred(t, width, prec)| == |t.marks| + |b| + |c| + |t.length| + 1
  {
    hide StarWidth, StarPrec;
  }

  lemma StarPrecStart(t: Text, prec: Option<int>)
    ensures StarPrec(t, prec) != "" ==> StarPrec(t, prec)[0] == '.'
  {
    PrecStart(t);
    hide PrecText;
  }

  lemma Regroup3(a: seq<Arg>, b: seq<Arg>, c: seq<Arg>)
    ensures a + b + c == a + (b + c)
  {
  }

  /** The directive as read, sizes and all. */
  function Starry(t: Text, width: Option<int>, prec: Option<int>): Directive
    requires WellWritten(t)
  {
    Meaning(WrittenOut(t, width, prec)).(prec := if prec.Some? then prec.value
                                                 else if t.prec.None? then -1 else t.prec.value)
  }

  lemma StarsRead(fmt: string, i: nat, t: Text, width: Option<int>, prec: Option<int>, args: seq<Arg>)
    requires WellWritten(t) && FitsInt(width) && FitsInt(prec) && StandsAt(fmt, i, Starred(t, width, prec))
    ensures ReadDirective(fmt, i, StarArg(width) + StarArg(prec) + args, FRESH) ==
      Conversion(Starry(t, width, prec), t.conv, i + |Starred(t, width, prec)|, args)
  {
    var (a, b, c) := (t.marks, StarWidth(t, width), StarPrec(t, prec));
    hide *;
    PiecesStand(fmt, i, t, width, prec);
    StarredParts(t, width, prec);
    MarksOnly(t);
    AnyMark(t.marks);
    Regroup3(StarArg(width), StarArg(prec), args);
    StandsInside(fmt, i, a);
    MarksRead(fmt, i, StarArg(width) + (StarArg(prec) + args), a, FRESH);
    var d := MarkAll(a, FRESH);
    WidthPart(fmt, i + |a|, StarArg(prec) + args, d, t, width);
    var e := if width.Some? then WidthArg(d, width.value) else d.(width := t.width);
    StarryIs(t, width, prec);
    PrecPart(fmt, i + |a| + |b|, args, e, t, prec);
    var f := e.(prec := if prec.Some? then prec.value else if t.prec.None? then -1 else t.prec.value);
    LengthRead(fmt, i + |a| + |b| + |c|, args, f, t);
  }

  lemma AnyMark(marks: string)
    ensures (forall c :: c in marks ==> c in MARKS) ==> forall c :: c in marks ==> c in MARKS || c in "hlqjtzL"
  {
  }

  lemma MarksOnly(t: Text)
    requires WellWritten(t)
    ensures forall c :: c in t.marks ==> c in MARKS
    ensures var d := MarkAll(t.marks, FRESH);
      && d.width == 0 && d.prec == -1 && d.flags == MarkFlags(t.marks) <= {Alt, LAdjust, Grouping, ZeroPad}
      && d.sign == if '+' in t.marks then "+" else if ' ' in t.marks then " " else ""
  {
    MarksMean(t.marks, FRESH);
    FlagsOf(t.marks);
    hide MarkFlags, MarkAll;
  }

  lemma StarryIs(t: Text, width: Option<int>, prec: Option<int>)
    requires WellWritten(t)
    ensures var d := MarkAll(t.marks, FRESH);
      var e := if width.Some? then WidthArg(d, width.value) else d.(width := t.width);
      var f := e.(prec := if prec.Some? then prec.value else if t.prec.None? then -1 else t.prec.value);
      && e.prec == -1 && f.flags <= {Alt, LAdjust, Grouping, ZeroPad}
      && f.(flags := f.flags + LengthFlags(t.length).value) == Starry(t, width, prec)
  {
    MarksOnly(t);
    MinusMark(t.marks);
    hide MarkFlags, MarkAll, LengthFlags;
  }

  lemma MinusMark(marks: string)
    ensures MarkFlags(marks + "-") == MarkFlags(marks) + {LAdjust}
    ensures '+' in marks + "-" <==> '+' in marks
    ensures ' ' in marks + "-" <==> ' ' in marks
  {
  }

  /** Any negative precision is no precision. */
  lemma NoPrecision(d: Directive, e: Directive, ch: char, args: seq<Arg>, env: Env)
    requires GoodEnv(env) && !IsUnmodelledConv(d, ch) && (TakesArgument(ch) ==> ArgumentFits(ch, args))
    requires e == d.(prec := e.prec) && (e.prec == d.prec || (e.prec < 0 && d.prec < 0))
    ensures !IsUnmodelledConv(e, ch) && Layout(FieldOf(e, ch, args, env)) == Layout(FieldOf(d, ch, args, env))
  {
    hide SignedValue, UnsignedValue, UjtoaText, Written;
    SameLayout(FieldOf(e, ch, args, env), FieldOf(d, ch, args, env));
  }

  lemma SameLayout(f: Field, g: Field)
    requires f == g.(dprec := f.dprec) && (f.dprec == g.dprec || (f.dprec < 0 && g.dprec < 0))
    ensures Layout(f) == Layout(g)
  {
  }

  lemma StarryWritten(t: Text, width: Option<int>, prec: Option<int>)
    requires WellWritten(t)
    ensures WellWritten(WrittenOut(t, width, prec)) && WrittenOut(t, width, prec).conv == t.conv
    ensures var (d, e) := (Meaning(WrittenOut(t, width, prec)), Starry(t, width, prec));
      e == d.(prec := e.prec) && (e.prec == d.prec || (e.prec < 0 && d.prec < 0))
  {
    hide LengthFlags, MarkFlags;
  }

  /** A size given as an argument is the size written out. */
  lemma StarsRender(t: Text, width: Option<int>, prec: Option<int>, arg: Arg, env: Env)
    requires WellWritten(t) && GoodEnv(env) && FitsInt(width) && FitsInt(prec)
    requires TakesArgument(t.conv) && ArgumentFits(t.conv, [arg]) && !IsUnmodelledConv(Meaning(t), t.conv)
    ensures var fmt, args := "%" + Starred(t, width, prec), StarArg(width) + StarArg(prec) + [arg];
      var plain := "%" + Spelled(WrittenOut(t, width, prec));
      && Modelled(fmt, args, env) && Modelled(plain, [arg], env)
      && Rendering(fmt, args, env) == Rendering(plain, [arg], env)
  {
    var fmt, args := "%" + Starred(t, width, prec), StarArg(width) + StarArg(prec) + [arg];
    var u, e := WrittenOut(t, width, prec), Starry(t, width, prec);
    assert fmt[1..1 + |Starred(t, width, prec)|] == Starred(t, width, prec);
    assert StandsAt(fmt, 1, Starred(t, width, prec)) && fmt[0] == '%' && |fmt| == 1 + |Starred(t, width, prec)|;
    assert t.conv != '\0';
    Modelable(t, width, prec);
    StarryWritten(t, width, prec);
    hide *;
    StarsRead(fmt, 1, t, width, prec, [arg]);
    NothingLeft(fmt, [arg][1..], env);
    NoPrecision(Meaning(u), e, t.conv, [arg], env);
    PiecesAt(fmt, 0, args, env, e, t.conv, |fmt|, [arg], [arg][1..]);
    var s := Layout(FieldOf(e, t.conv, [arg], env));
    assert [s] + [] == [s];
    RenderingIs(fmt, args, env, [s]);
    JoinedOne(s);
    AloneRenders(u, arg, env);
  }

  lemma Modelable(t: Text, width: Option<int>, prec: Option<int>)
    requires WellWritten(t) && !IsUnmodelledConv(Meaning(t), t.conv)
    ensures WellWritten(WrittenOut(t, width, prec))
    ensures !IsUnmodelledConv(Meaning(WrittenOut(t, width, prec)), t.conv)
  {
    hide LengthFlags, MarkFlags;
    LongIsLength(t.marks);
    LongIsLength(WrittenOut(t, width, prec).marks);
  }

  lemma LongIsLength(marks: string)
    ensures LongInt !in MarkFlags(marks)
  {
  }
}
