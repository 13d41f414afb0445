/** Whole formats: what is written as a list of literal texts and directives renders
    as the list of what they mean. */
module PrintfFormats {
  import opened Common
  import opened Digits
  import opened PrintfSpec
  import opened PrintfLaws

  /** Text without a percent sign, or a directive and the argument it takes, if any. */
  datatype Part = Literal(text: string) | Conv(t: Text, arg: Option<Arg>)

  function ArgOf(p: Part): seq<Arg> {
    if p.Conv? && p.arg.Some? then [p.arg.value] else []
  }

  predicate GoodPart(p: Part) {
    match p
    case Literal(text) => '%' !in text
    case Conv(t, arg) =>
      && WellWritten(t) && !IsUnmodelledConv(Meaning(t), t.conv)
      && (if TakesArgument(t.conv) then ArgumentFits(t.conv, ArgOf(p)) else arg.None?)
  }

  predicate GoodParts(ps: seq<Part>) {
    forall p :: p in ps ==> GoodPart(p)
  }

  function PartText(p: Part): string {
    match p case Literal(text) => text case Conv(t, _) => "%" + Spelled(t)
  }

  function FormatOf(ps: seq<Part>): string {
    if ps == [] then "" else PartText(ps[0]) + FormatOf(ps[1..])
  }

  function ArgsOf(ps: seq<Part>): seq<Arg> {
    if ps == [] then [] else ArgOf(ps[0]) + ArgsOf(ps[1..])
  }

  function Shown(p: Part, env: Env): string
    requires GoodEnv(env) && GoodPart(p)
  {
    match p
    case Literal(text) => text
    case Conv(t, _) => Layout(FieldOf(Meaning(t), t.conv, ArgOf(p), env))
  }

  function AllShown(ps: seq<Part>, env: Env): string
    requires GoodEnv(env) && GoodParts(ps)
  {
    if ps == [] then "" else Shown(ps[0], env) + AllShown(ps[1..], env)
  }

  /** The rendering from i on is the text s. */
  predicate RendersAs(fmt: string, i: nat, args: seq<Arg>, env: Env, s: string)
    requires GoodEnv(env) && i <= |fmt|
  {
    Pieces(fmt, i, args, env).Some? && Joined(Pieces(fmt, i, args, env).value) == s
  }

  lemma RendersValue(fmt: string, i: nat, args: seq<Arg>, env: Env, s: string)
    requires GoodEnv(env) && i <= |fmt| && RendersAs(fmt, i, args, env, s)
    ensures Pieces(fmt, i, args, env).Some? && Joined(Pieces(fmt, i, args, env).value) == s
  {
    hide Pieces, Joined;
  }

  lemma ValueRenders(fmt: string, i: nat, args: seq<Arg>, env: Env, s: string)
    requires GoodEnv(env) && i <= |fmt|
    requires Pieces(fmt, i, args, env).Some? && Joined(Pieces(fmt, i, args, env).value) == s
    ensures RendersAs(fmt, i, args, env, s)
  {
    hide Pieces, Joined;
  }

  lemma JoinedFirst(s: string, ss: seq<string>)
    ensures Joined([s] + ss) == s + Joined(ss)
  {
    assert ([s] + ss)[1..] == ss;
  }

  /** Literal text up to the next directive is a piece of its own. */
  lemma TextSplits(fmt: string, i: nat, j: nat, args: seq<Arg>, env: Env)
    requires GoodEnv(env) && i <= |fmt| && j == NextPercent(fmt, i)
    ensures var p, tail := Pieces(fmt, i, args, env), Pieces(fmt, j, args, env);
      p == if tail.None? then None else Some((if j > i then [fmt[i..j]] else []) + tail.value)
  {
    hide ReadDirective, FieldOf, Layout, IsUnmodelledConv, TakesArgument;
    assert NextPercent(fmt, j) == j;
    var text: seq<string> := if j > i then [fmt[i..j]] else [];
    assert text + [] == text;
    if j < |fmt| {
      match ReadDirective(fmt, j + 1, args, FRESH)
      case Unmodelled =>
      case Conversion(d, ch, next, rest) =>
        if ch != '\0' && !IsUnmodelledConv(d, ch) && (TakesArgument(ch) ==> ArgumentFits(ch, rest)) {
          var tail := Pieces(fmt, next, if TakesArgument(ch) then rest[1..] else rest, env);
          if tail.Some? {
            var field := Layout(FieldOf(d, ch, rest, env));
            assert [] + [field] + tail.value == [field] + tail.value;
            Common.Regroup(text, [field], tail.value);
          }
        }
    }
  }

  lemma NextOne(fmt: string, i: nat) returns (j: nat)
    requires i < |fmt| && fmt[i] != '%'
    ensures i < j <= |fmt| && j == NextPercent(fmt, i) == NextPercent(fmt, i + 1)
  {
    j := NextPercent(fmt, i + 1);
  }

  lemma LongerText(c: char, text: string, tail: seq<string>)
    ensures Joined([[c] + text] + tail) == [c] + Joined((if text != "" then [text] else []) + tail)
  {
    hide Joined;
    JoinedFirst([c] + text, tail);
    if text != "" {
      JoinedFirst(text, tail);
      Common.Regroup([c], text, Joined(tail));
    } else {
      assert [] + tail == tail && [c] + text == [c];
    }
  }

  lemma TextChar(fmt: string, i: nat, args: seq<Arg>, env: Env, s: string)
    requires GoodEnv(env) && i < |fmt| && fmt[i] != '%' && RendersAs(fmt, i + 1, args, env, s)
    ensures RendersAs(fmt, i, args, env, [fmt[i]] + s)
  {
    hide *;
    var j := NextOne(fmt, i);
    TextSplits(fmt, i, j, args, env);
    TextSplits(fmt, i + 1, j, args, env);
    RendersValue(fmt, i + 1, args, env, s);
    var tail, text := Pieces(fmt, j, args, env).value, fmt[i + 1..j];
    assert fmt[i..j] == [fmt[i]] + text && (text != "" <==> j > i + 1);
    LongerText(fmt[i], text, tail);
    ValueRenders(fmt, i, args, env, [fmt[i]] + s);
  }

  lemma PartOpens(p: Part)
    requires p.Conv? && GoodPart(p)
    ensures WellWritten(p.t) && !IsUnmodelledConv(Meaning(p.t), p.t.conv) && p.t.conv != '\0'
    ensures PartText(p) == "%" + Spelled(p.t) && |PartText(p)| == 1 + |Spelled(p.t)|
  {
    hide Spelled, IsUnmodelledConv;
  }

  lemma PercentAt(fmt: string, i: nat)
    requires StandsAt(fmt, i, "%")
    ensures i < |fmt| && fmt[i] == '%'
  {
    assert fmt[i] == fmt[i..i + 1][0];
  }

  /** A conversion looks at the first argument only. */
  lemma ArgumentIsFirst(p: Part, left: seq<Arg>, env: Env)
    requires GoodEnv(env) && p.Conv? && GoodPart(p)
    ensures var d, ch, rest := Meaning(p.t), p.t.conv, ArgOf(p) + left;
      && (TakesArgument(ch) ==> ArgumentFits(ch, rest)) && left == (if TakesArgument(ch) then rest[1..] else rest)
      && !IsUnmodelledConv(d, ch) && Layout(FieldOf(d, ch, rest, env)) == Shown(p, env)
  {
    hide NumberField, TextField, SignedValue, UnsignedValue, Lengthened, Meaning, WellWritten, Layout, IsUnmodelledConv;
    if TakesArgument(p.t.conv) {
      assert (ArgOf(p) + left)[0] == ArgOf(p)[0];
    } else {
      assert [] + left == left;
    }
  }

  /** A directive that stands at i, and the rendering from behind it. */
  lemma ConvPart(fmt: string, i: nat, p: Part, left: seq<Arg>, env: Env, s: string)
    requires GoodEnv(env) && p.Conv? && GoodPart(p) && i + |PartText(p)| <= |fmt| && StandsAt(fmt, i, PartText(p))
    requires RendersAs(fmt, i + |PartText(p)|, left, env, s)
    ensures RendersAs(fmt, i, ArgOf(p) + left, env, Shown(p, env) + s)
  {
    hide *;
    PartOpens(p);
    var d, ch, rest, next := Meaning(p.t), p.t.conv, ArgOf(p) + left, i + |PartText(p)|;
    StandsSplit(fmt, i, "%", Spelled(p.t));
    PercentAt(fmt, i);
    ArgumentIsFirst(p, left, env);
    DirectiveReadBack(fmt, i + 1, p.t, rest);
    RendersValue(fmt, next, left, env, s);
    PiecesAt(fmt, i, rest, env, d, ch, next, rest, left);
    JoinedFirst(Shown(p, env), Pieces(fmt, next, left, env).value);
    ValueRenders(fmt, i, rest, env, Shown(p, env) + s);
  }

  lemma {:induction false} TextPart(fmt: string, i: nat, text: string, args: seq<Arg>, env: Env, s: string)
    requires GoodEnv(env) && '%' !in text && StandsAt(fmt, i, text) && RendersAs(fmt, i + |text|, args, env, s)
    ensures RendersAs(fmt, i, args, env, text + s)
    decreases |text|
  {
    hide RendersAs;
    if text == "" {
      assert "" + s == s;
    } else {
      assert text == [text[0]] + text[1..];
      StandsSplit(fmt, i, [text[0]], text[1..]);
      assert fmt[i] == fmt[i..i + |text|][0] == text[0];
      TextPart(fmt, i + 1, text[1..], args, env, s);
      TextChar(fmt, i, args, env, text[1..] + s);
      Common.Regroup([text[0]], text[1..], s);
    }
  }

  lemma NoParts(fmt: string, i: nat, env: Env)
    requires GoodEnv(env) && i <= |fmt| && fmt[i..] == FormatOf([])
    ensures GoodParts([]) && RendersAs(fmt, i, ArgsOf([]), env, AllShown([], env))
  {
    NothingLeft(fmt, [], env);
  }

  lemma FirstPart(ps: seq<Part>, env: Env)
    requires GoodEnv(env) && GoodParts(ps) && ps != []
    ensures GoodPart(ps[0]) && GoodParts(ps[1..])
    ensures FormatOf(ps) == PartText(ps[0]) + FormatOf(ps[1..]) && ArgsOf(ps) == ArgOf(ps[0]) + ArgsOf(ps[1..])
    ensures AllShown(ps, env) == Shown(ps[0], env) + AllShown(ps[1..], env)
  {
    hide GoodPart, Shown, PartText, ArgOf;
    assert ps[0] in ps && forall q :: q in ps[1..] ==> q in ps;
  }

  lemma FormatSplits(fmt: string, i: nat, first: string, rest: string)
    requires i <= |fmt| && fmt[i..] == first + rest
    ensures StandsAt(fmt, i, first) && i + |first| <= |fmt| && fmt[i + |first|..] == rest
  {
    assert fmt[i..i + |first|] == fmt[i..][..|first|];
    assert fmt[i + |first|..] == fmt[i..][|first|..];
  }

  lemma PlainPart(p: Part, args: seq<Arg>, env: Env)
    requires GoodEnv(env) && p.Literal? && GoodPart(p)
    ensures '%' !in p.text && PartText(p) == Shown(p, env) == p.text && ArgOf(p) + args == args
  {
  }

  lemma {:induction false} PartsRender(fmt: string, i: nat, ps: seq<Part>, env: Env)
    requires GoodEnv(env) && GoodParts(ps) && i <= |fmt| && fmt[i..] == FormatOf(ps)
    ensures RendersAs(fmt, i, ArgsOf(ps), env, AllShown(ps, env))
    decreases |ps|
  {
    hide *;
    if ps == [] {
      NoParts(fmt, i, env);
    } else {
      var p, rest := ps[0], ps[1..];
      FirstPart(ps, env);
      FormatSplits(fmt, i, PartText(p), FormatOf(rest));
      PartsRender(fmt, i + |PartText(p)|, rest, env);
      if p.Literal? {
        PlainPart(p, ArgsOf(rest), env);
        TextPart(fmt, i, p.text, ArgsOf(rest), env, AllShown(rest, env));
      } else {
        ConvPart(fmt, i, p, ArgsOf(rest), env, AllShown(rest, env));
      }
    }
  }

  /** A format written out from literal texts and directives renders as those texts and
      the fields the directives mean, each with its own argument, in order. */
  lemma FormatRenders(ps: seq<Part>, env: Env)
    requires GoodEnv(env) && GoodParts(ps)
    ensures Modelled(FormatOf(ps), ArgsOf(ps), env)
    ensures Rendering(FormatOf(ps), ArgsOf(ps), env) == AllShown(ps, env)
  {
    var fmt := FormatOf(ps);
    assert fmt[0..] == fmt;
    hide FormatOf, ArgsOf, AllShown, GoodParts, Pieces, Joined;
    PartsRender(fmt, 0, ps, env);
  }
}
