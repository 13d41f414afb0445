/** What a directive is written as and what it means, and what a printed number reads
    back as (7.19.6.1 of ISO/IEC 9899:1999, for the modelled conversions). */
module PrintfLaws {
  import opened Arithmetic
  import opened Common
  import opened Digits
  import opened PrintfSpec

  // --------------------------------------------------- a directive, as written

  const MARKS := " +#-'0"

  /** Flags in any order and number, a width if not zero, a precision if there is
      one, a length modifier, and the conversion character. */
  datatype Text = Text(marks: string, width: nat, prec: Option<nat>, length: string, conv: char)

  function LengthFlags(length: string): Option<set<Flag>> {
    match length
    case "" => Some({})
    case "hh" => Some({CharInt})
    case "h" => Some({ShortInt})
    case "l" => Some({LongInt})
    case "ll" => Some({LLongInt})
    case "j" => Some({IntMaxT})
    case "z" => Some({SizeT})
    case "t" => Some({PtrDiffT})
    case "q" => Some({LLongInt})
    case "L" => Some({LongDbl})
    case _ => None
  }

  predicate WellWritten(t: Text) {
    && (forall c :: c in t.marks ==> c in MARKS)
    && LengthFlags(t.length).Some?
    && !IsDigit(t.conv) && t.conv !in " +#-'*.hlqjtzL$" && t.conv != '\0'
  }

  function Numeric(v: nat): string {
    Numeral(v, 10, Decimals())
  }

  function WidthText(t: Text): string {
    if t.width == 0 then "" else Numeric(t.width)
  }

  function PrecText(t: Text): string {
    if t.prec.None? then "" else "." + Numeric(t.prec.value)
  }

  function Spelled(t: Text): string {
    t.marks + WidthText(t) + PrecText(t) + t.length + [t.conv]
  }

  function MarkFlags(marks: string): set<Flag> {
    (if '#' in marks then {Alt} else {}) + (if '-' in marks then {LAdjust} else {})
    + (if '\'' in marks then {Grouping} else {}) + (if '0' in marks then {ZeroPad} else {})
  }

  function Meaning(t: Text): Directive
    requires WellWritten(t)
  {
    Directive(MarkFlags(t.marks) + LengthFlags(t.length).value,
              t.width,
              if t.prec.None? then -1 else t.prec.value,
              if '+' in t.marks then "+" else if ' ' in t.marks then " " else "")
  }

  /** One flag. */
  function Mark(c: char, d: Directive): Directive {
    if c == ' ' then d.(sign := if d.sign == "" then " " else d.sign)
    else if c == '+' then d.(sign := "+")
    else match Marked(c, d) case Some(e) => e case None => d
  }

  function MarkAll(marks: string, d: Directive): Directive {
    if marks == "" then d else MarkAll(marks[1..], Mark(marks[0], d))
  }

  lemma MarkRead(fmt: string, i: nat, args: seq<Arg>, d: Directive)
    requires i < |fmt| && (fmt[i] in MARKS || fmt[i] in "hlqjtzL")
    ensures ReadDirective(fmt, i, args, d) == ReadDirective(fmt, i + 1, args, Mark(fmt[i], d))
  {
  }

  lemma {:induction false} MarksRead(fmt: string, i: nat, args: seq<Arg>, marks: string, d: Directive)
    requires i <= |fmt| && StandsAt(fmt, i, marks)
    requires forall c :: c in marks ==> c in MARKS || c in "hlqjtzL"
    ensures ReadDirective(fmt, i, args, d) == ReadDirective(fmt, i + |marks|, args, MarkAll(marks, d))
    decreases |marks|
  {
    hide ReadDirective, Mark;
    if marks != "" {
      assert fmt[i] == fmt[i..i + |marks|][0] == marks[0] && marks[0] in marks;
      MarkRead(fmt, i, args, d);
      assert marks == [marks[0]] + marks[1..];
      StandsSplit(fmt, i, [marks[0]], marks[1..]);
      MarksRead(fmt, i + 1, args, marks[1..], Mark(marks[0], d));
    }
  }

  /** Order and repetition do not matter, and a plus sign wins over a space. */
  lemma {:induction false} MarksMean(marks: string, d: Directive)
    requires forall c :: c in marks ==> c in MARKS
    requires d.sign == "" || d.sign == " " || d.sign == "+"
    ensures MarkAll(marks, d) == d.(flags := d.flags + MarkFlags(marks),
                                    sign := if '+' in marks || d.sign == "+" then "+"
                                            else if ' ' in marks || d.sign == " " then " " else "")
  {
    if marks != "" {
      var c, rest := marks[0], marks[1..];
      assert marks == [c] + rest && c in MARKS;
      MarkMeans(c, d);
      MarkFlagsSplit(c, rest);
      hide Mark, MarkFlags;
      MarksMean(rest, Mark(c, d));
      assert d.flags + MarkFlags(marks) == Mark(c, d).flags + MarkFlags(rest);
    }
  }

  lemma MarkFlagsSplit(c: char, rest: string)
    ensures MarkFlags([c] + rest) == MarkFlags([c]) + MarkFlags(rest)
  {
  }

  lemma MarkMeans(c: char, d: Directive)
    requires c in MARKS
    ensures Mark(c, d) == d.(flags := d.flags + MarkFlags([c]),
                             sign := if c == '+' then "+" else if c == ' ' && d.sign == "" then " " else d.sign)
  {
    assert Mark(c, d).flags == d.flags + MarkFlags([c]);
  }

  lemma LengthMeans(length: string, d: Directive)
    requires LengthFlags(length).Some? && d.flags <= {Alt, LAdjust, Grouping, ZeroPad}
    ensures forall c :: c in length ==> c in "hlqjtzL"
    ensures MarkAll(length, d) == d.(flags := d.flags + LengthFlags(length).value)
  {
    if length == "hh" || length == "ll" {
      var c, e := length[0], Mark(length[0], d);
      assert length[1..] == [c] && [c][1..] == "";
      assert MarkAll("", Mark(c, e)) == Mark(c, e);
      assert MarkAll([c], e) == Mark(c, e);
      assert Mark(c, e).flags == d.flags + LengthFlags(length).value;
    } else if length != "" {
      assert length[1..] == "" && length == [length[0]];
    }
  }

  // ------------------------------------------------------- numbers, as written

  lemma {:induction false} NumericDigits(v: nat)
    ensures forall c :: c in Numeric(v) ==> IsDigit(c)
    ensures v > 0 ==> Numeric(v)[0] != '0'
  {
    if v >= 10 {
      NumericDigits(v / 10);
    }
  }

  /** Reading a run of digits accumulates it. */
  function Accumulated(s: string, acc: nat): nat
    requires forall c :: c in s ==> IsDigit(c)
  {
    if s == "" then acc else Accumulated(s[1..], 10 * acc + DigitValue(s[0]))
  }

  lemma {:induction false} AccumulatedEnd(s: string, c: char, acc: nat)
    requires IsDigit(c) && forall x :: x in s ==> IsDigit(x)
    ensures Accumulated(s + [c], acc) == 10 * Accumulated(s, acc) + DigitValue(c)
  {
    if s != "" {
      assert (s + [c])[1..] == s[1..] + [c];
      AccumulatedEnd(s[1..], c, 10 * acc + DigitValue(s[0]));
    }
  }

  lemma {:induction false} AccumulatedNumeric(v: nat)
    ensures (forall c :: c in Numeric(v) ==> IsDigit(c)) && Accumulated(Numeric(v), 0) == v
  {
    NumericDigits(v);
    if v < 10 {
      assert Numeric(v)[1..] == "";
    } else {
      AccumulatedNumeric(v / 10);
      AccumulatedEnd(Numeric(v / 10), Decimals()[v % 10], 0);
    }
  }

  lemma {:induction false} NumberRead(fmt: string, i: nat, s: string, acc: nat)
    requires StandsAt(fmt, i, s) && (forall c :: c in s ==> IsDigit(c)) && !IsDigit(At(fmt, i + |s|))
    ensures ReadNumber(fmt, i, acc) == (Accumulated(s, acc), i + |s|)
    decreases |s|
  {
    if s != "" {
      assert fmt[i] == s[0] && s[0] in s;
      assert s == [s[0]] + s[1..];
      StandsSplit(fmt, i, [s[0]], s[1..]);
      NumberRead(fmt, i + 1, s[1..], 10 * acc + DigitValue(s[0]));
    }
  }

  /** A number written in decimal, and not followed by a digit, is the number read. */
  lemma NumericRead(fmt: string, i: nat, v: nat)
    requires StandsAt(fmt, i, Numeric(v)) && !IsDigit(At(fmt, i + |Numeric(v)|))
    ensures ReadNumber(fmt, i, 0) == (v, i + |Numeric(v)|)
  {
    AccumulatedNumeric(v);
    NumberRead(fmt, i, Numeric(v), 0);
  }

  // ------------------------------------------------ the directive, read back

  lemma WidthRead(fmt: string, i: nat, args: seq<Arg>, d: Directive, w: nat)
    requires w > 0 && StandsAt(fmt, i, Numeric(w))
    requires !IsDigit(At(fmt, i + |Numeric(w)|)) && At(fmt, i + |Numeric(w)|) != '$'
    ensures ReadDirective(fmt, i, args, d) == ReadDirective(fmt, i + |Numeric(w)|, args, d.(width := w))
  {
    var s := Numeric(w);
    NumericDigits(w);
    NumericRead(fmt, i, w);
    assert fmt[i] == fmt[i..i + |s|][0] == s[0] && s[0] in s;
    hide Numeral, Accumulated, ReadNumber;
  }

  lemma PrecRead(fmt: string, i: nat, args: seq<Arg>, d: Directive, p: nat)
    requires StandsAt(fmt, i, "." + Numeric(p)) && !IsDigit(At(fmt, i + 1 + |Numeric(p)|))
    ensures ReadDirective(fmt, i, args, d) == ReadDirective(fmt, i + 1 + |Numeric(p)|, args, d.(prec := p))
  {
    var s := Numeric(p);
    NumericDigits(p);
    StandsSplit(fmt, i, ".", s);
    NumericRead(fmt, i + 1, p);
    assert fmt[i] == fmt[i..i + 1][0] == '.';
    assert fmt[i + 1] == fmt[i + 1..i + 1 + |s|][0] == s[0] && s[0] in s;
    hide Numeral, Accumulated, ReadNumber;
  }

  /** What follows the width, or the precision, is neither a digit nor a dollar. */
  lemma NoDigitNext(fmt: string, i: nat, s: string)
    requires StandsAt(fmt, i, s) && s != "" && !IsDigit(s[0]) && s[0] != '$'
    ensures !IsDigit(At(fmt, i)) && At(fmt, i) != '$'
  {
    assert fmt[i] == fmt[i..i + |s|][0];
  }

  lemma PrecStart(t: Text)
    ensures PrecText(t) != "" ==> PrecText(t)[0] == '.'
  {
  }

  lemma TailStart(t: Text)
    requires WellWritten(t)
    ensures var s := t.length + [t.conv]; s != "" && !IsDigit(s[0]) && s[0] != '$'
    ensures var s := PrecText(t) + (t.length + [t.conv]); s != "" && !IsDigit(s[0]) && s[0] != '$'
  {
    if t.length != "" {
      assert t.length[0] in "hlqjtzL" by { LengthMeans(t.length, FRESH); }
    }
  }

  lemma ConvRead(fmt: string, i: nat, args: seq<Arg>, d: Directive, t: Text)
    requires WellWritten(t) && StandsAt(fmt, i, [t.conv])
    ensures ReadDirective(fmt, i, args, d) == Conversion(d, t.conv, i + 1, args)
  {
    assert fmt[i] == fmt[i..i + 1][0] == t.conv;
  }

  lemma LengthRead(fmt: string, i: nat, args: seq<Arg>, d: Directive, t: Text)
    requires WellWritten(t) && StandsAt(fmt, i, t.length + [t.conv]) && d.flags <= {Alt, LAdjust, Grouping, ZeroPad}
    ensures ReadDirective(fmt, i, args, d) ==
      Conversion(d.(flags := d.flags + LengthFlags(t.length).value), t.conv, i + |t.length| + 1, args)
  {
    hide ReadDirective, StandsAt, MarkAll;
    LengthMeans(t.length, d);
    StandsSplit(fmt, i, t.length, [t.conv]);
    StandsInside(fmt, i, t.length);
    MarksRead(fmt, i, args, t.length, d);
    ConvRead(fmt, i + |t.length|, args, MarkAll(t.length, d), t);
  }

  lemma SizesStand(fmt: string, i: nat, width: string, prec: string, last: string)
    requires StandsAt(fmt, i, width + (prec + last))
    requires last != "" && !IsDigit(last[0]) && last[0] != '$'
    requires prec != "" ==> prec[0] == '.'
    ensures i <= i + |width| <= i + |width| + |prec| <= |fmt|
    ensures StandsAt(fmt, i, width) && StandsAt(fmt, i + |width|, prec) && StandsAt(fmt, i + |width| + |prec|, last)
    ensures !IsDigit(At(fmt, i + |width|)) && At(fmt, i + |width|) != '$' && !IsDigit(At(fmt, i + |width| + |prec|))
  {
    assert (prec + last)[0] == if prec != "" then prec[0] else last[0];
    hide StandsAt, At;
    StandsSplit(fmt, i, width, prec + last);
    StandsSplit(fmt, i + |width|, prec, last);
    NoDigitNext(fmt, i + |width|, prec + last);
    NoDigitNext(fmt, i + |width| + |prec|, last);
    StandsInside(fmt, i + |width| + |prec|, last);
  }

  lemma OptionalWidth(fmt: string, i: nat, args: seq<Arg>, d: Directive, t: Text)
    requires StandsAt(fmt, i, WidthText(t)) && d.width == 0
    requires !IsDigit(At(fmt, i + |WidthText(t)|)) && At(fmt, i + |WidthText(t)|) != '$'
    ensures i + |WidthText(t)| <= |fmt|
    ensures ReadDirective(fmt, i, args, d) == ReadDirective(fmt, i + |WidthText(t)|, args, d.(width := t.width))
  {
    hide ReadDirective, Numeral;
    if t.width > 0 {
      WidthRead(fmt, i, args, d, t.width);
    }
  }

  lemma OptionalPrec(fmt: string, i: nat, args: seq<Arg>, d: Directive, t: Text)
    requires StandsAt(fmt, i, PrecText(t)) && d.prec == -1 && !IsDigit(At(fmt, i + |PrecText(t)|))
    ensures i + |PrecText(t)| <= |fmt|
    ensures ReadDirective(fmt, i, args, d) ==
      ReadDirective(fmt, i + |PrecText(t)|, args, d.(prec := if t.prec.None? then -1 else t.prec.value))
  {
    hide ReadDirective, Numeral;
    if t.prec.Some? {
      PrecRead(fmt, i, args, d, t.prec.value);
    }
  }

  /** The width and the precision, if there are any. */
  lemma SizesRead(fmt: string, i: nat, args: seq<Arg>, d: Directive, t: Text)
    requires WellWritten(t) && StandsAt(fmt, i, WidthText(t) + (PrecText(t) + (t.length + [t.conv])))
    requires d.width == 0 && d.prec == -1
    ensures i <= |fmt| && i + |WidthText(t)| + |PrecText(t)| <= |fmt|
    ensures StandsAt(fmt, i + |WidthText(t)| + |PrecText(t)|, t.length + [t.conv])
    ensures ReadDirective(fmt, i, args, d) ==
      ReadDirective(fmt, i + |WidthText(t)| + |PrecText(t)|, args,
                    d.(width := t.width, prec := if t.prec.None? then -1 else t.prec.value))
  {
    hide *;
    TailStart(t);
    PrecStart(t);
    SizesStand(fmt, i, WidthText(t), PrecText(t), t.length + [t.conv]);
    OptionalWidth(fmt, i, args, d, t);
    OptionalPrec(fmt, i + |WidthText(t)|, args, d.(width := t.width), t);
  }

  lemma SpelledParts(t: Text)
    ensures Spelled(t) == t.marks + (WidthText(t) + (PrecText(t) + (t.length + [t.conv])))
    ensures |Spelled(t)| == |t.marks| + |WidthText(t)| + |PrecText(t)| + |t.length| + 1
  {
    hide WidthText, PrecText;
  }

  /** A directive means what it is written as, whatever stands around it. */
  lemma DirectiveReadBack(fmt: string, i: nat, t: Text, args: seq<Arg>)
    requires WellWritten(t) && StandsAt(fmt, i, Spelled(t))
    ensures ReadDirective(fmt, i, args, FRESH) == Conversion(Meaning(t), t.conv, i + |Spelled(t)|, args)
  {
    var sizes := WidthText(t) + (PrecText(t) + (t.length + [t.conv]));
    hide ReadDirective, StandsAt, MarkAll, WidthText, PrecText, Spelled, LengthFlags, MarkFlags;
    SpelledParts(t);
    StandsSplit(fmt, i, t.marks, sizes);
    StandsInside(fmt, i, t.marks);
    MarksRead(fmt, i, args, t.marks, FRESH);
    MarksMean(t.marks, FRESH);
    SizesRead(fmt, i + |t.marks|, args, MarkAll(t.marks, FRESH), t);
    var d := MarkAll(t.marks, FRESH).(width := t.width, prec := if t.prec.None? then -1 else t.prec.value);
    FlagsOf(t.marks);
    assert d.flags == MarkFlags(t.marks);
    LengthRead(fmt, i + |t.marks| + |WidthText(t)| + |PrecText(t)|, args, d, t);
    assert d.(flags := d.flags + LengthFlags(t.length).value) == Meaning(t);
  }

  lemma FlagsOf(marks: string)
    ensures FRESH.flags + MarkFlags(marks) == MarkFlags(marks) <= {Alt, LAdjust, Grouping, ZeroPad}
  {
  }

  lemma StandsInside(fmt: string, i: nat, s: string)
    requires StandsAt(fmt, i, s)
    ensures i <= i + |s| <= |fmt|
  {
  }

  // --------------------------------------------------- the field, read back

  function DropBlanks(s: string): string {
    if s != "" && s[0] == ' ' then DropBlanks(s[1..]) else s
  }

  function TakeGlyphs(s: string, glyphs: string): string {
    if s != "" && s[0] in glyphs then [s[0]] + TakeGlyphs(s[1..], glyphs) else ""
  }

  /** A number as a reader sees it: an optional 0x, then digits as far as they go. */
  function Magnitude(s: string, base: nat, glyphs: string): nat {
    var digits := if |s| >= 2 && s[0] == '0' && (s[1] == 'x' || s[1] == 'X') then s[2..] else s;
    Evaluate(TakeGlyphs(digits, glyphs), base, glyphs)
  }

  /** Blanks, a sign, a magnitude. */
  function ReadField(text: string, base: nat, glyphs: string): int {
    var s := DropBlanks(text);
    if s != "" && s[0] == '-' then -(Magnitude(s[1..], base, glyphs) as int)
    else if s != "" && s[0] == '+' then Magnitude(s[1..], base, glyphs)
    else Magnitude(s, base, glyphs)
  }

  /** What no digit of ours is, and no separator may be. */
  const PUNCTUATION := " +-xX0"

  predicate GoodGlyphs(glyphs: string) {
    && |glyphs| > 0 && glyphs[0] == '0'
    && ' ' !in glyphs && '+' !in glyphs && '-' !in glyphs && 'x' !in glyphs && 'X' !in glyphs
  }

  lemma {:induction false} DropAll(n: nat, s: string)
    ensures DropBlanks(Repeat(' ', n) + s) == DropBlanks(s)
  {
    if n == 0 {
      assert Repeat(' ', 0) + s == s;
    } else {
      var t := Repeat(' ', n) + s;
      assert t[0] == ' ';
      assert t[1..] == Repeat(' ', n - 1) + s;
      DropAll(n - 1, s);
    }
  }

  lemma {:induction false} TakeAll(s: string, n: nat, glyphs: string)
    requires (forall c :: c in s ==> c in glyphs) && ' ' !in glyphs
    ensures TakeGlyphs(s + Repeat(' ', n), glyphs) == s
  {
    var t := s + Repeat(' ', n);
    if s != "" {
      assert t[1..] == s[1..] + Repeat(' ', n);
      TakeAll(s[1..], n, glyphs);
    }
  }

  lemma {:induction false} ZerosEvaluate(n: nat, s: string, base: nat, glyphs: string)
    requires |glyphs| > 0 && glyphs[0] == '0'
    ensures Evaluate(Repeat('0', n) + s, base, glyphs) == Evaluate(s, base, glyphs)
  {
    if n == 0 {
      assert Repeat('0', 0) + s == s;
    } else {
      ZerosEvaluate(n - 1, s, base, glyphs);
      assert Repeat('0', n) + s == ['0'] + (Repeat('0', n - 1) + s);
      LeadingZero(Repeat('0', n - 1) + s, base, glyphs);
    }
  }

  /** Zeros and digits, then blanks. */
  lemma MagnitudeOf(ox: string, zeros: nat, digits: string, after: nat, base: nat, glyphs: string)
    requires GoodGlyphs(glyphs) && (forall c :: c in digits ==> c in glyphs)
    requires ox == "" || ox == "0x" || ox == "0X"
    ensures Magnitude(ox + Repeat('0', zeros) + digits + Repeat(' ', after), base, glyphs) ==
      Evaluate(digits, base, glyphs)
  {
    hide Evaluate, Repeat, Magnitude;
    var zs := Repeat('0', zeros) + digits;
    var blanks := Repeat(' ', after);
    ZerosEvaluate(zeros, digits, base, glyphs);
    TakeAll(zs, after, glyphs);
    assert ox + Repeat('0', zeros) + digits + blanks == ox + (zs + blanks);
    if ox == "" {
      assert "" + (zs + blanks) == zs + blanks;
      NoPrefix(zs + blanks, base, glyphs);
    } else {
      HasPrefix(ox, zs + blanks, base, glyphs);
    }
  }

  lemma NoPrefix(s: string, base: nat, glyphs: string)
    requires GoodGlyphs(glyphs) && forall c :: c in s ==> c in glyphs || c == ' '
    ensures Magnitude(s, base, glyphs) == Evaluate(TakeGlyphs(s, glyphs), base, glyphs)
  {
    hide Evaluate, TakeGlyphs;
    if |s| >= 2 {
      assert s[1] in s;
    }
  }

  lemma HasPrefix(ox: string, s: string, base: nat, glyphs: string)
    requires ox == "0x" || ox == "0X"
    ensures Magnitude(ox + s, base, glyphs) == Evaluate(TakeGlyphs(s, glyphs), base, glyphs)
  {
    hide Evaluate, TakeGlyphs;
    assert (ox + s)[2..] == s;
  }

  /** Padding, sign, prefix, zeros, digits, padding. */
  lemma LayoutRead(before: nat, sign: string, ox: string, zeros: nat, digits: string, after: nat,
                   base: nat, glyphs: string)
    requires GoodGlyphs(glyphs) && (forall c :: c in digits ==> c in glyphs)
    requires sign == "" || sign == " " || sign == "+" || sign == "-"
    requires ox == "" || ox == "0x" || ox == "0X"
    ensures var v: int := Evaluate(digits, base, glyphs);
      ReadField(Repeat(' ', before) + sign + ox + Repeat('0', zeros) + digits + Repeat(' ', after), base, glyphs)
        == if sign == "-" then -v else v
  {
    hide Magnitude, Evaluate, Repeat, GoodGlyphs, DropBlanks;
    var inner := ox + Repeat('0', zeros) + digits + Repeat(' ', after);
    Regroup(Repeat(' ', before), sign, ox, Repeat('0', zeros), digits, Repeat(' ', after));
    DropAll(before, sign + inner);
    MagnitudeOf(ox, zeros, digits, after, base, glyphs);
    InnerRead(ox, zeros, digits, after, glyphs, base);
    Headed(inner);
    assert "" + inner == inner;
    assert ("-" + inner)[1..] == inner && ("+" + inner)[1..] == inner;
  }

  lemma Regroup(a: string, b: string, c: string, d: string, e: string, f: string)
    ensures a + b + c + d + e + f == a + (b + (c + d + e + f))
  {
  }

  lemma Headed(s: string)
    ensures DropBlanks(" " + s) == DropBlanks(s)
    ensures DropBlanks("-" + s) == "-" + s && DropBlanks("+" + s) == "+" + s
  {
    assert (" " + s)[1..] == s;
  }

  lemma InnerRead(ox: string, zeros: nat, digits: string, after: nat, glyphs: string, base: nat)
    requires GoodGlyphs(glyphs) && (forall c :: c in digits ==> c in glyphs)
    requires ox == "" || ox == "0x" || ox == "0X"
    ensures var inner := ox + Repeat('0', zeros) + digits + Repeat(' ', after);
      var s := DropBlanks(inner);
      && (s != "" ==> s[0] != '-' && s[0] != '+')
      && Magnitude(s, base, glyphs) == Magnitude(inner, base, glyphs)
  {
    var inner := ox + Repeat('0', zeros) + digits + Repeat(' ', after);
    if ox == "" && zeros == 0 && digits == "" {
      assert inner == Repeat(' ', after) + "";
      DropAll(after, "");
      MagnitudeOf("", 0, "", after, base, glyphs);
      MagnitudeOf("", 0, "", 0, base, glyphs);
      assert "" + Repeat('0', 0) + "" + Repeat(' ', 0) == "";
    } else {
      assert inner[0] == '0' || inner[0] in glyphs;
    }
  }

  lemma RepeatJoin(c: char, m: nat, n: nat)
    ensures Repeat(c, m) + Repeat(c, n) == Repeat(c, m + n)
  {
  }

  lemma LayoutShape(f: Field) returns (before: nat, zeros: nat, after: nat)
    ensures Layout(f) == Repeat(' ', before) + f.sign + f.ox + Repeat('0', zeros) + f.body + Repeat(' ', after)
  {
    var pad := if f.width > RealSize(f) then f.width - RealSize(f) else 0;
    var inner := if f.dprec > |f.body| then f.dprec - |f.body| else 0;
    before := if f.ladjust || f.zeropad then 0 else pad;
    after := if f.ladjust then pad else 0;
    var filled := if !f.ladjust && f.zeropad then pad else 0;
    zeros := filled + inner;
    RepeatJoin('0', filled, inner);
    hide RealSize;
    assert Repeat(' ', 0) == "" && Repeat('0', 0) == "";
    assert Repeat('0', f.dprec - |f.body|) == Repeat('0', inner);
    Regroup2(Repeat(' ', before), f.sign, f.ox, Repeat('0', filled), Repeat('0', inner), f.body, Repeat(' ', after));
  }

  lemma Regroup2(a: string, b: string, c: string, d: string, e: string, f: string, g: string)
    ensures a + b + c + d + e + f + g == a + b + c + (d + e) + f + g
  {
  }

  /** Only the digits proper contain separators. */
  lemma StripShape(a: string, b: string, c: string, d: string, digits: string, e: string, sep: char)
    requires sep !in a && sep !in b && sep !in c && sep !in d && sep !in e
    ensures Stripped(a + b + c + d + digits + e, sep) == a + b + c + d + Stripped(digits, sep) + e
  {
    hide Stripped;
    StripJoin(a + b + c + d + digits, e, sep);
    StripJoin(a + b + c + d, digits, sep);
    StripNothing(a + b + c + d, sep);
    StripNothing(e, sep);
  }

  /** What a number field reads back as, separators taken out. */
  lemma FieldReadsBack(f: Field, sep: char, base: nat, glyphs: string)
    requires GoodGlyphs(glyphs) && sep !in PUNCTUATION
    requires f.sign == "" || f.sign == " " || f.sign == "+" || f.sign == "-"
    requires f.ox == "" || f.ox == "0x" || f.ox == "0X"
    requires forall c :: c in Stripped(f.body, sep) ==> c in glyphs
    ensures var v: int := Evaluate(Stripped(f.body, sep), base, glyphs);
      ReadField(Stripped(Layout(f), sep), base, glyphs) == if f.sign == "-" then -v else v
  {
    var before, zeros, after := LayoutShape(f);
    hide Evaluate, Stripped, Layout, ReadField, GoodGlyphs;
    StripShape(Repeat(' ', before), f.sign, f.ox, Repeat('0', zeros), f.body, Repeat(' ', after), sep);
    LayoutRead(before, f.sign, f.ox, zeros, Stripped(f.body, sep), after, base, glyphs);
  }

  lemma WrittenGlyphs(max: nat, v: nat, st: Style)
    requires Usable(st) && st.thousep !in Glyphs(st)
    ensures forall c :: c in Stripped(Written(max, v, st), st.thousep) ==> c in Glyphs(st)
  {
    hide Numeral, Grouped, Stripped, Glyphs, Decimals;
    var d := Numeral(v, st.base, Glyphs(st));
    GlyphsOf(st);
    NumeralGlyphs(v, st.base, Glyphs(st));
    StripNothing(d, st.thousep);
    if st.base == 10 {
      StripGrouped(d, st.grp, st.thousep);
    } else if st.base == 8 && st.octzero && d[0] != '0' {
      StripNothing("0" + d, st.thousep);
    }
  }

  /** Ten decimal digits, then letters from `ten` on. */
  predicate InOrder(glyphs: string, ten: char) {
    |glyphs| <= 16 && (ten == 'a' || ten == 'A')
    && forall i :: 0 <= i < |glyphs| ==>
         glyphs[i] as int == if i < 10 then '0' as int + i else ten as int + i - 10
  }

  lemma OrderIsGood(glyphs: string, ten: char)
    requires InOrder(glyphs, ten) && |glyphs| > 0
    ensures GoodGlyphs(glyphs) && Distinct(glyphs)
  {
  }

  lemma GlyphsInOrder(ch: char)
    ensures InOrder(Decimals(), 'a') && InOrder(Xdigs(ch), if ch == 'X' then 'A' else 'a')
  {
  }

  /** The digits of a conversion. */
  function GlyphSet(ch: char): string {
    if Base(ch) == 16 then Xdigs(ch) else Decimals()
  }

  lemma StyleGlyphs(ch: char, flags: set<Flag>, env: Env)
    requires GoodEnv(env)
    ensures var st := StyleOf(ch, flags, env);
      st.base == Base(ch) && st.thousep == env.thousep && Glyphs(st) == GlyphSet(ch)
  {
  }

  lemma GoodGlyphSet(ch: char)
    ensures GoodGlyphs(GlyphSet(ch)) && Distinct(GlyphSet(ch))
  {
    hide InOrder, GoodGlyphs, Distinct, Decimals, Xdigs;
    GlyphsInOrder(ch);
    OrderIsGood(Decimals(), 'a');
    OrderIsGood(Xdigs(ch), if ch == 'X' then 'A' else 'a');
  }

  predicate GoodSeparator(sep: char, ch: char) {
    sep !in PUNCTUATION && sep !in GlyphSet(ch)
  }

  lemma BodyReads(v: nat, prec: int, flags: set<Flag>, ch: char, env: Env)
    requires GoodEnv(env) && GoodSeparator(env.thousep, ch)
    ensures var s := Stripped(Body(v, prec, flags, StyleOf(ch, flags, env), env.w), env.thousep);
      Evaluate(s, Base(ch), GlyphSet(ch)) == v && forall c :: c in s ==> c in GlyphSet(ch)
  {
    var st := StyleOf(ch, flags, env);
    StyleGlyphs(ch, flags, env);
    GoodGlyphSet(ch);
    hide Evaluate, Stripped, Written, Glyphs, Distinct, GoodGlyphs, StyleOf, GlyphSet;
    if v != 0 || prec != 0 || (Alt in flags && st.base == 8) {
      var max := if Jumbo(flags) && v > 2 * env.w.longMax + 1 then env.w.intmaxMax else env.w.longMax;
      ReadsBack(max, v, st);
      WrittenGlyphs(max, v, st);
    } else {
      EvaluateNothing(Base(ch), GlyphSet(ch));
      StripNothing("", env.thousep);
    }
  }

  /** The value a conversion is about. */
  function Meant(d: Directive, ch: char, v: int, env: Env): int {
    var flags := Lengthened(ch, d.flags);
    if IsSignedConv(ch) then SignedValue(v, flags, env.w) else UnsignedValue(v, flags, env.w)
  }

  /** The number a reader makes of printed text. */
  function Decoded(s: string, ch: char, sep: char): int {
    ReadField(Stripped(s, sep), Base(ch), GlyphSet(ch))
  }

  lemma NumberConversion(d: Directive, ch: char, v: int)
    requires IsSignedConv(ch) || IsUnsignedConv(ch)
    ensures !IsUnmodelledConv(d, ch) && ch != '\0' && TakesArgument(ch) && ArgumentFits(ch, [Num(v)])
  {
  }

  lemma NumberFieldReads(d: Directive, flags: set<Flag>, sign: string, ch: char, v: nat, env: Env)
    requires GoodEnv(env) && GoodSeparator(env.thousep, ch)
    requires sign == "" || sign == " " || sign == "+" || sign == "-"
    ensures Decoded(Layout(NumberField(d, flags, sign, ch, v, env)), ch, env.thousep) ==
      if sign == "-" then -(v as int) else v
  {
    var f := NumberField(d, flags, sign, ch, v, env);
    OxText(d, flags, ch, v, env);
    hide Evaluate, Stripped, Body, GlyphSet, GoodGlyphs, Layout, ReadField, StyleOf;
    BodyReads(v, d.prec, flags, ch, env);
    GoodGlyphSet(ch);
    FieldReadsBack(f, env.thousep, Base(ch), GlyphSet(ch));
  }

  lemma OxText(d: Directive, flags: set<Flag>, ch: char, v: nat, env: Env)
    requires GoodEnv(env)
    ensures var ox := NumberField(d, flags, "", ch, v, env).ox; ox == "" || ox == "0x" || ox == "0X"
  {
    assert ['0', 'x'] == "0x" && ['0', 'X'] == "0X";
  }

  /** Every printed integer reads back as the value of its argument, in every
      layout: whatever the flags, width, precision, length and grouping. */
  lemma IntegerReadsBack(d: Directive, ch: char, v: int, env: Env)
    requires GoodEnv(env) && GoodSeparator(env.thousep, ch) && (IsSignedConv(ch) || IsUnsignedConv(ch))
    requires d.sign == "" || d.sign == " " || d.sign == "+"
    ensures !IsUnmodelledConv(d, ch) && (TakesArgument(ch) ==> ArgumentFits(ch, [Num(v)]))
    ensures Decoded(Layout(FieldOf(d, ch, [Num(v)], env)), ch, env.thousep) == Meant(d, ch, v, env)
  {
    NumberConversion(d, ch, v);
    NumberIsField(d, ch, v, env);
    var flags := Lengthened(ch, d.flags);
    var m := Meant(d, ch, v, env);
    var sign := if m < 0 then "-" else if IsSignedConv(ch) then d.sign else "";
    hide *;
    NumberFieldReads(d, flags, sign, ch, if m < 0 then -m else m, env);
  }

  lemma NumberIsField(d: Directive, ch: char, v: int, env: Env)
    requires GoodEnv(env) && (IsSignedConv(ch) || IsUnsignedConv(ch))
    ensures !IsUnmodelledConv(d, ch) && (TakesArgument(ch) ==> ArgumentFits(ch, [Num(v)]))
    ensures var m := Meant(d, ch, v, env);
      FieldOf(d, ch, [Num(v)], env) ==
        NumberField(d, Lengthened(ch, d.flags), if m < 0 then "-" else if IsSignedConv(ch) then d.sign else "", ch,
                    if m < 0 then -m else m, env)
  {
    NumberConversion(d, ch, v);
    hide NumberField, SignedValue, UnsignedValue, Lengthened;
  }

  /** A directive renders as its field, in front of the rest. */
  lemma PiecesAt(fmt: string, j: nat, args: seq<Arg>, env: Env, d: Directive, ch: char, next: nat, rest: seq<Arg>,
                 left: seq<Arg>)
    requires GoodEnv(env) && j < |fmt| && fmt[j] == '%'
    requires ReadDirective(fmt, j + 1, args, FRESH) == Conversion(d, ch, next, rest) && ch != '\0'
    requires !IsUnmodelledConv(d, ch) && (TakesArgument(ch) ==> ArgumentFits(ch, rest))
    requires left == if TakesArgument(ch) then rest[1..] else rest
    requires j < next <= |fmt| && Pieces(fmt, next, left, env).Some?
    ensures Pieces(fmt, j, args, env) ==
      Some([Layout(FieldOf(d, ch, rest, env))] + Pieces(fmt, next, left, env).value)
  {
    hide ReadDirective, FieldOf, Layout, IsUnmodelledConv, TakesArgument;
    assert NextPercent(fmt, j) == j;
    var tail := Pieces(fmt, next, left, env).value;
    assert [] + [Layout(FieldOf(d, ch, rest, env))] + tail == [Layout(FieldOf(d, ch, rest, env))] + tail;
  }

  lemma NothingLeft(fmt: string, args: seq<Arg>, env: Env)
    requires GoodEnv(env)
    ensures Pieces(fmt, |fmt|, args, env) == Some([])
  {
  }

  lemma JoinedOne(s: string)
    ensures Joined([s]) == s
  {
    assert [s][1..] == [] && s + "" == s;
  }

  /** A directive on its own renders as its field. */
  lemma RenderingOfOne(fmt: string, d: Directive, ch: char, arg: Arg, env: Env)
    requires GoodEnv(env) && fmt != "" && fmt[0] == '%' && ch != '\0'
    requires !IsUnmodelledConv(d, ch) && TakesArgument(ch) && ArgumentFits(ch, [arg])
    requires ReadDirective(fmt, 1, [arg], FRESH) == Conversion(d, ch, |fmt|, [arg])
    ensures Modelled(fmt, [arg], env) && Rendering(fmt, [arg], env) == Layout(FieldOf(d, ch, [arg], env))
  {
    hide *;
    NothingLeft(fmt, [arg][1..], env);
    PiecesAt(fmt, 0, [arg], env, d, ch, |fmt|, [arg], [arg][1..]);
    var s := Layout(FieldOf(d, ch, [arg], env));
    assert [s] + [] == [s];
    assert Pieces(fmt, 0, [arg], env) == Some([s]);
    RenderingIs(fmt, [arg], env, [s]);
    JoinedOne(s);
  }

  lemma RenderingIs(fmt: string, args: seq<Arg>, env: Env, ps: seq<string>)
    requires GoodEnv(env) && Pieces(fmt, 0, args, env) == Some(ps)
    ensures Modelled(fmt, args, env) && Rendering(fmt, args, env) == Joined(ps)
  {
  }

  /** A directive on its own, written in any way, renders as the field it means. */
  lemma AloneRenders(t: Text, arg: Arg, env: Env)
    requires WellWritten(t) && GoodEnv(env)
    requires !IsUnmodelledConv(Meaning(t), t.conv) && TakesArgument(t.conv) && ArgumentFits(t.conv, [arg])
    ensures Modelled("%" + Spelled(t), [arg], env)
    ensures Rendering("%" + Spelled(t), [arg], env) == Layout(FieldOf(Meaning(t), t.conv, [arg], env))
  {
    var fmt := "%" + Spelled(t);
    assert fmt[1..1 + |Spelled(t)|] == Spelled(t);
    assert StandsAt(fmt, 1, Spelled(t));
    assert t.conv != '\0' && fmt[0] == '%' && |fmt| == 1 + |Spelled(t)|;
    hide *;
    DirectiveReadBack(fmt, 1, t, [arg]);
    RenderingOfOne(fmt, Meaning(t), t.conv, arg, env);
  }

  /** From the format string to the number: a directive on its own, written in any
      way, renders its argument so that it can be read back. */
  lemma RenderingReadsBack(t: Text, v: int, env: Env)
    requires WellWritten(t) && GoodEnv(env) && GoodSeparator(env.thousep, t.conv)
    requires IsSignedConv(t.conv) || IsUnsignedConv(t.conv)
    ensures var fmt := "%" + Spelled(t);
      && Modelled(fmt, [Num(v)], env)
      && Decoded(Rendering(fmt, [Num(v)], env), t.conv, env.thousep) == Meant(Meaning(t), t.conv, v, env)
  {
    assert Meaning(t).sign == "" || Meaning(t).sign == " " || Meaning(t).sign == "+";
    hide *;
    NumberConversion(Meaning(t), t.conv, v);
    IntegerReadsBack(Meaning(t), t.conv, v, env);
    AloneRenders(t, Num(v), env);
  }

  function Inner(f: Field): string {
    Repeat('0', f.dprec - |f.body|) + f.body
  }

  lemma BareLayout(f: Field)
    ensures Layout(f.(width := 0)) == f.sign + f.ox + Inner(f)
  {
    hide Repeat;
    assert Repeat(' ', 0 - RealSize(f)) == "" && Repeat('0', 0 - RealSize(f)) == "";
  }

  lemma PaddedLayout(f: Field, pad: nat)
    requires pad == if f.width > RealSize(f) then f.width - RealSize(f) else 0
    ensures f.ladjust ==> Layout(f) == f.sign + f.ox + Inner(f) + Repeat(' ', pad)
    ensures !f.ladjust && !f.zeropad ==> Layout(f) == Repeat(' ', pad) + (f.sign + f.ox + Inner(f))
    ensures !f.ladjust && f.zeropad ==> Layout(f) == f.sign + f.ox + Repeat('0', pad) + Inner(f)
  {
    RepeatSame(' ', f.width - RealSize(f), pad);
    RepeatSame('0', f.width - RealSize(f), pad);
    hide Repeat, RealSize;
    var blanks := if !f.ladjust && !f.zeropad then Repeat(' ', pad) else "";
    var zeros := if !f.ladjust && f.zeropad then Repeat('0', pad) else "";
    var after := if f.ladjust then Repeat(' ', pad) else "";
    var inner := Repeat('0', f.dprec - |f.body|);
    assert Layout(f) == blanks + f.sign + f.ox + zeros + inner + f.body + after;
    hide Layout;
    Gathered(blanks, f.sign, f.ox, zeros, inner, f.body, after);
  }

  lemma Gathered(blanks: string, b: string, c: string, zeros: string, inner: string, body: string, after: string)
    ensures zeros == after == "" ==>
      blanks + b + c + zeros + inner + body + after == blanks + (b + c + (inner + body))
    ensures blanks == zeros == "" ==>
      blanks + b + c + zeros + inner + body + after == b + c + (inner + body) + after
    ensures blanks == after == "" ==>
      blanks + b + c + zeros + inner + body + after == b + c + zeros + (inner + body)
  {
  }

  /** On which side the padding goes: the bare field is that of width zero. */
  lemma PaddingSide(f: Field)
    ensures var bare := Layout(f.(width := 0)); var pad := |Layout(f)| - |bare|;
      && pad >= 0
      && (f.ladjust ==> Layout(f) == bare + Repeat(' ', pad))
      && (!f.ladjust && !f.zeropad ==> Layout(f) == Repeat(' ', pad) + bare)
      && (!f.ladjust && f.zeropad ==>
            Layout(f) == bare[..|f.sign| + |f.ox|] + Repeat('0', pad) + bare[|f.sign| + |f.ox|..])
  {
    var pad := if f.width > RealSize(f) then f.width - RealSize(f) else 0;
    var head := f.sign + f.ox;
    BareLayout(f);
    PaddedLayout(f, pad);
    hide *;
    assert (head + Inner(f))[..|head|] == head;
    assert (head + Inner(f))[|head|..] == Inner(f);
  }

  lemma RepeatSame(c: char, m: int, n: nat)
    requires n == if m > 0 then m else 0
    ensures Repeat(c, m) == Repeat(c, n)
  {
  }

  // -------------------------------------------------------- arguments and strings

  /** The largest value of the signed type that the length modifiers name. */
  function Largest(flags: set<Flag>, w: Widths): nat {
    if Jumbo(flags) then (if {IntMaxT, SizeT} * flags == {} && PtrDiffT in flags then w.longMax else w.intmaxMax)
    else if LongInt in flags then w.longMax
    else if ShortInt in flags then 0x7fff
    else if CharInt in flags then 0x7f
    else INT_MAX
  }

  lemma KeptAt(v: int, max: nat)
    ensures -(max as int) - 1 <= v <= max ==> Signed(v, max) == v
    ensures 0 <= v <= 2 * max + 1 ==> Unsigned(v, max) == v
  {
    var n := 2 * max + 2;
    if 0 <= v < n {
      QuotientIsUnique(v, n, 0, v);
    } else if -n <= v < 0 {
      QuotientIsUnique(v, n, -1, v + n);
    }
  }

  /** An argument within the range of the type its modifiers name is printed as it
      is; of size_t, which is unsigned, the values up to the largest long. */
  lemma InRangeIsKept(v: int, flags: set<Flag>, w: Widths)
    requires Sensible(w) && INT_MAX <= w.longMax
    requires -(Largest(flags, w) as int) - 1 <= v <= Largest(flags, w)
    requires SizeT in flags && IntMaxT !in flags ==> 0 <= v <= w.longMax
    ensures SignedValue(v, flags, w) == v
    ensures v >= 0 ==> UnsignedValue(v, flags, w) == v
  {
    hide Signed, Unsigned;
    KeptAt(v, 0x7f);
    KeptAt(v, 0x7fff);
    KeptAt(v, INT_MAX);
    KeptAt(v, w.longMax);
    KeptAt(v, w.intmaxMax);
  }

  /** `out` is `body` in a field of the given width, at one side of it, and fill on
      the other. */
  predicate Padded(out: string, body: string, width: nat, left: bool, fill: char) {
    var n := |body|;
    && |out| == (if width > n then width else n)
    && (if left then out[..n] == body && forall k :: n <= k < |out| ==> out[k] == ' '
        else out[|out| - n..] == body && forall k :: 0 <= k < |out| - n ==> out[k] == fill)
  }

  lemma TextLayout(d: Directive, body: string)
    ensures Padded(Layout(TextField(d, body)), body, d.width, LAdjust in d.flags,
                   if ZeroPad in d.flags then '0' else ' ')
  {
    var f := TextField(d, body);
    var pad: nat := if f.width > RealSize(f) then f.width - RealSize(f) else 0;
    PaddedLayout(f, pad);
    assert Inner(f) == body && f.sign + f.ox + body == body;
    assert f.sign + f.ox + Repeat('0', pad) + Inner(f) == Repeat('0', pad) + body;
    assert f.sign + f.ox + Inner(f) + Repeat(' ', pad) == body + Repeat(' ', pad);
    assert pad == if d.width > |body| then d.width - |body| else 0;
    hide Layout, Inner, RealSize, Repeat, TextField;
    PadBy(body, Repeat(' ', pad), d.width, ' ');
    PadBy(body, Repeat('0', pad), d.width, '0');
  }

  lemma PadBy(body: string, fill: string, width: nat, c: char)
    requires |fill| == (if width > |body| then width - |body| else 0) && forall k :: 0 <= k < |fill| ==> fill[k] == c
    ensures Padded(fill + body, body, width, false, c)
    ensures c == ' ' ==> Padded(body + fill, body, width, true, '0') && Padded(body + fill, body, width, true, ' ')
  {
  }

  /** From the format string to the text: a string conversion on its own, written in
      any way, prints the longest beginning of its string that the precision allows,
      at the left or right of its field, filled with blanks (with zeros for a `0`
      flag), and a null pointer as (null). */
  lemma StringRendering(t: Text, arg: Arg, env: Env)
    requires WellWritten(t) && GoodEnv(env) && t.conv == 's' && t.length != "l" && !arg.Num?
    ensures Modelled("%" + Spelled(t), [arg], env)
    ensures var s := if arg.Null? then "(null)" else arg.s;
      var n := if t.prec.Some? && t.prec.value < |s| then t.prec.value else |s|;
      Padded(Rendering("%" + Spelled(t), [arg], env), s[..n], t.width, '-' in t.marks,
             if '0' in t.marks then '0' else ' ')
  {
    var s := if arg.Null? then "(null)" else arg.s;
    StringField(t, arg, env);
    hide *;
    AloneRenders(t, arg, env);
    TextLayout(Meaning(t), Clipped(s, Meaning(t).prec));
  }

  lemma StringField(t: Text, arg: Arg, env: Env)
    requires WellWritten(t) && GoodEnv(env) && t.conv == 's' && t.length != "l" && !arg.Num?
    ensures var d := Meaning(t); var s := if arg.Null? then "(null)" else arg.s;
      && !IsUnmodelledConv(d, 's') && TakesArgument('s') && ArgumentFits('s', [arg])
      && FieldOf(d, 's', [arg], env) == TextField(d, Clipped(s, d.prec))
      && Clipped(s, d.prec) == s[..if t.prec.Some? && t.prec.value < |s| then t.prec.value else |s|]
      && d.width == t.width && (LAdjust in d.flags <==> '-' in t.marks) && (ZeroPad in d.flags <==> '0' in t.marks)
  {
    NotLong(t.length);
    hide LengthFlags;
  }

  lemma NotLong(length: string)
    requires LengthFlags(length).Some? && length != "l"
    ensures LengthFlags(length).value * {LongInt, LAdjust, ZeroPad} == {}
  {
  }
}
