/** What a format string means: the directives of the integer, character and string
    conversions, the field each one prints, and the whole rendering as if there were
    room for all of it. */
module PrintfSpec {
  import opened Common
  import opened Digits

  datatype Flag = Alt | LAdjust | ZeroPad | Grouping | LongInt | LLongInt | ShortInt | CharInt
                | SizeT | PtrDiffT | IntMaxT | LongDbl

  /** An integer of whatever type the caller passed, a C string, or a null pointer. */
  datatype Arg = Num(v: int) | Text(s: string) | Null

  /** `prec` is negative when there is none; `sign` is empty or one character. */
  datatype Directive = Directive(flags: set<Flag>, width: nat, prec: int, sign: string)

  const FRESH := Directive({}, 0, -1, "")

  /** The platform and the locale. */
  datatype Env = Env(w: Widths, thousep: char, grp: seq<int>)

  const INT_MAX := 0x7fff_ffff
  const INTMAX_SIZE: set<Flag> := {IntMaxT, SizeT, PtrDiffT, LLongInt}

  predicate GoodEnv(env: Env) {
    Sensible(env.w) && INT_MAX <= env.w.longMax && forall g :: g in env.grp ==> g != 0
  }

  // ------------------------------------------------------ reading a directive

  /** A C string ends with a NUL. */
  function At(fmt: string, i: nat): char {
    if i < |fmt| then fmt[i] else '\0'
  }

  predicate IsDigit(c: char) {
    '0' <= c <= '9'
  }

  function DigitValue(c: char): nat
    requires IsDigit(c)
  {
    c as nat - '0' as nat
  }

  /** A run of digits from i on, in front of which `acc` was read. */
  function ReadNumber(fmt: string, i: nat, acc: nat): (r: (nat, nat))
    ensures i <= r.1 && !IsDigit(At(fmt, r.1))
    ensures IsDigit(At(fmt, i)) ==> i < r.1
    ensures r.1 <= |fmt| || r.1 == i
    decreases |fmt| - i
  {
    if i < |fmt| && IsDigit(fmt[i]) then ReadNumber(fmt, i + 1, 10 * acc + DigitValue(fmt[i])) else (acc, i)
  }

  /** The value a signed type with the given maximum makes of v. */
  function Signed(v: int, max: nat): (r: int)
    ensures -(max as int) - 1 <= r <= max
  {
    var m := v % (2 * max + 2);
    if m <= max then m else m - (2 * max + 2)
  }

  function Unsigned(v: int, max: nat): (r: nat)
    ensures r <= 2 * max + 1
  {
    v % (2 * max + 2)
  }

  datatype Scanned = Conversion(d: Directive, ch: char, next: nat, args: seq<Arg>) | Unmodelled

  /** The positional form `nn$` is not modelled. */
  predicate Positional(fmt: string, i: nat) {
    At(fmt, ReadNumber(fmt, i, 0).1) == '$'
  }

  /** Flags, width, precision and length modifiers, in any order, up to the
      conversion character (NUL at the end of the string). */
  function ReadDirective(fmt: string, i: nat, args: seq<Arg>, d: Directive): (r: Scanned)
    requires i <= |fmt|
    ensures r.Conversion? ==> i <= r.next <= |fmt| && (r.next == i ==> r.ch == '\0')
    decreases |fmt| - i
  {
    if i == |fmt| then Conversion(d, '\0', i, args)
    else
      var ch := fmt[i];
      if ch == ' ' then ReadDirective(fmt, i + 1, args, d.(sign := if d.sign == "" then " " else d.sign))
      else if ch == '+' then ReadDirective(fmt, i + 1, args, d.(sign := "+"))
      else if ch == '*' then
        if Positional(fmt, i + 1) || args == [] || !args[0].Num? then Unmodelled
        else ReadDirective(fmt, i + 1, args[1..], WidthArg(d, Signed(args[0].v, INT_MAX)))
      else if ch == '.' then
        if At(fmt, i + 1) == '*' then
          if Positional(fmt, i + 2) || args == [] || !args[0].Num? then Unmodelled
          else ReadDirective(fmt, i + 2, args[1..], d.(prec := Signed(args[0].v, INT_MAX)))
        else
          var (n, j) := ReadNumber(fmt, i + 1, 0);
          ReadDirective(fmt, j, args, d.(prec := n))
      else if '1' <= ch <= '9' then
        var (n, j) := ReadNumber(fmt, i, 0);
        if At(fmt, j) == '$' then Unmodelled else ReadDirective(fmt, j, args, d.(width := n))
      else match Marked(ch, d)
        case None => Conversion(d, ch, i + 1, args)
        case Some(e) => ReadDirective(fmt, i + 1, args, e)
  }

  /** A negative width argument is a `-` flag and a positive width. */
  function WidthArg(d: Directive, w: int): Directive {
    if w >= 0 then d.(width := w) else d.(width := -w, flags := d.flags + {LAdjust})
  }

  /** The characters that only set a flag. */
  function Marked(ch: char, d: Directive): Option<Directive> {
    match ch
    case '#' => Some(d.(flags := d.flags + {Alt}))
    case '-' => Some(d.(flags := d.flags + {LAdjust}))
    case '\'' => Some(d.(flags := d.flags + {Grouping}))
    case '0' => Some(d.(flags := d.flags + {ZeroPad}))
    case 'L' => Some(d.(flags := d.flags + {LongDbl}))
    case 'h' =>
      Some(d.(flags := if ShortInt in d.flags then d.flags - {ShortInt} + {CharInt} else d.flags + {ShortInt}))
    case 'l' => Some(d.(flags := if LongInt in d.flags then d.flags - {LongInt} + {LLongInt} else d.flags + {LongInt}))
    case 'q' => Some(d.(flags := d.flags + {LLongInt}))
    case 'j' => Some(d.(flags := d.flags + {IntMaxT}))
    case 't' => Some(d.(flags := d.flags + {PtrDiffT}))
    case 'z' => Some(d.(flags := d.flags + {SizeT}))
    case _ => None
  }

  // --------------------------------------------------------- what it prints

  /** `body` is what the conversion makes of the argument; `dprec` asks for zeros in
      front of it; `zeropad` may have been cancelled by a precision. */
  datatype Field = Field(sign: string, ox: string, dprec: int, body: string, ladjust: bool, zeropad: bool, width: nat)

  function SArg(v: int, flags: set<Flag>, w: Widths): int {
    if LongInt in flags then Signed(v, w.longMax)
    else if ShortInt in flags then Signed(Signed(v, INT_MAX), 0x7fff)
    else if CharInt in flags then Signed(Signed(v, INT_MAX), 0x7f)
    else Signed(v, INT_MAX)
  }

  function UArg(v: int, flags: set<Flag>, w: Widths): nat {
    if LongInt in flags then Unsigned(v, w.longMax)
    else if ShortInt in flags then Unsigned(Signed(v, INT_MAX), 0x7fff)
    else if CharInt in flags then Unsigned(Signed(v, INT_MAX), 0x7f)
    else Unsigned(v, INT_MAX)
  }

  function SJArg(v: int, flags: set<Flag>, w: Widths): int {
    if IntMaxT in flags then Signed(v, w.intmaxMax)
    else if SizeT in flags then Signed(Unsigned(v, w.longMax), w.intmaxMax)
    else if PtrDiffT in flags then Signed(v, w.longMax)
    else Signed(v, w.intmaxMax)
  }

  function UJArg(v: int, flags: set<Flag>, w: Widths): nat {
    if IntMaxT in flags then Unsigned(v, w.intmaxMax)
    else if SizeT in flags then Unsigned(v, w.longMax)
    else if PtrDiffT in flags then Unsigned(Signed(v, w.longMax), w.intmaxMax)
    else Unsigned(v, w.intmaxMax)
  }

  predicate Jumbo(flags: set<Flag>) {
    flags * INTMAX_SIZE != {}
  }

  function SignedValue(v: int, flags: set<Flag>, w: Widths): int {
    if Jumbo(flags) then SJArg(v, flags, w) else SArg(v, flags, w)
  }

  function UnsignedValue(v: int, flags: set<Flag>, w: Widths): nat {
    if Jumbo(flags) then UJArg(v, flags, w) else UArg(v, flags, w)
  }

  function Xdigs(ch: char): (g: string)
    ensures |g| == 16
  {
    if ch == 'X' then "0123456789ABCDEF" else "0123456789abcdef"
  }

  function Base(ch: char): nat {
    if ch == 'o' || ch == 'O' then 8 else if ch == 'x' || ch == 'X' then 16 else 10
  }

  /** The capital letters D, O and U mean a long argument. */
  function Lengthened(ch: char, flags: set<Flag>): set<Flag> {
    if ch == 'D' || ch == 'O' || ch == 'U' then flags + {LongInt} else flags
  }

  function StyleOf(ch: char, flags: set<Flag>, env: Env): (st: Style)
    requires GoodEnv(env)
    ensures Usable(st)
  {
    Style(Base(ch), Alt in flags, Xdigs(ch), Grouping in flags && Base(ch) != 16, env.thousep, env.grp)
  }

  /** The digits of a magnitude: none for a zero with precision zero. */
  function Body(v: nat, prec: int, flags: set<Flag>, st: Style, w: Widths): string
    requires Usable(st)
  {
    if v != 0 || prec != 0 || (Alt in flags && st.base == 8) then
      (if Jumbo(flags) then UjtoaText(w, v, st) else Written(w.longMax, v, st))
    else ""
  }

  function NumberField(d: Directive, flags: set<Flag>, sign: string, ch: char, v: nat, env: Env): Field
    requires GoodEnv(env)
  {
    Field(sign,
          if Base(ch) == 16 && Alt in flags && v != 0 then ['0', ch] else "",
          d.prec,
          Body(v, d.prec, flags, StyleOf(ch, flags, env), env.w),
          LAdjust in flags, ZeroPad in flags && d.prec < 0, d.width)
  }

  function TextField(d: Directive, body: string): Field {
    Field("", "", 0, body, LAdjust in d.flags, ZeroPad in d.flags, d.width)
  }

  predicate IsSignedConv(ch: char) {
    ch == 'd' || ch == 'i' || ch == 'D'
  }

  predicate IsUnsignedConv(ch: char) {
    ch == 'o' || ch == 'O' || ch == 'u' || ch == 'U' || ch == 'x' || ch == 'X'
  }

  /** Floating point, wide characters, pointers (with the formatter hook) and `%n`. */
  predicate IsUnmodelledConv(d: Directive, ch: char) {
    ch in "aAeEfFgGpnCS" || ((ch == 'c' || ch == 's') && LongInt in d.flags)
  }

  predicate TakesArgument(ch: char) {
    IsSignedConv(ch) || IsUnsignedConv(ch) || ch == 'c' || ch == 's'
  }

  predicate ArgumentFits(ch: char, args: seq<Arg>) {
    args != [] && if ch == 's' then !args[0].Num? else args[0].Num?
  }

  function Clipped(s: string, prec: int): string {
    if 0 <= prec < |s| then s[..prec] else s
  }

  /** The field of a modelled conversion. */
  function FieldOf(d: Directive, ch: char, args: seq<Arg>, env: Env): Field
    requires GoodEnv(env) && !IsUnmodelledConv(d, ch)
    requires TakesArgument(ch) ==> ArgumentFits(ch, args)
  {
    if IsSignedConv(ch) then
      var flags := Lengthened(ch, d.flags);
      var v := SignedValue(args[0].v, flags, env.w);
      NumberField(d, flags, if v < 0 then "-" else d.sign, ch, if v < 0 then -v else v, env)
    else if IsUnsignedConv(ch) then
      var flags := Lengthened(ch, d.flags);
      NumberField(d, flags, "", ch, UnsignedValue(args[0].v, flags, env.w), env)
    else if ch == 'c' then TextField(d, [Unsigned(args[0].v, 127) as char])
    else if ch == 's' then TextField(d, Clipped(if args[0].Null? then "(null)" else args[0].s, d.prec))
    else TextField(d, [ch])
  }

  function Repeat(c: char, n: int): (s: string)
    ensures |s| == if n > 0 then n else 0
    ensures forall k :: 0 <= k < |s| ==> s[k] == c
    decreases n
  {
    if n <= 0 then "" else Repeat(c, n - 1) + [c]
  }

  function RealSize(f: Field): nat {
    (if f.dprec > |f.body| then f.dprec else |f.body|) + |f.sign| + |f.ox|
  }

  function Layout(f: Field): string {
    var blanks := if !f.ladjust && !f.zeropad then Repeat(' ', f.width - RealSize(f)) else "";
    var zeros := if !f.ladjust && f.zeropad then Repeat('0', f.width - RealSize(f)) else "";
    var after := if f.ladjust then Repeat(' ', f.width - RealSize(f)) else "";
    blanks + f.sign + f.ox + zeros + Repeat('0', f.dprec - |f.body|) + f.body + after
  }

  // ---------------------------------------------------------- the whole format

  function NextPercent(fmt: string, i: nat): (j: nat)
    requires i <= |fmt|
    ensures i <= j <= |fmt| && (j < |fmt| ==> fmt[j] == '%') && '%' !in fmt[i..j]
    decreases |fmt| - i
  {
    if i == |fmt| || fmt[i] == '%' then i else NextPercent(fmt, i + 1)
  }

  /** The rendering from i on, piece by piece: literal text and fields. */
  function Pieces(fmt: string, i: nat, args: seq<Arg>, env: Env): Option<seq<string>>
    requires GoodEnv(env) && i <= |fmt|
    decreases |fmt| - i
  {
    var j := NextPercent(fmt, i);
    var text := if j > i then [fmt[i..j]] else [];
    if j == |fmt| then Some(text)
    else
      match ReadDirective(fmt, j + 1, args, FRESH)
      case Unmodelled => None
      case Conversion(d, ch, next, rest) =>
        if ch == '\0' then Some(text)
        else if IsUnmodelledConv(d, ch) || (TakesArgument(ch) && !ArgumentFits(ch, rest)) then None
        else
          var tail := Pieces(fmt, next, if TakesArgument(ch) then rest[1..] else rest, env);
          if tail.None? then None else Some(text + [Layout(FieldOf(d, ch, rest, env))] + tail.value)
  }

  /** The pieces printed before the count would leave the range of an int. */
  function Counted(ps: seq<string>, ret: nat): string {
    if ps == [] || ret + |ps[0]| > INT_MAX then "" else ps[0] + Counted(ps[1..], ret + |ps[0]|)
  }

  predicate Modelled(fmt: string, args: seq<Arg>, env: Env)
    requires GoodEnv(env)
  {
    Pieces(fmt, 0, args, env).Some?
  }

  /** The whole rendering, as if there were room for all of it. */
  function Rendering(fmt: string, args: seq<Arg>, env: Env): string
    requires GoodEnv(env) && Modelled(fmt, args, env)
  {
    Joined(Pieces(fmt, 0, args, env).value)
  }

  /** As much of it as is printed before the count overflows. */
  function Countable(fmt: string, args: seq<Arg>, env: Env): string
    requires GoodEnv(env) && Modelled(fmt, args, env)
  {
    Counted(Pieces(fmt, 0, args, env).value, 0)
  }
}
