/** What getopt_long.c reads out of an argument vector, said without any
    permutation: a scanner that walks a vector it never changes.  The methods of
    module GetoptLong, which permute the vector as they go, are proved against
    these functions. */
module GetoptSpec {
  import opened Common

  type Word = string

  const BADCH: int := '?' as int
  const COLON: int := ':' as int
  const INORDER: int := 1

  datatype HasArg = NoArgument | RequiredArgument | OptionalArgument

  /** `struct option`; `flag` is the address to store to, 0 standing for NULL. */
  datatype LongOption = LongOption(name: string, hasArg: HasArg, flag: nat, val: int)

  /** The effective settings of one call: the option letters after a leading `+`
      or `-` has been removed, and the flags that prefix decides. */
  datatype Config = Config(options: string, longs: Option<seq<LongOption>>,
                           permute: bool, allargs: bool, longOnly: bool)

  function Configure(options: string, longs: Option<seq<LongOption>>, permute: bool, longOnly: bool,
                     posixlyCorrect: bool): Config
  {
    var dash := options != "" && options[0] == '-';
    var plus := options != "" && options[0] == '+';
    Config(if dash || plus then options[1..] else options, longs,
           permute && (dash || !(posixlyCorrect || plus)), dash, longOnly)
  }

  /** What a prefix of the option letters decides, and POSIXLY_CORRECT without one. */
  lemma PrefixDecides(letters: string, longs: Option<seq<LongOption>>, permute: bool, longOnly: bool,
                      posixlyCorrect: bool)
    ensures Configure("-" + letters, longs, permute, longOnly, posixlyCorrect) ==
      Config(letters, longs, permute, true, longOnly)
    ensures Configure("+" + letters, longs, permute, longOnly, posixlyCorrect) ==
      Config(letters, longs, false, false, longOnly)
    ensures letters == "" || letters[0] !in "+-" ==>
      Configure(letters, longs, permute, longOnly, posixlyCorrect) ==
        Config(letters, longs, permute && !posixlyCorrect, false, longOnly)
  {
    assert ("-" + letters)[1..] == letters && ("+" + letters)[1..] == letters;
  }

  /** -1 is the end marker, so no option may ask for it as its return value. */
  predicate Usable(cfg: Config) {
    cfg.longs.Some? ==>
      forall k :: 0 <= k < |cfg.longs.value| && cfg.longs.value[k].flag == 0 ==> cfg.longs.value[k].val != -1
  }

  /** The code's BADARG. */
  function BadArg(cfg: Config): int {
    if cfg.options != "" && cfg.options[0] == ':' then COLON else BADCH
  }

  /** strchr, as an index. */
  function Find(s: string, c: char): (k: Option<nat>)
    ensures k.None? <==> c !in s
    ensures k.Some? ==> k.value < |s| && s[k.value] == c && c !in s[..k.value]
  {
    if s == "" then None
    else if s[0] == c then Some(0)
    else match Find(s[1..], c)
      case None => None
      case Some(k) => assert s[..k + 1] == [s[0]] + s[1..][..k]; Some(k + 1)
  }

  /** The character at `k`, NUL at the end of the string. */
  function CharAt(s: string, k: nat): char {
    if k < |s| then s[k] else '\0'
  }

  predicate IsOperand(word: Word) {
    word == "" || word[0] != '-' || word == "-"
  }

  // ------------------------------------------------------------ long options

  datatype Match = NoMatch | Ambiguous | Found(index: nat)

  predicate IsExact(o: LongOption, key: string) { o.name == key }

  /** An abbreviation that counts: a single letter that is also a short option does not. */
  predicate IsPartial(o: LongOption, key: string, shortToo: bool) {
    key < o.name && !(shortToo && |key| == 1)
  }

  predicate SameEffect(o: LongOption, q: LongOption) {
    o.hasArg == q.hasArg && o.flag == q.flag && o.val == q.val
  }

  /** The documented rule: an exact name wins; otherwise the first abbreviated
      option, unless a later one that would act differently abbreviates too. */
  ghost predicate IsMatch(longs: seq<LongOption>, key: string, shortToo: bool, longOnly: bool, m: Match) {
    if exists k :: 0 <= k < |longs| && IsExact(longs[k], key) then
      && m.Found? && m.index < |longs| && IsExact(longs[m.index], key)
      && forall k :: 0 <= k < m.index ==> !IsExact(longs[k], key)
    else match m
      case NoMatch => forall k :: 0 <= k < |longs| ==> !IsPartial(longs[k], key, shortToo)
      case Ambiguous =>
        exists i, k :: FirstPartial(longs, key, shortToo, i) && Rival(longs, key, shortToo, longOnly, i, k)
      case Found(i) => FirstPartial(longs, key, shortToo, i) && forall k :: !Rival(longs, key, shortToo, longOnly, i, k)
  }

  predicate FirstPartial(longs: seq<LongOption>, key: string, shortToo: bool, i: nat) {
    && i < |longs| && IsPartial(longs[i], key, shortToo)
    && forall k :: 0 <= k < i ==> !IsPartial(longs[k], key, shortToo)
  }

  predicate Rival(longs: seq<LongOption>, key: string, shortToo: bool, longOnly: bool, i: nat, k: nat) {
    i < k < |longs| && IsPartial(longs[k], key, shortToo) && (longOnly || !SameEffect(longs[k], longs[i]))
  }

  /** The rule leaves no choice. */
  lemma MatchIsUnique(longs: seq<LongOption>, key: string, shortToo: bool, longOnly: bool, m: Match, q: Match)
    requires IsMatch(longs, key, shortToo, longOnly, m) && IsMatch(longs, key, shortToo, longOnly, q)
    ensures m == q
  {
  }

  /** The search loop as a function of how far it has come. */
  function Search(longs: seq<LongOption>, key: string, shortToo: bool, longOnly: bool): (m: Match)
    ensures IsMatch(longs, key, shortToo, longOnly, m)
  {
    if exists k | 0 <= k < |longs| :: IsExact(longs[k], key) then
      Found(LeastExact(longs, key))
    else if exists k | 0 <= k < |longs| :: IsPartial(longs[k], key, shortToo) then
      var i := LeastPartial(longs, key, shortToo);
      if exists k | 0 <= k < |longs| :: Rival(longs, key, shortToo, longOnly, i, k) then Ambiguous else Found(i)
    else NoMatch
  }

  /** What comes out of it, option by option: an exact name, the first one, whatever else
      begins like it; without one, nothing exactly when no name begins with the key (a
      single letter that is also a short option does not count as a beginning), and
      ambiguity exactly when of the names that do a later one asks for another argument,
      flag or value than the first, or, for getopt_long_only, there is a later one. */
  lemma SearchExactly(longs: seq<LongOption>, key: string, shortToo: bool, longOnly: bool)
    ensures var m := Search(longs, key, shortToo, longOnly);
      if exists k :: 0 <= k < |longs| && longs[k].name == key then
        m.Found? && m.index < |longs| && longs[m.index].name == key
        && forall k :: 0 <= k < m.index ==> longs[k].name != key
      else
        && (m.NoMatch? <==> forall k :: 0 <= k < |longs| ==> !Begins(longs[k].name, key, shortToo))
        && (m.Found? ==> Foremost(longs, key, shortToo, m.index))
        && (m.Ambiguous? <==> exists i: nat, k: nat ::
              && Foremost(longs, key, shortToo, i) && i < k < |longs| && Begins(longs[k].name, key, shortToo)
              && (longOnly || longs[k] != longs[i].(name := longs[k].name)))
  {
    var m := Search(longs, key, shortToo, longOnly);
    hide Search;
    forall k | 0 <= k < |longs|
      ensures IsExact(longs[k], key) <==> longs[k].name == key
      ensures longs[k].name != key ==> (IsPartial(longs[k], key, shortToo) <==> Begins(longs[k].name, key, shortToo))
    {
    }
    if !exists k :: 0 <= k < |longs| && IsExact(longs[k], key) {
      ForemostIsFirst(longs, key, shortToo);
      if m.Ambiguous? {
        var i: nat, k: nat :| FirstPartial(longs, key, shortToo, i) && Rival(longs, key, shortToo, longOnly, i, k);
        assert Foremost(longs, key, shortToo, i);
      }
      forall i: nat, k: nat | Foremost(longs, key, shortToo, i) && i < k < |longs|
        && Begins(longs[k].name, key, shortToo) && (longOnly || longs[k] != longs[i].(name := longs[k].name))
        ensures m.Ambiguous?
      {
        assert Rival(longs, key, shortToo, longOnly, i, k);
      }
    }
  }

  predicate Begins(name: string, key: string, shortToo: bool) {
    key <= name && (shortToo ==> |key| != 1)
  }

  predicate Foremost(longs: seq<LongOption>, key: string, shortToo: bool, i: nat) {
    && i < |longs| && Begins(longs[i].name, key, shortToo)
    && forall k :: 0 <= k < i ==> !Begins(longs[k].name, key, shortToo)
  }

  lemma ForemostIsFirst(longs: seq<LongOption>, key: string, shortToo: bool)
    requires forall k :: 0 <= k < |longs| ==> longs[k].name != key
    ensures forall i: nat :: Foremost(longs, key, shortToo, i) <==> FirstPartial(longs, key, shortToo, i)
  {
    forall i: nat
      ensures Foremost(longs, key, shortToo, i) <==> FirstPartial(longs, key, shortToo, i)
    {
      assert forall k :: 0 <= k < |longs| ==>
        (IsPartial(longs[k], key, shortToo) <==> Begins(longs[k].name, key, shortToo));
    }
  }

  function LeastExact(longs: seq<LongOption>, key: string): (i: nat)
    requires exists k :: 0 <= k < |longs| && IsExact(longs[k], key)
    ensures i < |longs| && IsExact(longs[i], key) && forall k :: 0 <= k < i ==> !IsExact(longs[k], key)
  {
    if IsExact(longs[0], key) then 0 else
      assert exists k :: 0 <= k < |longs[1..]| && IsExact(longs[1..][k], key) by {
        var k :| 0 <= k < |longs| && IsExact(longs[k], key);
        assert longs[1..][k - 1] == longs[k];
      }
      1 + LeastExact(longs[1..], key)
  }

  function LeastPartial(longs: seq<LongOption>, key: string, shortToo: bool): (i: nat)
    requires exists k :: 0 <= k < |longs| && IsPartial(longs[k], key, shortToo)
    ensures FirstPartial(longs, key, shortToo, i)
  {
    if IsPartial(longs[0], key, shortToo) then 0 else
      assert exists k :: 0 <= k < |longs[1..]| && IsPartial(longs[1..][k], key, shortToo) by {
        var k :| 0 <= k < |longs| && IsPartial(longs[k], key, shortToo);
        assert longs[1..][k - 1] == longs[k];
      }
      1 + LeastPartial(longs[1..], key, shortToo)
  }

  // -------------------------------------------------------------- one option

  /** What one option word does: the value returned, the cursor afterwards, and
      what is stored in optarg, optopt, *idx and *flag (None: left alone). */
  datatype Step = Step(ret: int, optind: nat, place: string, optarg: Option<string>, optopt: Option<int>,
                       idx: Option<nat>, stored: Option<(nat, int)>)

  function Fail(ret: int, optind: nat, place: string, optopt: int): Step {
    Step(ret, optind, place, None, Some(optopt), None, None)
  }

  /** The name before an `=`, and the text after it. */
  function Key(text: string): string {
    match Find(text, '=') case None => text case Some(k) => text[..k]
  }

  function Inline(text: string): Option<string> {
    match Find(text, '=') case None => None case Some(k) => Some(text[k + 1..])
  }

  /** What an option returns, and reports as `optopt` when its argument is wrong. */
  function Code(o: LongOption): int {
    if o.flag == 0 then o.val else 0
  }

  /** The m-th long option, `inline` being what stands behind an `=` in its word. */
  function NamedStep(cfg: Config, w: seq<Word>, i: nat, m: nat, inline: Option<string>): (s: Step)
    requires cfg.longs.Some? && m < |cfg.longs.value| && i < |w|
    ensures i < s.optind <= |w| && s.optind <= i + 2 && s.place == ""
    ensures Usable(cfg) ==> s.ret != -1
  {
    var o := cfg.longs.value[m];
    if o.hasArg.NoArgument? && inline.Some? then Fail(BADCH, i + 1, "", Code(o))
    else if o.hasArg.RequiredArgument? && inline.None? && i + 1 >= |w| then Fail(BadArg(cfg), i + 1, "", Code(o))
    else
      var next := o.hasArg.RequiredArgument? && inline.None?;
      Step(Code(o), if next then i + 2 else i + 1, "",
           if o.hasArg.NoArgument? then None else if next then Some(w[i + 1]) else inline,
           None, Some(m), if o.flag == 0 then None else Some((o.flag, o.val)))
  }

  /** A long option spelled `text`, with the cursor on its word; None when it is
      no long option but may still be a short one. */
  function LongStep(cfg: Config, w: seq<Word>, i: nat, text: string, shortToo: bool): (s: Option<Step>)
    requires cfg.longs.Some? && i < |w|
    ensures s.None? ==> shortToo
    ensures s.Some? ==> i < s.value.optind <= |w| && s.value.optind <= i + 2 && s.value.place == ""
    ensures s.Some? && Usable(cfg) ==> s.value.ret != -1
  {
    match Search(cfg.longs.value, Key(text), shortToo, cfg.longOnly)
    case Ambiguous => Some(Fail(BADCH, i + 1, "", 0))
    case NoMatch => if shortToo then None else Some(Fail(BADCH, i + 1, "", 0))
    case Found(m) => Some(NamedStep(cfg, w, i, m, Inline(text)))
  }

  /** An option letter c, `rest` being what follows it in its word. */
  function LetterStep(cfg: Config, w: seq<Word>, i: nat, c: char, rest: string): (s: Step)
    requires c in cfg.options && i < |w|
    ensures i <= s.optind <= |w| && s.ret != -1
    ensures s.optind == i ==> s.place != "" && s.place == rest
    ensures s.optind != i ==> s.place == ""
  {
    var oli := Find(cfg.options, c).value;
    if CharAt(cfg.options, oli + 1) != ':' then
      Step(c as int, if rest == "" then i + 1 else i, rest, None, None, None, None)
    else if rest != "" then
      Step(c as int, i + 1, "", Some(rest), None, None, None)
    else if CharAt(cfg.options, oli + 2) != ':' then
      if i + 1 >= |w| then Fail(BadArg(cfg), i + 1, "", c as int)
      else Step(c as int, i + 2, "", Some(w[i + 1]), None, None, None)
    else if !cfg.permute && i + 1 < |w| && CharAt(w[i + 1], 0) != '-' then
      Step(c as int, i + 2, "", Some(w[i + 1]), None, None, None)
    else
      Step(c as int, i + 1, "", None, None, None, None)
  }

  /** A short option letter: `text` is the letter and what follows it in its word. */
  function ShortStep(cfg: Config, w: seq<Word>, i: nat, text: string): (s: Step)
    requires text != "" && i < |w|
    ensures i <= s.optind <= |w|
    ensures s.optind == i && s.ret != -1 ==> s.place != "" && s.place == text[1..]
    ensures s.optind != i ==> s.place == ""
    ensures Usable(cfg) && s.ret == -1 ==> text == "-" && s == Step(-1, i, "", None, None, None, None)
  {
    var c, rest := text[0], text[1..];
    if c == ':' || (c == '-' && rest != "") || c !in cfg.options then
      if c == '-' && rest == "" then Step(-1, i, "", None, None, None, None)
      else Fail(BADCH, if rest == "" then i + 1 else i, rest, c as int)
    else if cfg.longs.Some? && c == 'W' && CharAt(cfg.options, Find(cfg.options, c).value + 1) == ';' then
      if rest != "" then LongStep(cfg, w, i, rest, false).value
      else if i + 1 >= |w| then Fail(BadArg(cfg), i + 1, "", c as int)
      else LongStep(cfg, w, i + 1, w[i + 1], false).value
    else LetterStep(cfg, w, i, c, rest)
  }

  /** The next option in the word under the cursor, `text` being what is left of it. */
  function OptionStep(cfg: Config, w: seq<Word>, i: nat, text: string): (s: Step)
    requires text != "" && i < |w|
    ensures i <= s.optind <= |w|
    ensures s.optind == i && s.ret != -1 ==> s.place != "" && s.place == text[1..]
    ensures s.optind != i ==> s.place == ""
    ensures Usable(cfg) && s.ret == -1 ==>
      text == "-" && cfg.longs.None? && s == Step(-1, i, "", None, None, None, None)
  {
    if cfg.longs.Some? && (text[0] == '-' || cfg.longOnly) then
      var dashes := text[0] == '-';
      var shortToo := !dashes && text[0] != ':' && text[0] in cfg.options;
      match LongStep(cfg, w, i, if dashes then text[1..] else text, shortToo)
      case Some(s) => s
      case None => ShortStep(cfg, w, i, text)
    else ShortStep(cfg, w, i, text)
  }

  // ----------------------------------------------------------- whole vectors

  datatype Outcome = Event(step: Step) | End | AtOperand | BareDash

  /** One call: the operands skipped on the way, the option words used up, the
      outcome, and the cursor afterwards. */
  datatype Call = Call(skipped: seq<Word>, used: seq<Word>, outcome: Outcome, next: nat, place: string)

  /** `next` is `i` or further on, but not past the end unless it started there. */
  predicate Ahead(w: seq<Word>, i: nat, next: nat) {
    i <= next && (next == i || next <= |w|)
  }

  /** The words between two cursors. */
  function Span(w: seq<Word>, i: nat, next: nat): (r: seq<Word>)
    requires Ahead(w, i, next)
    ensures |r| == next - i
  {
    if next == i then [] else w[i..next]
  }

  /** Where the next word that is not simply skipped stands. */
  function Skip(cfg: Config, w: seq<Word>, i: nat): (j: nat)
    ensures Ahead(w, i, j)
    ensures forall k :: i <= k < j ==> k < |w| && IsOperand(w[k])
    ensures j < |w| && cfg.permute && !cfg.allargs ==> !IsOperand(w[j])
    ensures !(cfg.permute && !cfg.allargs) ==> j == i
    decreases |w| - i
  {
    if i < |w| && IsOperand(w[i]) && cfg.permute && !cfg.allargs then Skip(cfg, w, i + 1) else i
  }

  lemma EmptySpan(w: seq<Word>, i: nat)
    ensures Span(w, i, i) == []
  {
  }

  lemma SkipOne(cfg: Config, w: seq<Word>, i0: nat, i: nat)
    requires i < |w| && IsOperand(w[i]) && cfg.permute && !cfg.allargs && Ahead(w, i0, i)
    ensures Skip(cfg, w, i) == Skip(cfg, w, i + 1)
    ensures Ahead(w, i0, i + 1) && Span(w, i0, i + 1) == Span(w, i0, i) + [w[i]]
  {
  }

  /** The cursor (i, place) is legal: between words, or inside the option word w[i]. */
  predicate Cursor(w: seq<Word>, i: nat, place: string) {
    place != "" ==> i < |w| && !IsOperand(w[i]) && |place| < |w[i]| && place == w[i][|w[i]| - |place|..]
  }

  /** The option read at word j with `text` left of it, after skipping `skipped`. */
  function AtOption(cfg: Config, w: seq<Word>, j: nat, text: string, skipped: seq<Word>): (c: Call)
    requires j < |w| && !IsOperand(w[j]) && text != "" && |text| < |w[j]| && text == w[j][|w[j]| - |text|..]
    ensures j <= c.next <= |w| && c.used == w[j..c.next] && c.skipped == skipped
    ensures Cursor(w, c.next, c.place)
    ensures c.next == j && c.outcome.Event? ==> c.place != "" && |c.place| < |text|
  {
    var s := OptionStep(cfg, w, j, text);
    assert text[1..] == w[j][|w[j]| - |text[1..]|..];
    if s.ret == -1 then Call(skipped, w[j..s.optind], BareDash, s.optind, s.place)
    else Call(skipped, w[j..s.optind], Event(s), s.optind, s.place)
  }

  function Next(cfg: Config, w: seq<Word>, i: nat, place: string): (c: Call)
    requires Cursor(w, i, place)
    ensures Ahead(w, i, c.next) && Cursor(w, c.next, c.place)
    ensures c.next == i && c.outcome.Event? ==> c.place != "" && |c.place| < Remaining(w, i, place)
  {
    if place != "" then AtOption(cfg, w, i, place, [])
    else
      var j := Skip(cfg, w, i);
      var skipped := Span(w, i, j);
      if j >= |w| then Call(skipped, [], End, j, "")
      else if IsOperand(w[j]) then
        if cfg.allargs then
          Call(skipped, [w[j]], Event(Step(INORDER, j + 1, "", Some(w[j]), None, None, None)), j + 1, "")
        else Call(skipped, [], AtOperand, j, "")
      else if w[j] == "--" then Call(skipped, ["--"], End, j + 1, "")
      else AtOption(cfg, w, j, w[j][1..], skipped)
  }

  lemma SpanJoin(w: seq<Word>, i: nat, j: nat, next: nat)
    requires Ahead(w, i, j) && j <= next <= |w|
    ensures Ahead(w, i, next) && Span(w, i, next) == Span(w, i, j) + w[j..next]
    ensures j < |w| ==> w[j..j + 1] == [w[j]]
  {
  }

  lemma NextSpan(cfg: Config, w: seq<Word>, i: nat, place: string)
    requires Cursor(w, i, place)
    ensures var c := Next(cfg, w, i, place); c.skipped + c.used == Span(w, i, c.next)
  {
    hide OptionStep, AtOption, IsOperand, Skip, Span;
    var c := Next(cfg, w, i, place);
    var j := if place == "" then Skip(cfg, w, i) else i;
    if place == "" && c.used == [] {
      assert c.skipped + [] == c.skipped;
    }
    if j < |w| {
      SpanJoin(w, i, j, j);
      SpanJoin(w, i, j, j + 1);
      SpanJoin(w, i, j, if j <= c.next <= |w| then c.next else j);
    }
    EmptySpan(w, i);
  }

  function Take<T>(w: seq<T>, i: nat): seq<T> { if i <= |w| then w[..i] else w }
  function Drop<T>(w: seq<T>, i: nat): seq<T> { if i <= |w| then w[i..] else [] }

  /** Characters still to be read in the word under the cursor. */
  function Remaining(w: seq<Word>, i: nat, place: string): nat {
    if place != "" then |place| else if i < |w| then |w[i]| + 1 else 0
  }

  /** A whole run of calls until one returns -1: the options reported, the option
      words and operands passed over, how it ended and where. */
  datatype Parsed = Parsed(events: seq<Step>, opts: seq<Word>, operands: seq<Word>, how: Outcome, stop: nat)

  function Parse(cfg: Config, w: seq<Word>, i: nat, place: string): (p: Parsed)
    requires Cursor(w, i, place)
    ensures Ahead(w, i, p.stop) && !p.how.Event?
    decreases |w| - i, Remaining(w, i, place)
  {
    var c := Next(cfg, w, i, place);
    if !c.outcome.Event? then Parsed([], c.used, c.skipped, c.outcome, c.next)
    else
      var rest := Parse(cfg, w, c.next, c.place);
      Parsed([c.outcome.step] + rest.events, c.used + rest.opts, c.skipped + rest.operands, rest.how, rest.stop)
  }

  /** A run splits the words it passes into option words and operands, keeping
      both orders and losing none. */
  lemma {:induction false} ParseSplits(cfg: Config, w: seq<Word>, i: nat, place: string)
    requires Cursor(w, i, place)
    ensures var p := Parse(cfg, w, i, place); Shuffle(p.opts, p.operands, Span(w, i, p.stop))
    decreases |w| - i, Remaining(w, i, place)
  {
    hide Next, Shuffle;
    var c := Next(cfg, w, i, place);
    NextSpan(cfg, w, i, place);
    if !c.outcome.Event? {
      NothingShuffled<Word>();
      ShuffleBlocks(c.used, c.skipped, [], [], []);
      assert c.used + [] == c.used && c.skipped + [] == c.skipped && c.skipped + c.used + [] == c.skipped + c.used;
    } else {
      var rest := Parse(cfg, w, c.next, c.place);
      ParseSplits(cfg, w, c.next, c.place);
      ShuffleBlocks(c.used, c.skipped, rest.opts, rest.operands, Span(w, c.next, rest.stop));
      assert Span(w, i, rest.stop) == Span(w, i, c.next) + Span(w, c.next, rest.stop);
    }
  }

  lemma NothingShuffled<T>()
    ensures Shuffle<T>([], [], [])
  {
  }

  /** z is x and y interleaved, each in its own order. */
  ghost predicate Shuffle<T>(x: seq<T>, y: seq<T>, z: seq<T>) {
    if z == [] then x == [] && y == []
    else
      || (x != [] && x[0] == z[0] && Shuffle(x[1..], y, z[1..]))
      || (y != [] && y[0] == z[0] && Shuffle(x, y[1..], z[1..]))
  }

  lemma {:induction false} ShuffleBlocks<T>(used: seq<T>, skipped: seq<T>, x: seq<T>, y: seq<T>, z: seq<T>)
    requires Shuffle(x, y, z)
    ensures Shuffle(used + x, skipped + y, skipped + used + z)
    decreases |used| + |skipped|
  {
    if skipped != [] {
      ShuffleBlocks(used, skipped[1..], x, y, z);
      assert (skipped + y)[1..] == skipped[1..] + y;
      assert (skipped + used + z)[1..] == skipped[1..] + used + z;
    } else if used != [] {
      ShuffleBlocks(used[1..], [], x, y, z);
      assert (used + x)[1..] == used[1..] + x;
      assert ([] + used + z)[1..] == [] + used[1..] + z;
      assert [] + y == y && [] + used + z == used + z;
    } else {
      assert [] + x == x && [] + y == y && [] + [] + z == z;
    }
  }

  /** Interleavings grow at the end by either part. */
  lemma {:induction false} ShuffleGrows<T>(x: seq<T>, y: seq<T>, z: seq<T>, u: seq<T>)
    requires Shuffle(x, y, z)
    ensures Shuffle(x + u, y, z + u) && Shuffle(x, y + u, z + u)
  {
    if z == [] {
      ShuffleOfOne(u);
      assert [] + u == u;
    } else {
      assert (z + u)[1..] == z[1..] + u;
      if x != [] && x[0] == z[0] && Shuffle(x[1..], y, z[1..]) {
        ShuffleGrows(x[1..], y, z[1..], u);
        assert (x + u)[1..] == x[1..] + u;
      } else {
        ShuffleGrows(x, y[1..], z[1..], u);
        assert (y + u)[1..] == y[1..] + u;
      }
    }
  }

  lemma {:induction false} ShuffleOfOne<T>(u: seq<T>)
    ensures Shuffle(u, [], u) && Shuffle([], u, u)
  {
    if u != [] {
      ShuffleOfOne(u[1..]);
    }
  }

  lemma {:induction false} ShuffleWithNothing<T>(x: seq<T>, z: seq<T>)
    requires Shuffle(x, [], z)
    ensures x == z
  {
    if z != [] {
      ShuffleWithNothing(x[1..], z[1..]);
    }
  }

  /** Only a permuting scan skips operands. */
  lemma {:induction false} OperandsOnlyWhenPermuting(cfg: Config, w: seq<Word>, i: nat, place: string)
    requires Cursor(w, i, place) && !(cfg.permute && !cfg.allargs)
    ensures Parse(cfg, w, i, place).operands == []
    decreases |w| - i, Remaining(w, i, place)
  {
    var c := Next(cfg, w, i, place);
    if c.outcome.Event? {
      OperandsOnlyWhenPermuting(cfg, w, c.next, c.place);
    }
  }

  /** A leading `+` or `-`, or POSIXLY_CORRECT without `-`, takes the permuting away,
      whatever the caller's flags: no operand is passed over. */
  lemma PrefixStopsPermuting(options: string, longs: Option<seq<LongOption>>, permute: bool, longOnly: bool,
                             posixlyCorrect: bool, w: seq<Word>, i: nat)
    requires options == "" || (options[0] != '+' && options[0] != '-') ==> posixlyCorrect
    ensures Parse(Configure(options, longs, permute, longOnly, posixlyCorrect), w, i, "").operands == []
  {
    OperandsOnlyWhenPermuting(Configure(options, longs, permute, longOnly, posixlyCorrect), w, i, "");
  }

  /** An interleaving has the same words, each as often. */
  lemma {:induction false} ShuffleIsPermutation<T>(x: seq<T>, y: seq<T>, z: seq<T>)
    requires Shuffle(x, y, z)
    ensures multiset(z) == multiset(x + y)
  {
    if z != [] {
      assert z == [z[0]] + z[1..];
      if x != [] && x[0] == z[0] && Shuffle(x[1..], y, z[1..]) {
        ShuffleIsPermutation(x[1..], y, z[1..]);
        assert x + y == [x[0]] + (x[1..] + y);
      } else {
        ShuffleIsPermutation(x, y[1..], z[1..]);
        assert y == [y[0]] + y[1..];
        assert multiset(x + y) == multiset(x) + multiset(y);
      }
    }
  }

  /** What the caller sees of one option, `optopt` as it is after the call. */
  datatype Seen = Seen(ret: int, optarg: Option<string>, optopt: int, idx: Option<nat>, stored: Option<(nat, int)>)

  function OptoptAfter(s: Step, optopt: int): int {
    if s.optopt.Some? then s.optopt.value else optopt
  }

  function See(s: Step, optopt: int): Seen {
    Seen(s.ret, s.optarg, OptoptAfter(s, optopt), s.idx, s.stored)
  }

  /** The calls one after another, `optopt` being set before the first. */
  function SeeAll(steps: seq<Step>, optopt: int): seq<Seen> {
    if steps == [] then [] else [See(steps[0], optopt)] + SeeAll(steps[1..], OptoptAfter(steps[0], optopt))
  }

  function LastOptopt(steps: seq<Step>, optopt: int): int {
    if steps == [] then optopt else LastOptopt(steps[1..], OptoptAfter(steps[0], optopt))
  }

  lemma SeeNothing(optopt: int)
    ensures SeeAll([], optopt) == [] && LastOptopt([], optopt) == optopt
  {
  }

  lemma {:induction false} SeeOneMore(steps: seq<Step>, s: Step, optopt: int)
    ensures SeeAll(steps + [s], optopt) == SeeAll(steps, optopt) + [See(s, LastOptopt(steps, optopt))]
    ensures LastOptopt(steps + [s], optopt) == OptoptAfter(s, LastOptopt(steps, optopt))
  {
    if steps == [] {
      assert [] + [s] == [s] && [s][1..] == [];
    } else {
      assert (steps + [s])[1..] == steps[1..] + [s];
      SeeOneMore(steps[1..], s, OptoptAfter(steps[0], optopt));
    }
  }
}
