/** Command lines, written out from a list of options and operands, faulty ones
    included, and what a caller is to see of each.  Nothing here refers to the
    scanner; that there is no other command line is proved at the end. */
module GetoptLines {
  import opened Common
  import opened GetoptSpec

  /** `--name`, `-name`, `-Wname` and `-W name`. */
  datatype Spelling = TwoDashes | OneDash | Escaped | EscapedApart

  /** How a word of options ends: with a letter that takes no argument, with one that
      takes one, with a long name, or with the letter that announces a name and none
      behind it.  `joined` says whether an argument stands in the same word (`-oARG`,
      `--name=ARG`) or in the next; `m` is what the rule for names makes of the key. */
  datatype Finish =
    | Plain
    | Argued(c: char, arg: Option<string>, joined: bool)
    | Named(spelling: Spelling, key: string, m: Match, arg: Option<string>, joined: bool)
    | Nameless

  /** One thing a user can write on a command line: option letters, known or not, with
      a finish behind them, or an operand. */
  datatype Item = Cluster(letters: string, finish: Finish) | Operand(word: Word)

  // -------------------------------------------------------- what is written

  function Words(item: Item): seq<Word> {
    match item
    case Cluster(letters, finish) => ["-" + letters + FinishText(finish)] + FinishWords(finish)
    case Operand(word) => [word]
  }

  function FinishText(f: Finish): string {
    match f
    case Plain => ""
    case Argued(c, arg, joined) => [c] + Inside(arg, joined)
    case Named(spelling, _, _, _, _) =>
      (match spelling
       case TwoDashes => "-" + NameText(f)
       case OneDash => NameText(f)
       case Escaped => "W" + NameText(f)
       case EscapedApart => "W")
    case Nameless => "W"
  }

  function NameText(f: Finish): string
    requires f.Named?
  {
    f.key + if f.arg.Some? && f.joined then "=" + f.arg.value else ""
  }

  /** The words behind that belong to it. */
  function FinishWords(f: Finish): seq<Word> {
    match f
    case Argued(_, arg, joined) => Apart(arg, joined)
    case Named(spelling, _, _, arg, joined) =>
      (if spelling.EscapedApart? then [NameText(f)] else []) + Apart(arg, joined)
    case _ => []
  }

  function Inside(arg: Option<string>, joined: bool): string {
    if arg.Some? && joined then arg.value else ""
  }

  function Apart(arg: Option<string>, joined: bool): seq<Word> {
    if arg.Some? && !joined then [arg.value] else []
  }

  function AllWords(items: seq<Item>): seq<Word> {
    if items == [] then [] else Words(items[0]) + AllWords(items[1..])
  }

  // ------------------------------------------------------ what may be written

  /** The k-th character after option letter c. */
  function Following(cfg: Config, c: char, k: nat): char
    requires c in cfg.options
  {
    CharAt(cfg.options, Find(cfg.options, c).value + k)
  }

  /** The letter that announces a long name. */
  predicate Escapes(cfg: Config, c: char) {
    cfg.longs.Some? && c == 'W' && c in cfg.options && Following(cfg, c, 1) == ';'
  }

  /** `text`, the rest of a word, begins with an option letter. */
  predicate Listed(cfg: Config, text: string) {
    && text != "" && text[0] in cfg.options && text[0] != ':' && !Escapes(cfg, text[0])
    && (text[0] == '-' ==> text == "-" && cfg.longs.None?)
  }

  /** It begins with what is no option letter.  getopt_long_only takes it for a name. */
  predicate Unknown(cfg: Config, text: string) {
    && text != "" && !(cfg.longs.Some? && cfg.longOnly)
    && (text[0] == ':' || text[0] == '-' || text[0] !in cfg.options)
    && (text[0] == '-' ==> |text| > 1 && cfg.longs.None?)
  }

  predicate Takes(cfg: Config, c: char) {
    c in cfg.options && Following(cfg, c, 1) == ':'
  }

  predicate MayTake(cfg: Config, c: char) {
    Takes(cfg, c) && Following(cfg, c, 2) == ':'
  }

  /** getopt_long_only tries a cluster of letters as a long name first, and so what is
      left of it after each letter. */
  ghost predicate NoLongName(cfg: Config, text: string) {
    cfg.longs.Some? && cfg.longOnly ==> IsMatch(cfg.longs.value, Key(text), true, true, NoMatch)
  }

  /** Whether a name behind one dash could be a short option. */
  predicate ShortToo(cfg: Config, text: string) {
    text != "" && text[0] != ':' && text[0] in cfg.options
  }

  predicate NameOrLetter(cfg: Config, f: Finish)
    requires f.Named?
  {
    f.spelling.OneDash? && ShortToo(cfg, NameText(f))
  }

  ghost predicate SpellingFits(cfg: Config, f: Finish)
    requires f.Named?
  {
    match f.spelling
    case TwoDashes => true
    case OneDash => cfg.longOnly && NameText(f) != "" && NameText(f)[0] != '-'
    case Escaped => Escapes(cfg, 'W') && NameText(f) != "" && NoLongName(cfg, FinishText(f))
    case EscapedApart => Escapes(cfg, 'W') && NoLongName(cfg, FinishText(f))
  }

  /** An argument in the next word is taken where one is needed, or, as long as operands
      are not permuted and it does not look like an option, where one is allowed. */
  ghost predicate FinishWritable(cfg: Config, f: Finish) {
    match f
    case Plain => true
    case Argued(c, arg, joined) =>
      && Listed(cfg, FinishText(f)) && Takes(cfg, c) && NoLongName(cfg, FinishText(f))
      && (joined ==> arg.Some? && arg.value != "")
      && (MayTake(cfg, c) && arg.Some? && !joined ==> !cfg.permute && CharAt(arg.value, 0) != '-')
    case Named(_, key, m, arg, joined) =>
      && cfg.longs.Some? && '=' !in key && SpellingFits(cfg, f)
      && IsMatch(cfg.longs.value, key, NameOrLetter(cfg, f), cfg.longOnly, m)
      && (m.NoMatch? ==> !NameOrLetter(cfg, f)) && (m.Found? ==> m.index < |cfg.longs.value|)
      && (joined ==> arg.Some?)
      && (arg.Some? && !joined ==> m.Found? && cfg.longs.value[m.index].hasArg.RequiredArgument?)
    case Nameless => Escapes(cfg, 'W') && NoLongName(cfg, "W")
  }

  /** A letter that stands for itself, and what is behind it in the word. */
  ghost predicate LetterWritable(cfg: Config, text: string) {
    || Unknown(cfg, text)
    || (Listed(cfg, text) && !Takes(cfg, text[0]) && NoLongName(cfg, text))
  }

  ghost predicate ClusterWritable(cfg: Config, letters: string, f: Finish) {
    if letters == "" then FinishWritable(cfg, f)
    else LetterWritable(cfg, letters + FinishText(f)) && ClusterWritable(cfg, letters[1..], f)
  }

  ghost predicate Writable(cfg: Config, item: Item) {
    match item
    case Cluster(letters, f) => letters + FinishText(f) !in {"", "-"} && ClusterWritable(cfg, letters, f)
    case Operand(word) => IsOperand(word) && (cfg.permute || cfg.allargs)
  }

  /** An optional argument left out, where the next word would be taken for it. */
  predicate Loose(cfg: Config, f: Finish) {
    f.Argued? && f.arg.None? && MayTake(cfg, f.c) && !cfg.permute
  }

  /** An argument or a name is missing. */
  predicate Lacking(cfg: Config, f: Finish) {
    match f
    case Plain => false
    case Argued(c, arg, _) => arg.None? && Takes(cfg, c) && !MayTake(cfg, c)
    case Named(_, _, m, arg, _) =>
      && arg.None? && m.Found? && cfg.longs.Some? && m.index < |cfg.longs.value|
      && cfg.longs.value[m.index].hasArg.RequiredArgument?
    case Nameless => true
  }

  /** Nothing but the end of the vector can keep a missing argument from being found,
      nothing but a dash one that may be left out. */
  predicate FollowedBy(cfg: Config, f: Finish, words: seq<Word>) {
    && (Lacking(cfg, f) ==> words == [])
    && (Loose(cfg, f) ==> words == [] || CharAt(words[0], 0) == '-')
  }

  /** No word is taken for an argument that was left out. */
  predicate Separated(cfg: Config, items: seq<Item>, tail: seq<Word>) {
    items == [] ||
    ((items[0].Cluster? ==> FollowedBy(cfg, items[0].finish, AllWords(items[1..]) + tail))
     && Separated(cfg, items[1..], tail))
  }

  /** What can stand behind the items: nothing, `--` and anything, or, where operands
      are not permuted, an operand and anything. */
  predicate Ending(cfg: Config, tail: seq<Word>) {
    tail == [] || tail[0] == "--" || (IsOperand(tail[0]) && !cfg.permute && !cfg.allargs)
  }

  /** The part of it that is an option word. */
  function Closing(tail: seq<Word>): seq<Word> {
    if tail != [] && tail[0] == "--" then ["--"] else []
  }

  // ------------------------------------------------------------ what is seen

  /** `optopt` behind what was seen. */
  function After(seen: seq<Seen>, optopt: int): int {
    if seen == [] then optopt else seen[|seen| - 1].optopt
  }

  /** A fault: no argument, no name, and the culprit in `optopt`. */
  function Fault(ret: char, culprit: int): Seen {
    Seen(ret as int, None, culprit, None, None)
  }

  /** A missing argument is told apart only when the option string begins with a colon. */
  function MissingMark(cfg: Config): char {
    if cfg.options != "" && cfg.options[0] == ':' then ':' else '?'
  }

  /** Known letters are reported, unknown ones found fault with. */
  function LettersSeen(cfg: Config, letters: string, f: Finish, optopt: int): seq<Seen> {
    if letters == "" then []
    else
      var c := letters[0];
      var first := if Unknown(cfg, letters + FinishText(f)) then Fault('?', c as int)
                   else Seen(c as int, None, optopt, None, None);
      [first] + LettersSeen(cfg, letters[1..], f, first.optopt)
  }

  function FinishSeen(cfg: Config, f: Finish, optopt: int): seq<Seen>
    requires f.Named? && f.m.Found? ==> cfg.longs.Some? && f.m.index < |cfg.longs.value|
  {
    match f
    case Plain => []
    case Argued(c, arg, _) =>
      [if Lacking(cfg, f) then Fault(MissingMark(cfg), c as int) else Seen(c as int, arg, optopt, None, None)]
    case Named(_, _, m, arg, _) =>
      [if !m.Found? then Fault('?', 0) else NameSeen(cfg, m.index, arg, optopt)]
    case Nameless => [Fault(MissingMark(cfg), 'W' as int)]
  }

  /** A name that was found, its argument missing, unwanted, or as it should be. */
  function NameSeen(cfg: Config, k: nat, arg: Option<string>, optopt: int): Seen
    requires cfg.longs.Some? && k < |cfg.longs.value|
  {
    var o := cfg.longs.value[k];
    var code := if o.flag == 0 then o.val else 0;
    if o.hasArg.NoArgument? && arg.Some? then Fault('?', code)
    else if o.hasArg.RequiredArgument? && arg.None? then Fault(MissingMark(cfg), code)
    else Seen(code, arg, optopt, Some(k), if o.flag == 0 then None else Some((o.flag, o.val)))
  }

  /** A scan in order reports operands as well, as the argument of option 1. */
  ghost function ItemSeen(cfg: Config, item: Item, optopt: int): seq<Seen>
    requires Writable(cfg, item)
  {
    match item
    case Cluster(letters, f) => ClusterSeen(cfg, letters, f, optopt)
    case Operand(word) => if cfg.allargs then [Seen(1, Some(word), optopt, None, None)] else []
  }

  ghost function ClusterSeen(cfg: Config, letters: string, f: Finish, optopt: int): seq<Seen>
    requires ClusterWritable(cfg, letters, f)
  {
    FinishKnown(cfg, letters, f);
    var seen := LettersSeen(cfg, letters, f, optopt);
    seen + FinishSeen(cfg, f, After(seen, optopt))
  }

  lemma {:induction false} FinishKnown(cfg: Config, letters: string, f: Finish)
    requires ClusterWritable(cfg, letters, f)
    ensures FinishWritable(cfg, f)
    ensures f.Named? && f.m.Found? ==> cfg.longs.Some? && f.m.index < |cfg.longs.value|
  {
    hide FinishText, LetterWritable, SpellingFits, IsMatch;
    if letters != "" {
      FinishKnown(cfg, letters[1..], f);
    }
  }

  ghost function AllSeen(cfg: Config, items: seq<Item>, optopt: int): seq<Seen>
    requires forall k :: 0 <= k < |items| ==> Writable(cfg, items[k])
  {
    if items == [] then []
    else
      var first := ItemSeen(cfg, items[0], optopt);
      first + AllSeen(cfg, items[1..], After(first, optopt))
  }

  /** The operands passed over. */
  predicate PassedOver(cfg: Config, item: Item) {
    item.Operand? && !cfg.allargs
  }

  function Operands(cfg: Config, items: seq<Item>): seq<Word> {
    if items == [] then []
    else (if PassedOver(cfg, items[0]) then Words(items[0]) else []) + Operands(cfg, items[1..])
  }

  /** The words used up by what is reported. */
  function OptionWords(cfg: Config, items: seq<Item>): seq<Word> {
    if items == [] then []
    else (if PassedOver(cfg, items[0]) then [] else Words(items[0])) + OptionWords(cfg, items[1..])
  }

  // ------------------------------------------------------- every vector is one

  lemma KeyOf(key: string, arg: Option<string>, joined: bool)
    requires '=' !in key
    ensures var text := key + (if arg.Some? && joined then "=" + arg.value else "");
      Key(text) == key && Inline(text) == if joined then arg else None
  {
    var text := key + (if arg.Some? && joined then "=" + arg.value else "");
    if arg.Some? && joined {
      FindAfter(key, '=', arg.value);
      assert text == key + ['='] + arg.value;
    } else {
      assert text == key;
    }
  }

  lemma {:induction false} FindAfter(s: string, c: char, t: string)
    requires c !in s
    ensures Find(s + [c] + t, c) == Some(|s|)
  {
    if s != "" {
      FindAfter(s[1..], c, t);
      assert (s + [c] + t)[1..] == s[1..] + [c] + t;
    }
  }

  /** A name and what stands behind its `=`. */
  lemma KeySplits(text: string)
    ensures '=' !in Key(text)
    ensures text == Key(text) + if Inline(text).Some? then "=" + Inline(text).value else ""
  {
  }

  /** A name, in whatever spelling, is one that may be written. */
  lemma EveryName(cfg: Config, spelling: Spelling, name: string, behind: seq<Word>) returns (f: Finish)
    requires cfg.longs.Some?
    requires spelling.OneDash? && ShortToo(cfg, name) ==>
      !Search(cfg.longs.value, Key(name), true, cfg.longOnly).NoMatch?
    ensures f.Named? && f.spelling == spelling && NameText(f) == name
    ensures SpellingFits(cfg, f) ==> FinishWritable(cfg, f)
    ensures Apart(f.arg, f.joined) <= behind && (Lacking(cfg, f) ==> behind == [])
  {
    var key, inline := Key(name), Inline(name);
    KeySplits(name);
    hide Key, Inline, Find, Search, IsMatch, SpellingFits;
    var m := Search(cfg.longs.value, key, spelling.OneDash? && ShortToo(cfg, name), cfg.longOnly);
    var found := m.Found? && m.index < |cfg.longs.value|;
    assert m.Found? ==> found by {
      InRange(cfg.longs.value, key, spelling.OneDash? && ShortToo(cfg, name), cfg.longOnly);
    }
    if inline.Some? {
      f := Named(spelling, key, m, inline, true);
    } else if found && cfg.longs.value[m.index].hasArg.RequiredArgument? && behind != [] {
      f := Named(spelling, key, m, Some(behind[0]), false);
    } else {
      f := Named(spelling, key, m, None, false);
    }
  }

  lemma InRange(longs: seq<LongOption>, key: string, shortToo: bool, longOnly: bool)
    ensures var m := Search(longs, key, shortToo, longOnly); m.Found? ==> m.index < |longs|
  {
  }

  /** What getopt_long takes for a name; the rest is letters. */
  ghost predicate IsName(cfg: Config, text: string) {
    && cfg.longs.Some? && text != ""
    && (text[0] == '-' ||
        (cfg.longOnly && (ShortToo(cfg, text) ==> !Search(cfg.longs.value, Key(text), true, true).NoMatch?)))
  }

  /** So is a word of options, up to the words it takes from those behind it. */
  lemma {:induction false} EveryWord(cfg: Config, text: string, more: seq<Word>) returns (letters: string, f: Finish)
    requires text != "" && (cfg.longs.Some? || '-' in cfg.options)
    ensures letters + FinishText(f) == text && ClusterWritable(cfg, letters, f)
    ensures FinishWords(f) <= more && FollowedBy(cfg, f, more[|FinishWords(f)|..])
    decreases |text|
  {
    hide FinishText, FinishWords, FollowedBy, ClusterWritable, IsName, Escapes, Unknown, Takes;
    if IsName(cfg, text) {
      letters := "";
      f := NamedWord(cfg, text, more);
      FinishOnly(cfg, f);
    } else if Escapes(cfg, text[0]) {
      letters := "";
      f := EscapedWord(cfg, text, more);
      FinishOnly(cfg, f);
    } else if !Unknown(cfg, text) && Takes(cfg, text[0]) {
      letters := "";
      f := ArguedWord(cfg, text, more);
      FinishOnly(cfg, f);
    } else if |text| == 1 {
      LastLetter(cfg, text, more);
      letters, f := text, Plain;
    } else {
      letters, f := EveryWord(cfg, text[1..], more);
      assert text == [text[0]] + (letters + FinishText(f));
      OneMore(cfg, text[0], letters, f);
      letters := [text[0]] + letters;
    }
  }

  lemma FinishOnly(cfg: Config, f: Finish)
    requires FinishWritable(cfg, f)
    ensures ClusterWritable(cfg, "", f) && "" + FinishText(f) == FinishText(f)
  {
  }

  lemma LastLetter(cfg: Config, text: string, more: seq<Word>)
    requires |text| == 1 && (Unknown(cfg, text) || !Takes(cfg, text[0])) && !IsName(cfg, text) && !Escapes(cfg, text[0])
    requires cfg.longs.Some? || '-' in cfg.options
    ensures text + FinishText(Plain) == text && ClusterWritable(cfg, text, Plain)
    ensures FinishWords(Plain) <= more && FollowedBy(cfg, Plain, more[|FinishWords(Plain)|..])
  {
    hide Takes, IsName, Unknown, Escapes, LetterWritable;
    assert text == [text[0]] + ("" + FinishText(Plain));
    OneMore(cfg, text[0], "", Plain);
  }

  lemma OneMore(cfg: Config, c: char, letters: string, f: Finish)
    requires var text := [c] + (letters + FinishText(f));
      (Unknown(cfg, text) || !Takes(cfg, c)) && !IsName(cfg, text) && !Escapes(cfg, c)
    requires cfg.longs.Some? || '-' in cfg.options
    requires ClusterWritable(cfg, letters, f)
    ensures ClusterWritable(cfg, [c] + letters, f)
    ensures [c] + letters + FinishText(f) == [c] + (letters + FinishText(f))
  {
    hide Key, Search, IsMatch, FinishText, FinishWritable, Find;
    var text := [c] + (letters + FinishText(f));
    assert [c] + letters + FinishText(f) == text && ([c] + letters)[1..] == letters;
  }

  lemma NamedWord(cfg: Config, text: string, more: seq<Word>) returns (f: Finish)
    requires IsName(cfg, text)
    ensures FinishText(f) == text && FinishWritable(cfg, f)
    ensures FinishWords(f) <= more && FollowedBy(cfg, f, more[|FinishWords(f)|..])
  {
    hide Key, Search, IsMatch;
    if text[0] == '-' {
      f := EveryName(cfg, TwoDashes, text[1..], more);
    } else {
      f := EveryName(cfg, OneDash, text, more);
    }
  }

  lemma EscapedWord(cfg: Config, text: string, more: seq<Word>) returns (f: Finish)
    requires text != "" && !IsName(cfg, text) && Escapes(cfg, text[0])
    ensures FinishText(f) == text && FinishWritable(cfg, f)
    ensures FinishWords(f) <= more && FollowedBy(cfg, f, more[|FinishWords(f)|..])
  {
    hide Key, Search, IsMatch, Find;
    if |text| > 1 {
      f := EveryName(cfg, Escaped, text[1..], more);
    } else if more == [] {
      f := Nameless;
    } else {
      f := EveryName(cfg, EscapedApart, more[0], more[1..]);
    }
  }

  lemma ArguedWord(cfg: Config, text: string, more: seq<Word>) returns (f: Finish)
    requires text != "" && !IsName(cfg, text) && !Escapes(cfg, text[0]) && !Unknown(cfg, text) && Takes(cfg, text[0])
    requires cfg.longs.Some? || '-' in cfg.options
    ensures FinishText(f) == text && FinishWritable(cfg, f)
    ensures FinishWords(f) <= more && FollowedBy(cfg, f, more[|FinishWords(f)|..])
  {
    hide Key, Search, IsMatch, Find;
    var c := text[0];
    if |text| > 1 {
      f := Argued(c, Some(text[1..]), true);
    } else if more != [] && (!MayTake(cfg, c) || (!cfg.permute && CharAt(more[0], 0) != '-')) {
      f := Argued(c, Some(more[0]), false);
    } else {
      f := Argued(c, None, false);
    }
  }

  /** The line is the words of these items and this tail. */
  ghost predicate IsLine(cfg: Config, line: seq<Word>, items: seq<Item>, tail: seq<Word>) {
    && (forall k :: 0 <= k < |items| ==> Writable(cfg, items[k]))
    && Separated(cfg, items, tail) && Ending(cfg, tail) && line == AllWords(items) + tail
  }

  /** Unless the scan can stop at a lone dash inside a word, there is no other command
      line: every sequence of words whatever is one. */
  lemma {:induction false} EveryLineIsWritten(cfg: Config, line: seq<Word>)
    requires cfg.longs.Some? || '-' in cfg.options
    ensures exists items, tail :: IsLine(cfg, line, items, tail)
    decreases |line|
  {
    hide FinishText, FinishWords, FollowedBy, ClusterWritable;
    if line == [] || line[0] == "--" || (IsOperand(line[0]) && !cfg.permute && !cfg.allargs) {
      assert IsLine(cfg, line, [], line);
    } else {
      var item: Item;
      if IsOperand(line[0]) {
        item := Operand(line[0]);
      } else {
        var letters, f := EveryWord(cfg, line[0][1..], line[1..]);
        item := Cluster(letters, f);
        assert line[0] == "-" + line[0][1..] == "-" + letters + FinishText(f);
      }
      var n := |Words(item)|;
      assert Words(item) <= line;
      EveryLineIsWritten(cfg, line[n..]);
      var items, tail :| IsLine(cfg, line[n..], items, tail);
      LineGrows(cfg, line, item, items, tail);
    }
  }

  lemma LineGrows(cfg: Config, line: seq<Word>, item: Item, items: seq<Item>, tail: seq<Word>)
    requires Writable(cfg, item) && Words(item) <= line && IsLine(cfg, line[|Words(item)|..], items, tail)
    requires item.Cluster? ==> FollowedBy(cfg, item.finish, line[|Words(item)|..])
    ensures IsLine(cfg, line, [item] + items, tail)
  {
    hide Words, FollowedBy, Writable;
    assert ([item] + items)[1..] == items;
    assert line == Words(item) + line[|Words(item)|..];
  }
}
