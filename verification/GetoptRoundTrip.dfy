/** A command line, faulty ones included, is read back as exactly the list it was
    written from.  Also here: when a run can end early on a lone dash. */
module GetoptRoundTrip {
  import opened Common
  import opened GetoptLines
  import opened GetoptSpec

  lemma AfterBoth(x: seq<Seen>, y: seq<Seen>, optopt: int)
    ensures After(x + y, optopt) == After(y, After(x, optopt))
  {
    if y == [] {
      assert x + y == x;
    }
  }

  /** A run that first reports `first` and passes the words up to `next` as
      option words, and then is the run from `next`. */
  ghost predicate Prepends(cfg: Config, w: seq<Word>, i: nat, place: string, first: seq<Seen>, next: nat, optopt: int) {
    && Cursor(w, i, place) && i <= next <= |w|
    && var p, rest := Parse(cfg, w, i, place), Parse(cfg, w, next, "");
       && SeeAll(p.events, optopt) == first + SeeAll(rest.events, After(first, optopt))
       && p.opts == w[i..next] + rest.opts && p.operands == rest.operands
       && p.how == rest.how && p.stop == rest.stop
  }

  lemma SeeSplit(s: Step, steps: seq<Step>, optopt: int)
    ensures SeeAll([s] + steps, optopt) == [See(s, optopt)] + SeeAll(steps, See(s, optopt).optopt)
  {
    assert ([s] + steps)[1..] == steps;
  }

  /** The step moves the cursor to `next` and shows `seen`. */
  predicate Does(s: Step, next: nat, place: string, seen: Seen, optopt: int) {
    s.ret != -1 && s.optind == next && s.place == place && See(s, optopt) == seen
  }

  /** One option step that uses up its word. */
  lemma LastOption(cfg: Config, w: seq<Word>, i: nat, place: string, seen: Seen, next: nat, optopt: int)
    requires Cursor(w, i, place) && place != "" && Usable(cfg)
    requires Does(OptionStep(cfg, w, i, place), next, "", seen, optopt)
    ensures Prepends(cfg, w, i, place, [seen], next, optopt)
  {
    hide OptionStep;
    var c := Next(cfg, w, i, place);
    var rest := Parse(cfg, w, next, "");
    SeeSplit(c.outcome.step, rest.events, optopt);
    assert [] + rest.operands == rest.operands;
  }

  /** One option step inside its word, and the rest of the word after it. */
  lemma MoreOptions(cfg: Config, w: seq<Word>, i: nat, place: string, seen: Seen, more: seq<Seen>, next: nat,
                    optopt: int)
    requires Cursor(w, i, place) && |place| > 1 && Usable(cfg)
    requires Does(OptionStep(cfg, w, i, place), i, place[1..], seen, optopt)
    requires Prepends(cfg, w, i, place[1..], more, next, seen.optopt)
    ensures Prepends(cfg, w, i, place, [seen] + more, next, optopt)
  {
    hide OptionStep;
    var c := Next(cfg, w, i, place);
    var rest := Parse(cfg, w, i, place[1..]);
    SeeSplit(c.outcome.step, rest.events, optopt);
    AfterBoth([seen], more, optopt);
    assert c.used == [] && [] + rest.opts == rest.opts && [] + rest.operands == rest.operands;
    Regroup([seen], more, SeeAll(Parse(cfg, w, next, "").events, After(more, seen.optopt)));
  }

  /** Entering an option word is standing behind its dash. */
  lemma EnterWord(cfg: Config, w: seq<Word>, i: nat, seen: seq<Seen>, next: nat, optopt: int)
    requires i < |w| && !IsOperand(w[i]) && w[i] != "--"
    requires Prepends(cfg, w, i, w[i][1..], seen, next, optopt)
    ensures Prepends(cfg, w, i, "", seen, next, optopt)
  {
    hide OptionStep;
    assert Skip(cfg, w, i) == i;
    assert Next(cfg, w, i, "") == Next(cfg, w, i, w[i][1..]);
    assert Parse(cfg, w, i, "") == Parse(cfg, w, i, w[i][1..]);
  }

  /** What is no long name is read as letters. */
  lemma AsShort(cfg: Config, w: seq<Word>, i: nat, text: string)
    requires i < |w| && text != "" && (text[0] == '-' ==> cfg.longs.None?)
    requires cfg.longs.Some? && cfg.longOnly ==> ShortToo(cfg, text)
    requires NoLongName(cfg, text)
    ensures OptionStep(cfg, w, i, text) == ShortStep(cfg, w, i, text)
  {
    if cfg.longs.Some? && cfg.longOnly {
      NoNameFound(cfg, text);
      hide Search, Find, Key, Inline, IsMatch, ShortStep;
    }
  }

  lemma NoNameFound(cfg: Config, text: string)
    requires cfg.longs.Some? && cfg.longOnly && NoLongName(cfg, text)
    ensures Search(cfg.longs.value, Key(text), true, cfg.longOnly) == NoMatch
  {
    hide Search, Key, IsMatch;
    MatchIsUnique(cfg.longs.value, Key(text), true, true, Search(cfg.longs.value, Key(text), true, true), NoMatch);
  }

  /** What a letter that stands for itself does. */
  lemma LetterRead(cfg: Config, w: seq<Word>, i: nat, text: string, optopt: int)
    requires i < |w| && LetterWritable(cfg, text)
    ensures text != "" &&
      Does(OptionStep(cfg, w, i, text), if |text| == 1 then i + 1 else i, text[1..],
           if Unknown(cfg, text) then Fault('?', text[0] as int) else Seen(text[0] as int, None, optopt, None, None),
           optopt)
  {
    AsShort(cfg, w, i, text);
    hide Find, LongStep, OptionStep, NoLongName;
  }

  /** What a letter with an argument does. */
  lemma ArgumentRead(cfg: Config, w: seq<Word>, i: nat, f: Finish, optopt: int)
    requires f.Argued? && FinishWritable(cfg, f) && Behind(cfg, w, i, f)
    ensures Does(OptionStep(cfg, w, i, FinishText(f)), i + 1 + |FinishWords(f)|, "",
                 FinishSeen(cfg, f, optopt)[0], optopt)
  {
    var text := FinishText(f);
    assert text[0] == f.c && text[1..] == Inside(f.arg, f.joined);
    AsShort(cfg, w, i, text);
    hide Find, LongStep, OptionStep, NoLongName;
    if f.arg.Some? && !f.joined {
      assert w[i + 1] == w[i + 1..][..1][0];
    }
    if i + 1 < |w| {
      assert w[i + 1..][0] == w[i + 1];
    }
  }

  /** The words behind the one at i are those of the finish and what may follow it. */
  predicate Behind(cfg: Config, w: seq<Word>, i: nat, f: Finish) {
    && i < |w| && |FinishWords(f)| <= |w| - (i + 1) && w[i + 1..][..|FinishWords(f)|] == FinishWords(f)
    && FollowedBy(cfg, f, w[i + 1 + |FinishWords(f)|..])
  }

  /** What a name does, the cursor standing on the word it is in. */
  lemma NameRead(cfg: Config, w: seq<Word>, i: nat, f: Finish, optopt: int)
    requires f.Named? && FinishWritable(cfg, f) && Usable(cfg) && i < |w|
    requires f.arg.Some? && !f.joined ==> i + 1 < |w| && w[i + 1] == f.arg.value
    requires Lacking(cfg, f) ==> i + 1 == |w|
    ensures cfg.longs.Some?
    ensures var s := LongStep(cfg, w, i, NameText(f), NameOrLetter(cfg, f));
      s.Some? && Does(s.value, i + 1 + |Apart(f.arg, f.joined)|, "", FinishSeen(cfg, f, optopt)[0], optopt)
  {
    KeyFound(cfg, f);
    hide IsMatch, Search, Find, Key, Inline, NameText, NameOrLetter, SpellingFits;
  }

  lemma KeyFound(cfg: Config, f: Finish)
    requires f.Named? && FinishWritable(cfg, f)
    ensures Key(NameText(f)) == f.key && Inline(NameText(f)) == (if f.joined then f.arg else None)
    ensures cfg.longs.Some? && Search(cfg.longs.value, f.key, NameOrLetter(cfg, f), cfg.longOnly) == f.m
  {
    hide IsMatch, Search, Find, Key, Inline, NameOrLetter, SpellingFits;
    KeyOf(f.key, f.arg, f.joined);
    MatchIsUnique(cfg.longs.value, f.key, NameOrLetter(cfg, f), cfg.longOnly,
                  Search(cfg.longs.value, f.key, NameOrLetter(cfg, f), cfg.longOnly), f.m);
  }

  /** What a name does, in each spelling. */
  lemma SpellingRead(cfg: Config, w: seq<Word>, i: nat, f: Finish, optopt: int)
    requires f.Named? && FinishWritable(cfg, f) && Usable(cfg) && Behind(cfg, w, i, f)
    ensures Does(OptionStep(cfg, w, i, FinishText(f)), i + 1 + |FinishWords(f)|, "",
                 FinishSeen(cfg, f, optopt)[0], optopt)
  {
    var apart := Apart(f.arg, f.joined);
    if f.spelling.EscapedApart? {
      assert FinishWords(f) == [NameText(f)] + apart && w[i + 1] == w[i + 1..][..|FinishWords(f)|][0];
      if f.arg.Some? && !f.joined {
        assert w[i + 2] == w[i + 1..][..|FinishWords(f)|][1];
      }
      NameRead(cfg, w, i + 1, f, optopt);
      EscapedStep(cfg, w, i, f);
    } else {
      assert FinishWords(f) == apart;
      if f.arg.Some? && !f.joined {
        assert w[i + 1] == w[i + 1..][..|FinishWords(f)|][0];
      }
      NameRead(cfg, w, i, f, optopt);
      match f.spelling
      case TwoDashes => DoubleStep(cfg, w, i, NameText(f));
      case OneDash => SingleStep(cfg, w, i, NameText(f));
      case _ => EscapedStep(cfg, w, i, f);
    }
  }

  lemma SingleStep(cfg: Config, w: seq<Word>, i: nat, text: string)
    requires i < |w| && cfg.longs.Some? && cfg.longOnly && text != "" && text[0] != '-'
    requires LongStep(cfg, w, i, text, ShortToo(cfg, text)).Some?
    ensures Some(OptionStep(cfg, w, i, text)) == LongStep(cfg, w, i, text, ShortToo(cfg, text))
  {
    hide LongStep, ShortStep;
  }

  lemma DoubleStep(cfg: Config, w: seq<Word>, i: nat, text: string)
    requires i < |w| && cfg.longs.Some?
    requires LongStep(cfg, w, i, text, false).Some?
    ensures Some(OptionStep(cfg, w, i, "-" + text)) == LongStep(cfg, w, i, text, false)
  {
    hide LongStep, ShortStep;
    assert ("-" + text)[0] == '-' && ("-" + text)[1..] == text;
  }

  lemma EscapedStep(cfg: Config, w: seq<Word>, i: nat, f: Finish)
    requires f.Named? && (f.spelling.Escaped? || f.spelling.EscapedApart?) && SpellingFits(cfg, f) && i < |w|
    requires f.spelling.EscapedApart? ==> i + 1 < |w| && w[i + 1] == NameText(f)
    ensures cfg.longs.Some?
    ensures Some(OptionStep(cfg, w, i, FinishText(f))) ==
      LongStep(cfg, w, if f.spelling.Escaped? then i else i + 1, NameText(f), false)
  {
    var text := FinishText(f);
    assert text[0] == 'W' && text[1..] == if f.spelling.Escaped? then NameText(f) else "";
    AsShort(cfg, w, i, text);
    EscapeRead(cfg, w, i, text);
    hide Find, LongStep, OptionStep, ShortStep, NoLongName, NameText, FinishText, Escapes;
  }

  lemma EscapeRead(cfg: Config, w: seq<Word>, i: nat, text: string)
    requires i < |w| && text != "" && text[0] == 'W' && Escapes(cfg, 'W') && (|text| == 1 ==> i + 1 < |w|)
    ensures cfg.longs.Some?
    ensures Some(ShortStep(cfg, w, i, text)) ==
      if |text| > 1 then LongStep(cfg, w, i, text[1..], false) else LongStep(cfg, w, i + 1, w[i + 1], false)
  {
    hide Find, LongStep;
  }

  /** What the escape letter does with no name behind it. */
  lemma NamelessRead(cfg: Config, w: seq<Word>, i: nat, optopt: int)
    requires FinishWritable(cfg, Nameless) && Behind(cfg, w, i, Nameless)
    ensures Does(OptionStep(cfg, w, i, "W"), i + 1, "", FinishSeen(cfg, Nameless, optopt)[0], optopt)
  {
    assert w[i + 1..] == [];
    AsShort(cfg, w, i, "W");
    hide Find, LongStep, OptionStep, NoLongName;
  }

  /** What any finish does. */
  lemma FinishRead(cfg: Config, w: seq<Word>, i: nat, f: Finish, optopt: int)
    requires !f.Plain? && FinishWritable(cfg, f) && Usable(cfg) && Behind(cfg, w, i, f)
    ensures FinishText(f) != "" && |FinishSeen(cfg, f, optopt)| == 1
    ensures Does(OptionStep(cfg, w, i, FinishText(f)), i + 1 + |FinishWords(f)|, "",
                 FinishSeen(cfg, f, optopt)[0], optopt)
  {
    match f {
      case Argued(_, _, _) => ArgumentRead(cfg, w, i, f, optopt);
      case Named(_, _, _, _, _) => SpellingRead(cfg, w, i, f, optopt);
      case Nameless => NamelessRead(cfg, w, i, optopt);
    }
  }

  /** Letters and a finish, read one after the other. */
  lemma {:induction false} ClusterRead(cfg: Config, w: seq<Word>, i: nat, letters: string, f: Finish, optopt: int)
    requires Usable(cfg) && ClusterWritable(cfg, letters, f) && Behind(cfg, w, i, f)
    requires letters + FinishText(f) != "" && Cursor(w, i, letters + FinishText(f))
    ensures Prepends(cfg, w, i, letters + FinishText(f), ClusterSeen(cfg, letters, f, optopt),
                     i + 1 + |FinishWords(f)|, optopt)
    decreases |letters|
  {
    hide *;
    var text, next := letters + FinishText(f), i + 1 + |FinishWords(f)|;
    if letters == "" {
      assert text == FinishText(f);
      FinishAlone(cfg, w, i, f, optopt);
    } else {
      FirstLetter(cfg, letters, f, optopt);
      BehindInside(cfg, w, i, f);
      LetterRead(cfg, w, i, text, optopt);
      var first := ClusterSeen(cfg, letters, f, optopt)[0];
      assert text[1..] == letters[1..] + FinishText(f);
      if |text| == 1 {
        OneLetter(cfg, letters, f, optopt);
        assert ClusterSeen(cfg, letters, f, optopt) == [first] && text[1..] == "";
        LastOption(cfg, w, i, text, first, next, optopt);
      } else {
        CursorMoves(w, i, text);
        ClusterRead(cfg, w, i, letters[1..], f, first.optopt);
        MoreOptions(cfg, w, i, text, first, ClusterSeen(cfg, letters[1..], f, first.optopt), next, optopt);
      }
    }
  }

  lemma FinishAlone(cfg: Config, w: seq<Word>, i: nat, f: Finish, optopt: int)
    requires Usable(cfg) && ClusterWritable(cfg, "", f) && Behind(cfg, w, i, f)
    requires FinishText(f) != "" && Cursor(w, i, FinishText(f))
    ensures Prepends(cfg, w, i, FinishText(f), ClusterSeen(cfg, "", f, optopt), i + 1 + |FinishWords(f)|, optopt)
  {
    hide Parse, OptionStep, Prepends, Cursor, Usable, Behind, FinishWritable, FinishText, FinishSeen;
    FinishKnown(cfg, "", f);
    NotPlain(f);
    FinishRead(cfg, w, i, f, optopt);
    assert [] + FinishSeen(cfg, f, optopt) == FinishSeen(cfg, f, optopt) == [FinishSeen(cfg, f, optopt)[0]];
    LastOption(cfg, w, i, FinishText(f), FinishSeen(cfg, f, optopt)[0], i + 1 + |FinishWords(f)|, optopt);
  }

  lemma NotPlain(f: Finish)
    ensures f.Plain? ==> FinishText(f) == ""
  {
  }

  lemma BehindInside(cfg: Config, w: seq<Word>, i: nat, f: Finish)
    requires Behind(cfg, w, i, f)
    ensures i < |w| && i + 1 + |FinishWords(f)| <= |w|
  {
  }

  lemma CursorMoves(w: seq<Word>, i: nat, text: string)
    requires text != "" && Cursor(w, i, text)
    ensures Cursor(w, i, text[1..])
  {
    assert text[1..] == w[i][|w[i]| - |text[1..]|..];
  }

  lemma FirstLetter(cfg: Config, letters: string, f: Finish, optopt: int)
    requires letters != "" && ClusterWritable(cfg, letters, f)
    ensures LetterWritable(cfg, letters + FinishText(f)) && ClusterWritable(cfg, letters[1..], f)
    ensures var c := letters[0];
      var first := if Unknown(cfg, letters + FinishText(f)) then Fault('?', c as int)
                   else Seen(c as int, None, optopt, None, None);
      ClusterSeen(cfg, letters, f, optopt) == [first] + ClusterSeen(cfg, letters[1..], f, first.optopt)
  {
    hide FinishText, Unknown, FinishSeen, FinishWritable, LetterWritable;
    FinishKnown(cfg, letters, f);
    var seen := LettersSeen(cfg, letters, f, optopt);
    var more := LettersSeen(cfg, letters[1..], f, seen[0].optopt);
    AfterBoth([seen[0]], more, optopt);
    Regroup([seen[0]], more, FinishSeen(cfg, f, After(more, seen[0].optopt)));
  }

  lemma OneLetter(cfg: Config, letters: string, f: Finish, optopt: int)
    requires letters != "" && ClusterWritable(cfg, letters, f) && |letters + FinishText(f)| == 1
    ensures FinishWords(f) == [] && |ClusterSeen(cfg, letters, f, optopt)| == 1
  {
    FinishKnown(cfg, letters, f);
    assert FinishText(f) == "" && letters[1..] == "" && f.Plain?;
    assert LettersSeen(cfg, letters[1..], f, LettersSeen(cfg, letters, f, optopt)[0].optopt) == [];
  }

  /** Options, however written, are read back as themselves. */
  lemma OptionRead(cfg: Config, w: seq<Word>, i: nat, item: Item, optopt: int)
    requires Usable(cfg) && item.Cluster? && Writable(cfg, item)
    requires i + |Words(item)| <= |w| && w[i..i + |Words(item)|] == Words(item)
    requires FollowedBy(cfg, item.finish, w[i + |Words(item)|..])
    ensures Prepends(cfg, w, i, "", ItemSeen(cfg, item, optopt), i + |Words(item)|, optopt)
  {
    hide Parse, OptionStep, Prepends, FollowedBy, ClusterWritable, FinishText, FinishWords, ClusterSeen;
    var n, f := |Words(item)|, item.finish;
    var text := item.letters + FinishText(f);
    assert w[i] == w[i..i + n][0] == "-" + item.letters + FinishText(f);
    assert w[i] == "-" + text && w[i][1..] == text && w[i] != "--" && w[i] != "-";
    assert w[i + 1..][..|FinishWords(f)|] == w[i..i + n][1..] == FinishWords(f);
    ClusterRead(cfg, w, i, item.letters, f, optopt);
    EnterWord(cfg, w, i, ItemSeen(cfg, item, optopt), i + n, optopt);
  }

  /** A scan in order reports an operand. */
  lemma OperandReported(cfg: Config, w: seq<Word>, i: nat, word: Word, optopt: int)
    requires cfg.allargs && i < |w| && w[i] == word && IsOperand(word)
    ensures Prepends(cfg, w, i, "", [Seen(1, Some(word), optopt, None, None)], i + 1, optopt)
  {
    hide AtOption, OptionStep;
    var c, rest := Next(cfg, w, i, ""), Parse(cfg, w, i + 1, "");
    assert Skip(cfg, w, i) == i;
    assert c.outcome.Event? && c.next == i + 1 && c.place == "" && c.used == w[i..i + 1] && c.skipped == [];
    SeeSplit(c.outcome.step, rest.events, optopt);
    assert [] + rest.operands == rest.operands;
  }

  /** The run from i reports `items`, then ends at `tail`. */
  ghost predicate ReadsAs(cfg: Config, w: seq<Word>, i: nat, items: seq<Item>, tail: seq<Word>, optopt: int) {
    && (forall k :: 0 <= k < |items| ==> Writable(cfg, items[k]))
    && var p := Parse(cfg, w, i, "");
       && SeeAll(p.events, optopt) == AllSeen(cfg, items, optopt) && p.operands == Operands(cfg, items)
       && p.opts == OptionWords(cfg, items) + Closing(tail)
       && p.how == (if tail == [] || tail[0] == "--" then End else AtOperand)
       && p.stop == i + |AllWords(items)| + |Closing(tail)|
  }

  lemma ListFirst(cfg: Config, item: Item, items: seq<Item>, optopt: int)
    requires forall k :: 0 <= k < |[item] + items| ==> Writable(cfg, ([item] + items)[k])
    ensures Writable(cfg, item) && forall k :: 0 <= k < |items| ==> Writable(cfg, items[k])
    ensures var all := [item] + items;
      && AllWords(all) == Words(item) + AllWords(items)
      && AllSeen(cfg, all, optopt) ==
           ItemSeen(cfg, item, optopt) + AllSeen(cfg, items, After(ItemSeen(cfg, item, optopt), optopt))
      && Operands(cfg, all) ==
           (if PassedOver(cfg, item) then Words(item) + Operands(cfg, items) else Operands(cfg, items))
      && OptionWords(cfg, all) ==
           (if PassedOver(cfg, item) then OptionWords(cfg, items) else Words(item) + OptionWords(cfg, items))
  {
    var all := [item] + items;
    assert all[0] == item && all[1..] == items && forall k :: 0 <= k < |items| ==> items[k] == all[k + 1];
    hide Writable, ItemSeen, Words, PassedOver;
    assert [] + Operands(cfg, items) == Operands(cfg, items) && [] + OptionWords(cfg, items) == OptionWords(cfg, items);
  }

  lemma ReportedFirst(cfg: Config, w: seq<Word>, i: nat, item: Item, items: seq<Item>, tail: seq<Word>, optopt: int)
    requires Writable(cfg, item) && !PassedOver(cfg, item)
    requires i + |Words(item)| <= |w| && w[i..i + |Words(item)|] == Words(item)
    requires Prepends(cfg, w, i, "", ItemSeen(cfg, item, optopt), i + |Words(item)|, optopt)
    requires ReadsAs(cfg, w, i + |Words(item)|, items, tail, After(ItemSeen(cfg, item, optopt), optopt))
    ensures ReadsAs(cfg, w, i, [item] + items, tail, optopt)
  {
    hide Writable, Parse, ItemSeen, AllSeen, Words, AllWords, Operands, OptionWords, PassedOver, Closing;
    ListFirst(cfg, item, items, optopt);
    Regroup(Words(item), OptionWords(cfg, items), Closing(tail));
  }

  lemma PassedFirst(cfg: Config, w: seq<Word>, i: nat, item: Item, items: seq<Item>, tail: seq<Word>, optopt: int)
    requires cfg.permute && PassedOver(cfg, item) && Writable(cfg, item)
    requires i + |Words(item)| <= |w| && w[i..i + |Words(item)|] == Words(item)
    requires ReadsAs(cfg, w, i + |Words(item)|, items, tail, optopt)
    ensures ReadsAs(cfg, w, i, [item] + items, tail, optopt)
  {
    OperandOnly(cfg, item, optopt);
    assert !cfg.allargs && w[i] == w[i..i + 1][0];
    hide Writable, Parse, ItemSeen, AllSeen, IsOperand, Words, AllWords, Operands, OptionWords, PassedOver, Closing;
    ListFirst(cfg, item, items, optopt);
    OperandRead(cfg, w, i);
    assert [] + AllSeen(cfg, items, optopt) == AllSeen(cfg, items, optopt);
  }

  /** The item at the cursor, and what comes after it. */
  lemma ItemFirst(cfg: Config, w: seq<Word>, i: nat, item: Item, items: seq<Item>, tail: seq<Word>, optopt: int)
    requires Usable(cfg) && Writable(cfg, item)
    requires i + |Words(item)| <= |w| && w[i..i + |Words(item)|] == Words(item)
    requires item.Cluster? ==> FollowedBy(cfg, item.finish, w[i + |Words(item)|..])
    requires ReadsAs(cfg, w, i + |Words(item)|, items, tail, After(ItemSeen(cfg, item, optopt), optopt))
    ensures ReadsAs(cfg, w, i, [item] + items, tail, optopt)
  {
    hide ReadsAs, Prepends, FollowedBy, Usable;
    if PassedOver(cfg, item) {
      PassedFirst(cfg, w, i, item, items, tail, optopt);
    } else {
      if item.Operand? {
        assert w[i] == w[i..i + 1][0];
        OperandReported(cfg, w, i, item.word, optopt);
      } else {
        hide Words;
        OptionRead(cfg, w, i, item, optopt);
      }
      ReportedFirst(cfg, w, i, item, items, tail, optopt);
    }
  }

  lemma {:induction false} ReadBack(cfg: Config, w: seq<Word>, i: nat, items: seq<Item>, tail: seq<Word>, optopt: int)
    requires Usable(cfg) && Ending(cfg, tail) && Separated(cfg, items, tail)
    requires forall k :: 0 <= k < |items| ==> Writable(cfg, items[k])
    requires i <= |w| && w[i..] == AllWords(items) + tail
    ensures ReadsAs(cfg, w, i, items, tail, optopt)
    decreases |items|
  {
    hide *;
    if items == [] {
      NoItems(cfg, w, i, tail, optopt);
    } else {
      FirstSeparated(cfg, items, tail);
      SplitWords(items);
      var n := |Words(items[0])|;
      FirstWords(w, i, Words(items[0]), AllWords(items[1..]), tail);
      ReadBack(cfg, w, i + n, items[1..], tail, After(ItemSeen(cfg, items[0], optopt), optopt));
      assert items == [items[0]] + items[1..];
      ItemFirst(cfg, w, i, items[0], items[1..], tail, optopt);
    }
  }

  lemma FirstSeparated(cfg: Config, items: seq<Item>, tail: seq<Word>)
    requires items != [] && Separated(cfg, items, tail)
    ensures Separated(cfg, items[1..], tail)
    ensures items[0].Cluster? ==> FollowedBy(cfg, items[0].finish, AllWords(items[1..]) + tail)
  {
  }

  lemma SplitWords(items: seq<Item>)
    requires items != []
    ensures AllWords(items) == Words(items[0]) + AllWords(items[1..])
  {
  }

  lemma NoItems(cfg: Config, w: seq<Word>, i: nat, tail: seq<Word>, optopt: int)
    requires i <= |w| && w[i..] == AllWords([]) + tail && Ending(cfg, tail)
    ensures ReadsAs(cfg, w, i, [], tail, optopt)
  {
    TailRead(cfg, w, i, tail, optopt);
  }

  lemma FirstWords(w: seq<Word>, i: nat, first: seq<Word>, more: seq<Word>, tail: seq<Word>)
    requires i <= |w| && w[i..] == first + more + tail
    ensures i + |first| <= |w| && w[i..i + |first|] == first && w[i + |first|..] == more + tail
  {
    assert w[i..i + |first|] == w[i..][..|first|];
    assert w[i + |first|..] == w[i..][|first|..];
  }

  lemma OperandOnly(cfg: Config, item: Item, optopt: int)
    requires PassedOver(cfg, item) && Writable(cfg, item)
    ensures IsOperand(item.word) && ItemSeen(cfg, item, optopt) == [] && Words(item) == [item.word]
  {
  }

  lemma TailRead(cfg: Config, w: seq<Word>, i: nat, tail: seq<Word>, optopt: int)
    requires i <= |w| && w[i..] == tail && Ending(cfg, tail)
    ensures var p := Parse(cfg, w, i, "");
      && SeeAll(p.events, optopt) == [] && p.operands == [] && p.opts == Closing(tail)
      && p.how == (if tail == [] || tail[0] == "--" then End else AtOperand) && p.stop == i + |Closing(tail)|
  {
    hide OptionStep;
    SeeNothing(optopt);
    if tail != [] {
      assert w[i] == w[i..][0];
    }
    assert Skip(cfg, w, i) == i;
  }

  /** One more word skipped in front of a call. */
  function Skipping(word: Word, c: Call): Call {
    c.(skipped := [word] + c.skipped)
  }

  lemma OperandNext(cfg: Config, w: seq<Word>, i: nat)
    requires cfg.permute && !cfg.allargs && i < |w| && IsOperand(w[i])
    ensures Next(cfg, w, i, "") == Skipping(w[i], Next(cfg, w, i + 1, ""))
  {
    hide OptionStep, AtOption;
    var j := Skip(cfg, w, i + 1);
    assert Skip(cfg, w, i) == j;
    assert Span(w, i, j) == [w[i]] + Span(w, i + 1, j);
    hide Skip, Span;
    if j < |w| && !IsOperand(w[j]) && w[j] != "--" {
      AtOptionSkips(cfg, w, j, w[j][1..], w[i], Span(w, i + 1, j));
    }
  }

  lemma AtOptionSkips(cfg: Config, w: seq<Word>, j: nat, text: string, word: Word, skipped: seq<Word>)
    requires j < |w| && !IsOperand(w[j]) && text != "" && |text| < |w[j]| && text == w[j][|w[j]| - |text|..]
    ensures AtOption(cfg, w, j, text, [word] + skipped) == Skipping(word, AtOption(cfg, w, j, text, skipped))
  {
    hide OptionStep;
  }

  lemma OperandRead(cfg: Config, w: seq<Word>, i: nat)
    requires cfg.permute && !cfg.allargs && i < |w| && IsOperand(w[i])
    ensures var p, rest := Parse(cfg, w, i, ""), Parse(cfg, w, i + 1, "");
      p == rest.(operands := [w[i]] + rest.operands)
  {
    OperandNext(cfg, w, i);
    hide Next, IsOperand, Parse, Cursor, Ahead, Remaining;
    var c, d := Next(cfg, w, i, ""), Next(cfg, w, i + 1, "");
    ParseFirst(cfg, w, i, c);
    ParseFirst(cfg, w, i + 1, d);
    if d.outcome.Event? {
      Regroup([w[i]], d.skipped, Parse(cfg, w, d.next, d.place).operands);
    }
  }

  /** A run is its first call and the run after it. */
  lemma ParseFirst(cfg: Config, w: seq<Word>, i: nat, c: Call)
    requires c == Next(cfg, w, i, "")
    ensures Cursor(w, c.next, c.place)
    ensures Parse(cfg, w, i, "") ==
      if c.outcome.Event? then
        var rest := Parse(cfg, w, c.next, c.place);
        Parsed([c.outcome.step] + rest.events, c.used + rest.opts, c.skipped + rest.operands, rest.how, rest.stop)
      else Parsed([], c.used, c.skipped, c.outcome, c.next)
  {
    hide Next;
  }

  lemma {:induction false} LastSeen(steps: seq<Step>, optopt: int)
    ensures LastOptopt(steps, optopt) == After(SeeAll(steps, optopt), optopt)
  {
    if steps != [] {
      var first := See(steps[0], optopt);
      LastSeen(steps[1..], first.optopt);
      AfterBoth([first], SeeAll(steps[1..], first.optopt), optopt);
    }
  }

  /** A command line is read back as written, by getopt_long and getopt_long_only,
      whether operands are permuted, reported in order, or end the scan: `name` is
      argv[0], and `tail` is empty, `--` followed by anything, or, in the last case,
      the operands. */
  lemma WrittenIsRead(cfg: Config, name: Word, items: seq<Item>, tail: seq<Word>, optopt: int)
    requires Usable(cfg) && Ending(cfg, tail) && Separated(cfg, items, tail)
    requires forall k :: 0 <= k < |items| ==> Writable(cfg, items[k])
    ensures var w := [name] + AllWords(items) + tail;
      var p := Parse(cfg, w, 1, "");
      && SeeAll(p.events, optopt) == AllSeen(cfg, items, optopt)
      && LastOptopt(p.events, optopt) == After(AllSeen(cfg, items, optopt), optopt)
      && p.opts == OptionWords(cfg, items) + Closing(tail)
      && p.operands == Operands(cfg, items)
      && p.how == (if tail == [] || tail[0] == "--" then End else AtOperand)
      && Drop(w, p.stop) == tail[|Closing(tail)|..]
  {
    hide Parse, Writable, AllSeen, Operands, OptionWords, Separated;
    var w := [name] + AllWords(items) + tail;
    assert w[1..] == AllWords(items) + tail;
    ReadBack(cfg, w, 1, items, tail, optopt);
    LastSeen(Parse(cfg, w, 1, "").events, optopt);
    assert Drop(w, 1 + |AllWords(items)|) == tail;
  }

  /** So the whole of what is read is settled, whatever the words are. */
  lemma EveryLineIsRead(cfg: Config, name: Word, line: seq<Word>, optopt: int)
    requires Usable(cfg) && (cfg.longs.Some? || '-' in cfg.options)
    ensures exists items, tail :: IsLine(cfg, line, items, tail) && ReadsAs(cfg, [name] + line, 1, items, tail, optopt)
  {
    hide Parse, Writable, Separated, Ending, ReadsAs;
    EveryLineIsWritten(cfg, line);
    var items, tail :| IsLine(cfg, line, items, tail);
    assert ([name] + line)[1..] == AllWords(items) + tail;
    ReadBack(cfg, [name] + line, 1, items, tail, optopt);
  }

  // ------------------------------------------------------------ a lone dash

  /** A scan that is to reach the operands can stop short of them, inside a word
      that ends in a dash, exactly when no long options are given and `-` is not
      an option letter. */
  lemma BareDashExactly(cfg: Config)
    requires Usable(cfg)
    ensures (exists w :: Parse(cfg, w, 0, "").how.BareDash?) <==> cfg.longs.None? && '-' !in cfg.options
  {
    if cfg.longs.None? && '-' !in cfg.options {
      DashWitness(cfg);
    }
    forall w | Parse(cfg, w, 0, "").how.BareDash?
      ensures cfg.longs.None? && '-' !in cfg.options
    {
      BareDashNeeds(cfg, w, 0, "");
    }
  }

  lemma DashWitness(cfg: Config)
    requires Usable(cfg) && cfg.longs.None? && '-' !in cfg.options
    ensures Parse(cfg, ["-:-"], 0, "").how.BareDash?
  {
    var w := ["-:-"];
    assert !IsOperand(w[0]) && Skip(cfg, w, 0) == 0 && w[0] != "--";
    assert w[0][1..] == ":-" && ":-"[1..] == "-";
    DashSteps(cfg, w);
    hide OptionStep, Skip;
    var c := Next(cfg, w, 0, "");
    assert c == AtOption(cfg, w, 0, ":-", []);
    assert c.outcome.Event? && c.next == 0 && c.place == "-";
    assert Next(cfg, w, 0, "-").outcome.BareDash?;
  }

  lemma DashSteps(cfg: Config, w: seq<Word>)
    requires cfg.longs.None? && '-' !in cfg.options && |w| == 1
    ensures OptionStep(cfg, w, 0, ":-") == Fail(BADCH, 0, "-", ':' as int)
    ensures OptionStep(cfg, w, 0, "-") == Step(-1, 0, "", None, None, None, None)
  {
    assert ":-"[1..] == "-" && "-"[1..] == "";
  }

  lemma {:induction false} BareDashNeeds(cfg: Config, w: seq<Word>, i: nat, place: string)
    requires Usable(cfg) && Cursor(w, i, place) && Parse(cfg, w, i, place).how.BareDash?
    ensures cfg.longs.None? && '-' !in cfg.options
    decreases |w| - i, Remaining(w, i, place)
  {
    var c := Next(cfg, w, i, place);
    if c.outcome.Event? {
      BareDashNeeds(cfg, w, c.next, c.place);
    } else {
      var j := if place == "" then Skip(cfg, w, i) else i;
      DashStep(cfg, w, j, if place == "" then w[j][1..] else place);
    }
  }

  lemma DashStep(cfg: Config, w: seq<Word>, i: nat, text: string)
    requires Usable(cfg) && i < |w| && text != "" && OptionStep(cfg, w, i, text).ret == -1
    ensures cfg.longs.None? && '-' !in cfg.options
  {
    assert text == "-";
  }
}
