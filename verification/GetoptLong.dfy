/** getopt_long.c as it runs: a vector permuted in place, and statics that live
    from one call to the next. */
module GetoptLong {
  import opened Common
  import opened GetoptSpec
  import PermuteArgs

  /** How far a scan has come: the vector `w` it began on, and the words passed
      since `start`: option words, skipped operands, option words after those. */
  datatype Trail = Trail(w: seq<Word>, start: nat, before: seq<Word>, mid: seq<Word>, after: seq<Word>)

  /** What the statics and the vector stand for between calls. */
  datatype View = View(w: seq<Word>, start: nat, opts: seq<Word>, operands: seq<Word>, optind: nat, place: string)

  ghost function ViewOf(g: Trail, i: nat, place: string): View {
    View(g.w, g.start, g.before + g.after, g.mid, i, place)
  }

  /** The vector as the code keeps it: the skipped operands still stand between
      the two runs of option words, and `ns`, `ne` (nonopt_start, nonopt_end) say where. */
  ghost predicate Fits(argv: seq<Word>, g: Trail, i: nat, ns: int, ne: int) {
    && |argv| == |g.w| && Laid(argv, g, i) && InOrder(g, i) && Marked(g, i, ns, ne)
    && (ne == i ==> i < |g.w| && !IsOperand(g.w[i]))
  }

  ghost predicate Marked(g: Trail, i: nat, ns: int, ne: int) {
    && g.start > 0 && g.start + |g.before| + |g.mid| + |g.after| == i
    && (g.mid == [] ==> ns == ne == -1 && g.after == [])
    && (g.mid != [] ==> ns == g.start + |g.before|)
    && (ne == -1 ==> g.after == [])
    && (ne != -1 ==> g.mid != [] && ne == g.start + |g.before| + |g.mid|)
  }

  /** Option words and operands were met in these two orders. */
  ghost predicate InOrder(g: Trail, i: nat) {
    Ahead(g.w, g.start, i) && Shuffle(g.before + g.after, g.mid, Span(g.w, g.start, i))
  }

  /** In every state the vector is a permutation that keeps both orders and has
      touched nothing outside the words passed. */
  lemma FitsKeepsOrders(argv: seq<Word>, g: Trail, i: nat, ns: int, ne: int)
    requires Fits(argv, g, i, ns, ne)
    ensures Shuffle(g.before + g.after, g.mid, Span(g.w, g.start, i))
    ensures Shuffle(g.before + g.after, g.mid, Span(argv, g.start, i))
    ensures Take(argv, g.start) == Take(g.w, g.start) && Drop(argv, i) == Drop(g.w, i)
    ensures multiset(argv) == multiset(g.w)
  {
    hide Shuffle;
    var was, now := Span(g.w, g.start, i), Span(argv, g.start, i);
    LaidParts(argv, g, i);
    BlocksInterleave(g.before, g.mid, g.after);
    ShuffleIsPermutation(g.before + g.after, g.mid, was);
    ShuffleIsPermutation(g.before + g.after, g.mid, now);
    SpanInMiddle(g.w, g.start, i);
    SpanInMiddle(argv, g.start, i);
  }

  lemma LaidParts(argv: seq<Word>, g: Trail, i: nat)
    requires Laid(argv, g, i) && |argv| == |g.w| && Ahead(g.w, g.start, i)
    requires g.start + |g.before| + |g.mid| + |g.after| == i
    ensures Take(argv, g.start) == Take(g.w, g.start) && Drop(argv, i) == Drop(g.w, i)
    ensures Span(argv, g.start, i) == g.before + g.mid + g.after
  {
  }

  lemma SpanInMiddle(w: seq<Word>, i: nat, next: nat)
    requires Ahead(w, i, next)
    ensures multiset(w) == multiset(Take(w, i)) + multiset(Span(w, i, next)) + multiset(Drop(w, next))
  {
    assert w == Take(w, i) + Span(w, i, next) + Drop(w, next);
  }

  lemma SpanAll(w: seq<Word>, i: nat, next: nat)
    requires Ahead(w, i, next)
    ensures w == Take(w, i) + Span(w, i, next) + Drop(w, next)
  {
  }

  lemma BlocksInterleave(before: seq<Word>, mid: seq<Word>, after: seq<Word>)
    ensures Shuffle(before + after, mid, before + mid + after)
  {
    hide Shuffle;
    ShuffleOfOne(after);
    ShuffleBlocks([], mid, after, [], after);
    assert [] + after == after && mid + [] == mid;
    ShuffleBlocks(before, [], after, mid, mid + after);
    assert [] + mid == mid && [] + before + (mid + after) == before + mid + after;
  }

  /** How the vector lies. */
  ghost predicate Laid(argv: seq<Word>, g: Trail, i: nat) {
    argv == Take(g.w, g.start) + (g.before + (g.mid + (g.after + Drop(g.w, i))))
  }

  lemma FitsFacts(argv: seq<Word>, g: Trail, i: nat, ns: int, ne: int)
    requires Fits(argv, g, i, ns, ne)
    ensures i > 0 && |argv| == |g.w| && Drop(argv, i) == Drop(g.w, i)
    ensures i < |argv| ==> argv[i] == g.w[i]
    ensures i > |g.w| ==> i == g.start && g.before == g.mid == g.after == []
    ensures (ns == -1 <==> g.mid == []) && (ne != -1 ==> ns != -1)
    ensures ne == i ==> i < |g.w| && !IsOperand(g.w[i])
    ensures ne <= i
  {
    if i < |argv| {
      assert argv[i] == Drop(argv, i)[0] && g.w[i] == Drop(g.w, i)[0];
    }
  }

  lemma LaidSkip(argv: seq<Word>, g: Trail, i: nat)
    requires Laid(argv, g, i) && i < |g.w| && g.after == []
    ensures Laid(argv, g.(mid := g.mid + [g.w[i]]), i + 1)
  {
    var rest := Drop(g.w, i + 1);
    assert Drop(g.w, i) == [g.w[i]] + rest;
    hide Take, Drop;
    assert [] + ([g.w[i]] + rest) == [g.w[i]] + rest && [] + rest == rest;
    Regroup(g.mid, [g.w[i]], rest);
  }

  lemma SkipInOrder(g: Trail, i: nat)
    requires InOrder(g, i) && i < |g.w|
    ensures InOrder(g.(mid := g.mid + [g.w[i]]), i + 1)
  {
    hide Shuffle;
    ShuffleGrows(g.before + g.after, g.mid, Span(g.w, g.start, i), [g.w[i]]);
    assert Span(g.w, g.start, i + 1) == Span(g.w, g.start, i) + [g.w[i]];
  }

  lemma FitsSkip(argv: seq<Word>, g: Trail, i: nat, ns: int)
    requires Fits(argv, g, i, ns, -1) && i < |g.w|
    ensures Fits(argv, g.(mid := g.mid + [g.w[i]]), i + 1, if ns == -1 then i else ns, -1)
  {
    hide InOrder, Laid;
    LaidSkip(argv, g, i);
    SkipInOrder(g, i);
  }

  /** Where the three runs of words lie. */
  lemma Blocks(argv: seq<Word>, g: Trail, i: nat)
    requires Laid(argv, g, i) && |argv| == |g.w| && g.start + |g.before| + |g.mid| + |g.after| == i <= |argv|
    ensures var ns, ne := g.start + |g.before|, g.start + |g.before| + |g.mid|;
      && argv[..ns] == Take(g.w, g.start) + g.before && argv[ns..ne] == g.mid && argv[ne..i] == g.after
      && argv[i..] == Drop(g.w, i)
  {
  }

  /** The trail once the later option words have been brought in front of the
      operands. */
  ghost function Merged(g: Trail): (h: Trail)
    ensures h.w == g.w && h.start == g.start && h.mid == g.mid && h.after == []
    ensures |h.before| == |g.before| + |g.after| && h.before + h.after == g.before + g.after
  {
    assert g.before + g.after + [] == g.before + g.after;
    g.(before := g.before + g.after, after := [])
  }

  lemma FitsPermute(argv: seq<Word>, g: Trail, i: nat, ns: int, ne: int)
    requires Fits(argv, g, i, ns, ne) && ne != -1 && ne != i
    ensures 0 <= ns < ne < i <= |argv|
    ensures Fits(PermuteArgs.Exchanged(argv, ns, ne, i), Merged(g), i, i - (ne - ns), -1)
  {
    hide *;
    FitsParts(argv, g, i, ns, ne);
    MarkedMerged(g, i, ns, ne);
    SameOrder(g, Merged(g), i);
    LaidExchanged(argv, g, i);
    FitsWhole(PermuteArgs.Exchanged(argv, ns, ne, i), Merged(g), i, i - (ne - ns));
  }

  lemma FitsParts(argv: seq<Word>, g: Trail, i: nat, ns: int, ne: int)
    requires Fits(argv, g, i, ns, ne)
    ensures |argv| == |g.w| && Laid(argv, g, i) && InOrder(g, i) && Marked(g, i, ns, ne)
    ensures i == g.start || i <= |g.w|
  {
    hide Laid, Marked;
  }

  lemma FitsWhole(argv: seq<Word>, g: Trail, i: nat, ns: int)
    requires |argv| == |g.w| && Laid(argv, g, i) && InOrder(g, i) && Marked(g, i, ns, -1)
    ensures Fits(argv, g, i, ns, -1)
  {
    hide Laid, Marked, InOrder;
  }

  lemma MarkedMerged(g: Trail, i: nat, ns: int, ne: int)
    requires Marked(g, i, ns, ne) && ne != -1 && ne != i
    ensures 0 <= ns == g.start + |g.before| < ne == ns + |g.mid| < i == ne + |g.after|
    ensures Marked(Merged(g), i, i - (ne - ns), -1)
  {
  }

  lemma LaidExchanged(argv: seq<Word>, g: Trail, i: nat)
    requires Laid(argv, g, i) && |argv| == |g.w| && g.start + |g.before| + |g.mid| + |g.after| == i <= |argv|
    ensures Laid(PermuteArgs.Exchanged(argv, g.start + |g.before|, g.start + |g.before| + |g.mid|, i), Merged(g), i)
    ensures |PermuteArgs.Exchanged(argv, g.start + |g.before|, g.start + |g.before| + |g.mid|, i)| == |argv|
  {
    Blocks(argv, g, i);
    var front, rest := Take(g.w, g.start), Drop(g.w, i);
    var t := PermuteArgs.Exchanged(argv, g.start + |g.before|, g.start + |g.before| + |g.mid|, i);
    assert t == ((front + g.before) + g.after) + g.mid + rest;
    hide Take, Drop, PermuteArgs.Exchanged, Laid;
    Regroup(front, g.before, g.after);
    Regroup(front + (g.before + g.after), g.mid, rest);
    Regroup(front, g.before + g.after, g.mid + rest);
    assert [] + rest == rest;
    LaidAs(t, Merged(g), i);
  }

  lemma LaidAs(argv: seq<Word>, g: Trail, i: nat)
    requires argv == Take(g.w, g.start) + (g.before + (g.mid + (g.after + Drop(g.w, i))))
    ensures Laid(argv, g, i)
  {
  }

  lemma SameOrder(g: Trail, h: Trail, i: nat)
    requires InOrder(g, i) && h.w == g.w && h.start == g.start && h.mid == g.mid
    requires h.before + h.after == g.before + g.after
    ensures InOrder(h, i)
  {
    hide Shuffle;
  }

  /** The trail after the words from i to next were used as options. */
  ghost function Used(g: Trail, i: nat, next: nat): Trail
    requires i <= next <= |g.w|
  {
    if g.mid == [] then g.(before := g.before + g.w[i..next]) else g.(after := g.after + g.w[i..next])
  }

  lemma FitsUse(argv: seq<Word>, g: Trail, i: nat, next: nat, ns: int, ne: int)
    requires Fits(argv, g, i, ns, ne) && i <= next <= |g.w| && (ns != -1 ==> ne != -1)
    ensures Fits(argv, Used(g, i, next), next, ns, ne)
    ensures var u := Used(g, i, next);
      u.w == g.w && u.start == g.start && u.mid == g.mid && u.before + u.after == (g.before + g.after) + g.w[i..next]
  {
    hide InOrder, IsOperand, Laid;
    UseInOrder(g, i, next);
    LaidUse(argv, g, i, next);
  }

  lemma LaidUse(argv: seq<Word>, g: Trail, i: nat, next: nat)
    requires Laid(argv, g, i) && i <= next <= |g.w| && (g.mid == [] ==> g.after == [])
    ensures Laid(argv, Used(g, i, next), next)
  {
    var used, rest := g.w[i..next], Drop(g.w, next);
    assert Drop(g.w, i) == used + rest;
    hide Take, Drop;
    if g.mid == [] {
      assert [] + ([] + (used + rest)) == used + rest && [] + ([] + rest) == rest;
      Regroup(g.before, used, rest);
    } else {
      Regroup(g.after, used, rest);
    }
  }

  lemma UseInOrder(g: Trail, i: nat, next: nat)
    requires InOrder(g, i) && i <= next <= |g.w| && (g.mid == [] ==> g.after == [])
    ensures InOrder(Used(g, i, next), next)
    ensures var u := Used(g, i, next); u.before + u.after == (g.before + g.after) + g.w[i..next]
  {
    hide Shuffle;
    ShuffleGrows(g.before + g.after, g.mid, Span(g.w, g.start, i), g.w[i..next]);
    assert Span(g.w, g.start, next) == Span(g.w, g.start, i) + g.w[i..next];
    assert (g.before + g.after) + g.w[i..next] == g.before + (g.after + g.w[i..next]);
    if g.mid == [] {
      assert g.before + g.after == g.before && g.before + g.w[i..next] + g.after == g.before + g.w[i..next];
    }
  }

  lemma FitsOpen(argv: seq<Word>, g: Trail, i: nat, ns: int)
    requires Fits(argv, g, i, ns, -1) && ns != -1 && i < |g.w| && !IsOperand(g.w[i])
    ensures Fits(argv, g, i, ns, i)
  {
  }

  lemma FitsAfresh(argv: seq<Word>, i: nat)
    requires i > 0
    ensures Fits(argv, Trail(argv, i, [], [], []), i, -1, -1)
  {
    assert argv == Take(argv, i) + Drop(argv, i);
    assert [] + ([] + ([] + Drop(argv, i))) == Drop(argv, i);
  }

  /** With the option words in front, the operands start where the next scan begins. */
  lemma FitsFinish(argv: seq<Word>, g: Trail, i: nat, ns: int)
    requires Fits(argv, g, i, ns, -1)
    ensures argv == Take(g.w, g.start) + (g.before + g.after) + g.mid + Drop(g.w, i)
    ensures (if ns == -1 then i else ns) == g.start + |g.before + g.after| > 0
  {
    assert g.before + g.after == g.before && [] + Drop(g.w, i) == Drop(g.w, i);
    hide Take, Drop, InOrder;
    Regroup(g.before, g.mid, Drop(g.w, i));
    Regroup(Take(g.w, g.start), g.before, g.mid + Drop(g.w, i));
    Regroup(Take(g.w, g.start) + g.before, g.mid, Drop(g.w, i));
  }

  /** Reading an option looks at its own word and the next one only, so it does
      not matter that the words before the cursor have been moved. */
  lemma OptionStepIsLocal(cfg: Config, argv: seq<Word>, w: seq<Word>, i: nat, text: string)
    requires i < |argv| == |w| && text != "" && Drop(argv, i) == Drop(w, i)
    ensures OptionStep(cfg, argv, i, text) == OptionStep(cfg, w, i, text)
  {
    ShortStepIsLocal(cfg, argv, w, i, text);
    LongStepIsLocal(cfg, argv, w, i);
    hide LongStep, ShortStep;
  }

  lemma ShortStepIsLocal(cfg: Config, argv: seq<Word>, w: seq<Word>, i: nat, text: string)
    requires i < |argv| == |w| && text != "" && Drop(argv, i) == Drop(w, i)
    ensures ShortStep(cfg, argv, i, text) == ShortStep(cfg, w, i, text)
  {
    hide Find, LongStep;
    LongStepIsLocal(cfg, argv, w, i);
    if i + 1 < |w| {
      assert argv[i + 1] == Drop(argv, i)[1] && w[i + 1] == Drop(w, i)[1];
      assert Drop(argv, i + 1) == Drop(argv, i)[1..] && Drop(w, i + 1) == Drop(w, i)[1..];
      LongStepIsLocal(cfg, argv, w, i + 1);
    }
  }

  lemma LongCases(cfg: Config, w: seq<Word>, i: nat, text: string, shortToo: bool, m: Match)
    requires cfg.longs.Some? && i < |w| && m == Search(cfg.longs.value, Key(text), shortToo, cfg.longOnly)
    ensures m.Found? ==> m.index < |cfg.longs.value|
    ensures LongStep(cfg, w, i, text, shortToo) ==
      if m.Found? then Some(NamedStep(cfg, w, i, m.index, Inline(text)))
      else if m.NoMatch? && shortToo then None else Some(Step(BADCH, i + 1, "", None, Some(0), None, None))
  {
    hide Search, Key, Inline, NamedStep;
  }

  lemma LongStepIsLocal(cfg: Config, argv: seq<Word>, w: seq<Word>, i: nat)
    requires i < |argv| == |w| && Drop(argv, i) == Drop(w, i)
    ensures cfg.longs.Some? ==>
      forall text, shortToo :: LongStep(cfg, argv, i, text, shortToo) == LongStep(cfg, w, i, text, shortToo)
  {
    hide Search, Find, Key, Inline;
    if i + 1 < |w| {
      assert argv[i + 1] == Drop(argv, i)[1] && w[i + 1] == Drop(w, i)[1];
    }
  }

  /** What a call that came to `c` from the state `v` reports and leaves behind. */
  ghost predicate Reports(c: Call, v: View, ret: int, idx: Option<nat>, stored: Option<(nat, int)>,
                          optarg: Option<string>, optopt: int, oldOptopt: int, now: View, argv: seq<Word>)
  {
    var opts, operands := v.opts + c.used, v.operands + c.skipped;
    match c.outcome
    case Event(s) =>
      && ret == s.ret && idx == s.idx && stored == s.stored && optarg == s.optarg
      && optopt == OptoptAfter(s, oldOptopt)
      && now == View(v.w, v.start, opts, operands, c.next, c.place)
    case End =>
      && ret == -1 && idx == None && stored == None && optarg == None && optopt == oldOptopt
      && argv == Take(v.w, v.start) + opts + operands + Drop(v.w, c.next)
      && now == View(argv, v.start + |opts|, [], [], v.start + |opts|, "")
    case _ =>
      && ret == -1 && idx == None && stored == None && optarg == None && optopt == oldOptopt
      && now == View(v.w, v.start, opts, operands, c.next, c.place)
  }

  /** The search loop of `parse_long_options`. */
  method MatchLong(longs: seq<LongOption>, key: string, shortToo: bool, longOnly: bool) returns (m: Match)
    ensures m == Search(longs, key, shortToo, longOnly)
  {
    var best, exactMatch, secondPartialMatch := -1, false, false;
    var i := 0;
    while i < |longs|
      invariant 0 <= i <= |longs| && !exactMatch
      invariant forall k :: 0 <= k < i ==> !IsExact(longs[k], key)
      invariant best == -1 ==> !secondPartialMatch && forall k :: 0 <= k < i ==> !IsPartial(longs[k], key, shortToo)
      invariant best != -1 ==> 0 <= best < i && FirstPartial(longs, key, shortToo, best)
      invariant best >= 0 ==>
        (secondPartialMatch <==> exists k: nat :: k < i && Rival(longs, key, shortToo, longOnly, best, k))
    {
      if key <= longs[i].name {
        if |longs[i].name| == |key| {
          best := i;
          exactMatch := true;
          break;
        }
        if !(shortToo && |key| == 1) {
          if best == -1 {
            best := i;
          } else if longOnly || !SameEffect(longs[i], longs[best]) {
            assert Rival(longs, key, shortToo, longOnly, best, i);
            secondPartialMatch := true;
          }
        }
      }
      i := i + 1;
    }
    m := if !exactMatch && secondPartialMatch then Ambiguous else if best != -1 then Found(best) else NoMatch;
    assert IsMatch(longs, key, shortToo, longOnly, m);
    MatchIsUnique(longs, key, shortToo, longOnly, m, Search(longs, key, shortToo, longOnly));
  }

  /** `optind`, `optopt`, `optarg` and `optreset` are the variables the caller shares;
      `place` is what is left of a cluster of short options, and the skipped operands
      stand in nargv from `nonoptStart` up to `nonoptEnd`, -1 when there are none. */
  class Getopt {
    const nargv: array<Word>
    var optind: nat
    var optopt: int
    var optarg: Option<string>
    var optreset: bool
    var place: string
    var nonoptStart: int
    var nonoptEnd: int

    ghost var trail: Trail

    constructor (argv: array<Word>)
      ensures Valid() && nargv == argv
      ensures ToView() == View(argv[..], 1, [], [], 1, "")
    {
      nargv := argv;
      optind, optopt, optarg, optreset := 1, '?' as int, None, false;
      place, nonoptStart, nonoptEnd := "", -1, -1;
      trail := Trail(argv[..], 1, [], [], []);
      new;
      FitsAfresh(argv[..], 1);
    }

    predicate Restarting()
      reads `optreset, `optind
    {
      optreset || optind == 0
    }

    ghost predicate Scanning()
      reads `trail, `nonoptStart, `nonoptEnd, `optind, `optreset, nargv
    {
      !Restarting() && Fits(nargv[..], trail, optind, nonoptStart, nonoptEnd)
    }

    /** The caller may set `optreset`, or `optind` to 0, to start over; otherwise
        the statics describe the scan so far. */
    ghost predicate Valid()
      reads this, nargv
    {
      !Restarting() ==>
        Scanning() && Cursor(trail.w, optind, place) && (place != "" && nonoptStart != -1 ==> nonoptEnd != -1)
    }

    ghost function ToView(): View
      reads this, nargv
    {
      if Restarting() then
        var i := if optind == 0 then 1 else optind;
        View(nargv[..], i, [], [], i, "")
      else ViewOf(trail, optind, place)
    }

    /** Between any two calls the vector is a permutation of the one scanned, with
        the order of its option words and the order of its operands unchanged. */
    lemma NothingLost()
      requires Valid() && !Restarting()
      ensures var v := ToView();
        && Ahead(v.w, v.start, v.optind) && nargv.Length == |v.w|
        && Shuffle(v.opts, v.operands, Span(v.w, v.start, v.optind))
        && Shuffle(v.opts, v.operands, Span(nargv[..], v.start, v.optind))
        && Take(nargv[..], v.start) == Take(v.w, v.start) && Drop(nargv[..], v.optind) == Drop(v.w, v.optind)
        && multiset(nargv[..]) == multiset(v.w)
    {
      FitsKeepsOrders(nargv[..], trail, optind, nonoptStart, nonoptEnd);
    }

    /** While no operand has been skipped the vector is as it was. */
    lemma NothingMoved()
      requires Valid() && !Restarting() && ToView().operands == []
      ensures nargv[..] == ToView().w
    {
      hide Shuffle;
      ShuffleWithNothing(trail.before + trail.after, Span(trail.w, trail.start, optind));
      SpanAll(trail.w, trail.start, optind);
    }

    /** `parse_long_options`: `place` is the name, and the option's word is at `optind`. */
    method ParseLongOptions(cfg: Config, shortToo: bool)
      returns (ret: int, idx: Option<nat>, stored: Option<(nat, int)>)
      requires cfg.longs.Some? && optind < nargv.Length && optarg.None?
      modifies this`optind, this`optarg, this`optopt
      ensures var s := LongStep(cfg, nargv[..], old(optind), place, shortToo);
        match s
        case None => ret == -1 && idx == None && stored == None && optind == old(optind) && optarg == None
                     && optopt == old(optopt)
        case Some(s) => ret == s.ret && optind == s.optind && optarg == s.optarg && idx == s.idx && stored == s.stored
                        && optopt == OptoptAfter(s, old(optopt))
    {
      var longs := cfg.longs.value;
      optind := optind + 1;
      var hasEqual := Inline(place);
      var key := Key(place);

      var m := MatchLong(longs, key, shortToo, cfg.longOnly);
      LongCases(cfg, nargv[..], optind - 1, place, shortToo, m);
      hide LongStep, Search, Key, Inline, Find, NamedStep, Fail;
      if m.Ambiguous? {
        optopt := 0;
        return BADCH, None, None;
      }
      if m.Found? {
        ret, idx, stored := TakeArgument(cfg, m.index, hasEqual);
      } else {
        if shortToo {
          optind := optind - 1;
          return -1, None, None;
        }
        optopt := 0;
        return BADCH, None, None;
      }
    }

    /** The part of `parse_long_options` behind the search. */
    method TakeArgument(cfg: Config, m: nat, hasEqual: Option<string>)
      returns (ret: int, idx: Option<nat>, stored: Option<(nat, int)>)
      requires cfg.longs.Some? && m < |cfg.longs.value| && 0 < optind <= nargv.Length && optarg.None?
      modifies this`optind, this`optarg, this`optopt
      ensures var s := NamedStep(cfg, nargv[..], old(optind) - 1, m, hasEqual);
        && ret == s.ret && optind == s.optind && optarg == s.optarg && idx == s.idx && stored == s.stored
        && optopt == OptoptAfter(s, old(optopt))
    {
      var o := cfg.longs.value[m];
      if o.hasArg.NoArgument? && hasEqual.Some? {
        optopt := if o.flag == 0 then o.val else 0;
        return BADCH, None, None;
      }
      if o.hasArg.RequiredArgument? || o.hasArg.OptionalArgument? {
        if hasEqual.Some? {
          optarg := hasEqual;
        } else if o.hasArg.RequiredArgument? {
          // the vector ends in NULL
          optarg := if optind < nargv.Length then Some(nargv[optind]) else None;
          optind := optind + 1;
        }
      }
      if o.hasArg.RequiredArgument? && optarg.None? {
        optopt := if o.flag == 0 then o.val else 0;
        optind := optind - 1;
        return BadArg(cfg), None, None;
      }
      idx, stored := Some(m), None;
      if o.flag != 0 {
        stored := Some((o.flag, o.val));
        ret := 0;
      } else {
        ret := o.val;
      }
    }

    /** The short-option part of `getopt_internal`. */
    method ReadShort(cfg: Config) returns (ret: int, idx: Option<nat>, stored: Option<(nat, int)>)
      requires optind < nargv.Length && optarg.None? && place != ""
      modifies this`optind, this`optarg, this`optopt, this`place
      ensures Did(ShortStep(cfg, nargv[..], old(optind), old(place)), ret, idx, stored, old(optopt))
    {
      hide LongStep, LetterStep, Find, BadArg;
      idx, stored := None, None;
      ret := place[0] as int;
      var c := place[0];
      place := place[1..];
      if c == ':' || (c == '-' && place != "") || c !in cfg.options {
        if c == '-' && place == "" {
          return -1, None, None;
        }
        if place == "" {
          optind := optind + 1;
        }
        optopt := c as int;
        return BADCH, None, None;
      }
      var oli := Find(cfg.options, c).value;
      if cfg.longs.Some? && c == 'W' && CharAt(cfg.options, oli + 1) == ';' {
        if place == "" {
          optind := optind + 1;
          if optind >= nargv.Length {
            optopt := c as int;
            return BadArg(cfg), None, None;
          }
          place := nargv[optind];
        }
        ret, idx, stored := ParseLongOptions(cfg, false);
        place := "";
        return;
      }
      ret := ReadLetter(cfg, c, oli);
    }

    /** A letter of the option string, which stands there at `oli0`. */
    method ReadLetter(cfg: Config, c: char, oli0: nat) returns (ret: int)
      requires c in cfg.options && oli0 == Find(cfg.options, c).value && optind < nargv.Length && optarg.None?
      modifies this`optind, this`optarg, this`optopt, this`place
      ensures Did(LetterStep(cfg, nargv[..], old(optind), c, old(place)), ret, None, None, old(optopt))
    {
      hide Find, BadArg;
      ret := c as int;
      var oli := oli0 + 1;
      if CharAt(cfg.options, oli) != ':' {
        if place == "" {
          optind := optind + 1;
        }
      } else {
        optarg := None;
        if place != "" {
          optarg := Some(place);
        } else if CharAt(cfg.options, oli + 1) != ':' {
          optind := optind + 1;
          if optind >= nargv.Length {
            optopt := c as int;
            return BadArg(cfg);
          }
          optarg := Some(nargv[optind]);
        } else if !cfg.permute {
          if optind + 1 < nargv.Length && CharAt(nargv[optind + 1], 0) != '-' {
            optind := optind + 1;
            optarg := Some(nargv[optind]);
          }
        }
        place := "";
        optind := optind + 1;
      }
    }

    /** The tail of `getopt_internal`: read one option from the word at `optind`,
        of which `place` is the part still unread. */
    method ReadOption(cfg: Config) returns (ret: int, idx: Option<nat>, stored: Option<(nat, int)>)
      requires Usable(cfg) && optind < nargv.Length && optarg.None?
      requires place != "" && |place| < |nargv[optind]|
      modifies this`optind, this`optarg, this`optopt, this`place
      ensures Did(OptionStep(cfg, nargv[..], old(optind), old(place)), ret, idx, stored, old(optopt))
    {
      hide LongStep, ShortStep;
      ghost var text := place;
      if cfg.longs.Some? && |place| != |nargv[optind]| && (place[0] == '-' || cfg.longOnly) {
        var shortToo := false;
        if place[0] == '-' {
          place := place[1..];
        } else if place[0] != ':' && place[0] in cfg.options {
          shortToo := true;
        }
        ret, idx, stored := ParseLongOptions(cfg, shortToo);
        if ret != -1 {
          place := "";
          return;
        }
        assert place == text;
      }
      ret, idx, stored := ReadShort(cfg);
    }

    /** The statics hold what step `s` says. */
    predicate Did(s: Step, ret: int, idx: Option<nat>, stored: Option<(nat, int)>, oldOptopt: int)
      reads this
    {
      && ret == s.ret && optind == s.optind && place == s.place && optarg == s.optarg
      && idx == s.idx && stored == s.stored
      && optopt == OptoptAfter(s, oldOptopt)
    }

    /** Exchange the skipped operands with the option words that followed them. */
    method PermuteSkipped()
      requires Scanning() && nonoptEnd != -1 && nonoptEnd != optind
      modifies nargv, `trail
      ensures trail == Merged(old(trail))
      ensures Fits(nargv[..], trail, optind, optind - (nonoptEnd - nonoptStart), -1)
    {
      hide Fits;
      FitsPermute(nargv[..], trail, optind, nonoptStart, nonoptEnd);
      PermuteArgs.Permute(nonoptStart, nonoptEnd, optind, nargv);
      trail := Merged(trail);
    }

    /** The end of the vector, or `--` just passed: bring the operands behind the
        option words and set the cursor on the first of them. */
    method Finish()
      requires Scanning() && place == "" && nonoptEnd != optind
      modifies this, nargv
      ensures Valid() && !Restarting() && optarg == old(optarg) && optopt == old(optopt)
      ensures var g := old(trail); var i := g.start + |g.before + g.after|;
        && nargv[..] == Take(g.w, g.start) + (g.before + g.after) + g.mid + Drop(g.w, old(optind))
        && ToView() == View(nargv[..], i, [], [], i, "")
    {
      hide Fits, Take, Drop;
      ghost var g, i := trail, optind;
      FitsFacts(nargv[..], trail, optind, nonoptStart, nonoptEnd);
      if nonoptEnd != -1 {
        PermuteSkipped();
        FitsFacts(nargv[..], trail, optind, optind - (nonoptEnd - nonoptStart), -1);
        FitsFinish(nargv[..], trail, optind, optind - (nonoptEnd - nonoptStart));
        optind := optind - (nonoptEnd - nonoptStart);
      } else {
        FitsFinish(nargv[..], trail, i, nonoptStart);
        if nonoptStart != -1 {
          optind := nonoptStart;
        }
      }
      nonoptStart, nonoptEnd := -1, -1;
      FitsAfresh(nargv[..], optind);
      trail := Trail(nargv[..], optind, [], [], []);
    }

    /** Skip the operand under the cursor.  Operands met earlier are first brought
        behind the option words that separate them from this one. */
    method SkipOperand()
      requires Scanning() && optind < |trail.w| && IsOperand(trail.w[optind])
      modifies nargv, `nonoptStart, `nonoptEnd, `optind, `trail
      ensures Scanning() && optind == old(optind) + 1
      ensures Passed(old(trail), trail) && trail.mid == old(trail.mid) + [old(trail).w[old(optind)]]
    {
      hide Fits;
      FitsFacts(nargv[..], trail, optind, nonoptStart, nonoptEnd);
      if nonoptStart == -1 {
        FitsSkip(nargv[..], trail, optind, nonoptStart);
        nonoptStart := optind;
      } else if nonoptEnd != -1 {
        PermuteSkipped();
        nonoptStart := optind - (nonoptEnd - nonoptStart);
        nonoptEnd := -1;
        FitsFacts(nargv[..], trail, optind, nonoptStart, nonoptEnd);
        FitsSkip(nargv[..], trail, optind, nonoptStart);
      } else {
        FitsSkip(nargv[..], trail, optind, nonoptStart);
      }
      trail := trail.(mid := trail.mid + [trail.w[optind]]);
      optind := optind + 1;
    }

    /** Same scan, same option words. */
    static ghost predicate Passed(g: Trail, h: Trail) {
      g.w == h.w && g.start == h.start && g.before + g.after == h.before + h.after
    }

    /** The `goto start` loop of `getopt_internal`: with `place` used up, skip
        operands when they are to be permuted. */
    method SkipOperands(cfg: Config)
      requires Scanning()
      modifies nargv, `nonoptStart, `nonoptEnd, `optind, `trail
      ensures Scanning() && Passed(old(trail), trail)
      ensures optind == Skip(cfg, trail.w, old(optind))
      ensures trail.mid == old(trail.mid) + Span(trail.w, old(optind), optind)
    {
      hide Fits, IsOperand, Skip, Span;
      ghost var i0, g := optind, trail;
      FitsFacts(nargv[..], trail, optind, nonoptStart, nonoptEnd);
      assert g.mid + [] == g.mid;
      EmptySpan(g.w, optind);
      while optind < nargv.Length && cfg.permute && !cfg.allargs && IsOperand(nargv[optind])
        invariant Scanning() && Passed(g, trail)
        invariant Ahead(g.w, i0, optind) && trail.mid == g.mid + Span(g.w, i0, optind)
        invariant Skip(cfg, g.w, i0) == Skip(cfg, g.w, optind)
        invariant nargv.Length == |g.w| && (optind < |g.w| ==> nargv[optind] == g.w[optind])
        decreases nargv.Length - optind
      {
        SkipOne(cfg, g.w, i0, optind);
        SkipOperand();
        FitsFacts(nargv[..], trail, optind, nonoptStart, nonoptEnd);
      }
    }

    /** The head of `getopt_internal`: move on to the next option word; `ret` is set
        when the call ends before reading one. */
    method NextWord(cfg: Config) returns (ret: Option<int>)
      requires Scanning() && place == "" && optarg.None?
      requires cfg.allargs ==> trail.mid == []
      modifies this, nargv
      ensures ret.None? ==>
        var g := old(trail);
        var j := Skip(cfg, g.w, old(optind));
        && Scanning() && optind == j < |g.w| && place == g.w[j] && !IsOperand(place)
        && Passed(g, trail) && trail.mid == g.mid + Span(g.w, old(optind), j)
        && optarg.None? && optopt == old(optopt)
      ensures ret.Some? ==>
        var v := old(ViewOf(trail, optind, ""));
        && Valid() && !Restarting()
        && Reports(Next(cfg, v.w, v.optind, ""), v, ret.value, None, None, optarg, optopt, old(optopt),
                   ToView(), nargv[..])
    {
      hide OptionStep, AtOption, Fits, Take, Drop;
      SkipOperands(cfg);
      FitsFacts(nargv[..], trail, optind, nonoptStart, nonoptEnd);
      if optind >= nargv.Length {
        Finish();
        return Some(-1);
      }
      place := nargv[optind];
      if IsOperand(place) {
        var code := OperandHere(cfg);
        return Some(code);
      }
      return None;
    }

    /** Step into the next option word, behind its dash, unless it ends the options;
        the operands skipped before it end where it begins. */
    method EnterWord(cfg: Config) returns (ret: Option<int>)
      requires Scanning() && place == "" && optarg.None?
      requires cfg.allargs ==> trail.mid == []
      modifies this, nargv
      ensures ret.None? ==>
        var g := old(trail);
        var j := Skip(cfg, g.w, old(optind));
        && Scanning() && optind == j < |g.w| && !IsOperand(g.w[j]) && g.w[j] != "--" && place == g.w[j][1..]
        && Passed(g, trail) && trail.mid == g.mid + Span(g.w, old(optind), j)
        && (nonoptStart != -1 ==> nonoptEnd != -1)
        && optarg.None? && optopt == old(optopt)
      ensures ret.Some? ==>
        var v := old(ViewOf(trail, optind, ""));
        && Valid() && !Restarting()
        && Reports(Next(cfg, v.w, v.optind, ""), v, ret.value, None, None, optarg, optopt, old(optopt),
                   ToView(), nargv[..])
    {
      hide OptionStep, AtOption, Fits, Take, Drop, Skip;
      ret := NextWord(cfg);
      if ret.Some? {
        return;
      }
      if nonoptStart != -1 && nonoptEnd == -1 {
        FitsFacts(nargv[..], trail, optind, nonoptStart, nonoptEnd);
        FitsOpen(nargv[..], trail, optind, nonoptStart);
        nonoptEnd := optind;
      }
      place := place[1..];
      if place == "-" {
        EndOfOptions();
        return Some(-1);
      }
    }

    /** An operand that is not to be permuted: return it as the argument of option
        1 when reading in order, else stop there. */
    method OperandHere(cfg: Config) returns (ret: int)
      requires Scanning() && optarg.None? && optind < |trail.w| && IsOperand(trail.w[optind])
      requires !(cfg.permute && !cfg.allargs) && (cfg.allargs ==> trail.mid == [])
      modifies this
      ensures Valid() && !Restarting()
      ensures var v := old(ViewOf(trail, optind, ""));
        Reports(Next(cfg, v.w, v.optind, ""), v, ret, None, None, optarg, optopt, old(optopt), ToView(), nargv[..])
    {
      hide AtOption, Fits, Take, Drop;
      FitsFacts(nargv[..], trail, optind, nonoptStart, nonoptEnd);
      place := "";
      if cfg.allargs {
        FitsUse(nargv[..], trail, optind, optind + 1, nonoptStart, nonoptEnd);
        trail := Used(trail, optind, optind + 1);
        optarg := Some(nargv[optind]);
        optind := optind + 1;
        return INORDER;
      }
      return -1;
    }

    /** One option is read at the cursor, which stands in an option word. */
    method OptionHere(cfg: Config, ghost v: View, ghost skipped: seq<Word>)
      returns (ret: int, idx: Option<nat>, stored: Option<(nat, int)>)
      requires Usable(cfg) && optarg.None? && place != "" && (nonoptStart != -1 ==> nonoptEnd != -1)
      requires Scanning() && Cursor(trail.w, optind, place)
      requires v.w == trail.w && v.start == trail.start && v.opts == trail.before + trail.after
      requires v.operands + skipped == trail.mid
      modifies this, nargv
      ensures Valid() && !Restarting()
      ensures old(optind) < |v.w| && !IsOperand(v.w[old(optind)]) && Cursor(v.w, old(optind), old(place))
      ensures Reports(AtOption(cfg, v.w, old(optind), old(place), skipped), v, ret, idx, stored, optarg, optopt,
                      old(optopt), ToView(), nargv[..])
    {
      hide Fits, OptionStep, IsOperand, Drop;
      FitsFacts(nargv[..], trail, optind, nonoptStart, nonoptEnd);
      OptionStepIsLocal(cfg, nargv[..], trail.w, optind, place);
      ghost var i0, c := optind, AtOption(cfg, trail.w, optind, place, skipped);
      ret, idx, stored := ReadOption(cfg);
      FitsUse(nargv[..], trail, i0, optind, nonoptStart, nonoptEnd);
      trail := Used(trail, i0, optind);
    }

    /** `--` under the cursor ends the options. */
    method EndOfOptions()
      requires Scanning() && optind < |trail.w| && trail.w[optind] == "--"
      requires nonoptStart != -1 ==> nonoptEnd != -1
      modifies this, nargv
      ensures Valid() && !Restarting() && optarg == old(optarg) && optopt == old(optopt)
      ensures var g := old(trail); var opts := g.before + g.after + ["--"];
        && nargv[..] == Take(g.w, g.start) + opts + g.mid + Drop(g.w, old(optind) + 1)
        && ToView() == View(nargv[..], g.start + |opts|, [], [], g.start + |opts|, "")
    {
      hide Fits, Take, Drop;
      FitsFacts(nargv[..], trail, optind, nonoptStart, nonoptEnd);
      FitsUse(nargv[..], trail, optind, optind + 1, nonoptStart, nonoptEnd);
      trail := Used(trail, optind, optind + 1);
      optind := optind + 1;
      place := "";
      Finish();
    }

    /** Start over when the caller has asked for it. */
    method Restart()
      requires Valid()
      modifies this
      ensures Valid() && !Restarting() && ToView() == old(ToView())
      ensures optarg == old(optarg) && optopt == old(optopt)
    {
      hide Fits;
      if optind == 0 {
        optind := 1;
        optreset := true;
      }
      if optreset {
        nonoptStart, nonoptEnd := -1, -1;
        place := "";
        optreset := false;
        FitsAfresh(nargv[..], optind);
        trail := Trail(nargv[..], optind, [], [], []);
      }
    }

    /** `getopt_internal`: one call.  A vector read in order ('-' prefix) must not
        have had operands skipped by earlier calls made with other options. */
    method GetoptInternal(options: string, longs: Option<seq<LongOption>>, permute: bool, longOnly: bool,
                          posixlyCorrect: bool)
      returns (ret: int, idx: Option<nat>, stored: Option<(nat, int)>)
      requires Valid() && Usable(Configure(options, longs, permute, longOnly, posixlyCorrect))
      requires Configure(options, longs, permute, longOnly, posixlyCorrect).allargs ==> ToView().operands == []
      modifies this, nargv
      ensures Valid() && !Restarting()
      ensures var cfg, v := Configure(options, longs, permute, longOnly, posixlyCorrect), old(ToView());
        && Cursor(v.w, v.optind, v.place)
        && Reports(Next(cfg, v.w, v.optind, v.place), v, ret, idx, stored, optarg, optopt, old(optopt),
                   ToView(), nargv[..])
    {
      var cfg := Configure(options, longs, permute, longOnly, posixlyCorrect);
      hide Configure, OptionStep, AtOption, Take, Drop, Skip, Fits;
      Restart();
      ghost var v, skipped: seq<Word> := ToView(), [];
      optarg := None;
      idx, stored := None, None;
      if place == "" {
        var ended := EnterWord(cfg);
        if ended.Some? {
          return ended.value, None, None;
        }
        skipped := Span(v.w, v.optind, optind);
      }
      ret, idx, stored := OptionHere(cfg, v, skipped);
    }
  }

  // -------------------------------------------------------------- whole runs

  /** Where a run stands: the whole parse is what has been seen and passed, then
      the parse from the cursor. */
  ghost predicate Midway(cfg: Config, whole: Parsed, steps: seq<Step>, v: View) {
    && Cursor(v.w, v.optind, v.place)
    && var rest := Parse(cfg, v.w, v.optind, v.place);
       && whole == Parsed(steps + rest.events, v.opts + rest.opts, v.operands + rest.operands, rest.how, rest.stop)
  }

  lemma MidwayNext(cfg: Config, whole: Parsed, steps: seq<Step>, v: View)
    requires Midway(cfg, whole, steps, v)
    ensures var c := Next(cfg, v.w, v.optind, v.place);
      var now := View(v.w, v.start, v.opts + c.used, v.operands + c.skipped, c.next, c.place);
      if c.outcome.Event? then Midway(cfg, whole, steps + [c.outcome.step], now)
      else whole == Parsed(steps, now.opts, now.operands, c.outcome, c.next)
  {
    hide Next;
    var c := Next(cfg, v.w, v.optind, v.place);
    if c.outcome.Event? {
      var rest := Parse(cfg, v.w, c.next, c.place);
      assert steps + ([c.outcome.step] + rest.events) == (steps + [c.outcome.step]) + rest.events;
      assert v.opts + (c.used + rest.opts) == (v.opts + c.used) + rest.opts;
      assert v.operands + (c.skipped + rest.operands) == (v.operands + c.skipped) + rest.operands;
    } else {
      assert steps + [] == steps;
    }
  }

  /** The customary loop: call until -1.  However the vector is permuted on the way,
      the options reported are those of the scanner that permutes nothing, and when
      the options end exactly the operands lie from `optind` on, in their order. */
  method Run(g: Getopt, options: string, longs: Option<seq<LongOption>>, permute: bool, longOnly: bool,
             posixlyCorrect: bool)
    returns (events: seq<Seen>)
    requires g.Valid() && Usable(Configure(options, longs, permute, longOnly, posixlyCorrect))
    requires g.ToView().opts == [] && g.ToView().operands == [] && g.ToView().place == ""
    modifies g, g.nargv
    ensures g.Valid() && !g.Restarting()
    ensures var cfg, v := Configure(options, longs, permute, longOnly, posixlyCorrect), old(g.ToView());
      var p := Parse(cfg, v.w, v.optind, "");
      && events == SeeAll(p.events, old(g.optopt)) && g.optopt == LastOptopt(p.events, old(g.optopt))
      && g.ToView() == (if p.how.End?
           then View(g.nargv[..], v.start + |p.opts|, [], [], v.start + |p.opts|, "")
           else View(v.w, v.start, p.opts, p.operands, p.stop, g.place))
      && (p.how.End? ==> g.nargv[..] == Take(v.w, v.start) + p.opts + p.operands + Drop(v.w, p.stop))
  {
    var cfg := Configure(options, longs, permute, longOnly, posixlyCorrect);
    hide Configure, Next, SeeAll, LastOptopt, Cursor, Remaining, Take, Drop, Usable;
    ghost var v, steps: seq<Step> := g.ToView(), [];
    Beginning(cfg, v);
    ghost var whole := Parse(cfg, v.w, v.optind, v.place);
    events := [];
    SeeNothing(old(g.optopt));
    while true
      invariant g.Valid() && events == SeeAll(steps, old(g.optopt)) && g.optopt == LastOptopt(steps, old(g.optopt))
      invariant Midway(cfg, whole, steps, g.ToView())
      invariant g.ToView().w == v.w && g.ToView().start == v.start
      invariant cfg.allargs ==> g.ToView().operands == []
      decreases |v.w| - g.ToView().optind, Remaining(v.w, g.ToView().optind, g.ToView().place)
    {
      ghost var now := g.ToView();
      MidwayNext(cfg, whole, steps, now);
      NextMoves(cfg, now.w, now.optind, now.place);
      var ret, idx, stored := g.GetoptInternal(options, longs, permute, longOnly, posixlyCorrect);
      ghost var c := Next(cfg, now.w, now.optind, now.place);
      if ret == -1 {
        return;
      }
      SeeOneMore(steps, c.outcome.step, old(g.optopt));
      events := events + [Seen(ret, g.optarg, g.optopt, idx, stored)];
      steps := steps + [c.outcome.step];
    }
  }

  lemma Beginning(cfg: Config, v: View)
    requires v.place == "" && v.opts == [] && v.operands == []
    ensures Cursor(v.w, v.optind, v.place) && Midway(cfg, Parse(cfg, v.w, v.optind, v.place), [], v)
  {
    hide Parse;
    var whole := Parse(cfg, v.w, v.optind, v.place);
    assert [] + whole.events == whole.events && [] + whole.opts == whole.opts && [] + whole.operands == whole.operands;
  }

  lemma NextMoves(cfg: Config, w: seq<Word>, i: nat, place: string)
    requires Cursor(w, i, place) && Usable(cfg)
    ensures var c := Next(cfg, w, i, place);
      && (c.outcome.Event? ==> c.outcome.step.ret != -1)
      && c.next >= i && (c.outcome.Event? && c.next == i ==> Remaining(w, c.next, c.place) < Remaining(w, i, place))
      && (cfg.allargs ==> c.skipped == [])
  {
  }
}
