/** getopt.c: _getopt_internal as a resumable scanner over an array that it permutes in place.
    The ghost fields name the blocks of ARGV between two calls. */
module Getopt {
  import opened Basics
  import opened GetoptSpec
  import opened GetoptRuns
  import opened Exchange
  import Spelling = GetoptSpelling

  datatype Ordering = REQUIRE_ORDER | PERMUTE | RETURN_IN_ORDER

  // ---------------------------------------------------------------- searching

  lemma {:induction false} IndexAt(s: string, c: char, i: nat)
    requires i < |s| && s[i] == c && c !in s[..i]
    ensures Index(s, c) == Some(i)
  {
    if i > 0 {
      assert s[0] in s[..i] && s[1..][..i - 1] == s[..i][1..];
      IndexAt(s[1..], c, i - 1);
    }
  }

  method MyIndex(s: string, c: char) returns (r: Option<nat>)
    ensures r == Index(s, c)
  {
    for i := 0 to |s|
      invariant c !in s[..i]
    {
      if s[i] == c {
        IndexAt(s, c, i);
        return Some(i);
      }
    }
    return None;
  }

  method FindNameEnd(text: string) returns (e: nat)
    ensures e == NameEnd(text)
  {
    e := 0;
    while e < |text| && text[e] != '='
      invariant e <= |text| && '=' !in text[..e]
    {
      e := e + 1;
    }
    if e < |text| { IndexAt(text, '=', e); }
  }

  lemma {:induction false} ExactAt(ls: seq<LongOpt>, i: nat, key: string)
    requires i < |ls| && FirstExact(ls[..i], key).None? && Exact(ls[i], key)
    ensures FirstExact(ls, key) == Some(i)
  {
    var front := ls[..|ls| - 1];
    if i < |front| {
      assert front[..i] == ls[..i];
      ExactAt(front, i, key);
    } else {
      assert front == ls[..i];
    }
  }

  /** What the table loop knows after ls: the first match, and whether there was another. */
  ghost predicate Scanned(ls: seq<LongOpt>, key: string, pfound: Option<nat>, ambig: bool) {
    && FirstExact(ls, key).None?
    && pfound == FirstPrefix(ls, key)
    && ambig == (Abbreviated(ls, key) >= 2)
  }

  lemma {:induction false} NoneIffZero(ls: seq<LongOpt>, key: string)
    ensures FirstPrefix(ls, key).None? <==> Abbreviated(ls, key) == 0
  {
    if ls != [] { NoneIffZero(ls[..|ls| - 1], key); }
  }

  lemma ScannedOn(ls: seq<LongOpt>, l: LongOpt, key: string, pfound: Option<nat>, ambig: bool)
    requires Scanned(ls, key, pfound, ambig) && !Exact(l, key)
    ensures if !Abbreviates(l, key) then Scanned(ls + [l], key, pfound, ambig)
            else if pfound.None? then Scanned(ls + [l], key, Some(|ls|), ambig)
            else Scanned(ls + [l], key, pfound, true)
  {
    NoneIffZero(ls, key);
    var more := ls + [l];
    assert more[..|more| - 1] == ls && more[|more| - 1] == l;
  }

  lemma ScannedAll(ls: seq<LongOpt>, key: string, pfound: Option<nat>, ambig: bool)
    requires Scanned(ls, key, pfound, ambig)
    ensures Search(ls, key) == if ambig then Ambiguous else if pfound.Some? then Found(pfound.value) else Unknown
  {
  }

  lemma SearchExact(ls: seq<LongOpt>, i: nat, key: string, pfound: Option<nat>, ambig: bool)
    requires i < |ls| && Scanned(ls[..i], key, pfound, ambig) && Exact(ls[i], key)
    ensures Search(ls, key) == Found(i)
  {
    ExactAt(ls, i, key);
  }

  /** The loop over the table: the first exact match ends it, otherwise abbreviations are noted. */
  method SearchTable(ls: seq<LongOpt>, key: string) returns (m: Match)
    ensures m == Search(ls, key)
  {
    var pfound: Option<nat>, ambig := None, false;
    var i := 0;
    assert Scanned(ls[..i], key, pfound, ambig);
    while i < |ls|
      invariant i <= |ls| && Scanned(ls[..i], key, pfound, ambig)
    {
      hide FirstPrefix, Abbreviated, Search;
      if |key| <= |ls[i].name| && ls[i].name[..|key|] == key {
        if |key| == |ls[i].name| {
          SearchExact(ls, i, key, pfound, ambig);
          return Found(i);
        }
        ScannedOn(ls[..i], ls[i], key, pfound, ambig);
        if pfound.None? {
          pfound := Some(i);
        } else {
          ambig := true;
        }
      } else {
        ScannedOn(ls[..i], ls[i], key, pfound, ambig);
      }
      assert ls[..i + 1] == ls[..i] + [ls[i]];
      i := i + 1;
    }
    assert ls[..i] == ls;
    ScannedAll(ls, key, pfound, ambig);
    return if ambig then Ambiguous else if pfound.Some? then Found(pfound.value) else Unknown;
  }

  // ---------------------------------------------------------------- the scanner

  /** What the scanner will do from here, block by block. */
  datatype View = View(done: seq<string>, skipped: seq<string>, recent: seq<string>, rest: seq<string>,
                       text: string, ordering: Ordering, cfg: Config)

  ghost predicate Sensible(v: View) {
    && Usable(v.cfg) && Scanning(v.rest, v.text)
    && (v.ordering != PERMUTE ==> v.skipped == [])
  }

  ghost function RunFrom(cfg: Config, rest: seq<string>, text: string, ordering: Ordering): Run
    requires Usable(cfg) && Scanning(rest, text)
  {
    match ordering
    case PERMUTE => Permute(cfg, rest, text)
    case REQUIRE_ORDER => InOrder(cfg, rest, text)
    case RETURN_IN_ORDER => HandOver(cfg, rest, text)
  }

  /** The rest of the run as the specification sees it, with the blocks already formed. */
  ghost function Outlook(v: View): Run
    requires Sensible(v)
  {
    var r := RunFrom(v.cfg, v.rest, v.text, v.ordering);
    r.(opts := v.done + v.recent + r.opts, nonopts := v.skipped + r.nonopts)
  }

  lemma OutlookAtEnd(v: View)
    requires Sensible(v) && v.text == "" && v.rest == []
    ensures Outlook(v) == Run([], v.done + v.recent, v.skipped, false, false, false)
  {
    assert v.done + v.recent + [] == v.done + v.recent && v.skipped + [] == v.skipped;
  }

  lemma OutlookAtDashes(v: View)
    requires Sensible(v) && v.text == "" && |v.rest| > 0 && v.rest[0] == "--"
    ensures Outlook(v) == Run([], v.done + v.recent + ["--"], v.skipped + v.rest[1..], true, false, false)
  {
  }

  lemma OutlookAtStop(v: View)
    requires Sensible(v) && v.ordering == REQUIRE_ORDER && v.text == "" && |v.rest| > 0 && NonOption(v.rest[0])
    ensures Outlook(v) == Run([], v.done + v.recent, v.rest, false, false, false)
  {
    assert v.done + v.recent + [] == v.done + v.recent && v.skipped + v.rest == v.rest;
  }

  lemma OutlookPastNonOption(v: View)
    requires Sensible(v) && v.ordering == PERMUTE && v.text == "" && |v.rest| > 0 && NonOption(v.rest[0])
    ensures Outlook(v.(skipped := v.skipped + [v.rest[0]], rest := v.rest[1..])) == Outlook(v)
  {
    var r := Permute(v.cfg, v.rest[1..], "");
    assert v.skipped + ([v.rest[0]] + r.nonopts) == v.skipped + [v.rest[0]] + r.nonopts;
  }

  lemma OutlookBegins(v: View)
    requires Sensible(v) && v.text == "" && |v.rest| > 0 && IsOption(v.rest[0])
    ensures Outlook(v.(text := Begin(v.cfg, v.rest[0]))) == Outlook(v)
  {
    hide Decode;
  }

  lemma OutlookHandedOver(v: View)
    requires Sensible(v) && v.ordering == RETURN_IN_ORDER && v.text == "" && |v.rest| > 0 && NonOption(v.rest[0])
    ensures Follows(Outlook(v), Result(1, Some(v.rest[0]), None, None),
                    Outlook(v.(recent := v.recent + [v.rest[0]], rest := v.rest[1..])))
  {
    var r := HandOver(v.cfg, v.rest[1..], "");
    assert v.done + v.recent + ([v.rest[0]] + r.opts) == v.done + (v.recent + [v.rest[0]]) + r.opts;
  }

  /** o is what was foreseen before a call that reported r, o' what is foreseen after it. */
  ghost predicate Follows(o: Run, r: Result, o': Run) {
    && o.results == [r] + o'.results && o.opts == o'.opts && o.nonopts == o'.nonopts
    && o.dashed == o'.dashed && o.overrun == o'.overrun
  }

  /** Less is left to scan: fewer elements, or less of the current one. */
  ghost predicate Shorter(v': View, v: View) {
    || |v'.rest| < |v.rest|
    || (|v'.rest| == |v.rest| && Size(v'.rest, v'.text) < Size(v.rest, v.text))
  }

  ghost function AfterCall(v: View, d: Decoded): View
    requires d.adv <= |v.rest|
  {
    v.(recent := v.recent + v.rest[..d.adv], rest := v.rest[d.adv..], text := d.nextchar)
  }

  lemma OutlookDecode(v: View)
    requires Sensible(v) && v.text != ""
    ensures var d, o := Decode(v.cfg, v.rest, v.text), Outlook(v);
      if d.adv > |v.rest| then o.overrun && o.results == [d.result]
      else Sensible(AfterCall(v, d)) && Follows(o, d.result, Outlook(AfterCall(v, d)))
  {
    hide Decode;
    DecodeProgress(v.cfg, v.rest, v.text);
    var d := Decode(v.cfg, v.rest, v.text);
    match v.ordering {
      case PERMUTE => assert Permute(v.cfg, v.rest, v.text) == PermuteOption(v.cfg, v.rest, v.text);
      case REQUIRE_ORDER => assert InOrder(v.cfg, v.rest, v.text) == InOrderOption(v.cfg, v.rest, v.text);
      case RETURN_IN_ORDER => assert HandOver(v.cfg, v.rest, v.text) == HandOverOption(v.cfg, v.rest, v.text);
    }
    if d.adv <= |v.rest| {
      var r := RunFrom(v.cfg, v.rest[d.adv..], d.nextchar, v.ordering);
      assert v.done + v.recent + (v.rest[..d.adv] + r.opts) == v.done + (v.recent + v.rest[..d.adv]) + r.opts;
    }
  }

  lemma RotatedBlocks(s: seq<string>, a: seq<string>, b: seq<string>, c: seq<string>)
    requires |a + b + c| <= |s| && s[..|a + b + c|] == a + b + c
    ensures Rotated(s, |a|, |a + b|, |a + b + c|) == a + c + b + s[|a + b + c|..]
  {
    var t := s[..|a + b + c|];
    assert s[..|a|] == t[..|a|] == a;
    assert s[|a|..|a + b|] == t[|a|..|a + b|] == b;
    assert s[|a + b|..|a + b + c|] == t[|a + b|..] == c;
  }

  /** The string after the character that chooses the ordering. */
  function Strip(optstring: string): string {
    if HasAt(optstring, 0, '-') || HasAt(optstring, 0, '+') then optstring[1..] else optstring
  }

  function Choose(optstring: string, posixlyCorrect: bool): Ordering {
    if HasAt(optstring, 0, '-') then RETURN_IN_ORDER
    else if HasAt(optstring, 0, '+') || posixlyCorrect then REQUIRE_ORDER
    else PERMUTE
  }

  datatype Step = Ended | Plain | Ahead

  class Getopt {
    const argv: array<string>
    const posixlyCorrect: bool     // the environment has POSIXLY_CORRECT
    var optind: nat
    var initialized: bool
    var nextchar: string           // "" for a null pointer too
    var firstNonopt: nat
    var lastNonopt: nat
    var ordering: Ordering
    var optarg: Option<string>
    var optopt: int

    ghost var done: seq<string>     // elements before the non-options skipped so far
    ghost var skipped: seq<string>  // those non-options
    ghost var recent: seq<string>   // elements consumed since

    constructor (argv: array<string>, posixlyCorrect: bool)
      ensures this.argv == argv && this.posixlyCorrect == posixlyCorrect
      ensures optind == 1 && !initialized
    {
      this.argv, this.posixlyCorrect := argv, posixlyCorrect;
      optind, initialized, nextchar, firstNonopt, lastNonopt := 1, false, "", 0, 0;
      ordering, optarg, optopt := PERMUTE, None, QUESTION;
      done, skipped, recent := [], [], [];
    }

    /** The first call is still to come, or the caller asked for a new start. */
    ghost predicate AtStart()
      reads this
    {
      (optind == 0 || !initialized) && (if optind == 0 then 1 else optind) <= argv.Length
    }

    ghost predicate Valid()
      reads this, argv
    {
      && initialized && 0 < optind <= argv.Length
      && |done| == firstNonopt && |done + skipped| == lastNonopt && |done + skipped + recent| == optind
      && argv[..optind] == done + skipped + recent
      && (nextchar != "" ==> optind < argv.Length && |argv[optind]| >= 2)
      && (ordering != PERMUTE ==> skipped == [])
    }

    ghost function Look(cfg: Config): View
      reads this, argv
      requires AtStart() || Valid()
    {
      if AtStart() then
        var i := if optind == 0 then 1 else optind;
        View(argv[..i], [], [], argv[i..], "", Choose(cfg.optstring, posixlyCorrect),
             cfg.(optstring := Strip(cfg.optstring)))
      else View(done, skipped, recent, argv[optind..], nextchar, ordering, cfg)
    }

    method Initialize(optstring: string) returns (chars: string)
      requires optind <= argv.Length
      modifies this`firstNonopt, this`lastNonopt, this`nextchar, this`ordering,
               this`done, this`skipped, this`recent
      ensures firstNonopt == lastNonopt == optind && nextchar == ""
      ensures ordering == Choose(optstring, posixlyCorrect) && chars == Strip(optstring)
      ensures done == argv[..optind] && skipped == [] && recent == []
    {
      firstNonopt, lastNonopt := optind, optind;
      nextchar := "";
      chars := optstring;
      if |optstring| > 0 && optstring[0] == '-' {
        ordering := RETURN_IN_ORDER;
        chars := optstring[1..];
      } else if |optstring| > 0 && optstring[0] == '+' {
        ordering := REQUIRE_ORDER;
        chars := optstring[1..];
      } else if posixlyCorrect {
        ordering := REQUIRE_ORDER;
      } else {
        ordering := PERMUTE;
      }
      done, skipped, recent := argv[..optind], [], [];
    }

    /** Exchange the skipped non-options with what was consumed after them. */
    method Exchange()
      requires firstNonopt <= lastNonopt <= optind <= argv.Length
      modifies this`firstNonopt, this`lastNonopt, argv
      ensures argv[..] == Rotated(old(argv[..]), old(firstNonopt), old(lastNonopt), optind)
      ensures firstNonopt == old(firstNonopt) + (optind - old(lastNonopt)) && lastNonopt == optind
    {
      ExchangeBlocks(argv, firstNonopt, lastNonopt, optind);
      firstNonopt := firstNonopt + (optind - lastNonopt);
      lastNonopt := optind;
    }

    /** The clamps: neither index stays ahead of an optind that the caller moved back. */
    method PullBack()
      requires firstNonopt <= lastNonopt
      modifies this`firstNonopt, this`lastNonopt
      ensures firstNonopt <= lastNonopt <= optind
      ensures lastNonopt == (if old(lastNonopt) > optind then optind else old(lastNonopt))
      ensures firstNonopt == (if old(firstNonopt) > optind then optind else old(firstNonopt))
    {
      if lastNonopt > optind { lastNonopt := optind; }
      if firstNonopt > optind { firstNonopt := optind; }
    }

    /** Bring the consumed elements before the skipped ones, so that nothing is recent. */
    method Settle()
      requires Valid() && ordering == PERMUTE
      modifies this`firstNonopt, this`lastNonopt, this`done, this`recent, argv
      ensures Valid() && recent == [] && done == old(done + recent)
      ensures argv[optind..] == old(argv[optind..]) && lastNonopt == optind
    {
      ghost var s := argv[..];
      RotatedBlocks(s, done, skipped, recent);
      if firstNonopt != lastNonopt && lastNonopt != optind {
        Exchange();
        assert argv[..] == done + recent + skipped + s[optind..];
      } else if lastNonopt != optind {
        firstNonopt := optind;
        lastNonopt := optind;
      }
      done, recent := done + recent, [];
    }

    /** Non-options at optind join the block that was set aside. */
    method SkipNonOptions(cfg: Config)
      requires Valid() && ordering == PERMUTE && recent == [] && nextchar == "" && Usable(cfg)
      modifies this`optind, this`lastNonopt, this`skipped
      ensures Valid() && optind >= old(optind)
      ensures optind == argv.Length || !NonOption(argv[optind])
      ensures Outlook(Look(cfg)) == old(Outlook(Look(cfg)))
    {
      ghost var o := Outlook(Look(cfg));
      while optind < argv.Length && NonOption(argv[optind])
        invariant old(optind) <= optind <= argv.Length && argv[..optind] == done + skipped
        invariant Outlook(View(done, skipped, [], argv[optind..], "", PERMUTE, cfg)) == o
      {
        assert argv[optind..][0] == argv[optind] && argv[optind..][1..] == argv[optind + 1..];
        OutlookPastNonOption(View(done, skipped, [], argv[optind..], "", PERMUTE, cfg));
        skipped := skipped + [argv[optind]];
        optind := optind + 1;
      }
      lastNonopt := optind;
    }

    /** A "--" goes behind the options, and whatever follows it is left over. */
    method PassDashes()
      requires Valid() && nextchar == "" && optind < argv.Length && argv[optind] == "--"
      requires ordering == PERMUTE ==> recent == []
      modifies this`optind, this`firstNonopt, this`lastNonopt, argv
      ensures argv[..] == old(done + recent) + ["--"] + skipped + old(argv[optind + 1..])
      ensures optind == lastNonopt == argv.Length && firstNonopt == |done + recent| + 1
      ensures ordering != PERMUTE ==> argv[..] == old(argv[..])
    {
      optind := optind + 1;
      if firstNonopt != lastNonopt && lastNonopt != optind {
        Exchange();
      } else if firstNonopt == lastNonopt {
        firstNonopt := optind;
      }
      lastNonopt := argv.Length;
      optind := argv.Length;
    }

    /** Where the run ended, as foreseen from o: the options come first, then what is left over. */
    ghost predicate EndsAs(o: Run)
      reads this, argv
    {
      && o.results == [] && !o.overrun
      && argv[..] == o.opts + o.nonopts && optind == |o.opts|
    }

    /** Pull the skipped range back behind optind and, when permuting, move past non-options. */
    method Gather(cfg: Config)
      requires Valid() && nextchar == "" && Usable(cfg)
      modifies this`optind, this`firstNonopt, this`lastNonopt, this`done, this`skipped, this`recent, argv
      ensures Valid() && old(optind) <= optind
      ensures ordering == PERMUTE ==> recent == [] && (optind == argv.Length || !NonOption(argv[optind]))
      ensures ordering != PERMUTE ==> argv[..] == old(argv[..]) && optind == old(optind)
      ensures Outlook(Look(cfg)) == old(Outlook(Look(cfg)))
      ensures argv[old(optind)..] == old(argv[optind..])
    {
      PullBack();
      if ordering == PERMUTE {
        Settle();
        SkipNonOptions(cfg);
      }
    }

    /** If all elements are done, or the rest is behind a "--", point optind at the non-options. */
    method FinishScan(cfg: Config) returns (ended: bool)
      requires Valid() && nextchar == "" && Usable(cfg)
      requires ordering == PERMUTE ==> recent == []
      modifies this`optind, this`firstNonopt, this`lastNonopt, argv
      ensures ordering != PERMUTE ==> argv[..] == old(argv[..])
      ensures ended <==> old(optind == argv.Length || argv[optind] == "--")
      ensures ended ==> optind <= argv.Length && firstNonopt <= lastNonopt <= argv.Length
      ensures ended ==>
        var front := old(done + recent) + if old(optind < argv.Length) then ["--"] else [];
        && optind == |front|
        && argv[..] == front + (skipped + if old(optind < argv.Length) then old(argv[optind..])[1..] else [])
      ensures !ended ==> optind == old(optind) && argv[..] == old(argv[..])
                         && firstNonopt == old(firstNonopt) && lastNonopt == old(lastNonopt)
    {
      ended := false;
      if optind != argv.Length && argv[optind] == "--" {
        PassDashes();
        assert old(argv[optind..])[1..] == old(argv[optind + 1..]);
      }
      if optind == argv.Length {
        if firstNonopt != lastNonopt {
          optind := firstNonopt;
        }
        ended := true;
      }
    }

    /** The end of the run, if it is here: a "--", the end of ARGV, or a non-option that stops it. */
    method Conclude(cfg: Config) returns (ended: bool)
      requires Valid() && nextchar == "" && Usable(cfg)
      requires ordering == PERMUTE ==> recent == [] && (optind == argv.Length || !NonOption(argv[optind]))
      modifies this`optind, this`firstNonopt, this`lastNonopt, argv
      ensures ordering != PERMUTE ==> argv[..] == old(argv[..])
      ensures ended ==> optind <= argv.Length && firstNonopt <= lastNonopt <= argv.Length
      ensures ended ==> EndsAs(old(Outlook(Look(cfg))))
      ensures !ended ==> Valid() && Look(cfg) == old(Look(cfg)) && argv[..] == old(argv[..])
      ensures !ended ==> optind < argv.Length && argv[optind] != "--"
      ensures !ended && ordering != RETURN_IN_ORDER ==> IsOption(argv[optind])
    {
      hide Outlook;
      ghost var v := Look(cfg);
      if optind == argv.Length { OutlookAtEnd(v); }
      else if argv[optind] == "--" { OutlookAtDashes(v); }
      ended := FinishScan(cfg);
      if !ended && NonOption(argv[optind]) && ordering == REQUIRE_ORDER {
        OutlookAtStop(v);
        ended := true;
      }
    }

    /** What a call does first if no element is being scanned: the run ends, or a non-option is handed
        over in order, or nextchar is set to the text of an option. */
    method Advance(cfg: Config) returns (step: Step)
      requires Valid() && nextchar == "" && Usable(cfg)
      modifies this`optind, this`firstNonopt, this`lastNonopt, this`nextchar,
               this`done, this`skipped, this`recent, argv
      ensures ordering != PERMUTE ==> argv[..] == old(argv[..])
      ensures step == Ended ==> optind <= argv.Length && firstNonopt <= lastNonopt <= argv.Length
      ensures step == Ended ==> EndsAs(old(Outlook(Look(cfg))))
      ensures step != Ended ==> Valid() && old(optind) <= optind < argv.Length
      ensures step == Plain ==> ordering == RETURN_IN_ORDER && optind == old(optind) && nextchar == ""
      ensures step == Ahead ==> IsOption(argv[optind]) && nextchar == Begin(cfg, argv[optind])
      ensures step != Ended ==> Outlook(Look(cfg)) == old(Outlook(Look(cfg)))
      ensures step == Plain ==> NonOption(argv[optind])
      ensures step == Ahead && optind == old(optind) ==> argv[optind] == old(argv[..])[optind]
    {
      hide Outlook;
      Gather(cfg);
      var ended := Conclude(cfg);
      if ended { return Ended; }
      if NonOption(argv[optind]) { return Plain; }
      OutlookBegins(Look(cfg));
      nextchar := if cfg.longopts.Some? && argv[optind][1] == '-' then argv[optind][2..] else argv[optind][1..];
      return Ahead;
    }

    // -------------------------------------------------------------- decoding one option

    /** The fields and the returned values are those of d, for a call that found optind at start. */
    ghost predicate Matches(d: Decoded, start: nat, optopt0: int, code: int, longind: Option<nat>)
      reads this
    {
      && optind == start + d.adv && nextchar == d.nextchar
      && optarg == d.result.optarg && code == d.result.code && longind == d.result.longind
      && optopt == if d.result.optopt.Some? then d.result.optopt.value else optopt0
    }

    method MissingArgument(cfg: Config) returns (code: int)
      ensures code == Missing(cfg)
    {
      return if |cfg.optstring| > 0 && cfg.optstring[0] == ':' then COLON else QUESTION;
    }

    /** A long option found in the table; optind is already past its element, or past the argument
        of -W if w. */
    method LongOption(cfg: Config, text: string, k: nat, w: bool, ghost start: nat)
      returns (code: int, longind: Option<nat>)
      requires cfg.longopts.Some? && k < |cfg.longopts.value| && start <= optind <= argv.Length
      requires optarg == if w then Some(text) else None
      modifies this`optind, this`nextchar, this`optarg, this`optopt
      ensures Matches(LongFound(cfg, argv[start..], text, k, old(optind) - start, w), start, old(optopt), code, longind)
    {
      var p := cfg.longopts.value[k];
      var nameEnd := FindNameEnd(text);
      nextchar, longind := "", None;
      if nameEnd < |text| {
        if p.hasArg != 0 {
          optarg := Some(text[nameEnd + 1..]);
        } else {
          if !w { optopt := p.val; }
          code := QUESTION;
          return;
        }
      } else if p.hasArg == 1 {
        if optind < argv.Length {
          optarg := Some(argv[optind]);
          optind := optind + 1;
        } else {
          if !w { optopt := p.val; }
          code := MissingArgument(cfg);
          return;
        }
      }
      longind := Some(k);
      code := if p.hasFlag then 0 else p.val;
    }

    /** -W foo as long option --foo; optarg holds the text and optind is past it. */
    method WArgument(cfg: Config, text: string, ghost start: nat) returns (code: int, longind: Option<nat>)
      requires cfg.longopts.Some? && start <= optind <= argv.Length && optarg == Some(text)
      modifies this`optind, this`nextchar, this`optarg, this`optopt
      ensures Matches(WOption(cfg, argv[start..], text, old(optind) - start), start, old(optopt), code, longind)
    {
      var nameEnd := FindNameEnd(text);
      var found := SearchTable(cfg.longopts.value, text[..nameEnd]);
      match found {
        case Ambiguous =>
          nextchar := "";
          optind := optind + 1;
          code, longind := QUESTION, None;
        case Found(k) =>
          code, longind := LongOption(cfg, text, k, true, start);
        case Unknown =>
          nextchar := "";
          code, longind := 'W' as int, None;
      }
    }

    /** One short option: its character, and its argument if it takes one. */
    method ShortOption(cfg: Config) returns (code: int, longind: Option<nat>)
      requires nextchar != "" && optind < argv.Length && optarg == None && Usable(cfg)
      modifies this`optind, this`nextchar, this`optarg, this`optopt
      ensures Matches(Short(cfg, old(argv[optind..]), old(nextchar)), old(optind), old(optopt), code, longind)
    {
      hide Argument, WOption;
      ghost var start := optind;
      var c := nextchar[0];
      nextchar := nextchar[1..];
      var temp := MyIndex(cfg.optstring, c);
      if nextchar == "" { optind := optind + 1; }
      longind := None;
      if temp.None? || c == ':' {
        optopt := c as int;
        code := QUESTION;
        return;
      }
      var t := temp.value;
      if c == 'W' && t + 1 < |cfg.optstring| && cfg.optstring[t + 1] == ';' {
        var text;
        if nextchar != "" {
          text := nextchar;
          optind := optind + 1;
        } else if optind == argv.Length {
          optopt := c as int;
          code := MissingArgument(cfg);
          return;
        } else {
          text := argv[optind];
          optind := optind + 1;
        }
        optarg := Some(text);
        code, longind := WArgument(cfg, text, start);
        return;
      }
      code := ShortArgument(cfg, t, c, start);
    }

    /** The argument of short option c, found at position t of optstring. */
    method ShortArgument(cfg: Config, t: nat, c: char, ghost start: nat) returns (code: int)
      requires start <= optind <= argv.Length && t < |cfg.optstring| && cfg.optstring[t] == c && optarg == None
      modifies this`optind, this`nextchar, this`optarg, this`optopt
      ensures Matches(Argument(cfg, argv[start..], t, old(nextchar), old(optind) - start),
                      start, old(optopt), code, None)
    {
      code := c as int;
      if t + 1 < |cfg.optstring| && cfg.optstring[t + 1] == ':' {
        if t + 2 < |cfg.optstring| && cfg.optstring[t + 2] == ':' {
          if nextchar != "" {
            optarg := Some(nextchar);
            optind := optind + 1;
          } else {
            optarg := None;
          }
          nextchar := "";
        } else {
          if nextchar != "" {
            optarg := Some(nextchar);
            optind := optind + 1;
          } else if optind == argv.Length {
            optopt := c as int;
            code := MissingArgument(cfg);
          } else {
            optarg := Some(argv[optind]);
            optind := optind + 1;
          }
          nextchar := "";
        }
      }
    }

    /** One call's decoding, at nextchar: a long option, an abbreviation of one, or a short option. */
    method DecodeOption(cfg: Config) returns (code: int, longind: Option<nat>)
      requires nextchar != "" && optind < argv.Length && |argv[optind]| >= 2 && optarg == None && Usable(cfg)
      modifies this`optind, this`nextchar, this`optarg, this`optopt
      ensures Matches(Decode(cfg, old(argv[optind..]), old(nextchar)), old(optind), old(optopt), code, longind)
    {
      ghost var start := optind;
      var arg := argv[optind];
      if cfg.longopts.Some? {
        var known := MyIndex(cfg.optstring, arg[1]);
        if arg[1] == '-' || (cfg.longOnly && (|arg| > 2 || known.None?)) {
          var nameEnd := FindNameEnd(nextchar);
          var found := SearchTable(cfg.longopts.value, nextchar[..nameEnd]);
          match found {
            case Ambiguous =>
              nextchar := "";
              optind := optind + 1;
              optopt := 0;
              return QUESTION, None;
            case Found(k) =>
              optind := optind + 1;
              code, longind := LongOption(cfg, nextchar, k, false, start);
              return;
            case Unknown =>
              var short := MyIndex(cfg.optstring, nextchar[0]);
              if !cfg.longOnly || arg[1] == '-' || short.None? {
                nextchar := "";
                optind := optind + 1;
                optopt := 0;
                return QUESTION, None;
              }
          }
        }
      }
      code, longind := ShortOption(cfg);
    }

    // -------------------------------------------------------------- calls and runs

    /** The view after a call, under the option string that call used. */
    ghost function Resumed(cfg: Config): View
      reads this, argv
      requires Valid()
    {
      View(done, skipped, recent, argv[optind..], nextchar, ordering, cfg)
    }

    /** The call that decodes at nextchar, with its bookkeeping. */
    method CallDecode(cfg: Config) returns (code: int, longind: Option<nat>, ghost report: Result)
      requires Valid() && nextchar != "" && optarg == None && Usable(cfg)
      modifies this`optind, this`nextchar, this`optarg, this`optopt, this`recent
      ensures report == Decode(cfg, old(argv[optind..]), old(nextchar)).result
      ensures code == report.code && optarg == report.optarg && longind == report.longind
      ensures optopt == if report.optopt.Some? then report.optopt.value else old(optopt)
      ensures optind == old(optind) + Decode(cfg, old(argv[optind..]), old(nextchar)).adv
      ensures optind <= argv.Length ==>
        && Valid()
        && Resumed(cfg) == AfterCall(old(Resumed(cfg)), Decode(cfg, old(argv[optind..]), old(nextchar)))
      ensures optind == old(optind) ==> 0 < |nextchar| < |old(nextchar)|
    {
      hide Decode;
      ghost var start, rest := optind, argv[optind..];
      DecodeProgress(cfg, rest, nextchar);
      report := Decode(cfg, rest, nextchar).result;
      code, longind := DecodeOption(cfg);
      if optind <= argv.Length {
        assert argv[..optind] == argv[..start] + rest[..optind - start];
        recent := recent + rest[..optind - start];
      }
    }

    /** The decoding call as the run sees it. */
    method DecodeOn(cfg: Config) returns (code: int, longind: Option<nat>, ghost report: Result)
      requires Valid() && nextchar != "" && optarg == None && Usable(cfg)
      modifies this`optind, this`nextchar, this`optarg, this`optopt, this`recent
      ensures report == Result(code, optarg, report.optopt, longind) && old(optind) <= optind
      ensures optind <= argv.Length ==> Valid()
      ensures optind == old(optind) ==> 0 < |nextchar| < |old(nextchar)|
      ensures optind <= argv.Length ==>
        Follows(old(Outlook(Resumed(cfg))), report, Outlook(Resumed(cfg)))
      ensures optind > argv.Length ==>
        old(Outlook(Resumed(cfg))).overrun && old(Outlook(Resumed(cfg))).results == [report]
    {
      hide Outlook, Decode;
      OutlookDecode(Resumed(cfg));
      code, longind, report := CallDecode(cfg);
    }

    /** A call once the scanner is initialized, under the option string in force. */
    method Resume(cfg: Config) returns (code: Option<int>, longind: Option<nat>, ghost report: Result)
      requires Valid() && optarg == None && Usable(cfg)
      modifies this`optind, this`nextchar, this`optarg, this`optopt, this`firstNonopt, this`lastNonopt,
               this`done, this`skipped, this`recent, argv
      ensures ordering != PERMUTE ==> argv[..] == old(argv[..])
      ensures code.None? ==> optind <= argv.Length && firstNonopt <= lastNonopt <= argv.Length
      ensures code.None? ==> EndsAs(old(Outlook(Resumed(cfg))))
      ensures code.Some? ==> report == Result(code.value, optarg, report.optopt, longind)
      ensures code.Some? && optind <= argv.Length ==>
        && Valid() && old(optind) <= optind
        && (optind == old(optind) ==>
              0 < |nextchar| < if old(nextchar) == "" then |old(argv[..])[optind]| else |old(nextchar)|)
        && Follows(old(Outlook(Resumed(cfg))), report, Outlook(Resumed(cfg)))
      ensures code.Some? && optind > argv.Length ==>
        old(Outlook(Resumed(cfg))).overrun && old(Outlook(Resumed(cfg))).results == [report]
    {
      hide Outlook, Decode;
      report := Result(0, None, None, None);
      longind := None;
      if nextchar == "" {
        var step := Advance(cfg);
        if step == Ended { return None, None, report; }
        if step == Plain {
          OutlookHandedOver(Resumed(cfg));
          assert argv[optind..][0] == argv[optind] && argv[optind..][1..] == argv[optind + 1..];
          optarg := Some(argv[optind]);
          recent := recent + [argv[optind]];
          optind := optind + 1;
          return Some(1), None, Result(1, optarg, None, None);
        }
      }
      var c;
      c, longind, report := DecodeOn(cfg);
      code := Some(c);
    }

    /** _getopt_internal. The option string of the initializing call loses its ordering character;
        later calls see it whole. */
    method GetoptInternal(cfg: Config) returns (code: Option<int>, longind: Option<nat>, ghost report: Result)
      requires (AtStart() || Valid()) && Usable(Look(cfg).cfg)
      modifies this, argv
      ensures ordering == old(Look(cfg)).ordering && (ordering != PERMUTE ==> argv[..] == old(argv[..]))
      ensures code.None? ==> optind <= argv.Length && firstNonopt <= lastNonopt <= argv.Length
      ensures code.None? ==> EndsAs(old(Outlook(Look(cfg))))
      ensures code.Some? ==> report == Result(code.value, optarg, report.optopt, longind)
      ensures code.Some? && optind <= argv.Length ==>
        && Valid() && Shorter(Resumed(old(Look(cfg)).cfg), old(Look(cfg)))
        && Follows(old(Outlook(Look(cfg))), report, Outlook(Resumed(old(Look(cfg)).cfg)))
      ensures code.Some? && optind > argv.Length ==>
        old(Outlook(Look(cfg))).overrun && old(Outlook(Look(cfg))).results == [report]
    {
      hide Outlook, Decode;
      ghost var v := Look(cfg);
      optarg := None;
      var chars := cfg.optstring;
      if optind == 0 || !initialized {
        if optind == 0 { optind := 1; }
        chars := Initialize(cfg.optstring);
        initialized := true;
      }
      assert Valid() && Resumed(v.cfg) == v;
      code, longind, report := Resume(cfg.(optstring := chars));
    }

    /** Call getopt until it returns -1, or has left ARGV. */
    method ParseAll(cfg: Config) returns (codes: seq<Seen>, ghost reports: seq<Result>, overrun: bool)
      requires AtStart() && Usable(cfg) && Strip(cfg.optstring) == cfg.optstring
      modifies this, argv
      ensures reports == old(Outlook(Look(cfg))).results && overrun == old(Outlook(Look(cfg))).overrun
      ensures Shows(codes, reports)
      ensures !overrun ==>
        var o := old(Outlook(Look(cfg)));
        argv[..] == o.opts + o.nonopts && optind == |o.opts|
      ensures posixlyCorrect ==> argv[..] == old(argv[..])
    {
      hide Outlook;
      codes, reports, overrun := [], [], false;
      ghost var o := Outlook(Look(cfg));
      while true
        invariant (AtStart() || Valid()) && Look(cfg).cfg == cfg
        invariant Look(cfg).ordering == Choose(cfg.optstring, posixlyCorrect)
        invariant Outlook(Look(cfg)) == o.(results := Outlook(Look(cfg)).results, lacking := Outlook(Look(cfg)).lacking)
        invariant o.results == reports + Outlook(Look(cfg)).results
        invariant Shows(codes, reports)
        invariant posixlyCorrect ==> argv[..] == old(argv[..])
        decreases |Look(cfg).rest|, Size(Look(cfg).rest, Look(cfg).text)
      {
        var code, longind;
        ghost var report;
        code, longind, report := GetoptInternal(cfg);
        if code.None? { return; }
        codes, reports := codes + [(code.value, optarg, longind)], reports + [report];
        if optind > argv.Length { return codes, reports, true; }
      }
    }
  }

  /** What the caller of getopt sees of each call: the code, optarg and the long option index. */
  type Seen = (int, Option<string>, Option<nat>)

  ghost predicate Shows(codes: seq<Seen>, reports: seq<Result>) {
    && |codes| == |reports|
    && forall i :: 0 <= i < |codes| ==> codes[i] == (reports[i].code, reports[i].optarg, reports[i].longind)
  }

  ghost function RunOf(cfg: Config, rest: seq<string>, posixlyCorrect: bool): Run
    requires Usable(cfg)
  {
    if posixlyCorrect then InOrder(cfg, rest, "") else Permute(cfg, rest, "")
  }

  /** A program's option loop from the start of ARGV: the calls report what the specification of
      the whole run says, and ARGV ends up as its options followed by what is left over. */
  method Parse(argv: array<string>, posixlyCorrect: bool, cfg: Config)
    returns (codes: seq<Seen>, optind: nat, overrun: bool)
    requires argv.Length >= 1 && Usable(cfg) && Strip(cfg.optstring) == cfg.optstring
    modifies argv
    ensures var r := RunOf(cfg, old(argv[1..]), posixlyCorrect);
      && Shows(codes, r.results) && overrun == r.overrun
      && (!overrun ==> argv[..] == old(argv[..1]) + (r.opts + r.nonopts) && optind == 1 + |r.opts|)
      && (posixlyCorrect ==> argv[..] == old(argv[..]))
  {
    var g := new Getopt(argv, posixlyCorrect);
    ghost var r := RunOf(cfg, argv[1..], posixlyCorrect);
    assert g.Look(cfg).cfg == cfg;
    assert g.Look(cfg).done + g.Look(cfg).recent == argv[..1];
    assert g.Look(cfg).skipped + r.nonopts == r.nonopts;
    assert argv[..1] + r.opts + r.nonopts == argv[..1] + (r.opts + r.nonopts);
    ghost var reports;
    codes, reports, overrun := g.ParseAll(cfg);
    optind := g.optind;
  }

  /** A program given a command line spelled out of options and words sees what was meant, and finds the
      words behind the options. */
  method ParseSpelled(prog: string, items: seq<Spelling.Item>, behind: Option<seq<string>>, cfg: Config)
    returns (argv: array<string>, codes: seq<Seen>, optind: nat)
    requires Usable(cfg) && Strip(cfg.optstring) == cfg.optstring
    requires Spelling.AllProper(cfg, items) && Spelling.Complete(cfg, items, behind.Some?)
    ensures Shows(codes, Spelling.AllMeant(cfg, items))
    ensures var opts := Spelling.Options(items) + if behind.Some? then ["--"] else [];
      var left := Spelling.Words(items) + if behind.Some? then behind.value else [];
      argv[..] == [prog] + (opts + left) && optind == 1 + |opts|
  {
    Spelling.SpelledIsMeant(cfg, items, behind);
    hide Permute, InOrder, Spelling.AllSpelled, Spelling.AllMeant, Spelling.Options, Spelling.Words,
      Spelling.Closing, Shows;
    var line := Spelling.AllSpelled(items) + Spelling.Closing(behind);
    var elements := [prog] + line;
    argv := new string[|elements|](i requires 0 <= i < |elements| => elements[i]);
    assert argv[..] == elements && argv[1..] == line && argv[..1] == [prog];
    var overrun;
    codes, optind, overrun := Parse(argv, false, cfg);
  }

  /** Parse ARGV, then parse the permuted ARGV once more the POSIX way. If no call of the first run
      was short of arguments, or it left nothing over, both runs return the same codes and arguments
      and leave optind at the same element; otherwise the second run gets further. */
  method ParseTwice(argv: array<string>, cfg: Config)
    returns (first: seq<Seen>, second: seq<Seen>, optind1: nat, optind2: nat, overrun1: bool, overrun2: bool)
    requires argv.Length >= 1 && Usable(cfg) && Strip(cfg.optstring) == cfg.optstring
    modifies argv
    ensures overrun1 == Permute(cfg, old(argv[1..]), "").overrun
    ensures !overrun1 ==>
      var r := Permute(cfg, old(argv[1..]), "");
      && argv[..] == old(argv[..1]) + (r.opts + r.nonopts)
      && multiset(argv[..]) == multiset(old(argv[..]))
      && optind1 == 1 + |r.opts|
      && (!r.lacking || r.nonopts == [] ==> second == first && optind2 == optind1 && !overrun2)
      && (r.lacking && r.nonopts != [] ==> overrun2 || optind2 != optind1)
  {
    hide Permute, InOrder;
    ghost var prog, rest := argv[..1], argv[1..];
    ghost var r := Permute(cfg, rest, "");
    first, optind1, overrun1 := Parse(argv, false, cfg);
    second, optind2, overrun2 := [], 0, false;
    if overrun1 { return; }
    assert argv[..1] == prog && argv[1..] == r.opts + r.nonopts;
    assert multiset(argv[..]) == multiset(old(argv[..])) by {
      var _ := StablePartition(cfg, rest, "");
      assert old(argv[..]) == prog + rest;
    }
    ReparseAgrees(cfg, rest);
    second, optind2, overrun2 := Parse(argv, true, cfg);
    assert Shows(first, r.results);
  }
}
