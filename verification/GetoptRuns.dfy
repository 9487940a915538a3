/** Properties of whole runs of getopt: the permutation is a stable partition, it does not change
    the parse, and optind stays within ARGV. */
module GetoptRuns {
  import opened Basics
  import opened GetoptSpec

  // ---------------------------------------------------------------- one call looks only ahead

  /** s has the same first n elements as rest. */
  ghost predicate Same(rest: seq<string>, s: seq<string>, n: nat) {
    n <= |rest| && n <= |s| && forall i :: 0 <= i < n ==> s[i] == rest[i]
  }

  lemma ShortLocal(cfg: Config, rest: seq<string>, s: seq<string>, text: string, n: nat)
    requires n > 0 && text != "" && Usable(cfg) && Same(rest, s, n)
    requires var d := Short(cfg, rest, text); !d.lacking && d.adv <= n
    ensures Short(cfg, s, text) == Short(cfg, rest, text)
  {
    var left, t := text[1..], Index(cfg.optstring, text[0]);
    var used := if left == "" then 1 else 0;
    if t.Some? && text[0] != ':' {
      if text[0] == 'W' && HasAt(cfg.optstring, t.value + 1, ';') {
        if left != "" { WLocal(cfg, rest, s, left, used + 1, n); }
        else if used < |rest| {
          WAdvances(cfg, rest, rest[used], used + 1);
          WLocal(cfg, rest, s, rest[used], used + 1, n);
        }
      } else {
        ArgumentLocal(cfg, rest, s, t.value, left, used, n);
      }
    }
    hide WOption, Argument, Index;
  }

  lemma WLocal(cfg: Config, rest: seq<string>, s: seq<string>, text: string, used: nat, n: nat)
    requires cfg.longopts.Some? && Same(rest, s, n)
    requires var d := WOption(cfg, rest, text, used); !d.lacking && d.adv <= n
    ensures WOption(cfg, s, text, used) == WOption(cfg, rest, text, used)
  {
    hide Search, NameEnd;
  }

  lemma ArgumentLocal(cfg: Config, rest: seq<string>, s: seq<string>, t: nat, left: string, used: nat, n: nat)
    requires t < |cfg.optstring| && Same(rest, s, n)
    requires var d := Argument(cfg, rest, t, left, used); !d.lacking && d.adv <= n
    ensures Argument(cfg, s, t, left, used) == Argument(cfg, rest, t, left, used)
  {
  }

  /** Unless ARGV was too short, a call depends on nothing beyond the elements it passes. */
  lemma DecodeLocal(cfg: Config, rest: seq<string>, text: string, k: nat, tail: seq<string>)
    requires |rest| > 0 && |rest[0]| >= 2 && text != "" && Usable(cfg)
    requires var d := Decode(cfg, rest, text); !d.lacking && d.adv <= k
    requires 1 <= k <= |rest|
    ensures Decode(cfg, rest[..k] + tail, text) == Decode(cfg, rest, text)
  {
    var s := rest[..k] + tail;
    assert s[0] == rest[0] && Same(rest, s, k);
    if Decode(cfg, rest, text) == Short(cfg, rest, text) { ShortLocal(cfg, rest, s, text, k); }
    hide Short;
  }

  lemma WAdvances(cfg: Config, rest: seq<string>, text: string, used: nat)
    requires cfg.longopts.Some?
    ensures WOption(cfg, rest, text, used).adv >= used
  {
  }

  lemma WLacking(cfg: Config, rest: seq<string>, s: seq<string>, text: string, used: nat)
    requires cfg.longopts.Some? && used <= |rest| <= |s| && WOption(cfg, rest, text, used).lacking
    ensures WOption(cfg, rest, text, used).adv >= |rest|
    ensures |s| > |rest| ==> WOption(cfg, s, text, used).adv > |rest|
  {
  }

  lemma ShortLacking(cfg: Config, rest: seq<string>, s: seq<string>, text: string)
    requires |rest| > 0 && text != "" && Usable(cfg) && Same(rest, s, |rest|)
    requires Short(cfg, rest, text).lacking
    ensures Short(cfg, rest, text).adv >= |rest|
    ensures |s| > |rest| ==> Short(cfg, s, text).adv > |rest|
  {
    var c, left := text[0], text[1..];
    var used := if left == "" then 1 else 0;
    var t := Index(cfg.optstring, c).value;
    if c == 'W' && HasAt(cfg.optstring, t + 1, ';') {
      if left != "" { WLacking(cfg, rest, s, left, used + 1); }
      else if used < |rest| { WLacking(cfg, rest, s, rest[used], used + 1); }
      else if |s| > |rest| { WAdvances(cfg, s, s[used], used + 1); }
      hide WOption;
    }
  }

  lemma LongLacking(cfg: Config, rest: seq<string>, s: seq<string>, text: string, k: nat)
    requires cfg.longopts.Some? && k < |cfg.longopts.value| && 0 < |rest| <= |s|
    requires LongFound(cfg, rest, text, k, 1, false).lacking
    ensures LongFound(cfg, rest, text, k, 1, false).adv >= |rest|
    ensures |s| > |rest| ==> LongFound(cfg, s, text, k, 1, false).adv > |rest|
  {
  }

  /** A call that found ARGV too short passes all of it, and would pass more if there were more. */
  lemma DecodeLacking(cfg: Config, rest: seq<string>, text: string, tail: seq<string>)
    requires |rest| > 0 && |rest[0]| >= 2 && text != "" && Usable(cfg)
    requires Decode(cfg, rest, text).lacking
    ensures Decode(cfg, rest, text).adv >= |rest|
    ensures tail != [] ==> Decode(cfg, rest + tail, text).adv > |rest|
  {
    hide Short, LongFound, Search;
    var s := rest + tail;
    assert s[0] == rest[0] && Same(rest, s, |rest|);
    if IsLong(cfg, rest[0]) && Search(cfg.longopts.value, text[..NameEnd(text)]).Found? {
      LongLacking(cfg, rest, s, text, Search(cfg.longopts.value, text[..NameEnd(text)]).index);
    } else {
      ShortLacking(cfg, rest, s, text);
    }
  }

  // ---------------------------------------------------------------- optind stays within ARGV

  /** The branch of the -W code that reports an ambiguous name. */
  predicate AmbiguousW(cfg: Config, rest: seq<string>, text: string)
    requires |rest| > 0 && |rest[0]| >= 2 && text != "" && Usable(cfg)
  {
    && (IsLong(cfg, rest[0]) ==>
          && Search(cfg.longopts.value, text[..NameEnd(text)]).Unknown?
          && cfg.longOnly && rest[0][1] != '-')
    && text[0] == 'W' && Wants(cfg.optstring)
    && (|text| > 1 || |rest| > 1)
    && var arg := if |text| > 1 then text[1..] else rest[1];
       Search(cfg.longopts.value, arg[..NameEnd(arg)]).Ambiguous?
  }

  lemma ShortOverrun(cfg: Config, rest: seq<string>, text: string)
    requires |rest| > 0 && text != "" && Usable(cfg)
    ensures Short(cfg, rest, text).adv > |rest| <==>
            && text[0] == 'W' && Wants(cfg.optstring)
            && |rest| == (if |text| > 1 then 1 else 2)
            && var arg := if |text| > 1 then text[1..] else rest[1];
               Search(cfg.longopts.value, arg[..NameEnd(arg)]).Ambiguous?
  {
  }

  /** One call moves optind past argc exactly when it reports an ambiguous -W name whose text is in
      the last element. */
  lemma OverrunIffAmbiguousW(cfg: Config, rest: seq<string>, text: string)
    requires |rest| > 0 && |rest[0]| >= 2 && text != "" && Usable(cfg)
    ensures Decode(cfg, rest, text).adv > |rest| <==>
            AmbiguousW(cfg, rest, text) && |rest| == if |text| > 1 then 1 else 2
  {
    ShortOverrun(cfg, rest, text);
    hide Short;
  }

  /** So a program that does not enable -W foo never has optind past argc. */
  lemma {:induction false} NoOverrunWithoutW(cfg: Config, rest: seq<string>, text: string)
    requires Usable(cfg) && Scanning(rest, text) && !Wants(cfg.optstring)
    ensures !Permute(cfg, rest, text).overrun
    decreases |rest|, Size(rest, text)
  {
    hide Decode;
    if text == "" && (rest == [] || rest[0] == "--") {
    } else if text == "" && NonOption(rest[0]) {
      NoOverrunWithoutW(cfg, rest[1..], "");
    } else {
      var here := if text == "" then Begin(cfg, rest[0]) else text;
      DecodeProgress(cfg, rest, here);
      OverrunIffAmbiguousW(cfg, rest, here);
      var d := Decode(cfg, rest, here);
      NoOverrunWithoutW(cfg, rest[d.adv..], d.nextchar);
    }
  }

  const FOOBAR := Config("W;", Some([LongOpt("foo", 0, false, 1), LongOpt("fox", 0, false, 2)]), false)

  /** prog -Wfo, with long options foo and fox: optind is left one past argc. */
  lemma AmbiguousWOverruns()
    ensures Usable(FOOBAR) && Permute(FOOBAR, ["-Wfo"], "").overrun
  {
    var ls := FOOBAR.longopts.value;
    assert Index("W;", 'W') == Some(0);
    assert Begin(FOOBAR, "-Wfo") == "Wfo";
    assert NameEnd("fo") == 2 && "fo"[..2] == "fo";
    AbbreviatedCounts(ls, "fo");
    assert Abbreviates(ls[0], "fo") && Abbreviates(ls[1], "fo");
    assert !Exact(ls[0], "fo") && !Exact(ls[1], "fo");
    assert Search(ls, "fo").Ambiguous?;
    assert "Wfo"[1..] == "fo";
    OverrunIffAmbiguousW(FOOBAR, ["-Wfo"], "Wfo");
  }

  // ---------------------------------------------------------------- stable partition

  /** Consuming the first n elements puts n times true before the mask of the others. */
  lemma PickFront(s: seq<string>, n: nat, m: seq<bool>)
    requires n <= |s| && |m| == |s| - n
    ensures var mask := seq(n, _ => true) + m;
      && Pick(s, mask, true) == s[..n] + Pick(s[n..], m, true)
      && Pick(s, mask, false) == Pick(s[n..], m, false)
  {
    assert s == s[..n] + s[n..];
    PickAll(s[..n], true);
    PickSplit(s[..n], s[n..], seq(n, _ => true), m, true);
    PickSplit(s[..n], s[n..], seq(n, _ => true), m, false);
  }

  lemma {:induction false} Mask(cfg: Config, rest: seq<string>, text: string) returns (mask: seq<bool>)
    requires Usable(cfg) && Scanning(rest, text) && !Permute(cfg, rest, text).overrun
    ensures |mask| == |rest|
    ensures var r := Permute(cfg, rest, text);
      r.opts == Pick(rest, mask, true) && r.nonopts == Pick(rest, mask, false)
    decreases |rest|, Size(rest, text)
  {
    hide Decode;
    if text == "" && rest == [] {
      mask := [];
    } else if text == "" && rest[0] == "--" {
      mask := [true] + seq(|rest| - 1, _ => false);
      assert mask[1..] == seq(|rest[1..]|, _ => false);
      PickAll(rest[1..], false);
    } else if text == "" && NonOption(rest[0]) {
      var m := Mask(cfg, rest[1..], "");
      mask := [false] + m;
    } else {
      var here := if text == "" then Begin(cfg, rest[0]) else text;
      DecodeProgress(cfg, rest, here);
      var d := Decode(cfg, rest, here);
      var m := Mask(cfg, rest[d.adv..], d.nextchar);
      PickFront(rest, d.adv, m);
      mask := seq(d.adv, _ => true) + m;
    }
  }

  /** A run that stays within ARGV splits it: the mask says which elements were consumed as options,
      separate arguments or the terminating "--"; both parts keep the original order. */
  lemma StablePartition(cfg: Config, rest: seq<string>, text: string) returns (mask: seq<bool>)
    requires Usable(cfg) && Scanning(rest, text) && !Permute(cfg, rest, text).overrun
    ensures |mask| == |rest|
    ensures var r := Permute(cfg, rest, text);
      && r.opts == Pick(rest, mask, true) && r.nonopts == Pick(rest, mask, false)
      && multiset(r.opts + r.nonopts) == multiset(rest)
  {
    mask := Mask(cfg, rest, text);
    PickIsPermutation(rest, mask);
  }

  /** Every element left over is a non-option, unless a "--" ended the run. */
  lemma {:induction false} LeftoversAreNonOptions(cfg: Config, rest: seq<string>, text: string)
    requires Usable(cfg) && Scanning(rest, text)
    ensures var r := Permute(cfg, rest, text); !r.dashed ==> forall x <- r.nonopts :: NonOption(x)
    decreases |rest|, Size(rest, text)
  {
    if text == "" && (rest == [] || rest[0] == "--") {
    } else if text == "" && NonOption(rest[0]) {
      LeftoversAreNonOptions(cfg, rest[1..], "");
    } else {
      var here := if text == "" then Begin(cfg, rest[0]) else text;
      DecodeProgress(cfg, rest, here);
      var d := Decode(cfg, rest, here);
      if d.adv <= |rest| { LeftoversAreNonOptions(cfg, rest[d.adv..], d.nextchar); }
    }
  }

  // ---------------------------------------------------------------- permuting keeps the parse

  /** The element being scanned is consumed. */
  lemma {:induction false} OptsHead(cfg: Config, rest: seq<string>, text: string)
    requires Usable(cfg) && Scanning(rest, text) && text != ""
    ensures var r := Permute(cfg, rest, text); |r.opts| > 0 && r.opts[0] == rest[0]
    decreases |rest|, Size(rest, text)
  {
    DecodeProgress(cfg, rest, text);
    var d := Decode(cfg, rest, text);
    if d.adv == 0 { OptsHead(cfg, rest, d.nextchar); }
  }

  /** What may follow the options without changing where the order-keeping scan stops. */
  predicate Stops(r: Run, tail: seq<string>) {
    r.dashed || tail == [] || NonOption(tail[0])
  }

  /** Scanning the consumed elements in order, with any leftovers behind them, reports the same and
      stops at the same place, as long as no call was short of arguments. */
  lemma {:induction false} InOrderSame(cfg: Config, rest: seq<string>, text: string, tail: seq<string>)
    requires Usable(cfg) && Scanning(rest, text)
    requires var r := Permute(cfg, rest, text); !r.overrun && Stops(r, tail) && (!r.lacking || tail == [])
    ensures Scanning(Permute(cfg, rest, text).opts + tail, text)
    ensures var r := Permute(cfg, rest, text);
      InOrder(cfg, r.opts + tail, text) == r.(nonopts := tail)
    decreases |rest|, Size(rest, text), 1
  {
    if text == "" && (rest == [] || rest[0] == "--") {
      assert rest == [] ==> [] + tail == tail;
    } else if text == "" && NonOption(rest[0]) {
      InOrderSame(cfg, rest[1..], "", tail);
    } else {
      InOrderSameOption(cfg, rest, if text == "" then Begin(cfg, rest[0]) else text, tail);
    }
  }

  lemma {:induction false} InOrderSameOption(cfg: Config, rest: seq<string>, text: string, tail: seq<string>)
    requires Usable(cfg) && |rest| > 0 && |rest[0]| >= 2 && text != ""
    requires var r := PermuteOption(cfg, rest, text); !r.overrun && Stops(r, tail) && (!r.lacking || tail == [])
    ensures var r := PermuteOption(cfg, rest, text);
      && |r.opts| > 0 && r.opts[0] == rest[0]
      && InOrderOption(cfg, r.opts + tail, text) == r.(nonopts := tail)
    decreases |rest|, |text|, 0
  {
    hide Decode;
    DecodeProgress(cfg, rest, text);
    var d := Decode(cfg, rest, text);
    var r' := Permute(cfg, rest[d.adv..], d.nextchar);
    InOrderSame(cfg, rest[d.adv..], d.nextchar, tail);
    if d.lacking { DecodeLacking(cfg, rest, text, []); }
    if d.adv == 0 { OptsHead(cfg, rest, d.nextchar); }
    SameHead(cfg, rest, text, d, r'.opts + tail);
    Regroup(rest[..d.adv], r'.opts, tail);
  }

  lemma Regroup(a: seq<string>, b: seq<string>, c: seq<string>)
    ensures a + b + c == a + (b + c)
    ensures (a + (b + c))[|a|..] == b + c && (a + (b + c))[..|a|] == a
  {
  }

  /** The first call of the order-keeping scan of the consumed elements repeats the original call. */
  lemma SameHead(cfg: Config, rest: seq<string>, here: string, d: Decoded, after: seq<string>)
    requires |rest| > 0 && |rest[0]| >= 2 && here != "" && Usable(cfg)
    requires d == Decode(cfg, rest, here) && d.adv <= |rest|
    requires d.adv == 0 ==> |after| > 0 && after[0] == rest[0]
    requires d.lacking ==> after == []
    ensures var s := rest[..d.adv] + after; |s| > 0 && s[0] == rest[0] && Decode(cfg, s, here) == d
  {
    var s := rest[..d.adv] + after;
    if d.lacking {
      DecodeLacking(cfg, rest, here, []);
      assert s == rest;
    } else if d.adv == 0 {
      DecodeProgress(cfg, rest, here);
      DecodeLocal(cfg, rest, here, 1, after[1..]);
      assert s == rest[..1] + after[1..];
    } else {
      DecodeLocal(cfg, rest, here, d.adv, after);
    }
  }

  /** With leftovers behind them, the elements of a run that was short of arguments are read
      differently: the last call takes a leftover. */
  lemma {:induction false} InOrderSwallows(cfg: Config, rest: seq<string>, text: string, tail: seq<string>)
    requires Usable(cfg) && Scanning(rest, text)
    requires var r := Permute(cfg, rest, text); !r.overrun && r.lacking && tail != []
    ensures Scanning(Permute(cfg, rest, text).opts + tail, text)
    ensures var r := Permute(cfg, rest, text);
      var q := InOrder(cfg, r.opts + tail, text);
      q.overrun || |q.opts| > |r.opts|
    decreases |rest|, Size(rest, text), 1
  {
    if text == "" && NonOption(rest[0]) {
      InOrderSwallows(cfg, rest[1..], "", tail);
    } else {
      InOrderSwallowsOption(cfg, rest, if text == "" then Begin(cfg, rest[0]) else text, tail);
    }
  }

  lemma {:induction false} InOrderSwallowsOption(cfg: Config, rest: seq<string>, text: string, tail: seq<string>)
    requires Usable(cfg) && |rest| > 0 && |rest[0]| >= 2 && text != ""
    requires var r := PermuteOption(cfg, rest, text); !r.overrun && r.lacking && tail != []
    ensures var r := PermuteOption(cfg, rest, text);
      && |r.opts| > 0 && r.opts[0] == rest[0]
      && var q := InOrderOption(cfg, r.opts + tail, text);
         q.overrun || |q.opts| > |r.opts|
    decreases |rest|, |text|, 0
  {
    hide Decode;
    DecodeProgress(cfg, rest, text);
    var d := Decode(cfg, rest, text);
    var r' := Permute(cfg, rest[d.adv..], d.nextchar);
    Regroup(rest[..d.adv], r'.opts, tail);
    if d.lacking {
      DecodeLacking(cfg, rest, text, tail);
      assert rest[..d.adv] == rest && r'.opts == [];
      assert rest[..d.adv] + r'.opts == rest;
    } else {
      InOrderSwallows(cfg, rest[d.adv..], d.nextchar, tail);
      if d.adv == 0 { OptsHead(cfg, rest, d.nextchar); }
      SameHead(cfg, rest, text, d, r'.opts + tail);
    }
  }

  const NEEDS := Config("a:", None, false)

  /** prog x -a, with an option a that needs an argument: the run is short of one and leaves x over. */
  lemma LackingRun()
    ensures Usable(NEEDS)
    ensures var r := Permute(NEEDS, ["x", "-a"], "");
      r.lacking && !r.overrun && r.opts == ["-a"] && r.nonopts == ["x"]
  {
    assert Index("a:", 'W').None? && Index("a:", 'a') == Some(0);
    assert ["x", "-a"][1..] == ["-a"] && "-a"[1..] == "a" && "a"[1..] == "";
    assert Begin(NEEDS, "-a") == "a";
    var d := Decode(NEEDS, ["-a"], "a");
    assert d == Decoded(Result(QUESTION, None, Some('a' as int), None), 1, "", true);
    assert ["-a"][1..] == [] && ["-a"][..1] == ["-a"];
    assert Permute(NEEDS, [], "") == Run([], [], [], false, false, false);
    assert PermuteOption(NEEDS, ["-a"], "a") == Run([d.result], ["-a"] + [], [], false, true, false);
  }

  /** Parsing its permuted ARGV, prog -a x, takes x for the argument. */
  lemma LackingReparsed()
    ensures Usable(NEEDS)
    ensures var r := Permute(NEEDS, ["x", "-a"], "");
      InOrder(NEEDS, r.opts + r.nonopts, "") != r
  {
    LackingRun();
    hide Permute, InOrder;
    ReparseAgrees(NEEDS, ["x", "-a"]);
  }

  /** Permuting ARGV does not change the parse: reading the permuted elements in REQUIRE_ORDER mode
      reports the same results and stops at the same element, exactly when no call of the permuting
      run was short of arguments or nothing was left over to be taken for one. */
  lemma ReparseAgrees(cfg: Config, rest: seq<string>)
    requires Usable(cfg) && !Permute(cfg, rest, "").overrun
    ensures var r := Permute(cfg, rest, "");
      var q := InOrder(cfg, r.opts + r.nonopts, "");
      && ((q.results == r.results && q.opts == r.opts && q.nonopts == r.nonopts && !q.overrun)
            <==> (!r.lacking || r.nonopts == []))
      && ((|q.opts| == |r.opts| && !q.overrun) <==> (!r.lacking || r.nonopts == []))
  {
    var r := Permute(cfg, rest, "");
    LeftoversAreNonOptions(cfg, rest, "");
    if !r.lacking || r.nonopts == [] {
      InOrderSame(cfg, rest, "", r.nonopts);
    } else {
      InOrderSwallows(cfg, rest, "", r.nonopts);
    }
  }

  lemma HandOverStarts(cfg: Config, rest: seq<string>)
    requires Usable(cfg) && |rest| > 0 && IsOption(rest[0])
    ensures HandOver(cfg, rest, "") == HandOver(cfg, rest, Begin(cfg, rest[0]))
  {
    hide Decode;
  }

  /** RETURN_IN_ORDER leaves every element where it is, and leaves nothing over but what follows a "--". */
  lemma {:induction false} HandOverInPlace(cfg: Config, rest: seq<string>, text: string)
    requires Usable(cfg) && Scanning(rest, text)
    ensures var r := HandOver(cfg, rest, text);
      !r.overrun ==> r.opts + r.nonopts == rest && (!r.dashed ==> r.nonopts == [])
    decreases |rest|, Size(rest, text), 1
  {
    hide Decode, Begin;
    if text != "" {
      HandOverCall(cfg, rest, text);
    } else if rest != [] && rest[0] != "--" {
      if NonOption(rest[0]) {
        HandOverInPlace(cfg, rest[1..], "");
      } else {
        HandOverStarts(cfg, rest);
        HandOverCall(cfg, rest, Begin(cfg, rest[0]));
      }
    }
  }

  lemma {:induction false} HandOverCall(cfg: Config, rest: seq<string>, text: string)
    requires Usable(cfg) && |rest| > 0 && |rest[0]| >= 2 && text != ""
    ensures var r := HandOver(cfg, rest, text);
      !r.overrun ==> r.opts + r.nonopts == rest && (!r.dashed ==> r.nonopts == [])
    decreases |rest|, |text|, 0
  {
    hide Decode;
    DecodeProgress(cfg, rest, text);
    var d := Decode(cfg, rest, text);
    if d.adv <= |rest| {
      HandOverInPlace(cfg, rest[d.adv..], d.nextchar);
      var q := HandOver(cfg, rest[d.adv..], d.nextchar);
      assert HandOver(cfg, rest, text) == d.Then(rest, q);
      Associative(rest[..d.adv], q.opts, q.nonopts);
      assert rest[..d.adv] + rest[d.adv..] == rest;
    }
  }
}
