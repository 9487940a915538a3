/** What one call of _getopt_internal makes of the current element of ARGV, and what a whole run
    of calls does to ARGV, both for the permuting and for the order-keeping scan. Strings hold no
    NUL; the end of a string stands for its terminator. */
module GetoptSpec {
  import opened Basics

  /** One struct option; hasFlag says that its flag field is not null. */
  datatype LongOpt = LongOpt(name: string, hasArg: int, hasFlag: bool, val: int)

  datatype Config = Config(optstring: string, longopts: Option<seq<LongOpt>>, longOnly: bool)

  /** What a call reports: the returned code, optarg, and optopt and longind where it sets them. */
  datatype Result = Result(code: int, optarg: Option<string>, optopt: Option<int>, longind: Option<nat>)

  const QUESTION := '?' as int
  const COLON := ':' as int

  /** NONOPTION_P. */
  predicate NonOption(arg: string) {
    |arg| < 2 || arg[0] != '-'
  }

  predicate IsOption(arg: string) {
    !NonOption(arg) && arg != "--"
  }

  /** my_index: the first position of c. */
  function Index(s: string, c: char): (r: Option<nat>)
    ensures r.Some? ==> r.value < |s| && s[r.value] == c && c !in s[..r.value]
    ensures r.None? <==> c !in s
  {
    if s == "" then None
    else if s[0] == c then Some(0)
    else
      var r := Index(s[1..], c);
      if r.Some? then
        assert s[..r.value + 1] == [s[0]] + s[1..][..r.value];
        Some(r.value + 1)
      else None
  }

  predicate HasAt(s: string, i: nat, c: char) {
    i < |s| && s[i] == c
  }

  /** Whether optstring asks for -W foo to mean --foo. */
  predicate Wants(optstring: string) {
    var w := Index(optstring, 'W');
    w.Some? && HasAt(optstring, w.value + 1, ';')
  }

  /** The source walks the table of long options whenever -W foo is enabled. */
  predicate Usable(cfg: Config) {
    Wants(cfg.optstring) ==> cfg.longopts.Some?
  }

  /** Where the name of a long option ends: at its '=' or at the end of the text. */
  function NameEnd(text: string): (e: nat)
    ensures e <= |text| && '=' !in text[..e]
    ensures e < |text| ==> text[e] == '='
  {
    var i := Index(text, '=');
    if i.Some? then i.value else |text|
  }

  // ---------------------------------------------------------------- long option table

  predicate Exact(l: LongOpt, key: string) {
    l.name == key
  }

  predicate Abbreviates(l: LongOpt, key: string) {
    key <= l.name
  }

  function FirstExact(ls: seq<LongOpt>, key: string): (r: Option<nat>)
    ensures r.Some? ==> r.value < |ls| && Exact(ls[r.value], key) && FirstExact(ls[..r.value], key).None?
    ensures r.None? <==> forall i :: 0 <= i < |ls| ==> !Exact(ls[i], key)
  {
    if ls == [] then None
    else
      var front := ls[..|ls| - 1];
      var r := FirstExact(front, key);
      if r.Some? then
        assert front[..r.value] == ls[..r.value];
        r
      else if Exact(ls[|ls| - 1], key) then Some(|ls| - 1) else None
  }

  function FirstPrefix(ls: seq<LongOpt>, key: string): (r: Option<nat>)
    ensures r.Some? ==> r.value < |ls| && Abbreviates(ls[r.value], key)
                        && forall i :: 0 <= i < r.value ==> !Abbreviates(ls[i], key)
    ensures r.None? <==> forall i :: 0 <= i < |ls| ==> !Abbreviates(ls[i], key)
  {
    if ls == [] then None
    else
      var r := FirstPrefix(ls[..|ls| - 1], key);
      if r.Some? then r
      else if Abbreviates(ls[|ls| - 1], key) then Some(|ls| - 1) else None
  }

  function Abbreviated(ls: seq<LongOpt>, key: string): nat {
    if ls == [] then 0
    else Abbreviated(ls[..|ls| - 1], key) + if Abbreviates(ls[|ls| - 1], key) then 1 else 0
  }

  datatype Match = Unknown | Ambiguous | Found(index: nat)

  function Search(ls: seq<LongOpt>, key: string): (m: Match)
    ensures m.Found? ==> m.index < |ls|
  {
    if FirstExact(ls, key).Some? then Found(FirstExact(ls, key).value)
    else if Abbreviated(ls, key) >= 2 then Ambiguous
    else if FirstPrefix(ls, key).Some? then Found(FirstPrefix(ls, key).value)
    else Unknown
  }

  lemma {:induction false} AbbreviatedCounts(ls: seq<LongOpt>, key: string)
    ensures Abbreviated(ls, key) == 0 <==> forall i :: 0 <= i < |ls| ==> !Abbreviates(ls[i], key)
    ensures Abbreviated(ls, key) >= 2 <==>
            exists i, j :: 0 <= i < j < |ls| && Abbreviates(ls[i], key) && Abbreviates(ls[j], key)
  {
    if ls != [] {
      var front := ls[..|ls| - 1];
      AbbreviatedCounts(front, key);
      if Abbreviated(front, key) >= 2 {
        var i, j :| 0 <= i < j < |front| && Abbreviates(front[i], key) && Abbreviates(front[j], key);
        assert Abbreviates(ls[i], key) && Abbreviates(ls[j], key);
      } else if Abbreviated(ls, key) >= 2 {
        var i :| 0 <= i < |front| && Abbreviates(front[i], key);
        assert Abbreviates(ls[i], key) && Abbreviates(ls[|ls| - 1], key);
      }
      forall i, j | 0 <= i < j < |ls| && Abbreviates(ls[i], key) && Abbreviates(ls[j], key)
        ensures Abbreviated(ls, key) >= 2
      {
        assert Abbreviates(front[i], key);
      }
    }
  }

  /** A key finds entry k exactly if k is its first exact match or, without an exact match, the one
      entry it abbreviates. */
  lemma SearchResolves(ls: seq<LongOpt>, key: string, k: nat)
    requires k < |ls|
    ensures Search(ls, key) == Found(k) <==>
      || (Exact(ls[k], key) && forall i :: 0 <= i < k ==> !Exact(ls[i], key))
      || (Abbreviates(ls[k], key)
          && forall i :: 0 <= i < |ls| ==> !Exact(ls[i], key) && (Abbreviates(ls[i], key) ==> i == k))
  {
    AbbreviatedCounts(ls, key);
    if FirstExact(ls, key).Some? && Exact(ls[k], key) && forall i :: 0 <= i < k ==> !Exact(ls[i], key) {
      var e := FirstExact(ls, key).value;
    }
    if Search(ls, key) == Found(k) && FirstExact(ls, key).Some? {
      forall i | 0 <= i < k ensures !Exact(ls[i], key) { assert !Exact(ls[..k][i], key); }
    }
  }

  // ---------------------------------------------------------------- one option

  /** A run of calls up to the first -1: what the calls report, the elements consumed as options
      with their arguments and a final "--", the elements left over, whether a "--" ended the run,
      whether some call found ARGV too short, and whether optind ran past argc. */
  datatype Run = Run(results: seq<Result>, opts: seq<string>, nonopts: seq<string>,
                     dashed: bool, lacking: bool, overrun: bool)

  /** The outcome of decoding at nextchar in rest[0]: what is reported, how many elements optind
      passes, what is left to scan in the element, and whether ARGV ended too early. */
  datatype Decoded = Decoded(result: Result, adv: nat, nextchar: string, lacking: bool) {
    /** The run that starts with this call and goes on like r. */
    function Then(rest: seq<string>, r: Run): Run
      requires adv <= |rest|
    {
      Run([result] + r.results, rest[..adv] + r.opts, r.nonopts, r.dashed, lacking || r.lacking, r.overrun)
    }
  }

  function Missing(cfg: Config): int {
    if HasAt(cfg.optstring, 0, ':') then COLON else QUESTION
  }

  predicate IsLong(cfg: Config, arg: string)
    requires |arg| >= 2
  {
    cfg.longopts.Some? && (arg[1] == '-' || (cfg.longOnly && (|arg| > 2 || Index(cfg.optstring, arg[1]).None?)))
  }

  /** A long option found in the table under the name text[..e]; used elements of rest have been
      passed already. Under -W, optarg already holds the name and optopt is left alone. */
  function LongFound(cfg: Config, rest: seq<string>, text: string, k: nat, used: nat, w: bool): Decoded
    requires cfg.longopts.Some? && k < |cfg.longopts.value|
  {
    var p, e := cfg.longopts.value[k], NameEnd(text);
    var code := if p.hasFlag then 0 else p.val;
    var optarg := if w then Some(text) else None;
    var bad := if w then None else Some(p.val);
    if e < |text| then
      if p.hasArg != 0 then Decoded(Result(code, Some(text[e + 1..]), None, Some(k)), used, "", false)
      else Decoded(Result(QUESTION, optarg, bad, None), used, "", false)
    else if p.hasArg == 1 then
      if used < |rest| then Decoded(Result(code, Some(rest[used]), None, Some(k)), used + 1, "", false)
      else Decoded(Result(Missing(cfg), optarg, bad, None), used, "", true)
    else Decoded(Result(code, optarg, None, Some(k)), used, "", false)
  }

  /** The argument of -W, looked up as a long option. An ambiguous name skips one element more. */
  function WOption(cfg: Config, rest: seq<string>, text: string, used: nat): Decoded
    requires cfg.longopts.Some?
  {
    match Search(cfg.longopts.value, text[..NameEnd(text)])
    case Ambiguous => Decoded(Result(QUESTION, Some(text), None, None), used + 1, "", used + 1 > |rest|)
    case Found(k) => LongFound(cfg, rest, text, k, used, true)
    case Unknown => Decoded(Result('W' as int, Some(text), None, None), used, "", false)
  }

  /** The argument, if any, of the short option at position t of optstring: the text left in the
      element, or the next element unless the argument is optional. */
  function Argument(cfg: Config, rest: seq<string>, t: nat, left: string, used: nat): Decoded
    requires t < |cfg.optstring|
  {
    var c := cfg.optstring[t] as int;
    if !HasAt(cfg.optstring, t + 1, ':') then Decoded(Result(c, None, None, None), used, left, false)
    else if left != "" then Decoded(Result(c, Some(left), None, None), used + 1, "", false)
    else if HasAt(cfg.optstring, t + 2, ':') then Decoded(Result(c, None, None, None), used, "", false)
    else if used >= |rest| then Decoded(Result(Missing(cfg), None, Some(c), None), used, "", true)
    else Decoded(Result(c, Some(rest[used]), None, None), used + 1, "", false)
  }

  function Short(cfg: Config, rest: seq<string>, text: string): Decoded
    requires |rest| > 0 && text != "" && Usable(cfg)
  {
    var c, left := text[0], text[1..];
    var used := if left == "" then 1 else 0;
    var t := Index(cfg.optstring, c);
    if t.None? || c == ':' then Decoded(Result(QUESTION, None, Some(c as int), None), used, left, false)
    else if c == 'W' && HasAt(cfg.optstring, t.value + 1, ';') then
      if left != "" then WOption(cfg, rest, left, used + 1)
      else if used == |rest| then Decoded(Result(Missing(cfg), None, Some(c as int), None), used, "", true)
      else WOption(cfg, rest, rest[used], used + 1)
    else Argument(cfg, rest, t.value, left, used)
  }

  function Decode(cfg: Config, rest: seq<string>, text: string): Decoded
    requires |rest| > 0 && |rest[0]| >= 2 && text != "" && Usable(cfg)
  {
    if IsLong(cfg, rest[0]) then
      match Search(cfg.longopts.value, text[..NameEnd(text)])
      case Ambiguous => Decoded(Result(QUESTION, None, Some(0), None), 1, "", false)
      case Found(k) => LongFound(cfg, rest, text, k, 1, false)
      case Unknown =>
        if !cfg.longOnly || rest[0][1] == '-' || Index(cfg.optstring, text[0]).None? then
          Decoded(Result(QUESTION, None, Some(0), None), 1, "", false)
        else Short(cfg, rest, text)
    else Short(cfg, rest, text)
  }

  /** Where the scan of a fresh option element starts. */
  function Begin(cfg: Config, arg: string): (text: string)
    requires IsOption(arg)
    ensures text != "" && |text| < |arg|
  {
    if cfg.longopts.Some? && arg[1] == '-' then
      assert |arg| == 2 ==> arg == "--";
      arg[2..]
    else arg[1..]
  }

  // ---------------------------------------------------------------- whole runs

  function Size(rest: seq<string>, text: string): nat {
    if text != "" then |text| else if rest == [] then 0 else |rest[0]|
  }

  /** The text of the element being scanned is never more than the element. */
  predicate Scanning(rest: seq<string>, text: string) {
    text != "" ==> |rest| > 0 && |rest[0]| >= 2
  }

  lemma WProgress(cfg: Config, rest: seq<string>, text: string, used: nat)
    requires cfg.longopts.Some? && used > 0
    ensures WOption(cfg, rest, text, used).adv > 0 && WOption(cfg, rest, text, used).nextchar == ""
  {
    hide Search, NameEnd;
  }

  lemma ArgumentProgress(cfg: Config, rest: seq<string>, t: nat, left: string, used: nat)
    requires t < |cfg.optstring| && used == if left == "" then 1 else 0
    ensures var d := Argument(cfg, rest, t, left, used);
      if d.adv == 0 then d.nextchar == left != "" else d.nextchar == ""
  {
  }

  lemma ShortProgress(cfg: Config, rest: seq<string>, text: string)
    requires |rest| > 0 && text != "" && Usable(cfg)
    ensures var d := Short(cfg, rest, text);
      if d.adv == 0 then d.nextchar == text[1..] != "" else d.nextchar == ""
  {
    var left, t := text[1..], Index(cfg.optstring, text[0]);
    var used := if left == "" then 1 else 0;
    if t.Some? {
      ArgumentProgress(cfg, rest, t.value, left, used);
      if Wants(cfg.optstring) {
        WProgress(cfg, rest, left, used + 1);
        if used < |rest| { WProgress(cfg, rest, rest[used], used + 1); }
      }
    }
    hide WOption, Argument, Index;
  }

  lemma LongProgress(cfg: Config, rest: seq<string>, text: string, k: nat)
    requires cfg.longopts.Some? && k < |cfg.longopts.value|
    ensures LongFound(cfg, rest, text, k, 1, false).adv > 0 && LongFound(cfg, rest, text, k, 1, false).nextchar == ""
  {
  }

  /** A call passes the element, or leaves less of it to scan. */
  lemma DecodeProgress(cfg: Config, rest: seq<string>, text: string)
    requires |rest| > 0 && |rest[0]| >= 2 && text != "" && Usable(cfg)
    ensures var d := Decode(cfg, rest, text);
      if d.adv == 0 then d.nextchar == text[1..] != "" else d.nextchar == ""
  {
    ShortProgress(cfg, rest, text);
    hide Short, LongFound, Search, NameEnd, Index;
    if IsLong(cfg, rest[0]) && Search(cfg.longopts.value, text[..NameEnd(text)]).Found? {
      LongProgress(cfg, rest, text, Search(cfg.longopts.value, text[..NameEnd(text)]).index);
    }
  }

  /** Ordering PERMUTE: leading non-options are set aside, the rest is scanned on. */
  function Permute(cfg: Config, rest: seq<string>, text: string): Run
    requires Usable(cfg) && Scanning(rest, text)
    decreases |rest|, Size(rest, text), 1
  {
    if text == "" && rest == [] then Run([], [], [], false, false, false)
    else if text == "" && rest[0] == "--" then Run([], ["--"], rest[1..], true, false, false)
    else if text == "" && NonOption(rest[0]) then
      var r := Permute(cfg, rest[1..], "");
      r.(nonopts := [rest[0]] + r.nonopts)
    else
      PermuteOption(cfg, rest, if text == "" then Begin(cfg, rest[0]) else text)
  }

  function PermuteOption(cfg: Config, rest: seq<string>, text: string): Run
    requires Usable(cfg) && |rest| > 0 && |rest[0]| >= 2 && text != ""
    decreases |rest|, |text|, 0
  {
    DecodeProgress(cfg, rest, text);
    var d := Decode(cfg, rest, text);
    if d.adv > |rest| then Run([d.result], rest, [], false, true, true)
    else d.Then(rest, Permute(cfg, rest[d.adv..], d.nextchar))
  }

  /** Ordering REQUIRE_ORDER: the first non-option ends the run. */
  function InOrder(cfg: Config, rest: seq<string>, text: string): Run
    requires Usable(cfg) && Scanning(rest, text)
    decreases |rest|, Size(rest, text), 1
  {
    if text == "" && rest == [] then Run([], [], [], false, false, false)
    else if text == "" && rest[0] == "--" then Run([], ["--"], rest[1..], true, false, false)
    else if text == "" && NonOption(rest[0]) then Run([], [], rest, false, false, false)
    else
      InOrderOption(cfg, rest, if text == "" then Begin(cfg, rest[0]) else text)
  }

  function InOrderOption(cfg: Config, rest: seq<string>, text: string): Run
    requires Usable(cfg) && |rest| > 0 && |rest[0]| >= 2 && text != ""
    decreases |rest|, |text|, 0
  {
    DecodeProgress(cfg, rest, text);
    var d := Decode(cfg, rest, text);
    if d.adv > |rest| then Run([d.result], rest, [], false, true, true)
    else d.Then(rest, InOrder(cfg, rest[d.adv..], d.nextchar))
  }

  /** Ordering RETURN_IN_ORDER: a non-option is reported where it stands, as the argument of an option
      with code 1. */
  function HandOver(cfg: Config, rest: seq<string>, text: string): Run
    requires Usable(cfg) && Scanning(rest, text)
    decreases |rest|, Size(rest, text), 1
  {
    if text == "" && rest == [] then Run([], [], [], false, false, false)
    else if text == "" && rest[0] == "--" then Run([], ["--"], rest[1..], true, false, false)
    else if text == "" && NonOption(rest[0]) then
      var r := HandOver(cfg, rest[1..], "");
      r.(results := [Result(1, Some(rest[0]), None, None)] + r.results, opts := [rest[0]] + r.opts)
    else
      HandOverOption(cfg, rest, if text == "" then Begin(cfg, rest[0]) else text)
  }

  function HandOverOption(cfg: Config, rest: seq<string>, text: string): Run
    requires Usable(cfg) && |rest| > 0 && |rest[0]| >= 2 && text != ""
    decreases |rest|, |text|, 0
  {
    DecodeProgress(cfg, rest, text);
    var d := Decode(cfg, rest, text);
    if d.adv > |rest| then Run([d.result], rest, [], false, true, true)
    else d.Then(rest, HandOver(cfg, rest[d.adv..], d.nextchar))
  }
}
