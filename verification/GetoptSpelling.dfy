/** Command lines spelled out of what their author means: options with and without arguments, long names,
    abbreviations, mistakes and plain words. A run of getopt reports exactly what was meant. */
module GetoptSpelling {
  import opened Basics
  import opened GetoptSpec

  // ---------------------------------------------------------------- what the option string declares

  datatype Kind = Undeclared | NoArgument | RequiredArgument | OptionalArgument | LongName

  /** What optstring says of option character c: by itself, before a colon, before two, or W before a
      semicolon. */
  function KindOf(optstring: string, c: char): Kind {
    var t := Index(optstring, c);
    if t.None? || c == ':' then Undeclared
    else if c == 'W' && HasAt(optstring, t.value + 1, ';') then LongName
    else if !HasAt(optstring, t.value + 1, ':') then NoArgument
    else if !HasAt(optstring, t.value + 2, ':') then RequiredArgument
    else OptionalArgument
  }

  // ---------------------------------------------------------------- what is meant, and how it is spelled

  /** A long option by its name or the start of it, an argument behind an equals sign, and an argument in
      an element of its own. */
  datatype Named = Named(key: string, value: Option<string>, next: Option<string>)

  /** The end of a cluster of short options: nothing more, or an option with its argument attached, in the
      next element, left out, or missing at the end of ARGV; or W with a long option attached, in the next
      element, or missing. */
  datatype Ending =
    | Plain
    | Attached(c: char, arg: string)
    | Separate(c: char, arg: string)
    | Omitted(c: char)
    | Lacking(c: char)
    | WAttached(name: Named)
    | WSeparate(name: Named)
    | WLacking

  datatype Item =
    | Word(word: string)
    | Cluster(flags: string, ending: Ending)
    | Long(dashes: string, name: Named)

  function NameText(n: Named): string {
    n.key + if n.value.Some? then "=" + n.value.value else ""
  }

  function NextElement(n: Named): seq<string> {
    if n.next.Some? then [n.next.value] else []
  }

  function EndingText(e: Ending): string {
    match e
    case Plain => ""
    case Attached(c, arg) => [c] + arg
    case Separate(c, _) => [c]
    case Omitted(c) => [c]
    case Lacking(c) => [c]
    case WAttached(n) => "W" + NameText(n)
    case WSeparate(_) => "W"
    case WLacking => "W"
  }

  function EndingElements(e: Ending): seq<string> {
    match e
    case Separate(_, arg) => [arg]
    case WAttached(n) => NextElement(n)
    case WSeparate(n) => [NameText(n)] + NextElement(n)
    case _ => []
  }

  /** The elements of ARGV. */
  function Spelled(i: Item): seq<string> {
    match i
    case Word(w) => [w]
    case Cluster(flags, e) => ["-" + flags + EndingText(e)] + EndingElements(e)
    case Long(dashes, n) => [dashes + NameText(n)] + NextElement(n)
  }

  // ---------------------------------------------------------------- what getopt ought to report

  /** The code for an argument that is missing: a colon if optstring starts with one. */
  function NoArgumentCode(cfg: Config): int {
    if cfg.optstring != "" && cfg.optstring[0] == ':' then ':' as int else '?' as int
  }

  /** One flag of a cluster: its own code, or a question mark and optopt for an unknown one. */
  function FlagResult(cfg: Config, c: char): Result {
    if KindOf(cfg.optstring, c) == Undeclared then Result('?' as int, None, Some(c as int), None)
    else Result(c as int, None, None, None)
  }

  function FlagResults(cfg: Config, flags: string): (rs: seq<Result>)
    ensures |rs| == |flags|
  {
    seq(|flags|, i requires 0 <= i < |flags| => FlagResult(cfg, flags[i]))
  }

  /** A long option of the table, spelled as n says: its val, or 0 if it has a flag, with its argument and
      its index. An argument that is not wanted, or is missing, is an error. Behind W, optarg holds the
      name unless there is an argument, and optopt is not set. */
  function FoundResult(cfg: Config, n: Named, k: nat, w: bool): Result
    requires cfg.longopts.Some? && k < |cfg.longopts.value|
  {
    var l := cfg.longopts.value[k];
    var code := if l.hasFlag then 0 else l.val;
    var name := if w then Some(NameText(n)) else None;
    var optopt := if w then None else Some(l.val);
    if n.value.Some? then
      if l.hasArg == 0 then Result('?' as int, name, optopt, None) else Result(code, n.value, None, Some(k))
    else if l.hasArg == 1 then
      if n.next.Some? then Result(code, n.next, None, Some(k)) else Result(NoArgumentCode(cfg), name, optopt, None)
    else Result(code, name, None, Some(k))
  }

  function NamedResult(cfg: Config, n: Named, w: bool): Result
    requires cfg.longopts.Some?
  {
    match Search(cfg.longopts.value, n.key)
    case Found(k) => FoundResult(cfg, n, k, w)
    case Ambiguous =>
      if w then Result('?' as int, Some(NameText(n)), None, None) else Result('?' as int, None, Some(0), None)
    case Unknown =>
      if w then Result('W' as int, Some(NameText(n)), None, None) else Result('?' as int, None, Some(0), None)
  }

  function EndingResults(cfg: Config, e: Ending): seq<Result>
    requires e.WAttached? || e.WSeparate? ==> cfg.longopts.Some?
  {
    match e
    case Plain => []
    case Attached(c, arg) => [Result(c as int, Some(arg), None, None)]
    case Separate(c, arg) => [Result(c as int, Some(arg), None, None)]
    case Omitted(c) => [Result(c as int, None, None, None)]
    case Lacking(c) => [Result(NoArgumentCode(cfg), None, Some(c as int), None)]
    case WAttached(n) => [NamedResult(cfg, n, true)]
    case WSeparate(n) => [NamedResult(cfg, n, true)]
    case WLacking => [Result(NoArgumentCode(cfg), None, Some('W' as int), None)]
  }

  function Meant(cfg: Config, i: Item): seq<Result>
    requires Proper(cfg, i)
  {
    match i
    case Word(_) => []
    case Cluster(flags, e) => FlagResults(cfg, flags) + EndingResults(cfg, e)
    case Long(_, n) => [NamedResult(cfg, n, false)]
  }

  // ---------------------------------------------------------------- proper spellings

  /** An element of its own is there exactly where getopt takes one: the argument of an option that needs
      it, and, behind W, what an ambiguous name makes it skip. */
  predicate NamedFits(cfg: Config, n: Named, w: bool) {
    && cfg.longopts.Some? && '=' !in n.key
    && match Search(cfg.longopts.value, n.key)
       case Found(k) => n.next.Some? ==> n.value.None? && cfg.longopts.value[k].hasArg == 1
       case Ambiguous => n.next.Some? <==> w
       case Unknown => n.next.None?
  }

  predicate EndingFits(cfg: Config, e: Ending) {
    match e
    case Plain => true
    case Attached(c, arg) => arg != "" && KindOf(cfg.optstring, c) in {RequiredArgument, OptionalArgument}
    case Separate(c, _) => KindOf(cfg.optstring, c) == RequiredArgument
    case Omitted(c) => KindOf(cfg.optstring, c) == OptionalArgument
    case Lacking(c) => KindOf(cfg.optstring, c) == RequiredArgument
    case WAttached(n) => NameText(n) != "" && KindOf(cfg.optstring, 'W') == LongName && NamedFits(cfg, n, true)
    case WSeparate(n) => KindOf(cfg.optstring, 'W') == LongName && NamedFits(cfg, n, true)
    case WLacking => KindOf(cfg.optstring, 'W') == LongName
  }

  /** Behind two dashes, if there are long options at all; with getopt_long_only also behind one, unless all
      that follows is a single short option. */
  predicate TriedAsLong(cfg: Config, arg: string)
    requires |arg| >= 2
  {
    && cfg.longopts.Some?
    && (arg[1] == '-' || (cfg.longOnly && !(arg[1..] == [arg[1]] && arg[1] in cfg.optstring)))
  }

  /** getopt_long_only takes a single dash for a long option too, unless what follows is none and starts
      with a short option. */
  predicate ReadAsShort(cfg: Config, arg: string, text: string)
    requires |arg| >= 2 && text != ""
  {
    TriedAsLong(cfg, arg) ==>
      && cfg.longOnly && arg[1] != '-' && text[0] in cfg.optstring
      && Search(cfg.longopts.value, text[..NameEnd(text)]).Unknown?
  }

  predicate Proper(cfg: Config, i: Item) {
    match i
    case Word(w) => NonOption(w)
    case Cluster(flags, e) =>
      var text := flags + EndingText(e);
      && text != "" && text[0] != '-' && EndingFits(cfg, e)
      && (forall c <- flags :: KindOf(cfg.optstring, c) in {NoArgument, Undeclared})
      && (forall j :: 0 <= j <= |flags| && j < |text| ==> ReadAsShort(cfg, "-" + text, text[j..]))
    case Long(dashes, n) =>
      var text := NameText(n);
      && NamedFits(cfg, n, false) && text != ""
      && (dashes == "--" || (dashes == "-" && TriedAsLong(cfg, "-" + text) && text[0] != '-'
                             && (Search(cfg.longopts.value, n.key).Unknown? ==> text[0] !in cfg.optstring)))
  }

  predicate NamedLacks(cfg: Config, n: Named)
    requires cfg.longopts.Some?
  {
    var m := Search(cfg.longopts.value, n.key);
    m.Found? && n.value.None? && n.next.None? && cfg.longopts.value[m.index].hasArg == 1
  }

  /** An argument is missing, so nothing may follow. */
  predicate EndingLacks(cfg: Config, e: Ending)
    requires e.WAttached? || e.WSeparate? ==> cfg.longopts.Some?
  {
    match e
    case Lacking(_) => true
    case WLacking => true
    case WAttached(n) => NamedLacks(cfg, n)
    case WSeparate(n) => NamedLacks(cfg, n)
    case _ => false
  }

  predicate Lacks(cfg: Config, i: Item)
    requires Proper(cfg, i)
  {
    match i
    case Word(_) => false
    case Cluster(_, e) => EndingLacks(cfg, e)
    case Long(_, n) => NamedLacks(cfg, n)
  }

  // ---------------------------------------------------------------- one call

  lemma NameEnds(n: Named)
    requires '=' !in n.key
    ensures NameEnd(NameText(n)) == |n.key| <= |NameText(n)| && NameText(n)[..|n.key|] == n.key
    ensures if n.value.Some? then |n.key| < |NameText(n)| && NameText(n)[|n.key| + 1..] == n.value.value
            else NameText(n) == n.key
  {
    var text := NameText(n);
    assert text[..|n.key|] == n.key && (n.value.Some? ==> text[|n.key|] == '=');
    NameEndIs(text, |n.key|);
    if n.value.None? { assert text == n.key; }
  }

  lemma NameEndIs(text: string, e: nat)
    requires e <= |text| && '=' !in text[..e] && (e < |text| ==> text[e] == '=')
    ensures NameEnd(text) == e
  {
    var i := NameEnd(text);
    assert forall k :: 0 <= k < e ==> text[..e][k] != '=' && text[k] != '=';
    assert forall k :: 0 <= k < i ==> text[..i][k] != '=' && text[k] != '=';
  }

  lemma FoundDecoded(cfg: Config, rest: seq<string>, n: Named, k: nat, used: nat, w: bool, tail: seq<string>)
    requires cfg.longopts.Some? && k < |cfg.longopts.value| && '=' !in n.key
    requires used <= |rest| && rest[used..] == NextElement(n) + tail
    requires n.next.Some? ==> n.value.None? && cfg.longopts.value[k].hasArg == 1
    requires n.value.None? && n.next.None? && cfg.longopts.value[k].hasArg == 1 ==> tail == []
    ensures LongFound(cfg, rest, NameText(n), k, used, w) ==
      Decoded(FoundResult(cfg, n, k, w), used + |NextElement(n)|, "",
              n.value.None? && n.next.None? && cfg.longopts.value[k].hasArg == 1)
  {
    NameEnds(n);
    hide NameEnd, NameText;
    assert n.next.Some? ==> rest[used..][0] == n.next.value;
  }

  lemma NamedDecodedW(cfg: Config, rest: seq<string>, n: Named, used: nat, tail: seq<string>)
    requires NamedFits(cfg, n, true) && used <= |rest| && rest[used..] == NextElement(n) + tail
    requires NamedLacks(cfg, n) ==> tail == []
    ensures WOption(cfg, rest, NameText(n), used) ==
      Decoded(NamedResult(cfg, n, true), used + |NextElement(n)|, "", NamedLacks(cfg, n))
  {
    NameEnds(n);
    hide NameEnd, NameText, Search, LongFound, FoundResult;
    var m := Search(cfg.longopts.value, n.key);
    if m.Found? { FoundDecoded(cfg, rest, n, m.index, used, true, tail); }
  }

  lemma DecodesShort(cfg: Config, rest: seq<string>, text: string)
    requires |rest| > 0 && |rest[0]| >= 2 && text != "" && Usable(cfg) && ReadAsShort(cfg, rest[0], text)
    ensures Decode(cfg, rest, text) == Short(cfg, rest, text)
  {
    hide Short, LongFound, NameEnd;
  }

  lemma FlagDecoded(cfg: Config, rest: seq<string>, text: string)
    requires |rest| > 0 && |rest[0]| >= 2 && text != "" && Usable(cfg) && ReadAsShort(cfg, rest[0], text)
    requires KindOf(cfg.optstring, text[0]) in {NoArgument, Undeclared}
    ensures Decode(cfg, rest, text) ==
      Decoded(FlagResult(cfg, text[0]), if |text| == 1 then 1 else 0, text[1..], false)
  {
    DecodesShort(cfg, rest, text);
    hide Decode, WOption, Index;
  }

  /** How an ending is decoded, arg being the element it is in. */
  lemma EndingDecoded(cfg: Config, arg: string, e: Ending, tail: seq<string>)
    requires Usable(cfg) && !e.Plain? && EndingFits(cfg, e) && (EndingLacks(cfg, e) ==> tail == [])
    ensures EndingText(e) != ""
    ensures Short(cfg, [arg] + EndingElements(e) + tail, EndingText(e)) ==
      Decoded(EndingResults(cfg, e)[0], 1 + |EndingElements(e)|, "", EndingLacks(cfg, e))
  {
    if e.WAttached? || e.WSeparate? || e.WLacking? {
      WEndingDecoded(cfg, arg, e, tail);
    } else {
      ArgumentDecoded(cfg, arg, e, tail);
    }
  }

  lemma ArgumentDecoded(cfg: Config, arg: string, e: Ending, tail: seq<string>)
    requires Usable(cfg) && (e.Attached? || e.Separate? || e.Omitted? || e.Lacking?)
    requires EndingFits(cfg, e) && (e.Lacking? ==> tail == [])
    ensures EndingText(e) != ""
    ensures Short(cfg, [arg] + EndingElements(e) + tail, EndingText(e)) ==
      Decoded(EndingResults(cfg, e)[0], 1 + |EndingElements(e)|, "", e.Lacking?)
  {
    var rest, text := [arg] + EndingElements(e) + tail, EndingText(e);
    assert text[0] == e.c && text[1..] == if e.Attached? then e.arg else "";
    assert e.Separate? ==> rest[1] == e.arg;
    hide WOption, Index;
  }

  lemma WEndingDecoded(cfg: Config, arg: string, e: Ending, tail: seq<string>)
    requires Usable(cfg) && (e.WAttached? || e.WSeparate? || e.WLacking?)
    requires EndingFits(cfg, e) && (EndingLacks(cfg, e) ==> tail == [])
    ensures EndingText(e) != ""
    ensures Short(cfg, [arg] + EndingElements(e) + tail, EndingText(e)) ==
      Decoded(EndingResults(cfg, e)[0], 1 + |EndingElements(e)|, "", EndingLacks(cfg, e))
  {
    hide Short, KindOf, NameText, NamedResult, NamedFits, NamedLacks, NextElement;
    if e.WAttached? {
      WAttachedDecoded(cfg, arg, e.name, tail);
    } else if e.WSeparate? {
      WSeparateDecoded(cfg, arg, e.name, tail);
    } else {
      WLackingDecoded(cfg, arg);
      assert [arg] + [] + [] == [arg];
    }
  }

  lemma WAttachedDecoded(cfg: Config, arg: string, n: Named, tail: seq<string>)
    requires Usable(cfg) && NameText(n) != "" && KindOf(cfg.optstring, 'W') == LongName && NamedFits(cfg, n, true)
    requires NamedLacks(cfg, n) ==> tail == []
    ensures Short(cfg, [arg] + NextElement(n) + tail, "W" + NameText(n)) ==
      Decoded(NamedResult(cfg, n, true), 1 + |NextElement(n)|, "", NamedLacks(cfg, n))
  {
    var rest, text := [arg] + NextElement(n) + tail, "W" + NameText(n);
    assert text[1..] == NameText(n) && rest[1..] == NextElement(n) + tail;
    hide Short, KindOf, NameText, NamedResult, NamedFits, NamedLacks, NextElement, WOption;
    ShortW(cfg, rest, text);
    NamedDecodedW(cfg, rest, n, 1, tail);
  }

  lemma WSeparateDecoded(cfg: Config, arg: string, n: Named, tail: seq<string>)
    requires Usable(cfg) && KindOf(cfg.optstring, 'W') == LongName && NamedFits(cfg, n, true)
    requires NamedLacks(cfg, n) ==> tail == []
    ensures Short(cfg, [arg] + ([NameText(n)] + NextElement(n)) + tail, "W") ==
      Decoded(NamedResult(cfg, n, true), 2 + |NextElement(n)|, "", NamedLacks(cfg, n))
  {
    var rest := [arg] + ([NameText(n)] + NextElement(n)) + tail;
    assert rest[1] == NameText(n) && rest[2..] == NextElement(n) + tail;
    hide Short, KindOf, NameText, NamedResult, NamedFits, NamedLacks, NextElement, WOption;
    ShortW(cfg, rest, "W");
    NamedDecodedW(cfg, rest, n, 2, tail);
  }

  lemma WLackingDecoded(cfg: Config, arg: string)
    requires Usable(cfg) && KindOf(cfg.optstring, 'W') == LongName
    ensures Short(cfg, [arg], "W") == Decoded(Result(NoArgumentCode(cfg), None, Some('W' as int), None), 1, "", true)
  {
    ShortW(cfg, [arg], "W");
    hide Short, KindOf;
  }

  lemma ShortW(cfg: Config, rest: seq<string>, text: string)
    requires Usable(cfg) && |rest| > 0 && text != "" && text[0] == 'W' && KindOf(cfg.optstring, 'W') == LongName
    ensures Short(cfg, rest, text) ==
      if |text| > 1 then WOption(cfg, rest, text[1..], 1)
      else if |rest| == 1 then Decoded(Result(NoArgumentCode(cfg), None, Some('W' as int), None), 1, "", true)
      else WOption(cfg, rest, rest[1], 2)
  {
    hide WOption, Argument, Index;
  }

  lemma LongDecoded(cfg: Config, dashes: string, n: Named, tail: seq<string>)
    requires Usable(cfg) && Proper(cfg, Long(dashes, n)) && (NamedLacks(cfg, n) ==> tail == [])
    ensures var rest := [dashes + NameText(n)] + NextElement(n) + tail;
      && IsOption(rest[0]) && Begin(cfg, rest[0]) == NameText(n)
      && Decode(cfg, rest, NameText(n)) ==
           Decoded(NamedResult(cfg, n, false), 1 + |NextElement(n)|, "", NamedLacks(cfg, n))
  {
    var text, rest := NameText(n), [dashes + NameText(n)] + NextElement(n) + tail;
    assert rest[1..] == NextElement(n) + tail;
    assert dashes == "--" ==> rest[0][2..] == text && rest[0][1] == '-';
    assert dashes == "-" ==> rest[0][1..] == text && rest[0][1] == text[0];
    NameEnds(n);
    hide NameEnd, NameText, Search, LongFound, FoundResult, Short;
    var m := Search(cfg.longopts.value, n.key);
    if m.Found? { FoundDecoded(cfg, rest, n, m.index, 1, false, tail); }
  }

  // ---------------------------------------------------------------- runs

  /** A run that reports rs, consuming elements, and goes on like q. */
  function Before(rs: seq<Result>, elements: seq<string>, lacks: bool, q: Run): Run {
    Run(rs + q.results, elements + q.opts, q.nonopts, q.dashed, lacks || q.lacking, q.overrun)
  }

  lemma OneCall(cfg: Config, rest: seq<string>, text: string, r: Result, n: nat, lacks: bool)
    requires |rest| > 0 && |rest[0]| >= 2 && text != "" && Usable(cfg) && n <= |rest|
    requires Decode(cfg, rest, text) == Decoded(r, n, "", lacks)
    ensures Permute(cfg, rest, text) == Before([r], rest[..n], lacks, Permute(cfg, rest[n..], ""))
  {
    hide Decode;
  }

  lemma FlagCall(cfg: Config, rest: seq<string>, text: string)
    requires |rest| > 0 && |rest[0]| >= 2 && |text| > 1 && Usable(cfg) && ReadAsShort(cfg, rest[0], text)
    requires KindOf(cfg.optstring, text[0]) in {NoArgument, Undeclared}
    ensures Permute(cfg, rest, text) == Before([FlagResult(cfg, text[0])], [], false, Permute(cfg, rest, text[1..]))
  {
    FlagDecoded(cfg, rest, text);
    assert rest[0..] == rest && rest[..0] == [];
    hide Decode, FlagResult, ReadAsShort;
  }

  lemma {:induction false} ClusterRuns(cfg: Config, arg: string, flags: string, e: Ending, tail: seq<string>)
    requires Usable(cfg) && |arg| >= 2 && flags + EndingText(e) != "" && EndingFits(cfg, e)
    requires forall c <- flags :: KindOf(cfg.optstring, c) in {NoArgument, Undeclared}
    requires var text := flags + EndingText(e);
      forall j :: 0 <= j <= |flags| && j < |text| ==> ReadAsShort(cfg, arg, text[j..])
    requires EndingLacks(cfg, e) ==> tail == []
    ensures Permute(cfg, [arg] + EndingElements(e) + tail, flags + EndingText(e)) ==
      Before(FlagResults(cfg, flags) + EndingResults(cfg, e), [arg] + EndingElements(e), EndingLacks(cfg, e),
             Permute(cfg, tail, ""))
    decreases |flags|
  {
    var text := flags + EndingText(e);
    assert text[0..] == text && ReadAsShort(cfg, arg, text[0..]);
    hide Permute, ReadAsShort, KindOf, EndingFits, EndingElements, EndingResults, EndingLacks;
    if flags == "" {
      assert text == EndingText(e);
      EndingCall(cfg, arg, e, tail);
    } else if |text| == 1 {
      assert text == flags && flags[0] in flags;
      LastFlag(cfg, arg, flags, e, tail);
    } else {
      assert text[1..] == flags[1..] + EndingText(e);
      assert forall j :: 0 <= j < |text| - 1 ==> text[1..][j..] == text[j + 1..];
      ClusterRuns(cfg, arg, flags[1..], e, tail);
      FlagStep(cfg, [arg] + EndingElements(e) + tail, text, flags, EndingResults(cfg, e),
               [arg] + EndingElements(e), EndingLacks(cfg, e), Permute(cfg, tail, ""));
    }
  }

  lemma FlagStep(cfg: Config, rest: seq<string>, text: string, flags: string, end: seq<Result>,
                 elements: seq<string>, lacks: bool, q: Run)
    requires Usable(cfg) && |rest| > 0 && |rest[0]| >= 2 && |text| > 1 && flags != "" && text[0] == flags[0]
    requires KindOf(cfg.optstring, flags[0]) in {NoArgument, Undeclared} && ReadAsShort(cfg, rest[0], text)
    requires Permute(cfg, rest, text[1..]) == Before(FlagResults(cfg, flags[1..]) + end, elements, lacks, q)
    ensures Permute(cfg, rest, text) == Before(FlagResults(cfg, flags) + end, elements, lacks, q)
  {
    hide Permute, ReadAsShort, KindOf, FlagResult, FlagResults, Before;
    FlagCall(cfg, rest, text);
    FlagsFront(cfg, flags);
    BeforeTwice([FlagResult(cfg, flags[0])], FlagResults(cfg, flags[1..]), end, elements, lacks, q);
  }

  lemma BeforeTwice(one: seq<Result>, more: seq<Result>, end: seq<Result>, elements: seq<string>, lacks: bool, q: Run)
    ensures Before(one, [], false, Before(more + end, elements, lacks, q)) ==
      Before(one + more + end, elements, lacks, q)
  {
    assert one + (more + end + q.results) == one + more + end + q.results;
    assert [] + (elements + q.opts) == elements + q.opts;
  }

  lemma FlagsFront(cfg: Config, flags: string)
    requires flags != ""
    ensures FlagResults(cfg, flags) == [FlagResult(cfg, flags[0])] + FlagResults(cfg, flags[1..])
  {
    hide FlagResult;
  }

  lemma EndingCall(cfg: Config, arg: string, e: Ending, tail: seq<string>)
    requires Usable(cfg) && |arg| >= 2 && EndingText(e) != "" && EndingFits(cfg, e)
    requires ReadAsShort(cfg, arg, EndingText(e)) && (EndingLacks(cfg, e) ==> tail == [])
    ensures Permute(cfg, [arg] + EndingElements(e) + tail, "" + EndingText(e)) ==
      Before(FlagResults(cfg, "") + EndingResults(cfg, e), [arg] + EndingElements(e), EndingLacks(cfg, e),
             Permute(cfg, tail, ""))
  {
    var rest := [arg] + EndingElements(e) + tail;
    var n := 1 + |EndingElements(e)|;
    EndingDecoded(cfg, arg, e, tail);
    DecodesShort(cfg, rest, EndingText(e));
    assert rest[..n] == [arg] + EndingElements(e) && rest[n..] == tail;
    assert "" + EndingText(e) == EndingText(e) && |EndingResults(cfg, e)| == 1;
    hide Permute, Decode, Short, EndingResults, EndingElements, EndingText;
    OneCall(cfg, rest, EndingText(e), EndingResults(cfg, e)[0], n, EndingLacks(cfg, e));
    assert FlagResults(cfg, "") + EndingResults(cfg, e) == [EndingResults(cfg, e)[0]];
  }

  lemma LastFlag(cfg: Config, arg: string, flags: string, e: Ending, tail: seq<string>)
    requires Usable(cfg) && |arg| >= 2 && |flags| == 1 && EndingText(e) == "" && EndingFits(cfg, e)
    requires KindOf(cfg.optstring, flags[0]) in {NoArgument, Undeclared} && ReadAsShort(cfg, arg, flags)
    ensures Permute(cfg, [arg] + EndingElements(e) + tail, flags + EndingText(e)) ==
      Before(FlagResults(cfg, flags) + EndingResults(cfg, e), [arg] + EndingElements(e), EndingLacks(cfg, e),
             Permute(cfg, tail, ""))
  {
    NothingMore(cfg, e);
    OneFlag(cfg, arg, flags, tail);
    hide Permute, FlagResults, ReadAsShort, KindOf, EndingFits;
    assert [arg] + [] + tail == [arg] + tail && [arg] + [] == [arg] && flags + "" == flags;
    assert FlagResults(cfg, flags) + [] == FlagResults(cfg, flags);
  }

  lemma NothingMore(cfg: Config, e: Ending)
    requires EndingText(e) == ""
    ensures e == Plain && EndingElements(e) == [] && EndingResults(cfg, e) == [] && !EndingLacks(cfg, e)
  {
  }

  lemma OneFlag(cfg: Config, arg: string, flags: string, tail: seq<string>)
    requires Usable(cfg) && |arg| >= 2 && |flags| == 1
    requires KindOf(cfg.optstring, flags[0]) in {NoArgument, Undeclared} && ReadAsShort(cfg, arg, flags)
    ensures Permute(cfg, [arg] + tail, flags) ==
      Before(FlagResults(cfg, flags), [arg], false, Permute(cfg, tail, ""))
  {
    var rest := [arg] + tail;
    FlagDecoded(cfg, rest, flags);
    assert rest[..1] == [arg] && rest[1..] == tail && flags[1..] == "";
    assert FlagResults(cfg, flags) == [FlagResult(cfg, flags[0])];
    hide Permute, Decode, FlagResult, FlagResults, ReadAsShort, KindOf;
    OneCall(cfg, rest, flags, FlagResult(cfg, flags[0]), 1, false);
  }

  /** An item in front of a command line. */
  lemma ItemRuns(cfg: Config, i: Item, tail: seq<string>)
    requires Usable(cfg) && Proper(cfg, i) && (Lacks(cfg, i) ==> tail == [])
    ensures var q := Permute(cfg, tail, "");
      Permute(cfg, Spelled(i) + tail, "") ==
        if i.Word? then q.(nonopts := [i.word] + q.nonopts) else Before(Meant(cfg, i), Spelled(i), Lacks(cfg, i), q)
  {
    match i {
      case Word(w) =>
        assert ([w] + tail)[1..] == tail;
      case Cluster(flags, e) => ClusterItem(cfg, flags, e, tail);
      case Long(dashes, n) => LongItem(cfg, dashes, n, tail);
    }
  }

  lemma StartsAt(cfg: Config, rest: seq<string>)
    requires Usable(cfg) && |rest| > 0 && IsOption(rest[0])
    ensures Permute(cfg, rest, "") == Permute(cfg, rest, Begin(cfg, rest[0]))
  {
    hide Decode;
  }

  lemma ClusterItem(cfg: Config, flags: string, e: Ending, tail: seq<string>)
    requires Usable(cfg) && Proper(cfg, Cluster(flags, e)) && (EndingLacks(cfg, e) ==> tail == [])
    ensures Permute(cfg, Spelled(Cluster(flags, e)) + tail, "") ==
      Before(FlagResults(cfg, flags) + EndingResults(cfg, e), Spelled(Cluster(flags, e)), EndingLacks(cfg, e),
             Permute(cfg, tail, ""))
  {
    var text := flags + EndingText(e);
    var arg := "-" + text;
    assert arg == "-" + flags + EndingText(e);
    assert arg[1..] == text && arg[1] == text[0];
    assert IsOption(arg) && Begin(cfg, arg) == text;
    hide Permute, ReadAsShort, KindOf, EndingFits, EndingLacks, EndingText, EndingElements, EndingResults;
    StartsAt(cfg, [arg] + EndingElements(e) + tail);
    ClusterRuns(cfg, arg, flags, e, tail);
  }

  lemma LongItem(cfg: Config, dashes: string, n: Named, tail: seq<string>)
    requires Usable(cfg) && Proper(cfg, Long(dashes, n)) && (NamedLacks(cfg, n) ==> tail == [])
    ensures Permute(cfg, Spelled(Long(dashes, n)) + tail, "") ==
      Before([NamedResult(cfg, n, false)], Spelled(Long(dashes, n)), NamedLacks(cfg, n), Permute(cfg, tail, ""))
  {
    LongDecoded(cfg, dashes, n, tail);
    var elements := Spelled(Long(dashes, n));
    var rest := elements + tail;
    assert rest[..|elements|] == elements && rest[|elements|..] == tail;
    hide Permute, Decode, NamedResult, NameText, NamedLacks, Begin;
    StartsAt(cfg, rest);
    OneCall(cfg, rest, NameText(n), NamedResult(cfg, n, false), |elements|, NamedLacks(cfg, n));
  }

  // ---------------------------------------------------------------- command lines

  function AllSpelled(items: seq<Item>): seq<string> {
    if items == [] then [] else Spelled(items[0]) + AllSpelled(items[1..])
  }

  predicate AllProper(cfg: Config, items: seq<Item>) {
    forall i <- items :: Proper(cfg, i)
  }

  function AllMeant(cfg: Config, items: seq<Item>): seq<Result>
    requires AllProper(cfg, items)
  {
    if items == [] then [] else Meant(cfg, items[0]) + AllMeant(cfg, items[1..])
  }

  /** The elements that are options, and those that are not. */
  function Options(items: seq<Item>): seq<string> {
    if items == [] then [] else (if items[0].Word? then [] else Spelled(items[0])) + Options(items[1..])
  }

  function Words(items: seq<Item>): seq<string> {
    if items == [] then [] else (if items[0].Word? then Spelled(items[0]) else []) + Words(items[1..])
  }

  /** Only the last item of the line may want for an argument. */
  predicate Complete(cfg: Config, items: seq<Item>, closed: bool)
    requires AllProper(cfg, items)
  {
    forall j :: 0 <= j < |items| && Lacks(cfg, items[j]) ==> j == |items| - 1 && !closed
  }

  /** What may close the line: two dashes, and any words at all behind them. */
  function Closing(behind: Option<seq<string>>): seq<string> {
    if behind.Some? then ["--"] + behind.value else []
  }

  /** What a run over such a line ought to be. */
  function MeantRun(cfg: Config, items: seq<Item>, behind: Option<seq<string>>): Run
    requires AllProper(cfg, items)
  {
    Run(AllMeant(cfg, items), Options(items) + (if behind.Some? then ["--"] else []),
        Words(items) + (if behind.Some? then behind.value else []), behind.Some?,
        items != [] && Lacks(cfg, items[|items| - 1]), false)
  }

  lemma MeantFront(cfg: Config, items: seq<Item>, behind: Option<seq<string>>)
    requires AllProper(cfg, items) && Complete(cfg, items, behind.Some?) && items != []
    ensures var i, q := items[0], MeantRun(cfg, items[1..], behind);
      MeantRun(cfg, items, behind) ==
        if i.Word? then q.(nonopts := [i.word] + q.nonopts) else Before(Meant(cfg, i), Spelled(i), Lacks(cfg, i), q)
  {
    var i, rest := items[0], items[1..];
    var dashes, words := if behind.Some? then ["--"] else [], if behind.Some? then behind.value else [];
    Fronts(cfg, items);
    LastLacks(cfg, items, behind.Some?);
    if i.Word? { WordMeans(cfg, i); }
    hide Proper, Meant, Lacks, Options, Words, AllMeant, Spelled, Complete;
    Associative(Spelled(i), Options(rest), dashes);
    Associative(Spelled(i), Words(rest), words);
  }

  lemma LastLacks(cfg: Config, items: seq<Item>, closed: bool)
    requires AllProper(cfg, items) && Complete(cfg, items, closed) && items != []
    ensures var rest := items[1..];
      Lacks(cfg, items[|items| - 1]) <==> Lacks(cfg, items[0]) || (rest != [] && Lacks(cfg, rest[|rest| - 1]))
  {
    hide Proper, Lacks;
  }

  lemma Fronts(cfg: Config, items: seq<Item>)
    requires AllProper(cfg, items) && items != []
    ensures AllMeant(cfg, items) == Meant(cfg, items[0]) + AllMeant(cfg, items[1..])
    ensures Options(items) == if items[0].Word? then Options(items[1..]) else Spelled(items[0]) + Options(items[1..])
    ensures Words(items) == if items[0].Word? then Spelled(items[0]) + Words(items[1..]) else Words(items[1..])
  {
    hide Proper, Meant, Spelled;
  }

  lemma WordMeans(cfg: Config, i: Item)
    requires Proper(cfg, i) && i.Word?
    ensures !Lacks(cfg, i) && Meant(cfg, i) == [] && Spelled(i) == [i.word]
  {
  }

  lemma EmptyRuns(cfg: Config, behind: Option<seq<string>>)
    requires Usable(cfg)
    ensures Permute(cfg, AllSpelled([]) + Closing(behind), "") == MeantRun(cfg, [], behind)
  {
    assert [] + Closing(behind) == Closing(behind);
    if behind.Some? { assert (["--"] + behind.value)[1..] == behind.value; }
    hide Decode;
  }

  lemma SpelledFront(items: seq<Item>, behind: Option<seq<string>>)
    requires items != []
    ensures AllSpelled(items) + Closing(behind) == Spelled(items[0]) + (AllSpelled(items[1..]) + Closing(behind))
    ensures |items| == 1 && behind.None? ==> AllSpelled(items[1..]) + Closing(behind) == []
  {
    assert AllSpelled(items) == Spelled(items[0]) + AllSpelled(items[1..]);
    assert AllSpelled([]) == [];
    hide Spelled, AllSpelled;
    Associative(Spelled(items[0]), AllSpelled(items[1..]), Closing(behind));
    if |items| == 1 && behind.None? { assert items[1..] == []; }
  }

  lemma {:induction false} SpelledRuns(cfg: Config, items: seq<Item>, behind: Option<seq<string>>)
    requires Usable(cfg) && AllProper(cfg, items) && Complete(cfg, items, behind.Some?)
    ensures Permute(cfg, AllSpelled(items) + Closing(behind), "") == MeantRun(cfg, items, behind)
    decreases |items|
  {
    if items == [] {
      EmptyRuns(cfg, behind);
    } else {
      assert Lacks(cfg, items[0]) ==> |items| == 1 && behind.None?;
      assert Complete(cfg, items[1..], behind.Some?);
      hide Permute, Proper, Lacks, Meant, Spelled, MeantRun, AllSpelled, Closing, Complete, Before;
      SpelledRuns(cfg, items[1..], behind);
      MeantFront(cfg, items, behind);
      SpelledFront(items, behind);
      ItemRuns(cfg, items[0], AllSpelled(items[1..]) + Closing(behind));
    }
  }

  /** A run of getopt over a spelled line reports exactly what was meant, takes exactly the elements of its
      options, and leaves the words. */
  lemma SpelledIsMeant(cfg: Config, items: seq<Item>, behind: Option<seq<string>>)
    requires Usable(cfg) && AllProper(cfg, items) && Complete(cfg, items, behind.Some?)
    ensures var r := Permute(cfg, AllSpelled(items) + Closing(behind), "");
      && r.results == AllMeant(cfg, items) && !r.overrun && r.dashed == behind.Some?
      && r.opts == Options(items) + (if behind.Some? then ["--"] else [])
      && r.nonopts == Words(items) + (if behind.Some? then behind.value else [])
      && (r.lacking <==> items != [] && Lacks(cfg, items[|items| - 1]))
  {
    SpelledRuns(cfg, items, behind);
    hide Permute, Lacks, AllMeant, Options, Words;
  }
}
