/** The device map of device.c as text: what init_device_map writes, what read_device_map reads. */
module DeviceMap {
  import opened Basics
  import Format
  import Inet

  const LINE := 1024          // length of the line buffer
  const NUM_DISKS := 256
  const NAMES := 128          // floppies, or hard disks, that the map has room for
  const HD := 0x80

  type Map = m: seq<Option<string>> | |m| == NUM_DISKS witness seq(NUM_DISKS, i => None)

  function Empty(): (m: Map)
    ensures forall i :: 0 <= i < NUM_DISKS ==> m[i] == None
  {
    seq(NUM_DISKS, i => None)
  }

  // ---------------------------------------------------------------- the C library

  predicate IsSpace(c: char) {
    c == ' ' || c == '\t' || c == '\n' || c == '\U{0B}' || c == '\U{0C}' || c == '\r'
  }

  /** How many characters fgets takes off a file into a buffer of max + 1 characters. */
  function Gets(file: string, max: nat): (n: nat)
    ensures n <= |file| && n <= max
    ensures file != "" && max > 0 ==> n > 0
  {
    if file == "" || max == 0 then 0
    else if file[0] == '\n' then 1
    else 1 + Gets(file[1..], max - 1)
  }

  /** The C string in a buffer that holds s: it ends at the first NUL. */
  function CString(s: string): (t: string)
    ensures |t| <= |s|
  {
    if s == "" || s[0] == Format.NUL then "" else [s[0]] + CString(s[1..])
  }

  function SkipSpaces(s: string): (t: string)
    ensures t == "" || !IsSpace(t[0])
    ensures |t| <= |s|
  {
    if s == "" || !IsSpace(s[0]) then s else SkipSpaces(s[1..])
  }

  function Word(s: string): (t: string)
    ensures forall c <- t :: !IsSpace(c)
    ensures t <= s
  {
    if s == "" || IsSpace(s[0]) then "" else [s[0]] + Word(s[1..])
  }

  /** strtoul to base 10 with a long of 32 bits, stored in an int, and where it leaves the pointer. */
  function Strtoul(s: string): (r: (int, string)) {
    var t := SkipSpaces(s);
    var signed := t != "" && (t[0] == '-' || t[0] == '+');
    var digits := if signed then t[1..] else t;
    var n := Inet.Run(digits);
    if n == 0 then (0, s)
    else
      var v := Inet.Value(digits[..n]);
      var u := if v >= WORD then WORD - 1 else if signed && t[0] == '-' then (WORD - v) % WORD else v;
      (Inet.Wrap(u), digits[n..])
  }

  // ---------------------------------------------------------------- reading

  /** What read_device_map makes of a line: nothing, an error, or an entry of the map. */
  datatype Verdict = Skip | Bad | Entry(drive: nat, name: string)

  /** The part of a line behind "(fd" or "(hd". */
  function Numbered(s: string, floppy: bool): (v: Verdict)
    ensures v.Entry? ==> v.drive < NUM_DISKS
  {
    var (drive, p) := Strtoul(s);
    if drive < 0 then Bad
    else if drive > NAMES - 1 then Skip
    else if p == "" || p[0] != ')' then Bad
    else
      var q := SkipSpaces(p[1..]);
      if q == "" then Bad else Entry(if floppy then drive else drive + HD, Word(q))
  }

  function Line(buf: string): (v: Verdict)
    ensures v.Entry? ==> v.drive < NUM_DISKS
  {
    var p := SkipSpaces(buf);
    if buf != "" && buf[0] == '#' then Skip
    else if p == "" then Skip
    else if p[0] != '(' then Bad
    else if |p| < 3 || (p[1] != 'f' && p[1] != 'h') || p[2] != 'd' then Bad
    else Numbered(p[3..], p[1] == 'f')
  }

  /** Whether read_device_map succeeds on the text of a file, and the map it leaves. */
  function Reading(file: string, m: Map): (r: (bool, Map)) {
    if file == "" then (true, m)
    else
      var n := Gets(file, LINE - 1);
      match Line(CString(file[..n]))
      case Skip => Reading(file[n..], m)
      case Bad => (false, m)
      case Entry(drive, name) =>
        if m[drive].Some? then (false, m) else Reading(file[n..], m[drive := Some(name)])
  }

  // ---------------------------------------------------------------- writing

  /** A line of a device map file. */
  datatype Item = Item(floppy: bool, n: nat, name: string) {
    function Drive(): nat { if floppy then n else n + HD }
  }

  function Head(e: Item): (s: string)
    ensures |s| > 3 && s[0] == '('
  {
    "(" + (if e.floppy then "fd" else "hd") + Format.Decimal(e.n) + ")\t"
  }

  function Text(e: Item): string {
    Head(e) + e.name + "\n"
  }

  function Texts(es: seq<Item>): string {
    if es == [] then "" else Text(es[0]) + Texts(es[1..])
  }

  /** The map with the entries of es. */
  function Fill(es: seq<Item>, m: Map): (r: Map)
    requires forall e <- es :: e.n < NAMES
  {
    if es == [] then m else Fill(es[1..], m[es[0].Drive() := Some(es[0].name)])
  }

  ghost predicate Distinct(es: seq<Item>) {
    forall i, j :: 0 <= i < j < |es| ==> es[i].Drive() != es[j].Drive()
  }

  /** What every written entry is: a number the map has room for, and a C string. */
  ghost predicate Writable(e: Item) {
    e.n < NAMES && Format.NUL !in e.name
  }

  ghost predicate NoSpace(s: string) {
    forall c <- s :: !IsSpace(c)
  }

  /** A line the reader takes whole: its name is a word, and it fits the line buffer, where the
      newline may be one character too many. */
  ghost predicate Good(e: Item) {
    e.name != "" && NoSpace(e.name) && |Text(e)| <= LINE
  }

  // ---------------------------------------------------------------- reading what was written

  lemma {:induction false} CStringWhole(s: string)
    requires Format.NUL !in s
    ensures CString(s) == s
  {
    if s != "" { CStringWhole(s[1..]); }
  }

  lemma {:induction false} GetsSkips(h: string, s: string, max: nat)
    requires '\n' !in h && |h| <= max
    ensures Gets(h + s, max) == |h| + Gets(s, max - |h|)
  {
    if h == "" {
      assert h + s == s;
    } else {
      assert (h + s)[1..] == h[1..] + s;
      GetsSkips(h[1..], s, max - 1);
    }
  }

  /** fgets never goes beyond a newline. */
  lemma {:induction false} GetsStops(s: string, rest: string, max: nat)
    ensures Gets(s + "\n" + rest, max) <= |s| + 1
  {
    if s == "" {
      assert s + "\n" + rest == "\n" + rest;
    } else if max > 0 {
      assert (s + "\n" + rest)[1..] == s[1..] + "\n" + rest;
      GetsStops(s[1..], rest, max - 1);
    }
  }

  lemma {:induction false} WordWhole(s: string, rest: string)
    requires NoSpace(s) && (rest == "" || IsSpace(rest[0]))
    ensures Word(s + rest) == s
  {
    if s == "" {
      assert s + rest == rest;
    } else {
      assert (s + rest)[1..] == s[1..] + rest;
      WordWhole(s[1..], rest);
    }
  }

  /** strtoul saturates, and its result is stored in an int. */
  lemma StrtoulReadsDecimal(n: nat, rest: string)
    requires rest == "" || !Inet.IsDigit(rest[0])
    ensures Strtoul(Format.Decimal(n) + rest) ==
      (if n < 0x8000_0000 then n else if n < WORD then n - WORD else -1, rest)
  {
    var d := Format.Decimal(n);
    var s := d + rest;
    Inet.DecimalDigits(n);
    DigitsRun(d, rest);
    assert s[..|d|] == d && s[|d|..] == rest && s[0] == d[0] && d[0] in d;
    hide Format.Decimal, Inet.Run, Inet.Value;
    SaturatedWord(n);
  }

  lemma DigitsRun(d: string, rest: string)
    requires d != "" && (forall c <- d :: Inet.IsDigit(c)) && (rest == "" || !Inet.IsDigit(rest[0]))
    ensures SkipSpaces(d + rest) == d + rest && Inet.Run(d + rest) == |d|
  {
    var s := d + rest;
    assert s[0] == d[0] && d[0] in d;
    forall i | 0 <= i < |d|
      ensures Inet.IsDigit(s[i])
    {
      assert s[i] == d[i] && d[i] in d;
    }
    Inet.RunIs(s, |d|);
  }

  lemma SaturatedWord(n: nat)
    ensures Inet.Wrap(if n >= WORD then WORD - 1 else n) ==
      if n < 0x8000_0000 then n else if n < WORD then n - WORD else -1
  {
  }

  lemma LineNumbered(s: string)
    requires |s| >= 3 && s[0] == '(' && (s[1] == 'f' || s[1] == 'h') && s[2] == 'd'
    ensures Line(s) == Numbered(s[3..], s[1] == 'f')
  {
    hide Numbered;
    assert SkipSpaces(s) == s;
  }

  lemma NumberedDecimal(n: nat, floppy: bool, y: string)
    requires n < NAMES
    ensures Numbered(Format.Decimal(n) + (")\t" + y), floppy) ==
      var q := SkipSpaces(y); if q == "" then Bad else Entry(if floppy then n else n + HD, Word(q))
  {
    var tail := ")\t" + y;
    StrtoulReadsDecimal(n, tail);
    SkipTab(y);
    hide Strtoul, SkipSpaces, Word, Format.Decimal;
  }

  lemma SkipTab(y: string)
    ensures (")\t" + y)[0] == ')' && SkipSpaces((")\t" + y)[1..]) == SkipSpaces(y)
  {
    assert (")\t" + y)[1..] == "\t" + y && ("\t" + y)[1..] == y;
  }

  lemma {:induction false} BlanksSkipped(blanks: string, s: string)
    requires (forall c <- blanks :: IsSpace(c)) && (s == "" || !IsSpace(s[0]))
    ensures SkipSpaces(blanks + s) == s
  {
    if blanks == "" {
      assert blanks + s == s;
    } else {
      assert (blanks + s)[1..] == blanks[1..] + s;
      BlanksSkipped(blanks[1..], s);
    }
  }

  /** Comments and empty lines do not matter. */
  lemma IgnoredLines(s: string, blanks: string)
    requires forall c <- blanks :: IsSpace(c)
    ensures Line("#" + s) == Skip && Line(blanks) == Skip
  {
    BlanksSkipped(blanks, "");
    assert blanks + "" == blanks;
  }

  /** An entry written by hand, with any white space around its parts: numbers from 128 on are ignored, and
      those that do not fit an int are errors. */
  lemma EntryLine(before: string, floppy: bool, n: nat, between: string, name: string, behind: string)
    requires (forall c <- before :: IsSpace(c)) && (forall c <- between :: IsSpace(c))
    requires name != "" && NoSpace(name) && (behind == "" || IsSpace(behind[0]))
    ensures var tail := ")" + between + name + behind;
      Line(before + ("(" + (if floppy then "fd" else "hd") + Format.Decimal(n) + tail)) ==
      if n >= 0x8000_0000 then Bad else if n > 127 then Skip else Entry(if floppy then n else n + 0x80, name)
  {
    var tail := ")" + between + name + behind;
    var s := "(" + (if floppy then "fd" else "hd") + Format.Decimal(n) + tail;
    assert s[3..] == Format.Decimal(n) + tail && s[0] == '(' && s[1] == (if floppy then 'f' else 'h') && s[2] == 'd';
    hide Line, Numbered, SkipSpaces, Word, Format.Decimal;
    BlanksSkipped(before, s);
    LineStripped(before, s);
    EntryNumbered(floppy, n, between, name, behind);
  }

  lemma EntryNumbered(floppy: bool, n: nat, between: string, name: string, behind: string)
    requires forall c <- between :: IsSpace(c)
    requires name != "" && NoSpace(name) && (behind == "" || IsSpace(behind[0]))
    ensures Numbered(Format.Decimal(n) + (")" + between + name + behind), floppy) ==
      if n >= 0x8000_0000 then Bad else if n > 127 then Skip else Entry(if floppy then n else n + 0x80, name)
  {
    var tail, rest := ")" + between + name + behind, name + behind;
    assert tail[0] == ')' && tail[1..] == between + rest && rest[0] == name[0] && name[0] in name;
    BlanksSkipped(between, rest);
    WordWhole(name, behind);
    StrtoulReadsDecimal(n, tail);
    hide Strtoul, SkipSpaces, Word, Format.Decimal;
  }

  lemma LineStripped(before: string, s: string)
    requires (forall c <- before :: IsSpace(c)) && |s| >= 3 && s[0] == '(' && SkipSpaces(before + s) == s
    requires (s[1] == 'f' || s[1] == 'h') && s[2] == 'd'
    ensures Line(before + s) == Numbered(s[3..], s[1] == 'f')
  {
    hide Numbered, SkipSpaces;
    var t := before + s;
    assert t[0] == if before == "" then s[0] else before[0];
    assert before != "" ==> before[0] in before;
  }

  /** What the reader makes of the head of a written line and anything behind it. */
  lemma LineBehindHead(e: Item, y: string)
    requires e.n < NAMES
    ensures Line(Head(e) + y) == var q := SkipSpaces(y); if q == "" then Bad else Entry(e.Drive(), Word(q))
  {
    var s := Head(e) + y;
    assert s[3..] == Format.Decimal(e.n) + (")\t" + y);
    LineNumbered(s);
    NumberedDecimal(e.n, e.floppy, y);
    hide Line, Numbered, SkipSpaces, Word;
  }

  lemma HeadIsOneLine(e: Item)
    requires e.n < NAMES
    ensures |Head(e)| <= 8 && '\n' !in Head(e) && Format.NUL !in Head(e)
  {
    assert Format.Limit(3) == 10 * Format.Limit(2) == 1000;
    Format.DecimalLength(e.n, 3);
    Inet.DecimalDigits(e.n);
  }

  /** The line fgets finds at a written entry: the head, and what the buffer holds of the name and
      its newline. */
  function Found(e: Item, rest: string): (y: string)
    requires e.n < NAMES
    ensures |y| <= |e.name + "\n" + rest|
  {
    HeadIsOneLine(e);
    (e.name + "\n" + rest)[..Gets(e.name + "\n" + rest, LINE - 1 - |Head(e)|)]
  }

  lemma FoundIsRead(e: Item, rest: string)
    requires Writable(e)
    ensures var file := Text(e) + rest;
      var n := Gets(file, LINE - 1);
      && n == |Head(e)| + |Found(e, rest)|
      && CString(file[..n]) == Head(e) + Found(e, rest)
      && file[n..] == (e.name + "\n" + rest)[|Found(e, rest)|..]
    ensures Found(e, rest) <= e.name + "\n"
  {
    HeadIsOneLine(e);
    hide Head, Gets, CString;
    var h, s, file := Head(e), e.name + "\n" + rest, Text(e) + rest;
    GetsSkips(h, s, LINE - 1);
    GetsStops(e.name, rest, LINE - 1 - |h|);
    var y := Found(e, rest);
    Reassociate(h, e.name, rest);
    Slices(h, s, |y|);
    Prefix(e.name + "\n", rest, |y|);
    hide Found;
    CStringWhole(h + y);
  }

  lemma Reassociate(h: string, name: string, rest: string)
    ensures h + name + "\n" + rest == h + (name + "\n" + rest)
  {
  }

  lemma Slices(h: string, s: string, n: nat)
    requires n <= |s|
    ensures (h + s)[..|h| + n] == h + s[..n] && (h + s)[|h| + n..] == s[n..]
  {
  }

  lemma Prefix(s: string, rest: string, n: nat)
    requires n <= |s|
    ensures (s + rest)[..n] == s[..n] && s[..n] <= s && forall c <- s[..n] :: c in s
  {
  }

  /** The name is read back exactly if the entry is good. */
  lemma NameReadBack(e: Item, rest: string)
    requires Writable(e)
    ensures var q := SkipSpaces(Found(e, rest));
      Good(e) <==> q != "" && Word(q) == e.name
  {
    FoundIsRead(e, rest);
    HeadIsOneLine(e);
    var y, max := Found(e, rest), LINE - 1 - |Head(e)|;
    var q := SkipSpaces(y);
    if NoSpace(e.name) && e.name != "" {
      NameFound(e.name, rest, max);
      hide Head, Gets;
      if |Text(e)| <= LINE {
        assert y == e.name + y[|e.name|..];
        assert y[0] == e.name[0] && e.name[0] in e.name;
        WordWhole(e.name, y[|e.name|..]);
      } else {
        assert |y| < |e.name| && |Word(q)| <= |q| <= |y|;
      }
    }
  }

  /** Of a word and its newline fgets takes as much as fits. */
  lemma NameFound(name: string, rest: string, max: nat)
    requires NoSpace(name)
    ensures Gets(name + "\n" + rest, max) == if max <= |name| then max else |name| + 1
  {
    if max <= |name| {
      var h, s := name[..max], name[max..] + "\n" + rest;
      assert forall c <- h :: c in name;
      assert name + "\n" + rest == h + s;
      GetsSkips(h, s, max);
    } else {
      assert name + "\n" + rest == name + ("\n" + rest);
      GetsSkips(name, "\n" + rest, max);
    }
  }

  lemma EntryRead(file: string, m: Map, n: nat, drive: nat, name: string)
    requires file != "" && n == Gets(file, LINE - 1) && drive < NUM_DISKS && m[drive].None?
    requires Line(CString(file[..n])) == Entry(drive, name)
    ensures Reading(file, m) == Reading(file[n..], m[drive := Some(name)])
  {
  }

  /** Behind a good entry the reader finds the rest, or, if the newline did not fit, a blank line. */
  lemma BehindGood(e: Item, rest: string)
    requires Writable(e) && Good(e)
    ensures (e.name + "\n" + rest)[|Found(e, rest)|..] == if |Text(e)| == LINE then "\n" + rest else rest
  {
    FoundLength(e, rest);
    Tails(e.name, rest);
    hide Found, Text, Good;
  }

  lemma FoundLength(e: Item, rest: string)
    requires Writable(e) && Good(e)
    ensures |Found(e, rest)| == if |Text(e)| == LINE then |e.name| else |e.name| + 1
  {
    HeadIsOneLine(e);
    NameFound(e.name, rest, LINE - 1 - |Head(e)|);
    hide Head, Gets, NoSpace;
  }

  lemma Tails(name: string, rest: string)
    ensures var s := name + "\n" + rest; s[|name|..] == "\n" + rest && s[|name| + 1..] == rest
  {
  }

  /** A good entry at the start of the file is read, and with it its line. */
  lemma GoodRead(e: Item, rest: string, m: Map)
    requires Writable(e) && Good(e) && m[e.Drive()].None?
    ensures Reading(Text(e) + rest, m) == Reading(rest, m[e.Drive() := Some(e.name)])
  {
    FoundIsRead(e, rest);
    NameReadBack(e, rest);
    LineBehindHead(e, Found(e, rest));
    BehindGood(e, rest);
    var file := Text(e) + rest;
    hide Head, Text, Found, Gets, Line, CString, Reading, Good;
    EntryRead(file, m, Gets(file, LINE - 1), e.Drive(), e.name);
    BlankSkipped(rest, m[e.Drive() := Some(e.name)]);
  }

  lemma BlankSkipped(rest: string, m: Map)
    ensures Reading("\n" + rest, m) == Reading(rest, m)
  {
    var file := "\n" + rest;
    assert file[..1] == "\n" && file[1..] == rest;
    assert CString("\n") == "\n" by { CStringWhole("\n"); }
    assert "\n"[1..] == "";
  }

  /** An entry that is not good is an error, or is read with another name. */
  lemma NotGoodRead(e: Item, rest: string, m: Map)
    requires Writable(e) && !Good(e) && m[e.Drive()].None?
    ensures var r := Reading(Text(e) + rest, m); r.0 ==> r.1[e.Drive()] != Some(e.name)
  {
    FoundIsRead(e, rest);
    NameReadBack(e, rest);
    LineBehindHead(e, Found(e, rest));
    var file := Text(e) + rest;
    var n, q := Gets(file, LINE - 1), SkipSpaces(Found(e, rest));
    hide Head, Gets, Line, CString;
    if q != "" {
      ReadingKeeps(file[n..], m[e.Drive() := Some(Word(q))], e.Drive());
    }
  }

  /** An entry once read is never changed. */
  lemma {:induction false} ReadingKeeps(file: string, m: Map, d: nat)
    requires d < NUM_DISKS && m[d].Some?
    ensures Reading(file, m).1[d] == m[d]
    decreases |file|
  {
    if file != "" {
      var n := Gets(file, LINE - 1);
      var v := Line(CString(file[..n]));
      hide Gets, Line, CString;
      match v
      case Skip => ReadingKeeps(file[n..], m, d);
      case Bad =>
      case Entry(drive, name) => if m[drive].None? { ReadingKeeps(file[n..], m[drive := Some(name)], d); }
    }
  }

  lemma {:induction false} FillAt(es: seq<Item>, m: Map, d: nat)
    requires (forall e <- es :: e.n < NAMES) && Distinct(es) && d < NUM_DISKS
    ensures forall e <- es :: e.Drive() == d ==> Fill(es, m)[d] == Some(e.name)
    ensures (forall e <- es :: e.Drive() != d) ==> Fill(es, m)[d] == m[d]
  {
    if es != [] {
      FillAt(es[1..], m[es[0].Drive() := Some(es[0].name)], d);
    }
  }

  /** A written file reads back as the map it was written for if and only if its entries are good. */
  lemma {:induction false} ReadsBack(es: seq<Item>, m: Map)
    requires (forall e <- es :: e.n < NAMES && Writable(e) && m[e.Drive()].None?) && Distinct(es)
    ensures Reading(Texts(es), m) == (true, Fill(es, m)) <==> forall e <- es :: Good(e)
  {
    if es != [] {
      var e, rest := es[0], es[1..];
      hide Good, Text, Reading;
      if Good(e) {
        GoodRead(e, Texts(rest), m);
        ReadsBack(rest, m[e.Drive() := Some(e.name)]);
      } else {
        NotGoodRead(e, Texts(rest), m);
        FillAt(es, m, e.Drive());
      }
    } else {
      assert Reading("", m) == (true, m);
    }
  }
}
