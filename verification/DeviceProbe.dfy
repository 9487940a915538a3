/** read_device_map and init_device_map of device.c, for GNU/Linux, with the file system as parameters. */
module DeviceProbe {
  import opened Basics
  import opened DeviceMap
  import Format
  import Inet

  // ---------------------------------------------------------------- read_device_map

  /** A loop that moves a pointer over white space. */
  method SkipBlanks(s: string) returns (p: string)
    ensures p == SkipSpaces(s)
  {
    p := s;
    while p != "" && IsSpace(p[0])
      invariant SkipSpaces(p) == SkipSpaces(s)
      decreases |p|
    {
      p := p[1..];
    }
  }

  /** The word at ptr: a loop finds its end, where the C code writes a NUL. */
  method Terminate(ptr: string) returns (name: string)
    ensures name == Word(ptr)
  {
    var eptr := ptr;
    name := "";
    while eptr != "" && !IsSpace(eptr[0])
      invariant Word(ptr) == name + Word(eptr)
      decreases |eptr|
    {
      name := name + [eptr[0]];
      eptr := eptr[1..];
    }
  }

  method ReadNumbered(ptr: string, isFloppy: bool) returns (v: Verdict)
    ensures v == Numbered(ptr, isFloppy)
  {
    hide Inet.Run, Inet.Value, SkipSpaces, Word;
    var (drive, p) := Strtoul(ptr);
    if drive < 0 {
      return Bad;
    } else if drive > 127 {
      return Skip;
    }
    if !isFloppy {
      drive := drive + 0x80;
    }
    if p == "" || p[0] != ')' {
      return Bad;
    }
    var q := SkipBlanks(p[1..]);
    if q == "" {
      return Bad;
    }
    var name := Terminate(q);
    v := Entry(drive, name);
  }

  method ReadLine(buf: string) returns (v: Verdict)
    ensures v == Line(buf)
  {
    hide Numbered, SkipSpaces;
    if buf != "" && buf[0] == '#' {
      return Skip;
    }
    var ptr := SkipBlanks(buf);
    if ptr == "" {
      return Skip;
    }
    if ptr[0] != '(' {
      return Bad;
    }
    ptr := ptr[1..];
    if |ptr| < 2 || (ptr[0] != 'f' && ptr[0] != 'h') || ptr[1] != 'd' {
      return Bad;
    }
    v := ReadNumbered(ptr[2..], ptr[0] == 'f');
  }

  method ReadDeviceMap(fp: string, deviceMap: array<Option<string>>) returns (ok: bool)
    requires deviceMap.Length == NUM_DISKS
    modifies deviceMap
    ensures (ok, deviceMap[..]) == Reading(fp, old(deviceMap[..]))
  {
    hide Line, Gets, CString;
    var rest := fp;
    while rest != ""
      invariant Reading(rest, deviceMap[..]) == Reading(fp, old(deviceMap[..]))
      decreases |rest|
    {
      var n := Gets(rest, LINE - 1);
      var v := ReadLine(CString(rest[..n]));
      if v.Bad? {
        return false;
      }
      if v.Entry? {
        if deviceMap[v.drive].Some? {
          return false;
        }
        deviceMap[v.drive] := Some(v.name);
      }
      rest := rest[n..];
    }
    ok := true;
  }

  // ---------------------------------------------------------------- the names that are probed

  function FloppyName(unit: nat, devfs: bool): string {
    (if devfs then "/dev/floppy/" else "/dev/fd") + Format.Decimal(unit)
  }

  function Lettered(prefix: string, first: char, n: nat): (names: seq<string>)
    requires first as int + n <= 128
    ensures |names| == n
  {
    if n == 0 then [] else Lettered(prefix, first, n - 1) + [prefix + [(first as int + n - 1) as char]]
  }

  /** The first n logical drives of a DAC960 controller. */
  function Drives(controller: nat, n: nat): (names: seq<string>)
    ensures |names| == n
  {
    if n == 0 then []
    else Drives(controller, n - 1) + ["/dev/rd/c" + Format.Decimal(controller) + "d" + Format.Decimal(n - 1)]
  }

  function Controllers(n: nat): (names: seq<string>)
    ensures |names| == 15 * n
  {
    if n == 0 then [] else Controllers(n - 1) + Drives(n - 1, 15)
  }

  /** IDE, ATARAID, SCSI and DAC960 disks, in the order they are probed. */
  function Candidates(): (names: seq<string>)
    ensures |names| == 152
  {
    Lettered("/dev/hd", 'a', 8) + Lettered("/dev/ataraid/d", '0', 8) + Lettered("/dev/sd", 'a', 16) + Controllers(8)
  }

  /** The names for which check_device succeeds. */
  function Present(names: seq<string>, check: string -> bool): (disks: seq<string>)
    ensures |disks| <= |names|
    ensures forall d <- disks :: d in names && check(d)
  {
    if names == [] then []
    else
      var n := names[|names| - 1];
      Present(names[..|names| - 1], check) + (if check(n) then [n] else [])
  }

  lemma {:induction false} PresentSplits(a: seq<string>, b: seq<string>, check: string -> bool)
    ensures Present(a + b, check) == Present(a, check) + Present(b, check)
  {
    if b == [] {
      assert a + b == a;
    } else {
      var c := b[..|b| - 1];
      assert (a + b)[..|a + b| - 1] == a + c;
      PresentSplits(a, c, check);
    }
  }

  // ---------------------------------------------------------------- which names these are

  lemma {:induction false} LetteredAt(prefix: string, first: char, n: nat, u: nat)
    requires first as int + n <= 128 && u < n
    ensures Lettered(prefix, first, n)[u] == prefix + [(first as int + u) as char]
  {
    if u < n - 1 { LetteredAt(prefix, first, n - 1, u); }
  }

  lemma {:induction false} DrivesAt(controller: nat, n: nat, d: nat)
    requires d < n
    ensures Drives(controller, n)[d] == "/dev/rd/c" + Format.Decimal(controller) + "d" + Format.Decimal(d)
  {
    if d < n - 1 { DrivesAt(controller, n - 1, d); }
  }

  lemma {:induction false} ControllersAt(n: nat, controller: nat, d: nat)
    requires controller < n && d < 15
    ensures Controllers(n)[15 * controller + d] == "/dev/rd/c" + Format.Decimal(controller) + "d" + Format.Decimal(d)
  {
    if controller < n - 1 {
      ControllersAt(n - 1, controller, d);
    } else {
      DrivesAt(controller, 15, d);
    }
    hide Format.Decimal, Drives;
  }

  lemma Letters(u: nat)
    requires u < 16
    ensures ('a' as int + u) as char == "abcdefghijklmnop"[u]
    ensures u < 8 ==> ('0' as int + u) as char == "01234567"[u]
  {
  }

  lemma IdeAt(u: nat)
    requires u < 8
    ensures Candidates()[u] == "/dev/hd" + ["abcdefgh"[u]]
  {
    LetteredAt("/dev/hd", 'a', 8, u);
    Letters(u);
    hide Lettered, Controllers;
  }

  lemma AtaraidAt(u: nat)
    requires u < 8
    ensures Candidates()[8 + u] == "/dev/ataraid/d" + ["01234567"[u]]
  {
    LetteredAt("/dev/ataraid/d", '0', 8, u);
    Letters(u);
    hide Lettered, Controllers;
  }

  lemma ScsiAt(u: nat)
    requires u < 16
    ensures Candidates()[16 + u] == "/dev/sd" + ["abcdefghijklmnop"[u]]
  {
    LetteredAt("/dev/sd", 'a', 16, u);
    Letters(u);
    hide Lettered, Controllers;
  }

  lemma Dac960At(controller: nat, d: nat)
    requires controller < 8 && d < 15
    ensures Candidates()[32 + 15 * controller + d]
         == "/dev/rd/c" + Format.Decimal(controller) + "d" + Format.Decimal(d)
  {
    ControllersAt(8, controller, d);
    hide Lettered, Controllers;
  }

  /** Eight IDE disks, eight ATARAID disks, sixteen SCSI disks, then fifteen drives on each of eight
      DAC960 controllers. */
  lemma CandidatesAre(u: nat)
    requires u < 152
    ensures Candidates()[u] ==
      if u < 8 then "/dev/hd" + ["abcdefgh"[u]]
      else if u < 16 then "/dev/ataraid/d" + ["01234567"[u - 8]]
      else if u < 32 then "/dev/sd" + ["abcdefghijklmnop"[u - 16]]
      else "/dev/rd/c" + Format.Decimal((u - 32) / 15) + "d" + Format.Decimal((u - 32) % 15)
  {
    hide Candidates, Format.Decimal;
    if u < 8 { IdeAt(u); }
    else if u < 16 { AtaraidAt(u - 8); }
    else if u < 32 { ScsiAt(u - 16); }
    else { Dac960At((u - 32) / 15, (u - 32) % 15); }
  }

  /** Those present are the ones that check, in the order in which they are probed, with none missing. */
  lemma {:induction false} PresentArePicked(names: seq<string>, check: string -> bool)
    ensures Present(names, check) == Pick(names, seq(|names|, i requires 0 <= i < |names| => check(names[i])), true)
  {
    if names != [] {
      var n := |names| - 1;
      var mask := seq(|names|, i requires 0 <= i < |names| => check(names[i]));
      var front, last := seq(n, i requires 0 <= i < n => check(names[..n][i])), [check(names[n])];
      PresentArePicked(names[..n], check);
      assert names == names[..n] + [names[n]] && mask == front + last;
      PickSplit(names[..n], [names[n]], front, last, true);
      PickOne(names[n], check(names[n]));
      hide Pick;
    }
  }

  lemma PickOne(name: string, b: bool)
    ensures Pick([name], [b], true) == if b then [name] else []
  {
  }

  /** The hard disks: those below /dev/discs if there is a devfs (None where a link does not
      resolve), the candidates present if there is none. */
  function HardDisks(devfs: Option<seq<Option<string>>>, check: string -> bool): seq<Option<string>> {
    if devfs.Some? then Discs(devfs.value) else Names(Present(Candidates(), check))
  }

  /** The first disks below /dev/discs, by the paths the links resolve to. */
  function Discs(paths: seq<Option<string>>): (r: seq<Option<string>>)
    ensures |r| == |paths|
  {
    if paths == [] then []
    else
      var n := |paths| - 1;
      Discs(paths[..n]) + [if paths[n].Some? then Some(paths[n].value + "/disc") else None]
  }

  function Names(names: seq<string>): (r: seq<Option<string>>)
    ensures |r| == |names| && forall i :: 0 <= i < |r| ==> r[i] == Some(names[i])
  {
    seq(|names|, i requires 0 <= i < |names| => Some(names[i]))
  }

  // ---------------------------------------------------------------- what is written, what is mapped

  /** The lines of the first n floppies. */
  function FloppyItems(n: nat, devfs: bool): (es: seq<Item>)
    ensures |es| == n && forall i :: 0 <= i < n ==> es[i] == Item(true, i, FloppyName(i, devfs))
  {
    if n == 0 then [] else FloppyItems(n - 1, devfs) + [Item(true, n - 1, FloppyName(n - 1, devfs))]
  }

  /** The lines of hard disks, numbered in the order they are found. */
  function DiskItems(disks: seq<Option<string>>): (es: seq<Item>)
    ensures forall e <- es :: !e.floppy && e.n < |disks| && disks[e.n] == Some(e.name)
    ensures forall i, j :: 0 <= i < j < |es| ==> es[i].n < es[j].n
    ensures forall k :: 0 <= k < |disks| && disks[k].Some? ==> Item(false, k, disks[k].value) in es
  {
    if disks == [] then []
    else
      var n := |disks| - 1;
      var before := DiskItems(disks[..n]);
      if disks[n].Some? then before + [Item(false, n, disks[n].value)] else before
  }

  /** Every disk that is found has a place in the map. */
  ghost predicate Placed(disks: seq<Option<string>>) {
    forall k :: NAMES <= k < |disks| ==> disks[k].None?
  }

  function Items(floppies: nat, devfs: bool, disks: seq<Option<string>>): seq<Item> {
    FloppyItems(floppies, devfs) + DiskItems(disks)
  }

  /** What the probe puts in place d: a floppy if check_device succeeds, a hard disk by its number. */
  function Place(d: nat, floppies: nat, devfs: bool, disks: seq<Option<string>>, check: string -> bool): Option<string>
  {
    if d < floppies && check(FloppyName(d, devfs)) then Some(FloppyName(d, devfs))
    else if HD <= d < HD + |disks| then disks[d - HD]
    else None
  }

  /** m is the map after the probe. */
  ghost predicate Probed(m: seq<Option<string>>, floppies: nat, devfs: bool, disks: seq<Option<string>>,
                         check: string -> bool)
  {
    |m| == NUM_DISKS && forall d :: 0 <= d < NUM_DISKS ==> m[d] == Place(d, floppies, devfs, disks, check)
  }

  lemma {:induction false} DiscAt(paths: seq<Option<string>>, k: nat)
    requires k < |paths|
    ensures Discs(paths)[k] == if paths[k].Some? then Some(paths[k].value + "/disc") else None
  {
    if k < |paths| - 1 { DiscAt(paths[..|paths| - 1], k); }
  }

  lemma DiscsPlaced(paths: seq<Option<string>>)
    ensures Placed(Discs(paths)) <==> Placed(paths)
  {
    forall k: nat | k < |paths|
      ensures Discs(paths)[k].None? <==> paths[k].None?
    {
      DiscAt(paths, k);
    }
  }

  lemma NamesPlaced(names: seq<string>)
    ensures Placed(Names(names)) <==> |names| <= NAMES
  {
    if |names| > NAMES { assert Names(names)[NAMES].Some?; }
  }

  // ---------------------------------------------------------------- the round trip

  lemma DistinctItems(floppies: nat, devfs: bool, disks: seq<Option<string>>)
    requires floppies <= NAMES && Placed(disks)
    ensures var es := Items(floppies, devfs, disks);
      Distinct(es) && forall e <- es :: e.n < NAMES && e.Drive() < NUM_DISKS
  {
    var a, b := FloppyItems(floppies, devfs), DiskItems(disks);
    assert forall e <- a :: e.floppy && e.n < NAMES;
    assert forall e <- b :: !e.floppy && e.n < NAMES;
  }

  /** The items place each drive where the probe does. */
  lemma ItemsPlace(floppies: nat, devfs: bool, disks: seq<Option<string>>, d: nat)
    requires floppies <= NAMES && Placed(disks) && d < NUM_DISKS
    ensures var es, p := Items(floppies, devfs, disks), Place(d, floppies, devfs, disks, name => true);
      && (forall e <- es :: e.Drive() == d ==> p == Some(e.name))
      && (p.Some? ==> exists e :: e in es && e.Drive() == d)
  {
    hide Items, Place;
    forall e <- Items(floppies, devfs, disks) | e.Drive() == d
      ensures Place(d, floppies, devfs, disks, name => true) == Some(e.name)
    {
      ItemPlaced(floppies, devfs, disks, e);
    }
    if Place(d, floppies, devfs, disks, name => true).Some? { PlaceFilled(floppies, devfs, disks, d); }
  }

  lemma ItemPlaced(floppies: nat, devfs: bool, disks: seq<Option<string>>, e: Item)
    requires floppies <= NAMES && Placed(disks) && e in Items(floppies, devfs, disks)
    ensures Place(e.Drive(), floppies, devfs, disks, name => true) == Some(e.name)
  {
    hide FloppyName, FloppyItems, DiskItems;
    if e in FloppyItems(floppies, devfs) {
      assert e.floppy && e.n < floppies && e.name == FloppyName(e.n, devfs);
    } else {
      assert e in DiskItems(disks);
    }
  }

  /** What the probe may put in a place has an item. */
  lemma PlaceFilled(floppies: nat, devfs: bool, disks: seq<Option<string>>, d: nat)
    requires floppies <= NAMES && Placed(disks) && d < NUM_DISKS
    requires Place(d, floppies, devfs, disks, name => true).Some?
    ensures exists e :: e in Items(floppies, devfs, disks) && e.Drive() == d
  {
    var a, b := FloppyItems(floppies, devfs), DiskItems(disks);
    hide FloppyName, FloppyItems, DiskItems;
    if d < floppies {
      assert a[d] in a + b && a[d].Drive() == d;
    } else {
      var e := Item(false, d - HD, disks[d - HD].value);
      assert e in b && e in a + b && e.Drive() == d;
    }
  }

  lemma FilledAt(floppies: nat, devfs: bool, disks: seq<Option<string>>, d: nat)
    requires floppies <= NAMES && Placed(disks) && d < NUM_DISKS
    ensures forall e <- Items(floppies, devfs, disks) :: e.n < NAMES
    ensures Fill(Items(floppies, devfs, disks), Empty())[d] == Place(d, floppies, devfs, disks, name => true)
  {
    DistinctItems(floppies, devfs, disks);
    ItemsPlace(floppies, devfs, disks, d);
    hide Fill, Place, Items;
    FillAt(Items(floppies, devfs, disks), Empty(), d);
  }

  /** What the file preserves of the map m that was probed: r has the same hard disks, and every
      floppy that was probed, whether it was there or not. */
  ghost predicate Preserved(m: seq<Option<string>>, r: seq<Option<string>>, floppies: nat, devfs: bool) {
    && |m| == |r| == NUM_DISKS
    && (forall d :: HD <= d < NUM_DISKS ==> r[d] == m[d])
    && (forall d :: 0 <= d < HD ==> r[d] == if d < floppies then Some(FloppyName(d, devfs)) else None)
    && (forall d :: 0 <= d < HD && m[d].Some? ==> r[d] == m[d])
  }

  lemma FilledIsPreserved(floppies: nat, devfs: bool, disks: seq<Option<string>>, check: string -> bool, m: Map)
    requires floppies <= NAMES && Placed(disks) && Probed(m, floppies, devfs, disks, check)
    ensures forall e <- Items(floppies, devfs, disks) :: e.n < NAMES
    ensures Preserved(m, Fill(Items(floppies, devfs, disks), Empty()), floppies, devfs)
  {
    DistinctItems(floppies, devfs, disks);
    hide Fill, FloppyName, FloppyItems, DiskItems;
    forall d: nat | d < NUM_DISKS
      ensures Fill(Items(floppies, devfs, disks), Empty())[d] == Place(d, floppies, devfs, disks, name => true)
    {
      FilledAt(floppies, devfs, disks, d);
    }
  }

  /** Every name is a word without NUL, on a line within the reader's buffer. */
  ghost predicate AllGood(es: seq<Item>) {
    forall e <- es :: Format.NUL !in e.name && Good(e)
  }

  /** Reading back the written file succeeds, with that map, if and only if every name is a word
      that leaves its line within the reader's buffer. */
  lemma RoundTrip(floppies: nat, devfs: bool, disks: seq<Option<string>>)
    requires floppies <= NAMES && Placed(disks)
    requires forall e <- Items(floppies, devfs, disks) :: Format.NUL !in e.name
    ensures var es := Items(floppies, devfs, disks);
      && (forall e <- es :: e.n < NAMES)
      && (Reading(Texts(es), Empty()) == (true, Fill(es, Empty())) <==> forall e <- es :: Good(e))
  {
    DistinctItems(floppies, devfs, disks);
    ReadsBack(Items(floppies, devfs, disks), Empty());
  }

  // ---------------------------------------------------------------- without a devfs every name is good

  ghost predicate Fine(name: string) {
    name != "" && NoSpace(name) && Format.NUL !in name && |name| <= 20
  }

  lemma FineAppend(a: string, b: string)
    requires NoSpace(a) && NoSpace(b) && Format.NUL !in a && Format.NUL !in b && 0 < |a| + |b| <= 20
    ensures Fine(a + b)
  {
    forall c <- a + b
      ensures !IsSpace(c) && c != Format.NUL
    {
      assert c in a || c in b;
    }
  }

  lemma DecimalFine(n: nat)
    requires n < NAMES
    ensures Fine(Format.Decimal(n)) && |Format.Decimal(n)| <= 3
  {
    assert Format.Limit(3) == 10 * Format.Limit(2) == 1000;
    Format.DecimalLength(n, 3);
    Inet.DecimalDigits(n);
  }

  lemma {:induction false} LetteredFine(prefix: string, first: char, n: nat)
    requires Fine(prefix) && |prefix| < 20 && '0' <= first && first as int + n <= 128
    ensures forall s <- Lettered(prefix, first, n) :: Fine(s)
  {
    if n > 0 {
      LetteredFine(prefix, first, n - 1);
      FineAppend(prefix, [(first as int + n - 1) as char]);
    }
  }

  lemma DriveFine(c: string, d: string)
    requires Fine(c) && Fine(d) && |c| <= 3 && |d| <= 3
    ensures Fine("/dev/rd/c" + c + "d" + d)
  {
    assert Fine("/dev/rd/c") && Fine("d");
    FineAppend("/dev/rd/c", c);
    FineAppend("/dev/rd/c" + c, "d");
    FineAppend("/dev/rd/c" + c + "d", d);
  }

  lemma {:induction false} DrivesFine(controller: nat, n: nat)
    requires controller < 8 && n <= 15
    ensures forall s <- Drives(controller, n) :: Fine(s)
  {
    if n > 0 {
      DrivesFine(controller, n - 1);
      DecimalFine(controller);
      DecimalFine(n - 1);
      DriveFine(Format.Decimal(controller), Format.Decimal(n - 1));
      hide Fine;
    }
  }

  lemma {:induction false} ControllersFine(n: nat)
    requires n <= 8
    ensures forall s <- Controllers(n) :: Fine(s)
  {
    if n > 0 {
      ControllersFine(n - 1);
      DrivesFine(n - 1, 15);
    }
  }

  ghost predicate AllFine(names: seq<string>) {
    forall s <- names :: Fine(s)
  }

  lemma AllFineAppend(a: seq<string>, b: seq<string>)
    requires AllFine(a) && AllFine(b)
    ensures AllFine(a + b)
  {
    hide Fine;
  }

  lemma PrefixesFine()
    ensures Fine("/dev/hd") && Fine("/dev/ataraid/d") && Fine("/dev/sd") && Fine("/dev/fd")
  {
  }

  lemma CandidatesFine()
    ensures AllFine(Candidates())
  {
    PrefixesFine();
    LetteredFine("/dev/hd", 'a', 8);
    LetteredFine("/dev/ataraid/d", '0', 8);
    LetteredFine("/dev/sd", 'a', 16);
    ControllersFine(8);
    var ide, ataraid, scsi :=
      Lettered("/dev/hd", 'a', 8), Lettered("/dev/ataraid/d", '0', 8), Lettered("/dev/sd", 'a', 16);
    assert AllFine(ide) && AllFine(ataraid) && AllFine(scsi) && AllFine(Controllers(8));
    assert Candidates() == ide + ataraid + scsi + Controllers(8);
    hide *;
    AllFineAppend(ide, ataraid);
    AllFineAppend(ide + ataraid, scsi);
    AllFineAppend(ide + ataraid + scsi, Controllers(8));
  }

  lemma FineIsGood(e: Item)
    requires e.n < NAMES && Fine(e.name)
    ensures Good(e) && Format.NUL !in e.name
  {
    HeadIsOneLine(e);
  }

  /** Without a devfs the round trip always succeeds. */
  lemma NamesGood(floppies: nat, check: string -> bool)
    requires floppies <= NAMES && Placed(HardDisks(None, check))
    ensures AllGood(Items(floppies, false, HardDisks(None, check)))
  {
    var disks := HardDisks(None, check);
    DistinctItems(floppies, false, disks);
    hide Good, Fine;
    forall e <- Items(floppies, false, disks)
      ensures Format.NUL !in e.name && Good(e)
    {
      ItemFine(floppies, check, e);
      FineIsGood(e);
    }
  }

  lemma FloppyFine(n: nat)
    requires n < NAMES
    ensures Fine(FloppyName(n, false))
  {
    PrefixesFine();
    DecimalFine(n);
    FineAppend("/dev/fd", Format.Decimal(n));
  }

  lemma ItemFine(floppies: nat, check: string -> bool, e: Item)
    requires floppies <= NAMES && e in Items(floppies, false, HardDisks(None, check))
    ensures Fine(e.name)
  {
    var disks := HardDisks(None, check);
    hide Fine, Candidates, FloppyName;
    if e in FloppyItems(floppies, false) {
      FloppyFine(e.n);
    } else {
      CandidatesFine();
      assert e in DiskItems(disks);
      assert disks[e.n] == Some(Present(Candidates(), check)[e.n]);
    }
  }

  // ---------------------------------------------------------------- init_device_map

  lemma {:induction false} TextsAppend(es: seq<Item>, e: Item)
    ensures Texts(es + [e]) == Texts(es) + Text(e)
  {
    if es == [] {
      assert [e][1..] == [] && Texts([]) == "";
    } else {
      assert (es + [e])[1..] == es[1..] + [e];
      TextsAppend(es[1..], e);
    }
  }

  /** The map and the file after some floppies and some hard disks. */
  ghost predicate Progress(m: seq<Option<string>>, fp: Option<string>, open: bool,
      floppies: nat, devfs: bool, disks: seq<Option<string>>, check: string -> bool) {
    Probed(m, floppies, devfs, disks, check) && fp == if open then Some(Texts(Items(floppies, devfs, disks))) else None
  }

  /** fprintf to fp, if it is open. */
  function Print(fp: Option<string>, e: Item): Option<string> {
    if fp.Some? then Some(fp.value + Text(e)) else None
  }

  lemma FloppyMapped(m: seq<Option<string>>, i: nat, devfs: bool, check: string -> bool)
    requires i < NAMES && Probed(m, i, devfs, [], check)
    ensures var name := FloppyName(i, devfs);
      Probed(if check(name) then m[i := Some(name)] else m, i + 1, devfs, [], check)
  {
    hide FloppyName;
  }

  lemma FloppyWritten(i: nat, devfs: bool)
    ensures Texts(Items(i + 1, devfs, [])) == Texts(Items(i, devfs, [])) + Text(Item(true, i, FloppyName(i, devfs)))
  {
    var a := FloppyItems(i, devfs);
    assert a + [] == a && FloppyItems(i + 1, devfs) + [] == a + [Item(true, i, FloppyName(i, devfs))];
    TextsAppend(a, Item(true, i, FloppyName(i, devfs)));
  }

  lemma FloppyAdded(m: seq<Option<string>>, fp: Option<string>, open: bool, i: nat, devfs: bool, check: string -> bool)
    requires i < NAMES && Progress(m, fp, open, i, devfs, [], check)
    ensures var name := FloppyName(i, devfs);
      Progress(if check(name) then m[i := Some(name)] else m,
               Print(fp, Item(true, i, name)), open, i + 1, devfs, [], check)
  {
    hide FloppyName, Items, Texts, Text, Probed;
    FloppyMapped(m, i, devfs, check);
    FloppyWritten(i, devfs);
  }

  lemma DiskMapped(m: seq<Option<string>>, floppies: nat, devfs: bool, disks: seq<Option<string>>,
      check: string -> bool, name: Option<string>)
    requires floppies <= NAMES && (name.Some? ==> |disks| < NAMES) && Probed(m, floppies, devfs, disks, check)
    ensures Probed(if name.Some? then m[|disks| + HD := name] else m, floppies, devfs, disks + [name], check)
  {
    hide FloppyName;
  }

  lemma DiskWritten(floppies: nat, devfs: bool, disks: seq<Option<string>>, name: Option<string>)
    ensures var before := Texts(Items(floppies, devfs, disks));
      Texts(Items(floppies, devfs, disks + [name])) ==
        if name.Some? then before + Text(Item(false, |disks|, name.value)) else before
  {
    var n, all := |disks|, disks + [name];
    var a, b := FloppyItems(floppies, devfs), DiskItems(disks);
    assert all[..n] == disks;
    if name.Some? {
      var e := Item(false, n, name.value);
      assert a + DiskItems(all) == a + b + [e];
      TextsAppend(a + b, e);
    }
  }

  /** A disk that is found, or (name is None) only counted. */
  lemma DiskAdded(m: seq<Option<string>>, fp: Option<string>, open: bool,
      floppies: nat, devfs: bool, disks: seq<Option<string>>, check: string -> bool, name: Option<string>)
    requires floppies <= NAMES && (name.Some? ==> |disks| < NAMES)
    requires Progress(m, fp, open, floppies, devfs, disks, check)
    ensures var n := |disks|;
      Progress(if name.Some? then m[n + HD := name] else m,
        if name.Some? then Print(fp, Item(false, n, name.value)) else fp,
        open, floppies, devfs, disks + [name], check)
  {
    hide Items, Texts, Text, Probed;
    DiskMapped(m, floppies, devfs, disks, check, name);
    DiskWritten(floppies, devfs, disks, name);
  }

  method ProbeFloppy(deviceMap: array<Option<string>>, fp: Option<string>, i: nat, ghost open: bool, devfs: bool,
      check: string -> bool)
    returns (fp': Option<string>)
    requires i < NAMES && Progress(deviceMap[..], fp, open, i, devfs, [], check)
    modifies deviceMap
    ensures Progress(deviceMap[..], fp', open, i + 1, devfs, [], check)
  {
    FloppyAdded(deviceMap[..], fp, open, i, devfs, check);
    hide FloppyName, Texts;
    var name := FloppyName(i, devfs);
    fp' := Print(fp, Item(true, i, name));
    if check(name) {
      deviceMap[i] := Some(name);
    }
  }

  /** The map entry and the line of the hard disk with the next number. */
  method AddDisk(deviceMap: array<Option<string>>, fp: Option<string>, numHd: nat, name: Option<string>,
      ghost open: bool, ghost floppies: nat, ghost devfs: bool, ghost disks: seq<Option<string>>,
      ghost check: string -> bool)
    returns (fp': Option<string>)
    requires floppies <= NAMES && numHd == |disks| && (name.Some? ==> |disks| < NAMES)
    requires Progress(deviceMap[..], fp, open, floppies, devfs, disks, check)
    modifies deviceMap
    ensures Progress(deviceMap[..], fp', open, floppies, devfs, disks + [name], check)
  {
    DiskAdded(deviceMap[..], fp, open, floppies, devfs, disks, check, name);
    hide Texts, Items;
    fp' := fp;
    if name.Some? {
      deviceMap[numHd + 0x80] := name;
      fp' := Print(fp, Item(false, numHd, name.value));
    }
  }

  /** One of the loops over the names of a kind of disk. */
  method ProbeDisks(deviceMap: array<Option<string>>, fp: Option<string>, numHd: nat, names: seq<string>,
      check: string -> bool,
      ghost open: bool, ghost floppies: nat, ghost devfs: bool, ghost disks: seq<Option<string>>)
    returns (fp': Option<string>, numHd': nat)
    requires floppies <= NAMES && numHd == |disks| && |disks| + |Present(names, check)| <= NAMES
    requires Progress(deviceMap[..], fp, open, floppies, devfs, disks, check)
    modifies deviceMap
    ensures Progress(deviceMap[..], fp', open, floppies, devfs, disks + Names(Present(names, check)), check)
    ensures numHd' == |disks| + |Present(names, check)|
  {
    fp', numHd' := fp, numHd;
    ghost var all := disks;
    assert names[..0] == [] && disks + Names([]) == disks;
    hide Progress, Names, Present;
    for i := 0 to |names|
      invariant all == disks + Names(Present(names[..i], check)) && numHd' == |all|
      invariant Progress(deviceMap[..], fp', open, floppies, devfs, all, check)
    {
      PresentStep(names, i, check, disks);
      fp', numHd', all := ProbeDisk(deviceMap, fp', numHd', names[i], check, open, floppies, devfs, all);
    }
    assert names[..|names|] == names;
  }

  /** One turn of such a loop. */
  method ProbeDisk(deviceMap: array<Option<string>>, fp: Option<string>, numHd: nat, name: string,
      check: string -> bool,
      ghost open: bool, ghost floppies: nat, ghost devfs: bool, ghost disks: seq<Option<string>>)
    returns (fp': Option<string>, numHd': nat, ghost disks': seq<Option<string>>)
    requires floppies <= NAMES && numHd == |disks| && (check(name) ==> |disks| < NAMES)
    requires Progress(deviceMap[..], fp, open, floppies, devfs, disks, check)
    modifies deviceMap
    ensures Progress(deviceMap[..], fp', open, floppies, devfs, disks', check)
    ensures disks' == disks + (if check(name) then [Some(name)] else []) && numHd' == |disks'|
  {
    hide Progress;
    fp', numHd', disks' := fp, numHd, disks;
    if check(name) {
      fp' := AddDisk(deviceMap, fp, numHd, Some(name), open, floppies, devfs, disks, check);
      disks' := disks + [Some(name)];
      numHd' := numHd + 1;
    }
  }

  lemma PresentStep(names: seq<string>, i: nat, check: string -> bool, disks: seq<Option<string>>)
    requires i < |names|
    ensures disks + Names(Present(names[..i + 1], check)) ==
      disks + Names(Present(names[..i], check)) + (if check(names[i]) then [Some(names[i])] else [])
    ensures |Present(names[..i + 1], check)| <= |Present(names, check)|
    ensures |Present(names[..i + 1], check)| == |Present(names[..i], check)| + (if check(names[i]) then 1 else 0)
  {
    assert names[..i + 1] + names[i + 1..] == names && names[..i + 1][..i] == names[..i];
    PresentSplits(names[..i + 1], names[i + 1..], check);
  }

  /** The walk over /dev/discs. */
  method WalkDiscs(deviceMap: array<Option<string>>, fp: Option<string>, paths: seq<Option<string>>,
      ghost open: bool, ghost floppies: nat, ghost check: string -> bool)
    returns (fp': Option<string>)
    requires floppies <= NAMES && Placed(paths)
    requires Progress(deviceMap[..], fp, open, floppies, true, [], check)
    modifies deviceMap
    ensures Progress(deviceMap[..], fp', open, floppies, true, Discs(paths), check)
  {
    fp' := fp;
    hide Progress;
    for numHd := 0 to |paths|
      invariant Progress(deviceMap[..], fp', open, floppies, true, Discs(paths[..numHd]), check)
    {
      var name := if paths[numHd].Some? then Some(paths[numHd].value + "/disc") else None;
      fp' := AddDisk(deviceMap, fp', numHd, name, open, floppies, true, Discs(paths[..numHd]), check);
      assert paths[..numHd + 1][..numHd] == paths[..numHd];
    }
    assert paths[..|paths|] == paths;
  }

  /** The four loops over the names of disks. */
  method ProbeAll(deviceMap: array<Option<string>>, fp: Option<string>, check: string -> bool,
      ghost open: bool, ghost floppies: nat)
    returns (fp': Option<string>)
    requires floppies <= NAMES && Placed(HardDisks(None, check))
    requires Progress(deviceMap[..], fp, open, floppies, false, [], check)
    modifies deviceMap
    ensures Progress(deviceMap[..], fp', open, floppies, false, HardDisks(None, check), check)
  {
    var ide, ataraid, scsi, dac960 :=
      Lettered("/dev/hd", 'a', 8), Lettered("/dev/ataraid/d", '0', 8), Lettered("/dev/sd", 'a', 16), Controllers(8);
    FourKinds(ide, ataraid, scsi, dac960, check);
    NamesPlaced(Present(Candidates(), check));
    assert HardDisks(None, check) == Names(Present(ide + ataraid + scsi + dac960, check));
    hide Progress, HardDisks, Names, Present, Lettered, Controllers, Candidates;
    fp' := ProbeKinds(deviceMap, fp, ide, ataraid, scsi, dac960, check, open, floppies);
  }

  method ProbeKinds(deviceMap: array<Option<string>>, fp: Option<string>, ide: seq<string>, ataraid: seq<string>,
      scsi: seq<string>, dac960: seq<string>, check: string -> bool, ghost open: bool, ghost floppies: nat)
    returns (fp': Option<string>)
    requires floppies <= NAMES
    requires |Present(ide, check)| + |Present(ataraid, check)| + |Present(scsi, check)|
      + |Present(dac960, check)| <= NAMES
    requires Progress(deviceMap[..], fp, open, floppies, false, [], check)
    modifies deviceMap
    ensures Progress(deviceMap[..], fp', open, floppies, false, [] + Names(Present(ide, check))
      + Names(Present(ataraid, check)) + Names(Present(scsi, check)) + Names(Present(dac960, check)), check)
  {
    ghost var a, b, c := Names(Present(ide, check)), Names(Present(ataraid, check)), Names(Present(scsi, check));
    hide Progress, Names, Present;
    var numHd;
    fp', numHd := ProbeDisks(deviceMap, fp, 0, ide, check, open, floppies, false, []);
    fp', numHd := ProbeDisks(deviceMap, fp', numHd, ataraid, check, open, floppies, false, [] + a);
    fp', numHd := ProbeDisks(deviceMap, fp', numHd, scsi, check, open, floppies, false, [] + a + b);
    fp', numHd := ProbeDisks(deviceMap, fp', numHd, dac960, check, open, floppies, false, [] + a + b + c);
  }

  lemma FourKinds(a: seq<string>, b: seq<string>, c: seq<string>, d: seq<string>, check: string -> bool)
    ensures |Present(a, check)| + |Present(b, check)| + |Present(c, check)| + |Present(d, check)|
      == |Present(a + b + c + d, check)|
    ensures Names(Present(a + b + c + d, check)) ==
      [] + Names(Present(a, check)) + Names(Present(b, check)) + Names(Present(c, check)) + Names(Present(d, check))
  {
    PresentSplits(a, b, check);
    PresentSplits(a + b, c, check);
    PresentSplits(a + b + c, d, check);
    hide Present;
  }

  lemma NothingProbed(m: Map, open: bool, devfs: bool, check: string -> bool)
    requires forall d :: 0 <= d < NUM_DISKS ==> m[d] == None
    ensures Progress(m, if open then Some("") else None, open, 0, devfs, [], check)
  {
    assert Items(0, devfs, []) == [] && Texts([]) == "";
  }

  /** existing is the text of the map file, should it be readable; open tells whether it can be
      written; devfs what hangs off /dev/discs, should there be a devfs. */
  method InitDeviceMap(existing: Option<string>, open: bool, floppyDisks: int,
      devfs: Option<seq<Option<string>>>, check: string -> bool)
    returns (ok: bool, deviceMap: array<Option<string>>, fp: Option<string>)
    requires floppyDisks <= NAMES && Placed(HardDisks(devfs, check))
    ensures fresh(deviceMap) && deviceMap.Length == NUM_DISKS
    ensures existing.Some? ==> (ok, deviceMap[..]) == Reading(existing.value, Empty()) && fp == None
    ensures existing.None? ==> ok && Progress(deviceMap[..], fp, open,
      if floppyDisks < 0 then 0 else floppyDisks, devfs.Some?, HardDisks(devfs, check), check)
  {
    deviceMap := NewMap();
    if existing.Some? {
      ok := ReadDeviceMap(existing.value, deviceMap);
      return ok, deviceMap, None;
    }
    fp := if open then Some("") else None;
    NothingProbed(deviceMap[..], open, devfs.Some?, check);
    if devfs.Some? { DiscsPlaced(devfs.value); }
    hide Progress, HardDisks;
    fp := ProbeFloppies(deviceMap, fp, floppyDisks, open, devfs.Some?, check);
    ghost var floppies := if floppyDisks < 0 then 0 else floppyDisks;
    if devfs.Some? {
      fp := WalkDiscs(deviceMap, fp, devfs.value, open, floppies, check);
    } else {
      fp := ProbeAll(deviceMap, fp, check, open, floppies);
    }
    ok := true;
  }

  method NewMap() returns (deviceMap: array<Option<string>>)
    ensures fresh(deviceMap) && deviceMap.Length == NUM_DISKS && deviceMap[..] == Empty()
  {
    deviceMap := new Option<string>[NUM_DISKS](i => None);
  }

  method ProbeFloppies(deviceMap: array<Option<string>>, fp: Option<string>, floppyDisks: int,
      ghost open: bool, devfs: bool, check: string -> bool)
    returns (fp': Option<string>)
    requires floppyDisks <= NAMES && Progress(deviceMap[..], fp, open, 0, devfs, [], check)
    modifies deviceMap
    ensures Progress(deviceMap[..], fp', open, if floppyDisks < 0 then 0 else floppyDisks, devfs, [], check)
  {
    hide Progress;
    fp' := fp;
    var i := 0;
    while i < floppyDisks
      invariant 0 <= i && (i <= floppyDisks || i == 0)
      invariant Progress(deviceMap[..], fp', open, i, devfs, [], check)
    {
      fp' := ProbeFloppy(deviceMap, fp', i, open, devfs, check);
      i := i + 1;
    }
  }

  /** Probing with a map file to write, and starting from that file the next time: it is read, and
      gives the same hard disks, numbered from 0x80 in the order they were found. Without a devfs
      this needs no hypothesis on names. */
  method ProbeThenRead(floppyDisks: nat, devfs: Option<seq<Option<string>>>, check: string -> bool)
    returns (first: array<Option<string>>, ok: bool, second: array<Option<string>>)
    requires floppyDisks <= NAMES && Placed(HardDisks(devfs, check))
    requires devfs.Some? ==> AllGood(Items(floppyDisks, true, HardDisks(devfs, check)))
    ensures Probed(first[..], floppyDisks, devfs.Some?, HardDisks(devfs, check), check)
    ensures ok && Preserved(first[..], second[..], floppyDisks, devfs.Some?)
  {
    var fp;
    ok, first, fp := InitDeviceMap(None, true, floppyDisks, devfs, check);
    ghost var disks := HardDisks(devfs, check);
    assert Probed(first[..], floppyDisks, devfs.Some?, disks, check);
    assert fp == Some(Texts(Items(floppyDisks, devfs.Some?, disks)));
    if devfs.None? { NamesGood(floppyDisks, check); }
    hide HardDisks, Items, Texts, Reading, Probed, Progress, Preserved;
    WrittenIsRead(floppyDisks, devfs.Some?, disks, check, first[..]);
    ok, second, fp := InitDeviceMap(fp, true, floppyDisks, devfs, check);
  }

  lemma WrittenIsRead(floppies: nat, devfs: bool, disks: seq<Option<string>>, check: string -> bool, m: Map)
    requires floppies <= NAMES && Placed(disks) && Probed(m, floppies, devfs, disks, check)
    requires AllGood(Items(floppies, devfs, disks))
    ensures var r := Reading(Texts(Items(floppies, devfs, disks)), Empty());
      r.0 && Preserved(m, r.1, floppies, devfs)
  {
    hide Texts, Reading, Probed, Preserved, Good, Items;
    RoundTrip(floppies, devfs, disks);
    FilledIsPreserved(floppies, devfs, disks, check, m);
  }

  // ---------------------------------------------------------------- too many disks

  /** The probe writes only inside the map if and only if every disk it finds has a place there. With
      a devfs that means that no link from number 128 on resolves, without one that there are at most
      128 disks. */
  lemma InsideIffPlaced(devfs: Option<seq<Option<string>>>, check: string -> bool)
    ensures var disks := HardDisks(devfs, check);
      && ((forall e <- DiskItems(disks) :: e.Drive() < NUM_DISKS) <==> Placed(disks))
      && (devfs.Some? ==> (Placed(disks) <==> Placed(devfs.value)))
      && (devfs.None? ==> (Placed(disks) <==> |disks| <= NAMES))
  {
    var disks := HardDisks(devfs, check);
    if devfs.Some? {
      DiscsPlaced(devfs.value);
    } else {
      NamesPlaced(Present(Candidates(), check));
    }
    hide Discs, Present, Candidates;
    ItemsInside(disks);
  }

  lemma ItemsInside(disks: seq<Option<string>>)
    ensures (forall e <- DiskItems(disks) :: e.Drive() < NUM_DISKS) <==> Placed(disks)
  {
    hide DiskItems;
    if k :| NAMES <= k < |disks| && disks[k].Some? {
      var e := Item(false, k, disks[k].value);
      assert e in DiskItems(disks) && e.Drive() >= NUM_DISKS;
    }
  }

  lemma PresentLast(names: seq<string>, check: string -> bool)
    requires names != [] && check(names[|names| - 1])
    ensures |Present(names, check)| == |Present(names[..|names| - 1], check)| + 1
  {
  }

  lemma {:induction false} PresentAll(names: seq<string>, check: string -> bool)
    requires forall name: string :: check(name)
    ensures |Present(names, check)| == |names|
  {
    if names != [] {
      PresentLast(names, check);
      PresentAll(names[..|names| - 1], check);
    }
  }

  /** A host on which every name that is probed can be read has more disks than the map has room for. */
  lemma TooManyDisks(check: string -> bool)
    requires forall name :: check(name)
    ensures |HardDisks(None, check)| == 152 > NAMES
  {
    hide Candidates;
    PresentAll(Candidates(), check);
  }

  // ---------------------------------------------------------------- a host with one disk

  lemma OneDigit(u: nat)
    requires u < 10
    ensures Format.Decimal(u) == ["0123456789"[u]]
  {
  }

  /** The first ten floppies, without and with a devfs. */
  lemma FloppyNamesAre(u: nat)
    requires u < 10
    ensures FloppyName(u, false) == "/dev/fd" + ["0123456789"[u]]
    ensures FloppyName(u, true) == "/dev/floppy/" + ["0123456789"[u]]
  {
    OneDigit(u);
  }

  lemma {:induction false} OnlyOnePresent(names: seq<string>, u: nat, check: string -> bool)
    requires u < |names| && forall v :: 0 <= v < |names| ==> (check(names[v]) <==> v == u)
    ensures Present(names, check) == [names[u]]
  {
    var n := |names| - 1;
    if u == n {
      NonePresent(names[..n], check);
    } else {
      OnlyOnePresent(names[..n], u, check);
    }
  }

  lemma {:induction false} NonePresent(names: seq<string>, check: string -> bool)
    requires forall v :: 0 <= v < |names| ==> !check(names[v])
    ensures Present(names, check) == []
  {
    if names != [] { NonePresent(names[..|names| - 1], check); }
  }

  lemma NotHda(prefix: string, rest: string)
    requires |prefix| > 5 && prefix[5] != 'h'
    ensures prefix + rest != "/dev/hda"
  {
    assert (prefix + rest)[5] == prefix[5] && "/dev/hda"[5] == 'h';
  }

  lemma PrefixOf(u: nat) returns (prefix: string, rest: string)
    requires 8 <= u < 152
    ensures Candidates()[u] == prefix + rest && |prefix| > 5 && prefix[5] != 'h'
  {
    hide Candidates, Format.Decimal;
    if u < 16 {
      AtaraidAt(u - 8);
      prefix, rest := "/dev/ataraid/d", ["01234567"[u - 8]];
    } else if u < 32 {
      ScsiAt(u - 16);
      prefix, rest := "/dev/sd", ["abcdefghijklmnop"[u - 16]];
    } else {
      var c, d := Format.Decimal((u - 32) / 15), Format.Decimal((u - 32) % 15);
      Dac960At((u - 32) / 15, (u - 32) % 15);
      prefix, rest := "/dev/rd/c", c + "d" + d;
      Associative("/dev/rd/c", c + "d", d);
      Associative("/dev/rd/c", c, "d");
    }
  }

  lemma OthersAreNotHda(u: nat)
    requires u < 152
    ensures Candidates()[u] == "/dev/hda" <==> u == 0
  {
    hide Candidates;
    if u < 8 {
      IdeAt(u);
      IdeName(u);
    } else {
      var prefix, rest := PrefixOf(u);
      NotHda(prefix, rest);
    }
  }

  lemma IdeName(u: nat)
    requires u < 8
    ensures "/dev/hd" + ["abcdefgh"[u]] == "/dev/hda" <==> u == 0
  {
    var name := "/dev/hd" + ["abcdefgh"[u]];
    assert name[7] == "abcdefgh"[u];
    if u == 0 { assert name == "/dev/hda"; }
  }

  function IsHda(): string -> bool {
    name => name == "/dev/hda"
  }

  lemma HdaIsTheOnlyDisk()
    ensures HardDisks(None, IsHda()) == [Some("/dev/hda")]
  {
    IdeAt(0);
    forall u: nat | u < 152
      ensures Candidates()[u] == "/dev/hda" <==> u == 0
    {
      OthersAreNotHda(u);
    }
    hide Candidates;
    OnlyOnePresent(Candidates(), 0, IsHda());
    hide Present;
  }

  const FD0 := Item(true, 0, "/dev/fd0")
  const HD0 := Item(false, 0, "/dev/hda")

  lemma FirstFloppy()
    ensures FloppyName(0, false) == "/dev/fd0"
  {
    FloppyNamesAre(0);
    assert ["0123456789"[0]] == "0" && "/dev/fd" + "0" == "/dev/fd0";
  }

  lemma HdaLines()
    ensures Text(FD0) == "(fd0)\t/dev/fd0\n" && Text(HD0) == "(hd0)\t/dev/hda\n"
  {
    OneDigit(0);
    assert ["0123456789"[0]] == "0";
    assert Head(FD0) == "(" + "fd" + "0" + ")\t" && Head(HD0) == "(" + "hd" + "0" + ")\t";
    assert Head(FD0) == "(fd0)\t" && Head(HD0) == "(hd0)\t";
  }

  lemma HdaItems()
    ensures Texts(Items(1, false, [Some("/dev/hda")])) == Text(FD0) + Text(HD0)
  {
    FirstFloppy();
    HdaItem();
    assert FloppyItems(0, false) == [] && FloppyItems(1, false) == [] + [FD0];
    hide FloppyItems, DiskItems, FloppyName, Text;
    assert Items(1, false, [Some("/dev/hda")]) == [FD0, HD0];
    TwoTexts(FD0, HD0);
  }

  lemma HdaItem()
    ensures DiskItems([Some("/dev/hda")]) == [HD0]
  {
    var disks := [Some("/dev/hda")];
    assert disks[..0] == [] && DiskItems([]) == [];
    assert DiskItems(disks) == [] + [HD0];
  }

  lemma TwoTexts(a: Item, b: Item)
    ensures Texts([a, b]) == Text(a) + Text(b)
  {
    hide Text;
    assert [a, b][1..] == [b] && [b][1..] == [];
    assert Texts([b]) == Text(b) + Texts([]);
  }

  lemma HdaMapped(m: seq<Option<string>>)
    requires Probed(m, 1, false, [Some("/dev/hda")], IsHda())
    ensures |m| == NUM_DISKS
    ensures forall d :: 0 <= d < NUM_DISKS ==> m[d] == if d == 0x80 then Some("/dev/hda") else None
  {
    FirstFloppy();
    assert "/dev/fd0"[5] != "/dev/hda"[5];
    hide FloppyName;
  }

  /** A host without a devfs whose only disk is /dev/hda, probed for one floppy: the disk is drive 0x80, the
      floppy is only written down. */
  method OnlyHda() returns (ok: bool, deviceMap: array<Option<string>>, fp: Option<string>)
    ensures ok && fp == Some("(fd0)\t/dev/fd0\n" + "(hd0)\t/dev/hda\n") && deviceMap.Length == NUM_DISKS
    ensures forall d :: 0 <= d < NUM_DISKS ==> deviceMap[d] == if d == 0x80 then Some("/dev/hda") else None
  {
    HdaIsTheOnlyDisk();
    HdaLines();
    HdaItems();
    hide HardDisks, Items, Texts, Text, Head, IsHda, Probed;
    ok, deviceMap, fp := InitDeviceMap(None, true, 1, None, IsHda());
    HdaMapped(deviceMap[..]);
  }
}
