/** The option loop of buf_fill on the bytes of an option acknowledgement (RFC 2347), and why it
    reads the options that the conversation in TftpProtocol.dfy deals with. */
module Oack {
  import opened Basics
  import opened TftpProtocol
  import Format
  import Inet

  ghost predicate Encodable(o: Opt) {
    o.name != "" && Format.NUL !in o.name && 0 <= o.value < 0x8000_0000
  }

  /** An acknowledged option on the wire: its name and its value, each closed by a NUL. */
  function Wire(o: Opt): string
    requires Encodable(o)
  {
    o.name + [Format.NUL] + Format.Decimal(o.value) + [Format.NUL]
  }

  /** Every option can be encoded. */
  ghost predicate AllEncodable(opts: seq<Opt>) {
    opts == [] || (Encodable(opts[0]) && AllEncodable(opts[1..]))
  }

  function Encode(opts: seq<Opt>): string
    requires AllEncodable(opts)
  {
    if opts == [] then "" else Wire(opts[0]) + Encode(opts[1..])
  }

  // ---------------------------------------------------------------- the loop as a function

  /** Nothing to read at p: the end of memory, or a NUL. */
  predicate Ended(p: string) {
    p == "" || p[0] == Format.NUL
  }

  /** grub_strcmp finds the C string at p equal to name. */
  predicate Named(p: string, name: string) {
    name + [Format.NUL] <= p
  }

  /** The end of the loop body: behind the next NUL, but not behind e. left is e - p. */
  function Next(p: string, left: int): (r: (string, int))
    ensures |r.0| <= |p| && (left > 0 && p != "" ==> |r.0| < |p|)
  {
    if left <= 0 || p == "" then (p, left)
    else if p[0] == Format.NUL then (p[1..], left - 1)
    else Next(p[1..], left - 1)
  }

  /** The option loop from p on, with left bytes of the packet to go; ok is false where it jumps to
      noak. */
  function Options(p: string, left: int, packetsize: int, filemax: int): Parsed
    decreases |p|
  {
    if Ended(p) || left <= 0 then Parsed(packetsize, filemax, left >= 0)
    else if Named(p, "blksize") then
      var (v, n) := Inet.Getdec(p[8..]);
      if v < DEFAULTSIZE then Parsed(v, filemax, false)
      else
        var (q, l) := Next(p[8 + n..], left - 8 - n);
        Options(q, l, v, filemax)
    else if Named(p, "tsize") then
      var (v, n) := Inet.Getdec(p[6..]);
      if v < 0 then Parsed(packetsize, -1, false)
      else
        var (q, l) := Next(p[6 + n..], left - 6 - n);
        Options(q, l, packetsize, v)
    else Parsed(packetsize, filemax, false)
  }

  /** The option branch on len bytes in memory. */
  function OptionBytes(data: string, len: nat, packetsize: int, filemax: int): Parsed {
    if len > MAX_PACKET then Parsed(packetsize, filemax, false) else Options(data, len, packetsize, filemax)
  }

  // ---------------------------------------------------------------- the loop

  method SkipToNext(start: string, room: int) returns (p: string, left: int)
    ensures (p, left) == Next(start, room)
  {
    p, left := start, room;
    while left > 0 && !Ended(p)
      invariant Next(p, left) == Next(start, room)
      decreases |p|
    {
      p, left := p[1..], left - 1;
    }
    if left > 0 && p != "" {
      p, left := p[1..], left - 1;
    }
  }

  /** One turn of the loop; ok is false where it jumps to noak. */
  method ReadOption(p: string, left: int, packetsize0: int, filemax0: int)
    returns (p': string, left': int, packetsize: int, filemax: int, ok: bool)
    requires !Ended(p) && left > 0
    ensures |p'| < |p| || !ok
    ensures Options(p, left, packetsize0, filemax0) ==
      if ok then Options(p', left', packetsize, filemax) else Parsed(packetsize, filemax, false)
  {
    hide Inet.Getdec, Next;
    p', left', packetsize, filemax, ok := p, left, packetsize0, filemax0, false;
    var n;
    if Named(p, "blksize") {
      packetsize, n := Inet.GetDec(p[8..]);
      if packetsize < DEFAULTSIZE { return; }
      p', left' := SkipToNext(p[8 + n..], left - 8 - n);
    } else if Named(p, "tsize") {
      filemax, n := Inet.GetDec(p[6..]);
      if filemax < 0 {
        filemax := -1;
        return;
      }
      p', left' := SkipToNext(p[6 + n..], left - 6 - n);
    } else {
      return;
    }
    ok := true;
  }

  /** The loop; data is memory from the options on, of which len bytes belong to the packet. */
  method ReadOptionBytes(data: string, len: nat, packetsize0: int, filemax0: int)
    returns (packetsize: int, filemax: int, ok: bool)
    ensures Parsed(packetsize, filemax, ok) == OptionBytes(data, len, packetsize0, filemax0)
  {
    packetsize, filemax := packetsize0, filemax0;
    if len > MAX_PACKET { return packetsize, filemax, false; }
    var p, left := data, len;
    while !Ended(p) && left > 0
      invariant Options(p, left, packetsize, filemax) == Options(data, len, packetsize0, filemax0)
      decreases |p|
    {
      p, left, packetsize, filemax, ok := ReadOption(p, left, packetsize, filemax);
      if !ok { return; }
    }
    ok := left >= 0;
  }

  // ---------------------------------------------------------------- reading what was encoded

  lemma NamedIsName(name: string, wanted: string, rest: string)
    requires Format.NUL !in name && Format.NUL !in wanted
    ensures Named(name + [Format.NUL] + rest, wanted) <==> name == wanted
  {
    var p := name + [Format.NUL] + rest;
    assert p[|name|] == Format.NUL && p[..|name|] == name;
    forall i | 0 <= i < |name|
      ensures p[i] != Format.NUL
    {
      assert p[i] == name[i] && name[i] in name;
    }
    assert forall i :: 0 <= i < |wanted| ==> wanted[i] in wanted;
    if Named(p, wanted) {
      var w := wanted + [Format.NUL];
      assert p[|wanted|] == w[|wanted|];
      assert p[..|wanted|] == w[..|wanted|] == wanted;
    }
  }

  lemma Behind(front: string, back: string)
    ensures (front + back)[|front|..] == back
  {
  }

  /** The parts of an encoded option. */
  lemma WireParts(o: Opt, tail: string)
    requires Encodable(o)
    ensures var p, k, dec := Wire(o) + tail, |o.name| + 1, Format.Decimal(o.value);
      && |p| >= k + |dec| + 1 == |Wire(o)|
      && p == o.name + [Format.NUL] + p[k..]
      && p[k..] == dec + ([Format.NUL] + tail) && p[k + |dec|..] == [Format.NUL] + tail
  {
    var dec, head, rest := Format.Decimal(o.value), o.name + [Format.NUL], [Format.NUL] + tail;
    hide Format.Decimal;
    assert Wire(o) + tail == head + (dec + rest);
    Behind(head, dec + rest);
    assert head + (dec + rest) == (head + dec) + rest;
    Behind(head + dec, rest);
  }

  /** What getdec finds behind the name of an encoded option, and where the loop goes on. */
  lemma ValueRead(o: Opt, tail: string, left: int)
    requires Encodable(o) && left > 0
    ensures var p, k := Wire(o) + tail, |o.name| + 1;
      var d := |Format.Decimal(o.value)|;
      && p == o.name + [Format.NUL] + p[k..]
      && |p| >= k + d + 1 == |Wire(o)|
      && Inet.Getdec(p[k..]) == (o.value, d)
      && Next(p[k + d..], left) == (tail, left - 1)
  {
    WireParts(o, tail);
    var rest := [Format.NUL] + tail;
    assert Next(rest, left) == (tail, left - 1) by { assert rest[1..] == tail; }
    hide Format.Decimal, Inet.Getdec, Next, Wire;
    Inet.GetdecUndoesDecimal(o.value, rest);
  }

  predicate Blksize(o: Opt) { o.name == "blksize" }

  predicate Tsize(o: Opt) { o.name == "tsize" }

  lemma ReadStep(opts: seq<Opt>, packetsize: int, filemax: int)
    requires opts != [] && Encodable(opts[0])
    ensures var o := opts[0];
      ReadOptions(opts, packetsize, filemax) ==
        if Blksize(o) then
          if o.value < DEFAULTSIZE then Parsed(o.value, filemax, false) else ReadOptions(opts[1..], o.value, filemax)
        else if Tsize(o) then ReadOptions(opts[1..], packetsize, o.value)
        else Parsed(packetsize, filemax, false)
  {
  }

  /** The first option of the rest of an acknowledgement. */
  lemma OptionFound(o: Opt, tail: string)
    requires Encodable(o)
    ensures var p := Wire(o) + tail;
      && !Ended(p)
      && (Named(p, "blksize") <==> Blksize(o)) && (Named(p, "tsize") <==> Tsize(o))
      && (Blksize(o) ==> |o.name| + 1 == 8) && (Tsize(o) ==> |o.name| + 1 == 6)
  {
    var p := Wire(o) + tail;
    ValueRead(o, tail, 1);
    NamedIsName(o.name, "blksize", p[|o.name| + 1..]);
    NamedIsName(o.name, "tsize", p[|o.name| + 1..]);
    assert p[0] == o.name[0] && o.name[0] in o.name;
  }

  lemma OptionStep(o: Opt, tail: string, left: nat, packetsize: int, filemax: int)
    requires Encodable(o)
    ensures Options(Wire(o) + tail, |Wire(o)| + left, packetsize, filemax) ==
      if Blksize(o) then
        if o.value < DEFAULTSIZE then Parsed(o.value, filemax, false) else Options(tail, left, o.value, filemax)
      else if Tsize(o) then Options(tail, left, packetsize, o.value)
      else Parsed(packetsize, filemax, false)
  {
    OptionFound(o, tail);
    ValueRead(o, tail, left + 1);
    OptionsUnfold(Wire(o) + tail, |Wire(o)| + left, packetsize, filemax);
    hide Blksize, Tsize, Ended, Wire, Format.Decimal, Inet.Getdec, Next, Named, Options;
  }

  /** One turn of the loop, spelled out. */
  lemma OptionsUnfold(p: string, left: int, packetsize: int, filemax: int)
    requires !Ended(p) && left > 0
    ensures Named(p, "blksize") ==>
      |p| >= 8 && var (v, n) := Inet.Getdec(p[8..]);
      Options(p, left, packetsize, filemax) ==
        if v < DEFAULTSIZE then Parsed(v, filemax, false)
        else var (q, l) := Next(p[8 + n..], left - 8 - n); Options(q, l, v, filemax)
    ensures !Named(p, "blksize") && Named(p, "tsize") ==>
      |p| >= 6 && var (v, n) := Inet.Getdec(p[6..]);
      Options(p, left, packetsize, filemax) ==
        if v < 0 then Parsed(packetsize, -1, false)
        else var (q, l) := Next(p[6 + n..], left - 6 - n); Options(q, l, packetsize, v)
    ensures !Named(p, "blksize") && !Named(p, "tsize") ==>
      Options(p, left, packetsize, filemax) == Parsed(packetsize, filemax, false)
  {
    hide Inet.Getdec, Next;
  }

  lemma EncodeStep(opts: seq<Opt>, behind: string)
    requires opts != [] && AllEncodable(opts)
    ensures Encode(opts) + behind == Wire(opts[0]) + (Encode(opts[1..]) + behind)
    ensures |Encode(opts)| == |Wire(opts[0])| + |Encode(opts[1..])|
  {
    Associative(Wire(opts[0]), Encode(opts[1..]), behind);
  }

  lemma NoOptions(behind: string, packetsize: int, filemax: int)
    ensures Options(Encode([]) + behind, |Encode([])|, packetsize, filemax) == ReadOptions([], packetsize, filemax)
  {
  }

  /** On an acknowledgement that fits, the bytes give what the options say; whatever lies behind the
      packet in memory is not looked at. */
  lemma {:induction false} OptionsReadBack(opts: seq<Opt>, behind: string, packetsize: int, filemax: int)
    requires AllEncodable(opts)
    ensures Options(Encode(opts) + behind, |Encode(opts)|, packetsize, filemax)
      == ReadOptions(opts, packetsize, filemax)
    decreases |opts|
  {
    if opts == [] {
      NoOptions(behind, packetsize, filemax);
    } else {
      FirstOption(opts, behind, packetsize, filemax);
      var o := opts[0];
      OptionsReadBack(opts[1..], behind,
        if Blksize(o) then o.value else packetsize, if Tsize(o) then o.value else filemax);
    }
  }

  /** The loop deals with the first option as ReadOptions does. */
  lemma FirstOption(opts: seq<Opt>, behind: string, packetsize: int, filemax: int)
    requires opts != [] && AllEncodable(opts)
    ensures var o, rest := opts[0], opts[1..];
      var size, max := if Blksize(o) then o.value else packetsize, if Tsize(o) then o.value else filemax;
      && AllEncodable(rest)
      && (Options(Encode(rest) + behind, |Encode(rest)|, size, max) == ReadOptions(rest, size, max)
          ==> Options(Encode(opts) + behind, |Encode(opts)|, packetsize, filemax)
              == ReadOptions(opts, packetsize, filemax))
  {
    hide Options, ReadOptions, Wire, Encode, Encodable, Blksize, Tsize;
    var o, left := opts[0], |Encode(opts[1..])|;
    var all, tail := Encode(opts) + behind, Encode(opts[1..]) + behind;
    EncodeStep(opts, behind);
    assert Options(all, |Encode(opts)|, packetsize, filemax)
      == Options(Wire(o) + tail, |Wire(o)| + left, packetsize, filemax);
    OptionStep(o, tail, left, packetsize, filemax);
    ReadStep(opts, packetsize, filemax);
    BlksizeOrTsize(o);
  }

  lemma BlksizeOrTsize(o: Opt)
    ensures !(Blksize(o) && Tsize(o))
  {
    assert Blksize(o) ==> |o.name| == 7;
    assert Tsize(o) ==> |o.name| == 5;
  }

  lemma {:induction false} HonestFits(s: Server, opts: seq<Opt>)
    requires Honest(s) && forall o <- opts :: o in s.opts
    ensures AllEncodable(opts) && |Encode(opts)| <= 19 * |opts|
    decreases |opts|
  {
    if opts != [] {
      var o := opts[0];
      assert o in s.opts;
      assert Format.Limit(10) == 10 * 10 * 10 * 10 * 10 * 10 * 10 * 10 * Format.Limit(2);
      Format.DecimalLength(o.value, 10);
      HonestFits(s, opts[1..]);
    }
  }

  /** An honest server's acknowledgement, as bytes, is read as the options it stands for, unless it is
      too long; it is not unless it repeats its options dozens of times. */
  lemma HonestOackRead(s: Server, behind: string, packetsize: int, filemax: int)
    requires Honest(s)
    ensures AllEncodable(s.opts) && (|s.opts| <= 75 ==> |Encode(s.opts)| <= MAX_PACKET)
    ensures OptionBytes(Encode(s.opts) + behind, |Encode(s.opts)|, packetsize, filemax) ==
      if |Encode(s.opts)| <= MAX_PACKET then ReadOptions(s.opts, packetsize, filemax)
      else Parsed(packetsize, filemax, false)
  {
    HonestFits(s, s.opts);
    OptionsReadBack(s.opts, behind, packetsize, filemax);
  }
}
