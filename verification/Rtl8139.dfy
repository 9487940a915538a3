/** The receive side of the RTL8139 driver: the chip stores packets behind a header word in a byte
    ring, rtl_poll takes them out. The ring is shown to be a queue of packets. */
module Rtl8139 {
  import opened Basics
  import opened RingMemory

  const RX_BUF_LEN := 8192

  /** A packet as the chip received it: its status bits and its bytes, frame check sequence
      included. */
  datatype Packet = Packet(status: nat, bytes: seq<byte>)

  predicate Fits(p: Packet) {
    p.status < HALFWORD && |p.bytes| < HALFWORD
  }

  /** No error bit (RxBadSymbol, RxRunt, RxTooLong, RxCRCErr, RxBadAlign) and a size rtl_poll accepts. */
  predicate Good(p: Packet) {
    p.status / 2 % 32 == 0 && ETH_ZLEN <= |p.bytes| <= ETH_FRAME_LEN + 4
  }

  /** Bit k of a word. */
  predicate Bit(word: nat, k: nat) {
    if k == 0 then word % 2 == 1 else Bit(word / 2, k - 1)
  }

  lemma Halved(t: nat, m: nat)
    requires m == 2 || m == 4 || m == 8 || m == 16
    ensures t % (2 * m) == 0 <==> t % 2 == 0 && t / 2 % m == 0
  {
    var h, b := t / 2, t % 2;
    var q, r := h / m, h % m;
    assert h == m * q + r;
    assert t == (2 * m) * q + (2 * r + b);
    RemainderIs(t, 2 * m, q, 2 * r + b);
  }

  /** That is a frame of 60 to 1518 bytes whose status has none of the bits RxBadAlign, RxCRCErr, RxTooLong,
      RxRunt and RxBadSymbol, number 1 to 5. */
  lemma GoodFrames(p: Packet)
    ensures Good(p) <==> (forall k :: 1 <= k <= 5 ==> !Bit(p.status, k)) && 60 <= |p.bytes| <= 1518
  {
    FirstBits(p.status);
    assert (forall k :: 1 <= k <= 5 ==> !Bit(p.status, k)) <==>
      (!Bit(p.status, 1) && !Bit(p.status, 2) && !Bit(p.status, 3) && !Bit(p.status, 4) && !Bit(p.status, 5));
    hide Bit;
  }

  lemma FirstBits(s: nat)
    ensures s / 2 % 32 == 0 <==> !Bit(s, 1) && !Bit(s, 2) && !Bit(s, 3) && !Bit(s, 4) && !Bit(s, 5)
  {
    var t1 := s / 2;
    var t2 := t1 / 2;
    var t3 := t2 / 2;
    var t4 := t3 / 2;
    var t5 := t4 / 2;
    Halved(t1, 16);
    Halved(t2, 8);
    Halved(t3, 4);
    Halved(t4, 2);
    assert Bit(s, 1) == Bit(t1, 0) == (t1 % 2 == 1);
    assert Bit(s, 2) == Bit(t1, 1) == Bit(t2, 0) == (t2 % 2 == 1);
    assert Bit(s, 3) == Bit(t1, 2) == Bit(t2, 1) == Bit(t3, 0) == (t3 % 2 == 1);
    assert Bit(s, 4) == Bit(t1, 3) == Bit(t2, 2) == Bit(t3, 1) == Bit(t4, 0) == (t4 % 2 == 1);
    assert Bit(s, 5) == Bit(t1, 4) == Bit(t2, 3) == Bit(t3, 2) == Bit(t4, 1) == Bit(t5, 0) == (t5 % 2 == 1);
  }

  function Header(p: Packet): seq<byte>
    requires Fits(p)
  {
    [p.status % 256, p.status / 256, |p.bytes| % 256, |p.bytes| / 256]
  }

  /** Ring bytes a packet takes: header and bytes, rounded up to a multiple of four. */
  function Span(p: Packet): nat {
    (4 + |p.bytes| + 3) / 4 * 4
  }

  /** From byte number at to its end, stream s is the packets of q one behind the other. */
  ghost predicate Parsed(s: seq<byte>, at: nat, q: seq<Packet>)
    decreases |q|
  {
    if q == [] then at == |s|
    else
      && Fits(q[0]) && at + Span(q[0]) <= |s|
      && s[at..at + 4 + |q[0].bytes|] == Header(q[0]) + q[0].bytes
      && Parsed(s, at + Span(q[0]), q[1..])
  }

  lemma {:induction false} ParsedSnoc(s: seq<byte>, at: nat, q: seq<Packet>, t: seq<byte>, p: Packet)
    requires Parsed(s, at, q) && Fits(p)
    requires |t| == Span(p) && t[..4 + |p.bytes|] == Header(p) + p.bytes
    ensures Parsed(s + t, at, q + [p])
    decreases |q|
  {
    if q == [] {
      ParsedFirst(s, t, p);
      assert [] + [p] == [p];
    } else {
      hide Header, Span, Fits;
      ParsedLength(s, at + Span(q[0]), q[1..]);
      ParsedSnoc(s, at + Span(q[0]), q[1..], t, p);
      SliceOfLeft(s, t, at, at + 4 + |q[0].bytes|);
      ParsedCons(s + t, at, q[0], q[1..] + [p]);
      assert [q[0]] + (q[1..] + [p]) == q + [p];
    }
  }

  lemma ParsedFirst(s: seq<byte>, t: seq<byte>, p: Packet)
    requires Fits(p) && |t| == Span(p) && t[..4 + |p.bytes|] == Header(p) + p.bytes
    ensures Parsed(s + t, |s|, [p])
  {
    SliceOfRight(s, t, 4 + |p.bytes|);
    assert [p][1..] == [];
    hide Header, Fits;
  }

  lemma ParsedCons(s: seq<byte>, at: nat, p: Packet, q: seq<Packet>)
    requires Fits(p) && at + Span(p) <= |s| && s[at..at + 4 + |p.bytes|] == Header(p) + p.bytes
    requires Parsed(s, at + Span(p), q)
    ensures Parsed(s, at, [p] + q)
  {
    assert ([p] + q)[1..] == q;
    hide Header, Span, Fits;
  }

  lemma {:induction false} ParsedLength(s: seq<byte>, at: nat, q: seq<Packet>)
    requires Parsed(s, at, q)
    ensures at <= |s| && (at == |s| <==> q == [])
    decreases |q|
  {
    if q != [] { ParsedLength(s, at + Span(q[0]), q[1..]); }
  }

  lemma Regroup(n: nat, k: nat, q: nat, r: nat)
    ensures n * k * q + n * r == n * (k * q + r)
  {
  }

  /** Reducing modulo a multiple of n first does not change the remainder modulo n. */
  lemma ModMod(x: nat, n: nat, k: nat)
    requires n > 0 && k > 0 && n * k > 0
    ensures x % (n * k) % n == Cell(x, n)
  {
    var m := n * k;
    var q, r := x / m, x % m;
    var r1, r2 := r / n, r % n;
    assert x == m * q + r && r == n * r1 + r2;
    Regroup(n, k, q, r1);
    CellOf(n, k * q + r1, r2);
  }

  /** The offset in the ring does not notice that cur_rx wraps at 32 bits and RxBufPtr at 16. */
  lemma OffsetIgnoresWrap(x: nat)
    ensures x % WORD % RX_BUF_LEN == Cell(x, RX_BUF_LEN)
    ensures x % HALFWORD % RX_BUF_LEN == Cell(x, RX_BUF_LEN)
  {
    ModMod(x, RX_BUF_LEN, WORD / RX_BUF_LEN);
    ModMod(x, RX_BUF_LEN, HALFWORD / RX_BUF_LEN);
  }

  lemma RoundDown(y: nat)
    ensures y % WORD / 4 * 4 == y / 4 * 4 % WORD
  {
    var k, v := y / WORD, y % WORD;
    assert y == WORD * k + v;
    assert y / 4 == 0x4000_0000 * k + v / 4;
  }

  /** Adding to a word reduced modulo 2^32 is adding to the number, modulo 2^32. */
  lemma AddToWord(x: nat, d: nat)
    ensures (x % WORD + d) % WORD == (x + d) % WORD
  {
    var k := x / WORD;
    assert x + d == WORD * k + (x % WORD + d);
  }

  lemma RoundUp(rd: nat, size: nat)
    requires rd % 4 == 0
    ensures (rd + size + 7) / 4 * 4 == rd + (4 + size + 3) / 4 * 4
    ensures (rd + (4 + size + 3) / 4 * 4) % 4 == 0
  {
    var k := rd / 4;
    assert rd == 4 * k;
  }

  /** (cur_rx + rx_size + 4 + 3) & ~3 in 32 bits is the start of the next packet. */
  lemma NextStart(rd: nat, size: nat)
    requires rd % 4 == 0
    ensures (rd % WORD + size + 4 + 3) % WORD / 4 * 4 == (rd + (4 + size + 3) / 4 * 4) % WORD
    ensures (rd + (4 + size + 3) / 4 * 4) % 4 == 0
  {
    RoundUp(rd, size);
    AddToWord(rd, size + 7);
    RoundDown(rd + size + 7);
  }

  /** The chip adds 16 again to what the driver wrote to RxBufPtr. */
  lemma BackSixteen(x: nat)
    ensures ((x - 16) % HALFWORD + 16) % RX_BUF_LEN == x % RX_BUF_LEN
  {
    var k := (x - 16) / HALFWORD;
    assert (x - 16) % HALFWORD + 16 == x + RX_BUF_LEN * (-8 * k);
    Turns(x, -8 * k);
  }

  lemma Turns(x: int, k: int)
    ensures (x + RX_BUF_LEN * k) % RX_BUF_LEN == x % RX_BUF_LEN
  {
    var n := RX_BUF_LEN;
    var y := x + n * k;
    var d := y / n - x / n - k;
    assert y == n * (y / n) + y % n && x == n * (x / n) + x % n;
    assert n * d == x % n - y % n;
  }

  /** Packet p is the next thing in the stream, and the ring holds it. */
  ghost predicate Ahead(mem: seq<byte>, s: seq<byte>, rd: nat, p: Packet) {
    && RX_BUF_LEN <= |mem| && Holds(mem, 0, RX_BUF_LEN, s, rd) && rd % 4 == 0
    && Fits(p) && rd + 4 + |p.bytes| <= |s| < rd + RX_BUF_LEN
    && s[rd..rd + 4 + |p.bytes|] == Header(p) + p.bytes
  }

  lemma Aligned(rd: nat)
    requires rd % 4 == 0
    ensures rd % RX_BUF_LEN % 4 == 0 && rd % RX_BUF_LEN + 4 <= RX_BUF_LEN
  {
    var k, q := rd / 4, rd / RX_BUF_LEN;
    assert rd % RX_BUF_LEN == 4 * (k - RX_BUF_LEN / 4 * q);
  }

  lemma HeaderBytes(mem: seq<byte>, s: seq<byte>, rd: nat, p: Packet)
    requires Ahead(mem, s, rd, p)
    ensures var o := Cell(rd, RX_BUF_LEN); o + 4 <= RX_BUF_LEN && mem[o..o + 4] == Header(p)
  {
    Aligned(rd);
    Contiguous(mem, 0, RX_BUF_LEN, s, rd, rd, 4);
    hide Holds, Cell, Header;
    SlicesOfPacket(s, rd, Header(p), p.bytes, 0, 0);
  }

  /** The header never splits. */
  lemma HeaderInRing(mem: seq<byte>, s: seq<byte>, rd: nat, p: Packet)
    requires Ahead(mem, s, rd, p)
    ensures var o := Cell(rd, RX_BUF_LEN);
      && o + 4 <= RX_BUF_LEN
      && Little(mem[o], mem[o + 1]) == p.status && Little(mem[o + 2], mem[o + 3]) == |p.bytes|
  {
    HeaderBytes(mem, s, rd, p);
    hide Holds, Cell;
    var o := Cell(rd, RX_BUF_LEN);
    var h := mem[o..o + 4];
    assert mem[o] == h[0] && mem[o + 1] == h[1] && mem[o + 2] == h[2] && mem[o + 3] == h[3];
  }

  lemma FrameInStream(s: seq<byte>, rd: nat, p: Packet, k: nat, n: nat)
    requires Fits(p) && rd + 4 + |p.bytes| <= |s| && k <= n <= |p.bytes|
    requires s[rd..rd + 4 + |p.bytes|] == Header(p) + p.bytes
    ensures s[rd + 4..rd + 4 + n] == p.bytes[..n]
    ensures s[rd + 4..rd + 4 + k] == p.bytes[..k] && s[rd + 4 + k..rd + 4 + n] == p.bytes[k..n]
  {
    SlicesOfPacket(s, rd, Header(p), p.bytes, k, n);
  }

  /** The frame is in one piece, or its second part is at the start of the ring; the first part is
      never of negative length. */
  lemma FrameInRing(mem: seq<byte>, s: seq<byte>, rd: nat, p: Packet)
    requires Ahead(mem, s, rd, p) && |p.bytes| >= 4
    ensures var o, n := Cell(rd, RX_BUF_LEN), |p.bytes| - 4;
      && o + 4 <= RX_BUF_LEN
      && if o + 4 + n <= RX_BUF_LEN then mem[o + 4..o + 4 + n] == p.bytes[..n]
         else var k := RX_BUF_LEN - o - 4;
              k <= n <= RX_BUF_LEN && mem[o + 4..RX_BUF_LEN] == p.bytes[..k] && mem[..n - k] == p.bytes[k..n]
  {
    hide Holds, Fits, Header, Cell;
    HeaderInRing(mem, s, rd, p);
    CellStep(rd, 4, RX_BUF_LEN);
    if Cell(rd, RX_BUF_LEN) + 4 == RX_BUF_LEN {
      FrameAtStart(mem, s, rd, p);
    } else {
      FrameBehindHeader(mem, s, rd, p);
    }
  }

  /** The header ends the ring: all of the frame is at its start. */
  lemma FrameAtStart(mem: seq<byte>, s: seq<byte>, rd: nat, p: Packet)
    requires Ahead(mem, s, rd, p) && |p.bytes| >= 4
    requires Cell(rd, RX_BUF_LEN) + 4 == RX_BUF_LEN && Cell(rd + 4, RX_BUF_LEN) == 0
    ensures var n := |p.bytes| - 4; n <= RX_BUF_LEN && mem[..n] == p.bytes[..n]
  {
    hide Holds, Fits, Header, Cell;
    var n := |p.bytes| - 4;
    FrameInStream(s, rd, p, n, n);
    Contiguous(mem, 0, RX_BUF_LEN, s, rd, rd + 4, n);
  }

  lemma FrameBehindHeader(mem: seq<byte>, s: seq<byte>, rd: nat, p: Packet)
    requires Ahead(mem, s, rd, p) && |p.bytes| >= 4
    requires var o := Cell(rd, RX_BUF_LEN); o + 4 < RX_BUF_LEN && Cell(rd + 4, RX_BUF_LEN) == o + 4
    ensures var o, n := Cell(rd, RX_BUF_LEN) + 4, |p.bytes| - 4;
      var k := RX_BUF_LEN - o;
      if n <= k then mem[o..o + n] == p.bytes[..n]
      else n <= RX_BUF_LEN && mem[o..RX_BUF_LEN] == p.bytes[..k] && mem[..n - k] == p.bytes[k..n]
  {
    hide Holds, Fits, Header, Cell;
    var n, k := |p.bytes| - 4, RX_BUF_LEN - Cell(rd, RX_BUF_LEN) - 4;
    FrameInStream(s, rd, p, if n <= k then n else k, n);
    RunInRing(mem, 0, RX_BUF_LEN, s, rd, rd + 4, n);
  }

  /** What a poll loses: everything pending, if the oldest packet is not good. */
  function Doomed(pending: seq<Packet>): seq<Packet> {
    if pending != [] && !Good(pending[0]) then pending else []
  }

  class Nic {
    const rxRing: array<byte>
    const packet: array<byte>
    var packetlen: nat
    var curRx: nat

    // the chip
    var rxBufPtr: nat     // how far the driver says it has read, less 16
    var writePtr: nat     // where the next packet goes

    ghost var stream: seq<byte>     // every ring byte since the last reset
    ghost var rd: nat               // stream bytes taken by the driver
    ghost var pending: seq<Packet>  // stored, not yet taken or lost
    ghost var stored: seq<Packet>   // every packet ever stored
    ghost var taken: seq<Packet>    // those that were delivered
    ghost var lost: seq<Packet>     // those that a reset threw away
    ghost var fate: seq<bool>       // for each packet no longer pending, whether it was delivered

    /** The packets ever stored are, in this order, those delivered or lost and those pending; both
        the delivered and the lost ones are in the order in which they were stored. */
    ghost predicate Accounted()
      reads this
    {
      && |fate| + |pending| == |stored| && pending == stored[|fate|..]
      && taken == Pick(stored[..|fate|], fate, true) && lost == Pick(stored[..|fate|], fate, false)
    }

    ghost predicate Valid()
      reads this, rxRing
    {
      && rxRing.Length == RX_BUF_LEN + 16 && packet.Length == ETH_FRAME_LEN && packet != rxRing
      && rd <= |stream| < rd + RX_BUF_LEN && rd % 4 == 0
      && Holds(rxRing[..], 0, RX_BUF_LEN, stream, rd)
      && Parsed(stream, rd, pending)
      && Accounted()
      && curRx == rd % WORD
      && rxBufPtr == (curRx - 16) % HALFWORD
      && writePtr == Cell(|stream|, RX_BUF_LEN)
    }

    /** The driver's buffers at power-on. */
    constructor ()
      ensures Valid() && pending == taken == lost == stored == [] && packetlen == 0
      ensures fresh(rxRing) && fresh(packet)
    {
      rxRing, packet := new byte[RX_BUF_LEN + 16], new byte[ETH_FRAME_LEN];
      packetlen, curRx, writePtr, rxBufPtr := 0, 0, 0, HALFWORD - 16;
      stream, rd, pending, taken, lost, stored, fate := [], 0, [], [], [], [], [];
    }

    /** The first packets pending are delivered, or lost. */
    lemma Settled(n: nat, delivered: bool)
      requires Accounted() && n <= |pending|
      ensures var fate' := fate + seq(n, _ => delivered);
        && |fate'| <= |stored| && pending[n..] == stored[|fate'|..]
        && Pick(stored[..|fate'|], fate', delivered)
           == Pick(stored[..|fate|], fate, delivered) + pending[..n]
        && Pick(stored[..|fate'|], fate', !delivered) == Pick(stored[..|fate|], fate, !delivered)
    {
      var q := pending[..n];
      assert stored[..|fate| + n] == stored[..|fate|] + q;
      PickAll(q, delivered);
      PickSplit(stored[..|fate|], q, fate, seq(n, _ => delivered), delivered);
      PickSplit(stored[..|fate|], q, fate, seq(n, _ => delivered), !delivered);
    }

    /** No packet is lost or delivered twice. */
    lemma Conserved()
      requires Accounted()
      ensures multiset(taken) + multiset(lost) + multiset(pending) == multiset(stored)
    {
      PickIsPermutation(stored[..|fate|], fate);
      hide Pick;
      assert stored == stored[..|fate|] + pending;
    }

    /** Everything pending is lost. */
    ghost method Lose()
      requires Accounted()
      modifies this`pending, this`lost, this`fate
      ensures Accounted() && pending == [] && lost == old(lost) + old(pending)
    {
      Settled(|pending|, false);
      hide Pick;
      assert pending[..|pending|] == pending;
      lost, fate, pending := lost + pending, fate + seq(|pending|, _ => false), [];
    }

    /** The oldest packet is delivered. */
    ghost method Deliver()
      requires Accounted() && pending != []
      modifies this`pending, this`taken, this`fate
      ensures Accounted() && pending == old(pending)[1..] && taken == old(taken) + [old(pending)[0]]
    {
      Settled(1, true);
      hide Pick;
      assert pending[..1] == [pending[0]];
      taken, fate, pending := taken + [pending[0]], fate + seq(1, _ => true), pending[1..];
    }

    /** The RxBufEmpty bit of the chip's command register. */
    predicate RxBufEmpty()
      reads this
    {
      (rxBufPtr + 16) % RX_BUF_LEN == writePtr
    }

    /** The chip compares the pointers modulo the ring size. */
    lemma ReadPointer()
      requires Valid()
      ensures (rxBufPtr + 16) % RX_BUF_LEN == Cell(rd, RX_BUF_LEN)
    {
      OffsetIgnoresWrap(rd);
      BackSixteen(curRx);
    }

    lemma EmptyIffNothingPending()
      requires Valid()
      ensures RxBufEmpty() <==> pending == []
    {
      ReadPointer();
      hide Holds, Parsed, Cell;
      ParsedLength(stream, rd, pending);
      CellStep(rd, |stream| - rd, RX_BUF_LEN);
    }

    /** rtl_reset, as far as the ring is concerned: both sides start again at the beginning, and what
        was pending is lost. */
    method RtlReset()
      requires rxRing.Length == RX_BUF_LEN + 16 && packet.Length == ETH_FRAME_LEN && packet != rxRing && Accounted()
      modifies this
      ensures Valid() && pending == [] && packetlen == old(packetlen)
      ensures lost == old(lost) + old(pending) && taken == old(taken) && stored == old(stored)
    {
      hide Pick;
      Lose();
      curRx := 0;
      rxBufPtr := (curRx - 16) % HALFWORD;
      writePtr := 0;
      stream, rd := [], 0;
    }

    /** The chip appends one byte at its write pointer. */
    method PutByte(b: byte)
      requires rxRing.Length == RX_BUF_LEN + 16 && writePtr == Cell(|stream|, RX_BUF_LEN)
      requires rd <= |stream| < rd + RX_BUF_LEN && Holds(rxRing[..], 0, RX_BUF_LEN, stream, rd)
      modifies this`writePtr, this`stream, rxRing
      ensures stream == old(stream) + [b] && writePtr == Cell(|stream|, RX_BUF_LEN)
      ensures Holds(rxRing[..], 0, RX_BUF_LEN, stream, rd)
    {
      AppendKeeps(rxRing[..], 0, RX_BUF_LEN, stream, rd, b);
      CellStep(|stream|, 1, RX_BUF_LEN);
      rxRing[writePtr] := b;
      writePtr := if writePtr + 1 == RX_BUF_LEN then 0 else writePtr + 1;
      stream := stream + [b];
    }

    method PutBytes(t: seq<byte>)
      requires rxRing.Length == RX_BUF_LEN + 16 && writePtr == Cell(|stream|, RX_BUF_LEN)
      requires rd <= |stream| && |stream| + |t| < rd + RX_BUF_LEN
      requires Holds(rxRing[..], 0, RX_BUF_LEN, stream, rd)
      modifies this`writePtr, this`stream, rxRing
      ensures stream == old(stream) + t && writePtr == Cell(|stream|, RX_BUF_LEN)
      ensures Holds(rxRing[..], 0, RX_BUF_LEN, stream, rd)
    {
      hide Holds, Cell;
      for i := 0 to |t|
        invariant stream == old(stream) + t[..i] && writePtr == Cell(|stream|, RX_BUF_LEN)
        invariant Holds(rxRing[..], 0, RX_BUF_LEN, stream, rd)
      {
        PutByte(t[i]);
        assert t[..i + 1] == t[..i] + [t[i]];
      }
      assert t[..|t|] == t;
    }

    /** The chip stores a packet that fits behind those not yet taken: its header, its bytes, and
        whatever padding. */
    method Receive(p: Packet, padding: seq<byte>)
      requires Valid() && Fits(p) && |stream| + Span(p) < rd + RX_BUF_LEN
      requires |padding| == Span(p) - 4 - |p.bytes|
      modifies this`writePtr, this`stream, this`pending, this`stored, rxRing
      ensures Valid() && pending == old(pending) + [p] && stored == old(stored) + [p]
      ensures |stream| == old(|stream|) + Span(p)
    {
      ghost var before := stream;
      var t := Header(p) + p.bytes + padding;
      PutBytes(t);
      ParsedSnoc(before, rd, pending, t, p);
      hide Holds, Parsed, Pick, Header;
      assert (stored + [p])[..|fate|] == stored[..|fate|] && (stored + [p])[|fate|..] == pending + [p];
      pending, stored := pending + [p], stored + [p];
    }

    /** The header word at cur_rx. */
    method ReadHeader() returns (rxStatus: nat, rxSize: nat)
      requires Valid() && pending != []
      ensures rxStatus == pending[0].status && rxSize == |pending[0].bytes|
    {
      var ringOffs := curRx % RX_BUF_LEN;
      OffsetIgnoresWrap(rd);
      ParsedLength(stream, rd + Span(pending[0]), pending[1..]);
      HeaderInRing(rxRing[..], stream, rd, pending[0]);
      rxStatus := Little(rxRing[ringOffs], rxRing[ringOffs + 1]);
      rxSize := Little(rxRing[ringOffs + 2], rxRing[ringOffs + 3]);
    }

    /** Copy the frame, in one or two parts. */
    method CopyFrame(ringOffs: nat, rxSize: nat)
      requires Valid() && pending != [] && ringOffs == curRx % RX_BUF_LEN
      requires rxSize == |pending[0].bytes| && 4 <= rxSize <= ETH_FRAME_LEN + 4
      modifies packet
      ensures packet[..rxSize - 4] == pending[0].bytes[..rxSize - 4]
    {
      OffsetIgnoresWrap(rd);
      FrameInRing(rxRing[..], stream, rd, pending[0]);
      hide *;
      ghost var frame := pending[0].bytes[..rxSize - 4];
      if ringOffs + 4 + rxSize - 4 > RX_BUF_LEN {
        var semiCount := RX_BUF_LEN - ringOffs - 4;
        Halves(pending[0].bytes, semiCount, rxSize - 4);
        CopyInTwo(packet, rxRing, ringOffs + 4, semiCount, frame, rxSize - 4);
      } else {
        CopyInOne(packet, rxRing, ringOffs + 4, frame, rxSize - 4);
      }
    }

    /** Step cur_rx past the oldest packet and tell the chip. */
    method Release(rxSize: nat)
      requires Valid() && pending != [] && rxSize == |pending[0].bytes|
      modifies this`curRx, this`rxBufPtr, this`rd, this`pending, this`taken, this`fate
      ensures Valid() && pending == old(pending)[1..] && taken == old(taken) + [old(pending[0])]
    {
      NextStart(rd, rxSize);
      ParsedLength(stream, rd + Span(pending[0]), pending[1..]);
      curRx := (curRx + rxSize + 4 + 3) % WORD / 4 * 4;
      rxBufPtr := (curRx - 16) % HALFWORD;
      AdvanceKeeps(rxRing[..], 0, RX_BUF_LEN, stream, rd, rd + Span(pending[0]));
      hide Nic.Accounted;
      rd := rd + Span(pending[0]);
      Deliver();
    }

    /** Take the oldest packet. A packet with an error bit or a size out of range resets the ring, and
        takes everything stored behind it along. */
    method RtlPoll() returns (received: bool)
      requires Valid()
      modifies this, packet
      ensures Valid()
      ensures received <==> old(pending) != [] && Good(old(pending[0]))
      ensures received ==>
        var frame := old(pending[0].bytes)[..|old(pending[0].bytes)| - 4];
        && packetlen == |frame| && packet[..packetlen] == frame
        && pending == old(pending)[1..] && taken == old(taken) + [old(pending[0])]
      ensures !received ==> packetlen == old(packetlen) && packet[..] == old(packet[..])
      ensures !received ==> pending == [] && taken == old(taken)
      ensures lost == old(lost) + Doomed(old(pending)) && stored == old(stored)
    {
      EmptyIffNothingPending();
      if RxBufEmpty() { return false; }
      var ringOffs := curRx % RX_BUF_LEN;
      var rxStatus, rxSize := ReadHeader();
      if rxStatus / 2 % 32 != 0 || rxSize < ETH_ZLEN || rxSize > ETH_FRAME_LEN + 4 {
        RtlReset();
        return false;
      }
      packetlen := rxSize - 4;
      CopyFrame(ringOffs, rxSize);
      Release(rxSize);
      return true;
    }
  }

  const BAD := Packet(2, seq(64, i => 0))     // a frame alignment error
  const GOOD := Packet(1, seq(64, i => 0))

  method StoreBoth() returns (nic: Nic)
    ensures fresh(nic) && fresh(nic.packet) && nic.Valid()
    ensures nic.pending == nic.stored == [BAD, GOOD] && nic.taken == nic.lost == []
  {
    assert Span(BAD) == Span(GOOD) == 68;
    nic := new Nic();
    hide Parsed, Holds, Span, Nic.Accounted;
    nic.Receive(BAD, []);
    nic.Receive(GOOD, []);
  }

  /** A good packet behind one with an error is lost with it. */
  method ErrorLosesGood() returns (first: bool, second: bool, nic: Nic)
    ensures !first && !second
    ensures Good(GOOD) && nic.stored == nic.lost == [BAD, GOOD] && nic.pending == nic.taken == []
  {
    assert !Good(BAD) && Good(GOOD);
    nic := StoreBoth();
    hide Good, Parsed, Holds, Nic.Accounted;
    first := nic.RtlPoll();
    second := nic.RtlPoll();
  }
}
