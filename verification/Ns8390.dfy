/** The receive side of the NS8390 driver: the chip stores packets in a ring of 256-byte pages, each
    behind a header naming the page of the next one; ns8390_poll takes them out. */
module Ns8390 {
  import opened Basics
  import opened RingMemory

  /** A packet as the chip received it: receive status and bytes, frame check sequence included. */
  datatype Packet = Packet(status: byte, bytes: seq<byte>)

  predicate Good(p: Packet) {
    p.status % 2 == 1 && ETH_ZLEN <= |p.bytes| - 4 <= ETH_FRAME_LEN
  }

  /** That is an Ethernet frame of 64 to 1518 bytes, check sequence included, received intact. */
  lemma GoodFrames(p: Packet)
    ensures Good(p) <==> p.status % 2 != 0 && 64 <= |p.bytes| <= 1518
  {
  }

  /** Pages (of 256 bytes, D8390_PAGE_SIZE) a packet takes, with its 4-byte header. */
  function Pages(p: Packet): (n: nat)
    ensures n > 0 && 4 + |p.bytes| <= n * 256 < 4 + |p.bytes| + 256
  {
    (4 + |p.bytes| + 256 - 1) / 256
  }

  lemma Regroup(k: nat, n: nat, q: nat, r: nat)
    requires k == n * q + r
    ensures k * 256 == (n * 256) * q + r * 256
  {
    assert (n * 256) * q == 256 * (n * q);
  }

  lemma CellIs(x: nat, size: nat, q: nat, r: nat)
    requires r < size && x == size * q + r
    ensures Cell(x, size) == r
  {
    CellOf(size, q, r);
  }

  lemma CellInPages(k: nat, n: nat, q: nat, r: nat)
    requires r < n && k == n * q + r
    ensures Cell(k * 256, n * 256) == r * 256
  {
    hide Cell;
    Regroup(k, n, q, r);
    CellIs(k * 256, n * 256, q, r * 256);
  }

  lemma CellPages(k: nat, n: nat)
    requires n > 0
    ensures Cell(k * 256, n * 256) == Cell(k, n) * 256
  {
    CellInPages(k, n, k / n, k % n);
  }

  /** The ring: pages rxStart up to memsize. */
  datatype Ring = Ring(rxStart: nat, memsize: nat) {
    ghost predicate Ok() {
      rxStart < memsize <= 255
    }

    function Count(): (n: nat)
      requires Ok()
      ensures n > 0
    {
      memsize - rxStart
    }

    /** The page where page number k of the endless stream lies. */
    function Page(k: nat): (p: nat)
      requires Ok()
      ensures rxStart <= p < memsize
    {
      rxStart + Cell(k, Count())
    }

    /** What the boundary register holds when page k is the next one to read. */
    function Before(k: nat): (p: nat)
      requires Ok()
    {
      (if Page(k) == rxStart then memsize else Page(k)) - 1
    }

    function Header(p: Packet, next: nat): seq<byte>
      requires Ok() && |p.bytes| < HALFWORD
    {
      [p.status, Page(next), |p.bytes| % 256, |p.bytes| / 256]
    }

    /** From page number k to its end, stream s is the packets of q. */
    ghost predicate Parsed(s: seq<byte>, k: nat, q: seq<Packet>)
      requires Ok()
      decreases |q|
    {
      if q == [] then k * 256 == |s|
      else
        var next := k + Pages(q[0]);
        && |q[0].bytes| < HALFWORD && next * 256 <= |s|
        && s[k * 256..k * 256 + 4 + |q[0].bytes|] == Header(q[0], next) + q[0].bytes
        && Parsed(s, next, q[1..])
    }

    lemma {:induction false} ParsedSnoc(s: seq<byte>, k: nat, q: seq<Packet>, t: seq<byte>, p: Packet, end: nat)
      requires Ok() && Parsed(s, k, q) && |p.bytes| < HALFWORD && |s| == end * 256
      requires |t| == Pages(p) * 256 && t[..4 + |p.bytes|] == Header(p, end + Pages(p)) + p.bytes
      ensures Parsed(s + t, k, q + [p])
      decreases |q|
    {
      if q == [] {
        ParsedFirst(s, k, t, p);
      } else {
        hide Header, Pages;
        var next := k + Pages(q[0]);
        ParsedLength(s, next, q[1..]);
        ParsedSnoc(s, next, q[1..], t, p, end);
        SliceOfLeft(s, t, k * 256, k * 256 + 4 + |q[0].bytes|);
        ParsedCons(s + t, k, q[0], q[1..] + [p]);
        assert [q[0]] + (q[1..] + [p]) == q + [p];
      }
    }

    lemma ParsedFirst(s: seq<byte>, k: nat, t: seq<byte>, p: Packet)
      requires Ok() && |p.bytes| < HALFWORD && |s| == k * 256
      requires |t| == Pages(p) * 256 && t[..4 + |p.bytes|] == Header(p, k + Pages(p)) + p.bytes
      ensures Parsed(s + t, k, [] + [p])
    {
      SliceOfRight(s, t, 4 + |p.bytes|);
      ParsedNone(s + t, k + Pages(p));
      ParsedCons(s + t, k, p, []);
      assert [p] + [] == [] + [p];
      hide Header, Pages;
    }

    lemma ParsedNone(s: seq<byte>, k: nat)
      requires Ok() && k * 256 == |s|
      ensures Parsed(s, k, [])
    {
    }

    lemma ParsedCons(s: seq<byte>, k: nat, p: Packet, q: seq<Packet>)
      requires Ok() && |p.bytes| < HALFWORD && (k + Pages(p)) * 256 <= |s|
      requires s[k * 256..k * 256 + 4 + |p.bytes|] == Header(p, k + Pages(p)) + p.bytes
      requires Parsed(s, k + Pages(p), q)
      ensures Parsed(s, k, [p] + q)
    {
      assert ([p] + q)[1..] == q;
      hide Header, Pages;
    }

    lemma {:induction false} ParsedLength(s: seq<byte>, k: nat, q: seq<Packet>)
      requires Ok() && Parsed(s, k, q)
      ensures k * 256 <= |s| && (k * 256 == |s| <==> q == [])
      decreases |q|
    {
      if q != [] { ParsedLength(s, k + Pages(q[0]), q[1..]); }
    }

    /** Page boundaries in the stream are page boundaries in memory. */
    lemma PageStart(k: nat)
      requires Ok()
      ensures rxStart * 256 + Cell(k * 256, Count() * 256) == Page(k) * 256
    {
      hide Cell;
      CellPages(k, Count());
    }

    /** Pages less than a ring apart are different. */
    lemma SamePage(k: nat, j: nat)
      requires Ok() && k <= j < k + Count()
      ensures Page(k) == Page(j) <==> k == j
    {
      CellStep(k, j - k, Count());
    }
  }

  /** Packet p starts at page k of the stream, and the ring holds it. */
  ghost predicate Ahead(ring: Ring, mem: seq<byte>, s: seq<byte>, k: nat, p: Packet) {
    && ring.Ok() && |mem| == ring.memsize * 256
    && Holds(mem, ring.rxStart * 256, ring.Count() * 256, s, k * 256)
    && |p.bytes| < HALFWORD && k * 256 + 4 + |p.bytes| <= |s| < (k + ring.Count()) * 256
    && s[k * 256..k * 256 + 4 + |p.bytes|] == ring.Header(p, k + Pages(p)) + p.bytes
  }

  lemma HeaderInRing(ring: Ring, mem: seq<byte>, s: seq<byte>, k: nat, p: Packet)
    requires Ahead(ring, mem, s, k, p)
    ensures var o := ring.Page(k) * 256;
      o + 256 <= |mem| && mem[o..o + 4] == ring.Header(p, k + Pages(p))
  {
    ring.PageStart(k);
    SlicesOfPacket(s, k * 256, ring.Header(p, k + Pages(p)), p.bytes, 0, 0);
    Contiguous(mem, ring.rxStart * 256, ring.Count() * 256, s, k * 256, k * 256, 4);
  }

  /** The frame is in one piece, or goes on at the first page of the ring. */
  lemma FrameInRing(ring: Ring, mem: seq<byte>, s: seq<byte>, k: nat, p: Packet, n: nat)
    requires Ahead(ring, mem, s, k, p) && n <= |p.bytes|
    ensures var o := ring.Page(k) * 256 + 4;
      var frag := ring.memsize * 256 - o;
      && frag > 0
      && if n <= frag then mem[o..o + n] == p.bytes[..n]
         else && n < ring.Count() * 256
              && mem[o..o + frag] == p.bytes[..frag]
              && mem[ring.rxStart * 256..ring.rxStart * 256 + n - frag] == p.bytes[frag..n]
  {
    if n <= ring.memsize * 256 - (ring.Page(k) * 256 + 4) {
      FrameInOne(ring, mem, s, k, p, n);
    } else {
      FrameInTwo(ring, mem, s, k, p, n);
    }
  }

  /** Where the bytes behind the header of page k lie. */
  lemma BehindHeader(ring: Ring, k: nat)
    requires ring.Ok()
    ensures ring.rxStart * 256 + Cell(k * 256 + 4, ring.Count() * 256) == ring.Page(k) * 256 + 4 < ring.memsize * 256
  {
    ring.PageStart(k);
    hide Cell;
    CellStep(k * 256, 4, ring.Count() * 256);
  }

  lemma FrameInOne(ring: Ring, mem: seq<byte>, s: seq<byte>, k: nat, p: Packet, n: nat)
    requires Ahead(ring, mem, s, k, p) && n <= |p.bytes| && ring.Page(k) * 256 + 4 + n <= ring.memsize * 256
    ensures ring.Page(k) * 256 + 4 < ring.memsize * 256
    ensures var o := ring.Page(k) * 256 + 4; mem[o..o + n] == p.bytes[..n]
  {
    hide Holds, Cell, Ring.Header, Ring.Page, Pages;
    var at := k * 256;
    BehindHeader(ring, k);
    SlicesOfPacket(s, at, ring.Header(p, k + Pages(p)), p.bytes, n, n);
    Contiguous(mem, ring.rxStart * 256, ring.Count() * 256, s, at, at + 4, n);
  }

  lemma FrameInTwo(ring: Ring, mem: seq<byte>, s: seq<byte>, k: nat, p: Packet, n: nat)
    requires Ahead(ring, mem, s, k, p) && n <= |p.bytes| && ring.Page(k) * 256 + 4 + n > ring.memsize * 256
    ensures var o := ring.Page(k) * 256 + 4;
      var frag := ring.memsize * 256 - o;
      && frag > 0 && n < ring.Count() * 256
      && mem[o..o + frag] == p.bytes[..frag]
      && mem[ring.rxStart * 256..ring.rxStart * 256 + n - frag] == p.bytes[frag..n]
  {
    hide Holds, Cell, Ring.Header, Ring.Page, Pages;
    BehindHeader(ring, k);
    PacketWraps(mem, ring.rxStart * 256, ring.Count() * 256, s, k * 256, ring.Header(p, k + Pages(p)), p.bytes, n,
                ring.Page(k) * 256 + 4);
  }

  /** The arithmetic of rounding length bytes, read from page p of the pages lo to hi, up to words. */
  lemma Room(lo: nat, p: nat, hi: nat, length: nat)
    requires lo <= p < hi && length <= ETH_FRAME_LEN && 8 + length <= (hi - lo - 1) * 256
    ensures var frag := hi * 256 - (p * 256 + 4);
      && frag % 2 == 0 && (length + 1) / 2 * 2 <= ETH_FRAME_LEN
      && (length <= frag ==> (length + 1) / 2 * 2 <= frag)
      && (length > frag ==> frag + (length - frag + 1) / 2 * 2 <= ETH_FRAME_LEN
                            && lo * 256 + (length - frag + 1) / 2 * 2 <= hi * 256)
  {
  }

  class Nic {
    const ring: Ring
    const mem: array<byte>
    const packet: array<byte>
    const flag16bit: bool
    const flagPio: bool
    var packetlen: nat

    // the chip
    var bound: nat
    var curr: nat
    var rsr: byte

    ghost var stream: seq<byte>     // every ring byte since the reset
    ghost var head: nat             // pages taken by the driver
    ghost var tail: nat             // pages filled by the chip
    ghost var pending: seq<Packet>  // stored, not yet taken
    ghost var taken: seq<Packet>
    ghost var stored: seq<Packet>

    ghost predicate Shaped()
    {
      ring.Ok() && mem.Length == ring.memsize * 256 && packet.Length == ETH_FRAME_LEN && packet != mem
    }

    ghost predicate Valid()
      reads this, mem
    {
      && Shaped()
      && head <= tail < head + ring.Count() && |stream| == tail * 256
      && Holds(mem[..], ring.rxStart * 256, ring.Count() * 256, stream, head * 256)
      && ring.Parsed(stream, head, pending)
      && stored == taken + pending
      && curr == ring.Page(tail) && bound == ring.Before(head)
    }

    /** The ring registers as ns8390_reset sets them. */
    constructor (ring: Ring, flag16bit: bool, flagPio: bool, rsr: byte)
      requires ring.Ok()
      ensures Valid() && pending == taken == stored == [] && head == tail == 0
      ensures fresh(mem) && fresh(packet)
      ensures this.ring == ring && this.flag16bit == flag16bit && this.flagPio == flagPio
    {
      this.ring, this.flag16bit, this.flagPio, this.rsr := ring, flag16bit, flagPio, rsr;
      mem, packet := new byte[ring.memsize * 256], new byte[ETH_FRAME_LEN];
      packetlen := 0;
      bound, curr := ring.memsize - 1, ring.rxStart;
      stream, head, tail, pending, taken, stored := [], 0, 0, [], [], [];
    }

    /** The chip writes at CURR and on, wrapping from the last page to the first. */
    method Put(t: seq<byte>)
      requires Shaped() && |stream| == tail * 256 && curr == ring.Page(tail)
      requires head <= tail && |stream| + |t| < (head + ring.Count()) * 256
      requires Holds(mem[..], ring.rxStart * 256, ring.Count() * 256, stream, head * 256)
      modifies this`stream, mem
      ensures stream == old(stream) + t
      ensures Holds(mem[..], ring.rxStart * 256, ring.Count() * 256, stream, head * 256)
    {
      var lo, size := ring.rxStart * 256, ring.Count() * 256;
      ring.PageStart(tail);
      hide Holds, Cell;
      var at := curr * 256;
      for i := 0 to |t|
        invariant stream == old(stream) + t[..i] && at == lo + Cell(|stream|, size)
        invariant Holds(mem[..], lo, size, stream, head * 256)
      {
        AppendKeeps(mem[..], lo, size, stream, head * 256, t[i]);
        CellStep(|stream|, 1, size);
        mem[at] := t[i];
        stream := stream + [t[i]];
        at := if at + 1 == lo + size then lo else at + 1;
      }
      assert t[..|t|] == t;
    }

    /** The chip stores a packet at CURR, if that leaves it short of the boundary page. */
    method Receive(p: Packet, padding: seq<byte>)
      requires Valid() && |p.bytes| < HALFWORD && tail + Pages(p) < head + ring.Count()
      requires |padding| == Pages(p) * 256 - 4 - |p.bytes|
      modifies this`curr, this`rsr, this`stream, this`tail, this`pending, this`stored, mem
      ensures Valid() && pending == old(pending) + [p] && stored == old(stored) + [p]
      ensures tail == old(tail) + Pages(p) && rsr == p.status
    {
      hide Holds, Cell, Ring.Parsed;
      var next := curr + Pages(p) - if curr + Pages(p) < ring.memsize then 0 else ring.Count();
      CellStep(tail, Pages(p), ring.Count());
      var h := [p.status, next, |p.bytes| % 256, |p.bytes| / 256];
      var t := h + p.bytes + padding;
      SliceOfSum(h + p.bytes, padding, 0, 0);
      Put(t);
      ring.ParsedSnoc(old(stream), head, pending, t, p, tail);
      tail := tail + Pages(p);
      curr := next;
      rsr := p.status;
      pending, stored := pending + [p], stored + [p];
    }

    /** Pages from CURR on, as far as the page behind the boundary. */
    function Free(): int
      reads this
    {
      var next := if bound + 1 >= ring.memsize then ring.rxStart else bound + 1;
      next - curr + if next > curr then 0 else ring.memsize - ring.rxStart
    }

    lemma FreeIsRoom()
      requires Valid()
      ensures Free() == head + ring.Count() - tail
    {
      CellStep(head, tail - head, ring.Count());
      hide Holds, Cell, Ring.Parsed;
    }

    /** Bytes eth_pio_read transfers for a request of cnt. */
    function Rounded(cnt: nat): nat {
      if flag16bit then (cnt + 1) / 2 * 2 else cnt
    }

    /** The transfer loop of eth_pio_read on a 16-bit card: one word a turn. */
    method ReadWords(src: nat, dst: array<byte>, at: nat, words: nat)
      requires dst != mem && at + 2 * words <= dst.Length && src + 2 * words <= mem.Length
      modifies dst
      ensures dst[..] == Overwrite(old(dst[..]), at, mem[..][src..src + 2 * words])
    {
      ghost var was, r := dst[..], mem[..][src..src + 2 * words];
      OverwriteNothing(was, at, r);
      hide Overwrite;
      for w := 0 to words
        invariant dst[..] == Overwrite(was, at, r[..2 * w])
      {
        OverwriteOneMore(was, at, r, 2 * w);
        OverwriteOneMore(was, at, r, 2 * w + 1);
        var low, high := mem[src + 2 * w], mem[src + 2 * w + 1];
        assert low == r[2 * w] && high == r[2 * w + 1];
        dst[at + 2 * w] := low;
        dst[at + 2 * w + 1] := high;
      }
    }

    /** Read cnt bytes, rounded up to whole words on a 16-bit card. */
    method EthPioRead(src: nat, dst: array<byte>, at: nat, cnt: nat)
      requires dst != mem && at + Rounded(cnt) <= dst.Length && src + Rounded(cnt) <= mem.Length
      modifies dst
      ensures dst[..] == Overwrite(old(dst[..]), at, mem[..][src..src + Rounded(cnt)])
    {
      if flag16bit {
        ReadWords(src, dst, at, (cnt + 1) / 2);
      } else {
        CopyBytes(dst, at, mem, src, cnt);
      }
    }

    /** eth_pio_read or memcpy, as the card requires. */
    method Fetch(src: nat, dst: array<byte>, at: nat, cnt: nat) returns (ghost n: nat)
      requires dst != mem && at + Rounded(cnt) <= dst.Length && src + Rounded(cnt) <= mem.Length
      modifies dst
      ensures cnt <= n <= Rounded(cnt)
      ensures dst[..] == Overwrite(old(dst[..]), at, mem[..][src..src + n])
    {
      if flagPio {
        EthPioRead(src, dst, at, cnt);
        n := Rounded(cnt);
      } else {
        CopyBytes(dst, at, mem, src, cnt);
        n := cnt;
      }
    }

    lemma HeadAhead()
      requires Valid() && pending != []
      ensures Ahead(ring, mem[..], stream, head, pending[0]) && head + Pages(pending[0]) <= tail
    {
      hide Holds, Cell;
      ring.ParsedLength(stream, head + Pages(pending[0]), pending[1..]);
    }

    /** Rounding up to words overruns neither the packet buffer nor the ring. */
    lemma RoomFor(length: nat)
      requires Valid() && pending != [] && length == |pending[0].bytes| - 4 <= ETH_FRAME_LEN
      ensures var frag := ring.memsize * 256 - (ring.Page(head) * 256 + 4);
        && frag % 2 == 0 && Rounded(length) <= ETH_FRAME_LEN
        && (length <= frag ==> Rounded(length) <= frag)
        && (length > frag ==> frag + Rounded(length - frag) <= ETH_FRAME_LEN
                              && ring.rxStart * 256 + Rounded(length - frag) <= mem.Length)
    {
      hide Holds, Cell;
      ring.ParsedLength(stream, head + Pages(pending[0]), pending[1..]);
      assert 8 + length <= Pages(pending[0]) * 256 <= (ring.Count() - 1) * 256;
      Room(ring.rxStart, ring.Page(head), ring.memsize, length);
    }

    /** Copy length bytes that lie in one piece. */
    method CopyOnce(ghost b: seq<byte>, src: nat, length: nat)
      requires Shaped() && length == |b| && Rounded(length) <= ETH_FRAME_LEN
      requires src + Rounded(length) <= mem.Length && mem[..][src..src + length] == b
      modifies packet
      ensures packet[..length] == b
    {
      hide Overwrite;
      ghost var was := packet[..];
      ghost var n := Fetch(src, packet, 0, length);
      ghost var r := mem[..][src..src + n];
      SliceOfSlice(mem[..], src, src + n, 0, length);
      assert r[0..length] == r[..length];
      OverwriteWhole(was, b, r);
    }

    /** Copy length bytes whose first frag, an even number, lie at src and the others at lo. */
    method CopyTwice(ghost b: seq<byte>, src: nat, frag: nat, lo: nat, length: nat)
      requires Shaped() && frag <= length == |b| && frag % 2 == 0 && frag + Rounded(length - frag) <= ETH_FRAME_LEN
      requires src + frag <= mem.Length && mem[..][src..src + frag] == b[..frag]
      requires lo + Rounded(length - frag) <= mem.Length && mem[..][lo..lo + length - frag] == b[frag..]
      modifies packet
      ensures packet[..length] == b
    {
      hide Overwrite;
      ghost var was := packet[..];
      ghost var n := Fetch(src, packet, 0, frag);
      assert n == frag;
      n := Fetch(lo, packet, frag, length - frag);
      ghost var r := mem[..][lo..lo + n];
      SliceOfSlice(mem[..], lo, lo + n, 0, length - frag);
      assert r[0..length - frag] == r[..length - frag];
      OverwriteParts(was, b, frag, r);
    }

    /** Where the frame of the oldest packet lies, and that its parts, rounded up, fit. */
    lemma FrameLies(length: nat)
      requires Valid() && pending != [] && length == |pending[0].bytes| - 4 <= ETH_FRAME_LEN
      ensures var src, lo, b := ring.Page(head) * 256 + 4, ring.rxStart * 256, pending[0].bytes[..length];
        var frag := ring.memsize * 256 - src;
        if length <= frag then
          && Rounded(length) <= ETH_FRAME_LEN && src + Rounded(length) <= mem.Length
          && mem[..][src..src + length] == b
        else
          && 0 <= frag && frag % 2 == 0 && frag + Rounded(length - frag) <= ETH_FRAME_LEN
          && lo + Rounded(length - frag) <= mem.Length
          && mem[..][src..src + frag] == b[..frag] && mem[..][lo..lo + length - frag] == b[frag..]
    {
      RoomFor(length);
      HeadAhead();
      hide Holds, Cell, Ring.Parsed, Ring.Header, Pages;
      FrameInRing(ring, mem[..], stream, head, pending[0], length);
      var frag := ring.memsize * 256 - (ring.Page(head) * 256 + 4);
      if length > frag { Halves(pending[0].bytes, frag, length); }
    }

    /** Copy the frame of the oldest packet, in one or two parts. Rounding up to words happens only
        at its very end. */
    method CopyFrame(pktoff: nat, length: nat)
      requires Valid() && pending != [] && pktoff == ring.Page(head) * 256 + 4
      requires length == |pending[0].bytes| - 4 <= ETH_FRAME_LEN
      modifies packet
      ensures packet[..length] == pending[0].bytes[..length]
    {
      var frag := ring.memsize * 256 - pktoff;
      ghost var b := pending[0].bytes[..length];
      FrameLies(length);
      hide Holds, Cell, Ring.Parsed, Ring.Header, Ring.Page, Pages, Rounded;
      if length > frag {
        CopyTwice(b, pktoff, frag, ring.rxStart * 256, length);
      } else {
        CopyOnce(b, pktoff, length);
      }
    }

    /** The ring is empty exactly when the page after the boundary is the current one. */
    lemma EmptyIffNothingPending()
      requires Valid()
      ensures (if bound + 1 >= ring.memsize then ring.rxStart else bound + 1) == ring.Page(head)
      ensures curr == ring.Page(head) <==> pending == []
    {
      hide Holds, Cell;
      ring.SamePage(head, tail);
      ring.ParsedLength(stream, head, pending);
    }

    /** The header at the page of the oldest packet. */
    method ReadHeader(pktoff: nat) returns (status: byte, next: byte, size: nat)
      requires Valid() && pending != [] && pktoff == ring.Page(head) * 256
      ensures status == pending[0].status && next == ring.Page(head + Pages(pending[0]))
      ensures size == |pending[0].bytes| < HALFWORD
    {
      HeadAhead();
      HeaderInRing(ring, mem[..], stream, head, pending[0]);
      var hdr := new byte[4];
      ghost var h := ring.Header(pending[0], head + Pages(pending[0]));
      CopyHeader(hdr, pktoff, h);
      status, next := hdr[..][0], hdr[..][1];
      size := Little(hdr[..][2], hdr[..][3]);
    }

    method CopyHeader(hdr: array<byte>, pktoff: nat, ghost h: seq<byte>)
      requires Shaped() && hdr != mem && hdr.Length == 4 == |h| && pktoff + 4 <= mem.Length
      requires mem[..][pktoff..pktoff + 4] == h
      modifies hdr
      ensures hdr[..] == h
    {
      ghost var was := hdr[..];
      ghost var n := Fetch(pktoff, hdr, 0, 4);
      assert n == 4;
      OverwriteWhole(was, h, h);
      assert hdr[..][..4] == hdr[..];
    }

    /** Move the boundary just before the next packet. */
    method Release(next: byte)
      requires Valid() && pending != [] && next == ring.Page(head + Pages(pending[0]))
      modifies this`bound, this`head, this`pending, this`taken
      ensures Valid() && pending == old(pending)[1..] && taken == old(taken) + [old(pending[0])]
    {
      HeadAhead();
      var n := if next == ring.rxStart then ring.memsize else next;
      bound := n - 1;
      AdvanceKeeps(mem[..], ring.rxStart * 256, ring.Count() * 256, stream,
                   head * 256, (head + Pages(pending[0])) * 256);
      assert taken + pending == taken + [pending[0]] + pending[1..];
      head := head + Pages(pending[0]);
      taken, pending := taken + [pending[0]], pending[1..];
    }

    /** The page behind the boundary and the current page, both brought back into the ring. */
    method NextAndCurrent() returns (next: nat, current: nat)
      requires Valid()
      ensures next == ring.Page(head) && (current == next <==> pending == [])
    {
      hide Holds, Cell, Ring.Parsed, Ring.Header, Pages;
      EmptyIffNothingPending();
      next := (bound + 1) % 256;
      if next >= ring.memsize { next := ring.rxStart; }
      current := curr;
      if current >= ring.memsize { current := ring.rxStart; }
    }

    /** Take the oldest packet, if the receive status register reports a packet received. A bogus
        header is left where it is, so it blocks the ring. */
    method Poll() returns (received: bool)
      requires Valid()
      modifies this`packetlen, this`bound, this`head, this`pending, this`taken, packet
      ensures Valid()
      ensures received <==> rsr % 2 == 1 && old(pending) != [] && Good(old(pending[0]))
      ensures received ==>
        var frame := old(pending[0].bytes)[..|old(pending[0].bytes)| - 4];
        && packetlen == |frame| && packet[..packetlen] == frame
        && pending == old(pending)[1..] && taken == old(taken) + [old(pending[0])]
        && bound == ring.Before(head)
      ensures !received ==>
        && packetlen == old(packetlen) && packet[..] == old(packet[..])
        && pending == old(pending) && taken == old(taken) && bound == old(bound)
    {
      hide Holds, Cell, Ring.Parsed, Ring.Header, Pages;
      if rsr % 2 != 1 { return false; }
      var next, current := NextAndCurrent();
      if current == next { return false; }
      var pktoff := next * 256;
      var status, following, size := ReadHeader(pktoff);
      pktoff := pktoff + 4;
      var length := (size - 4) % HALFWORD;
      if status % 2 == 0 || length < ETH_ZLEN || length > ETH_FRAME_LEN {
        return false;
      }
      Accept(pktoff, length, following);
      return true;
    }

    method Accept(pktoff: nat, length: nat, following: byte)
      requires Valid() && pending != [] && pktoff == ring.Page(head) * 256 + 4
      requires length == |pending[0].bytes| - 4 <= ETH_FRAME_LEN && following == ring.Page(head + Pages(pending[0]))
      modifies this`packetlen, this`bound, this`head, this`pending, this`taken, packet
      ensures Valid() && packetlen == length && packet[..length] == old(pending[0].bytes)[..length]
      ensures pending == old(pending)[1..] && taken == old(taken) + [old(pending[0])]
    {
      hide Holds, Cell, Ring.Parsed, Ring.Header, Pages;
      packetlen := length;
      CopyFrame(pktoff, length);
      Release(following);
    }
  }

  /** What happens to the card: a poll, or the arrival of a packet. */
  datatype Step = Polled | Arrived(p: Packet)

  /** Once the oldest packet is not good, every poll fails and everything stored stays pending, however
      often the card is polled and whatever arrives in between. */
  method PollForever(nic: Nic, steps: seq<Step>) returns (received: bool)
    requires nic.Valid() && nic.pending != [] && !Good(nic.pending[0])
    modifies nic, nic.packet, nic.mem
    ensures !received && nic.Valid()
    ensures old(nic.pending) <= nic.pending && nic.taken == old(nic.taken)
    ensures nic.packetlen == old(nic.packetlen) && nic.packet[..] == old(nic.packet[..])
  {
    hide Good, Ring.Parsed, Holds, Pages;
    received := false;
    for i := 0 to |steps|
      invariant !received && nic.Valid()
      invariant old(nic.pending) <= nic.pending && nic.taken == old(nic.taken)
      invariant nic.packetlen == old(nic.packetlen) && nic.packet[..] == old(nic.packet[..])
    {
      assert nic.pending[0] == old(nic.pending)[0];
      received := OneStep(nic, steps[i]);
    }
  }

  /** A poll, or the arrival of a packet, which is stored if there is room for it. */
  method OneStep(nic: Nic, step: Step) returns (received: bool)
    requires nic.Valid() && nic.pending != [] && !Good(nic.pending[0])
    modifies nic, nic.packet, nic.mem
    ensures !received && nic.Valid()
    ensures old(nic.pending) <= nic.pending && nic.taken == old(nic.taken)
    ensures nic.packetlen == old(nic.packetlen) && nic.packet[..] == old(nic.packet[..])
  {
    hide Good, Ring.Parsed, Holds;
    received := false;
    if step.Polled? {
      received := nic.Poll();
      return;
    }
    nic.FreeIsRoom();
    if |step.p.bytes| < HALFWORD && Pages(step.p) < nic.Free() {
      nic.Receive(step.p, seq(Pages(step.p) * 256 - 4 - |step.p.bytes|, i => 0));
    }
  }

  const BOGUS := Packet(1, seq(10, i => 0))
  const GOOD := Packet(1, seq(64, i => 0))

  method StoreBoth() returns (nic: Nic)
    ensures fresh(nic) && fresh(nic.packet) && fresh(nic.mem) && nic.Valid()
    ensures nic.pending == nic.stored == [BOGUS, GOOD] && nic.taken == []
  {
    assert Pages(BOGUS) == 1 && Pages(GOOD) == 1;
    nic := new Nic(Ring(64, 128), false, false, 0);
    hide Ring.Parsed, Holds, Pages;
    nic.Receive(BOGUS, seq(242, i => 0));
    nic.Receive(GOOD, seq(188, i => 0));
  }

  /** A packet that is too short, and a good one behind it, which no number of polls delivers. */
  method BogusBlocks(steps: seq<Step>) returns (received: bool, nic: Nic)
    ensures !received && nic.Valid()
    ensures Good(GOOD) && [BOGUS, GOOD] <= nic.pending && nic.taken == []
  {
    assert !Good(BOGUS) && Good(GOOD);
    nic := StoreBoth();
    hide Good, Ring.Parsed, Holds;
    received := PollForever(nic, steps);
  }
}
