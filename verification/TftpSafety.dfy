/** What every step of the conversation keeps: the packets in flight tell the truth about the file,
    the client's counters agree, and the two parties stay in lock step. */
module TftpSafety {
  import opened Basics
  import opened TftpProtocol

  ghost predicate Known(w: World, d: Down) {
    d.tid < |w.sessions| && w.sessions[d.tid].req == d.req
  }

  ghost predicate DownOk(w: World, d: Down) {
    match d.msg
    case Data(n, p) =>
      && w.server.blksize >= DEFAULTSIZE
      && Known(w, d)
      && 1 <= n <= w.sessions[d.tid].cur
      && p == Block(w.server, n)
    case Oack(o) => Known(w, d) && o == w.server.opts
    case Error => true
    case _ => false
  }

  ghost predicate SessionOk(w: World, s: Session)
  {
    && s.cur <= LAST_BLOCK
    && (w.server.blksize < DEFAULTSIZE ==> s.cur == 0)
  }

  ghost predicate Truthful(w: World) {
    && Honest(w.server)
    && (forall s <- w.sessions :: SessionOk(w, s))
    && (forall d <- w.down :: DownOk(w, d))
    && (w.server.blksize < DEFAULTSIZE ==> forall u <- w.up :: !u.msg.Ack?)
  }

  ghost predicate ClientOk(c: Client, w: World)
  {
    && c.bcounter == c.prevblock <= LAST_BLOCK
    && (w.server.blksize < DEFAULTSIZE ==> c.prevblock == 0 && !c.tp.Ack?)
    && (c.req > 0 ==> c.packetsize == DEFAULTSIZE || c.packetsize == w.server.blksize)
    && c.prevblock <= c.block <= c.prevblock + 1
    && (c.tp.Ack? ==> c.tp.block <= c.prevblock)
  }

  /** A packet for a transfer is younger than the request that opened the transfer. */
  ghost predicate Addressed(w: World, u: Up) {
    u.dest.Tid? ==> u.dest.tid < |w.sessions| && w.sessions[u.dest.tid].req <= u.req
  }

  ghost predicate Numbered(c: Client, w: World) {
    && (forall s <- w.sessions :: 1 <= s.req <= c.req)
    && (forall u <- w.up :: 1 <= u.req <= c.req && Addressed(w, u))
    && (forall d <- w.down :: 1 <= d.req <= c.req)
  }

  /** Section 2 of RFC 1350: no transfer of the current request is ahead of the block the client
      waits for, and no acknowledgement in flight exceeds what the client has stored. As long as
      no port number has been used twice, some transfer of the current request did send what the
      client has stored. */
  ghost predicate LockStep(c: Client, w: World) {
    && (forall s <- w.sessions :: s.req == c.req ==> s.cur <= c.prevblock + 1)
    && (forall u <- w.up :: u.req == c.req && u.msg.Ack? ==> u.msg.block <= c.prevblock)
    && (c.req <= PORTS && c.prevblock > 0 ==> exists s <- w.sessions :: s.req == c.req && s.cur >= c.prevblock)
  }

  ghost predicate Core(c: Client, w: World) {
    Truthful(w) && ClientOk(c, w) && Numbered(c, w) && LockStep(c, w)
  }

  /** buf_eof only marks the true end of the file, behind a short block. */
  ghost predicate EofOk(c: Client, s: Server) {
    c.eof ==> c.prevblock > 0 && Pos(s, c.prevblock) == |s.file| && |Block(s, c.prevblock)| < s.blksize
  }

  // ---------------------------------------------------------------- block arithmetic

  /** A block shorter than the negotiated size ends the file (section 6 of RFC 1350). */
  lemma ShortBlockIsLast(s: Server, n: nat)
    requires n >= 1
    ensures |Block(s, n)| <= s.blksize
    ensures |Block(s, n)| < s.blksize ==> Pos(s, n) == |s.file|
  {
    PosInFile(s, n - 1);
  }

  // ---------------------------------------------------------------- server and network steps

  lemma ToClientKeepsCore(c: Client, w: World, d: Down)
    requires Core(c, w) && DownOk(w, d) && 1 <= d.req <= c.req
    ensures Core(c, w.(down := w.down + [d]))
  {
    var w1 := w.(down := w.down + [d]);
    assert forall x <- w1.down :: x == d || x in w.down;
    assert forall x <- w1.down :: DownOk(w, x) && DownOk(w1, x);
    assert forall s <- w.sessions :: SessionOk(w1, s);
  }

  lemma SendKeepsCore(c: Client, w: World, t: nat)
    requires Core(c, w) && t < |w.sessions|
    ensures Core(c, Send(w, t))
  {
    assert SessionOk(w, w.sessions[t]);
    ToClientKeepsCore(c, w, Down(w.sessions[t].req, t, Current(w.server, w.sessions[t].cur)));
  }

  lemma UpdateKeepsCore(c: Client, w: World, t: nat, s: Session)
    requires Core(c, w) && t < |w.sessions| && SessionOk(w, s)
    requires s.req == w.sessions[t].req && s.cur >= w.sessions[t].cur
    requires s.req == c.req ==> s.cur <= c.prevblock + 1
    ensures Core(c, w.(sessions := w.sessions[t := s]))
  {
    var w1 := w.(sessions := w.sessions[t := s]);
    assert forall x <- w1.sessions :: x == s || x in w.sessions;
    assert forall x <- w1.sessions :: SessionOk(w, x) && SessionOk(w1, x);
    assert forall d <- w.down :: DownOk(w, d) && DownOk(w1, d);
    assert forall u <- w.up :: Addressed(w, u) && Addressed(w1, u);
    if c.req <= PORTS && c.prevblock > 0 {
      var x :| x in w.sessions && x.req == c.req && x.cur >= c.prevblock;
      var i :| 0 <= i < |w.sessions| && w.sessions[i] == x;
      assert w1.sessions[i] in w1.sessions;
    }
  }

  lemma AckedKeepsCore(c: Client, w: World, t: nat, u: Up)
    requires Core(c, w) && t < |w.sessions| && u in w.up && u.dest == Tid(t) && u.msg == Ack(w.sessions[t].cur)
    ensures Core(c, Acked(w, t))
  {
    var s := w.sessions[t];
    assert SessionOk(w, s);
    if (s.cur == 0 || |Block(w.server, s.cur)| == w.server.blksize) && s.cur < LAST_BLOCK {
      assert Addressed(w, u);
      UpdateKeepsCore(c, w, t, s.(cur := s.cur + 1));
      SendKeepsCore(c, w.(sessions := w.sessions[t := s.(cur := s.cur + 1)]), t);
    } else {
      UpdateKeepsCore(c, w, t, s.(open := false));
    }
  }

  lemma OpenKeepsCore(c: Client, w: World, s: Session)
    requires Core(c, w) && 1 <= s.req <= c.req && s.cur <= 1 && SessionOk(w, s)
    ensures Core(c, w.(sessions := w.sessions + [s]))
  {
    var w1 := w.(sessions := w.sessions + [s]);
    assert forall x <- w1.sessions :: x == s || x in w.sessions;
    assert forall x <- w.sessions :: x in w1.sessions;
    assert forall x <- w1.sessions :: SessionOk(w, x) && SessionOk(w1, x);
    assert forall d <- w.down :: DownOk(w, d) && DownOk(w1, d);
    assert forall u <- w.up :: Addressed(w, u) && Addressed(w1, u);
  }

  lemma AcceptKeepsCore(c: Client, w: World, req: nat)
    requires Core(c, w) && 1 <= req <= c.req
    ensures Core(c, Accept(w, req))
  {
    var s := Session(req, if w.server.opts == [] then 1 else 0, true);
    OpenKeepsCore(c, w, s);
    SendKeepsCore(c, w.(sessions := w.sessions + [s]), |w.sessions|);
  }

  lemma BackgroundKeepsCore(c: Client, w: World, m: Move)
    requires Core(c, w)
    ensures Core(c, Background(w, m))
    ensures Background(w, m).server == w.server
  {
    if m.Serve? && m.k < |w.up| {
      var u := w.up[m.k];
      if u.dest.Listener? {
        if u.msg.Rrq? { AcceptKeepsCore(c, w, u.req); }
      } else if u.dest.tid < |w.sessions| && w.sessions[u.dest.tid].open
                && Port(w.sessions[u.dest.tid].req) == Port(u.req) {
        if u.msg == Ack(w.sessions[u.dest.tid].cur) { AckedKeepsCore(c, w, u.dest.tid, u); }
        else if u.msg.Error? {
          assert SessionOk(w, w.sessions[u.dest.tid]);
          UpdateKeepsCore(c, w, u.dest.tid, w.sessions[u.dest.tid].(open := false));
        }
      }
    } else if m.Resend? && m.t < |w.sessions| && w.sessions[m.t].open {
      SendKeepsCore(c, w, m.t);
    } else if m.Refuse? && m.k < |w.up| && w.up[m.k].msg.Rrq? {
      ToClientKeepsCore(c, w, Down(w.up[m.k].req, 0, Error));
    }
  }

  lemma {:induction false} AwaitKeepsCore(c: Client, w: World)
    requires Core(c, w)
    ensures var (w1, reply) := Await(w, c.req);
            Core(c, w1)
            && (reply.Got? ==> reply.d in w1.down && Port(reply.d.req) == Port(c.req))
    decreases |w.script|
  {
    if w.script != [] {
      var m, w1 := w.script[0], w.(script := w.script[1..]);
      assert Core(c, w1);
      if !m.Timeout? && !(m.Deliver? && m.k < |w.down| && Port(w.down[m.k].req) == Port(c.req)) {
        BackgroundKeepsCore(c, w1, m);
        AwaitKeepsCore(c, Background(w1, m));
      }
    }
  }

  // ---------------------------------------------------------------- the client's reaction

  lemma {:induction false} OptionsRead(s: Server, opts: seq<Opt>, packetsize: int, filemax: int)
    requires Honest(s) && forall o <- opts :: o in s.opts
    ensures var p := ReadOptions(opts, packetsize, filemax);
      && (p.ok && (Opt("tsize", |s.file|) in opts || filemax == |s.file|) ==> p.filemax == |s.file|)
      && (p.ok ==> (p.packetsize == packetsize || p.packetsize == s.blksize))
      && (p.ok && Opt("blksize", s.blksize) in opts ==> p.packetsize == s.blksize >= DEFAULTSIZE)
      && (p.filemax == filemax || p.filemax == |s.file|)
      && (p.filemax != filemax ==> Opt("tsize", |s.file|) in opts)
      && (p.ok <==> (s.blksize >= DEFAULTSIZE || Opt("blksize", s.blksize) !in opts))
      && (!p.ok ==> p.packetsize == s.blksize)
    decreases |opts|
  {
    if opts != [] {
      assert opts[0] in s.opts;
      var p := if opts[0].name == "blksize" then opts[0].value else packetsize;
      var f := if opts[0].name == "tsize" then opts[0].value else filemax;
      OptionsRead(s, opts[1..], p, f);
      assert forall o :: o in opts <==> o == opts[0] || o in opts[1..];
    }
  }

  /** The options GRUB asks for, with the values it accepts. */
  predicate Acceptable(o: Opt) {
    (o.name == "blksize" && o.value >= 512) || (o.name == "tsize" && o.value >= 0)
  }

  /** An acknowledgement is accepted if and only if all its options are such, from whatever server; the last
      value of each counts. */
  lemma {:induction false} AcceptedOptions(opts: seq<Opt>, packetsize: int, filemax: int)
    ensures ReadOptions(opts, packetsize, filemax).ok <==> forall o <- opts :: Acceptable(o)
    ensures ReadOptions(opts, packetsize, filemax).ok && opts != [] ==>
      var p, last := ReadOptions(opts, packetsize, filemax), opts[|opts| - 1];
      if last.name == "blksize" then p.packetsize == last.value else p.filemax == last.value
    decreases |opts|
  {
    if opts != [] {
      var p := if opts[0].name == "blksize" then opts[0].value else packetsize;
      var f := if opts[0].name == "tsize" then opts[0].value else filemax;
      AcceptedOptions(opts[1..], p, f);
      assert forall o :: o in opts <==> o == opts[0] || o in opts[1..];
      assert Acceptable(opts[0]) ==> ReadOptions(opts, packetsize, filemax) == ReadOptions(opts[1..], p, f);
      assert if |opts| == 1 then opts[1..] == [] else opts[1..][|opts| - 2] == opts[|opts| - 1];
    }
  }

  /** The receiver of section 2 of RFC 1350, over unbounded counters: it stores exactly the next
      block and acknowledges the last block it has stored. */
  function Receive(stored: nat, number: nat): (r: (nat, nat))
  {
    if number == stored + 1 then (number, number) else (stored, stored)
  }

  /** The mixed 16-bit and int comparisons of buf_fill are that receiver for every block number
      that fits 16 bits; at block 65535 it accepts nothing more. */
  lemma DataIsReceive(c: Client, d: Down)
    requires c.bcounter == c.prevblock <= LAST_BLOCK
    requires d.msg.Data? && d.msg.block <= LAST_BLOCK && |d.msg.payload| <= c.packetsize
    ensures var r, next := React(c, d, false), Receive(c.prevblock, d.msg.block);
      && r.flow == Continue
      && r.sent == Some(Up(c.req, Tid(d.tid), Ack(next.1)))
      && r.c.prevblock == r.c.bcounter == r.c.block == next.0
      && r.c.window == c.window + (if next.0 == c.prevblock then [] else d.msg.payload)
      && (next.0 == c.prevblock ==> r.c.eof == c.eof)
    ensures c.prevblock == LAST_BLOCK ==> React(c, d, false).c.window == c.window
  {
  }

  /** Options that announce blocks below 512 bytes are refused: the server is sent an error, which closes its
      transfer, and buf_fill fails. */
  lemma SmallBlocksRefused(c: Client, w: World, t: nat)
    requires Honest(w.server) && w.server.blksize < DEFAULTSIZE && c.prevblock == 0
    requires t < |w.sessions| && Port(w.sessions[t].req) == Port(c.req) && w.sessions[t].open
    ensures var r := React(c, Down(c.req, t, Oack(w.server.opts)), false);
      && r.sent.Some? && r.flow == Return(false) && r.c.window == c.window
      && ServerGets(w, r.sent.value) == w.(sessions := w.sessions[t := w.sessions[t].(open := false)])
  {
    OptionsRead(w.server, w.server.opts, c.packetsize, c.filemax);
    hide ReadOptions;
  }

  /** Data longer than the agreed block size, and options once a block has come, change nothing and are not
      answered. Any other kind of packet ends buf_fill as if it had succeeded. */
  lemma UnexpectedPackets(c: Client, d: Down, abort: bool)
    ensures d.msg.Data? && |d.msg.payload| > c.packetsize ==> React(c, d, abort) == Reaction(c, None, Continue)
    ensures d.msg.Oack? && c.prevblock > 0 ==> React(c, d, abort) == Reaction(c, None, Continue)
    ensures d.msg.Rrq? || d.msg.Ack? || d.msg.Other? ==> React(c, d, abort) == Reaction(c, None, Return(true))
  {
  }

  ghost predicate Delivered(c: Client, w: World, d: Down) {
    d in w.down && Port(d.req) == Port(c.req)
  }

  /** Sending the reaction's packet, or losing it for want of a route. */
  ghost predicate Sent(w: World, r: Reaction, w': World) {
    || w'.(script := w.script) == w
    || (r.sent.Some? && w'.(script := w.script) == w.(up := w.up + [r.sent.value]))
  }

  /** From c to c' the window has grown by exactly the blocks between the two prevblocks. */
  ghost predicate Extends(s: Server, c: Client, c': Client) {
    && c'.base == c.base && c'.req >= c.req
    && EofOk(c', s)
    && |c'.window| <= BUFLEN
    && Pos(s, c.prevblock) <= Pos(s, c'.prevblock)
    && c'.window == c.window + s.file[Pos(s, c.prevblock)..Pos(s, c'.prevblock)]
  }

  lemma ExtendsTransitive(s: Server, c: Client, c1: Client, c2: Client)
    requires Extends(s, c, c1) && Extends(s, c1, c2)
    ensures Extends(s, c, c2)
  {
    var i, j, k := Pos(s, c.prevblock), Pos(s, c1.prevblock), Pos(s, c2.prevblock);
    assert s.file[i..j] + s.file[j..k] == s.file[i..k];
  }

  /** The cache agrees with the file: it holds the bytes from base up to the next block's place. */
  ghost predicate WindowOk(s: Server, c: Client) {
    && c.base + |c.window| == Pos(s, c.prevblock)
    && c.window == s.file[c.base..Pos(s, c.prevblock)]
  }

  lemma ExtendsKeepsWindow(s: Server, c: Client, c': Client)
    requires WindowOk(s, c) && Extends(s, c, c')
    ensures WindowOk(s, c')
  {
    var i, j, k := c.base, Pos(s, c.prevblock), Pos(s, c'.prevblock);
    assert s.file[i..j] + s.file[j..k] == s.file[i..k];
  }

  lemma SameWindowExtends(s: Server, c: Client, c': Client)
    requires EofOk(c, s) && |c.window| <= BUFLEN
    requires c' == c.(retry := c'.retry, req := c'.req) && c'.req >= c.req
    ensures Extends(s, c, c')
  {
  }

  /** Before the first block filemax may become the size the server announced, never later. */
  ghost predicate Announced(s: Server, c: Client, c': Client) {
    c'.filemax == c.filemax || (c.prevblock == 0 && c'.filemax == |s.file| && Announces(s))
  }

  /** The server says how long the file is. */
  ghost predicate Announces(s: Server) {
    Opt("tsize", |s.file|) in s.opts
  }

  lemma ReactKeepsClient(c: Client, w: World, d: Down, abort: bool)
    requires Core(c, w) && Delivered(c, w, d)
    ensures var r := React(c, d, abort);
      && ClientOk(r.c, w)
      && r.c.req == c.req && r.c.base == c.base
      && c.prevblock <= r.c.prevblock <= c.prevblock + 1
      && (r.c.prevblock > c.prevblock ==> d.msg == Data(r.c.prevblock, Block(w.server, r.c.prevblock)))
      && (r.sent.Some? ==> r.sent.value.req == c.req && r.sent.value.msg == r.c.tp
                           && r.sent.value.dest == Tid(d.tid) && Known(w, d))
      && (r.sent.Some? && r.sent.value.msg.Ack? ==> !abort && r.sent.value.msg.block == r.c.prevblock)
      && (r.flow == Return(true) ==> abort)
      && Announced(w.server, c, r.c)
  {
    assert DownOk(w, d);
    match d.msg
    case Oack(_) =>
      if c.prevblock == 0 { OptionsRead(w.server, w.server.opts, c.packetsize, c.filemax); }
    case Data(n, p) =>
      assert SessionOk(w, w.sessions[d.tid]);
    case Error =>
  }

  lemma ReactKeepsCore(c: Client, w: World, d: Down, abort: bool, w': World)
    requires Core(c, w) && Delivered(c, w, d)
    requires Sent(w, React(c, d, abort), w')
    ensures Core(React(c, d, abort).c, w')
  {
    ReactKeepsClient(c, w, d, abort);
    var r := React(c, d, abort);
    if c.req <= PORTS {
      PortsDistinct(c.req, d.req);
      if r.c.prevblock > c.prevblock { assert w.sessions[d.tid] in w'.sessions; }
    }
    assert forall u <- w'.up :: (u in w.up && Addressed(w, u)) || (r.sent.Some? && u == r.sent.value);
    assert forall u <- w'.up :: Addressed(w', u);
    assert forall s <- w.sessions :: SessionOk(w', s);
    assert forall x <- w.down :: DownOk(w', x);
  }

  lemma BlockExtends(s: Server, c: Client, c': Client)
    requires s.blksize >= c.packetsize && EofOk(c, s) && |c.window| + c.packetsize <= BUFLEN
    requires c'.base == c.base && c'.req == c.req && c'.prevblock == c.prevblock + 1
    requires |Block(s, c'.prevblock)| <= c.packetsize
    requires c'.window == c.window + Block(s, c'.prevblock)
    requires c'.eof ==> |Block(s, c'.prevblock)| < c.packetsize
    ensures Extends(s, c, c')
  {
    PosInFile(s, c.prevblock);
    ShortBlockIsLast(s, c'.prevblock);
  }

  lemma ReactShape(c: Client, d: Down)
    requires c.bcounter == c.prevblock && !c.eof
    ensures var c' := React(c, d, false).c;
      && c'.base == c.base && c'.req == c.req
      && (c'.prevblock == c.prevblock ==> c'.window == c.window && !c'.eof)
      && (c'.prevblock != c.prevblock && d.msg.Data? ==>
            && c'.window == c.window + d.msg.payload && |d.msg.payload| <= c.packetsize
            && (c'.eof ==> |d.msg.payload| < c.packetsize))
  {
  }

  lemma ReactExtends(c: Client, w: World, d: Down)
    requires Core(c, w) && EofOk(c, w.server) && Delivered(c, w, d)
    requires !Full(c) && |c.window| <= BUFLEN && c.req > 0
    ensures Extends(w.server, c, React(c, d, false).c)
  {
    ReactKeepsClient(c, w, d, false);
    ReactShape(c, d);
    var c' := React(c, d, false).c;
    if c'.prevblock > c.prevblock { BlockExtends(w.server, c, c'); }
  }

  /** A new request, first or repeated, has a number nobody has seen. */
  lemma RequestKeepsCore(c: Client, w: World, c': Client, w': World)
    requires Core(c, w)
    requires c'.req == c.req + 1 && ClientOk(c', w) && c'.prevblock == 0
    requires w'.(script := w.script) == w || w'.(script := w.script) == w.(up := w.up + [Up(c'.req, Listener, c'.tp)])
    ensures Core(c', w')
  {
    assert forall u <- w'.up :: (u in w.up && Addressed(w, u)) || u == Up(c'.req, Listener, c'.tp);
    assert forall u <- w'.up :: Addressed(w', u);
    assert forall s <- w.sessions :: SessionOk(w', s);
    assert forall x <- w.down :: DownOk(w', x);
  }

  /** What buf_fill promises: the conversation stays sound, and unless it aborts, the window grows
      by exactly the blocks between the old and the new value of prevblock. */
  ghost predicate FillOk(c: Client, w: World, abort: bool, f: Filled) {
    && f.w.server == w.server && |f.w.script| <= |w.script|
    && Core(f.c, f.w) && f.c.req >= c.req
    && Announced(w.server, c, f.c)
    && (!abort ==> Extends(w.server, c, f.c))
    && (!abort && f.ok ==> Full(f.c))
  }

  lemma {:induction false} FillKeeps(c: Client, w: World, abort: bool)
    requires Core(c, w) && c.req > 0
    requires !abort ==> EofOk(c, w.server) && |c.window| <= BUFLEN
    ensures FillOk(c, w, abort, Fill(c, w, abort))
    ensures Fill(c, w, abort).c != c ==> |Fill(c, w, abort).w.script| < |w.script|
    decreases |w.script|, 0
  {
    if !Full(c) {
      AwaitKeepsCore(c, w);
      var (w1, reply) := Await(w, c.req);
      match reply
      case IpAbort =>
      case TimedOut => FillLateKeeps(c, w1, abort);
      case Got(d) => FillPacketKeeps(c, w1, d, abort);
    }
  }

  lemma GivingUpKeepsCore(c: Client, w: World)
    requires Core(c, w)
    ensures Core(c.(retry := c.retry + 1), w)
  {
  }

  lemma {:induction false} FillLateKeeps(c: Client, w: World, abort: bool)
    requires Core(c, w) && c.req > 0
    requires !abort ==> EofOk(c, w.server) && |c.window| <= BUFLEN
    ensures FillOk(c, w, abort, FillLate(c, w, abort))
    decreases |w.script|, 2
  {
    if c.block == 0 && c.retry < MAX_RETRIES {
      AskingAgainKeeps(c, w, abort);
    } else {
      GivingUpKeepsCore(c, w);
      if !abort {
        SameWindowExtends(w.server, c, c.(retry := c.retry + 1));
        SameWindowExtends(w.server, c, c);
      }
    }
  }

  lemma {:induction false} AskingAgainKeeps(c: Client, w: World, abort: bool)
    requires Core(c, w) && c.req > 0 && c.block == 0 && c.retry < MAX_RETRIES
    requires !abort ==> EofOk(c, w.server) && |c.window| <= BUFLEN
    ensures FillOk(c, w, abort, FillLate(c, w, abort))
    decreases |w.script|, 1
  {
    var (w1, ok) := Transmit(w, Up(c.req + 1, Listener, c.tp));
    var c1 := c.(retry := c.retry + 1, req := c.req + 1);
    RequestKeepsCore(c, w, c1, w1);
    if !abort { SameWindowExtends(w.server, c, c1); }
    if ok {
      FillKeeps(c1, w1, abort);
      hide Core, Fill;
      if !abort { ExtendsTransitive(w.server, c, c1, Fill(c1, w1, abort).c); }
    }
  }

  lemma {:induction false} FillPacketKeeps(c: Client, w: World, d: Down, abort: bool)
    requires Core(c, w) && c.req > 0 && Delivered(c, w, d) && !Full(c)
    requires !abort ==> EofOk(c, w.server) && |c.window| <= BUFLEN
    ensures FillOk(c, w, abort, FillPacket(c, w, d, abort))
    decreases |w.script|, 1
  {
    var r := React(c, d, abort);
    var w1 := if r.sent.Some? then Transmit(w, r.sent.value).0 else w;
    ReactKeepsClient(c, w, d, abort);
    ReactKeepsCore(c, w, d, abort, w1);
    if !abort { ReactExtends(c, w, d); }
    if r.flow.Continue? {
      FillKeeps(r.c, w1, abort);
      if !abort { ExtendsTransitive(w.server, c, r.c, Fill(r.c, w1, abort).c); }
    }
  }

  // ---------------------------------------------------------------- one exchange

  /** The server's answer to a request. */
  lemma ServeRequest(w: World, k: nat, req: nat)
    requires k < |w.up| && w.up[k] == Up(req, Listener, Rrq)
    ensures var first := if w.server.opts == [] then 1 else 0;
      Background(w, Serve(k)) == w.(sessions := w.sessions + [Session(req, first, true)],
                                    down := w.down + [Down(req, |w.sessions|, Current(w.server, first))])
  {
    hide Current;
  }

  /** The server's answer to the acknowledgement of a full block, or of the options. */
  lemma ServeAck(w: World, k: nat, t: nat)
    requires k < |w.up| && t < |w.sessions| && w.sessions[t].open
    requires w.up[k] == Up(w.sessions[t].req, Tid(t), Ack(w.sessions[t].cur)) && w.sessions[t].cur < LAST_BLOCK
    requires w.sessions[t].cur == 0 || |Block(w.server, w.sessions[t].cur)| == w.server.blksize
    ensures var s := w.sessions[t];
      Background(w, Serve(k)) == w.(sessions := w.sessions[t := s.(cur := s.cur + 1)],
                                    down := w.down + [Down(s.req, t, Data(s.cur + 1, Block(w.server, s.cur + 1)))])
  {
    hide Block;
  }

  /** The client's answer to the next block. */
  lemma TakeBlock(c: Client, t: nat, payload: seq<byte>)
    requires c.bcounter == c.prevblock < LAST_BLOCK && |payload| <= c.packetsize
    ensures var b := c.prevblock + 1;
      React(c, Down(c.req, t, Data(b, payload)), false) ==
        Reaction(c.(block := b, prevblock := b, bcounter := b, tp := Ack(b), oport := t, retry := 0,
                    window := c.window + payload, eof := c.eof || |payload| < c.packetsize),
                 Some(Up(c.req, Tid(t), Ack(b))), Continue)
  {
  }

  // ---------------------------------------------------------------- abandoning a transfer

  /** The packets sent from w to w' acknowledge nothing, unless that was what was sent last. */
  ghost predicate TellsOff(w: World, w': World, last: Message) {
    && |w.up| <= |w'.up| && w'.up[..|w.up|] == w.up
    && forall i :: |w.up| <= i < |w'.up| ==> w'.up[i].msg == Error || w'.up[i].msg == last
  }

  lemma {:induction false} AwaitSendsNothing(w: World, req: nat)
    ensures Await(w, req).0.up == w.up
    decreases |w.script|
  {
    if w.script != [] {
      var m, w1 := w.script[0], w.(script := w.script[1..]);
      if !m.Timeout? && !(m.Deliver? && m.k < |w.down| && Port(w.down[m.k].req) == Port(req)) {
        AwaitSendsNothing(Background(w1, m), req);
      }
    }
  }

  /** buf_fill called to abandon a transfer stores nothing: a data block that still arrives is
      answered with an error, and ends the wait. */
  lemma {:induction false} AbandoningStoresNothing(c: Client, w: World)
    ensures var f := Fill(c, w, true);
      && f.c.window == c.window && f.c.prevblock == c.prevblock && f.c.bcounter == c.bcounter
      && TellsOff(w, f.w, c.tp)
    decreases |w.script|, 0
  {
    if !Full(c) {
      AwaitSendsNothing(w, c.req);
      var (w1, reply) := Await(w, c.req);
      match reply
      case IpAbort =>
      case TimedOut => AbandoningLate(c, w1);
      case Got(d) => AbandoningAnswers(c, w1, d);
    }
  }

  lemma {:induction false} AbandoningLate(c: Client, w: World)
    ensures var f := FillLate(c, w, true);
      && f.c.window == c.window && f.c.prevblock == c.prevblock && f.c.bcounter == c.bcounter
      && TellsOff(w, f.w, c.tp)
    decreases |w.script|, 1
  {
    if c.block == 0 && c.retry < MAX_RETRIES {
      var (w1, ok) := Transmit(w, Up(c.req + 1, Listener, c.tp));
      if ok { AbandoningStoresNothing(c.(retry := c.retry + 1, req := c.req + 1), w1); }
    }
  }

  lemma {:induction false} AbandoningAnswers(c: Client, w: World, d: Down)
    ensures var f := FillPacket(c, w, d, true);
      && f.c.window == c.window && f.c.prevblock == c.prevblock && f.c.bcounter == c.bcounter
      && TellsOff(w, f.w, c.tp)
    decreases |w.script|, 1
  {
    var r := React(c, d, true);
    if r.flow.Continue? { AbandoningStoresNothing(c, w); }
  }

  // ---------------------------------------------------------------- every run

  datatype State = State(c: Client, w: World)

  /** The atomic steps of the whole system. Handle is one turn of the loop of buf_fill, Window
      stands for everything tftp_read and tftp_dir do to the cache between two turns. */
  datatype Event =
    | Net(m: Move)
    | Handle(k: nat, abort: bool, lost: bool)
    | Retransmit(lost: bool)
    | Open(lost: bool)
    | Window(window: seq<byte>, base: nat, filemax: int)

  function Next(s: State, e: Event): (s': State)
    ensures s'.w.server == s.w.server
  {
    var c, w := s.c, s.w;
    match e
    case Net(m) => State(c, Background(w, m))
    case Handle(k, abort, lost) =>
      if k < |w.down| && Port(w.down[k].req) == Port(c.req) then
        var r := React(c, w.down[k], abort);
        State(r.c, if lost || r.sent.None? then w else w.(up := w.up + [r.sent.value]))
      else s
    case Retransmit(lost) =>
      if c.req > 0 && c.block == 0 then
        State(c.(retry := c.retry + 1, req := c.req + 1),
              if lost then w else w.(up := w.up + [Up(c.req + 1, Listener, c.tp)]))
      else s
    case Open(lost) =>
      State(Fresh(c).(tp := Rrq), if lost then w else w.(up := w.up + [Up(c.req + 1, Listener, Rrq)]))
    case Window(window, base, filemax) => State(c.(window := window, base := base, filemax := filemax), w)
  }

  /** Before the first open: the static variables of the file, zero. */
  function Boot(): Client {
    Client(0, 0, 0, 0, 0, 0, 0, false, [], 0, 0, Rrq)
  }

  function Start(server: Server): State {
    State(Boot(), World(server, [], [], [], []))
  }

  /** Where a run from power-on ends; every reachable state is the end of some run. */
  function Run(server: Server, events: seq<Event>): (s: State)
    ensures s.w.server == server
    decreases |events|
  {
    if events == [] then Start(server)
    else Next(Run(server, events[..|events| - 1]), events[|events| - 1])
  }

  lemma NextKeepsCore(s: State, e: Event)
    requires Core(s.c, s.w)
    ensures Core(Next(s, e).c, Next(s, e).w)
  {
    match e
    case Net(m) => BackgroundKeepsCore(s.c, s.w, m);
    case Handle(k, abort, lost) =>
      if k < |s.w.down| && Port(s.w.down[k].req) == Port(s.c.req) {
        ReactKeepsCore(s.c, s.w, s.w.down[k], abort, Next(s, e).w);
      }
    case Retransmit(lost) =>
      if s.c.req > 0 && s.c.block == 0 { RequestKeepsCore(s.c, s.w, Next(s, e).c, Next(s, e).w); }
    case Open(lost) =>
      RequestKeepsCore(s.c, s.w, Next(s, e).c, Next(s, e).w);
    case Window(_, _, _) =>
  }

  lemma {:induction false} RunIsCore(server: Server, events: seq<Event>)
    requires Honest(server)
    ensures Core(Run(server, events).c, Run(server, events).w)
    decreases |events|
  {
    if events != [] {
      RunIsCore(server, events[..|events| - 1]);
      NextKeepsCore(Run(server, events[..|events| - 1]), events[|events| - 1]);
    }
  }

  /** In every run the server never gets ahead: a transfer of the current request is at most one
      block past what the client has stored, and no acknowledgement in flight claims more than
      that. Every data packet in flight carries the file's own bytes. */
  lemma NeverAhead(server: Server, events: seq<Event>, s: State)
    requires Honest(server) && s == Run(server, events)
    ensures s.c.bcounter == s.c.prevblock <= LAST_BLOCK
    ensures forall x <- s.w.sessions :: x.req == s.c.req ==> x.cur <= s.c.prevblock + 1
    ensures forall u <- s.w.up :: u.req == s.c.req && u.msg.Ack? ==> u.msg.block <= s.c.prevblock
    ensures forall d <- s.w.down :: d.msg.Data? ==>
              && d.tid < |s.w.sessions| && 1 <= d.msg.block <= s.w.sessions[d.tid].cur
              && d.msg.payload == Block(server, d.msg.block)
  {
    RunIsCore(server, events);
    assert forall d <- s.w.down :: DownOk(s.w, d);
  }

  /** Lock step: while no port number has come round again and the server has one transfer for the
      current request, that transfer is at the block last stored or at the next one. */
  lemma TwoPartyLockStep(server: Server, events: seq<Event>, s: State, t: nat)
    requires Honest(server) && s == Run(server, events) && s.c.req <= PORTS
    requires t < |s.w.sessions| && s.w.sessions[t].req == s.c.req
    requires forall i :: 0 <= i < |s.w.sessions| && s.w.sessions[i].req == s.c.req ==> i == t
    ensures s.w.sessions[t].cur == s.c.prevblock || s.w.sessions[t].cur == s.c.prevblock + 1
  {
    RunIsCore(server, events);
    assert s.w.sessions[t] in s.w.sessions;
  }

  lemma RunSnoc(server: Server, events: seq<Event>, e: Event)
    ensures Run(server, events + [e]) == Next(Run(server, events), e)
  {
    assert (events + [e])[..|events|] == events;
  }

  lemma {:induction false} ManyLostRequests(server: Server, events: seq<Event>, n: nat) returns (all: seq<Event>)
    ensures Run(server, all).w == Run(server, events).w
    ensures Run(server, all).c.req == Run(server, events).c.req + n
    decreases n
  {
    all := events;
    if n > 0 {
      var fewer := ManyLostRequests(server, events, n - 1);
      RunSnoc(server, fewer, Open(true));
      all := fewer + [Open(true)];
    }
  }

  /** A client that has just sent request req. */
  ghost predicate Asking(c: Client, req: nat) {
    c.req == req && c.prevblock == c.bcounter == 0 && c.packetsize == DEFAULTSIZE
  }

  // One transfer of a two-block file, event by event, as far as data block 2 in flight. The requests
  // before it, numbered up to k, were lost.

  lemma Requested(server: Server, k: nat) returns (events: seq<Event>)
    ensures Asking(Run(server, events).c, k + 1)
    ensures Run(server, events).w == World(server, [], [], [Up(k + 1, Listener, Rrq)], [])
  {
    assert Run(server, []) == Start(server);
    var before := ManyLostRequests(server, [], k);
    RunSnoc(server, before, Open(false));
    assert [] + [Up(k + 1, Listener, Rrq)] == [Up(k + 1, Listener, Rrq)];
    events := before + [Open(false)];
    hide Run;
  }

  lemma FirstSent(server: Server, k: nat) returns (events: seq<Event>)
    requires server.opts == []
    ensures Asking(Run(server, events).c, k + 1)
    ensures Run(server, events).w == World(server, [Session(k + 1, 1, true)],
                                           [Down(k + 1, 0, Data(1, Block(server, 1)))],
                                           [Up(k + 1, Listener, Rrq)], [])
  {
    hide Run, Asking, Background, Block;
    var before := Requested(server, k);
    FirstServed(server, k + 1);
    RunSnoc(server, before, Net(Serve(0)));
    events := before + [Net(Serve(0))];
  }

  lemma FirstServed(server: Server, req: nat)
    requires server.opts == []
    ensures Background(World(server, [], [], [Up(req, Listener, Rrq)], []), Serve(0)) ==
      World(server, [Session(req, 1, true)], [Down(req, 0, Data(1, Block(server, 1)))], [Up(req, Listener, Rrq)], [])
  {
    var w := World(server, [], [], [Up(req, Listener, Rrq)], []);
    ServeRequest(w, 0, req);
    hide Background, Block;
    assert w.sessions + [Session(req, 1, true)] == [Session(req, 1, true)];
    var d := Down(req, 0, Data(1, Block(server, 1)));
    assert w.down + [d] == [d];
  }

  lemma FirstTaken(server: Server, k: nat) returns (events: seq<Event>)
    requires server.opts == [] && |Block(server, 1)| <= DEFAULTSIZE
    ensures Run(server, events).c.req == k + 1
    ensures Run(server, events).w == World(server, [Session(k + 1, 1, true)],
                                           [Down(k + 1, 0, Data(1, Block(server, 1)))],
                                           [Up(k + 1, Listener, Rrq), Up(k + 1, Tid(0), Ack(1))], [])
  {
    hide Run;
    var before := FirstSent(server, k);
    RunSnoc(server, before, Handle(0, false, false));
    hide Block;
    TakeBlock(Run(server, before).c, 0, Block(server, 1));
    events := before + [Handle(0, false, false)];
    hide React, Fresh, Boot;
    assert [Up(k + 1, Listener, Rrq)] + [Up(k + 1, Tid(0), Ack(1))]
        == [Up(k + 1, Listener, Rrq), Up(k + 1, Tid(0), Ack(1))];
  }

  lemma TwoBlocksSent(server: Server, k: nat) returns (events: seq<Event>)
    requires Honest(server) && server.opts == [] && |server.file| == 600 && server.blksize == DEFAULTSIZE
    ensures var s := Run(server, events);
      && s.c.req == k + 1 && s.w.sessions == [Session(k + 1, 2, true)]
      && s.w.down == [Down(k + 1, 0, Data(1, server.file[..512])), Down(k + 1, 0, Data(2, server.file[512..]))]
  {
    TwoBlocks(server);
    hide Run, Block;
    var before := FirstTaken(server, k);
    ServeAck(Run(server, before).w, 1, 0);
    RunSnoc(server, before, Net(Serve(1)));
    events := before + [Net(Serve(1))];
    hide Background;
  }

  lemma TwoBlocks(server: Server)
    requires |server.file| == 600 && server.blksize == DEFAULTSIZE
    ensures Block(server, 1) == server.file[..512] && Block(server, 2) == server.file[512..]
  {
    assert Pos(server, 0) == 0 && Pos(server, 1) == 512 && Pos(server, 2) == 600;
  }

  /** A transfer that is the only one of the current request is at the block last stored or at the
      next one. */
  ghost predicate InLockStep(s: State) {
    forall t :: 0 <= t < |s.w.sessions| && Sole(s, t) ==>
      s.w.sessions[t].cur == s.c.prevblock || s.w.sessions[t].cur == s.c.prevblock + 1
  }

  ghost predicate Sole(s: State, t: nat)
    requires t < |s.w.sessions|
  {
    && s.w.sessions[t].req == s.c.req
    && forall i :: 0 <= i < |s.w.sessions| && s.w.sessions[i].req == s.c.req ==> i == t
  }

  /** The bound on the number of requests is needed: from the next request on a port is in use again,
      old data can reach the new request, and the client gets ahead of its only transfer. */
  lemma PortReuseBreaksLockStep(n: nat) returns (server: Server, events: seq<Event>)
    requires n > PORTS
    ensures Honest(server) && Run(server, events).c.req == n && !InLockStep(Run(server, events))
  {
    hide Run, Next, InLockStep;
    server := Server(seq(600, _ => 0), DEFAULTSIZE, []);
    var e4 := TwoBlocksSent(server, n - PORTS - 1);
    var e5 := ManyLostRequests(server, e4, PORTS - 1);
    var e7 := OpenAnother(server, e5);
    SamePort(n);
    var s5, s7 := Run(server, e5), Run(server, e7);
    assert s7.w.down[..2][0] == s5.w.down[0] && s7.w.down[..2][1] == s5.w.down[1];
    events := TakeTwo(server, e7);
    ClientAhead(Run(server, events), n);
  }

  lemma SamePort(n: nat)
    requires n >= PORTS
    ensures Port(n) == Port(n - PORTS)
  {
  }

  lemma ClientAhead(s: State, n: nat)
    requires s.c.req == n > PORTS && s.c.prevblock == 2
    requires s.w.sessions == [Session(n - PORTS, 2, true), Session(n, 1, true)]
    ensures !InLockStep(s)
  {
    assert Sole(s, 1);
  }

  /** Lock step is a promise about runs of n requests if and only if n is at most 65536. */
  lemma LockStepIffFewRequests(n: nat)
    ensures (forall server, events :: Honest(server) && Run(server, events).c.req == n ==>
              InLockStep(Run(server, events))) <==> n <= PORTS
  {
    if n > PORTS {
      var server, events := PortReuseBreaksLockStep(n);
    } else {
      hide Run, InLockStep;
      forall server, events: seq<Event> | Honest(server) && Run(server, events).c.req == n
        ensures InLockStep(Run(server, events))
      {
        FewRequestsInLockStep(server, events);
      }
    }
  }

  lemma FewRequestsInLockStep(server: Server, events: seq<Event>)
    requires Honest(server) && Run(server, events).c.req <= PORTS
    ensures InLockStep(Run(server, events))
  {
    hide Run;
    var s := Run(server, events);
    forall t: nat | t < |s.w.sessions| && Sole(s, t)
      ensures s.w.sessions[t].cur == s.c.prevblock || s.w.sessions[t].cur == s.c.prevblock + 1
    {
      TwoPartyLockStep(server, events, s, t);
    }
  }

  /** A new request whose transfer starts with data block 1. */
  lemma OpenAnother(server: Server, before: seq<Event>) returns (events: seq<Event>)
    requires server.opts == []
    ensures var s, s' := Run(server, before), Run(server, events);
      && s'.c == Fresh(s.c).(tp := Rrq)
      && s'.w.sessions == s.w.sessions + [Session(s.c.req + 1, 1, true)]
      && |s'.w.down| == |s.w.down| + 1 && s'.w.down[..|s.w.down|] == s.w.down
  {
    RunSnoc(server, before, Open(false));
    var next := before + [Open(false)];
    var k := |Run(server, before).w.up|;
    assert Run(server, next).w.up[k] == Up(Run(server, before).c.req + 1, Listener, Rrq);
    RunSnoc(server, next, Net(Serve(k)));
    events := next + [Net(Serve(k))];
  }

  lemma TakeTwo(server: Server, before: seq<Event>) returns (events: seq<Event>)
    requires var s := Run(server, before);
      && s.c.prevblock == s.c.bcounter == 0 && s.c.packetsize == DEFAULTSIZE
      && |s.w.down| >= 2 && Port(s.w.down[0].req) == Port(s.w.down[1].req) == Port(s.c.req)
      && s.w.down[0].msg.Data? && s.w.down[0].msg.block == 1 && |s.w.down[0].msg.payload| <= DEFAULTSIZE
      && s.w.down[1].msg.Data? && s.w.down[1].msg.block == 2 && |s.w.down[1].msg.payload| <= DEFAULTSIZE
    ensures Run(server, events).w == Run(server, before).w
    ensures Run(server, events).c.req == Run(server, before).c.req && Run(server, events).c.prevblock == 2
  {
    RunSnoc(server, before, Handle(0, false, true));
    var next := before + [Handle(0, false, true)];
    RunSnoc(server, next, Handle(1, false, true));
    events := next + [Handle(1, false, true)];
  }
}
