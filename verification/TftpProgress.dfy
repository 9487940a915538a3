/** That the client can succeed: conversations in which nothing is lost, as scripts, and what
    buf_fill makes of them. */
module TftpProgress {
  import opened Basics
  import opened TftpProtocol
  import opened TftpSafety

  // ---------------------------------------------------------------- what 16-bit block numbers reach

  /** The number of blocks behind block n: up to and including the short one, or block 65535. */
  function Left(s: Server, n: nat): (k: nat)
    requires s.blksize > 0 && n <= LAST_BLOCK
    ensures n + k <= LAST_BLOCK && (n < LAST_BLOCK ==> k > 0)
    decreases LAST_BLOCK - n
  {
    if n == LAST_BLOCK then 0 else if |Block(s, n + 1)| < s.blksize then 1 else 1 + Left(s, n + 1)
  }

  /** The short block of the file has a 16-bit number. */
  predicate Within(s: Server) {
    |s.file| < LAST_BLOCK * s.blksize
  }

  /** Behind a full block n the file goes on at n times the block size. */
  lemma {:induction false} FullBlockAt(s: Server, n: nat)
    requires n > 0 && |Block(s, n)| == s.blksize > 0
    ensures Pos(s, n) == n * s.blksize <= |s.file|
  {
    PosInFile(s, n - 1);
    if n > 1 {
      ShortBlockIsLast(s, n - 1);
      FullBlockAt(s, n - 1);
    }
    NextMultiple(n, s.blksize);
  }

  lemma NextMultiple(n: nat, b: nat)
    requires n > 0
    ensures n * b == (n - 1) * b + b
  {
  }

  /** A file is within the reach of 16-bit block numbers if and only if block 65535 is not full. */
  lemma WithinReach(s: Server)
    requires s.blksize > 0
    ensures Within(s) <==> |Block(s, LAST_BLOCK)| < s.blksize
    ensures !Within(s) ==> Pos(s, LAST_BLOCK) == LAST_BLOCK * s.blksize
  {
    ShortBlockIsLast(s, LAST_BLOCK);
    if |Block(s, LAST_BLOCK)| < s.blksize {
      ShortBlockWithinReach(s, LAST_BLOCK);
    } else {
      FullBlockAt(s, LAST_BLOCK);
    }
  }

  lemma Monotonic(i: nat, j: nat, b: nat)
    requires i <= j
    ensures i * b <= j * b
  {
    assert j * b == i * b + (j - i) * b;
  }

  lemma {:induction false} PosBound(s: Server, n: nat)
    ensures Pos(s, n) <= n * s.blksize
  {
    if n > 0 { PosBound(s, n - 1); }
  }

  /** A file whose short block has a 16-bit number is shorter than 65535 blocks. */
  lemma ShortBlockWithinReach(s: Server, n: nat)
    requires 0 < n <= LAST_BLOCK && Pos(s, n) == |s.file| && |Block(s, n)| < s.blksize
    ensures Within(s)
  {
    PosInFile(s, n - 1);
    assert |Block(s, n)| == |s.file| - Pos(s, n - 1);
    PosBound(s, n - 1);
    hide Pos, Block;
    Below(Pos(s, n - 1), |s.file|, n, s.blksize);
  }

  lemma Below(from: nat, to: nat, n: nat, b: nat)
    requires 0 < n <= LAST_BLOCK && from <= (n - 1) * b && to - from < b
    ensures to < LAST_BLOCK * b
  {
    Monotonic(n, LAST_BLOCK, b);
    NextMultiple(n, b);
  }

  lemma {:induction false} PosMonotonic(s: Server, i: nat, j: nat)
    requires i <= j
    ensures Pos(s, i) <= Pos(s, j)
    decreases j
  {
    if i < j {
      PosMonotonic(s, i, j - 1);
      PosInFile(s, j - 1);
    }
  }

  // ---------------------------------------------------------------- whether the buffer can be filled

  /** The offset in the file of the first byte in the buffer, had it never been moved. */
  function Origin(s: Server, c: Client): int {
    Pos(s, c.prevblock) - |c.window|
  }

  /** A buffer that starts at origin can be filled, or the file ends before that. */
  predicate Fillable(s: Server, origin: int) {
    Within(s) || origin + BUFLEN < Pos(s, LAST_BLOCK) + s.blksize
  }

  /** The file's first bytes up to e can be read even if every read fills the buffer as far as it goes. */
  predicate Reachable(s: Server, e: nat) {
    e <= |s.file| && (Within(s) || e + BUFLEN <= Pos(s, LAST_BLOCK) + s.blksize)
  }

  /** buf_fill succeeds only if that is so, whatever the network does. */
  lemma FillNeedsFillable(c: Client, w: World)
    requires Core(c, w) && c.req > 0 && w.server.blksize >= DEFAULTSIZE
    requires EofOk(c, w.server) && |c.window| <= BUFLEN && Fill(c, w, false).ok
    ensures Fillable(w.server, Origin(w.server, c))
  {
    FillKeeps(c, w, false);
    var c' := Fill(c, w, false).c;
    var s := w.server;
    hide Fill, Within, Pos, Block;
    if c'.eof {
      ShortBlockWithinReach(s, c'.prevblock);
    } else {
      PosMonotonic(s, c'.prevblock, LAST_BLOCK);
    }
  }

  // ---------------------------------------------------------------- conversations without losses

  /** n exchanges: the server gets the client's packet and the client gets the answer. Packet u is
      the client's, packet d the server's next one. */
  function Exchanges(u: nat, d: nat, n: nat): seq<Move>
    decreases n
  {
    if n == 0 then [] else [Serve(u), Deliver(d)] + Exchanges(u + 1, d + 1, n - 1)
  }

  /** Exchanges of a whole transfer. */
  function Total(s: Server): (n: nat)
    requires s.blksize > 0
    ensures n > 0
  {
    Left(s, 0) + if s.opts == [] then 0 else 1
  }

  /** What is left of the script after a transfer, and how many packets will have been sent by then. */
  datatype Plan = Plan(rest: seq<Move>, up: nat, down: nat)

  ghost predicate Willing(s: Server) {
    Honest(s) && s.blksize >= DEFAULTSIZE
  }

  ghost predicate HasRoute(script: seq<Move>) {
    script == [] || !script[0].NoRoute?
  }

  /** n exchanges are to come, beginning with the packet sent last. */
  ghost predicate Due(w: World, p: Plan, n: nat) {
    && |w.up| > 0 && w.script == Exchanges(|w.up| - 1, |w.down|, n) + p.rest
    && p.up == |w.up| + n && p.down == |w.down| + n && HasRoute(p.rest)
  }

  /** The request is on its way. */
  ghost predicate Asked(c: Client, w: World, p: Plan)
    requires w.server.blksize > 0
  {
    && Due(w, p, Total(w.server)) && w.up[|w.up| - 1] == Up(c.req, Listener, Rrq)
    && c.prevblock == c.bcounter == c.block == 0 && !c.eof
    && (c.packetsize == DEFAULTSIZE || c.packetsize == w.server.blksize)
  }

  /** The acknowledgement of the last block stored, or of the options, is on its way. */
  ghost predicate Acknowledged(c: Client, w: World, p: Plan)
    requires w.server.blksize > 0
  {
    && c.prevblock <= LAST_BLOCK && Due(w, p, Left(w.server, c.prevblock))
    && var last := w.up[|w.up| - 1];
    && last.dest.Tid? && last == Up(c.req, last.dest, Ack(c.prevblock))
    && last.dest.tid < |w.sessions| && w.sessions[last.dest.tid] == Session(c.req, c.prevblock, true)
    && c.prevblock == c.bcounter == c.block && !c.eof && c.packetsize == w.server.blksize
    && (c.prevblock > 0 ==> |Block(w.server, c.prevblock)| == w.server.blksize)
    && (Announces(w.server) ==> c.filemax == |w.server.file|)
  }

  /** All of the file has come. */
  ghost predicate Finished(c: Client, w: World, p: Plan) {
    && Due(w, p, 0) && c.eof
    && (Announces(w.server) ==> c.filemax == |w.server.file|)
  }

  /** The transfer has begun and goes on without losses. */
  ghost predicate Obliged(c: Client, w: World, p: Plan) {
    Willing(w.server) && (Acknowledged(c, w, p) || Finished(c, w, p))
  }

  // ---------------------------------------------------------------- one exchange

  lemma ExchangesFront(u: nat, d: nat, n: nat, rest: seq<Move>)
    requires n > 0
    ensures Exchanges(u, d, n) + rest == [Serve(u), Deliver(d)] + (Exchanges(u + 1, d + 1, n - 1) + rest)
  {
  }

  lemma StillHasRoute(u: nat, d: nat, n: nat, rest: seq<Move>)
    requires HasRoute(rest)
    ensures HasRoute(Exchanges(u, d, n) + rest)
  {
    if n == 0 { assert [] + rest == rest; }
  }

  /** What the server's answer to the k-th packet leaves, once it is the script's turn. */
  function Served(w: World, u: nat, more: seq<Move>): World {
    Background(w, Serve(u)).(script := more)
  }

  lemma AcceptIsAside(w: World, req: nat, script: seq<Move>)
    ensures Accept(w.(script := script), req) == Accept(w, req).(script := script)
  {
    hide Current;
  }

  lemma AckedIsAside(w: World, t: nat, script: seq<Move>)
    requires t < |w.sessions|
    ensures Acked(w.(script := script), t) == Acked(w, t).(script := script)
  {
    hide Current, Block;
  }

  lemma GettingIsAside(w: World, u: Up, script: seq<Move>)
    ensures ServerGets(w.(script := script), u) == ServerGets(w, u).(script := script)
  {
    AcceptIsAside(w, u.req, script);
    if u.dest.Tid? && u.dest.tid < |w.sessions| {
      AckedIsAside(w, u.dest.tid, script);
    }
    hide Accept, Acked, Port;
  }

  /** What the server does with a packet does not depend on the script. */
  lemma ScriptIsAside(w: World, u: nat, script: seq<Move>)
    ensures Background(w.(script := script), Serve(u)) == Background(w, Serve(u)).(script := script)
  {
    if u < |w.up| {
      GettingIsAside(w, w.up[u], script);
    }
    hide ServerGets;
  }

  lemma AwaitExchange(w: World, req: nat, u: nat, d: nat, more: seq<Move>)
    requires w.script == [Serve(u), Deliver(d)] + more
    requires var w1 := Served(w, u, more); d < |w1.down| && Port(w1.down[d].req) == Port(req)
    ensures Await(w, req) == (Served(w, u, more), Got(Served(w, u, more).down[d]))
  {
    var script := [Deliver(d)] + more;
    assert w.script[0] == Serve(u) && w.script[1..] == script && script[1..] == more;
    ScriptIsAside(w, u, script);
    hide Background;
    var w1 := Background(w, Serve(u)).(script := script);
    assert Await(w1, req) == (w1.(script := more), Got(w1.down[d]));
  }

  /** The client deals with packet d by becoming c' and sending u. */
  ghost predicate Handles(c: Client, d: Down, c': Client, u: Up) {
    React(c, d, false) == Reaction(c', Some(u), Continue)
  }

  function Replied(w1: World, u: Up): World {
    w1.(up := w1.up + [u])
  }

  /** One turn of buf_fill in such a conversation. */
  lemma FillExchange(c: Client, w: World, u0: nat, d: nat, more: seq<Move>, w1: World, c': Client, u: Up)
    requires w.script == [Serve(u0), Deliver(d)] + more && HasRoute(more) && !Full(c)
    requires w1 == Served(w, u0, more) && d < |w1.down| && Port(w1.down[d].req) == Port(c.req)
    requires Handles(c, w1.down[d], c', u)
    ensures Fill(c, w, false) == Fill(c', Replied(w1, u), false)
  {
    AwaitExchange(w, c.req, u0, d, more);
    assert w1.script == more;
    hide Await, React, Served, Port;
    assert Transmit(w1, u) == (Replied(w1, u), true);
    assert Fill(c, w, false) == FillPacket(c, w1, w1.down[d], false);
  }

  /** The script goes on: one exchange less is due once both packets have been sent. */
  lemma DueStep(w: World, p: Plan, n: nat, more: seq<Move>, w': World)
    requires Due(w, p, n) && n > 0 && more == Exchanges(|w.up|, |w.down| + 1, n - 1) + p.rest
    requires w'.script == more && |w'.up| == |w.up| + 1 && |w'.down| == |w.down| + 1
    ensures Due(w', p, n - 1)
    ensures w.script == [Serve(|w.up| - 1), Deliver(|w.down|)] + more && HasRoute(more) && |more| < |w.script|
  {
    ExchangesFront(|w.up| - 1, |w.down|, n, p.rest);
    StillHasRoute(|w.up|, |w.down| + 1, n - 1, p.rest);
  }

  /** The client's answer to an honest option acknowledgement. */
  lemma TakeOack(s: Server, c: Client, t: nat)
    requires Honest(s) && s.blksize >= DEFAULTSIZE && s.opts != []
    requires c.prevblock == c.bcounter == 0 && (c.packetsize == DEFAULTSIZE || c.packetsize == s.blksize)
    ensures var r := React(c, Down(c.req, t, Oack(s.opts)), false);
      var f := ReadOptions(s.opts, c.packetsize, c.filemax).filemax;
      && r == Reaction(c.(packetsize := s.blksize, filemax := f, block := 0, tp := Ack(0), oport := t),
                       Some(Up(c.req, Tid(t), Ack(0))), Continue)
      && (Announces(s) ==> f == |s.file|)
  {
    OptionsRead(s, s.opts, c.packetsize, c.filemax);
    hide ReadOptions;
  }

  /** The state behind the exchange that brings block b. */
  lemma Stored(c: Client, w: World, p: Plan, t: nat, b: nat)
    requires Willing(w.server) && 0 < b <= LAST_BLOCK && |w.up| > 0 && Due(w, p, Left(w.server, b - 1) - 1)
    requires w.up[|w.up| - 1] == Up(c.req, Tid(t), Ack(b))
    requires t < |w.sessions| && w.sessions[t] == Session(c.req, b, true)
    requires c.prevblock == c.bcounter == c.block == b && c.packetsize == w.server.blksize
    requires c.eof <==> |Block(w.server, b)| < w.server.blksize
    requires Announces(w.server) ==> c.filemax == |w.server.file|
    ensures Acknowledged(c, w, p) || Finished(c, w, p)
  {
    ShortBlockIsLast(w.server, b);
    hide Due, Block;
  }

  /** The world in which the server has answered the packet sent last, with n - 1 more exchanges to
      come. */
  function After(w: World, p: Plan, n: nat): World
    requires |w.up| > 0 && n > 0
  {
    Served(w, |w.up| - 1, Exchanges(|w.up|, |w.down| + 1, n - 1) + p.rest)
  }

  /** w1 is that world; the answer is d. */
  ghost predicate Ready(w: World, p: Plan, n: nat, w1: World, d: Down) {
    && |w.up| > 0 && n > 0 && w1 == After(w, p, n)
    && w1.server == w.server && w1.up == w.up && w1.down == w.down + [d]
    && w1.script == Exchanges(|w.up|, |w.down| + 1, n - 1) + p.rest
  }

  lemma AnswerIsReady(w: World, p: Plan, n: nat, sessions: seq<Session>, d: Down)
    requires |w.up| > 0 && n > 0
    requires Background(w, Serve(|w.up| - 1)) == w.(sessions := sessions, down := w.down + [d])
    ensures Ready(w, p, n, After(w, p, n), d) && After(w, p, n).sessions == sessions
  {
    hide Background, Exchanges;
  }

  /** The acknowledgement arrives and the next block comes back. */
  lemma Continued(c: Client, w: World, p: Plan)
    requires Willing(w.server) && Acknowledged(c, w, p) && c.prevblock < LAST_BLOCK
    ensures w.up[|w.up| - 1].dest.Tid?
    ensures var n, t, b := Left(w.server, c.prevblock), w.up[|w.up| - 1].dest.tid, c.prevblock + 1;
      var w1 := After(w, p, n);
      && Ready(w, p, n, w1, Down(c.req, t, Data(b, Block(w.server, b))))
      && t < |w1.sessions| && w1.sessions[t] == Session(c.req, b, true)
  {
    hide Block, Ready, After;
    NextServed(w, p, Left(w.server, c.prevblock), w.up[|w.up| - 1].dest.tid);
  }

  lemma NextServed(w: World, p: Plan, n: nat, t: nat)
    requires |w.up| > 0 && n > 0 && t < |w.sessions| && w.sessions[t].open && w.sessions[t].cur < LAST_BLOCK
    requires w.up[|w.up| - 1] == Up(w.sessions[t].req, Tid(t), Ack(w.sessions[t].cur))
    requires w.sessions[t].cur == 0 || |Block(w.server, w.sessions[t].cur)| == w.server.blksize
    ensures var s := w.sessions[t];
      var next := s.(cur := s.cur + 1);
      && Ready(w, p, n, After(w, p, n), Down(s.req, t, Data(next.cur, Block(w.server, next.cur))))
      && After(w, p, n).sessions == w.sessions[t := next]
  {
    ServeAck(w, |w.up| - 1, t);
    hide Background, Block, Ready, After;
    var s := w.sessions[t];
    var d := Down(s.req, t, Data(s.cur + 1, Block(w.server, s.cur + 1)));
    AnswerIsReady(w, p, n, w.sessions[t := s.(cur := s.cur + 1)], d);
  }

  /** The server accepts the request and its first packet arrives. */
  lemma Accepted(c: Client, w: World, p: Plan)
    requires Willing(w.server) && Asked(c, w, p)
    ensures var first, w1 := if w.server.opts == [] then 1 else 0, After(w, p, Total(w.server));
      && Ready(w, p, Total(w.server), w1, Down(c.req, |w.sessions|, Current(w.server, first)))
      && |w1.sessions| == |w.sessions| + 1 && w1.sessions[|w.sessions|] == Session(c.req, first, true)
  {
    var first := if w.server.opts == [] then 1 else 0;
    ServeRequest(w, |w.up| - 1, c.req);
    hide Background, Current, Total, Ready, After, Due;
    AnswerIsReady(w, p, Total(w.server), w.sessions + [Session(c.req, first, true)],
                  Down(c.req, |w.sessions|, Current(w.server, first)));
  }

  /** The exchange as buf_fill sees it, whatever the packet is, as long as the client answers it. */
  lemma Exchanged(c: Client, w: World, p: Plan, n: nat, w1: World, d: Down, c': Client, u: Up)
    requires Due(w, p, n) && Ready(w, p, n, w1, d) && d.req == c.req && !Full(c) && Handles(c, d, c', u)
    ensures var w' := Replied(w1, u);
      Fill(c, w, false) == Fill(c', w', false) && Due(w', p, n - 1) && |w'.script| < |w.script|
  {
    hide Handles, Fill, Exchanges, Served, Full;
    assert w1.down[|w.down|] == d;
    DueStep(w, p, n, w1.script, Replied(w1, u));
    FillExchange(c, w, |w.up| - 1, |w.down|, w1.script, w1, c', u);
  }

  lemma OriginKept(s: Server, c: Client, c': Client)
    requires c'.prevblock == c.prevblock + 1 && c'.window == c.window + Block(s, c'.prevblock)
    ensures Origin(s, c') == Origin(s, c)
  {
    PosInFile(s, c.prevblock);
  }

  /** The client's answer to block b of transfer t. */
  lemma BlockAnswered(c: Client, s: Server, t: nat, b: nat) returns (c': Client)
    requires 0 < s.blksize == c.packetsize && 0 < b <= LAST_BLOCK
    requires c.prevblock == c.bcounter == b - 1 && !c.eof
    ensures Handles(c, Down(c.req, t, Data(b, Block(s, b))), c', Up(c.req, Tid(t), Ack(b)))
    ensures c'.prevblock == c'.bcounter == c'.block == b && (c'.eof <==> |Block(s, b)| < s.blksize)
    ensures c'.req == c.req && c'.packetsize == c.packetsize && c'.filemax == c.filemax
    ensures Origin(s, c') == Origin(s, c)
  {
    ShortBlockIsLast(s, b);
    hide React, Block, Origin;
    TakeBlock(c, t, Block(s, b));
    c' := React(c, Down(c.req, t, Data(b, Block(s, b))), false).c;
    OriginKept(s, c, c');
  }

  /** The state once that answer has been sent. */
  lemma BlockStored(c': Client, w1: World, p: Plan, t: nat, b: nat)
    requires Willing(w1.server) && 0 < b <= LAST_BLOCK
    requires t < |w1.sessions| && w1.sessions[t] == Session(c'.req, b, true)
    requires Due(Replied(w1, Up(c'.req, Tid(t), Ack(b))), p, Left(w1.server, b - 1) - 1)
    requires c'.prevblock == c'.bcounter == c'.block == b && c'.packetsize == w1.server.blksize
    requires c'.eof <==> |Block(w1.server, b)| < w1.server.blksize
    requires Announces(w1.server) ==> c'.filemax == |w1.server.file|
    ensures var w' := Replied(w1, Up(c'.req, Tid(t), Ack(b))); Acknowledged(c', w', p) || Finished(c', w', p)
  {
    hide Due, Left, Block, Honest, Acknowledged, Finished;
    Stored(c', Replied(w1, Up(c'.req, Tid(t), Ack(b))), p, t, b);
  }

  /** The client takes block b of transfer t in such an exchange. */
  lemma BlockExchanged(c: Client, w: World, p: Plan, t: nat, b: nat, w1: World) returns (c': Client, w': World)
    requires Willing(w.server) && 0 < b <= LAST_BLOCK && !Full(c)
    requires Due(w, p, Left(w.server, b - 1))
    requires Ready(w, p, Left(w.server, b - 1), w1, Down(c.req, t, Data(b, Block(w.server, b))))
    requires t < |w1.sessions| && w1.sessions[t] == Session(c.req, b, true)
    requires c.prevblock == c.bcounter == b - 1 && !c.eof && c.packetsize == w.server.blksize
    requires Announces(w.server) ==> c.filemax == |w.server.file|
    ensures Fill(c, w, false) == Fill(c', w', false) && w'.server == w.server && |w'.script| < |w.script|
    ensures Acknowledged(c', w', p) || Finished(c', w', p)
    ensures Origin(w.server, c') == Origin(w.server, c)
  {
    assert w1.server == w.server;
    hide Handles, Fill, Block, Left, Due, Honest, Acknowledged, Finished, Full, After, Exchanges, Ready, Origin;
    c' := BlockAnswered(c, w.server, t, b);
    var u := Up(c.req, Tid(t), Ack(b));
    w' := Replied(w1, u);
    Exchanged(c, w, p, Left(w.server, b - 1), w1, Down(c.req, t, Data(b, Block(w.server, b))), c', u);
    BlockStored(c', w1, p, t, b);
  }

  /** One more block. */
  lemma NextExchange(c: Client, w: World, p: Plan) returns (c': Client, w': World)
    requires Willing(w.server) && Acknowledged(c, w, p) && c.prevblock < LAST_BLOCK && !Full(c)
    ensures Fill(c, w, false) == Fill(c', w', false) && Origin(w.server, c') == Origin(w.server, c)
    ensures w'.server == w.server && |w'.script| < |w.script|
    ensures Acknowledged(c', w', p) || Finished(c', w', p)
  {
    Continued(c, w, p);
    hide Fill, After, Block, Left, Ready, Due, Full;
    c', w' := BlockExchanged(c, w, p, w.up[|w.up| - 1].dest.tid, c.prevblock + 1,
                             After(w, p, Left(w.server, c.prevblock)));
  }

  lemma NoOptions(s: Server)
    requires Honest(s) && s.opts == []
    ensures !Announces(s) && s.blksize == DEFAULTSIZE
    ensures Total(s) == Left(s, 0) && Current(s, 1) == Data(1, Block(s, 1))
  {
  }

  /** The first packet of a transfer without options: block 1. */
  lemma FirstBlock(c: Client, w: World, p: Plan) returns (c': Client, w': World)
    requires Willing(w.server) && Asked(c, w, p) && !Full(c) && w.server.opts == []
    ensures Fill(c, w, false) == Fill(c', w', false) && w'.server == w.server
    ensures Acknowledged(c', w', p) || Finished(c', w', p)
    ensures Origin(w.server, c') == Origin(w.server, c)
  {
    NoOptions(w.server);
    Accepted(c, w, p);
    hide React, Fill, After, Block, Left, Total, Current, Announces, Honest, Ready, Due, Full;
    c', w' := BlockExchanged(c, w, p, |w.sessions|, 1, After(w, p, Total(w.server)));
  }

  /** The first packet of a transfer with options. */
  lemma FirstOptions(c: Client, w: World, p: Plan) returns (c': Client, w': World)
    requires Willing(w.server) && Asked(c, w, p) && !Full(c) && w.server.opts != []
    ensures Fill(c, w, false) == Fill(c', w', false) && w'.server == w.server
    ensures Acknowledged(c', w', p) && Origin(w.server, c') == Origin(w.server, c)
  {
    Accepted(c, w, p);
    TakeOack(w.server, c, |w.sessions|);
    hide React, Fill, After, Block, Left, ReadOptions;
    var w1 := After(w, p, Total(w.server));
    var d, u := Down(c.req, |w.sessions|, Oack(w.server.opts)), Up(c.req, Tid(|w.sessions|), Ack(0));
    c', w' := React(c, d, false).c, Replied(w1, u);
    Exchanged(c, w, p, Total(w.server), w1, d, c', u);
  }

  /** buf_fill succeeds as long as the conversation goes on without losses and the buffer can be
      filled. */
  lemma {:induction false} FillSucceeds(c: Client, w: World, p: Plan)
    requires Obliged(c, w, p) && Fillable(w.server, Origin(w.server, c))
    ensures var f := Fill(c, w, false);
      f.ok && f.w.server == w.server && Obliged(f.c, f.w, p)
    decreases |w.script|
  {
    hide Acknowledged, Finished, Willing, FillLate, FillPacket, Await, Fillable, Origin;
    if !Full(c) {
      assert !c.eof;
      NotFinished(c, w, p);
      NotAtEnd(c, w, p);
      var c', w' := NextExchange(c, w, p);
      FillSucceeds(c', w', p);
    }
  }

  lemma NotFinished(c: Client, w: World, p: Plan)
    requires Obliged(c, w, p) && !c.eof
    ensures Acknowledged(c, w, p)
  {
  }

  lemma NotAtEnd(c: Client, w: World, p: Plan)
    requires Willing(w.server) && Acknowledged(c, w, p) && !Full(c) && Fillable(w.server, Origin(w.server, c))
    ensures c.prevblock < LAST_BLOCK
  {
    WithinReach(w.server);
    hide Due, Left, Within, Block, Pos;
  }

  /** As long as nothing is lost, being able to fill the buffer is all that buf_fill needs. */
  lemma SucceedsIffFillable(c: Client, w: World, p: Plan)
    requires Obliged(c, w, p) && Core(c, w) && c.req > 0 && EofOk(c, w.server) && |c.window| <= BUFLEN
    ensures Fill(c, w, false).ok <==> Fillable(w.server, Origin(w.server, c))
  {
    hide Fill, Fillable, Origin, Acknowledged, Finished;
    if Fillable(w.server, Origin(w.server, c)) {
      FillSucceeds(c, w, p);
    } else if Fill(c, w, false).ok {
      FillNeedsFillable(c, w);
    }
  }

  /** So the last bytes below block 65535 of a longer file arrive, but the buffer they are in is never
      full and buf_fill fails. With blocks of 512 bytes this is the buffer that starts at 0x1FF8000. */
  lemma LastBufferFails(c: Client, w: World)
    requires Core(c, w) && c.req > 0 && EofOk(c, w.server) && |c.window| <= BUFLEN
    requires w.server.blksize == DEFAULTSIZE && !Within(w.server) && Origin(w.server, c) >= 0x1FF_8000
    ensures Pos(w.server, LAST_BLOCK) == 0x1FF_8000 + 63 * DEFAULTSIZE
    ensures !Fill(c, w, false).ok
  {
    WithinReach(w.server);
    if Fill(c, w, false).ok { FillNeedsFillable(c, w); }
    hide Fill, Pos, Block, Core;
  }

  lemma FirstFillable(s: Server, origin: int)
    requires s.blksize >= DEFAULTSIZE && origin <= 0
    ensures Fillable(s, origin)
  {
    WithinReach(s);
    Monotonic(1, LAST_BLOCK, s.blksize);
    assert LAST_BLOCK * s.blksize >= LAST_BLOCK * DEFAULTSIZE;
    hide Pos, Block, Within;
  }

  /** At the start of a transfer that is always possible, and buf_fill succeeds. */
  lemma FirstFillSucceeds(c: Client, w: World, p: Plan)
    requires Willing(w.server) && Asked(c, w, p) && !Full(c)
    ensures var f := Fill(c, w, false);
      f.ok && f.w.server == w.server && Obliged(f.c, f.w, p)
  {
    FirstFillable(w.server, Origin(w.server, c));
    hide Acknowledged, Finished, Asked, Fill, Fillable, Origin;
    var c', w';
    if w.server.opts == [] {
      c', w' := FirstBlock(c, w, p);
    } else {
      c', w' := FirstOptions(c, w, p);
    }
    FillSucceeds(c', w', p);
  }

  // ---------------------------------------------------------------- a timeout before the first block

  /** Requests up to number n are all that the server has heard or may hear of. */
  ghost predicate SilentAfter(w: World, n: nat) {
    && (forall s <- w.sessions :: 1 <= s.req <= n)
    && (forall d <- w.down :: 1 <= d.req <= n)
    && (forall u <- w.up :: u.msg.Rrq? ==> 1 <= u.req <= n)
  }

  lemma ToClientIsSilent(w: World, d: Down, n: nat)
    requires SilentAfter(w, n) && 1 <= d.req <= n
    ensures SilentAfter(w.(down := w.down + [d]), n)
  {
  }

  lemma UpdateIsSilent(w: World, t: nat, s: Session, n: nat)
    requires SilentAfter(w, n) && t < |w.sessions| && 1 <= s.req <= n
    ensures SilentAfter(w.(sessions := w.sessions[t := s]), n)
  {
  }

  lemma OpenIsSilent(w: World, s: Session, n: nat)
    requires SilentAfter(w, n) && 1 <= s.req <= n
    ensures SilentAfter(w.(sessions := w.sessions + [s]), n)
  {
  }

  lemma ServeIsSilent(w: World, u: Up, n: nat)
    requires SilentAfter(w, n) && u in w.up
    ensures SilentAfter(ServerGets(w, u), n)
  {
    hide Current, Block;
    if u.dest.Listener? {
      if u.msg.Rrq? {
        var s := Session(u.req, if w.server.opts == [] then 1 else 0, true);
        OpenIsSilent(w, s, n);
        ToClientIsSilent(w.(sessions := w.sessions + [s]),
                         Down(u.req, |w.sessions|, Current(w.server, s.cur)), n);
      }
    } else if u.dest.tid < |w.sessions| && w.sessions[u.dest.tid].open {
      SessionIsSilent(w, u, n);
    }
  }

  lemma SessionIsSilent(w: World, u: Up, n: nat)
    requires SilentAfter(w, n) && u.dest.Tid? && u.dest.tid < |w.sessions| && w.sessions[u.dest.tid].open
    ensures SilentAfter(ServerGets(w, u), n)
  {
    hide Current, Block;
    var t := u.dest.tid;
    var s := w.sessions[t];
    var next := s.(cur := s.cur + 1);
    assert s in w.sessions;
    UpdateIsSilent(w, t, next, n);
    UpdateIsSilent(w, t, s.(open := false), n);
    ToClientIsSilent(w.(sessions := w.sessions[t := next]), Down(s.req, t, Current(w.server, next.cur)), n);
  }

  lemma BackgroundIsSilent(w: World, m: Move, n: nat)
    requires SilentAfter(w, n)
    ensures SilentAfter(Background(w, m), n)
  {
    hide Current, ServerGets;
    if m.Serve? && m.k < |w.up| {
      ServeIsSilent(w, w.up[m.k], n);
    } else if m.Resend? && m.t < |w.sessions| {
      var s := w.sessions[m.t];
      assert s in w.sessions;
      ToClientIsSilent(w, Down(s.req, m.t, Current(w.server, s.cur)), n);
    } else if m.Refuse? && m.k < |w.up| && w.up[m.k].msg.Rrq? {
      ToClientIsSilent(w, Down(w.up[m.k].req, 0, Error), n);
    }
  }

  /** While the server knows of no later request, nothing comes for one. */
  lemma {:induction false} NothingComes(w: World, req: nat, n: nat)
    requires SilentAfter(w, n) && n < req <= PORTS
    ensures var (w1, reply) := Await(w, req); !reply.Got? && SilentAfter(w1, n)
    decreases |w.script|
  {
    if w.script != [] {
      var m, w1 := w.script[0], w.(script := w.script[1..]);
      hide Background, Port;
      if m.Deliver? && m.k < |w.down| {
        assert w.down[m.k] in w.down;
        PortsDistinct(w.down[m.k].req, req);
      }
      if !m.Timeout? {
        BackgroundIsSilent(w1, m, n);
        NothingComes(Background(w1, m), req, n);
      }
    }
  }

  /** What is sent again after a timeout is not a request, and no port comes round before the client
      gives up. */
  ghost predicate Stranded(c: Client) {
    c.block == 0 && !c.tp.Rrq? && !Full(c) && c.req <= PORTS && c.req + MAX_RETRIES - c.retry <= PORTS
  }

  lemma {:induction false} StrandedGivesUp(c: Client, w: World, n: nat)
    requires Stranded(c) && SilentAfter(w, n) && n <= c.req
    ensures !FillLate(c, w, false).ok
    decreases |w.script|, 1
  {
    if c.retry < MAX_RETRIES {
      var u := Up(c.req + 1, Listener, c.tp);
      var (w1, ok) := Transmit(w, u);
      assert forall x <- w1.up :: x in w.up || x == u;
      if ok { StrandedWaits(c.(retry := c.retry + 1, req := c.req + 1), w1, n); }
    }
  }

  lemma {:induction false} StrandedWaits(c: Client, w: World, n: nat)
    requires Stranded(c) && SilentAfter(w, n) && n < c.req
    ensures !Fill(c, w, false).ok
    decreases |w.script|, 0
  {
    NothingComes(w, c.req, n);
    var (w1, reply) := Await(w, c.req);
    if reply.TimedOut? { StrandedGivesUp(c, w1, n); }
  }

  lemma CoreIsSilent(c: Client, w: World)
    requires Core(c, w)
    ensures SilentAfter(w, c.req)
  {
  }

  /** A timeout before the first block leaves the client with a chance if and only if the packet it
      sends again is the request: then some script makes buf_fill succeed. Once options have been
      acknowledged it is ACK 0, sent from a port the server knows nothing of. */
  lemma RepeatingSucceedsIffRequest(c: Client, w: World)
    requires Core(c, w) && c.req > 0 && w.server.blksize >= DEFAULTSIZE
    requires c.block == 0 && c.retry < MAX_RETRIES && !Full(c) && c.req + MAX_RETRIES - c.retry <= PORTS
    ensures (exists script :: FillLate(c, w.(script := script), false).ok) <==> c.tp == Rrq
  {
    if c.tp == Rrq {
      RequestHelps(c, w);
    } else {
      CoreIsSilent(c, w);
      forall script: seq<Move>
        ensures !FillLate(c, w.(script := script), false).ok
      {
        assert SilentAfter(w.(script := script), c.req);
        StrandedGivesUp(c, w.(script := script), c.req);
      }
    }
  }

  lemma RequestHelps(c: Client, w: World)
    requires Core(c, w) && c.req > 0 && w.server.blksize >= DEFAULTSIZE
    requires c.block == 0 && c.retry < MAX_RETRIES && !Full(c) && c.tp == Rrq
    ensures exists script :: FillLate(c, w.(script := script), false).ok
  {
    var n := Total(w.server);
    var script := Exchanges(|w.up|, |w.down|, n);
    var c1 := c.(retry := c.retry + 1, req := c.req + 1);
    var w1 := w.(script := script, up := w.up + [Up(c.req + 1, Listener, Rrq)]);
    var p := Plan([], |w1.up| + n, |w1.down| + n);
    assert script + [] == script;
    hide Exchanges, Total, Fill, Full, Core, FillLate;
    assert Asked(c1, w1, p);
    RequestRepeated(c, w.(script := script), c1, w1);
    hide Asked;
    FirstFillSucceeds(c1, w1, p);
    assert FillLate(c, w.(script := script), false).ok;
  }

  lemma RequestRepeated(c: Client, w: World, c1: Client, w1: World)
    requires c.block == 0 && c.retry < MAX_RETRIES && c.tp == Rrq && HasRoute(w.script)
    requires c1 == c.(retry := c.retry + 1, req := c.req + 1)
    requires w1 == w.(up := w.up + [Up(c.req + 1, Listener, Rrq)])
    ensures FillLate(c, w, false) == Fill(c1, w1, false)
  {
    hide Fill, Full;
  }

  /** With the simplest script: the server acknowledges the options, and then a packet takes too long.
      Whatever comes after that, the file is not opened. */
  lemma TimeoutAfterOptions(server: Server, rest: seq<Move>)
    requires Willing(server) && server.opts != []
    ensures var c := Fresh(Boot()).(tp := Rrq);
      var w := World(server, [], [], [Up(1, Listener, Rrq)], [Serve(0), Deliver(0), Timeout] + rest);
      !Fill(c, w, false).ok
  {
    var c, more := Fresh(Boot()).(tp := Rrq), [Timeout] + rest;
    var w := World(server, [], [], [Up(1, Listener, Rrq)], [Serve(0), Deliver(0), Timeout] + rest);
    assert w.script == [Serve(0), Deliver(0)] + more;
    ServeRequest(w, 0, 1);
    var w1 := Served(w, 0, more);
    TakeOack(server, c, 0);
    assert w1.down == [Down(1, 0, Oack(server.opts))];
    var c', u := React(c, w1.down[0], false).c, Up(1, Tid(0), Ack(0));
    var w' := Replied(w1, u);
    FillExchange(c, w, 0, 0, more, w1, c', u);
    assert w'.script == more && more[0] == Timeout && more[1..] == rest;
    hide React, Served, Background;
    assert Await(w', 1) == (w'.(script := rest), TimedOut);
    StrandedGivesUp(c', w'.(script := rest), 1);
  }

  // ---------------------------------------------------------------- requests that come to nothing

  /** The first request of a client just started, on its way. */
  function FirstRequest(server: Server, script: seq<Move>): World {
    World(server, [], [], [Up(1, Listener, Rrq)], script)
  }

  function FirstClient(): Client {
    Fresh(Boot()).(tp := Rrq)
  }

  /** A request that is answered with an error fails. */
  lemma Refused(c: Client, w: World, k: nat, rest: seq<Move>)
    requires k < |w.up| && w.up[k] == Up(c.req, Listener, Rrq) && !Full(c)
    requires w.script == [Refuse(k), Deliver(|w.down|)] + rest
    ensures !Fill(c, w, false).ok
  {
    var more := [Deliver(|w.down|)] + rest;
    var d := Down(c.req, 0, Error);
    assert w.script[0] == Refuse(k) && w.script[1..] == more && more[1..] == rest;
    var w1 := w.(script := more, down := w.down + [d]);
    assert Background(w.(script := more), Refuse(k)) == w1;
    hide Background, Full;
    assert Await(w1, c.req) == (w1.(script := rest), Got(d));
    assert Await(w, c.req) == Await(w1, c.req);
  }

  /** So does one to a server that insists on blocks below 512 bytes. */
  lemma SmallBlocksFail(c: Client, w: World)
    requires Core(c, w) && c.req > 0 && EofOk(c, w.server) && c.window == [] && w.server.blksize < DEFAULTSIZE
    ensures !Fill(c, w, false).ok
  {
    FillKeeps(c, w, false);
    hide Fill;
  }

  /** A first request can succeed if and only if the server's blocks have at least 512 bytes. */
  lemma OpensIffLargeBlocks(server: Server)
    requires Honest(server)
    ensures (exists script :: Fill(FirstClient(), FirstRequest(server, script), false).ok) <==> server.blksize >= 512
  {
    if server.blksize >= 512 {
      var script := Timeouts(0) + Exchanges(0, 0, Total(server));
      var w := FirstRequest(server, script);
      assert w.script == Patient(w, 0);
      TimeoutsSurvived(Boot().(tp := Rrq), w, 0);
      assert FirstClient() == Fresh(Boot().(tp := Rrq));
    } else {
      forall script: seq<Move>
        ensures !Fill(FirstClient(), FirstRequest(server, script), false).ok
      {
        SmallBlocksFail(FirstClient(), FirstRequest(server, script));
      }
    }
  }

  function Timeouts(k: nat): seq<Move> {
    seq(k, _ => Timeout)
  }

  /** The script in which k timeouts come before the exchanges of the transfer. */
  function Patient(w: World, k: nat): seq<Move>
    requires w.server.blksize > 0 && |w.up| > 0
  {
    Timeouts(k) + Exchanges(|w.up| - 1 + k, |w.down|, Total(w.server))
  }

  lemma TimeoutTurn(c: Client, w: World, script: seq<Move>)
    requires c.block == 0 && !Full(c) && c.tp == Rrq && w.script == [Timeout] + script && HasRoute(script)
    ensures Fill(c, w, false) == FillLate(c, w.(script := script), false)
    ensures c.retry < MAX_RETRIES ==>
      var c1 := c.(retry := c.retry + 1, req := c.req + 1);
      Fill(c, w, false) == Fill(c1, w.(script := script, up := w.up + [Up(c1.req, Listener, Rrq)]), false)
  {
    assert w.script[0] == Timeout && w.script[1..] == script;
    assert Await(w, c.req) == (w.(script := script), TimedOut);
    hide Full;
    if c.retry < MAX_RETRIES {
      RequestRepeated(c, w.(script := script), c.(retry := c.retry + 1, req := c.req + 1),
                      w.(script := script, up := w.up + [Up(c.req + 1, Listener, Rrq)]));
    }
  }

  lemma PatientRoute(w: World, k: nat)
    requires w.server.blksize > 0 && |w.up| > 0
    ensures HasRoute(Patient(w, k))
    ensures k > 0 ==>
      Patient(w, k) == [Timeout] + (Timeouts(k - 1) + Exchanges(|w.up| - 1 + k, |w.down|, Total(w.server)))
  {
    TimeoutsFront(k);
    hide Timeouts, Exchanges, Total;
    var s := Exchanges(|w.up| - 1 + k, |w.down|, Total(w.server));
    if k > 0 {
      Associative([Timeout], Timeouts(k - 1), s);
    } else {
      assert [] + s == s;
      StillHasRoute(|w.up| - 1 + k, |w.down|, Total(w.server), []);
      assert s + [] == s;
    }
  }

  lemma TimeoutsFront(k: nat)
    ensures Timeouts(k) == if k == 0 then [] else [Timeout] + Timeouts(k - 1)
  {
  }

  lemma {:induction false} TimeoutsThenAnswer(c: Client, w: World, k: nat)
    requires Willing(w.server) && |w.up| > 0 && w.up[|w.up| - 1] == Up(c.req, Listener, Rrq)
    requires w.script == Patient(w, k) && c.tp == Rrq && !Full(c) && c.retry <= MAX_RETRIES
    requires c.prevblock == c.bcounter == c.block == 0 && c.packetsize == DEFAULTSIZE
    ensures Fill(c, w, false).ok <==> c.retry + k <= MAX_RETRIES
    decreases k
  {
    PatientRoute(w, k);
    if k == 0 {
      var n := Total(w.server);
      assert w.script == Exchanges(|w.up| - 1, |w.down|, n) + [];
      FirstFillSucceeds(c, w, Plan([], |w.up| + n, |w.down| + n));
    } else {
      var script := Timeouts(k - 1) + Exchanges(|w.up| - 1 + k, |w.down|, Total(w.server));
      var c1 := c.(retry := c.retry + 1, req := c.req + 1);
      var w1 := w.(script := script, up := w.up + [Up(c.req + 1, Listener, Rrq)]);
      assert script == Patient(w1, k - 1);
      PatientRoute(w1, k - 1);
      hide Fill, Full, Exchanges, Total, Timeouts, Patient, HasRoute;
      TimeoutTurn(c, w, script);
      if c.retry < MAX_RETRIES { TimeoutsThenAnswer(c1, w1, k - 1); }
    }
  }

  /** If the server is slow, buf_fill survives up to 20 timeouts behind a request, and not one more, no
      matter what has happened before that request. */
  lemma TimeoutsSurvived(c: Client, w: World, k: nat)
    requires Willing(w.server) && |w.up| > 0 && w.up[|w.up| - 1] == Up(Fresh(c).req, Listener, Rrq)
    requires w.script == Patient(w, k) && c.tp == Rrq
    ensures Fill(Fresh(c), w, false).ok <==> k <= 20
  {
    TimeoutsThenAnswer(Fresh(c), w, k);
  }

  // ---------------------------------------------------------------- plans

  /** The exchanges of a whole transfer are to come, once it is asked for. */
  ghost predicate Planned(w: World, p: Plan) {
    && Willing(w.server) && HasRoute(p.rest)
    && w.script == Exchanges(|w.up|, |w.down|, Total(w.server)) + p.rest
    && p.up == |w.up| + 1 + Total(w.server) && p.down == |w.down| + Total(w.server)
  }

  lemma PlannedRequest(c: Client, w: World, p: Plan)
    requires Planned(w, p) && c.tp == Rrq
    ensures var c' := Fresh(c);
      var (w', ok) := Transmit(w, Up(c'.req, Listener, Rrq));
      ok && Asked(c', w', p) && !Full(c')
  {
    StillHasRoute(|w.up|, |w.down|, Total(w.server), p.rest);
    hide Exchanges, Total;
  }

  /** The plan of a transfer with the one of p behind it. */
  function Before(s: Server, p: Plan): Plan
    requires s.blksize > 0 && p.up > Total(s) && p.down >= Total(s)
  {
    var n := Total(s);
    var up, down := p.up - 1 - n, p.down - n;
    Plan(Exchanges(up, down, n) + p.rest, up, down)
  }

  lemma PlannedNext(c: Client, w: World, p: Plan)
    requires Willing(w.server) && p.up > Total(w.server) && p.down >= Total(w.server) && HasRoute(p.rest)
    requires Obliged(c, w, Before(w.server, p)) && c.eof
    ensures Planned(w, p)
  {
    hide Total;
    assert Exchanges(|w.up| - 1, |w.down|, 0) + Before(w.server, p).rest == Before(w.server, p).rest;
  }

  /** q is the plan of a first transfer, of a file whose size is not announced, and p that of the next. */
  ghost predicate PlansBoth(s: Server, q: Plan, p: Plan) {
    && Willing(s) && !Announces(s) && Within(s) && p.up > Total(s) && p.down >= Total(s) && HasRoute(p.rest)
    && q == Before(s, p)
  }

  /** What opening the file takes: one transfer, and if its size is not announced another one before. */
  ghost predicate PlannedOpen(w: World, p: Plan) {
    && Willing(w.server) && p.up > Total(w.server) && p.down >= Total(w.server) && HasRoute(p.rest)
    && (Announces(w.server) || Within(w.server))
    && Planned(w, if Announces(w.server) then p else Before(w.server, p))
  }

  // ---------------------------------------------------------------- reopening

  /** What abandoning the transfer under way leaves. */
  function Abandoned(c: Client, w: World): World {
    Fill(c.(window := []), w, true).w
  }

  /** Once the transfer under way is abandoned, another one of the same file goes on without losses. */
  ghost predicate PlannedAgain(c: Client, w: World, p: Plan) {
    Planned(Abandoned(c, w), p)
  }

  /** The request that follows the abandoning cannot be sent. */
  ghost predicate RequestLost(c: Client, w: World) {
    !HasRoute(Abandoned(c, w).script)
  }

  /** A finished transfer is abandoned without a packet. */
  lemma AbandonFinished(c: Client, w: World)
    requires c.eof
    ensures Abandoned(c, w) == w
  {
  }

  /** One that a block has come from is given up on a timeout. */
  lemma AbandonLate(c: Client, w: World, script: seq<Move>)
    requires !c.eof && c.block != 0 && c.packetsize <= BUFLEN && w.script == [Timeout] + script
    ensures Abandoned(c, w) == w.(script := script)
  {
    var c0 := c.(window := []);
    assert w.script[0] == Timeout && w.script[1..] == script;
    assert Await(w, c0.req) == (w.(script := script), TimedOut);
    assert !Full(c0);
    assert Fill(c0, w, true) == FillLate(c0, w.(script := script), true);
  }

  /** If its next block arrives instead, the server is told off. */
  lemma AbandonByBlock(c: Client, w: World, p: Plan, more: seq<Move>)
    requires Willing(w.server) && Acknowledged(c, w, p) && c.prevblock < LAST_BLOCK && HasRoute(more)
    ensures var w' := w.(script := [Serve(|w.up| - 1), Deliver(|w.down|)] + more);
      var a, t := Abandoned(c, w'), w.up[|w.up| - 1].dest.tid;
      && a.script == more && a.up == w.up + [Up(c.req, Tid(t), Error)] && |a.down| == |w.down| + 1
  {
    var u0 := |w.up| - 1;
    var t := w.up[u0].dest.tid;
    var w' := w.(script := [Serve(u0), Deliver(|w.down|)] + more);
    ServeAck(w, u0, t);
    ScriptIsAside(w, u0, w'.script);
    var w1 := Served(w', u0, more);
    var d := Down(c.req, t, Data(c.prevblock + 1, Block(w.server, c.prevblock + 1)));
    assert w1.down == w.down + [d] && w1.script == more && w1.up == w.up;
    ShortBlockIsLast(w.server, c.prevblock + 1);
    hide Background, Served, Due, Left, Block;
    var c0 := c.(window := []);
    AwaitExchange(w', c.req, u0, |w.down|, more);
    var r := React(c0, d, true);
    assert r.sent == Some(Up(c.req, Tid(t), Error)) && r.flow == Return(true);
    assert !Full(c0);
    hide React, Full;
    assert Fill(c0, w', true) == FillPacket(c0, w1, d, true);
  }

  /** A continuation with which a file that has delivered a block can be opened again. */
  function ReopeningScript(eof: bool, w: World): seq<Move>
    requires w.server.blksize > 0
  {
    (if eof then [] else [Timeout]) + Exchanges(|w.up|, |w.down|, Total(w.server))
  }

  function ReopeningPlan(w: World): Plan
    requires w.server.blksize > 0
  {
    Plan([], |w.up| + 1 + Total(w.server), |w.down| + Total(w.server))
  }

  lemma ReopeningIsPlanned(c: Client, w: World)
    requires Willing(w.server) && c.block != 0 && c.packetsize <= BUFLEN
    ensures PlannedAgain(c, w.(script := ReopeningScript(c.eof, w)), ReopeningPlan(w))
  {
    var script := Exchanges(|w.up|, |w.down|, Total(w.server));
    var w' := w.(script := ReopeningScript(c.eof, w));
    hide Exchanges, Total, Fill;
    assert script + [] == script && [] + script == script;
    if c.eof {
      AbandonFinished(c, w');
    } else {
      AbandonLate(c, w', script);
    }
  }

  /** What the caller does to the window, and to filemax if nothing is announced, does not matter. */
  lemma ObligedIgnoresCache(c: Client, c': Client, w: World, p: Plan)
    requires Obliged(c, w, p) && c' == c.(window := c'.window, base := c'.base, filemax := c'.filemax)
    requires Announces(w.server) ==> c'.filemax == c.filemax
    ensures Obliged(c', w, p)
  {
    hide Due, Left;
  }

  /** Such a script, for a file opened and read by a client just started. */
  function OpeningScript(s: Server): seq<Move>
    requires s.blksize > 0
  {
    var n := Total(s);
    Exchanges(0, 0, n) + if Opt("tsize", |s.file|) in s.opts then [] else Exchanges(n + 1, n, n)
  }

  function OpeningPlan(s: Server): Plan
    requires s.blksize > 0
  {
    var n := Total(s);
    if Opt("tsize", |s.file|) in s.opts then Plan([], n + 1, n) else Plan([], 2 * n + 2, 2 * n)
  }

  lemma OpeningIsPlanned(s: Server)
    requires Willing(s) && (Announces(s) || Within(s))
    ensures PlannedOpen(World(s, [], [], [], OpeningScript(s)), OpeningPlan(s))
  {
    var n := Total(s);
    assert forall m: seq<Move> :: m + [] == m;
    hide Exchanges, Total;
  }
}
