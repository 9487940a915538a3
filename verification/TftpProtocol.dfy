/** The TFTP conversation behind fsys_tftp.c: an honest server (RFC 1350 with the option
    acknowledgement of RFC 2347), a network that may lose, duplicate, delay and reorder packets,
    and the client's reaction to one packet. Everything here is a value; the class that runs the
    client's loops is in TftpClient.dfy. */
module TftpProtocol {
  import opened Basics

  const DEFAULTSIZE := 512       // TFTP_DEFAULTSIZE_PACKET
  const MAX_PACKET := 1432       // TFTP_MAX_PACKET
  const MAX_RETRIES := 20        // MAX_TFTP_RETRIES
  const BUFLEN := 0x8000         // FSYS_BUFLEN
  const LAST_BLOCK := 0xFFFF     // block numbers are 16 bits wide
  const FIRST_PORT := 2000
  const PORTS := 0x1_0000

  /** One option of an option acknowledgement: its name and the number getdec reads after it. */
  datatype Opt = Opt(name: string, value: int)

  datatype Message =
    | Rrq
    | Data(block: nat, payload: seq<byte>)
    | Ack(block: nat)
    | Error
    | Oack(opts: seq<Opt>)
    | Other

  datatype Dest = Listener | Tid(tid: nat)

  /** A packet of the client's req-th request, sent from Port(req). */
  datatype Up = Up(req: nat, dest: Dest, msg: Message)

  /** A packet of the server's transfer tid, addressed to Port(req). */
  datatype Down = Down(req: nat, tid: nat, msg: Message)

  /** The value of the 16-bit variable iport after req increments. */
  function Port(req: nat): nat {
    (FIRST_PORT + req) % PORTS
  }

  lemma PortsDistinct(i: nat, j: nat)
    requires -PORTS < i - j < PORTS
    ensures Port(i) == Port(j) <==> i == j
  {
  }

  // ---------------------------------------------------------------- server

  datatype Server = Server(file: seq<byte>, blksize: nat, opts: seq<Opt>)

  /** What the server promises: the options it acknowledges are true of the transfer. */
  ghost predicate Honest(s: Server) {
    && 1 <= s.blksize <= MAX_PACKET
    && (forall o <- s.opts :: o == Opt("blksize", s.blksize)
                           || (o == Opt("tsize", |s.file|) && |s.file| < 0x8000_0000))
    && (Opt("blksize", s.blksize) in s.opts || s.blksize == DEFAULTSIZE)
  }

  function Min(a: int, b: int): int { if a < b then a else b }

  /** The file offset just after block n. */
  function Pos(s: Server, n: nat): nat {
    if n == 0 then 0 else Min(Pos(s, n - 1) + s.blksize, |s.file|)
  }

  /** Block n of the file: full, unless it is the last one, which is not full and may be empty. */
  function Block(s: Server, n: nat): seq<byte>
    requires n >= 1
  {
    PosInFile(s, n - 1);
    s.file[Pos(s, n - 1)..Pos(s, n)]
  }

  lemma {:induction false} PosInFile(s: Server, n: nat)
    ensures Pos(s, n) <= |s.file| && Pos(s, n) <= Pos(s, n + 1)
  {
  }

  /** One transfer: cur is the block it keeps sending until acknowledged, 0 for the OACK. */
  datatype Session = Session(req: nat, cur: nat, open: bool)

  datatype Move =
    | Timeout
    | Deliver(k: nat)   // the k-th packet ever sent to the client arrives (again)
    | Serve(k: nat)     // the k-th packet ever sent to the server arrives (again)
    | Resend(t: nat)
    | Refuse(k: nat)
    | NoRoute           // the next udp_transmit fails

  /** up and down hold every packet ever sent: any of them may arrive at any time, any number of
      times or never. The script says what the network and the server do next. */
  datatype World = World(server: Server, sessions: seq<Session>, down: seq<Down>, up: seq<Up>, script: seq<Move>)

  function Current(s: Server, cur: nat): Message
  {
    if cur == 0 then Oack(s.opts) else Data(cur, Block(s, cur))
  }

  function Send(w: World, t: nat): World
    requires t < |w.sessions|
  {
    w.(down := w.down + [Down(w.sessions[t].req, t, Current(w.server, w.sessions[t].cur))])
  }

  /** A read request opens a transfer: its first packet is the OACK if options are acknowledged. */
  function Accept(w: World, req: nat): World {
    var first := if w.server.opts == [] then 1 else 0;
    Send(w.(sessions := w.sessions + [Session(req, first, true)]), |w.sessions|)
  }

  /** DATA n + 1 is sent only after ACK n; a block that is not full ends the transfer, and so does
      block 65535, the last that 16 bits can number. */
  function Acked(w: World, t: nat): World
    requires t < |w.sessions|
  {
    var s := w.sessions[t];
    if (s.cur == 0 || |Block(w.server, s.cur)| == w.server.blksize) && s.cur < LAST_BLOCK then
      Send(w.(sessions := w.sessions[t := s.(cur := s.cur + 1)]), t)
    else
      w.(sessions := w.sessions[t := s.(open := false)])
  }

  function ServerGets(w: World, u: Up): World
  {
    match u.dest
    case Listener => if u.msg.Rrq? then Accept(w, u.req) else w
    case Tid(t) =>
      if t < |w.sessions| && w.sessions[t].open && Port(w.sessions[t].req) == Port(u.req) then
        if u.msg == Ack(w.sessions[t].cur) then Acked(w, t)
        else if u.msg.Error? then w.(sessions := w.sessions[t := w.sessions[t].(open := false)])
        else w
      else w
  }

  /** A step in which the client takes no part. */
  function Background(w: World, m: Move): (w': World)
    ensures w'.server == w.server && w'.script == w.script
  {
    match m
    case Serve(k) => if k < |w.up| then ServerGets(w, w.up[k]) else w
    case Resend(t) => if t < |w.sessions| && w.sessions[t].open then Send(w, t) else w
    case Refuse(k) =>
      if k < |w.up| && w.up[k].msg.Rrq? then w.(down := w.down + [Down(w.up[k].req, 0, Error)]) else w
    case _ => w
  }

  datatype Reply = Got(d: Down) | TimedOut | IpAbort

  /** await_reply (AWAIT_TFTP, iport, ...): the next packet addressed to the current port, or a
      timeout; the end of the script is the user pressing a key. */
  function Await(w: World, req: nat): (r: (World, Reply))
    ensures r.0.server == w.server
    ensures |r.0.script| <= |w.script|
    ensures r.1.IpAbort? || |r.0.script| < |w.script|
    decreases |w.script|
  {
    if w.script == [] then (w, IpAbort)
    else
      var m, w1 := w.script[0], w.(script := w.script[1..]);
      if m.Timeout? then (w1, TimedOut)
      else if m.Deliver? && m.k < |w.down| && Port(w.down[m.k].req) == Port(req) then (w1, Got(w.down[m.k]))
      else Await(Background(w1, m), req)
  }

  function Transmit(w: World, u: Up): (r: (World, bool))
    ensures r.0.server == w.server && |r.0.script| <= |w.script|
  {
    if w.script != [] && w.script[0].NoRoute? then (w.(script := w.script[1..]), false)
    else (w.(up := w.up + [u]), true)
  }

  // ---------------------------------------------------------------- client

  /** The static variables of fsys_tftp.c. window is buf[0..buf_read), base is saved_filepos. */
  datatype Client = Client(req: nat, oport: nat, block: nat, prevblock: nat, bcounter: nat,
                           packetsize: int, retry: nat, eof: bool, window: seq<byte>, base: nat,
                           filemax: int, tp: Message)

  datatype Parsed = Parsed(packetsize: int, filemax: int, ok: bool)

  /** The option loop of the OACK branch; ok is false where the code jumps to noak. */
  function ReadOptions(opts: seq<Opt>, packetsize: int, filemax: int): Parsed {
    if opts == [] then Parsed(packetsize, filemax, true)
    else if opts[0].name == "blksize" then
      if opts[0].value < DEFAULTSIZE then Parsed(opts[0].value, filemax, false)
      else ReadOptions(opts[1..], opts[0].value, filemax)
    else if opts[0].name == "tsize" then
      if opts[0].value < 0 then Parsed(packetsize, -1, false)
      else ReadOptions(opts[1..], packetsize, opts[0].value)
    else Parsed(packetsize, filemax, false)
  }

  datatype Flow = Continue | Return(ok: bool)
  datatype Reaction = Reaction(c: Client, sent: Option<Up>, flow: Flow)

  /** From the order check to the end of the loop body; block has just been set. */
  function Acknowledge(c: Client, tid: nat, payload: seq<byte>, abort: bool): Reaction {
    var b := if (c.block != 0 || c.bcounter != 0) && c.block != c.prevblock + 1 then c.prevblock else c.block;
    var tp := if abort then Error else Ack(b);
    var c1 := c.(block := b, tp := tp, oport := tid);
    var sent := Some(Up(c.req, Tid(tid), tp));
    if abort then Reaction(c1.(eof := true), sent, Return(true))
    else if (b - c.prevblock) % 0x1_0000 != 1 then Reaction(c1, sent, Continue)
    else Reaction(c1.(prevblock := b, retry := 0, bcounter := c.bcounter + 1, window := c.window + payload,
                      eof := c.eof || |payload| < c.packetsize), sent, Continue)
  }

  /** One packet through the body of the loop of buf_fill. */
  function React(c: Client, d: Down, abort: bool): Reaction {
    match d.msg
    case Error => Reaction(c, None, Return(false))
    case Oack(opts) =>
      if c.prevblock != 0 then Reaction(c, None, Continue)
      else
        var p := ReadOptions(opts, c.packetsize, c.filemax);
        var c1 := c.(packetsize := p.packetsize, filemax := p.filemax);
        if p.ok then Acknowledge(c1.(block := 0), d.tid, [], abort)
        else Reaction(c1.(tp := Error), Some(Up(c.req, Tid(d.tid), Error)), Return(false))
    case Data(b, payload) =>
      if |payload| > c.packetsize then Reaction(c, None, Continue)
      else Acknowledge(c.(block := b), d.tid, payload, abort)
    case _ => Reaction(c, None, Return(true))
  }

  datatype Filled = Filled(c: Client, w: World, ok: bool)

  predicate Full(c: Client) {
    c.eof || |c.window| + c.packetsize > BUFLEN
  }

  /** buf_fill as a function of the client, the world and its argument. */
  function Fill(c: Client, w: World, abort: bool): Filled
    decreases |w.script|, 0
  {
    if Full(c) then Filled(c, w, true)
    else
      var (w1, reply) := Await(w, c.req);
      match reply
      case IpAbort => Filled(c, w1, false)
      case TimedOut => FillLate(c, w1, abort)
      case Got(d) => FillPacket(c, w1, d, abort)
  }

  /** No packet in time: while block is 0, the packet in tp is sent to the server's listening port from
      the next port, up to the retry limit. It is the request until a packet has been answered. */
  function FillLate(c: Client, w: World, abort: bool): Filled
    decreases |w.script|, 1
  {
    if c.block != 0 then Filled(c, w, false)
    else if c.retry >= MAX_RETRIES then Filled(c.(retry := c.retry + 1), w, false)
    else
      var (w1, ok) := Transmit(w, Up(c.req + 1, Listener, c.tp));
      var c1 := c.(retry := c.retry + 1, req := c.req + 1);
      if ok then Fill(c1, w1, abort) else Filled(c1, w1, false)
  }

  function FillPacket(c: Client, w: World, d: Down, abort: bool): Filled
    decreases |w.script|, 1
  {
    var r := React(c, d, abort);
    var w1 := if r.sent.Some? then Transmit(w, r.sent.value).0 else w;
    if r.flow.Continue? then Fill(r.c, w1, abort) else Filled(r.c, w1, r.flow.ok)
  }

  /** The variables send_rrq initializes; the request is numbered on sending. */
  function Fresh(c: Client): Client {
    c.(retry := 0, block := 0, prevblock := 0, packetsize := DEFAULTSIZE, bcounter := 0,
       eof := false, window := [], base := 0, req := c.req + 1)
  }
}
