/** The network file system of fsys_tftp.c as the file-system layer sees it: open, read, close.
    The class keeps the static variables of the C file; its loops are the loops of the C code. */
module TftpClient {
  import opened Basics
  import opened TftpProgress
  import opened TftpProtocol
  import opened TftpSafety

  datatype Errnum = ERR_NONE | ERR_READ | ERR_WRITE | ERR_FILE_NOT_FOUND

  const HALF := BUFLEN / 2
  const NO_PLAN := Plan([], 0, 0)

  /** Anything the caller does to the cache, the file size or the end-of-file flag leaves the
      conversation alone. */
  lemma CoreIgnoresCache(c: Client, c': Client, w: World)
    requires Core(c, w)
    requires c' == c.(window := c'.window, base := c'.base, filemax := c'.filemax, eof := c'.eof)
    ensures Core(c', w)
  {
  }

  lemma FreshIsOpen(c: Client, w: World, c': Client, w': World)
    requires Core(c, w) && !c.tp.Ack? && c' == Fresh(c)
    requires w'.(script := w.script) == w || w'.(script := w.script) == w.(up := w.up + [Up(c'.req, Listener, c'.tp)])
    ensures Core(c', w') && EofOk(c', w'.server) && WindowOk(w'.server, c')
  {
    RequestKeepsCore(c, w, c', w');
  }

  /** Offsets stay far below the range of an int. */
  lemma {:induction false} PositionFits(s: Server, n: nat)
    requires Honest(s) && n <= LAST_BLOCK
    ensures Pos(s, n) <= n * MAX_PACKET < 0x8000_0000
  {
    if n > 0 { PositionFits(s, n - 1); }
  }

  /** The window without its first half of a buffer is still a piece of the file. */
  lemma WindowSlides(s: Server, c: Client)
    requires WindowOk(s, c) && EofOk(c, s) && |c.window| >= HALF
    ensures var c' := c.(window := c.window[HALF..], base := c.base + HALF);
      WindowOk(s, c') && EofOk(c', s)
  {
    hide Pos, Block;
    PosInFile(s, c.prevblock);
    SliceOfSlice(s.file, c.base, Pos(s, c.prevblock), HALF, |c.window|);
  }

  /** The first pass of tftp_dir: a request is sent and answered with a buffer of data. */
  ghost predicate Answered(c: Client, w: World) {
    var c' := Fresh(c.(tp := Rrq));
    var (w', sent) := Transmit(w, Up(c'.req, Listener, Rrq));
    sent && Fill(c', w', false).ok
  }

  /** What a read is to do: to deliver the bytes of the server's file between two offsets. hopeful says
      that nothing will be lost on the way, cached that the window has all of them. */
  datatype Job = Job(server: Server, from: nat, end: nat, was: seq<byte>, errnum: Errnum, plan: Plan,
                       hopeful: bool, cached: Option<World>)

  class Tftp {
    var req: nat            // iport == Port(req)
    var oport: nat
    var block: nat
    var prevblock: nat
    var bcounter: nat
    var packetsize: int
    var retry: nat
    var bufEof: bool
    var bufRead: nat
    var savedFilepos: nat
    var tp: Message
    var savedTp: Message
    const buf: array<byte>

    var filepos: nat        // shared with the file-system layer
    var filemax: int
    var errnum: Errnum

    var world: World        // everything outside the program

    ghost function View(): Client
      reads this, buf
      requires bufRead <= buf.Length
    {
      Client(req, oport, block, prevblock, bcounter, packetsize, retry, bufEof, buf[..bufRead],
             savedFilepos, filemax, tp)
    }

    ghost predicate Shaped()
      reads this, buf
    {
      buf.Length == BUFLEN && bufRead <= BUFLEN
    }

    /** The conversation is sound. Holds from power-on, whatever is called. */
    ghost predicate Sound()
      reads this, buf
    {
      Shaped() && Core(View(), world)
    }

    /** A file is open: the window is a piece of the file, ending where the next block goes. */
    ghost predicate Valid()
      reads this, buf
    {
      && Sound() && req > 0 && savedTp == Rrq
      && EofOk(View(), world.server) && WindowOk(world.server, View())
    }

    /** A transfer is under way in which nothing will be lost. */
    ghost predicate Promised(p: Plan)
      reads this, buf
    {
      Shaped() && Obliged(View(), world, p)
    }

    /** Such a transfer has been asked for. */
    ghost predicate Begun(p: Plan)
      reads this, buf
    {
      Shaped() && Willing(world.server) && Asked(View(), world, p) && !Full(View())
    }

    /** Nothing will be lost, be it in the transfer under way or in one just asked for. */
    ghost predicate Hopeful(p: Plan)
      reads this, buf
    {
      Promised(p) || (Begun(p) && bufRead == 0)
    }

    constructor (server: Server, script: seq<Move>)
      requires Honest(server)
      ensures Sound() && fresh(buf)
      ensures world == World(server, [], [], [], script) && View().req == 0
    {
      req, oport, block, prevblock, bcounter, packetsize, retry := 0, 0, 0, 0, 0, 0, 0;
      bufEof, bufRead, savedFilepos, tp, savedTp := false, 0, 0, Rrq, Rrq;
      filepos, filemax, errnum := 0, 0, ERR_NONE;
      buf := new byte[BUFLEN];
      world := World(server, [], [], [], script);
    }

    method AwaitReply() returns (reply: Reply)
      modifies this`world
      ensures (world, reply) == Await(old(world), req)
    {
      var r := Await(world, req);
      world, reply := r.0, r.1;
    }

    method UdpTransmit(u: Up) returns (ok: bool)
      modifies this`world
      ensures (world, ok) == Transmit(old(world), u)
    {
      var r := Transmit(world, u);
      world, ok := r.0, r.1;
    }

    /** The option loop of the OACK branch. */
    method ReadOack(opts: seq<Opt>) returns (ok: bool)
      modifies this`packetsize, this`filemax
      ensures Parsed(packetsize, filemax, ok) == ReadOptions(opts, old(packetsize), old(filemax))
    {
      var p := 0;
      while p < |opts|
        invariant p <= |opts|
        invariant ReadOptions(opts[p..], packetsize, filemax) == ReadOptions(opts, old(packetsize), old(filemax))
      {
        assert opts[p..][0] == opts[p] && opts[p..][1..] == opts[p + 1..];
        if opts[p].name == "blksize" {
          packetsize := opts[p].value;
          if packetsize < DEFAULTSIZE { return false; }
        } else if opts[p].name == "tsize" {
          filemax := opts[p].value;
          if filemax < 0 {
            filemax := -1;
            return false;
          }
        } else {
          return false;
        }
        p := p + 1;
      }
      return true;
    }

    /** Accept block: count it and copy its data to the end of the buffer. */
    method Take(payload: seq<byte>)
      requires Shaped() && bufRead + |payload| <= BUFLEN
      modifies this`prevblock, this`retry, this`bcounter, this`bufRead, this`bufEof, buf
      ensures Shaped()
      ensures View() == old(View()).(prevblock := block, retry := 0, bcounter := old(bcounter) + 1,
                                     window := old(buf[..bufRead]) + payload,
                                     eof := old(bufEof) || |payload| < packetsize)
    {
      prevblock := block;
      retry := 0;
      bcounter := bcounter + 1;
      forall i | 0 <= i < |payload| { buf[bufRead + i] := payload[i]; }
      bufRead := bufRead + |payload|;
      assert buf[..bufRead] == old(buf[..bufRead]) + payload;
      if |payload| < packetsize { bufEof := true; }
    }

    /** The order check and the acknowledgement: an out-of-order block is answered with the last
        one stored. */
    method SendAck(tid: nat, abort: bool)
      modifies this`block, this`tp, this`oport, this`world
      ensures block ==
        if (old(block) != 0 || bcounter != 0) && old(block) != prevblock + 1 then prevblock else old(block)
      ensures bcounter == prevblock ==> block == Receive(prevblock, old(block)).1
      ensures tp == (if abort then Error else Ack(block)) && oport == tid
      ensures world == Transmit(old(world), Up(req, Tid(tid), tp)).0
    {
      if (block != 0 || bcounter != 0) && block != prevblock + 1 {
        block := prevblock;
      }
      tp := if abort then Error else Ack(block);
      oport := tid;
      var _ := UdpTransmit(Up(req, Tid(oport), tp));
    }

    /** From the order check to the end of the loop of buf_fill, block being set. */
    method Answer(tid: nat, payload: seq<byte>, abort: bool) returns (flow: Flow)
      requires Shaped() && bufRead + |payload| <= BUFLEN
      modifies this, buf
      ensures Shaped()
      ensures var r := Acknowledge(old(View()), tid, payload, abort);
        View() == r.c && flow == r.flow && world == Transmit(old(world), r.sent.value).0
      ensures filepos == old(filepos) && errnum == old(errnum) && savedTp == old(savedTp)
    {
      SendAck(tid, abort);
      assert View() == old(View()).(block := block, tp := tp, oport := tid);
      if abort {
        bufEof := true;
        return Return(true);
      }
      if (block - prevblock) % 0x1_0000 == 1 { Take(payload); }
      return Continue;
    }

    /** After a timeout: while block is 0, what is in tp is sent to the server's listening port, from
        the next port. That is the request, unless options have been acknowledged in the meantime. */
    method AskAgain() returns (again: bool)
      requires Shaped()
      modifies this`retry, this`req, this`world
      ensures Shaped()
      ensures block == 0 ==> retry == old(retry) + 1
      ensures if block == 0 && old(retry) < MAX_RETRIES
              then req == old(req) + 1 && (world, again) == Transmit(old(world), Up(req, Listener, tp))
              else req == old(req) && world == old(world) && !again
      ensures block != 0 ==> retry == old(retry)
    {
      if block == 0 {
        retry := retry + 1;
        if retry <= MAX_RETRIES {
          req := req + 1;
          again := UdpTransmit(Up(req, Listener, tp));
          return;
        }
      }
      return false;
    }

    /** The OACK branch. */
    method ProcessOack(tid: nat, opts: seq<Opt>, abort: bool) returns (flow: Flow)
      requires Shaped() && prevblock == 0 && bufRead <= BUFLEN
      modifies this, buf
      ensures Shaped()
      ensures var r := React(old(View()), Down(req, tid, Oack(opts)), abort);
        && View() == r.c && flow == r.flow
        && world == Transmit(old(world), r.sent.value).0
      ensures filepos == old(filepos) && errnum == old(errnum) && savedTp == old(savedTp)
    {
      var accepted := ReadOack(opts);
      ghost var p := ReadOptions(opts, old(packetsize), old(filemax));
      assert View() == old(View()).(packetsize := p.packetsize, filemax := p.filemax);
      if !accepted {
        tp := Error;
        var _ := UdpTransmit(Up(req, Tid(tid), tp));
        return Return(false);
      }
      block := 0;
      flow := Answer(tid, [], abort);
    }

    /** One packet through the body of the loop of buf_fill. */
    method Process(d: Down, abort: bool) returns (flow: Flow)
      requires Shaped() && bufRead + packetsize <= BUFLEN
      modifies this, buf
      ensures Shaped()
      ensures var r := React(old(View()), d, abort);
        && View() == r.c && flow == r.flow
        && world == (if r.sent.Some? then Transmit(old(world), r.sent.value).0 else old(world))
      ensures filepos == old(filepos) && errnum == old(errnum) && savedTp == old(savedTp)
    {
      match d.msg {
        case Error => return Return(false);
        case Oack(opts) =>
          if prevblock != 0 { return Continue; }
          flow := ProcessOack(d.tid, opts, abort);
        case Data(b, payload) =>
          if |payload| > packetsize { return Continue; }
          block := b;
          flow := Answer(d.tid, payload, abort);
        case _ => return Return(true);
      }
    }

    /** One turn of the loop of buf_fill: wait for a packet and deal with it. */
    method FillOnce(abort: bool) returns (flow: Flow)
      requires Shaped() && !Full(View())
      modifies this, buf
      ensures Shaped() && |world.script| <= |old(world.script)|
      ensures flow.Continue? ==> |world.script| < |old(world.script)|
      ensures Fill(old(View()), old(world), abort)
              == if flow.Continue? then Fill(View(), world, abort) else Filled(View(), world, flow.ok)
      ensures filepos == old(filepos) && errnum == old(errnum) && savedTp == old(savedTp)
    {
      var reply := AwaitReply();
      match reply {
        case IpAbort => return Return(false);
        case TimedOut =>
          var again := AskAgain();
          return if again then Continue else Return(false);
        case Got(d) =>
          flow := Process(d, abort);
      }
    }

    method BufFill(abort: bool) returns (ok: bool)
      requires Shaped()
      modifies this, buf
      ensures Shaped()
      ensures Filled(View(), world, ok) == Fill(old(View()), old(world), abort)
      ensures filepos == old(filepos) && errnum == old(errnum) && savedTp == old(savedTp)
    {
      ghost var result := Fill(View(), world, abort);
      while !bufEof && bufRead + packetsize <= BUFLEN
        invariant Shaped()
        invariant Fill(View(), world, abort) == result
        invariant filepos == old(filepos) && errnum == old(errnum) && savedTp == old(savedTp)
        decreases |world.script|
      {
        var flow := FillOnce(abort);
        if flow.Return? { return flow.ok; }
      }
      return true;
    }

    /** buf_fill on an open file: the window still agrees with the file, and it is full unless the
        end of the file was reached or the network failed. */
    method FillOpen(ghost p: Plan := NO_PLAN) returns (ok: bool)
      requires Valid()
      modifies this, buf
      ensures Valid() && world.server == old(world.server)
      ensures savedFilepos == old(savedFilepos) && bufRead >= old(bufRead)
      ensures ok ==> Full(View())
      ensures ok <==> Fill(old(View()), old(world), false).ok
      ensures |world.script| <= |old(world.script)|
      ensures bufRead > old(bufRead) ==> |world.script| < |old(world.script)|
      ensures Announced(world.server, old(View()), View())
      ensures filepos == old(filepos) && errnum == old(errnum)
      ensures old((Promised(p) && Fillable(world.server, savedFilepos)) || Begun(p)) ==> ok && Promised(p)
    {
      FillKeeps(View(), world, false);
      FillPromised(p);
      ok := BufFill(false);
      ExtendsKeepsWindow(world.server, old(View()), View());
    }

    lemma FillPromised(p: Plan)
      requires Shaped()
      ensures (Promised(p) && Fillable(world.server, Origin(world.server, View()))) || Begun(p) ==>
        var f := Fill(View(), world, false); f.ok && Obliged(f.c, f.w, p)
    {
      hide Obliged, Asked, Willing, Full, Fillable, Origin;
      if Promised(p) && Fillable(world.server, Origin(world.server, View())) {
        FillSucceeds(View(), world, p);
      } else if Begun(p) {
        FirstFillSucceeds(View(), world, p);
      }
    }

    /** Abandon the transfer in progress, if any. */
    method Abandon()
      requires Sound() && req > 0
      modifies this, buf
      ensures Sound() && req >= old(req) && world.server == old(world.server)
      ensures var f := Fill(old(View()).(window := []), old(world), true); View() == f.c && world == f.w
      ensures filepos == old(filepos) && errnum == old(errnum) && savedTp == old(savedTp)
      ensures |world.script| <= |old(world.script)|
    {
      bufRead := 0;
      assert View() == old(View()).(window := []);
      CoreIgnoresCache(old(View()), View(), world);
      FillKeeps(View(), world, true);
      var _ := BufFill(true);
    }

    method SendRrq() returns (ok: bool)
      requires Sound() && tp == savedTp == Rrq
      modifies this
      ensures Valid() && savedFilepos == bufRead == 0 && world.server == old(world.server)
      ensures View() == Fresh(old(View()))
      ensures (world, ok) == Transmit(old(world), Up(req, Listener, Rrq))
      ensures filepos == old(filepos) && errnum == old(errnum)
    {
      Initialize();
      ghost var c' := View();
      ok := UdpTransmit(Up(req, Listener, tp));
      FreshIsOpen(old(View()), old(world), c', world);
      assert View() == c';
    }

    /** The assignments of send_rrq, up to and including the increment of iport. */
    method Initialize()
      requires bufRead <= buf.Length
      modifies this`retry, this`block, this`prevblock, this`packetsize, this`bcounter,
               this`bufEof, this`bufRead, this`savedFilepos, this`req
      ensures bufRead == 0 && View() == Fresh(old(View()))
    {
      retry, block, prevblock, packetsize, bcounter := 0, 0, 0, DEFAULTSIZE, 0;
      bufEof, bufRead, savedFilepos := false, 0, 0;
      req := req + 1;
    }

    /** FILEPOS has been moved backwards: abandon the transfer and ask for the file again. */
    method Reopen(ghost p: Plan := NO_PLAN) returns (ok: bool)
      requires Valid()
      modifies this, buf
      ensures Valid() && savedFilepos == bufRead == prevblock == 0 && world.server == old(world.server)
      ensures req > old(req) && filepos == old(filepos) && errnum == old(errnum)
      ensures var f := Fill(old(View()).(window := []), old(world), true);
        View() == Fresh(f.c.(tp := Rrq)) && (world, ok) == Transmit(f.w, Up(req, Listener, Rrq))
      ensures ok <==> !old(RequestLost(View(), world))
      ensures old(PlannedAgain(View(), world, p)) ==> ok && Begun(p)
    {
      ghost var planned := PlannedAgain(View(), world, p);
      Abandon();
      tp := savedTp;
      if planned { PlannedRequest(View(), world, p); }
      hide TftpSafety.Core, Asked, Planned;
      ok := SendRrq();
    }

    /** Once filepos is more than half a buffer into the window, its first half is dropped. */
    method Slide()
      requires Valid() && savedFilepos <= filepos <= savedFilepos + bufRead
      modifies this`bufRead, this`savedFilepos, buf
      ensures Valid() && savedFilepos <= filepos <= savedFilepos + bufRead == old(savedFilepos + bufRead)
      ensures savedFilepos == old(savedFilepos) + if filepos - old(savedFilepos) > HALF then HALF else 0
    {
      if filepos - savedFilepos > HALF {
        ghost var c := View();
        MoveDown();
        bufRead := bufRead - HALF;
        savedFilepos := savedFilepos + HALF;
        assert buf[..bufRead] == c.window[HALF..];
        WindowSlides(world.server, c);
        hide TftpSafety.Core;
        CoreIgnoresCache(c, View(), world);
      }
    }

    method MoveDown()
      requires Shaped() && bufRead >= HALF
      modifies buf
      ensures buf[..bufRead - HALF] == old(buf[..bufRead])[HALF..]
    {
      forall i | 0 <= i < HALF { buf[i] := buf[HALF + i]; }
    }

    method CopyBytes(addr: array<byte>, at: nat, from: nat, amt: nat)
      requires addr != buf && at + amt <= addr.Length && from + amt <= buf.Length
      modifies addr
      ensures addr[..] == old(addr[..])[..at] + buf[from..from + amt] + old(addr[..])[at + amt..]
    {
      forall i | 0 <= i < amt { addr[at + i] := buf[from + i]; }
      assert addr[at..at + amt] == buf[from..from + amt];
      assert addr[..] == addr[..at] + addr[at..at + amt] + addr[at + amt..];
    }

    lemma WindowBytes(amt: nat)
      requires Valid() && savedFilepos <= filepos && filepos + amt <= savedFilepos + bufRead
      ensures filepos + amt <= |world.server.file| && filepos + amt <= Pos(world.server, LAST_BLOCK)
      ensures buf[filepos - savedFilepos..filepos - savedFilepos + amt] == world.server.file[filepos..filepos + amt]
    {
      var from := filepos - savedFilepos;
      var file, base, end := world.server.file, savedFilepos, Pos(world.server, prevblock);
      PosInFile(world.server, prevblock);
      PosMonotonic(world.server, prevblock, LAST_BLOCK);
      assert buf[..bufRead] == file[base..end];
      hide TftpSafety.Core, TftpProtocol.Pos;
      assert buf[from..from + amt] == buf[..bufRead][from..from + amt];
      SliceOfSlice(file, base, end, from, from + amt);
    }

    /** Copy amt bytes from the window to addr[at..] and step FILEPOS past them. */
    method CopyOut(addr: array<byte>, at: nat, amt: nat)
      requires Valid() && addr != buf && at + amt <= addr.Length
      requires savedFilepos <= filepos && filepos + amt <= savedFilepos + bufRead
      modifies this`filepos, this`bufRead, this`savedFilepos, buf, addr
      ensures Valid() && savedFilepos <= filepos == old(filepos) + amt <= |world.server.file|
      ensures filepos <= Pos(world.server, LAST_BLOCK)
      ensures addr[..] == old(addr[..])[..at] + world.server.file[old(filepos)..filepos] + old(addr[..])[at + amt..]
    {
      hide TftpSafety.Core;
      WindowBytes(amt);
      CopyBytes(addr, at, filepos - savedFilepos, amt);
      filepos := filepos + amt;
      Slide();
    }

    /** The window ends at or before filepos: it is emptied and moves to the place of the next block. */
    method Skip()
      requires Valid()
      modifies this`bufRead, this`savedFilepos
      ensures Valid() && bufRead == 0 && savedFilepos == old(savedFilepos + bufRead)
    {
      savedFilepos := savedFilepos + bufRead;
      bufRead := 0;
      CoreIgnoresCache(old(View()), View(), world);
    }

    /** Deliver what the window has at FILEPOS, up to left bytes; if it has nothing, skip it. */
    method Deliver(addr: array<byte>, at: nat, left: nat, ghost from: nat, ghost was: seq<byte>,
                   ghost p: Plan := NO_PLAN)
      returns (amt: nat)
      requires Valid() && addr != buf && at + left <= addr.Length && savedFilepos <= filepos && left > 0
      requires at == filepos - from && Copied(world.server.file, from, filepos, was, addr[..])
      modifies this`filepos, this`bufRead, this`savedFilepos, buf, addr
      ensures Valid() && amt <= left && savedFilepos <= filepos == old(filepos) + amt
      ensures amt > 0 ==> filepos <= Pos(world.server, LAST_BLOCK)
      ensures Copied(world.server.file, from, filepos, was, addr[..])
      ensures amt == 0 <==> old(filepos) >= old(savedFilepos + bufRead)
      ensures amt == 0 ==> bufRead == 0
      ensures old(bufRead) == 0 ==> View() == old(View())
      ensures old(filepos) + left <= old(savedFilepos + bufRead) ==> amt == left
      ensures old(Promised(p)) ==> Promised(p)
    {
      hide TftpSafety.Core, Obliged, Copied, TftpProtocol.Pos, WindowOk, EofOk;
      ghost var promised := Promised(p);
      ghost var c := View();
      amt := DeliverBytes(addr, at, left, from, was);
      if promised { KeepsPromise(c, p); }
    }

    lemma KeepsPromise(c: Client, p: Plan)
      requires Shaped() && Obliged(c, world, p)
      requires View() == c.(window := View().window, base := View().base)
      ensures Promised(p)
    {
      hide Obliged;
      ObligedIgnoresCache(c, View(), world, p);
    }

    method DeliverBytes(addr: array<byte>, at: nat, left: nat, ghost from: nat, ghost was: seq<byte>)
      returns (amt: nat)
      requires Valid() && addr != buf && at + left <= addr.Length && savedFilepos <= filepos && left > 0
      requires at == filepos - from && Copied(world.server.file, from, filepos, was, addr[..])
      modifies this`filepos, this`bufRead, this`savedFilepos, buf, addr
      ensures Valid() && amt <= left && savedFilepos <= filepos == old(filepos) + amt
      ensures amt > 0 ==> filepos <= Pos(world.server, LAST_BLOCK)
      ensures Copied(world.server.file, from, filepos, was, addr[..])
      ensures amt == 0 <==> old(filepos) >= old(savedFilepos + bufRead)
      ensures amt == 0 ==> bufRead == 0
      ensures old(bufRead) == 0 ==> View() == old(View())
      ensures old(filepos) + left <= old(savedFilepos + bufRead) ==> amt == left
    {
      hide TftpSafety.Core;
      var n := bufRead + savedFilepos - filepos;
      if n > left { n := left; }
      if n > 0 {
        ghost var mid, before := filepos, addr[..];
        CopyOut(addr, at, n);
        CopiedOn(world.server.file, from, mid, filepos, was, before, addr[..]);
        return n;
      }
      Skip();
      return 0;
    }

    /** A full window that is empty is at the end of the file. */
    lemma EmptyIsEnd(p: Plan)
      requires Valid() && Promised(p) && bufRead == 0
      ensures Full(View()) ==> savedFilepos == |world.server.file|
    {
      hide TftpSafety.Core, Due, Left;
    }

    /** Read more data, failing if none came. */
    method Refill(ghost p: Plan := NO_PLAN) returns (ok: bool)
      requires Valid()
      modifies this, buf
      ensures Valid() && world.server == old(world.server)
      ensures savedFilepos == old(savedFilepos) && filepos == old(filepos)
      ensures errnum == if ok then old(errnum) else ERR_READ
      ensures |world.script| <= |old(world.script)|
      ensures ok && old(bufRead) == 0 ==> |world.script| < |old(world.script)|
      ensures old((Promised(p) && Fillable(world.server, savedFilepos)) || Begun(p)) ==>
        Promised(p) && (savedFilepos <= filepos < |world.server.file| ==> ok)
    {
      hide TftpSafety.Core, Obliged, Asked, Willing, Fillable, WindowOk, EofOk, Announced, TftpProtocol.Pos;
      ok := FillOpen(p);
      if Promised(p) && bufRead == 0 { EmptyIsEnd(p); }
      if !ok {
        errnum := ERR_READ;
      } else if bufRead == 0 {
        errnum := ERR_READ;
        ok := false;
      }
    }

    /** The job is done up to its at-th byte, with left bytes to go. */
    ghost predicate Reading(job: Job, addr: array<byte>, at: nat, left: nat)
      reads this, buf, addr
    {
      && Valid() && world.server == job.server && errnum == job.errnum
      && addr != buf && at + left <= addr.Length
      && savedFilepos <= filepos == job.from + at && filepos + left == job.end
      && Copied(job.server.file, job.from, filepos, job.was, addr[..])
      && (at > 0 ==> filepos <= Pos(job.server, LAST_BLOCK))
      && (job.hopeful ==>
            Reachable(job.server, job.end) && Hopeful(job.plan) && (at > 0 ==> Promised(job.plan)))
      && (job.cached.Some? ==> world == job.cached.value && (left == 0 || job.end <= savedFilepos + bufRead))
    }

    /** The job has failed, as it may unless it needs no network or nothing is lost. */
    ghost predicate Failed(job: Job, addr: array<byte>)
      reads this, buf, addr
    {
      && Valid() && world.server == job.server && errnum == ERR_READ
      && job.from <= filepos <= job.end
      && Copied(job.server.file, job.from, filepos, job.was, addr[..])
      && !job.hopeful && job.cached.None?
    }

    /** The loop of tftp_read, once FILEPOS is not behind the window. */
    method ReadOn(addr: array<byte>, size: nat, ghost p: Plan := NO_PLAN) returns (ret: nat)
      requires Valid() && addr != buf && size <= addr.Length && savedFilepos <= filepos
      modifies this, buf, addr
      ensures Valid() && world.server == old(world.server)
      ensures old(filepos) <= filepos <= old(filepos) + size
      ensures Copied(world.server.file, old(filepos), filepos, old(addr[..]), addr[..])
      ensures if ret == size then filepos == old(filepos) + size && errnum == old(errnum)
              else ret == 0 && errnum == ERR_READ
      ensures old(filepos) + size <= old(savedFilepos + bufRead) ==> ret == size && world == old(world)
      ensures ret == size && size > 0 ==> filepos <= Pos(world.server, LAST_BLOCK)
      ensures old(Hopeful(p)) && size > 0 && Reachable(world.server, old(filepos) + size) ==>
        ret == size && Promised(p)
    {
      ghost var end := filepos + size;
      ghost var job := Job(world.server, filepos, end, addr[..], errnum, p,
                             size > 0 && Hopeful(p) && Reachable(world.server, end),
                             if end <= savedFilepos + bufRead then Some(world) else None);
      assert Copied(world.server.file, filepos, filepos, addr[..], addr[..]);
      hide TftpSafety.Core, Obliged, TftpProtocol.Pos, Copied, Reachable, WindowOk, EofOk, Tftp.Hopeful, Tftp.Promised;
      assert Reading(job, addr, 0, size);
      ret := ReadLoop(addr, size, job);
    }

    method ReadLoop(addr: array<byte>, size: nat, ghost job: Job) returns (ret: nat)
      requires Reading(job, addr, 0, size)
      modifies this, buf, addr
      ensures if ret == size then Reading(job, addr, size, 0) else ret == 0 && Failed(job, addr)
    {
      hide Tftp.Reading, Tftp.Failed;
      ret := 0;
      var left := size;
      while left > 0
        invariant left == size - ret && Reading(job, addr, ret, left)
        decreases |world.script|, left
      {
        var amt, ok := ReadTurn(addr, ret, left, job);
        left := left - amt;
        ret := ret + amt;
        if !ok { return 0; }
      }
    }

    /** One turn of the loop of tftp_read: deliver what there is, and read more data if that is not
        enough. */
    method ReadTurn(addr: array<byte>, at: nat, left: nat, ghost job: Job) returns (amt: nat, ok: bool)
      requires Reading(job, addr, at, left) && left > 0
      modifies this, buf, addr
      ensures amt <= left && (amt == left ==> ok)
      ensures if ok then Reading(job, addr, at + amt, left - amt) else Failed(job, addr)
      ensures |world.script| <= |old(world.script)| && (ok && amt == 0 ==> |world.script| < |old(world.script)|)
    {
      hide TftpSafety.Core, Obliged, TftpProtocol.Pos, Copied;
      amt := Deliver(addr, at, left, job.from, job.was, job.plan);
      ok := true;
      if left - amt > 0 {
        ok := Refill(job.plan);
      }
    }

    /** Read size bytes at FILEPOS into addr. Whatever the network does, the bytes delivered are
        the file's own and nothing else in addr changes; the result is size, or 0 with errnum set.
        A request inside the window needs no network at all. */
    method TftpRead(addr: array<byte>, size: int, ghost p: Plan := NO_PLAN) returns (ret: int)
      requires Valid() && addr != buf && size <= addr.Length
      modifies this, buf, addr
      ensures Valid() && world.server == old(world.server)
      ensures old(filepos) <= filepos
      ensures Copied(world.server.file, old(filepos), filepos, old(addr[..]), addr[..])
      ensures size > 0 ==>
        || (ret == size && filepos == old(filepos) + size && errnum == old(errnum))
        || (ret == 0 && filepos <= old(filepos) + size
            && errnum == if old(filepos < savedFilepos && RequestLost(View(), world)) then ERR_WRITE else ERR_READ)
      ensures size <= 0 ==> ret == 0 && filepos == old(filepos)
      ensures size > 0 && old(savedFilepos) <= old(filepos) && old(filepos) + size <= old(savedFilepos + bufRead)
              ==> ret == size && world == old(world)
      ensures old(filepos < savedFilepos && RequestLost(View(), world)) ==> ret == 0 && errnum == ERR_WRITE
      ensures size > 0 && ret == size ==> old(filepos) + size <= Pos(world.server, LAST_BLOCK)
      ensures old(Promised(p) && savedFilepos <= filepos) && size > 0 ==>
        Reachable(world.server, old(filepos) + size) ==> ret == size && Promised(p)
      ensures old(filepos < savedFilepos && PlannedAgain(View(), world, p)) && size > 0 ==>
        Reachable(world.server, old(filepos) + size) ==> ret == size && Promised(p)
    {
      assert Copied(world.server.file, filepos, filepos, addr[..], addr[..]);
      hide TftpSafety.Core, Obliged, TftpProtocol.Pos, Copied;
      if filepos < savedFilepos {
        var sent := Reopen(p);
        if !sent {
          errnum := ERR_WRITE;
          return 0;
        }
      }
      if size > 0 {
        ret := ReadOn(addr, size, p);
      } else {
        ret := 0;
      }
    }

    /** The request, of which savedTp keeps a copy for a later reopening. */
    method Request() returns (ok: bool)
      requires Sound()
      modifies this
      ensures Valid() && savedFilepos == bufRead == 0 && prevblock == 0 && world.server == old(world.server)
      ensures filepos == old(filepos) && filemax == old(filemax) && errnum == old(errnum)
      ensures |world.script| <= |old(world.script)|
      ensures View() == Fresh(old(View()).(tp := Rrq)) && (world, ok) == Transmit(old(world), Up(req, Listener, Rrq))
    {
      tp := Rrq;
      savedTp := tp;
      ok := SendRrq();
    }

    /** Between two turns of the discarding loop: filemax and the buffer together count the bytes
        received so far. */
    ghost predicate Counting()
      reads this, buf
    {
      && Sound() && req > 0 && prevblock > 0
      && EofOk(View(), world.server) && Full(View())
      && 0 <= filemax && filemax + bufRead == Pos(world.server, prevblock)
    }

    /** One turn of the discarding loop. */
    method Discard(ghost p: Plan := NO_PLAN) returns (ok: bool)
      requires Counting()
      modifies this, buf
      ensures Sound() && req > 0 && world.server == old(world.server)
      ensures ok ==> Counting()
      ensures filepos == old(filepos) && errnum == old(errnum)
      ensures |world.script| <= |old(world.script)|
      ensures ok && !old(bufEof) ==> |world.script| < |old(world.script)|
      ensures old(Promised(p)) && !Announces(world.server) && Within(world.server) ==> ok && Promised(p)
    {
      filemax := filemax + bufRead;
      bufRead := 0;
      ghost var c := View();
      CoreIgnoresCache(old(View()), c, world);
      FillKeeps(c, world, false);
      if old(Promised(p)) && !Announces(world.server) && Within(world.server) {
        ObligedIgnoresCache(old(View()), c, world, p);
        FillPromised(p);
      }
      hide Obliged, Announces;
      ok := BufFill(false);
    }

    /** Read the file to its end, discarding it, to learn its size. */
    method Measure(ghost p: Plan := NO_PLAN) returns (ok: bool)
      requires Counting() && filemax == 0
      modifies this, buf
      ensures Sound() && req > 0 && world.server == old(world.server)
      ensures filepos == old(filepos)
      ensures if ok then filemax == |world.server.file| && errnum == old(errnum) else errnum == ERR_READ
      ensures ok ==> bufEof && Within(world.server)
      ensures old(Promised(p)) && !Announces(world.server) && Within(world.server) ==> ok && Promised(p)
    {
      ghost var promised := Promised(p) && !Announces(world.server) && Within(world.server);
      hide Obliged, Announces, TftpSafety.Core, Within;
      var first := true;
      while first || !bufEof
        invariant Counting() && world.server == old(world.server)
        invariant promised ==> Promised(p)
        invariant filepos == old(filepos) && errnum == old(errnum)
        decreases first, |world.script|
      {
        first := false;
        ok := Discard(p);
        if !ok {
          errnum := ERR_READ;
          return false;
        }
      }
      Counted(p);
      filemax := filemax + bufRead;
      return true;
    }

    /** The end of the file is counted, and adding what is left in the buffer does no harm. */
    lemma Counted(p: Plan)
      requires Counting() && bufEof
      ensures filemax + bufRead == |world.server.file| && Within(world.server)
      ensures Core(View().(filemax := filemax + bufRead), world)
      ensures Promised(p) && !Announces(world.server) ==> Obliged(View().(filemax := filemax + bufRead), world, p)
    {
      var c' := View().(filemax := filemax + bufRead);
      ShortBlockWithinReach(world.server, prevblock);
      CoreIgnoresCache(View(), c', world);
      if Promised(p) && !Announces(world.server) { ObligedIgnoresCache(View(), c', world, p); }
    }

    /** One pass of tftp_dir from the label reopen up to the test of filemax. */
    method OpenOnce(ghost p: Plan := NO_PLAN) returns (ok: bool)
      requires Sound() && filemax >= -1
      modifies this, buf
      ensures Sound() && req > 0 && world.server == old(world.server) && filepos == old(filepos)
      ensures if ok then Valid() && savedFilepos == 0 && Full(View()) && prevblock > 0 && errnum == old(errnum)
              else errnum == if old(HasRoute(world.script)) then ERR_FILE_NOT_FOUND else ERR_WRITE
      ensures ok <==> old(Answered(View(), world))
      ensures filemax == old(filemax) || (filemax == |world.server.file| && Announces(world.server))
      ensures old(Planned(world, p)) ==> ok && Promised(p)
    {
      if Planned(world, p) { PlannedRequest(View().(tp := Rrq), world, p); }
      hide Planned, Obliged, Asked, TftpSafety.Core, Full;
      ok := Request();
      if !ok {
        errnum := ERR_WRITE;
        return;
      }
      ok := FillOpen(p);
      if !ok { errnum := ERR_FILE_NOT_FOUND; }
    }

    /** The size is not known: read the file to its end. With a plan q for the transfer under way and
        p for the next one, no packet is lost. */
    method LearnSize(ghost q: Plan, ghost p: Plan) returns (ok: bool)
      requires Valid() && Full(View()) && prevblock > 0 && filemax == -1 && savedFilepos == 0
      modifies this, buf
      ensures Sound() && req > 0 && world.server == old(world.server) && filepos == old(filepos)
      ensures if ok then filemax == |world.server.file| && Within(world.server) && errnum == old(errnum)
              else errnum == ERR_READ
      ensures old(Promised(q)) && PlansBoth(world.server, q, p) ==> ok && Planned(world, p)
    {
      ghost var promised := Promised(q) && PlansBoth(world.server, q, p);
      filemax := 0;
      CoreIgnoresCache(View().(filemax := -1), View(), world);
      if promised { ObligedIgnoresCache(View().(filemax := -1), View(), world, q); }
      assert promised ==> !Announces(world.server) && Within(world.server);
      ok := Measure(q);
      if promised { PlannedNext(View(), world, p); }
    }

    /** Open the file and learn its size, from the server if it says it, else by reading the file
        once to its end and asking for it again. */
    method TftpDir(printPossibilities: bool, ghost p: Plan := NO_PLAN) returns (found: bool)
      requires Sound()
      modifies this, buf
      ensures world.server == old(world.server) && filepos == old(filepos) && Shaped()
      ensures if printPossibilities then found && View() == old(View()) && world == old(world)
              else if found then Valid() && savedFilepos == 0 && Full(View())
                                 && filemax == |world.server.file| && errnum == old(errnum)
              else Sound() && req > 0 && errnum in {ERR_WRITE, ERR_FILE_NOT_FOUND, ERR_READ}
      ensures !printPossibilities && !old(Answered(View().(filemax := -1), world)) ==>
        !found && errnum == if old(HasRoute(world.script)) then ERR_FILE_NOT_FOUND else ERR_WRITE
      ensures found && !printPossibilities && !Announces(world.server) ==> Within(world.server)
      ensures old(PlannedOpen(world, p)) && !printPossibilities ==> found && Promised(p)
    {
      if printPossibilities { return true; }
      ghost var planned := PlannedOpen(world, p);
      ghost var q := if planned && !Announces(world.server) then Before(world.server, p) else p;
      filemax := -1;
      CoreIgnoresCache(old(View()), View(), world);
      assert Unsized(planned, q, p);
      hide Planned, Answered, PlannedOpen, PlansBoth, Obliged, Announces, TftpSafety.Core, Full, Within;
      found := OpenLoop(planned, q, p);
    }

    /** Ready for a pass of tftp_dir: the size is not known, or it has been measured. If all is planned, q is
        the plan for a first pass and p that for the last one. */
    ghost predicate Unsized(planned: bool, q: Plan, p: Plan)
      reads this, buf
    {
      && Sound() && (filemax == -1 || (filemax == |world.server.file| && Within(world.server)))
      && (planned ==> Planned(world, if filemax == -1 then q else p))
      && (planned && !Announces(world.server) ==> PlansBoth(world.server, q, p))
      && (Announces(world.server) ==> q == p)
    }

    ghost predicate OpenAtStart()
      reads this, buf
    {
      && Valid() && savedFilepos == 0 && Full(View()) && filemax == |world.server.file|
      && (Announces(world.server) || Within(world.server))
    }

    /** The loop of tftp_dir. */
    method OpenLoop(ghost planned: bool, ghost q: Plan, ghost p: Plan) returns (found: bool)
      requires filemax == -1 && Unsized(planned, q, p)
      modifies this, buf
      ensures Sound() && world.server == old(world.server) && filepos == old(filepos)
      ensures if found then OpenAtStart() && errnum == old(errnum)
              else req > 0 && errnum in {ERR_WRITE, ERR_FILE_NOT_FOUND, ERR_READ}
      ensures !old(Answered(View(), world)) ==>
        !found && errnum == if old(HasRoute(world.script)) then ERR_FILE_NOT_FOUND else ERR_WRITE
      ensures planned ==> found && Promised(p)
    {
      ghost var first, answered := View(), Answered(View(), world);
      hide Tftp.Unsized, Tftp.OpenAtStart, Answered, HasRoute, TftpSafety.Core;
      found := true;
      var done := false;
      while !done
        invariant Sound() && world.server == old(world.server) && filepos == old(filepos)
        invariant found ==> errnum == old(errnum)
        invariant !done ==> found && Unsized(planned, q, p)
        invariant !done && filemax == -1 ==> View() == first && world == old(world)
        invariant found && filemax != -1 ==> answered
        invariant found && done ==> OpenAtStart() && filemax != -1
        invariant !found ==> req > 0 && errnum in {ERR_WRITE, ERR_FILE_NOT_FOUND, ERR_READ}
        invariant !found && !answered ==>
          errnum == if old(HasRoute(world.script)) then ERR_FILE_NOT_FOUND else ERR_WRITE
        invariant planned ==> found && (done ==> Promised(p))
        decreases !done, filemax == -1
      {
        found, done := OpenPass(planned, q, p);
      }
    }

    /** One pass of it, from the label reopen on; done says that it was the last one. */
    method OpenPass(ghost planned: bool, ghost q: Plan, ghost p: Plan) returns (found: bool, done: bool)
      requires Unsized(planned, q, p)
      modifies this, buf
      ensures Sound() && world.server == old(world.server) && filepos == old(filepos)
      ensures found ==> errnum == old(errnum) && filemax != -1
      ensures found && done ==> OpenAtStart()
      ensures !done ==> found && old(filemax) == -1 && Unsized(planned, q, p)
      ensures !found ==> req > 0 && errnum in {ERR_WRITE, ERR_FILE_NOT_FOUND, ERR_READ}
      ensures !old(Answered(View(), world)) ==>
        !found && errnum == if old(HasRoute(world.script)) then ERR_FILE_NOT_FOUND else ERR_WRITE
      ensures planned ==> found && (done ==> Promised(p))
    {
      ghost var now := if filemax == -1 then q else p;
      hide Planned, Answered, PlansBoth, Obliged, Announces, TftpSafety.Core, Full, Within, HasRoute;
      found := OpenOnce(now);
      done := true;
      if !found || filemax != -1 { return; }
      if planned { SizeNotAnnounced(now); }
      found := LearnSize(q, p);
      done := !found;
    }

    lemma SizeNotAnnounced(p: Plan)
      requires Promised(p) && filemax == -1
      ensures !Announces(world.server)
    {
    }

    /** A caller reading n bytes at a position of its own choosing. */
    method ReadAt(position: nat, n: nat, ghost p: Plan := NO_PLAN) returns (r: Option<seq<byte>>)
      requires Valid()
      modifies this, buf
      ensures Valid() && world.server == old(world.server)
      ensures Answers(world.server.file, position, n, r)
      ensures n > 0 && r.None? ==> errnum == ERR_READ || errnum == ERR_WRITE
      ensures n > 0 && old(savedFilepos) <= position && position + n <= old(savedFilepos + bufRead) ==>
        r.Some? && world == old(world)
      ensures n > 0 && r.Some? ==> position + n <= Pos(world.server, LAST_BLOCK)
      ensures old(Promised(p)) && n > 0 && old(savedFilepos) <= position && Reachable(world.server, position + n) ==>
        r.Some? && Promised(p)
      ensures old(position < savedFilepos && PlannedAgain(View(), world, p)) && n > 0 ==>
        Reachable(world.server, position + n) ==> r.Some? && Promised(p)
    {
      hide TftpSafety.Core, Obliged, TftpProtocol.Pos;
      filepos := position;
      var addr := new byte[n];
      var ret := TftpRead(addr, n, p);
      if ret == n {
        r := Some(addr[..]);
      } else {
        r := None;
      }
    }

    /** Any sequence of reads of an open file: each read that succeeds delivers exactly the bytes of
        the file it asked for, whatever the earlier reads and the network did. */
    method ReadAll(requests: seq<(nat, nat)>) returns (out: seq<Option<seq<byte>>>)
      requires Valid()
      modifies this, buf
      ensures Valid() && world.server == old(world.server) && |out| == |requests|
      ensures forall i :: 0 <= i < |requests| ==>
                Answers(world.server.file, requests[i].0, requests[i].1, out[i])
    {
      hide TftpSafety.Core;
      out := [];
      for i := 0 to |requests|
        invariant Valid() && world.server == old(world.server) && |out| == i
        invariant forall j :: 0 <= j < i ==> Answers(world.server.file, requests[j].0, requests[j].1, out[j])
      {
        var r := ReadAt(requests[i].0, requests[i].1);
        out := out + [r];
      }
    }

    method TftpClose()
      requires Sound() && req > 0
      modifies this, buf
      ensures Sound() && req > 0 && world.server == old(world.server) && filepos == old(filepos)
      ensures var f := Fill(old(View()).(window := []), old(world), true); View() == f.c && world == f.w
    {
      Abandon();
    }
  }

  /** A client just started opens a file and reads from it. For every honest server with blocks of at
      least 512 bytes there is a script with which this succeeds, for every part of a file shorter than
      65535 blocks; and if the size is announced, for every part of a longer file that ends a buffer
      before block 65535. */
  method OpenAndRead(server: Server, position: nat, n: nat) returns (found: bool, size: int, r: Option<seq<byte>>)
    requires Willing(server) && (Announces(server) || Within(server))
    requires n > 0 && Reachable(server, position + n)
    ensures found && size == |server.file| && r == Some(server.file[position..position + n])
  {
    OpeningIsPlanned(server);
    ghost var p := OpeningPlan(server);
    var t := new Tftp(server, OpeningScript(server));
    hide PlannedOpen, Obliged, Willing, TftpSafety.Core, OpeningScript, TftpProtocol.Pos, Within;
    found := t.TftpDir(false, p);
    size := t.filemax;
    r := t.ReadAt(position, n, p);
  }

  lemma CoreIgnoresScript(c: Client, w: World, script: seq<Move>)
    requires Core(c, w)
    ensures Core(c, w.(script := script))
  {
    var w1 := w.(script := script);
    assert forall s <- w.sessions :: SessionOk(w, s) && SessionOk(w1, s);
    assert forall d <- w.down :: DownOk(w, d) && DownOk(w1, d);
    assert forall u <- w.up :: Addressed(w, u) && Addressed(w1, u);
  }

  /** A window behind the start of the file has seen a block. */
  lemma WindowMoved(c: Client, w: World)
    requires Core(c, w) && c.req > 0 && WindowOk(w.server, c) && c.base > 0
    ensures c.block != 0 && c.packetsize <= BUFLEN
  {
    assert Pos(w.server, 0) == 0;
  }

  /** Whatever has happened to an open file so far, and even in the middle of a transfer, the network can
      go on in such a way that a read behind a backward seek succeeds. */
  method ReadBack(t: Tftp, position: nat, n: nat) returns (r: Option<seq<byte>>, ghost p: Plan)
    requires t.Valid() && Willing(t.world.server) && n > 0 && position < t.savedFilepos
    requires Reachable(t.world.server, position + n)
    modifies t, t.buf
    ensures t.Valid() && t.world.server == old(t.world.server) && t.Promised(p)
    ensures r.Some? && Answers(t.world.server.file, position, n, r)
  {
    p := ReopeningPlan(t.world);
    GoOn(t);
    hide TftpSafety.Core, PlannedAgain, Willing, Reachable, Obliged, ReopeningPlan;
    r := t.ReadAt(position, n, p);
  }

  /** The network chooses how to go on. */
  method GoOn(t: Tftp)
    requires t.Valid() && Willing(t.world.server) && t.savedFilepos > 0
    modifies t`world
    ensures t.Valid() && t.world.server == old(t.world.server) && t.View() == old(t.View())
    ensures PlannedAgain(t.View(), t.world, ReopeningPlan(old(t.world)))
  {
    ghost var c := t.View();
    GoingOn(c, t.world);
    hide TftpSafety.Core, PlannedAgain, ReopeningScript, ReopeningPlan, WindowOk, EofOk;
    t.world := t.world.(script := ReopeningScript(t.bufEof, t.world));
    assert t.View() == c;
  }

  lemma GoingOn(c: Client, w: World)
    requires Core(c, w) && c.req > 0 && WindowOk(w.server, c) && c.base > 0 && Willing(w.server)
    ensures var w' := w.(script := ReopeningScript(c.eof, w));
      Core(c, w') && PlannedAgain(c, w', ReopeningPlan(w))
  {
    WindowMoved(c, w);
    hide TftpSafety.Core, PlannedAgain, ReopeningScript, ReopeningPlan, WindowOk;
    CoreIgnoresScript(c, w, ReopeningScript(c.eof, w));
    ReopeningIsPlanned(c, w);
  }

  /** A client just started opens a file and reads any parts of it in any order. There is a script with which
      it succeeds up to the first backward seek, and at every backward seek a way for the network to go on
      from there. */
  method OpenAndReadAll(server: Server, requests: seq<(nat, nat)>)
    returns (found: bool, out: seq<Option<seq<byte>>>)
    requires Willing(server) && (Announces(server) || Within(server))
    requires forall i :: 0 <= i < |requests| ==> requests[i].1 > 0 && Reachable(server, requests[i].0 + requests[i].1)
    ensures found && |out| == |requests|
    ensures forall i :: 0 <= i < |requests| ==>
      out[i].Some? && Answers(server.file, requests[i].0, requests[i].1, out[i])
  {
    OpeningIsPlanned(server);
    ghost var p := OpeningPlan(server);
    var t := new Tftp(server, OpeningScript(server));
    hide PlannedOpen, Obliged, Willing, TftpSafety.Core, OpeningScript, TftpProtocol.Pos, Within, Reachable;
    found := t.TftpDir(false, p);
    out := ReadMany(t, requests, p);
  }

  method ReadMany(t: Tftp, requests: seq<(nat, nat)>, ghost p0: Plan) returns (out: seq<Option<seq<byte>>>)
    requires t.Valid() && Willing(t.world.server) && t.Promised(p0)
    requires forall i :: 0 <= i < |requests| ==>
      requests[i].1 > 0 && Reachable(t.world.server, requests[i].0 + requests[i].1)
    modifies t, t.buf
    ensures t.world.server == old(t.world.server) && |out| == |requests|
    ensures forall i :: 0 <= i < |requests| ==>
      out[i].Some? && Answers(t.world.server.file, requests[i].0, requests[i].1, out[i])
  {
    hide *;
    out := [];
    ghost var p := p0;
    for i := 0 to |requests|
      invariant t.Valid() && t.world.server == old(t.world.server) && t.Promised(p) && |out| == i
      invariant forall j :: 0 <= j < i ==>
        out[j].Some? && Answers(t.world.server.file, requests[j].0, requests[j].1, out[j])
    {
      var r;
      r, p := ReadEither(t, requests[i].0, requests[i].1, p);
      out := out + [r];
    }
  }

  /** A read that goes on, or one behind a backward seek. */
  method ReadEither(t: Tftp, position: nat, n: nat, ghost p: Plan) returns (r: Option<seq<byte>>, ghost p': Plan)
    requires t.Valid() && Willing(t.world.server) && t.Promised(p) && n > 0 && Reachable(t.world.server, position + n)
    modifies t, t.buf
    ensures t.Valid() && t.world.server == old(t.world.server) && t.Promised(p')
    ensures r.Some? && Answers(t.world.server.file, position, n, r)
  {
    hide TftpSafety.Core, Willing, Reachable, Obliged;
    if position < t.savedFilepos {
      r, p' := ReadBack(t, position, n);
    } else {
      p' := p;
      r := t.ReadAt(position, n, p);
    }
  }

  lemma RefusedIsUnanswered(c: Client, server: Server, rest: seq<Move>)
    requires c.req == 0
    ensures !Answered(c, World(server, [], [], [], [Refuse(0), Deliver(0)] + rest))
  {
    var c' := Fresh(c.(tp := Rrq));
    var w := World(server, [], [], [], [Refuse(0), Deliver(0)] + rest);
    var w' := w.(up := [Up(1, Listener, Rrq)]);
    assert [] + [Up(1, Listener, Rrq)] == [Up(1, Listener, Rrq)];
    assert Transmit(w, Up(1, Listener, Rrq)) == (w', true);
    Refused(c', w', 0, rest);
    hide Fill;
  }

  /** A server that answers the request with an error has no such file, whatever it sends afterwards. */
  method FileRefused(server: Server, rest: seq<Move>) returns (found: bool, errnum: Errnum)
    requires Honest(server)
    ensures !found && errnum == ERR_FILE_NOT_FOUND
  {
    var t := new Tftp(server, [Refuse(0), Deliver(0)] + rest);
    RefusedIsUnanswered(t.View().(filemax := -1), server, rest);
    assert HasRoute(t.world.script);
    hide Answered, TftpSafety.Core, Obliged;
    found := t.TftpDir(false);
    errnum := t.errnum;
  }

  /** A successful answer holds exactly the n bytes of the file at position. */
  ghost predicate Answers(file: seq<byte>, position: nat, n: nat, r: Option<seq<byte>>) {
    r.Some? && n > 0 ==> position + n <= |file| && r.value == file[position..position + n]
  }

  /** now is was with the file's bytes [from, to) written over its beginning. */
  ghost predicate Copied(file: seq<byte>, from: nat, to: nat, was: seq<byte>, now: seq<byte>) {
    && from <= to && to - from <= |was|
    && (from < to ==> to <= |file|)
    && now == (if from < to then file[from..to] else []) + was[to - from..]
  }

  lemma CopiedOn(file: seq<byte>, from: nat, mid: nat, to: nat, was: seq<byte>, then_: seq<byte>, now: seq<byte>)
    requires Copied(file, from, mid, was, then_) && mid < to <= |file| && to - from <= |was|
    requires now == then_[..mid - from] + file[mid..to] + then_[to - from..]
    ensures Copied(file, from, to, was, now)
  {
    assert file[from..to] == (if from < mid then file[from..mid] else []) + file[mid..to];
    assert then_[to - from..] == was[to - from..];
  }
}
