/** getdec and inet_aton of misc.c, and why they undo %d and %@. */
module Inet {
  import opened Basics
  import opened Format

  predicate IsDigit(c: char) { '0' <= c <= '9' }

  function DigitValue(c: char): nat
    requires IsDigit(c)
  {
    c as int - '0' as int
  }

  /** The number of digits s starts with. */
  function Run(s: string): (n: nat)
    ensures n <= |s| && (n < |s| ==> !IsDigit(s[n]))
    ensures forall i :: 0 <= i < n ==> IsDigit(s[i])
  {
    if s == "" || !IsDigit(s[0]) then 0 else 1 + Run(s[1..])
  }

  /** The number a string of digits denotes. */
  function Value(s: string): nat
    requires forall c <- s :: IsDigit(c)
  {
    if s == "" then 0 else 10 * Value(s[..|s| - 1]) + DigitValue(s[|s| - 1])
  }

  /** A 32-bit int holding n, should the arithmetic overflow. */
  function Wrap(n: int): (i: int)
    ensures -0x8000_0000 <= i < 0x8000_0000
    ensures -0x8000_0000 <= n < 0x8000_0000 ==> i == n
  {
    (n + 0x8000_0000) % WORD - 0x8000_0000
  }

  lemma WrapShift(n: int, q: int)
    ensures Wrap(n + WORD * q) == Wrap(n)
  {
  }

  lemma WrapStep(n: int, d: nat)
    ensures Wrap(Wrap(n) * 10 + d) == Wrap(n * 10 + d)
  {
    var q := (n + 0x8000_0000) / WORD;
    assert Wrap(n) == n - WORD * q;
    WrapShift(n * 10 + d, -10 * q);
  }

  /** What getdec makes of the text at the pointer: -1 and no step if there is no digit. */
  function Getdec(s: string): (r: (int, nat))
    ensures r.1 <= |s|
  {
    var n := Run(s);
    if n == 0 then (-1, 0) else (Wrap(Value(s[..n])), n)
  }

  /** getdec; s is the text at the caller's pointer, p the number of characters it moves. */
  method GetDec(s: string) returns (ret: int, p: nat)
    ensures (ret, p) == Getdec(s)
  {
    p, ret := 0, 0;
    if s == "" || !IsDigit(s[0]) {
      return -1, 0;
    }
    while p < |s| && IsDigit(s[p])
      invariant p <= |s| && forall i :: 0 <= i < p ==> IsDigit(s[i])
      invariant ret == Wrap(Value(s[..p]))
    {
      assert s[..p + 1][..p] == s[..p] && s[..p + 1][p] == s[p];
      WrapStep(Value(s[..p]), DigitValue(s[p]));
      ret := Wrap(ret * 10 + DigitValue(s[p]));
      p := p + 1;
    }
    RunIs(s, p);
  }

  lemma {:induction false} RunIs(s: string, n: nat)
    requires n <= |s| && (forall i :: 0 <= i < n ==> IsDigit(s[i])) && (n < |s| ==> !IsDigit(s[n]))
    ensures Run(s) == n
  {
    if n > 0 { RunIs(s[1..], n - 1); }
  }

  // ---------------------------------------------------------------- getdec undoes %d

  lemma {:induction false} DecimalDigits(n: nat)
    ensures forall c <- Decimal(n) :: IsDigit(c)
    ensures Value(Decimal(n)) == n
  {
    if n < 10 {
      assert Decimal(n)[..0] == "";
    } else {
      DecimalDigits(n / 10);
      var s := Decimal(n);
      assert s[..|s| - 1] == Decimal(n / 10) && s[|s| - 1] == Digit(n % 10);
    }
  }

  /** getdec reads back every non-negative int that %d printed, and stops right behind it. */
  lemma GetdecUndoesDecimal(n: nat, rest: string)
    requires n < 0x8000_0000 && (rest == "" || !IsDigit(rest[0]))
    ensures Getdec(Decimal(n) + rest) == (n, |Decimal(n)|)
  {
    var d := Decimal(n);
    DecimalDigits(n);
    forall i | 0 <= i < |d|
      ensures IsDigit((d + rest)[i])
    {
      assert d[i] in d;
    }
    RunIs(d + rest, |d|);
    assert (d + rest)[..|d|] == d;
  }

  // ---------------------------------------------------------------- reading an address

  /** Octets i to 3 of a dotted address at the start of s; None where inet_aton returns 0. */
  function Octets(s: string, i: nat): (r: Option<seq<byte>>)
    requires i <= 4
    ensures r.Some? ==> |r.value| == 4 - i
    decreases 4 - i
  {
    if i == 4 then Some([])
    else
      var (val, n) := Getdec(s);
      if val < 0 || val > 255 then None
      else if i == 3 then Some([val])
      else if n == |s| || s[n] != '.' then None
      else
        var r := Octets(s[n + 1..], i + 1);
        if r.Some? then Some([val] + r.value) else None
  }

  /** Octets already read, in front of those to come. */
  function Prepend(done: seq<byte>, o: Option<seq<byte>>): Option<seq<byte>> {
    if o.Some? then Some(done + o.value) else None
  }

  lemma OctetsStep(s: string, i: nat)
    requires i < 4
    ensures var (val, n) := Getdec(s);
      if val < 0 || val > 255 then Octets(s, i) == None
      else if i == 3 then Octets(s, i) == Some([val])
      else if n < |s| && s[n] == '.' then Octets(s, i) == Prepend([val], Octets(s[n + 1..], i + 1))
      else Octets(s, i) == None
  {
    hide Getdec;
  }

  lemma PrependTwice(a: seq<byte>, b: seq<byte>, o: Option<seq<byte>>)
    ensures Prepend(a, Prepend(b, o)) == Prepend(a + b, o) && Prepend([], o) == o
  {
    if o.Some? { assert a + (b + o.value) == a + b + o.value && [] + o.value == o.value; }
  }

  lemma PrependStep(p: string, i: nat, done: seq<byte>)
    requires i < 3
    ensures var (val, n) := Getdec(p);
      0 <= val <= 255 && n < |p| && p[n] == '.' ==>
        Prepend(done, Octets(p, i)) == Prepend(done + [val], Octets(p[n + 1..], i + 1))
  {
    OctetsStep(p, i);
    hide Getdec, Octets;
    var (val, n) := Getdec(p);
    if 0 <= val <= 255 && n < |p| && p[n] == '.' {
      PrependTwice(done, [val], Octets(p[n + 1..], i + 1));
    }
  }

  /** The 32-bit word whose bytes in memory are b: the machine is little-endian. */
  function InMemory(b: seq<byte>): nat
    requires |b| == 4
  {
    b[0] as int + 0x100 * (b[1] as int) + 0x1_0000 * (b[2] as int) + 0x100_0000 * (b[3] as int)
  }

  /** The number whose bytes are b, highest first. */
  function BigEndian(b: seq<byte>): nat
    requires |b| <= 4
  {
    if |b| == 0 then 0
    else if |b| == 1 then b[0]
    else if |b| == 2 then b[0] as int * 0x100 + b[1] as int
    else if |b| == 3 then b[0] as int * 0x1_0000 + b[1] as int * 0x100 + b[2] as int
    else b[0] as int * 0x100_0000 + b[1] as int * 0x1_0000 + b[2] as int * 0x100 + b[3] as int
  }

  /** htonl on the machine: the bytes in the other order. */
  function Htonl(x: nat): nat {
    InMemory([Octet(x, 3), Octet(x, 2), Octet(x, 1), Octet(x, 0)])
  }

  /** (ip << 8) | val loses nothing in the four turns. */
  lemma BigEndianAppend(b: seq<byte>, c: byte)
    requires |b| < 4
    ensures (BigEndian(b) * 256 + c) % WORD == BigEndian(b + [c])
  {
  }

  lemma Quotients(x: nat, b0: nat, b1: nat, b2: nat, b3: nat)
    requires b0 < 256 && b1 < 256 && b2 < 256 && b3 < 256
    requires x == b0 * 0x100_0000 + b1 * 0x1_0000 + b2 * 0x100 + b3
    ensures x % 256 == b3 && x / 0x100 % 256 == b2 && x / 0x1_0000 % 256 == b1 && x / 0x100_0000 % 256 == b0
  {
    assert x / 0x100 == b0 * 0x1_0000 + b1 * 0x100 + b2;
    assert x / 0x1_0000 == b0 * 0x100 + b1;
    assert x / 0x100_0000 == b0;
  }

  lemma HtonlSwaps(b: seq<byte>)
    requires |b| == 4
    ensures Htonl(BigEndian(b)) == InMemory(b)
  {
    Quotients(BigEndian(b), b[0], b[1], b[2], b[3]);
  }

  /** One turn of the loop of inet_aton on the text p; ok is false where it returns 0. */
  method TakeOctet(p: string, i: nat, ghost done: seq<byte>) returns (ok: bool, val: int, p': string)
    requires i < 4
    ensures !ok ==> Prepend(done, Octets(p, i)) == None
    ensures ok ==> 0 <= val <= 255
    ensures ok ==> Prepend(done, Octets(p, i)) == (if i == 3 then Some(done + [val])
                                                  else Prepend(done + [val], Octets(p', i + 1)))
  {
    OctetsStep(p, i);
    if i < 3 { PrependStep(p, i, done); }
    hide Getdec, Octets;
    var n;
    val, n := GetDec(p);
    if val < 0 || val > 255 { return false, val, p; }
    if i != 3 {
      if n == |p| || p[n] != '.' { return false, val, p; }
      n := n + 1;
    }
    return true, val, p[n..];
  }

  // ---------------------------------------------------------------- what inet_aton accepts

  /** A number that passes for an octet: its value as a 32-bit int is at most 255. */
  ghost predicate Number(t: string) {
    t != "" && (forall c <- t :: IsDigit(c)) && 0 <= Wrap(Value(t)) <= 255
  }

  function Dotted(parts: seq<string>): string
    requires parts != []
  {
    if |parts| == 1 then parts[0] else parts[0] + "." + Dotted(parts[1..])
  }

  /** s starts with n numbers separated by dots, and no further digit follows. */
  ghost predicate Quad(s: string, parts: seq<string>, rest: string, n: nat) {
    && |parts| == n > 0 && (forall t <- parts :: Number(t))
    && (rest == "" || !IsDigit(rest[0])) && s == Dotted(parts) + rest
  }

  function Values(parts: seq<string>): (b: seq<byte>)
    requires forall t <- parts :: Number(t)
    ensures |b| == |parts|
  {
    if parts == [] then []
    else
      assert Number(parts[0]);
      [Wrap(Value(parts[0]))] + Values(parts[1..])
  }

  lemma GetdecNumber(t: string, rest: string)
    requires t != "" && (forall c <- t :: IsDigit(c)) && (rest == "" || !IsDigit(rest[0]))
    ensures Getdec(t + rest) == (Wrap(Value(t)), |t|)
  {
    forall i | 0 <= i < |t|
      ensures IsDigit((t + rest)[i])
    {
      assert t[i] in t;
    }
    RunIs(t + rest, |t|);
    assert (t + rest)[..|t|] == t;
  }

  lemma GetdecSplits(s: string)
    ensures var (val, n) := Getdec(s);
      if n == 0 then val == -1
      else && (forall c <- s[..n] :: IsDigit(c)) && val == Wrap(Value(s[..n]))
           && (n < |s| ==> !IsDigit(s[n])) && s == s[..n] + s[n..]
  {
  }

  lemma {:induction false} QuadAccepted(parts: seq<string>, rest: string, i: nat)
    requires i < 4 && |parts| == 4 - i && (forall t <- parts :: Number(t)) && (rest == "" || !IsDigit(rest[0]))
    ensures Octets(Dotted(parts) + rest, i) == Some(Values(parts))
    decreases |parts|
  {
    var t := parts[0];
    assert Number(t);
    if i == 3 {
      GetdecNumber(t, rest);
      hide Getdec, Octets;
      OctetsStep(t + rest, 3);
      assert Values(parts) == [Wrap(Value(t))] + Values(parts[1..]) == [Wrap(Value(t))];
    } else {
      QuadAccepted(parts[1..], rest, i + 1);
      FirstOfQuad(t, Dotted(parts[1..]) + rest, i);
      Behind(t, Dotted(parts[1..]), rest);
    }
  }

  lemma Behind(t: string, dotted: string, rest: string)
    ensures t + "." + dotted + rest == t + ("." + (dotted + rest))
  {
  }

  lemma FirstOfQuad(t: string, tail: string, i: nat)
    requires Number(t) && i < 3
    ensures Octets(t + ("." + tail), i) == Prepend([Wrap(Value(t))], Octets(tail, i + 1))
  {
    var s := t + ("." + tail);
    GetdecNumber(t, "." + tail);
    hide Getdec, Octets, Value;
    assert s[|t|] == '.' && s[|t| + 1..] == tail;
    OctetsStep(s, i);
  }

  lemma {:induction false} AcceptedQuad(s: string, i: nat) returns (parts: seq<string>, rest: string)
    requires i < 4 && Octets(s, i).Some?
    ensures Quad(s, parts, rest, 4 - i)
    decreases 4 - i
  {
    var n := FirstNumber(s, i);
    if i == 3 {
      parts, rest := [s[..n]], s[n..];
    } else {
      var more;
      more, rest := AcceptedQuad(s[n + 1..], i + 1);
      parts := [s[..n]] + more;
      Joined(s, n, more, rest);
    }
  }

  lemma FirstNumber(s: string, i: nat) returns (n: nat)
    requires i < 4 && Octets(s, i).Some?
    ensures n <= |s| && Number(s[..n]) && s == s[..n] + s[n..] && (n < |s| ==> !IsDigit(s[n]))
    ensures i < 3 ==> n < |s| && s[n] == '.' && Octets(s[n + 1..], i + 1).Some?
  {
    n := Getdec(s).1;
    GetdecSplits(s);
    OctetsStep(s, i);
    hide Getdec, Octets, Value;
  }

  lemma Joined(s: string, n: nat, more: seq<string>, rest: string)
    requires n < |s| && s[n] == '.' && more != [] && s[n + 1..] == Dotted(more) + rest
    ensures s == Dotted([s[..n]] + more) + rest
  {
    var parts := [s[..n]] + more;
    assert parts[1..] == more && s[n..] == "." + s[n + 1..];
    Behind(s[..n], Dotted(more), rest);
    assert s == s[..n] + s[n..];
  }

  /** inet_aton accepts a text if and only if it starts with four numbers separated by dots, and then
      the address consists of their values. */
  lemma AcceptsQuads(s: string)
    ensures Octets(s, 0).Some? <==> exists parts, rest :: Quad(s, parts, rest, 4)
    ensures forall parts, rest :: Quad(s, parts, rest, 4) ==> Octets(s, 0) == Some(Values(parts))
  {
    forall parts, rest | Quad(s, parts, rest, 4)
      ensures Octets(s, 0) == Some(Values(parts))
    {
      QuadAccepted(parts, rest, 0);
    }
    if Octets(s, 0).Some? {
      var parts, rest := AcceptedQuad(s, 0);
    }
  }

  lemma {:induction false} ValueBound(t: string)
    requires forall c <- t :: IsDigit(c)
    ensures Value(t) < Limit(|t|)
  {
    if t != "" {
      ValueBound(t[..|t| - 1]);
      assert t[|t| - 1] in t;
    }
  }

  /** Of up to nine digits, a number is one that is at most 255. */
  lemma ShortNumber(t: string)
    requires t != "" && (forall c <- t :: IsDigit(c)) && |t| <= 9
    ensures Number(t) <==> Value(t) <= 255
  {
    ValueBound(t);
    LimitGrows(|t|, 9);
    assert Limit(9) == 10 * 10 * 10 * 10 * 10 * 10 * 10 * 10 * Limit(1);
    hide Value;
  }

  lemma {:induction false} LimitGrows(i: nat, j: nat)
    requires i <= j
    ensures 0 < Limit(i) <= Limit(j)
    decreases j
  {
    if i < j { LimitGrows(i, j - 1); } else if i > 0 { LimitGrows(i - 1, i - 1); }
  }

  lemma ValuesOfFour(a: string, b: string, c: string, d: string)
    requires Number(a) && Number(b) && Number(c) && Number(d)
    ensures forall t <- [a, b, c, d] :: Number(t)
    ensures Values([a, b, c, d]) == [Wrap(Value(a)), Wrap(Value(b)), Wrap(Value(c)), Wrap(Value(d))]
  {
    var s := [a, b, c, d];
    assert s[1..] == [b, c, d] && [b, c, d][1..] == [c, d] && [c, d][1..] == [d] && [d][1..] == [];
    hide Number, Value, Wrap;
    assert Values([d]) == [Wrap(Value(d))] + Values([]);
    assert Values([c, d]) == [Wrap(Value(c))] + Values([d]);
  }

  lemma PrintedNumber(n: nat)
    requires 0 <= Wrap(n) <= 255
    ensures Number(Decimal(n)) && Wrap(Value(Decimal(n))) == Wrap(n)
  {
    DecimalDigits(n);
  }

  /** A greater number may pass as well: 4294967297 is taken for 1. */
  lemma WrappedAccepted()
    ensures var n := Decimal(4294967297);
      Octets(Dotted([n, Decimal(0), Decimal(0), Decimal(0)]) + "", 0) == Some([1, 0, 0, 0])
  {
    var n, zero := Decimal(4294967297), Decimal(0);
    assert Wrap(4294967297) == 1 && Wrap(0) == 0;
    PrintedNumber(4294967297);
    PrintedNumber(0);
    hide Decimal, Wrap, Value, Number, Octets, Dotted, Values;
    ValuesOfFour(n, zero, zero, zero);
    QuadAccepted([n, zero, zero, zero], "", 0);
  }

  // ---------------------------------------------------------------- inet_aton

  /** inet_aton; None where it returns 0 and leaves the address alone. */
  method InetAton(s: string) returns (addr: Option<nat>)
    ensures addr == var o := Octets(s, 0); if o.Some? then Some(InMemory(o.value)) else None
    ensures addr.Some? <==> exists parts, rest :: Quad(s, parts, rest, 4)
    ensures forall parts, rest :: Quad(s, parts, rest, 4) ==> addr == Some(InMemory(Values(parts)))
  {
    addr := ReadAddress(s);
    AcceptsQuads(s);
    hide Quad, Octets, InMemory, Values;
  }

  method ReadAddress(s: string) returns (addr: Option<nat>)
    ensures addr == var o := Octets(s, 0); if o.Some? then Some(InMemory(o.value)) else None
  {
    var ip, p, ok := 0, s, true;
    ghost var done: seq<byte> := [];
    PrependTwice([], [], Octets(s, 0));
    assert BigEndian(done) == 0;
    hide BigEndian, Getdec, Htonl, InMemory, Octets, Prepend;
    for i := 0 to 4
      invariant |done| == i && ip == BigEndian(done)
      invariant Octets(s, 0) == if i < 4 then Prepend(done, Octets(p, i)) else Some(done)
    {
      ok, ip, p, done := TakeNext(ip, p, i, done);
      if !ok { return None; }
    }
    HtonlSwaps(done);
    addr := Some(Htonl(ip));
  }

  /** One turn of the loop: an octet is read and put behind those in ip. */
  method TakeNext(ip: nat, p: string, i: nat, ghost done: seq<byte>)
    returns (ok: bool, ip': nat, p': string, ghost done': seq<byte>)
    requires i < 4 && |done| == i && ip == BigEndian(done)
    ensures !ok ==> Prepend(done, Octets(p, i)) == None
    ensures ok ==> |done'| == i + 1 && ip' == BigEndian(done')
    ensures ok ==> Prepend(done, Octets(p, i)) == (if i == 3 then Some(done') else Prepend(done', Octets(p', i + 1)))
  {
    hide BigEndian, Octets, Prepend;
    var val;
    ok, val, p' := TakeOctet(p, i, done);
    ip', done' := ip, done;
    if ok {
      BigEndianAppend(done, val);
      ip' := (ip * 256 + val) % WORD;
      done' := done + [val];
    }
  }

  // ---------------------------------------------------------------- inet_aton undoes %@

  /** The bytes k to 3 of a word in memory. */
  function Bytes(u: nat, k: nat): (b: seq<byte>)
    requires k <= 4
    ensures |b| == 4 - k
    decreases 4 - k
  {
    if k == 4 then [] else [Octet(u, k)] + Bytes(u, k + 1)
  }

  lemma {:induction false} OctetsUndoDots(u: nat, k: nat, rest: string)
    requires k < 4 && (rest == "" || !IsDigit(rest[0]))
    ensures |Dots(u, k)| > 0
    ensures Octets(ButLast(Dots(u, k)) + rest, k) == Some(Bytes(u, k))
    decreases 4 - k
  {
    if k == 3 {
      LastOctetUndone(u, rest);
    } else {
      OctetsUndoDots(u, k + 1, rest);
      OctetUndone(u, k, rest);
    }
  }

  lemma LastOctetUndone(u: nat, rest: string)
    requires rest == "" || !IsDigit(rest[0])
    ensures Octets(ButLast(Dots(u, 3)) + rest, 3) == Some(Bytes(u, 3))
  {
    var o := Octet(u, 3);
    var d := Decimal(o);
    GetdecUndoesDecimal(o, rest);
    hide Getdec, Octets, Decimal, Octet;
    assert Dots(u, 3) == d + "." + "" && Bytes(u, 3) == [o] + [] == [o];
    assert ButLast(Dots(u, 3)) == d;
    OctetsStep(d + rest, 3);
  }

  lemma ButLastSplit(d: string, dots: string, rest: string)
    requires |dots| > 0
    ensures var s, tail := ButLast(d + "." + dots) + rest, ButLast(dots) + rest;
      s == d + ("." + tail) && |s| > |d| && s[|d|] == '.' && s[|d| + 1..] == tail
  {
  }

  lemma OctetUndone(u: nat, k: nat, rest: string)
    requires k < 3 && |Dots(u, k + 1)| > 0
    requires Octets(ButLast(Dots(u, k + 1)) + rest, k + 1) == Some(Bytes(u, k + 1))
    ensures Octets(ButLast(Dots(u, k)) + rest, k) == Some(Bytes(u, k))
  {
    var o := Octet(u, k);
    var d, tail := Decimal(o), ButLast(Dots(u, k + 1)) + rest;
    var s := ButLast(Dots(u, k)) + rest;
    assert Dots(u, k) == d + "." + Dots(u, k + 1) && Bytes(u, k) == [o] + Bytes(u, k + 1);
    ButLastSplit(d, Dots(u, k + 1), rest);
    hide Getdec, Octets, Decimal, Octet, Dots, Bytes, ButLast;
    GetdecUndoesDecimal(o, "." + tail);
    OctetsStep(s, k);
  }

  lemma FourBytes(u: nat)
    ensures Bytes(u, 0) == [Octet(u, 0), Octet(u, 1), Octet(u, 2), Octet(u, 3)]
  {
    hide Octet;
    assert Bytes(u, 3) == [Octet(u, 3)] + [] == [Octet(u, 3)];
    assert Bytes(u, 2) == [Octet(u, 2)] + Bytes(u, 3);
    assert Bytes(u, 1) == [Octet(u, 1)] + Bytes(u, 2);
    assert Bytes(u, 0) == [Octet(u, 0)] + Bytes(u, 1);
  }

  /** A word is made of its four octets. */
  lemma OctetsOfWord(u: nat)
    requires u < 0x1_0000_0000
    ensures u == Octet(u, 0) as int + 0x100 * (Octet(u, 1) as int) + 0x1_0000 * (Octet(u, 2) as int)
                 + 0x100_0000 * (Octet(u, 3) as int)
  {
    var u1, u2, u3 := u / 0x100, u / 0x1_0000, u / 0x100_0000;
    assert u == 256 * u1 + u % 256 && u1 == 256 * u2 + u1 % 256 && u2 == 256 * u3 + u2 % 256 && u3 < 256;
  }

  lemma BytesInMemory(u: nat)
    requires u < WORD
    ensures InMemory(Bytes(u, 0)) == u
  {
    FourBytes(u);
    OctetsOfWord(u);
    hide Octet, Bytes;
  }

  const ADDRESS := "%@"

  lemma RenderAddress(i: int)
    requires IsInt(Int(i))
    ensures |Dots(Bits(i), 0)| > 0
    ensures Matches(ADDRESS, [Int(i)]) && Render(ADDRESS, [Int(i)]) == ButLast(Dots(Bits(i), 0))
  {
    DotsLength(Bits(i), 0);
    AddressFormat();
    assert [Int(i)][1..] == [];
    hide Dots, Bits, ButLast, Read;
    var text := ButLast(Dots(Bits(i), 0));
    assert Item(Read("@"), Int(i)) == text;
    assert Render("", []) == "" && text + "" == text;
  }

  lemma AddressFormat()
    ensures ADDRESS[0] == '%' && ADDRESS[1..] == "@" && ADDRESS[2..] == ""
    ensures Complete("@") && Read("@") == Directive(false, 8, '@', 1)
  {
  }

  /** inet_aton reads back every 32-bit address in network byte order that %@ printed, whatever
      follows it as long as it is not a digit. */
  lemma AtonUndoesPrint(i: int, rest: string)
    requires IsInt(Int(i)) && (rest == "" || !IsDigit(rest[0]))
    ensures Matches(ADDRESS, [Int(i)])
    ensures var o := Octets(Render(ADDRESS, [Int(i)]) + rest, 0);
      o.Some? && InMemory(o.value) == Bits(i)
  {
    RenderAddress(i);
    hide Render, Matches, Dots, Octets, Bits, ButLast;
    OctetsUndoDots(Bits(i), 0, rest);
    BytesInMemory(Bits(i));
  }
}
