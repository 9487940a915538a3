/** The loops of etherboot_vsprintf. */
module Printf {
  import opened Basics
  import opened Format

  /** The console: what grub_putchar has put on it. */
  class Console {
    var shown: string
    constructor () ensures shown == "" { shown := ""; }
  }

  lemma OverMore(was: string, at: nat, r: string, c: char)
    requires at + |r| < |was|
    ensures Overwrite(was, at, r)[at + |r| := c] == Overwrite(was, at, r + [c])
  {
  }

  lemma OverFront(was: string, at: nat, r: string)
    requires at + |r| <= |was|
    ensures Overwrite(was, at, r)[..at + |r|] == was[..at] + r
  {
  }

  // ---------------------------------------------------------------- items

  lemma LowFirstStep(all: string, j: nat, i: nat)
    requires j <= |all| && all[j..] == LowFirst(i)
    ensures j < |all| && all[j] == Digit(i % 10)
    ensures if i < 10 then |all| == j + 1 else all[j + 1..] == LowFirst(i / 10)
  {
    if i >= 10 { assert all[j + 1..] == all[j..][1..]; }
  }

  /** Put the digits of n, lowest first, at q0. */
  method PutLowFirst(tmp: array<char>, q0: nat, n: nat) returns (q: nat)
    requires q0 + |LowFirst(n)| <= tmp.Length
    modifies tmp
    ensures q == q0 + |LowFirst(n)| && tmp[..] == Overwrite(old(tmp[..]), q0, LowFirst(n))
  {
    ghost var was, all, j := tmp[..], LowFirst(n), 0;
    q := q0;
    var i := n;
    OverwriteNothing(was, q0, "");
    assert all[..0] == "" && all[0..] == all;
    hide Overwrite, LowFirst, Digit;
    while true
      invariant q == q0 + j && j < |all| && tmp[..] == Overwrite(was, q0, all[..j])
      invariant all[j..] == LowFirst(i)
      decreases i
    {
      LowFirstStep(all, j, i);
      OverwriteOneMore(was, q0, all, j);
      tmp[q] := Digit(i % 10);
      q, j := q + 1, j + 1;
      i := i / 10;
      if i == 0 { break; }
      LowFirstStep(all, j, i);
    }
    assert all[..j] == all;
  }

  /** s with its first k and last k characters in reverse order. */
  function Turned(s: string, k: nat): (r: string)
    requires 2 * k <= |s| + 1
    ensures |r| == |s|
  {
    seq(|s|, i requires 0 <= i < |s| => if i < k || i >= |s| - k then s[|s| - 1 - i] else s[i])
  }

  lemma TurnedOnce(s: string, k: nat)
    requires 2 * k + 1 < |s|
    ensures var t, r := Turned(s, k), |s| - 1 - k;
      t[r := t[k]][k := t[r]] == Turned(s, k + 1)
  {
  }

  lemma TurnedAll(s: string, k: nat)
    requires |s| <= 2 * k + 1 <= |s| + 2
    ensures Turned(s, k) == Reverse(s)
  {
    hide Reverse;
    var t, r := Turned(s, k), Reverse(s);
    forall i | 0 <= i < |s|
      ensures t[i] == r[i]
    {
      if i >= k && i < |s| - k { assert i == |s| - 1 - i; }
    }
  }

  lemma TurnedNone(s: string)
    ensures Turned(s, 0) == s
  {
  }

  lemma TurnedInside(was: string, at: nat, s: string, k: nat)
    requires at + |s| <= |was| && 2 * k + 1 < |s|
    ensures var t, p, r := Overwrite(was, at, Turned(s, k)), at + k, at + |s| - 1 - k;
      t[r := t[p]][p := t[r]] == Overwrite(was, at, Turned(s, k + 1))
  {
    OverAt(was, at, Turned(s, k), k, |s| - 1 - k);
    TurnedOnce(s, k);
    hide Overwrite, Turned;
  }

  method Swap(tmp: array<char>, r: nat, p: nat)
    requires p < tmp.Length && r < tmp.Length
    modifies tmp
    ensures tmp[..] == old(tmp[..])[r := old(tmp[..])[p]][p := old(tmp[..])[r]]
  {
    tmp[r], tmp[p] := tmp[p], tmp[r];
  }

  /** Reverse the characters between p0 and q, stopping in the middle. */
  method ReverseInPlace(tmp: array<char>, p0: nat, q: nat)
    requires p0 <= q <= tmp.Length
    modifies tmp
    ensures tmp[..] == Overwrite(old(tmp[..]), p0, Reverse(old(tmp[p0..q])))
  {
    ghost var was, s := tmp[..], tmp[p0..q];
    TurnedNone(s);
    OverSelf(was, p0, q);
    ghost var k := TurnInPlace(tmp, p0, q, was, s);
    TurnedAll(s, k);
  }

  method TurnInPlace(tmp: array<char>, p0: nat, q: nat, ghost was: string, ghost s: string) returns (ghost k: nat)
    requires p0 <= q <= tmp.Length == |was| && |s| == q - p0 && tmp[..] == Overwrite(was, p0, Turned(s, 0))
    modifies tmp
    ensures |s| <= 2 * k + 1 <= |s| + 2 && tmp[..] == Overwrite(was, p0, Turned(s, k))
  {
    var p, r := p0, q as int - 1;
    k := 0;
    hide Overwrite, Turned;
    while r > p
      invariant p == p0 + k && r == p0 + |s| - 1 - k && 2 * k <= |s| + 1
      invariant tmp[..] == Overwrite(was, p0, Turned(s, k))
      decreases r
    {
      TurnedInside(was, p0, s, k);
      Swap(tmp, r, p);
      k := k + 1;
      p := p + 1;
      r := r - 1;
    }
  }

  lemma OverSelf(was: string, i: nat, j: nat)
    requires i <= j <= |was|
    ensures Overwrite(was, i, was[i..j]) == was
  {
  }

  /** Reading and swapping inside the part written over. */
  lemma OverAt(was: string, at: nat, t: string, i: nat, j: nat)
    requires at + |t| <= |was| && i < |t| && j < |t|
    ensures Overwrite(was, at, t)[at + i] == t[i] && Overwrite(was, at, t)[at + j] == t[j]
    ensures Overwrite(was, at, t)[at + j := t[i]][at + i := t[j]] == Overwrite(was, at, t[j := t[i]][i := t[j]])
  {
  }

  lemma OverOver(was: string, at: nat, r: string, t: string)
    requires at + |r| <= |was| && |t| == |r|
    ensures Overwrite(was, at, r)[at..at + |r|] == r
    ensures Overwrite(Overwrite(was, at, r), at, t) == Overwrite(was, at, t)
  {
  }

  lemma {:induction false} LowFirstLength(n: nat)
    ensures |LowFirst(n)| == |Decimal(n)|
  {
    if n >= 10 { LowFirstLength(n / 10); }
  }

  method PutDecimal(tmp: array<char>, q0: nat, n: nat) returns (q: nat)
    requires q0 + |Decimal(n)| <= tmp.Length
    modifies tmp
    ensures q == q0 + |Decimal(n)| && tmp[..] == Overwrite(old(tmp[..]), q0, Decimal(n))
  {
    LowFirstLength(n);
    ReverseLowFirst(n);
    OverOver(tmp[..], q0, LowFirst(n), Decimal(n));
    q := PutLowFirst(tmp, q0, n);
    ReverseInPlace(tmp, q0, q);
  }

  method PutHex(tmp: array<char>, q0: nat, u: nat, digits: nat, lower: bool) returns (q: nat)
    requires q0 + digits <= tmp.Length
    modifies tmp
    ensures q == q0 + digits && tmp[..] == Overwrite(old(tmp[..]), q0, Hex(u, digits, lower))
  {
    ghost var was, done := tmp[..], "";
    q := q0;
    var k: nat := digits;
    OverwriteNothing(was, q0, "");
    hide Overwrite;
    hide HexDigit, Nibble, Hex;
    while k > 0
      invariant k <= digits && q == q0 + |done| && |done| == digits - k
      invariant Hex(u, digits, lower) == done + Hex(u, k, lower)
      invariant tmp[..] == Overwrite(was, q0, done)
    {
      k := k - 1;
      var c := HexDigit(Nibble(u, k), lower);
      PeelHex(done, u, k, lower);
      OverMore(was, q0, done, c);
      tmp[q] := c;
      q := q + 1;
      done := done + [c];
    }
    assert done + Hex(u, 0, lower) == done;
  }

  lemma PeelHex(done: string, u: nat, k: nat, lower: bool)
    ensures done + Hex(u, k + 1, lower) == done + [HexDigit(Nibble(u, k), lower)] + Hex(u, k, lower)
  {
  }

  // ---------------------------------------------------------------- output

  lemma OverAppend(was: string, at: nat, e: string, t: string)
    requires at + |e| + |t| <= |was|
    ensures Overwrite(Overwrite(was, at, e), at + |e|, t) == Overwrite(was, at, e + t)
  {
  }

  /** What a nested sprintf leaves in front of the next one. */
  lemma OverPrefix(was: string, at: nat, t: string)
    requires at + |t| < |was|
    ensures Overwrite(was, at, t + [NUL])[..at + |t|] == was[..at] + t
  {
  }

  /** Put the characters of text into buf from s on, or on the console if buf is null. */
  method Emit(buf: array?<char>, s0: nat, text: string, console: Console) returns (s: nat)
    requires buf != null ==> s0 + |text| <= buf.Length
    modifies console, if buf == null then {} else {buf as object}
    ensures if buf == null then s == s0 && console.shown == old(console.shown) + text
            else s == s0 + |text| && buf[..] == Overwrite(old(buf[..]), s0, text) && console.shown == old(console.shown)
  {
    s := s0;
    ghost var was := if buf == null then "" else buf[..];
    if buf != null { OverwriteNothing(was, s0, ""); }
    assert text[..0] == "" && old(console.shown) + "" == old(console.shown);
    hide Overwrite;
    for i := 0 to |text|
      invariant s == s0 + if buf == null then 0 else i
      invariant if buf == null then console.shown == old(console.shown) + text[..i]
                else buf[..] == Overwrite(was, s0, text[..i]) && console.shown == old(console.shown)
    {
      assert text[..i + 1] == text[..i] + [text[i]];
      if buf != null {
        OverMore(was, s0, text[..i], text[i]);
        buf[s] := text[i];
        s := s + 1;
      } else {
        console.shown := console.shown + [text[i]];
      }
    }
    assert text[..|text|] == text;
  }

  // ---------------------------------------------------------------- the formatter

  const OCTET := "%d."
  const HEX_OCTET := "%hhX:"

  lemma RenderOctet(b: byte)
    ensures Matches(OCTET, [Int(b)]) && Render(OCTET, [Int(b)]) == Decimal(b) + "."
  {
    assert OCTET[1..] == "d." && OCTET[2..] == "." && "."[1..] == "";
    assert Read("d.") == Directive(false, 8, 'd', 1);
    assert [Int(b)][1..] == [];
    assert Render(".", []) == "." + "";
    assert Render(OCTET, [Int(b)]) == Decimal(b) + Render(OCTET[2..], []);
  }

  /** A signed char argument prints like the byte it stands for. */
  function SignExtend(b: byte): int { if b < 128 then b else b - 256 }

  lemma SignedOctetHex(b: byte)
    ensures Hex(Bits(SignExtend(b)), 2, false) == Hex(b, 2, false)
  {
    var u := Bits(SignExtend(b));
    assert u == b || u == WORD - 256 + b;
    assert u % 16 == b % 16 && u / 16 % 16 == b / 16 % 16;
    assert Nibble(u, 0) == u % 16 && Nibble(b, 0) == b % 16;
    assert Nibble(u, 1) == Nibble(u / 16, 0) && Nibble(b, 1) == Nibble(b / 16, 0);
    hide HexDigit, Nibble, Bits;
    assert Hex(u, 1, false) == [HexDigit(Nibble(u, 0), false)] + "";
    assert Hex(b, 1, false) == [HexDigit(Nibble(b, 0), false)] + "";
  }

  lemma RenderHexOctet(b: byte)
    ensures Matches(HEX_OCTET, [Int(SignExtend(b))])
    ensures Render(HEX_OCTET, [Int(SignExtend(b))]) == Hex(b, 2, false) + ":"
  {
    var a := Int(SignExtend(b));
    SignedOctetHex(b);
    hide Hex, Bits;
    assert HEX_OCTET[1..] == "hhX:" && HEX_OCTET[4..] == ":" && ":"[1..] == "";
    assert Read("hhX:") == Directive(false, 2, 'X', 3);
    assert [a][1..] == [];
    assert Render(":", []) == ":" + "";
    assert Item(Directive(false, 2, 'X', 3), a) == [] + Hex(b, 2, false);
    assert Render(HEX_OCTET, [a]) == Item(Read("hhX:"), a) + Render(HEX_OCTET[4..], []);
  }

  /** Formats used inside an item do not nest further. */
  predicate Flat(fmt: string) {
    '@' !in fmt && '!' !in fmt
  }

  /** %@: the four bytes of the address, each through a nested sprintf. */
  method PutDots(tmp: array<char>, u: nat, console: Console, ghost depth: nat) returns (q: nat)
    requires tmp.Length == TMP && depth > 0
    modifies tmp, console
    ensures q == |ButLast(Dots(u, 0))| && q <= TMP && tmp[..q] == ButLast(Dots(u, 0))
    ensures console.shown == old(console.shown)
    decreases depth, 1
  {
    DotsLength(u, 0);
    ghost var all := Dots(u, 0);
    q := 0;
    assert all == tmp[..0] + Dots(u, 0);
    for k := 0 to 4
      invariant q <= |all| && all == tmp[..q] + Dots(u, k)
      invariant console.shown == old(console.shown)
    {
      var b := Octet(u, k);
      RenderOctet(b);
      q := PutNested(tmp, q, OCTET, Int(b), Decimal(b) + ".", Dots(u, k + 1), console, depth);
    }
    assert tmp[..q] == all;
    q := q - 1;
    assert tmp[..q] == ButLast(all);
  }

  /** %!: the six bytes of the Ethernet address, each through a nested sprintf. */
  method PutColons(tmp: array<char>, bytes: seq<byte>, console: Console, ghost depth: nat) returns (q: nat)
    requires tmp.Length == TMP && depth > 0 && |bytes| == 6
    modifies tmp, console
    ensures q == |ButLast(Colons(bytes))| && q <= TMP && tmp[..q] == ButLast(Colons(bytes))
    ensures console.shown == old(console.shown)
    decreases depth, 1
  {
    ColonsLength(bytes);
    ghost var all := Colons(bytes);
    q := 0;
    assert all == tmp[..0] + Colons(bytes[0..]);
    for k := 0 to 6
      invariant q <= |all| && all == tmp[..q] + Colons(bytes[k..])
      invariant console.shown == old(console.shown)
    {
      var b := bytes[k];
      assert bytes[k..][1..] == bytes[k + 1..];
      RenderHexOctet(b);
      q := PutNested(tmp, q, HEX_OCTET, Int(SignExtend(b)), Hex(b, 2, false) + ":", Colons(bytes[k + 1..]),
                     console, depth);
    }
    assert tmp[..q] == all;
    q := q - 1;
    assert tmp[..q] == ButLast(all);
  }

  /** One nested sprintf, of text t, with rest still to come. */
  method PutNested(tmp: array<char>, q0: nat, fmt: string, a: Arg, ghost t: string, ghost rest: string,
                   console: Console, ghost depth: nat) returns (q: nat)
    requires tmp.Length == TMP && depth > 0 && Flat(fmt)
    requires Matches(fmt, [a]) && Render(fmt, [a]) == t
    requires q0 + |t| < TMP
    modifies tmp, console
    ensures q == q0 + |t| && tmp[..q] == old(tmp[..q0]) + t
    ensures tmp[..q] + rest == old(tmp[..q0]) + (t + rest)
    ensures console.shown == old(console.shown)
    decreases depth, 0
  {
    ghost var was := tmp[..];
    OverPrefix(was, q0, t);
    var n := Vsprintf(tmp, q0, fmt, [a], console, depth - 1);
    q := q0 + n;
    assert tmp[..q] == tmp[..][..q];
    Associative(was[..q0], t, rest);
  }

  /** One item other than a string, formatted into tmp; it always fits. */
  method PutItem(tmp: array<char>, d: Directive, a: Arg, console: Console, ghost depth: nat) returns (q: nat)
    requires tmp.Length == TMP && d.digits <= 8
    requires TakesArg(d.conv) ==> Suits(d.conv, a)
    requires d.conv == '@' || d.conv == '!' ==> depth > 0
    modifies tmp, console
    ensures q == |Item(d, a)| <= TMP && tmp[..q] == Item(d, a) && console.shown == old(console.shown)
    decreases depth, 2
  {
    ItemFits(d, a);
    q := 0;
    ghost var was := tmp[..];
    if IsHex(d.conv) {
      q := PutHexItem(tmp, d, a.i);
    } else if d.conv == 'd' {
      q := PutSigned(tmp, a.i);
    } else if d.conv == '@' {
      q := PutDots(tmp, Bits(a.i), console, depth);
    } else if d.conv == '!' {
      q := PutColons(tmp, a.bytes, console, depth);
    } else if d.conv == 'c' {
      tmp[q] := (a.i % 256) as char;
      q := q + 1;
    } else {
      tmp[q] := d.conv;
      q := q + 1;
    }
  }

  method PutHexItem(tmp: array<char>, d: Directive, i: int) returns (q: nat)
    requires tmp.Length == TMP && d.digits <= 8 && IsHex(d.conv)
    modifies tmp
    ensures q <= TMP && tmp[..q] == (if d.alt then ['0', d.conv] else []) + Hex(Bits(i), d.digits, d.conv == 'x')
  {
    q := 0;
    if d.alt {
      tmp[0], tmp[1] := '0', d.conv;
      q := 2;
    }
    ghost var was, h := tmp[..], Hex(Bits(i), d.digits, d.conv == 'x');
    OverFront(was, q, h);
    assert was[..q] == if d.alt then ['0', d.conv] else [];
    q := PutHex(tmp, q, Bits(i), d.digits, d.conv == 'x');
    assert tmp[..q] == tmp[..][..q];
  }

  method PutSigned(tmp: array<char>, i: int) returns (q: nat)
    requires tmp.Length == TMP && -0x8000_0000 < i < 0x8000_0000
    modifies tmp
    ensures q == |Signed(i)| <= TMP && tmp[..q] == Signed(i)
  {
    SignedLength(i);
    q := 0;
    var n := i;
    if n < 0 {
      tmp[0] := '-';
      q := 1;
      n := -n;
    }
    ghost var was := tmp[..];
    OverFront(was, q, Decimal(n));
    assert was[..q] == if i < 0 then "-" else "";
    q := PutDecimal(tmp, q, n);
    assert tmp[..q] == tmp[..][..q];
  }

  /** The flags and the conversion character after a '%'; f points at the '%'. */
  method ReadDirective(f: string) returns (d: Directive)
    requires |f| > 0 && Complete(f[1..])
    ensures d == Read(f[1..]) && d.conv in f && d.used < |f|
  {
    var j := 1;
    var alt, digits := false, 8;
    if f[j] == '#' {
      alt := true;
      j := j + 1;
    }
    if f[j] == 'h' {
      digits := 4;
      j := j + 1;
    }
    if f[j] == 'h' {
      digits := 2;
      j := j + 1;
    }
    d := Directive(alt, digits, f[j], j);
  }

  /** The output so far is e: in buf from off on, up to s, or on the console. */
  ghost predicate Out(buf: array?<char>, off: nat, s: nat, console: Console, was: string, shown: string, e: string)
    reads console, if buf == null then {} else {buf as object}
  {
    if buf == null then s == off && console.shown == shown + e
    else
      && |was| == buf.Length && s == off + |e| <= buf.Length
      && buf[..] == Overwrite(was, off, e) && console.shown == shown
  }

  method EmitMore(buf: array?<char>, off: nat, s0: nat, text: string, console: Console,
                  ghost was: string, ghost shown: string, ghost e: string) returns (s: nat)
    requires Out(buf, off, s0, console, was, shown, e)
    requires buf != null ==> s0 + |text| <= buf.Length
    modifies console, if buf == null then {} else {buf as object}
    ensures Out(buf, off, s, console, was, shown, e + text)
  {
    if buf != null { OverAppend(was, off, e, text); }
    hide Overwrite;
    s := Emit(buf, s0, text, console);
    Associative(shown, e, text);
  }

  /** The arguments left, and the first one, for a directive. */
  function After(d: Directive, args: seq<Arg>): seq<Arg>
    requires TakesArg(d.conv) ==> args != []
  {
    if TakesArg(d.conv) then args[1..] else args
  }

  function First(d: Directive, args: seq<Arg>): Arg
    requires TakesArg(d.conv) ==> args != []
  {
    if TakesArg(d.conv) then args[0] else Int(0)
  }

  lemma RenderFront(f: string, args: seq<Arg>)
    requires |f| > 0 && f[0] == '%' && Matches(f, args) && !(|f| > 1 && f[1] == 's')
    ensures Complete(f[1..])
    ensures var d := Read(f[1..]);
      && (TakesArg(d.conv) ==> args != [] && Suits(d.conv, args[0]))
      && Matches(f[1 + d.used..], After(d, args))
      && Render(f, args) == Item(d, First(d, args)) + Render(f[1 + d.used..], After(d, args))
  {
  }

  /** The text of the item f points at, and where the pointers into the format and the arguments go
      from there. */
  method ItemText(f: string, dp: seq<Arg>, console: Console, ghost depth: nat)
    returns (text: string, f': string, dp': seq<Arg>)
    requires |f| > 0 && f[0] == '%' && Matches(f, dp)
    requires depth == 0 ==> Flat(f)
    modifies console
    ensures console.shown == old(console.shown)
    ensures exists n :: 0 < n <= |f| && f' == f[n..]
    ensures Matches(f', dp') && Render(f, dp) == text + Render(f', dp')
    decreases depth, 3
  {
    if |f| > 1 && f[1] == 's' {
      return dp[0].s, f[2..], dp[1..];
    }
    RenderFront(f, dp);
    var d := ReadDirective(f);
    hide Render, Matches, Item, Read;
    var tmp := new char[TMP];
    var q := PutItem(tmp, d, First(d, dp), console, depth);
    text, f', dp' := tmp[..q], f[1 + d.used..], After(d, dp);
  }

  /** Print fmt with its arguments into buf from off on, or on the console if buf is null. */
  method Vsprintf(buf: array?<char>, off: nat, fmt: string, args: seq<Arg>, console: Console, ghost depth: nat)
    returns (n: nat)
    requires Matches(fmt, args) && (depth == 0 ==> Flat(fmt))
    requires buf != null ==> off + |Render(fmt, args)| < buf.Length
    modifies console, if buf == null then {} else {buf as object}
    ensures if buf == null then n == 0 && console.shown == old(console.shown) + Render(fmt, args)
            else n == |Render(fmt, args)| && console.shown == old(console.shown)
                 && buf[..] == Overwrite(old(buf[..]), off, Render(fmt, args) + [NUL])
    decreases depth, 4
  {
    var s: nat, f, dp := off, fmt, args;
    ghost var all, e, shown := Render(fmt, args), "", console.shown;
    ghost var was := if buf == null then "" else buf[..];
    assert all == "" + all;
    if buf != null { OverwriteNothing(was, off, ""); } else { assert shown + "" == shown; }
    hide Overwrite;
    while f != ""
      invariant Matches(f, dp) && (depth == 0 ==> Flat(f))
      invariant all == e + Render(f, dp)
      invariant Out(buf, off, s, console, was, shown, e)
      decreases |f|
    {
      var text, f', dp' := [f[0]], f[1..], dp;
      if f[0] == '%' {
        text, f', dp' := ItemText(f, dp, console, depth);
      }
      Associative(e, text, Render(f', dp'));
      s := EmitMore(buf, off, s, text, console, was, shown, e);
      e := e + text;
      f, dp := f', dp';
    }
    assert all == e;
    if buf != null {
      OverMore(was, off, e, NUL);
      buf[s] := NUL;
    }
    return s - off;
  }

  method EtherbootSprintf(buf: array<char>, fmt: string, args: seq<Arg>, console: Console) returns (n: nat)
    requires Matches(fmt, args) && |Render(fmt, args)| < buf.Length
    modifies buf, console
    ensures n == |Render(fmt, args)| && buf[..n] == Render(fmt, args) && buf[n] == NUL
    ensures buf[n + 1..] == old(buf[n + 1..]) && console.shown == old(console.shown)
  {
    ghost var was := buf[..];
    n := Vsprintf(buf, 0, fmt, args, console, 1);
  }

  method EtherbootPrintf(fmt: string, args: seq<Arg>, console: Console)
    requires Matches(fmt, args)
    modifies console
    ensures console.shown == old(console.shown) + Render(fmt, args)
  {
    var _ := Vsprintf(null, 0, fmt, args, console, 1);
  }
}
