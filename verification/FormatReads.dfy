/** What the text printed by etherboot_vsprintf denotes: readers for its items, and the directives one by
    one. Formats print what their parts print. */
module FormatReads {
  import opened Basics
  import opened Format
  import Inet

  // ---------------------------------------------------------------- hexadecimal

  predicate IsHexDigit(c: char, lower: bool) {
    '0' <= c <= '9' || if lower then 'a' <= c <= 'f' else 'A' <= c <= 'F'
  }

  function HexDigitValue(c: char): nat
    requires IsHexDigit(c, true) || IsHexDigit(c, false)
  {
    if c <= '9' then c as int - '0' as int
    else if c <= 'F' then c as int - 'A' as int + 10
    else c as int - 'a' as int + 10
  }

  predicate AllHex(s: string, lower: bool) {
    forall c <- s :: IsHexDigit(c, lower)
  }

  /** The number a string of hexadecimal digits denotes. */
  function HexValue(s: string, lower: bool): nat
    requires AllHex(s, lower)
  {
    if s == "" then 0 else 16 * HexValue(s[..|s| - 1], lower) + HexDigitValue(s[|s| - 1])
  }

  /** 16 to the power of n. */
  function Sixteens(n: nat): (m: nat)
    ensures m > 0
  {
    if n == 0 then 1 else 16 * Sixteens(n - 1)
  }

  lemma DigitReadsBack(d: nat, lower: bool)
    requires d < 16
    ensures IsHexDigit(HexDigit(d, lower), lower) && HexDigitValue(HexDigit(d, lower)) == d
  {
  }

  /** The last digit is that of u, the others are those of u / 16. */
  lemma {:induction false} HexSnoc(u: nat, n: nat, lower: bool)
    requires n > 0
    ensures Hex(u, n, lower) == Hex(u / 16, n - 1, lower) + [HexDigit(u % 16, lower)]
  {
    hide HexDigit;
    if n == 1 {
      assert Hex(u, 1, lower) == [HexDigit(Nibble(u, 0), lower)] + Hex(u, 0, lower);
    } else {
      HexSnoc(u, n - 1, lower);
      assert Nibble(u, n - 1) == Nibble(u / 16, n - 2);
    }
  }

  lemma RemainderSplits(u: nat, m: nat)
    requires m > 0
    ensures u % (16 * m) == 16 * (u / 16 % m) + u % 16
  {
    var q := u / 16;
    var r := 16 * (q % m) + u % 16;
    assert q == m * (q / m) + q % m;
    assert u == 16 * q + u % 16;
    Regroup(m, q / m);
    RemainderIs(u, 16 * m, q / m, r);
  }

  lemma Regroup(m: nat, k: nat)
    ensures 16 * (m * k) == (16 * m) * k
  {
  }

  /** Hex prints n digits, in the letters asked for, that denote the number modulo 16^n. */
  lemma {:induction false} HexReadsBack(u: nat, n: nat, lower: bool)
    ensures AllHex(Hex(u, n, lower), lower) && HexValue(Hex(u, n, lower), lower) == u % Sixteens(n)
  {
    if n > 0 {
      HexSnoc(u, n, lower);
      HexReadsBack(u / 16, n - 1, lower);
      DigitReadsBack(u % 16, lower);
      hide HexDigit, Hex, HexDigitValue;
      var s := Hex(u, n, lower);
      assert s[..|s| - 1] == Hex(u / 16, n - 1, lower) && s[|s| - 1] == HexDigit(u % 16, lower);
      RemainderSplits(u, Sixteens(n - 1));
    }
  }

  // ---------------------------------------------------------------- signed decimal numbers

  predicate IsSigned(s: string) {
    s != "" && forall c <- (if s[0] == '-' then s[1..] else s) :: Inet.IsDigit(c)
  }

  /** The number a string of decimal digits with or without a minus sign denotes. */
  function SignedValue(s: string): int
    requires IsSigned(s)
  {
    if s[0] == '-' then -(Inet.Value(s[1..]) as int) else Inet.Value(s)
  }

  /** No zeros in front. */
  lemma {:induction false} DecimalIsShort(n: nat)
    ensures n > 0 ==> Decimal(n)[0] != '0'
    ensures n == 0 ==> Decimal(n) == "0"
  {
    if n >= 10 { DecimalIsShort(n / 10); }
  }

  lemma SignedReadsBack(i: int)
    ensures IsSigned(Signed(i)) && SignedValue(Signed(i)) == i
    ensures i != 0 ==> Signed(i)[if i < 0 then 1 else 0] != '0'
  {
    var d := Decimal(if i < 0 then -i else i);
    Inet.DecimalDigits(if i < 0 then -i else i);
    DecimalIsShort(if i < 0 then -i else i);
    assert d[0] in d;
    hide Decimal;
    if i < 0 { assert Signed(i)[1..] == d; }
  }

  // ---------------------------------------------------------------- one directive in front of a format

  function Flags(alt: bool, h: nat): string {
    (if alt then "#" else "") + (if h == 0 then "" else if h == 1 then "h" else "hh")
  }

  function Digits(h: nat): nat {
    if h == 0 then 8 else if h == 1 then 4 else 2
  }

  lemma FlagsRead(alt: bool, h: nat, conv: char, f: string)
    requires h <= 2 && conv != '#' && conv != 'h'
    ensures var q := Flags(alt, h) + [conv] + f;
      Complete(q) && Read(q) == Directive(alt, Digits(h), conv, |Flags(alt, h)| + 1)
  {
    var g, q := Flags(alt, h), Flags(alt, h) + [conv] + f;
    assert q[|g|] == conv;
    assert alt ==> g[0] == '#' && q[0] == '#';
    var i := if alt then 1 else 0;
    assert forall k :: i <= k < i + h ==> g[k] == 'h' && q[k] == 'h';
  }

  lemma InFront(alt: bool, h: nat, conv: char, a: Arg, f: string, args: seq<Arg>)
    requires h <= 2 && TakesArg(conv) && Suits(conv, a) && Matches(f, args)
    ensures var p := "%" + Flags(alt, h) + [conv] + f;
      && Matches(p, [a] + args)
      && Render(p, [a] + args) == Item(Directive(alt, Digits(h), conv, |Flags(alt, h)| + 1), a) + Render(f, args)
  {
    var g, p := Flags(alt, h), "%" + Flags(alt, h) + [conv] + f;
    FlagsRead(alt, h, conv, f);
    assert p[1..] == g + [conv] + f && p[|g| + 2..] == f;
    assert ([a] + args)[1..] == args;
    assert p[1] == if g == "" then conv else g[0];
    hide Flags, Read, Item;
  }

  /** %x and %X, with # and h: as many digits as the width has, which denote the number modulo 2^32, 2^16
      or 2^8, behind 0x or 0X. */
  lemma HexPrinted(alt: bool, h: nat, conv: char, i: int, f: string, args: seq<Arg>) returns (digits: string)
    requires h <= 2 && (conv == 'x' || conv == 'X') && IsInt(Int(i)) && Matches(f, args)
    ensures var p := "%" + Flags(alt, h) + [conv] + f;
      && Matches(p, [Int(i)] + args)
      && Render(p, [Int(i)] + args) == (if alt then ['0', conv] else "") + digits + Render(f, args)
    ensures |digits| == (if h == 0 then 8 else if h == 1 then 4 else 2) && AllHex(digits, conv == 'x')
    ensures HexValue(digits, conv == 'x') ==
      if h == 0 then i % 0x1_0000_0000 else if h == 1 then i % 0x1_0000 else i % 0x100
  {
    digits := HexItem(alt, h, conv, i);
    HexText(h, i, conv == 'x');
    hide Hex, Bits, Item, Render, Matches, Flags, Digits, AllHex, HexValue;
    InFront(alt, h, conv, Int(i), f, args);
  }

  lemma HexItem(alt: bool, h: nat, conv: char, i: int) returns (digits: string)
    requires h <= 2 && (conv == 'x' || conv == 'X') && IsInt(Int(i))
    ensures digits == Hex(Bits(i), Digits(h), conv == 'x')
    ensures Item(Directive(alt, Digits(h), conv, |Flags(alt, h)| + 1), Int(i)) ==
      (if alt then ['0', conv] else "") + digits
  {
    digits := Hex(Bits(i), Digits(h), conv == 'x');
    hide Hex, Bits, Flags, Digits;
  }

  lemma HexText(h: nat, i: int, lower: bool)
    requires h <= 2
    ensures var digits := Hex(Bits(i), Digits(h), lower);
      && |digits| == (if h == 0 then 8 else if h == 1 then 4 else 2) && AllHex(digits, lower)
      && HexValue(digits, lower) ==
        if h == 0 then i % 0x1_0000_0000 else if h == 1 then i % 0x1_0000 else i % 0x100
  {
    HexReadsBack(Bits(i), Digits(h), lower);
    Widths();
    LowBits(i);
    hide Hex, Sixteens, AllHex, HexValue;
  }

  lemma Widths()
    ensures Sixteens(2) == 0x100 && Sixteens(4) == 0x1_0000 && Sixteens(8) == 0x1_0000_0000
  {
    assert Sixteens(2) == 16 * Sixteens(1);
    assert Sixteens(4) == 16 * Sixteens(3) && Sixteens(3) == 16 * Sixteens(2);
    assert Sixteens(8) == 16 * Sixteens(7) && Sixteens(7) == 16 * Sixteens(6);
    assert Sixteens(6) == 16 * Sixteens(5) && Sixteens(5) == 16 * Sixteens(4);
  }

  lemma LowBits(i: int)
    ensures i % 0x1_0000_0000 % 0x1_0000 == i % 0x1_0000 && i % 0x1_0000_0000 % 0x100 == i % 0x100
  {
    var k, u := i / 0x1_0000_0000, i % 0x1_0000_0000;
    assert i == 0x1_0000_0000 * k + u;
    RemainderIs(i, 0x1_0000, 0x1_0000 * k + u / 0x1_0000, u % 0x1_0000);
    RemainderIs(i, 0x100, 0x100_0000 * k + u / 0x100, u % 0x100);
  }

  /** %d: a decimal number, with a minus sign if it is negative. */
  lemma DecimalPrinted(alt: bool, h: nat, i: int, f: string, args: seq<Arg>) returns (text: string)
    requires h <= 2 && -0x8000_0000 < i < 0x8000_0000 && Matches(f, args)
    ensures var p := "%" + Flags(alt, h) + "d" + f;
      Matches(p, [Int(i)] + args) && Render(p, [Int(i)] + args) == text + Render(f, args)
    ensures IsSigned(text) && SignedValue(text) == i && (i != 0 ==> text[if i < 0 then 1 else 0] != '0')
  {
    InFront(alt, h, 'd', Int(i), f, args);
    SignedReadsBack(i);
    text := Signed(i);
  }

  /** %c: the character with the argument's low byte. */
  lemma CharPrinted(alt: bool, h: nat, i: int, f: string, args: seq<Arg>)
    requires h <= 2 && IsInt(Int(i)) && Matches(f, args)
    ensures var p := "%" + Flags(alt, h) + "c" + f;
      Matches(p, [Int(i)] + args) && Render(p, [Int(i)] + args) == [(i % 0x100) as char] + Render(f, args)
  {
    InFront(alt, h, 'c', Int(i), f, args);
  }

  /** %s: the string. */
  lemma StringPrinted(s: string, f: string, args: seq<Arg>)
    requires Matches(f, args)
    ensures Matches("%s" + f, [Str(s)] + args) && Render("%s" + f, [Str(s)] + args) == s + Render(f, args)
  {
    assert ("%s" + f)[2..] == f && ([Str(s)] + args)[1..] == args;
  }

  /** Any other character stands for itself. */
  lemma PlainPrinted(c: char, f: string, args: seq<Arg>)
    requires c != '%' && Matches(f, args)
    ensures Matches([c] + f, args) && Render([c] + f, args) == [c] + Render(f, args)
  {
    assert ([c] + f)[1..] == f;
  }

  /** And so does one behind a percent sign that no directive has, such as a second percent sign. */
  lemma EscapedPrinted(c: char, f: string, args: seq<Arg>)
    requires c !in {'s', '#', 'h', 'x', 'X', 'd', '@', '!', 'c'} && Matches(f, args)
    ensures Matches("%" + [c] + f, args) && Render("%" + [c] + f, args) == [c] + Render(f, args)
  {
    FlagsRead(false, 0, c, f);
    assert Flags(false, 0) + [c] + f == [c] + f;
    var p := "%" + [c] + f;
    assert p[1..] == [c] + f && p[2..] == f;
  }

  /** %@: the four octets of the word, lowest first, in decimal with dots between them. */
  lemma AddressPrinted(i: int, f: string, args: seq<Arg>)
    requires IsInt(Int(i)) && Matches(f, args)
    ensures Matches("%@" + f, [Int(i)] + args)
    ensures var u := i % 0x1_0000_0000;
      Render("%@" + f, [Int(i)] + args) ==
        Decimal(u % 0x100) + "." + Decimal(u / 0x100 % 0x100) + "." + Decimal(u / 0x1_0000 % 0x100) + "."
        + Decimal(u / 0x100_0000) + Render(f, args)
  {
    InFront(false, 0, '@', Int(i), f, args);
    assert "%" + Flags(false, 0) + ['@'] + f == "%@" + f;
    DotsText(i % 0x1_0000_0000);
    hide Render, Matches, Decimal, Dots;
  }

  lemma DotsText(u: nat)
    requires u < 0x1_0000_0000
    ensures Dots(u, 0) != ""
    ensures ButLast(Dots(u, 0)) ==
      Decimal(u % 0x100) + "." + Decimal(u / 0x100 % 0x100) + "." + Decimal(u / 0x1_0000 % 0x100) + "."
      + Decimal(u / 0x100_0000)
  {
    DotsUnfold(u);
    OctetsAre(u);
    hide Dots, Decimal, Octet;
    var t := Decimal(Octet(u, 0)) + "." + Decimal(Octet(u, 1)) + "."
      + Decimal(Octet(u, 2)) + "." + Decimal(Octet(u, 3));
    assert Dots(u, 0) == t + ".";
  }

  lemma OctetsAre(u: nat)
    requires u < 0x1_0000_0000
    ensures Octet(u, 0) == u % 0x100 && Octet(u, 1) == u / 0x100 % 0x100
    ensures Octet(u, 2) == u / 0x1_0000 % 0x100 && Octet(u, 3) == u / 0x100_0000
  {
  }

  lemma DotsUnfold(u: nat)
    ensures Dots(u, 0) == Decimal(Octet(u, 0)) + "." + Decimal(Octet(u, 1)) + "."
      + Decimal(Octet(u, 2)) + "." + Decimal(Octet(u, 3)) + "."
  {
    hide Decimal, Octet;
    assert Dots(u, 4) == "";
    assert Dots(u, 3) == Decimal(Octet(u, 3)) + "." + Dots(u, 4);
    assert Dots(u, 2) == Decimal(Octet(u, 2)) + "." + Dots(u, 3);
    assert Dots(u, 1) == Decimal(Octet(u, 1)) + "." + Dots(u, 2);
    assert Dots(u, 0) == Decimal(Octet(u, 0)) + "." + Dots(u, 1);
  }

  /** %!: six pairs of upper-case digits with colons between them, each of which denotes its byte. */
  lemma EtherPrinted(bytes: seq<byte>, f: string, args: seq<Arg>) returns (text: string)
    requires |bytes| == 6 && Matches(f, args)
    ensures Matches("%!" + f, [Ether(bytes)] + args)
    ensures Render("%!" + f, [Ether(bytes)] + args) == text + Render(f, args) && |text| == 17
    ensures forall k :: 0 <= k < 6 ==> Denotes(text[3 * k..3 * k + 2], bytes[k])
    ensures forall k :: 0 <= k < 5 ==> text[3 * k + 2] == ':'
  {
    InFront(false, 0, '!', Ether(bytes), f, args);
    assert "%" + Flags(false, 0) + ['!'] + f == "%!" + f;
    ColonsLength(bytes);
    text := ButLast(Colons(bytes));
    hide Render, Matches, Colons;
    forall k | 0 <= k < 6
      ensures Denotes(text[3 * k..3 * k + 2], bytes[k]) && (k < 5 ==> text[3 * k + 2] == ':')
    {
      ColonsAt(bytes, k);
      ButLastSlice(Colons(bytes), 3 * k, 3 * k + 2);
    }
  }

  lemma ButLastSlice(t: string, i: nat, j: nat)
    requires i <= j < |t|
    ensures ButLast(t)[i..j] == t[i..j]
  {
  }

  predicate Denotes(pair: string, b: byte) {
    AllHex(pair, false) && HexValue(pair, false) == b
  }

  lemma {:induction false} ColonsAt(bytes: seq<byte>, k: nat)
    requires k < |bytes|
    ensures |Colons(bytes)| == 3 * |bytes|
    ensures Denotes(Colons(bytes)[3 * k..3 * k + 2], bytes[k]) && Colons(bytes)[3 * k + 2] == ':'
  {
    ColonsLength(bytes);
    var pair, rest := Hex(bytes[0], 2, false), Colons(bytes[1..]);
    assert Colons(bytes) == pair + ":" + rest;
    hide Colons, Hex, Denotes;
    if k == 0 {
      FirstPair(bytes[0], rest);
    } else {
      ColonsAt(bytes[1..], k - 1);
      Shifted(pair + ":", rest, 3 * (k - 1), 3 * (k - 1) + 2);
    }
  }

  lemma FirstPair(b: byte, rest: string)
    ensures var t := Hex(b, 2, false) + ":" + rest; Denotes(t[0..2], b) && t[2] == ':'
  {
    var pair := Hex(b, 2, false);
    HexReadsBack(b, 2, false);
    Widths();
    hide Hex, HexValue, AllHex;
    assert (pair + ":" + rest)[0..2] == pair;
  }

  lemma Shifted(front: string, back: string, i: nat, j: nat)
    requires i <= j < |back|
    ensures (front + back)[|front| + i..|front| + j] == back[i..j] && (front + back)[|front| + j] == back[j]
  {
  }
}
