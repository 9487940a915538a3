/** etherboot_vsprintf of misc.c as functions: what a format string and its arguments print. */
module Format {
  import opened Basics

  const TMP := 20          // length of the item buffer
  const NUL := '\0'

  /** A 32-bit argument, a string argument, or a pointer to an Ethernet address. */
  datatype Arg = Int(i: int) | Str(s: string) | Ether(bytes: seq<byte>)

  predicate IsInt(a: Arg) {
    a.Int? && -0x8000_0000 <= a.i < 0x8000_0000
  }

  predicate IsEther(a: Arg) {
    a.Ether? && |a.bytes| == 6
  }

  // ---------------------------------------------------------------- numbers

  function Digit(d: nat): (c: char)
    requires d < 10
    ensures '0' <= c <= '9' && c as int - '0' as int == d
  {
    ('0' as int + d) as char
  }

  function HexDigit(d: nat, lower: bool): char
    requires d < 16
  {
    if d < 10 then Digit(d)
    else ((if lower then 'a' else 'A') as int + d - 10) as char
  }

  function Decimal(n: nat): (s: string)
    ensures |s| > 0
  {
    if n < 10 then [Digit(n)] else Decimal(n / 10) + [Digit(n % 10)]
  }

  /** The digits of n, lowest first, as the division loop finds them. */
  function LowFirst(n: nat): (s: string)
    ensures |s| > 0
  {
    if n < 10 then [Digit(n)] else [Digit(n % 10)] + LowFirst(n / 10)
  }

  function Reverse(s: string): (r: string)
    ensures |r| == |s| && forall i :: 0 <= i < |s| ==> r[i] == s[|s| - 1 - i]
  {
    if s == "" then "" else Reverse(s[1..]) + [s[0]]
  }

  lemma {:induction false} ReverseLowFirst(n: nat)
    ensures Reverse(LowFirst(n)) == Decimal(n)
  {
    if n >= 10 {
      ReverseLowFirst(n / 10);
      assert LowFirst(n)[1..] == LowFirst(n / 10);
    }
  }

  function Signed(i: int): string {
    if i < 0 then "-" + Decimal(-i) else Decimal(i)
  }

  /** Bits 4k to 4k + 3 of u. */
  function Nibble(u: nat, k: nat): (d: nat)
    ensures d < 16
  {
    if k == 0 then u % 16 else Nibble(u / 16, k - 1)
  }

  /** The low n hexadecimal digits of u. */
  function Hex(u: nat, n: nat, lower: bool): (s: string)
    ensures |s| == n
  {
    if n == 0 then "" else [HexDigit(Nibble(u, n - 1), lower)] + Hex(u, n - 1, lower)
  }

  /** The bits of a 32-bit int as a natural number. */
  function Bits(i: int): (u: nat)
    ensures u < WORD
  {
    i % WORD
  }

  /** Byte k of a 32-bit word in memory: the machine is little-endian. */
  function Octet(u: nat, k: nat): byte
    requires k < 4
  {
    if k == 0 then u % 256
    else if k == 1 then u / 0x100 % 256
    else if k == 2 then u / 0x1_0000 % 256
    else u / 0x100_0000 % 256
  }

  /** The bytes k to 3 of an address in memory order, each followed by a dot. */
  function Dots(u: nat, k: nat): string
    requires k <= 4
    decreases 4 - k
  {
    if k == 4 then "" else Decimal(Octet(u, k)) + "." + Dots(u, k + 1)
  }

  function Colons(bytes: seq<byte>): string {
    if bytes == [] then "" else Hex(bytes[0], 2, false) + ":" + Colons(bytes[1..])
  }

  function ButLast(s: string): string
    requires |s| > 0
  {
    s[..|s| - 1]
  }

  // ---------------------------------------------------------------- format strings

  /** What follows a '%' other than an s: flags, and the conversion character. used is the length. */
  datatype Directive = Directive(alt: bool, digits: nat, conv: char, used: nat)

  predicate Complete(f: string) {
    var i := if |f| > 0 && f[0] == '#' then 1 else 0;
    var j := if |f| > i && f[i] == 'h' then i + 1 else i;
    var k := if |f| > j && f[j] == 'h' then j + 1 else j;
    |f| > k
  }

  function Read(f: string): (d: Directive)
    requires Complete(f)
    ensures 0 < d.used <= |f| && d.digits <= 8
  {
    var i := if f[0] == '#' then 1 else 0;
    var j := if f[i] == 'h' then i + 1 else i;
    var k := if f[j] == 'h' then j + 1 else j;
    Directive(i == 1, if j == i then 8 else if k == j then 4 else 2, f[k], k + 1)
  }

  predicate IsHex(c: char) { c == 'x' || c == 'X' }

  predicate TakesArg(c: char) {
    IsHex(c) || c in {'d', '@', '!', 'c'}
  }

  /** The argument suits the conversion; the smallest int, which -i cannot negate, does not. */
  predicate Suits(c: char, a: Arg) {
    if c == '!' then IsEther(a)
    else IsInt(a) && (c == 'd' ==> a.i > -0x8000_0000)
  }

  /** The text of one item other than a string; a is not looked at unless the item takes one. */
  function Item(d: Directive, a: Arg): string
    requires TakesArg(d.conv) ==> Suits(d.conv, a)
  {
    if IsHex(d.conv) then
      (if d.alt then ['0', d.conv] else []) + Hex(Bits(a.i), d.digits, d.conv == 'x')
    else if d.conv == 'd' then Signed(a.i)
    else if d.conv == '@' then ButLast(Dots(Bits(a.i), 0))
    else if d.conv == '!' then ButLast(Colons(a.bytes))
    else if d.conv == 'c' then [(a.i % 256) as char]
    else [d.conv]
  }

  /** Every directive of fmt is complete and finds an argument that suits it. */
  predicate Matches(fmt: string, args: seq<Arg>) {
    if fmt == "" then true
    else if fmt[0] != '%' then Matches(fmt[1..], args)
    else if |fmt| > 1 && fmt[1] == 's' then args != [] && args[0].Str? && Matches(fmt[2..], args[1..])
    else
      && Complete(fmt[1..])
      && var d := Read(fmt[1..]);
         if TakesArg(d.conv) then args != [] && Suits(d.conv, args[0]) && Matches(fmt[1 + d.used..], args[1..])
         else Matches(fmt[1 + d.used..], args)
  }

  /** What the format prints. */
  function Render(fmt: string, args: seq<Arg>): string
    requires Matches(fmt, args)
  {
    if fmt == "" then ""
    else if fmt[0] != '%' then [fmt[0]] + Render(fmt[1..], args)
    else if fmt[1] == 's' then args[0].s + Render(fmt[2..], args[1..])
    else
      var d := Read(fmt[1..]);
      if TakesArg(d.conv) then Item(d, args[0]) + Render(fmt[1 + d.used..], args[1..])
      else Item(d, Int(0)) + Render(fmt[1 + d.used..], args)
  }

  // ---------------------------------------------------------------- how long an item is

  function Limit(k: nat): nat {
    if k == 0 then 1 else 10 * Limit(k - 1)
  }

  lemma {:induction false} DecimalLength(n: nat, k: nat)
    requires k > 0 && n < Limit(k)
    ensures |Decimal(n)| <= k
  {
    if n >= 10 { DecimalLength(n / 10, k - 1); }
  }

  lemma OctetLength(b: nat)
    requires b < 256
    ensures |Decimal(b)| <= 3
  {
    assert Limit(3) == 10 * Limit(2) == 1000;
    DecimalLength(b, 3);
  }

  lemma {:induction false} DotsLength(u: nat, k: nat)
    requires k <= 4
    ensures |Dots(u, k)| <= 4 * (4 - k)
    ensures k < 4 ==> |Dots(u, k)| > 1
    decreases 4 - k
  {
    if k < 4 {
      OctetLength(Octet(u, k));
      DotsLength(u, k + 1);
    }
  }

  lemma {:induction false} ColonsLength(bytes: seq<byte>)
    ensures |Colons(bytes)| == 3 * |bytes|
  {
    if bytes != [] { ColonsLength(bytes[1..]); }
  }

  lemma SignedLength(i: int)
    requires -0x8000_0000 < i < 0x8000_0000
    ensures |Signed(i)| <= 11
  {
    assert Limit(10) == 10 * 10 * 10 * 10 * 10 * 10 * 10 * 10 * Limit(2);
    DecimalLength(if i < 0 then -i else i, 10);
  }

  /** Every item, and with its nested separator and terminator every %@ and %! item, fits tmp. */
  lemma ItemFits(d: Directive, a: Arg)
    requires (TakesArg(d.conv) ==> Suits(d.conv, a)) && d.digits <= 8
    ensures |Item(d, a)| <= TMP
    ensures d.conv == '@' ==> |Item(d, a)| + 2 <= TMP
    ensures d.conv == '!' ==> |Item(d, a)| + 2 <= TMP
  {
    if d.conv == 'd' { SignedLength(a.i); }
    if d.conv == '@' { DotsLength(Bits(a.i), 0); }
    if d.conv == '!' { ColonsLength(a.bytes); }
  }
}
