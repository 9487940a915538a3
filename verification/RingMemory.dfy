/** A region of memory used as a ring: byte number a of an endless stream lives at lo + a % size.
    The drivers' receive rings are windows of such a stream. */
module RingMemory {
  import opened Basics

  const ETH_ZLEN := 60            // the shortest and the longest frame, without check sequence
  const ETH_FRAME_LEN := 1514

  /** The word whose bytes in memory are low and high. */
  function Little(low: int, high: int): int { low + 0x100 * high }

  function Cell(a: nat, size: nat): (c: nat)
    requires size > 0
    ensures c < size
  {
    a % size
  }

  lemma CellOf(size: nat, q: nat, r: nat)
    requires r < size
    ensures Cell(size * q + r, size) == r
  {
    RemainderIs(size * q + r, size, q, r);
  }

  /** Neighbouring stream bytes are neighbours in memory until the region ends. */
  lemma CellStep(a: nat, i: nat, size: nat)
    requires size > 0 && i <= size
    ensures Cell(a + i, size) == Cell(a, size) + i - if Cell(a, size) + i < size then 0 else size
  {
    var q, r := a / size, a % size;
    assert a == size * q + r;
    if r + i < size {
      assert a + i == size * q + (r + i);
      CellOf(size, q, r + i);
    } else {
      assert a + i == size * (q + 1) + (r + i - size);
      CellOf(size, q + 1, r + i - size);
    }
  }

  /** The bytes of stream s from number from on are all in the ring. */
  ghost predicate Holds(mem: seq<byte>, lo: nat, size: nat, s: seq<byte>, from: nat)
    requires size > 0 && lo + size <= |mem|
  {
    forall a :: from <= a < |s| ==> mem[lo + Cell(a, size)] == s[a]
  }

  /** Appending a byte to the stream, when the ring is not full of bytes still wanted. */
  lemma AppendKeeps(mem: seq<byte>, lo: nat, size: nat, s: seq<byte>, from: nat, b: byte)
    requires size > 0 && lo + size <= |mem| && Holds(mem, lo, size, s, from)
    requires from <= |s| < from + size
    ensures Holds(mem[lo + Cell(|s|, size) := b], lo, size, s + [b], from)
  {
    hide Cell;
    forall a | from <= a < |s|
      ensures Cell(a, size) != Cell(|s|, size)
    {
      CellStep(a, |s| - a, size);
    }
  }

  /** A run of the stream that does not cross the end of the region is contiguous in memory. */
  lemma Contiguous(mem: seq<byte>, lo: nat, size: nat, s: seq<byte>, from: nat, a: nat, n: nat)
    requires size > 0 && lo + size <= |mem| && Holds(mem, lo, size, s, from)
    requires from <= a && a + n <= |s| && Cell(a, size) + n <= size
    ensures mem[lo + Cell(a, size)..lo + Cell(a, size) + n] == s[a..a + n]
  {
    hide Cell;
    var run := mem[lo + Cell(a, size)..lo + Cell(a, size) + n];
    forall i | 0 <= i < n
      ensures run[i] == s[a..a + n][i]
    {
      CellStep(a, i, size);
      assert mem[lo + Cell(a + i, size)] == s[a + i];
    }
  }

  /** A run that crosses it continues at the start of the region. */
  lemma Wrapped(mem: seq<byte>, lo: nat, size: nat, s: seq<byte>, from: nat, a: nat, n: nat)
    requires size > 0 && lo + size <= |mem| && Holds(mem, lo, size, s, from)
    requires from <= a && a + n <= |s| && n <= size && Cell(a, size) + n > size
    ensures var k := size - Cell(a, size);
      && mem[lo + Cell(a, size)..lo + size] == s[a..a + k]
      && mem[lo..lo + n - k] == s[a + k..a + n]
  {
    hide Cell;
    var k := size - Cell(a, size);
    Contiguous(mem, lo, size, s, from, a, k);
    CellStep(a, k, size);
    Contiguous(mem, lo, size, s, from, a + k, n - k);
  }

  /** The same with the place o of the run's first byte in memory. */
  lemma WrappedFrom(mem: seq<byte>, lo: nat, size: nat, s: seq<byte>, from: nat, a: nat, n: nat, o: nat)
    requires size > 0 && lo + size <= |mem| && Holds(mem, lo, size, s, from) && o == lo + Cell(a, size)
    requires from <= a && a + n <= |s| && n <= size && o + n > lo + size
    ensures var frag := lo + size - o;
      && 0 <= frag <= n
      && mem[o..o + frag] == s[a..a + frag]
      && mem[lo..lo + n - frag] == s[a + frag..a + n]
  {
    hide Cell, Holds;
    Wrapped(mem, lo, size, s, from, a, n);
  }

  lemma RunInRing(mem: seq<byte>, lo: nat, size: nat, s: seq<byte>, from: nat, a: nat, n: nat)
    requires size > 0 && lo + size <= |mem| && Holds(mem, lo, size, s, from)
    requires from <= a && a + n <= |s| && n <= size
    ensures var c := Cell(a, size);
      var k := size - c;
      if n <= k then mem[lo + c..lo + c + n] == s[a..a + n]
      else mem[lo + c..lo + c + k] == s[a..a + k] && mem[lo..lo + n - k] == s[a + k..a + n]
  {
    if Cell(a, size) + n <= size {
      Contiguous(mem, lo, size, s, from, a, n);
    } else {
      Wrapped(mem, lo, size, s, from, a, n);
    }
  }

  /** Forgetting the oldest bytes. */
  lemma AdvanceKeeps(mem: seq<byte>, lo: nat, size: nat, s: seq<byte>, from: nat, later: nat)
    requires size > 0 && lo + size <= |mem| && Holds(mem, lo, size, s, from) && from <= later
    ensures Holds(mem, lo, size, s, later)
  {
  }

  lemma Halves(s: seq<byte>, k: nat, n: nat)
    requires k <= n <= |s|
    ensures s[..n][..k] == s[..k] && s[..n][k..] == s[k..n]
  {
  }

  /** A packet of a stream behind its header: the header and the two parts of the first n bytes. */
  lemma SlicesOfPacket(s: seq<byte>, at: nat, h: seq<byte>, b: seq<byte>, k: nat, n: nat)
    requires k <= n <= |b| && at + |h| + |b| <= |s| && s[at..at + |h| + |b|] == h + b
    ensures s[at..at + |h|] == h
    ensures s[at + |h|..at + |h| + n] == b[..n]
    ensures s[at + |h|..at + |h| + k] == b[..k] && s[at + |h| + k..at + |h| + n] == b[k..n]
  {
    var m := |h| + |b|;
    SliceOfSlice(s, at, at + m, 0, |h|);
    SliceOfSlice(s, at, at + m, |h|, |h| + n);
    SliceOfSlice(s, at, at + m, |h|, |h| + k);
    SliceOfSlice(s, at, at + m, |h| + k, |h| + n);
    SliceOfSum(h, b, 0, n);
    SliceOfSum(h, b, 0, k);
    SliceOfSum(h, b, k, n);
    assert (h + b)[0..|h|] == h;
  }

  lemma SliceOfSum(a: seq<byte>, b: seq<byte>, c: nat, d: nat)
    requires c <= d <= |b|
    ensures (a + b)[..|a|] == a && (a + b)[|a| + c..|a| + d] == b[c..d]
  {
    var t, u := (a + b)[|a| + c..|a| + d], b[c..d];
    assert |t| == |u| && forall k :: 0 <= k < d - c ==> t[k] == u[k];
  }

  /** The first n bytes behind the header of a packet, where they cross the end of the region. */
  lemma PacketWraps(mem: seq<byte>, lo: nat, size: nat, s: seq<byte>, at: nat, h: seq<byte>, b: seq<byte>,
                    n: nat, o: nat)
    requires size > 0 && lo + size <= |mem| && Holds(mem, lo, size, s, at) && o == lo + Cell(at + |h|, size)
    requires at + |h| + |b| <= |s| && s[at..at + |h| + |b|] == h + b
    requires n <= |b| && n <= size && o + n > lo + size
    ensures var frag := lo + size - o;
      && 0 <= frag <= n && mem[o..o + frag] == b[..frag] && mem[lo..lo + n - frag] == b[frag..n]
  {
    hide Cell, Holds;
    var frag := lo + size - o;
    WrappedFrom(mem, lo, size, s, at, at + |h|, n, o);
    SlicesOfPacket(s, at, h, b, frag, n);
  }

  /** The second write may run past the bytes wanted. */
  lemma OverwriteParts(was: seq<byte>, b: seq<byte>, k: nat, r: seq<byte>)
    requires k <= |b| <= k + |r| <= |was| && b[k..] == r[..|b| - k]
    ensures Overwrite(Overwrite(was, 0, b[..k]), k, r)[..|b|] == b
  {
    assert Overwrite(was, 0, b[..k])[..k] == b[..k];
    assert b[..k] + b[k..] == b;
  }

  lemma OverwriteTwice(was: seq<byte>, b: seq<byte>, k: nat)
    requires k <= |b| <= |was|
    ensures Overwrite(Overwrite(was, 0, b[..k]), k, b[k..])[..|b|] == b
  {
    assert Overwrite(was, 0, b[..k])[..k] == b[..k];
    assert b[..k] + b[k..] == b;
  }

  lemma OverwriteWhole(was: seq<byte>, b: seq<byte>, r: seq<byte>)
    requires |b| <= |r| <= |was| && b == r[..|b|]
    ensures Overwrite(was, 0, r)[..|b|] == b
  {
  }

  method CopyBytes(dst: array<byte>, at: nat, src: array<byte>, from: nat, n: nat)
    requires dst != src && at + n <= dst.Length && from + n <= src.Length
    modifies dst
    ensures dst[..] == Overwrite(old(dst[..]), at, src[..][from..from + n])
  {
    ghost var was, r := dst[..], src[..][from..from + n];
    for i := 0 to n
      invariant dst[..] == Overwrite(was, at, r[..i])
    {
      OverwriteOneMore(was, at, r, i);
      dst[at + i] := src[from + i];
    }
    assert r[..n] == r;
  }

  /** Two memcpy calls: the first k bytes of b lie at from, the others at the start of src. */
  method CopyInTwo(dst: array<byte>, src: array<byte>, from: nat, k: nat, ghost b: seq<byte>, n: nat)
    requires dst != src && k <= n == |b| <= dst.Length && from + k <= src.Length && n - k <= src.Length
    requires src[..][from..from + k] == b[..k] && src[..][0..n - k] == b[k..]
    modifies dst
    ensures dst[..n] == b
  {
    ghost var was := dst[..];
    CopyBytes(dst, 0, src, from, k);
    CopyBytes(dst, k, src, 0, n - k);
    OverwriteTwice(was, b, k);
  }

  method CopyInOne(dst: array<byte>, src: array<byte>, from: nat, ghost b: seq<byte>, n: nat)
    requires dst != src && n == |b| <= dst.Length && from + n <= src.Length
    requires src[..][from..from + n] == b
    modifies dst
    ensures dst[..n] == b
  {
    ghost var was := dst[..];
    CopyBytes(dst, 0, src, from, n);
    OverwriteWhole(was, b, b);
  }
}
