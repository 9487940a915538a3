/** The signature search of depca_probe1: an automaton over the bytes of a cyclic PROM. */
module Depca {
  import opened Basics

  const PROBE_LENGTH := 32

  const SIG: seq<byte> := [0xFF, 0x00, 0x55, 0xAA, 0xFF, 0x00, 0x55, 0xAA]

  /** The last j bytes of s are the first j of the signature. */
  ghost predicate Ends(s: seq<byte>, j: nat) {
    j <= |s| && j <= |SIG| && forall i :: 0 <= i < j ==> s[|s| - j + i] == SIG[i]
  }

  /** No longer signature prefix than that of length j ends at the last byte of s. */
  ghost predicate Longest(s: seq<byte>, j: nat) {
    Ends(s, j) && forall k :: j < k <= |SIG| ==> !Ends(s, k)
  }

  /** The new j of the loop when it reads data. */
  function Track(j: nat, data: byte): nat
    requires j < |SIG|
  {
    if data == SIG[j] then j + 1 else if data == SIG[0] then 1 else 0
  }

  /** A prefix of the signature that also ends its longer prefix of length j goes on as that one does. */
  lemma BorderGoesOn(j: nat, b: nat)
    requires 0 < b < j < |SIG| && SIG[j - b..j] == SIG[..b]
    ensures SIG[b] == SIG[j]
  {
    assert SIG[j - b..j][0] == SIG[..b][0];
    assert j - b == 4;
  }

  /** Looking at sig[0] only after a mismatch is enough. */
  lemma TrackKeepsLongest(s: seq<byte>, j: nat, data: byte)
    requires j < |SIG| && Longest(s, j)
    ensures Longest(s + [data], Track(j, data))
  {
    var t, n := s + [data], Track(j, data);
    forall k | n < k <= |SIG|
      ensures !Ends(t, k)
    {
      if Ends(t, k) {
        assert t[|t| - k + (k - 1)] == SIG[k - 1];
        assert Ends(s, k - 1) by {
          forall i | 0 <= i < k - 1
            ensures s[|s| - (k - 1) + i] == SIG[i]
          {
            assert t[|t| - k + i] == SIG[i];
          }
        }
        if 0 < k - 1 < j { ShorterIsBorder(s, j, k - 1); BorderGoesOn(j, k - 1); }
      }
    }
  }

  lemma ShorterIsBorder(s: seq<byte>, j: nat, b: nat)
    requires b < j && Ends(s, j) && Ends(s, b)
    ensures SIG[j - b..j] == SIG[..b]
  {
    forall i | 0 <= i < b
      ensures SIG[j - b + i] == SIG[i]
    {
      assert s[|s| - j + (j - b + i)] == SIG[j - b + i] && s[|s| - b + i] == SIG[i];
    }
  }

  // ---------------------------------------------------------------- the PROM

  /** The byte the PROM shows when its address counter is at c. */
  function ByteAt(rom: seq<byte>, c: nat): byte
    requires |rom| == PROBE_LENGTH
  {
    rom[c % PROBE_LENGTH]
  }

  /** What n reads from counter c on return. */
  function Reads(rom: seq<byte>, c: nat, n: nat): (s: seq<byte>)
    requires |rom| == PROBE_LENGTH
    ensures |s| == n && forall i :: 0 <= i < n ==> s[i] == ByteAt(rom, c + i)
  {
    if n == 0 then [] else Reads(rom, c, n - 1) + [ByteAt(rom, c + n - 1)]
  }

  /** The signature stands at offset p of the PROM, which has no end. */
  ghost predicate Occurs(rom: seq<byte>, p: nat)
    requires |rom| == PROBE_LENGTH
  {
    forall i :: 0 <= i < |SIG| ==> ByteAt(rom, p + i) == SIG[i]
  }

  lemma EndsIsOccurs(rom: seq<byte>, c: nat, n: nat)
    requires |rom| == PROBE_LENGTH && n >= |SIG|
    ensures Ends(Reads(rom, c, n), |SIG|) <==> Occurs(rom, c + n - |SIG|)
  {
    var s, p := Reads(rom, c, n), c + n - |SIG|;
    if Ends(s, |SIG|) {
      forall i | 0 <= i < |SIG|
        ensures ByteAt(rom, p + i) == SIG[i]
      {
        assert s[n - |SIG| + i] == SIG[i];
      }
    }
  }

  /** Offsets that agree modulo 32 still do so i bytes further on. */
  lemma Shifted(p: nat, q: nat, i: nat)
    requires p % 32 == q % 32
    ensures (p + i) % 32 == (q + i) % 32
  {
    var a, b, r := p / 32, q / 32, p % 32;
    assert p == 32 * a + r && q == 32 * b + r;
  }

  lemma OccursCyclic(rom: seq<byte>, p: nat, q: nat)
    requires |rom| == PROBE_LENGTH && p % PROBE_LENGTH == q % PROBE_LENGTH && Occurs(rom, p)
    ensures Occurs(rom, q)
  {
    forall i | 0 <= i < |SIG|
      ensures ByteAt(rom, q + i) == SIG[i]
    {
      assert ByteAt(rom, p + i) == SIG[i];
      Shifted(p, q, i);
    }
  }

  /** From any counter value the PROM shows, within the 39 reads of the loop, every occurrence there is. */
  lemma WithinReach(rom: seq<byte>, c: nat, p: nat) returns (n: nat)
    requires |rom| == PROBE_LENGTH && Occurs(rom, p)
    ensures |SIG| <= n <= PROBE_LENGTH + |SIG| - 1 && Ends(Reads(rom, c, n), |SIG|)
  {
    var d := (p - c) % PROBE_LENGTH;
    n := d + |SIG|;
    assert (c + d) % PROBE_LENGTH == p % PROBE_LENGTH;
    OccursCyclic(rom, p, c + d);
    EndsIsOccurs(rom, c, n);
  }

  lemma Start(rom: seq<byte>, c: nat)
    requires |rom| == PROBE_LENGTH
    ensures Longest(Reads(rom, c, 0), 0)
  {
  }

  lemma Advance(rom: seq<byte>, c: nat, i: nat, j: nat)
    requires |rom| == PROBE_LENGTH && j < |SIG| && Longest(Reads(rom, c, i), j)
    ensures Longest(Reads(rom, c, i + 1), Track(j, ByteAt(rom, c + i)))
    ensures Track(j, ByteAt(rom, c + i)) <= |SIG| && !Ends(Reads(rom, c, i), |SIG|)
  {
    TrackKeepsLongest(Reads(rom, c, i), j, ByteAt(rom, c + i));
  }

  class Prom {
    const rom: seq<byte>
    var counter: nat

    constructor (rom: seq<byte>, counter: nat)
      ensures this.rom == rom && this.counter == counter
    {
      this.rom, this.counter := rom, counter;
    }

    /** inb(DEPCA_PROM). */
    method Inb() returns (data: byte)
      requires |rom| == PROBE_LENGTH
      modifies this`counter
      ensures data == ByteAt(rom, old(counter)) && counter == old(counter) + 1
    {
      data := ByteAt(rom, counter);
      counter := counter + 1;
    }

    /** The search loop: it finds the signature if and only if the PROM holds it, wherever the
        counter starts, and stops with the counter right behind the first occurrence it meets. */
    method Search() returns (found: bool)
      requires |rom| == PROBE_LENGTH
      modifies this`counter
      ensures found <==> exists p: nat :: Occurs(rom, p)
      ensures found ==> counter >= old(counter) + |SIG| && Occurs(rom, counter - |SIG|)
      ensures found ==> forall p :: old(counter) <= p < counter - |SIG| ==> !Occurs(rom, p)
      ensures counter <= old(counter) + PROBE_LENGTH + |SIG| - 1
    {
      hide Ends, Longest, Occurs, Reads;
      ghost var c := counter;
      var i, j := 0, 0;
      Start(rom, c);
      while j < |SIG| && i < PROBE_LENGTH + |SIG| - 1
        invariant i <= PROBE_LENGTH + |SIG| - 1 && j <= |SIG| && counter == c + i
        invariant Longest(Reads(rom, c, i), j)
        invariant forall m :: 0 <= m < i ==> !Ends(Reads(rom, c, m), |SIG|)
        decreases PROBE_LENGTH + |SIG| - 1 - i
      {
        Advance(rom, c, i, j);
        var data := Inb();
        if data == SIG[j] {
          j := j + 1;
        } else {
          j := if data == SIG[0] then 1 else 0;
        }
        i := i + 1;
      }
      found := j == |SIG|;
      Verdict(rom, c, i, j);
    }
  }

  /** What the state in which the loop stops says about the whole PROM. */
  lemma Verdict(rom: seq<byte>, c: nat, i: nat, j: nat)
    requires |rom| == PROBE_LENGTH && j <= |SIG| && Longest(Reads(rom, c, i), j)
    requires forall m :: 0 <= m < i ==> !Ends(Reads(rom, c, m), |SIG|)
    requires j == |SIG| || i == PROBE_LENGTH + |SIG| - 1
    ensures j == |SIG| <==> exists p: nat :: Occurs(rom, p)
    ensures j == |SIG| ==> i >= |SIG| && Occurs(rom, c + i - |SIG|)
    ensures j == |SIG| ==> forall p :: c <= p < c + i - |SIG| ==> !Occurs(rom, p)
  {
    if j == |SIG| {
      EndsIsOccurs(rom, c, i);
      forall p | c <= p < c + i - |SIG|
        ensures !Occurs(rom, p)
      {
        EndsIsOccurs(rom, c, p - c + |SIG|);
      }
    } else if p: nat :| Occurs(rom, p) {
      var n := WithinReach(rom, c, p);
      assert false;
    }
  }
}
