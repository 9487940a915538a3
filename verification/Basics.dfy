/** What several of the other modules use. */
module Basics {

  const WORD := 0x1_0000_0000    // 32-bit words
  const HALFWORD := 0x1_0000     // 16-bit ones

  type byte = b: int | 0 <= b < 256

  datatype Option<+T> = None | Some(value: T)

  /** Division with remainder is unique. */
  lemma RemainderIs(x: int, n: nat, q: int, r: nat)
    requires r < n && x == n * q + r
    ensures x % n == r
  {
    var d, m := x / n, x % n;
    assert n * (d - q) == r - m;
    Multiple(n, d - q);
  }

  lemma Multiple(n: nat, p: int)
    ensures p >= 1 ==> n * p >= n
    ensures p <= -1 ==> n * p + n <= 0
  {
  }

  lemma Associative<T>(a: seq<T>, b: seq<T>, c: seq<T>)
    ensures a + (b + c) == a + b + c
  {
  }

  lemma SliceOfLeft<T>(a: seq<T>, b: seq<T>, i: nat, j: nat)
    requires i <= j <= |a|
    ensures (a + b)[i..j] == a[i..j]
  {
  }

  lemma SliceOfRight<T>(a: seq<T>, b: seq<T>, n: nat)
    requires n <= |b|
    ensures (a + b)[|a|..|a| + n] == b[..n]
  {
  }

  lemma SliceOfSlice<T>(s: seq<T>, i: nat, j: nat, c: nat, d: nat)
    requires i <= j <= |s| && c <= d <= j - i
    ensures s[i..j][c..d] == s[i + c..i + d]
  {
    var t, u := s[i..j][c..d], s[i + c..i + d];
    assert |t| == |u| && forall k :: 0 <= k < d - c ==> t[k] == u[k];
  }

  /** was with r written over it from number at on. */
  function Overwrite<T>(was: seq<T>, at: nat, r: seq<T>): (now: seq<T>)
    requires at + |r| <= |was|
    ensures |now| == |was|
  {
    was[..at] + r + was[at + |r|..]
  }

  lemma OverwriteNothing<T>(was: seq<T>, at: nat, r: seq<T>)
    requires at <= |was|
    ensures Overwrite(was, at, r[..0]) == was && r[..|r|] == r
  {
  }

  lemma OverwriteOneMore<T>(was: seq<T>, at: nat, r: seq<T>, i: nat)
    requires at + |r| <= |was| && i < |r|
    ensures Overwrite(was, at, r[..i])[at + i := r[i]] == Overwrite(was, at, r[..i + 1])
  {
    assert r[..i + 1] == r[..i] + [r[i]];
  }

  /** The elements of s whose mask is which, in order. */
  function Pick<T>(s: seq<T>, mask: seq<bool>, which: bool): seq<T>
    requires |mask| == |s|
  {
    if s == [] then []
    else (if mask[0] == which then [s[0]] else []) + Pick(s[1..], mask[1..], which)
  }

  lemma {:induction false} PickSplit<T>(s: seq<T>, t: seq<T>, m: seq<bool>, n: seq<bool>, which: bool)
    requires |s| == |m| && |t| == |n|
    ensures Pick(s + t, m + n, which) == Pick(s, m, which) + Pick(t, n, which)
  {
    if s == [] {
      assert s + t == t && m + n == n;
    } else {
      assert (s + t)[1..] == s[1..] + t && (m + n)[1..] == m[1..] + n;
      PickSplit(s[1..], t, m[1..], n, which);
      var head := if m[0] == which then [s[0]] else [];
      assert head + (Pick(s[1..], m[1..], which) + Pick(t, n, which)) == Pick(s, m, which) + Pick(t, n, which);
    }
  }

  lemma {:induction false} PickAll<T>(s: seq<T>, b: bool)
    ensures Pick(s, seq(|s|, _ => b), b) == s && Pick(s, seq(|s|, _ => b), !b) == []
  {
    if s != [] {
      assert seq(|s|, _ => b)[1..] == seq(|s[1..]|, _ => b);
      PickAll(s[1..], b);
    }
  }

  lemma {:induction false} PickIsPermutation<T>(s: seq<T>, mask: seq<bool>)
    requires |mask| == |s|
    ensures multiset(Pick(s, mask, true)) + multiset(Pick(s, mask, false)) == multiset(s)
  {
    if s != [] {
      PickIsPermutation(s[1..], mask[1..]);
      PickHead(s, mask, true);
      PickHead(s, mask, false);
      assert s == [s[0]] + s[1..];
    }
  }

  lemma PickHead<T>(s: seq<T>, mask: seq<bool>, which: bool)
    requires |mask| == |s| > 0
    ensures multiset(Pick(s, mask, which))
            == (if mask[0] == which then multiset{s[0]} else multiset{}) + multiset(Pick(s[1..], mask[1..], which))
  {
  }
}
