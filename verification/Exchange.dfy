/** exchange of getopt.c: a rotation of part of an array, made of swaps. Each swap brings the shorter
    of the two blocks to its final place and leaves a smaller rotation to do. */
module Exchange {

  /** s with the blocks [p, p+n) and [q, q+n) swapped. */
  function Swapped<T>(s: seq<T>, p: nat, q: nat, n: nat): (r: seq<T>)
    requires p + n <= q && q + n <= |s|
    ensures |r| == |s|
  {
    s[..p] + s[q..q + n] + s[p + n..q] + s[p..p + n] + s[q + n..]
  }

  /** s with its adjacent blocks [b, m) and [m, t) in the other order. */
  function Rotated<T>(s: seq<T>, b: nat, m: nat, t: nat): (r: seq<T>)
    requires b <= m <= t <= |s|
    ensures |r| == |s|
  {
    s[..b] + s[m..t] + s[b..m] + s[t..]
  }

  /** Where number i of the swapped and of the rotated sequence comes from. */
  function SwapSource(p: int, q: int, n: int, i: int): int {
    if p <= i < p + n then q + (i - p) else if q <= i < q + n then p + (i - q) else i
  }

  function RotateSource(b: int, m: int, t: int, i: int): int {
    if b <= i < b + (t - m) then m + (i - b) else if b + (t - m) <= i < t then i - (t - m) else i
  }

  lemma InThree<T>(a: seq<T>, b: seq<T>, c: seq<T>, i: nat)
    requires i < |a| + |b| + |c|
    ensures (a + b + c)[i] ==
      if i < |a| then a[i] else if i < |a| + |b| then b[i - |a|] else c[i - |a| - |b|]
  {
  }

  lemma SwappedAt<T>(s: seq<T>, p: nat, q: nat, n: nat, i: nat)
    requires p + n <= q && q + n <= |s| && i < |s|
    ensures 0 <= SwapSource(p, q, n, i) < |s| && Swapped(s, p, q, n)[i] == s[SwapSource(p, q, n, i)]
  {
    var front, back := s[..p] + s[q..q + n] + s[p + n..q], s[p..p + n];
    InThree(front, back, s[q + n..], i);
    if i < q { InThree(s[..p], s[q..q + n], s[p + n..q], i); }
  }

  lemma RotatedAt<T>(s: seq<T>, b: nat, m: nat, t: nat, i: nat)
    requires b <= m <= t <= |s| && i < |s|
    ensures 0 <= RotateSource(b, m, t, i) < |s| && Rotated(s, b, m, t)[i] == s[RotateSource(b, m, t, i)]
  {
    InThree(s[..b] + s[m..t], s[b..m], s[t..], i);
  }

  lemma SwapTopAt<T>(s: seq<T>, b: nat, m: nat, t: nat, i: nat)
    requires b <= m <= t <= |s| && m - b <= t - m && i < |s|
    ensures Rotated(Swapped(s, b, t - (m - b), m - b), b, m, t - (m - b))[i] == s[RotateSource(b, m, t, i)]
  {
    var n := m - b;
    hide Rotated, Swapped, SwapSource, RotateSource;
    RotatedAt(Swapped(s, b, t - n, n), b, m, t - n, i);
    SwappedAt(s, b, t - n, n, RotateSource(b, m, t - n, i));
    TopSource(b, m, t, i);
  }

  /** The bottom block is the shorter one: it is in place after the swap, and what remains to be
      rotated ends before it. */
  lemma SwapTop<T>(s: seq<T>, b: nat, m: nat, t: nat)
    requires b <= m <= t <= |s| && m - b <= t - m
    ensures Rotated(Swapped(s, b, t - (m - b), m - b), b, m, t - (m - b)) == Rotated(s, b, m, t)
  {
    var r1 := Rotated(Swapped(s, b, t - (m - b), m - b), b, m, t - (m - b));
    hide *;
    forall i: nat | i < |s|
      ensures r1[i] == Rotated(s, b, m, t)[i]
    {
      SwapTopAt(s, b, m, t, i);
      RotatedAt(s, b, m, t, i);
    }
  }

  lemma TopSource(b: nat, m: nat, t: nat, i: nat)
    requires b <= m <= t && m - b <= t - m
    ensures SwapSource(b, t - (m - b), m - b, RotateSource(b, m, t - (m - b), i)) == RotateSource(b, m, t, i)
  {
  }

  lemma SwapBottomAt<T>(s: seq<T>, b: nat, m: nat, t: nat, i: nat)
    requires b <= m <= t <= |s| && t - m <= m - b && i < |s|
    ensures Rotated(Swapped(s, b, m, t - m), b + (t - m), m, t)[i] == s[RotateSource(b, m, t, i)]
  {
    var n := t - m;
    hide Rotated, Swapped, SwapSource, RotateSource;
    RotatedAt(Swapped(s, b, m, n), b + n, m, t, i);
    SwappedAt(s, b, m, n, RotateSource(b + n, m, t, i));
    BottomSource(b, m, t, i);
  }

  /** The top block is the shorter one: it is in place after the swap, and what remains to be
      rotated starts behind it. */
  lemma SwapBottom<T>(s: seq<T>, b: nat, m: nat, t: nat)
    requires b <= m <= t <= |s| && t - m <= m - b
    ensures Rotated(Swapped(s, b, m, t - m), b + (t - m), m, t) == Rotated(s, b, m, t)
  {
    var r1 := Rotated(Swapped(s, b, m, t - m), b + (t - m), m, t);
    hide *;
    forall i: nat | i < |s|
      ensures r1[i] == Rotated(s, b, m, t)[i]
    {
      SwapBottomAt(s, b, m, t, i);
      RotatedAt(s, b, m, t, i);
    }
  }

  lemma BottomSource(b: nat, m: nat, t: nat, i: nat)
    requires b <= m <= t && t - m <= m - b
    ensures SwapSource(b, m, t - m, RotateSource(b + (t - m), m, t, i)) == RotateSource(b, m, t, i)
  {
  }

  lemma RotatedNothing<T>(s: seq<T>, b: nat, m: nat, t: nat)
    requires b <= m <= t <= |s| && (b == m || m == t)
    ensures Rotated(s, b, m, t) == s
  {
  }

  lemma SwapOneMore<T>(s: seq<T>, p: nat, q: nat, n: nat)
    requires p + n < q && q + n < |s|
    ensures var t := Swapped(s, p, q, n);
      && t[p + n] == s[p + n] && t[q + n] == s[q + n]
      && t[p + n := t[q + n]][q + n := t[p + n]] == Swapped(s, p, q, n + 1)
  {
    var t, next := Swapped(s, p, q, n), Swapped(s, p, q, n + 1);
    SwappedAt(s, p, q, n, p + n);
    SwappedAt(s, p, q, n, q + n);
    var u := t[p + n := t[q + n]][q + n := t[p + n]];
    hide Swapped;
    forall i | 0 <= i < |s|
      ensures u[i] == next[i]
    {
      SwappedAt(s, p, q, n, i);
      SwappedAt(s, p, q, n + 1, i);
    }
  }

  method SwapBlocks<T>(a: array<T>, p: nat, q: nat, n: nat)
    requires p + n <= q && q + n <= a.Length
    modifies a
    ensures a[..] == Swapped(old(a[..]), p, q, n)
  {
    ghost var s := a[..];
    assert s == Swapped(s, p, q, 0);
    hide Swapped;
    for i := 0 to n
      invariant a[..] == Swapped(s, p, q, i)
    {
      SwapOneMore(s, p, q, i);
      ghost var t := a[..];
      a[p + i], a[q + i] := a[q + i], a[p + i];
      assert a[..] == t[p + i := t[q + i]][q + i := t[p + i]];
    }
  }

  method ExchangeBlocks<T>(a: array<T>, first: nat, last: nat, end: nat)
    requires first <= last <= end <= a.Length
    modifies a
    ensures a[..] == Rotated(old(a[..]), first, last, end)
  {
    hide Rotated, Swapped;
    var bottom, middle, top := first, last, end;
    while top > middle && middle > bottom
      invariant first <= bottom <= middle == last <= top <= end
      invariant Rotated(a[..], bottom, middle, top) == Rotated(old(a[..]), first, last, end)
      decreases top - bottom
    {
      if top - middle > middle - bottom {
        var len := middle - bottom;
        SwapTop(a[..], bottom, middle, top);
        SwapBlocks(a, bottom, top - len, len);
        top := top - len;
      } else {
        var len := top - middle;
        SwapBottom(a[..], bottom, middle, top);
        SwapBlocks(a, bottom, middle, len);
        bottom := bottom + len;
      }
    }
    RotatedNothing(a[..], bottom, middle, top);
  }
}
