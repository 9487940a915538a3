/** The bump allocator of kmemory.c, over whole histories of calls. */
module Kmemory {

  const PAGE := 0x1000
  const LIMIT := 0x1_0000_0000

  type u32 = n: int | 0 <= n < LIMIT

  /** One call of kmalloc, kmalloc_a, kmalloc_p or kmalloc_ap. */
  datatype Call = Call(sz: u32, align: bool)

  datatype Range = Range(start: u32, sz: u32) {
    function End(): int { start + sz }
  }

  /** placementAddress once aligned; no bound on the result. */
  function Up(p: nat, align: bool): (q: nat)
    ensures p <= q && (align ==> q % PAGE == 0)
    ensures q <= p + (if align then PAGE - 1 else 0)
  {
    if align && p % PAGE != 0 then p - p % PAGE + PAGE else p
  }

  /** The same as a 32-bit word. */
  function Up32(p: u32, align: bool): u32 {
    Up(p, align) % LIMIT
  }

  /** placementAddress after a history that began with it at p. */
  function After(p: u32, calls: seq<Call>): u32 {
    if calls == [] then p
    else
      var c := calls[|calls| - 1];
      (Up32(After(p, calls[..|calls| - 1]), c.align) + c.sz) % LIMIT
  }

  /** The ranges the history handed out. */
  function Ranges(p: u32, calls: seq<Call>): (r: seq<Range>)
    ensures |r| == |calls|
  {
    if calls == [] then []
    else
      var before, c := calls[..|calls| - 1], calls[|calls| - 1];
      Ranges(p, before) + [Range(Up32(After(p, before), c.align), c.sz)]
  }

  /** Where placementAddress would be if words had no limit. */
  function Top(p: nat, calls: seq<Call>): (t: nat)
    ensures p <= t
  {
    if calls == [] then p
    else
      var c := calls[|calls| - 1];
      Up(Top(p, calls[..|calls| - 1]), c.align) + c.sz
  }

  function Sizes(calls: seq<Call>): nat {
    if calls == [] then 0 else Sizes(calls[..|calls| - 1]) + calls[|calls| - 1].sz
  }

  function Aligned(calls: seq<Call>): nat {
    if calls == [] then 0 else Aligned(calls[..|calls| - 1]) + (if calls[|calls| - 1].align then 1 else 0)
  }

  /** The ranges lie one behind the other between lo and hi. */
  ghost predicate Ordered(lo: int, ranges: seq<Range>, hi: int) {
    if ranges == [] then lo <= hi
    else
      var r := ranges[|ranges| - 1];
      r.End() <= hi && Ordered(lo, ranges[..|ranges| - 1], r.start)
  }

  lemma OrderedBelow(lo: int, ranges: seq<Range>, hi: int, hi': int)
    requires Ordered(lo, ranges, hi) && hi <= hi'
    ensures Ordered(lo, ranges, hi')
  {
  }

  lemma Unwrapped(p: u32, c: Call)
    requires Up(p, c.align) + c.sz < LIMIT
    ensures Up32(p, c.align) == Up(p, c.align)
    ensures (Up32(p, c.align) + c.sz) % LIMIT == Up(p, c.align) + c.sz
  {
  }

  lemma LastRange(p: u32, calls: seq<Call>)
    requires calls != []
    ensures var n := |calls| - 1;
      && Ranges(p, calls)[..n] == Ranges(p, calls[..n])
      && Ranges(p, calls)[n] == Range(Up32(After(p, calls[..n]), calls[n].align), calls[n].sz)
  {
  }

  lemma {:induction false} NoWrap(p: u32, calls: seq<Call>)
    requires Top(p, calls) < LIMIT
    ensures After(p, calls) == Top(p, calls) && Ordered(p, Ranges(p, calls), After(p, calls))
  {
    if calls != [] {
      var before, c := calls[..|calls| - 1], calls[|calls| - 1];
      NoWrap(p, before);
      var now := Up(Top(p, before), c.align);
      assert now + c.sz == Top(p, calls) && After(p, calls) == (Up32(Top(p, before), c.align) + c.sz) % LIMIT;
      Unwrapped(Top(p, before), c);
      LastRange(p, calls);
      hide Up, Up32, After, Ranges, Top;
      OrderedBelow(p, Ranges(p, before), After(p, before), now);
    }
  }

  /** Ordered below some word, a history left placementAddress where the last range ends. */
  lemma {:induction false} EndIsAfter(p: u32, calls: seq<Call>, hi: u32)
    requires Ordered(p, Ranges(p, calls), hi)
    ensures After(p, calls) <= hi && Ordered(p, Ranges(p, calls), After(p, calls))
  {
    if calls != [] { LastRange(p, calls); }
  }

  /** A call that returns no less than placementAddress, and ends no later than it leaves it, did
      not wrap around. */
  lemma InOrder(p: u32, c: Call)
    requires p <= Up32(p, c.align) && Up32(p, c.align) + c.sz <= (Up32(p, c.align) + c.sz) % LIMIT
    ensures Up(p, c.align) + c.sz < LIMIT
  {
  }

  lemma {:induction false} WrapBreaksOrder(p: u32, calls: seq<Call>)
    requires Ordered(p, Ranges(p, calls), After(p, calls))
    ensures Top(p, calls) < LIMIT
  {
    if calls != [] {
      var before, c := calls[..|calls| - 1], calls[|calls| - 1];
      var start := Up32(After(p, before), c.align);
      LastRange(p, calls);
      EndIsAfter(p, before, start);
      WrapBreaksOrder(p, before);
      NoWrap(p, before);
      InOrder(After(p, before), c);
    }
  }

  /** The ranges of a history, and whatever the next call returns, lie one behind the other if
      and only if the requests, rounded up, stay below the end of the address space. */
  lemma OrderedIffBelowLimit(p: u32, calls: seq<Call>)
    ensures Ordered(p, Ranges(p, calls), After(p, calls)) <==> Top(p, calls) < LIMIT
  {
    if Top(p, calls) < LIMIT { NoWrap(p, calls); }
    if Ordered(p, Ranges(p, calls), After(p, calls)) { WrapBreaksOrder(p, calls); }
  }

  lemma {:induction false} OrderedDisjoint(lo: int, ranges: seq<Range>, hi: int, i: nat, j: nat)
    requires Ordered(lo, ranges, hi) && i <= j < |ranges|
    ensures lo <= ranges[i].start && ranges[j].End() <= hi
    ensures i < j ==> ranges[i].End() <= ranges[j].start
    decreases |ranges|
  {
    var n := |ranges| - 1;
    var before := ranges[..n];
    if j < n {
      OrderedDisjoint(lo, before, ranges[n].start, i, j);
    } else if i < n {
      OrderedDisjoint(lo, before, ranges[n].start, i, i);
    } else {
      OrderedAbove(lo, before, ranges[n].start);
    }
  }

  lemma {:induction false} OrderedAbove(lo: int, ranges: seq<Range>, hi: int)
    requires Ordered(lo, ranges, hi)
    ensures lo <= hi
  {
    if ranges != [] { OrderedAbove(lo, ranges[..|ranges| - 1], ranges[|ranges| - 1].start); }
  }

  /** Over any history that stays below the limit: the ranges are disjoint and increasing, they
      have the sizes asked for, and aligned ones start on a page. */
  lemma Disjoint(p: u32, calls: seq<Call>, i: nat, j: nat)
    requires Top(p, calls) < LIMIT && i < j < |calls|
    ensures p <= Ranges(p, calls)[i].start <= Ranges(p, calls)[i].End() <= Ranges(p, calls)[j].start
    ensures Ranges(p, calls)[j].End() <= After(p, calls)
  {
    NoWrap(p, calls);
    OrderedDisjoint(p, Ranges(p, calls), After(p, calls), i, j);
  }

  lemma Multiple(p: u32)
    ensures Up32(p, true) % PAGE == 0
  {
  }

  lemma {:induction false} AsAsked(p: u32, calls: seq<Call>, i: nat)
    requires i < |calls|
    ensures Ranges(p, calls)[i].sz == calls[i].sz
    ensures calls[i].align ==> Ranges(p, calls)[i].start % PAGE == 0
  {
    var before := calls[..|calls| - 1];
    LastRange(p, calls);
    hide After, Ranges;
    if i < |before| {
      AsAsked(p, before, i);
      assert Ranges(p, calls)[i] == Ranges(p, calls)[..|before|][i];
    } else {
      Multiple(After(p, before));
    }
  }

  /** Alignment wastes at most 4095 bytes per aligned call, and nothing else is wasted. */
  lemma {:induction false} SpaceUsed(p: nat, calls: seq<Call>)
    ensures p + Sizes(calls) <= Top(p, calls) <= p + Sizes(calls) + (PAGE - 1) * Aligned(calls)
  {
    if calls != [] { SpaceUsed(p, calls[..|calls| - 1]); }
  }

  // ---------------------------------------------------------------- the allocator

  /** What a u32int pointer of the caller points to. */
  class Word {
    var value: u32
  }

  class Heap {
    var placementAddress: u32
    ghost const base: u32
    ghost var calls: seq<Call>

    ghost predicate Valid()
      reads this
    {
      placementAddress == After(base, calls)
    }

    /** The range handed out last. */
    ghost function Last(): Range
      reads this
      requires calls != []
    {
      Ranges(base, calls)[|calls| - 1]
    }

    constructor (end: u32)
      ensures Valid() && base == end && calls == []
    {
      placementAddress, base, calls := end, end, [];
    }

    method KmallocInt(sz: u32, align: int, phys: Word?) returns (tmp: u32)
      requires Valid()
      modifies this, if phys == null then {} else {phys}
      ensures Valid() && calls == old(calls) + [Call(sz, align == 1)]
      ensures Last() == Range(tmp, sz)
      ensures phys != null ==> phys.value == tmp
    {
      ghost var was := placementAddress;
      if align == 1 && placementAddress % PAGE != 0 {
        placementAddress := placementAddress - placementAddress % PAGE;
        placementAddress := (placementAddress + PAGE) % LIMIT;
      }
      assert placementAddress == Up32(was, align == 1);
      hide Up, Up32, Ranges;
      if phys != null {
        phys.value := placementAddress;
      }
      tmp := placementAddress;
      placementAddress := (placementAddress + sz) % LIMIT;
      calls := calls + [Call(sz, align == 1)];
      assert calls[..|calls| - 1] == old(calls);
      LastRange(base, calls);
    }

    method KmallocA(sz: u32) returns (tmp: u32)
      requires Valid()
      modifies this
      ensures Valid() && calls == old(calls) + [Call(sz, true)] && Last() == Range(tmp, sz)
    {
      tmp := KmallocInt(sz, 1, null);
    }

    method KmallocP(sz: u32, phys: Word?) returns (tmp: u32)
      requires Valid()
      modifies this, if phys == null then {} else {phys}
      ensures Valid() && calls == old(calls) + [Call(sz, false)] && Last() == Range(tmp, sz)
      ensures phys != null ==> phys.value == tmp
    {
      tmp := KmallocInt(sz, 0, phys);
    }

    method KmallocAp(sz: u32, phys: Word?) returns (tmp: u32)
      requires Valid()
      modifies this, if phys == null then {} else {phys}
      ensures Valid() && calls == old(calls) + [Call(sz, true)] && Last() == Range(tmp, sz)
      ensures phys != null ==> phys.value == tmp
    {
      tmp := KmallocInt(sz, 1, phys);
    }

    method Kmalloc(sz: u32) returns (tmp: u32)
      requires Valid()
      modifies this
      ensures Valid() && calls == old(calls) + [Call(sz, false)] && Last() == Range(tmp, sz)
    {
      tmp := KmallocInt(sz, 0, null);
    }
  }
}
