/**
 * The stack frame allocator (osfmk/vm/pmm.c).  Addresses are 64-bit numbers;
 * wrap-around is written out where the source can reach it.
 */
module Pmm {
  import opened Common

  const STACK_SIZE := 65536
  const MAX_ADDR := 0xC000_0000
  const TOP_GUARD := 0x100_0000
  const AVAILABLE := 1

  type Addr = x: nat | x < TWO64

  datatype E820 = E820(base: Addr, length: Addr, kind: nat)

  lemma DistinctConcat(s: seq<nat>, t: seq<nat>)
    requires Distinct(s) && Distinct(t) && forall x :: x in s ==> x !in t
    ensures Distinct(s + t)
  {
    forall i, j | 0 <= i < j < |s + t| ensures (s + t)[i] != (s + t)[j] {
      if i < |s| <= j {
        assert (s + t)[i] in s && (s + t)[j] in t;
      }
    }
  }

  /** Overwrite place `i` with the last one and drop the last place. */
  function SwapRemove(s: seq<nat>, i: nat): seq<nat>
    requires i < |s|
  {
    s[i := s[|s| - 1]][..|s| - 1]
  }

  lemma SwapRemoveElems(s: seq<nat>, i: nat)
    requires Distinct(s) && i < |s|
    ensures Distinct(SwapRemove(s, i)) && Elems(SwapRemove(s, i)) == Elems(s) - {s[i]}
  {
    var n, r := |s| - 1, SwapRemove(s, i);
    assert forall k :: 0 <= k < n ==> r[k] == if k == i then s[n] else s[k];
    forall x | x in s && x != s[i] ensures x in r {
      var k :| 0 <= k <= n && s[k] == x;
      assert r[if k == n then i else k] == x;
    }
  }

  lemma DropLast(s: seq<nat>)
    requires Distinct(s) && s != []
    ensures var r := s[..|s| - 1];
            Distinct(r) && Elems(r) == Elems(s) - {s[|s| - 1]} && s == r + [s[|s| - 1]]
  {
    SwapRemoveElems(s, |s| - 1);
    assert SwapRemove(s, |s| - 1) == s[..|s| - 1];
  }

  lemma AddLast(s: seq<nat>, a: nat)
    requires Distinct(s) && a !in s
    ensures Distinct(s + [a]) && Elems(s + [a]) == Elems(s) + {a}
  {}

  lemma {:induction false} DistinctCount(s: seq<nat>)
    requires Distinct(s)
    ensures |Elems(s)| == |s|
  {
    if s != [] {
      DropLast(s);
      DistinctCount(s[..|s| - 1]);
    }
  }

  lemma SubsetCount(a: set<nat>, b: set<nat>)
    requires a <= b
    ensures |a| <= |b|
  {
    assert b == a + (b - a);
  }

  /** No frame is free twice, none is both free and owned, none came from outside, and the stack has room for all. */
  ghost predicate Books(free: seq<nat>, owned: set<nat>, pool: set<nat>) {
    && Distinct(free) && 0 !in pool
    && Elems(free) !! owned && Elems(free) + owned <= pool
    && |pool| <= STACK_SIZE
  }

  function Down(a: nat): (r: nat)
    ensures r % PAGE_SIZE == 0 && r <= a < r + PAGE_SIZE
  {
    a - a % PAGE_SIZE
  }

  /** `(a + PAGE_SIZE - 1) & ~(PAGE_SIZE - 1)` for addresses far below the wrap. */
  function Up(a: nat): nat { Down(a + PAGE_SIZE - 1) }

  /** 64-bit addition and subtraction. */
  function Add(a: Addr, b: Addr): Addr { if a + b < TWO64 then a + b else a + b - TWO64 }

  function Sub(a: Addr, b: Addr): Addr { if a >= b then a - b else a - b + TWO64 }

  /** Where the part of an entry below 3 GiB ends. */
  function End(e: E820): Addr {
    if Add(e.base, e.length) > MAX_ADDR then MAX_ADDR else Add(e.base, e.length)
  }

  /** The loop bound of pmm_init. */
  function Stop(start: Addr, stop: Addr): Addr {
    if Sub(stop, start) > 2 * TOP_GUARD then Sub(stop, TOP_GUARD) else stop
  }

  /** An entry pmm_init takes frames from. */
  predicate Used(e: E820) { e.base < MAX_ADDR && e.kind == AVAILABLE }

  /** Whole pages of a usable entry. */
  predicate Inside(e: E820, a: nat) { Used(e) && a % PAGE_SIZE == 0 && e.base <= a && a + PAGE_SIZE <= End(e) }

  /** Entries on which the loop bound does not wrap. */
  predicate Rounds(e: E820) {
    Up(e.base) <= Down(End(e)) || Down(End(e)) >= TOP_GUARD
  }

  lemma AlignedStep(a: nat, b: nat)
    requires a % PAGE_SIZE == 0 && b % PAGE_SIZE == 0 && a < b
    ensures a + PAGE_SIZE <= b
  {}

  lemma AlignedNext(a: nat)
    requires a % PAGE_SIZE == 0
    ensures (a + PAGE_SIZE) % PAGE_SIZE == 0
  {}

  /** pmm_init visits only whole pages of the entry exactly when the bound does not wrap. */
  lemma BoundExact(e: E820)
    requires Used(e)
    ensures (forall a {:trigger Inside(e, a)} ::
              a % PAGE_SIZE == 0 && Up(e.base) <= a < Stop(Up(e.base), Down(End(e))) ==> Inside(e, a))
            <==> Rounds(e)
  {
    var start, stop := Up(e.base), Down(End(e));
    if Rounds(e) {
      forall a {:trigger Inside(e, a)} | a % PAGE_SIZE == 0 && start <= a < Stop(start, stop) ensures Inside(e, a) {
        AlignedStep(a, stop);
      }
    } else {
      assert start % PAGE_SIZE == 0 && start < Stop(start, stop);
      assert !Inside(e, start);
    }
  }

  const SLIVER: E820 := E820(0x1001, 0x100, AVAILABLE)

  /** A 256-byte entry inside one page: the bound wraps, and every address up to almost 2^64 is taken. */
  lemma BoundWraps(a: nat)
    requires a % PAGE_SIZE == 0 && 0x2000 <= a < TWO64 - TOP_GUARD
    ensures Used(SLIVER) && !Rounds(SLIVER) && !Inside(SLIVER, a)
    ensures forall ks, ke :: InKernel(a, ks, ke) || a in EntryPages(SLIVER, ks, ke)
  {
    assert Up(0x1001) == 0x2000 && End(SLIVER) == 0x1101 && Down(0x1101) == 0x1000;
    forall ks, ke ensures InKernel(a, ks, ke) || a in EntryPages(SLIVER, ks, ke) {
      PagesExact(0x2000, Stop(0x2000, 0x1000), ks, ke, a);
    }
  }

  // ------------------------------------------------------------- pmm_init's list

  predicate InKernel(a: nat, ks: nat, ke: nat) { ks <= a < ke }

  /** The frames one entry contributes, in loop order. */
  function Pages(a: nat, stop: nat, ks: nat, ke: nat): seq<nat>
    decreases stop - a
  {
    if a >= stop then []
    else (if a == 0 || InKernel(a, ks, ke) then [] else [a]) + Pages(a + PAGE_SIZE, stop, ks, ke)
  }

  function EntryPages(e: E820, ks: nat, ke: nat): seq<nat> {
    if Used(e) then Pages(Up(e.base), Stop(Up(e.base), Down(End(e))), ks, ke) else []
  }

  /** Everything pmm_init pushes, were the stack unbounded. */
  function FreeList(map': seq<E820>, ks: nat, ke: nat): seq<nat> {
    if map' == [] then [] else FreeList(map'[..|map'| - 1], ks, ke) + EntryPages(map'[|map'| - 1], ks, ke)
  }

  lemma {:induction false} PagesExact(a: nat, stop: nat, ks: nat, ke: nat, x: nat)
    requires a % PAGE_SIZE == 0
    ensures x in Pages(a, stop, ks, ke) <==>
            x % PAGE_SIZE == 0 && a <= x < stop && x != 0 && !InKernel(x, ks, ke)
    decreases stop - a
  {
    if a < stop {
      PagesExact(a + PAGE_SIZE, stop, ks, ke, x);
      if x % PAGE_SIZE == 0 && a < x {
        AlignedStep(a, x);
      }
    }
  }

  /**
   * The frames of one entry: whole pages of usable memory below 3 GiB, but not
   * frame 0, not the kernel, and of more than 32 MiB not the last 16.
   */
  lemma EntryExact(e: E820, ks: nat, ke: nat, x: nat)
    requires e.base + e.length < TWO64 && Rounds(e)
    ensures var end := Min(e.base + e.length, 0xC000_0000);
            var lo, hi := (e.base + 0xfff) / 0x1000 * 0x1000, end / 0x1000 * 0x1000;
            x in EntryPages(e, ks, ke) <==>
            && e.kind == 1 && e.base < 0xC000_0000 && x % 0x1000 == 0 && x != 0 && !(ks <= x < ke)
            && lo <= x && x + 0x1000 <= if hi - lo > 0x200_0000 then hi - 0x100_0000 else hi
  {
    if Used(e) {
      var lo, hi := Up(e.base), Down(End(e));
      UpDown(e.base);
      UpDown(End(e));
      PagesExact(lo, Stop(lo, hi), ks, ke, x);
      hide Down, Up;
      if x % PAGE_SIZE == 0 && lo <= x {
        StopExact(lo, hi, x);
      }
    }
  }

  lemma UpDown(a: nat)
    ensures Up(a) == (a + 0xfff) / 0x1000 * 0x1000 && Down(a) == a / 0x1000 * 0x1000
    ensures Up(a) % PAGE_SIZE == 0 && Down(a) % PAGE_SIZE == 0
  {}

  lemma StopExact(lo: Addr, hi: Addr, x: nat)
    requires lo % PAGE_SIZE == 0 && hi % PAGE_SIZE == 0 && x % PAGE_SIZE == 0 && lo <= x
    requires lo <= hi || hi >= TOP_GUARD
    ensures x < Stop(lo, hi) <==> x + 0x1000 <= if hi - lo > 0x200_0000 then hi - 0x100_0000 else hi
  {
    if x < hi {
      AlignedStep(x, hi);
    }
    if x + 0x100_0000 < hi {
      AlignedStep(x, hi - 0x100_0000);
    }
  }

  /** Lower frames are pushed first, so the highest is the first to be allocated. */
  lemma {:induction false} PagesAscend(a: nat, stop: nat, ks: nat, ke: nat, i: nat, j: nat)
    requires a % PAGE_SIZE == 0 && i < j < |Pages(a, stop, ks, ke)|
    ensures Pages(a, stop, ks, ke)[i] < Pages(a, stop, ks, ke)[j]
    decreases stop - a
  {
    var s := Pages(a, stop, ks, ke);
    var rest := Pages(a + PAGE_SIZE, stop, ks, ke);
    if s == rest {
      PagesAscend(a + PAGE_SIZE, stop, ks, ke, i, j);
    } else {
      assert s == [a] + rest && s[j] == rest[j - 1];
      if i == 0 {
        PagesExact(a + PAGE_SIZE, stop, ks, ke, s[j]);
      } else {
        PagesAscend(a + PAGE_SIZE, stop, ks, ke, i - 1, j - 1);
      }
    }
  }

  lemma {:induction false} PagesDistinct(a: nat, stop: nat, ks: nat, ke: nat)
    requires a % PAGE_SIZE == 0
    ensures Distinct(Pages(a, stop, ks, ke))
    decreases stop - a
  {
    if a < stop {
      PagesDistinct(a + PAGE_SIZE, stop, ks, ke);
      PagesExact(a + PAGE_SIZE, stop, ks, ke, a);
    }
  }

  /** The list holds exactly the non-zero pages outside the kernel that the entries' loops visit. */
  lemma {:induction false} FreeListExact(map': seq<E820>, ks: nat, ke: nat, x: nat)
    ensures x in FreeList(map', ks, ke) <==>
            x % PAGE_SIZE == 0 && x != 0 && !InKernel(x, ks, ke) &&
            exists e :: e in map' && Used(e) && Up(e.base) <= x < Stop(Up(e.base), Down(End(e)))
  {
    if map' != [] {
      var last, rest := map'[|map'| - 1], map'[..|map'| - 1];
      FreeListExact(rest, ks, ke, x);
      assert map' == rest + [last];
      if Used(last) {
        PagesExact(Up(last.base), Stop(Up(last.base), Down(End(last))), ks, ke, x);
      }
    }
  }

  /** Memory maps the claim below is about: no wrapped loop bound, no overlap between usable entries. */
  predicate Sane(map': seq<E820>) {
    && (forall e :: e in map' && Used(e) ==> Rounds(e))
    && (forall i, j :: 0 <= i < j < |map'| && Used(map'[i]) && Used(map'[j])
          ==> End(map'[i]) <= map'[j].base || End(map'[j]) <= map'[i].base)
  }

  /** A frame the allocator may own. */
  predicate Good(map': seq<E820>, ks: nat, ke: nat, a: nat) {
    && a != 0 && a % PAGE_SIZE == 0 && a + PAGE_SIZE <= MAX_ADDR
    && (a + PAGE_SIZE <= ks || ke <= a)
    && exists e :: e in map' && Inside(e, a)
  }

  lemma FreeListGood(map': seq<E820>, ks: nat, ke: nat, x: nat)
    requires Sane(map') && ks % PAGE_SIZE == 0 && x in FreeList(map', ks, ke)
    ensures Good(map', ks, ke, x)
  {
    FreeListExact(map', ks, ke, x);
    var e :| e in map' && Used(e) && Up(e.base) <= x < Stop(Up(e.base), Down(End(e)));
    BoundExact(e);
    assert Inside(e, x);
    if x < ks {
      AlignedStep(x, ks);
    }
  }

  lemma EntryPagesInside(e: E820, ks: nat, ke: nat, x: nat)
    requires Rounds(e) && x in EntryPages(e, ks, ke)
    ensures Inside(e, x)
  {
    PagesExact(Up(e.base), Stop(Up(e.base), Down(End(e))), ks, ke, x);
    BoundExact(e);
    assert Inside(e, x);
  }

  lemma {:induction false} InSomeEntry(map': seq<E820>, ks: nat, ke: nat, x: nat) returns (k: nat)
    requires x in FreeList(map', ks, ke)
    ensures k < |map'| && x in EntryPages(map'[k], ks, ke)
  {
    var n := |map'| - 1;
    if x in EntryPages(map'[n], ks, ke) {
      k := n;
    } else {
      k := InSomeEntry(map'[..n], ks, ke, x);
    }
  }

  lemma EntriesApart(map': seq<E820>, ks: nat, ke: nat, x: nat)
    requires Sane(map') && map' != [] && x in FreeList(map'[..|map'| - 1], ks, ke)
    ensures x !in EntryPages(map'[|map'| - 1], ks, ke)
  {
    var n := |map'| - 1;
    var k := InSomeEntry(map'[..n], ks, ke, x);
    assert map'[..n][k] == map'[k];
    EntryPagesInside(map'[k], ks, ke, x);
    if x in EntryPages(map'[n], ks, ke) {
      EntryPagesInside(map'[n], ks, ke, x);
      assert false;
    }
  }

  lemma {:induction false} FreeListDistinct(map': seq<E820>, ks: nat, ke: nat)
    requires Sane(map')
    ensures Distinct(FreeList(map', ks, ke))
  {
    if map' != [] {
      var n := |map'| - 1;
      var last, rest := map'[n], map'[..n];
      FreeListDistinct(rest, ks, ke);
      if Used(last) {
        PagesDistinct(Up(last.base), Stop(Up(last.base), Down(End(last))), ks, ke);
      }
      forall x | x in FreeList(rest, ks, ke) ensures x !in EntryPages(last, ks, ke) {
        EntriesApart(map', ks, ke, x);
      }
      DistinctConcat(FreeList(rest, ks, ke), EntryPages(last, ks, ke));
    }
  }

  /** On a sane map pmm_init starts the books with good frames only. */
  lemma InitBooks(map': seq<E820>, ks: nat, ke: nat)
    requires Sane(map') && ks % PAGE_SIZE == 0
    ensures var s := Capped(FreeList(map', ks, ke));
            Books(s, {}, Elems(s)) && forall a :: a in s ==> Good(map', ks, ke, a)
  {
    hide FreeList, Good, Sane, Capped;
    var s := Capped(FreeList(map', ks, ke));
    FreeListDistinct(map', ks, ke);
    CappedSome(FreeList(map', ks, ke));
    DistinctCount(s);
    forall a | a in s ensures Good(map', ks, ke, a) {
      FreeListGood(map', ks, ke, a);
    }
    GoodNonZero(map', ks, ke);
  }

  lemma CappedSome(s: seq<nat>)
    requires Distinct(s)
    ensures Distinct(Capped(s)) && |Capped(s)| <= STACK_SIZE && forall a :: a in Capped(s) ==> a in s
  {}

  lemma GoodNonZero(map': seq<E820>, ks: nat, ke: nat)
    ensures !Good(map', ks, ke, 0)
  {}

  // ------------------------------------------------------ the steps, on the books

  lemma PopBooks(free: seq<nat>, owned: set<nat>, pool: set<nat>)
    requires Books(free, owned, pool) && free != []
    ensures var a := free[|free| - 1];
            a != 0 && a !in owned && Books(free[..|free| - 1], owned + {a}, pool)
  {
    DropLast(free);
    assert free[|free| - 1] in Elems(free);
  }

  lemma PushBooks(free: seq<nat>, owned: set<nat>, pool: set<nat>, a: nat)
    requires Books(free, owned, pool) && a in owned
    ensures a != 0 && |free| < 65536 && Books(free + [a], owned - {a}, pool)
  {
    assert a !in Elems(free);
    AddLast(free, a);
    DistinctCount(free + [a]);
    SubsetCount(Elems(free + [a]), pool);
  }

  /** The books survive a pmm_free of any address exactly when it does nothing or returns a frame that is not free. */
  lemma FreeExact(free: seq<nat>, owned: set<nat>, pool: set<nat>, a: nat)
    requires Books(free, owned, pool)
    ensures Books(Freed(free, a), owned - {a}, pool) <==>
            a == 0 || |free| == 65536 || (a in pool && a !in free)
  {
    StackBound(free, owned, pool);
    if a == 0 || |free| == STACK_SIZE {
      assert owned - {a} == owned by {
        if |free| == STACK_SIZE {
          FullStack(free, owned, pool);
        }
      }
    } else if a in free {
      var i := Place(free, a);
      var r := free + [a];
      assert r[i] == r[|free|];
    } else {
      AddLast(free, a);
    }
  }

  lemma Place(s: seq<nat>, a: nat) returns (i: nat)
    requires a in s
    ensures i < |s| && s[i] == a
  {
    i :| 0 <= i < |s| && s[i] == a;
  }

  lemma StackBound(free: seq<nat>, owned: set<nat>, pool: set<nat>)
    requires Books(free, owned, pool)
    ensures |free| <= STACK_SIZE
  {
    DistinctCount(free);
    SubsetCount(Elems(free), pool);
  }

  lemma FullStack(free: seq<nat>, owned: set<nat>, pool: set<nat>)
    requires Books(free, owned, pool) && |free| == STACK_SIZE
    ensures owned == {}
  {
    DistinctCount(free);
    SubsetCount(Elems(free) + owned, pool);
    assert |Elems(free) + owned| == |Elems(free)| + |owned|;
  }

  /** pmm_free. */
  function Freed(free: seq<nat>, a: nat): seq<nat> {
    if a == 0 || |free| >= STACK_SIZE then free else free + [a]
  }

  lemma OwnedApart(free: seq<nat>, owned: set<nat>, pool: set<nat>, a: nat)
    requires Books(free, owned, pool) && a in owned
    ensures a in pool && a !in free
  {
    assert a in free ==> a in Elems(free);
  }

  /** The inner loop of pmm_reserve. */
  function RemoveFrom(s: seq<nat>, a: nat, i: nat): seq<nat>
    decreases |s| - i
  {
    if i >= |s| then s else if s[i] == a then SwapRemove(s, i) else RemoveFrom(s, a, i + 1)
  }

  /** Both loops of pmm_reserve. */
  function RemoveRange(s: seq<nat>, a: nat, end: nat): seq<nat>
    decreases end - a
  {
    if a >= end then s else RemoveRange(RemoveFrom(s, a, 0), a + PAGE_SIZE, end)
  }

  lemma {:induction false} RemoveFromElems(s: seq<nat>, a: nat, i: nat)
    requires Distinct(s) && i <= |s| && a !in s[..i]
    ensures var r := RemoveFrom(s, a, i);
            Distinct(r) && |r| <= |s| && Elems(r) == Elems(s) - {a}
    decreases |s| - i
  {
    if i == |s| {
      assert s[..i] == s;
    } else if s[i] == a {
      SwapRemoveElems(s, i);
    } else {
      assert s[..i + 1] == s[..i] + [s[i]];
      RemoveFromElems(s, a, i + 1);
    }
  }

  /** Every PAGE_SIZE-th address of [from, to). */
  function Span(from: nat, to: nat): set<nat>
    decreases if from < to then to - from else 0
  {
    if from >= to then {} else {from} + Span(from + PAGE_SIZE, to)
  }

  /** Exactly the frames of the span leave the list. */
  lemma {:induction false} RemoveRangeElems(s: seq<nat>, a: nat, end: nat)
    requires Distinct(s)
    ensures var r := RemoveRange(s, a, end);
            Distinct(r) && |r| <= |s| && Elems(r) == Elems(s) - Span(a, end)
    decreases if a < end then end - a else 0
  {
    if a < end {
      RemoveFromElems(s, a, 0);
      RemoveRangeElems(RemoveFrom(s, a, 0), a + PAGE_SIZE, end);
    }
  }

  lemma {:induction false} SpanExact(from: nat, to: nat, x: nat)
    requires from % PAGE_SIZE == 0
    ensures x in Span(from, to) <==> x % PAGE_SIZE == 0 && from <= x < to
    decreases if from < to then to - from else 0
  {
    if from < to {
      AlignedNext(from);
      SpanExact(from + PAGE_SIZE, to, x);
      if x % PAGE_SIZE == 0 && from < x {
        AlignedStep(from, x);
      }
    }
  }

  lemma RangeBooks(free: seq<nat>, owned: set<nat>, pool: set<nat>, a: nat, end: nat)
    requires Books(free, owned, pool)
    ensures Books(RemoveRange(free, a, end), owned, pool)
  {
    RemoveRangeElems(free, a, end);
  }

  /** pmm_reserve keeps exactly the free frames wholly before `addr` or at or after the 64-bit sum, and the books. */
  lemma ReserveExact(free: seq<nat>, owned: set<nat>, pool: set<nat>, addr: Addr, size: Addr)
    requires Books(free, owned, pool)
    ensures var r := RemoveRange(free, Down(addr), Add(addr, size));
            && Books(r, owned, pool)
            && (forall x :: x in r ==> x in free)
            && (forall x :: x in free && x % PAGE_SIZE == 0 ==>
                  (x in r <==> x + PAGE_SIZE <= addr || Add(addr, size) <= x))
  {
    var end := Add(addr, size);
    var r := RemoveRange(free, Down(addr), end);
    RemoveRangeElems(free, Down(addr), end);
    forall x | x in r ensures x in free {
      assert x in Elems(r);
    }
    forall x | x in free && x % PAGE_SIZE == 0
      ensures x in r <==> x + PAGE_SIZE <= addr || end <= x
    {
      assert x in Elems(free) && (x in Elems(r) <==> x in r);
      SpanMeets(addr, end, x);
    }
  }

  /** A byte of the range lies in the frame. */
  ghost predicate Overlaps(x: nat, addr: nat, size: nat) { exists b :: Holds(b, addr, size) && Holds(b, x, PAGE_SIZE) }

  predicate Holds(b: nat, from: nat, n: nat) { from <= b < from + n }

  lemma OverlapsExact(x: nat, addr: nat, size: nat)
    ensures Overlaps(x, addr, size) <==> size > 0 && x < addr + size && addr < x + PAGE_SIZE
  {
    if size > 0 && x < addr + size && addr < x + PAGE_SIZE {
      var b := if addr < x then x else addr;
      assert Holds(b, addr, size) && Holds(b, x, PAGE_SIZE);
    }
  }

  /** When exactly the frames that overlap [addr, addr + size) are removed. */
  predicate Sharp(free: seq<nat>, addr: Addr, size: Addr) {
    if addr + size < TWO64 then size > 0 || addr % PAGE_SIZE == 0 || Down(addr) !in free
    else forall x :: x in free ==> x < Down(addr) || x < Add(addr, size)
  }

  /**
   * An empty range inside a free frame removes that frame; a range whose sum
   * wraps removes at most the frame around `addr`.  Otherwise the frames
   * removed are those that overlap.
   */
  lemma ReserveOverlaps(free: seq<nat>, owned: set<nat>, pool: set<nat>, addr: Addr, size: Addr)
    requires Books(free, owned, pool) && forall x :: x in free ==> x % PAGE_SIZE == 0 && x < TWO64
    ensures (forall x :: x in free ==>
               (x in RemoveRange(free, Down(addr), Add(addr, size)) <==> !Overlaps(x, addr, size))) <==>
            Sharp(free, addr, size)
  {
    hide RemoveRange, Overlaps;
    var r := RemoveRange(free, Down(addr), Add(addr, size));
    ReserveExact(free, owned, pool, addr, size);
    forall x | x in free
      ensures (x in r <==> !Overlaps(x, addr, size)) <==>
              if addr + size < TWO64 then size > 0 || !(x < addr < x + PAGE_SIZE)
              else x + PAGE_SIZE <= addr || x < Add(addr, size)
    {
      OverlapsExact(x, addr, size);
    }
    forall x | x in free ensures x + PAGE_SIZE <= addr <==> x < Down(addr) {
      BelowDown(x, addr);
    }
    forall x | x in free && x < addr < x + PAGE_SIZE ensures x == Down(addr) {
      AroundIsDown(x, addr);
    }
  }

  lemma BelowDown(x: nat, addr: nat)
    requires x % PAGE_SIZE == 0
    ensures x + PAGE_SIZE <= addr <==> x < Down(addr)
  {
    if x < Down(addr) {
      AlignedStep(x, Down(addr));
    }
  }

  lemma AroundIsDown(x: nat, addr: nat)
    requires x % PAGE_SIZE == 0 && x <= addr < x + PAGE_SIZE
    ensures x == Down(addr)
  {}

  /** Reserving no bytes at 8193 takes the frame at 8192. */
  lemma ReserveNothingTakes()
    ensures RemoveRange([8192], Down(8193), Add(8193, 0)) == [] && !Overlaps(8192, 8193, 0)
  {
    assert Down(8193) == 8192;
    assert RemoveFrom([8192], 8192, 0) == [];
  }

  /** Reserving everything from 4096 up takes nothing. */
  lemma ReserveAllTakesNothing()
    ensures RemoveRange([0x2000], Down(0x1000), Add(0x1000, TWO64 - 0x1000)) == [0x2000]
    ensures Overlaps(0x2000, 0x1000, TWO64 - 0x1000)
  {
    OverlapsExact(0x2000, 0x1000, TWO64 - 0x1000);
  }

  /** A page frame is in the span exactly when it is neither wholly before `addr` nor at or after the end. */
  lemma SpanMeets(addr: nat, end: nat, x: nat)
    requires x % PAGE_SIZE == 0
    ensures x in Span(Down(addr), end) <==> x < end && addr < x + PAGE_SIZE
  {
    SpanExact(Down(addr), end, x);
    BelowDown(x, addr);
  }

  // ---------------------------------------------------------------------- runs

  /** The free stack and the frames handed out. */
  datatype Pool = Pool(free: seq<nat>, owned: set<nat>)

  datatype Op = Alloc | Free(a: nat) | Reserve(addr: Addr, size: Addr)

  function Do(p: Pool, op: Op): Pool {
    match op
    case Alloc =>
      if p.free == [] then p else Pool(p.free[..|p.free| - 1], p.owned + {p.free[|p.free| - 1]})
    case Free(a) => Pool(Freed(p.free, a), p.owned - {a})
    case Reserve(addr, size) => Pool(RemoveRange(p.free, Down(addr), Add(addr, size)), p.owned)
  }

  function Run(p: Pool, ops: seq<Op>): Pool
    decreases |ops|
  {
    if ops == [] then p else Run(Do(p, ops[0]), ops[1..])
  }

  /** Runs that give back only frames they were handed. */
  predicate FreesOwned(p: Pool, ops: seq<Op>)
    decreases |ops|
  {
    ops == [] || ((ops[0].Free? ==> ops[0].a in p.owned) && FreesOwned(Do(p, ops[0]), ops[1..]))
  }

  lemma StepBooks(p: Pool, pool: set<nat>, op: Op)
    requires Books(p.free, p.owned, pool) && (op.Free? ==> op.a in p.owned)
    ensures Books(Do(p, op).free, Do(p, op).owned, pool)
  {
    match op
    case Alloc => if p.free != [] { PopBooks(p.free, p.owned, pool); }
    case Free(a) => PushBooks(p.free, p.owned, pool, a);
    case Reserve(addr, size) => RangeBooks(p.free, p.owned, pool, Down(addr), Add(addr, size));
  }

  lemma {:induction false} RunBooks(p: Pool, pool: set<nat>, ops: seq<Op>)
    requires Books(p.free, p.owned, pool) && FreesOwned(p, ops)
    ensures Books(Run(p, ops).free, Run(p, ops).owned, pool)
    decreases |ops|
  {
    if ops != [] {
      StepBooks(p, pool, ops[0]);
      RunBooks(Do(p, ops[0]), pool, ops[1..]);
    }
  }

  /**
   * After pmm_init on a sane map and any such run, free frames are distinct,
   * no frame is both free and owned, and every frame, free or owned, is a
   * non-zero aligned available page below 3 GiB outside the kernel.
   */
  lemma RunGood(map': seq<E820>, ks: nat, ke: nat, ops: seq<Op>)
    requires Sane(map') && ks % PAGE_SIZE == 0 && FreesOwned(Pool(Capped(FreeList(map', ks, ke)), {}), ops)
    ensures var p := Run(Pool(Capped(FreeList(map', ks, ke)), {}), ops);
            && Distinct(p.free) && (forall a :: a in p.free ==> a !in p.owned)
            && forall a :: a in p.free || a in p.owned ==> Good(map', ks, ke, a)
  {
    hide Good, Run, FreesOwned, FreeList;
    var s := Capped(FreeList(map', ks, ke));
    InitBooks(map', ks, ke);
    RunBooks(Pool(s, {}), Elems(s), ops);
    var p := Run(Pool(s, {}), ops);
    forall a | a in p.free ensures a in Elems(p.free) {
    }
  }

  // -------------------------------------------------------------- the allocator

  function Capped(s: seq<nat>): seq<nat> { if |s| <= STACK_SIZE then s else s[..STACK_SIZE] }

  /** The first frames stay, as many as the stack of 65536 places takes. */
  lemma CappedExact(s: seq<nat>)
    ensures Capped(s) <= s && |Capped(s)| == Min(|s|, 65536)
  {}

  lemma CappedFits(s: seq<nat>)
    requires |s| <= STACK_SIZE
    ensures Capped(s) == s
  {}

  lemma CappedConcat(s: seq<nat>, t: seq<nat>)
    ensures Capped(Capped(s) + t) == Capped(s + t)
  {}

  lemma FreeListNext(map': seq<E820>, ks: nat, ke: nat)
    ensures Capped(FreeList(map'[..0], ks, ke)) == []
    ensures forall i :: 0 <= i < |map'| ==>
              FreeList(map'[..i + 1], ks, ke) == FreeList(map'[..i], ks, ke) + EntryPages(map'[i], ks, ke)
  {
    hide EntryPages;
    forall i | 0 <= i < |map'|
      ensures FreeList(map'[..i + 1], ks, ke) == FreeList(map'[..i], ks, ke) + EntryPages(map'[i], ks, ke)
    {
      assert map'[..i + 1][..i] == map'[..i];
    }
  }

  class FrameStack {
    const stack: array<nat>
    var top: nat
    /** Frames handed out and not given back. */
    ghost var owned: set<nat>
    /** Every frame the allocator was started with. */
    ghost var pool: set<nat>

    ghost predicate Shaped()
      reads this
    {
      stack.Length == STACK_SIZE && top <= STACK_SIZE
    }

    ghost function Free(): seq<nat>
      reads this, stack
      requires Shaped()
    {
      stack[..top]
    }

    ghost predicate Valid()
      reads this, stack
    {
      Shaped() && Books(Free(), owned, pool)
    }

    constructor ()
      ensures Shaped() && top == 0 && owned == {} && pool == {} && fresh(stack)
    {
      stack := new nat[STACK_SIZE];
      top := 0;
      owned, pool := {}, {};
    }

    method Push(a: nat)
      requires Shaped()
      modifies this`top, stack
      ensures Shaped()
      ensures Free() == if a == 0 then old(Free()) else Capped(old(Free()) + [a])
    {
      if a == 0 {
        return;
      }
      if top < STACK_SIZE {
        stack[top] := a;
        top := top + 1;
      }
    }

    /** The address loop of pmm_init. */
    method PushPages(start: nat, stop: nat, ks: nat, ke: nat)
      requires Shaped()
      modifies this`top, stack
      ensures Shaped() && Free() == Capped(old(Free()) + Pages(start, stop, ks, ke))
    {
      hide Capped;
      var addr := start;
      while addr < stop
        invariant Shaped()
        invariant Capped(Free() + Pages(addr, stop, ks, ke)) == Capped(old(Free()) + Pages(start, stop, ks, ke))
        decreases stop - addr
      {
        ghost var s, rest := Free(), Pages(addr + PAGE_SIZE, stop, ks, ke);
        assert [] + rest == rest;
        if !InKernel(addr, ks, ke) {
          Push(addr);
          assert s + ([addr] + rest) == (s + [addr]) + rest;
          CappedConcat(s + [addr], rest);
        }
        addr := addr + PAGE_SIZE;
      }
      assert Free() + [] == Free();
      CappedFits(Free());
    }

    /** One entry of the map. */
    method PushEntry(e: E820, ks: nat, ke: nat)
      requires Shaped()
      modifies this`top, stack
      ensures Shaped() && Free() == Capped(old(Free()) + EntryPages(e, ks, ke))
    {
      if Used(e) {
        PushPages(Up(e.base), Stop(Up(e.base), Down(End(e))), ks, ke);
      } else {
        assert Free() + [] == Free();
      }
    }

    /** pmm_init: the stack is exactly the entries' pages, cut at its capacity. */
    method Init(map': seq<E820>, ks: nat, ke: nat)
      requires Shaped()
      modifies this, stack
      ensures Shaped() && Free() == Capped(FreeList(map', ks, ke))
      ensures owned == {} && pool == Elems(Free())
      ensures Sane(map') && ks % PAGE_SIZE == 0 ==> Valid() && forall a :: a in pool ==> Good(map', ks, ke, a)
    {
      hide Good, Books, Sane, EntryPages, FreeList, Capped;
      top := 0;
      var i := 0;
      FreeListNext(map', ks, ke);
      while i < |map'|
        invariant 0 <= i <= |map'| && Shaped()
        invariant Free() == Capped(FreeList(map'[..i], ks, ke))
      {
        PushEntry(map'[i], ks, ke);
        CappedConcat(FreeList(map'[..i], ks, ke), EntryPages(map'[i], ks, ke));
        i := i + 1;
      }
      assert map'[..|map'|] == map';
      owned, pool := {}, Elems(Free());
      if Sane(map') && ks % PAGE_SIZE == 0 {
        InitBooks(map', ks, ke);
      }
    }

    method Alloc() returns (a: nat)
      requires Valid()
      modifies this`top, this`owned
      ensures Valid()
      ensures old(Free()) == [] ==> a == 0 && Free() == [] && owned == old(owned)
      ensures old(Free()) != [] ==>
                a != 0 && a !in old(owned) && old(Free()) == Free() + [a] && owned == old(owned) + {a}
    {
      hide Books;
      if top == 0 {
        return 0;
      }
      ghost var s := Free();
      PopBooks(s, owned, pool);
      top := top - 1;
      a := stack[top];
      owned := owned + {a};
      assert Free() == s[..|s| - 1] && a == s[|s| - 1];
    }

    /** pmm_free of any address; an owned frame is never dropped. */
    method Release(a: nat)
      requires Valid()
      modifies this`top, this`owned, stack
      ensures Shaped() && Free() == Freed(old(Free()), a) && owned == old(owned) - {a}
      ensures Valid() <==> a == 0 || |old(Free())| == STACK_SIZE || (a in pool && a !in old(Free()))
      ensures a in old(owned) ==> Valid() && Free() == old(Free()) + [a]
    {
      hide Books;
      FreeExact(Free(), owned, pool, a);
      if a in owned {
        PushBooks(Free(), owned, pool, a);
        OwnedApart(Free(), owned, pool, a);
      }
      Push(a);
      owned := owned - {a};
    }

    method Remove(a: nat)
      requires Shaped()
      modifies this`top, stack
      ensures Shaped() && Free() == RemoveFrom(old(Free()), a, 0)
    {
      var i := 0;
      while i < top
        invariant 0 <= i <= top && Shaped() && top == old(top) && Free() == old(Free())
        invariant RemoveFrom(Free(), a, i) == RemoveFrom(Free(), a, 0)
      {
        if stack[i] == a {
          top := top - 1;
          stack[i] := stack[top];
          assert Free() == SwapRemove(old(Free()), i);
          return;
        }
        i := i + 1;
      }
    }

    method RemoveAll(start: nat, end: nat)
      requires Shaped()
      modifies this`top, stack
      ensures Shaped() && Free() == RemoveRange(old(Free()), start, end)
    {
      var a := start;
      while a < end
        invariant Shaped() && RemoveRange(Free(), a, end) == RemoveRange(old(Free()), start, end)
        decreases end - a
      {
        Remove(a);
        a := a + PAGE_SIZE;
      }
    }

    /** pmm_reserve; a range that ends in the last page would never be done. */
    method Reserve(addr: Addr, size: Addr)
      requires Valid() && Add(addr, size) <= TWO64 - PAGE_SIZE
      modifies this`top, stack
      ensures Valid() && Free() == RemoveRange(old(Free()), Down(addr), Add(addr, size))
    {
      hide Books;
      RangeBooks(Free(), owned, pool, Down(addr), Add(addr, size));
      RemoveAll(Down(addr), Add(addr, size));
    }
  }
}
