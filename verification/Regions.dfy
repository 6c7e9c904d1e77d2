/**
 * Runs of mappings and paging_map_region (osfmk/vm/paging.c:170-196), in bytes.
 */
module Regions {
  import opened Arith
  import opened Common
  import opened PageEntry
  import opened PageTables
  import opened MapPageProof
  import opened AddressSpaces

  datatype Job = Job(p: Path, frame: nat)

  /** Map page after page. */
  function MapAll(v: Vm, root: nat, jobs: seq<Job>, flags: bv12): Vm
    decreases |jobs|
  {
    if jobs == [] then v
    else MapAll(MapPage(v, root, jobs[0].p, jobs[0].frame, flags), root, jobs[1..], flags)
  }

  predicate JobsReady(v: Vm, root: nat, jobs: seq<Job>) {
    v.Ok() && v.IsSpace(root) && forall i :: 0 <= i < |jobs| ==> jobs[i].p.a < 511
  }

  lemma JobStep(v: Vm, root: nat, jobs: seq<Job>, flags: bv12)
    requires JobsReady(v, root, jobs) && jobs != []
    ensures Ready(v, root, jobs[0].p)
    ensures JobsReady(MapPage(v, root, jobs[0].p, jobs[0].frame, flags), root, jobs[1..])
    ensures forall r :: v.IsSpace(r) ==> MapPage(v, root, jobs[0].p, jobs[0].frame, flags).IsSpace(r)
  {
    MapPageConserves(v, root, jobs[0].p, jobs[0].frame, flags);
  }

  /** Pages that are not among the jobs keep frame and rights, in every space, however the allocations go. */
  lemma {:induction false} MapAllKeeps(v: Vm, root: nat, jobs: seq<Job>, flags: bv12, r: nat, q: Path)
    requires JobsReady(v, root, jobs) && v.IsSpace(r) && q.a < 511
    requires forall i :: 0 <= i < |jobs| ==> jobs[i].p != q
    ensures Kept(Walk(v.mem, r, q), Walk(MapAll(v, root, jobs, flags).mem, r, q))
    decreases |jobs|
  {
    hide MapPage, Walk, Vm.Ok, Need;
    if jobs != [] {
      JobStep(v, root, jobs, flags);
      OtherPageKept(v, root, jobs[0].p, jobs[0].frame, flags, r, q);
      MapAllKeeps(MapPage(v, root, jobs[0].p, jobs[0].frame, flags), root, jobs[1..], flags, r, q);
    }
  }

  /** One mapping, in every space: its outcome if the tables it needs are there, nothing otherwise. */
  ghost function Mapped(v: Vm, root: nat, job: Job, flags: bv12, r: nat): Translation {
    if Need(v.mem, root, job.p) <= |v.free| then Outcome(v.mem, root, job.p, job.frame, flags, r, job.p)
    else Walk(v.mem, r, job.p)
  }

  lemma OneMapped(v: Vm, root: nat, job: Job, flags: bv12, r: nat)
    requires Ready(v, root, job.p) && v.IsSpace(r)
    ensures Walk(MapPage(v, root, job.p, job.frame, flags).mem, r, job.p) == Mapped(v, root, job, flags, r)
  {
    hide Walk, MapPage, Need, Outcome;
    if Need(v.mem, root, job.p) <= |v.free| {
      MapPageTranslates(v, root, job.p, job.frame, flags, r, job.p);
    } else {
      MapPageFails(v, root, job.p, job.frame, flags, r, job.p);
    }
  }

  /** A page whose last job is number `k` ends up, in every space, with the frame and rights that job gave it. */
  lemma {:induction false} MapAllMaps(v: Vm, root: nat, jobs: seq<Job>, flags: bv12, k: nat, r: nat)
    requires JobsReady(v, root, jobs) && k < |jobs| && v.IsSpace(r)
    requires forall i :: k < i < |jobs| ==> jobs[i].p != jobs[k].p
    ensures Kept(Mapped(MapAll(v, root, jobs[..k], flags), root, jobs[k], flags, r),
                 Walk(MapAll(v, root, jobs, flags).mem, r, jobs[k].p))
    decreases |jobs|
  {
    hide MapPage, Walk, Vm.Ok, Need, Mapped;
    JobStep(v, root, jobs, flags);
    var v' := MapPage(v, root, jobs[0].p, jobs[0].frame, flags);
    if k == 0 {
      assert jobs[..0] == [];
      OneMapped(v, root, jobs[0], flags, r);
      MapAllKeeps(v', root, jobs[1..], flags, r, jobs[0].p);
    } else {
      assert jobs[..k][1..] == jobs[1..][..k - 1] && jobs[..k][0] == jobs[0];
      MapAllMaps(v', root, jobs[1..], flags, k - 1, r);
    }
  }

  /** Three free frames a page are always enough. */
  lemma {:induction false} Enough(v: Vm, root: nat, jobs: seq<Job>, flags: bv12, k: nat)
    requires JobsReady(v, root, jobs) && k < |jobs| && 3 * (k + 1) <= |v.free|
    ensures var w := MapAll(v, root, jobs[..k], flags); Need(w.mem, root, jobs[k].p) <= 3 <= |w.free|
    decreases k
  {
    hide MapPage, Walk, Vm.Ok;
    if k > 0 {
      JobStep(v, root, jobs, flags);
      MapPageConserves(v, root, jobs[0].p, jobs[0].frame, flags);
      assert jobs[..k][1..] == jobs[1..][..k - 1] && jobs[..k][0] == jobs[0];
      Enough(MapPage(v, root, jobs[0].p, jobs[0].frame, flags), root, jobs[1..], flags, k - 1);
    }
  }

  // -------------------------------------------------------- paging_map_region

  /** How often the loop from `va` while `v < va + size` in 64-bit arithmetic turns. */
  function Visits(va: nat, size: nat): nat {
    var end := (va + size) % TWO64;
    if va < end then (end - va + PAGE_SIZE - 1) / PAGE_SIZE else 0
  }

  /** The address of turn `i`. */
  function Nth(a: nat, i: nat): nat { a + PAGE_SIZE * i }

  /** No visited address lies in the recursive window. */
  predicate BelowWindow(va: nat, count: nat) { forall i :: 0 <= i < count ==> Pml4Index(Nth(va, i)) < 511 }

  function RegionJobs(va: nat, pa: nat, count: nat): (jobs: seq<Job>)
    ensures |jobs| == count
  {
    seq(count, i requires 0 <= i < count => Job(PathOf(Nth(va, i)), Nth(pa, i) % TWO64 / PAGE_SIZE))
  }

  function MapRegion(v: Vm, root: nat, va: nat, pa: nat, size: nat, flags: bv12): Vm {
    MapAll(v, root, RegionJobs(va, pa, Visits(va, size)), flags)
  }

  lemma NextNumber(va: nat, i: nat)
    ensures PageNumber(Nth(va, i + 1)) == if PageNumber(Nth(va, i)) + 1 < 0x10_0000_0000
            then PageNumber(Nth(va, i)) + 1 else 0
  {
    assert Nth(va, i + 1) / 4096 == Nth(va, i) / 4096 + 1;
    ModStep(Nth(va, i) / 4096, 0x10_0000_0000);
  }

  /** Outside the window the visited pages are consecutive, so none is visited twice. */
  lemma {:induction false} RegionNumbers(va: nat, count: nat, i: nat)
    requires BelowWindow(va, count) && i < count
    ensures PageNumber(Nth(va, i)) == PageNumber(va) + i < PAGES
    decreases i
  {
    hide PageNumber, Pml4Index;
    assert Nth(va, 0) == va;
    assert Pml4Index(Nth(va, i)) < 511;
    PathOfVa(Nth(va, i), va);
    if i > 0 {
      RegionNumbers(va, count, i - 1);
      NextNumber(va, i - 1);
    }
  }

  lemma RegionReady(v: Vm, root: nat, va: nat, pa: nat, count: nat)
    requires v.Ok() && v.IsSpace(root) && BelowWindow(va, count)
    ensures JobsReady(v, root, RegionJobs(va, pa, count))
    ensures forall i, j :: 0 <= i < j < count ==> RegionJobs(va, pa, count)[i].p != RegionJobs(va, pa, count)[j].p
  {
    hide Vm.Ok, PathOf, PageNumber, Pml4Index;
    var jobs := RegionJobs(va, pa, count);
    forall i | 0 <= i < count ensures jobs[i].p.a < 511 {
      PathSlot(Nth(va, i));
      assert Pml4Index(Nth(va, i)) < 511;
    }
    forall i, j | 0 <= i < j < count ensures jobs[i].p != jobs[j].p {
      RegionNumbers(va, count, i);
      RegionNumbers(va, count, j);
      PathOfVa(Nth(va, i), Nth(va, j));
    }
  }

  /**
   * Page `i` of the region ends up, in every space, with the frame and rights
   * its mapping gave it; with three free frames a page every mapping succeeds.
   */
  lemma RegionTranslates(v: Vm, root: nat, va: nat, pa: nat, size: nat, flags: bv12, i: nat, r: nat)
    requires v.Ok() && v.IsSpace(root) && v.IsSpace(r) && BelowWindow(va, Visits(va, size)) && i < Visits(va, size)
    ensures var jobs := RegionJobs(va, pa, Visits(va, size));
            Kept(Mapped(MapAll(v, root, jobs[..i], flags), root, jobs[i], flags, r),
                 Walk(MapRegion(v, root, va, pa, size, flags).mem, r, PathOf(Nth(va, i))))
    ensures 3 * Visits(va, size) <= |v.free| ==>
              var t := Walk(MapRegion(v, root, va, pa, size, flags).mem, root, PathOf(Nth(va, i)));
              t.Page? && t.frame == Nth(pa, i) % TWO64 / PAGE_SIZE
  {
    hide Walk, MapAll, Vm.Ok, PathOf, Visits, MapPage, Need;
    var count := Visits(va, size);
    var jobs := RegionJobs(va, pa, count);
    RegionReady(v, root, va, pa, count);
    MapAllMaps(v, root, jobs, flags, i, r);
    MapAllMaps(v, root, jobs, flags, i, root);
    if 3 * count <= |v.free| {
      Enough(v, root, jobs, flags, i);
    }
  }

  /** Every other page keeps frame and rights, in every space. */
  lemma RegionKeeps(v: Vm, root: nat, va: nat, pa: nat, size: nat, flags: bv12, r: nat, q: Path)
    requires v.Ok() && v.IsSpace(root) && v.IsSpace(r) && BelowWindow(va, Visits(va, size)) && q.a < 511
    requires forall i :: 0 <= i < Visits(va, size) ==> PathOf(Nth(va, i)) != q
    ensures Kept(Walk(v.mem, r, q), Walk(MapRegion(v, root, va, pa, size, flags).mem, r, q))
  {
    hide Walk, MapAll, Vm.Ok, PathOf, Visits;
    var jobs := RegionJobs(va, pa, Visits(va, size));
    RegionReady(v, root, va, pa, Visits(va, size));
    assert forall i :: 0 <= i < |jobs| ==> jobs[i].p == PathOf(Nth(va, i));
    MapAllKeeps(v, root, jobs, flags, r, q);
  }

  /** The physical address a space translates `va` to. */
  ghost function Physical(m: Memory, root: nat, va: nat): nat
    requires Walk(m, root, PathOf(va)).Page?
  {
    4096 * Walk(m, root, PathOf(va)).frame + va % 4096
  }

  /** Byte `k` of a region whose two addresses have the same offset in their pages is at `pa + k`. */
  lemma RegionAddress(v: Vm, root: nat, va: nat, pa: nat, size: nat, flags: bv12, k: nat)
    requires v.Ok() && v.IsSpace(root) && BelowWindow(va, Visits(va, size)) && 3 * Visits(va, size) <= |v.free|
    requires va % 4096 == pa % 4096 && pa + 4096 * Visits(va, size) <= TWO64
    requires va % 4096 + k < 4096 * Visits(va, size)
    ensures var m := MapRegion(v, root, va, pa, size, flags).mem;
            Walk(m, root, PathOf(va + k)).Page? && Physical(m, root, va + k) == pa + k
  {
    hide Walk, MapRegion, Vm.Ok, PathOf, Visits, BelowWindow, Nth;
    var i := TurnOf(va, pa, k, Visits(va, size));
    RegionFrame(v, root, va, pa, size, flags, i);
  }

  lemma RegionFrame(v: Vm, root: nat, va: nat, pa: nat, size: nat, flags: bv12, i: nat)
    requires v.Ok() && v.IsSpace(root) && BelowWindow(va, Visits(va, size)) && 3 * Visits(va, size) <= |v.free|
    requires i < Visits(va, size)
    ensures var t := Walk(MapRegion(v, root, va, pa, size, flags).mem, root, PathOf(Nth(va, i)));
            t.Page? && t.frame == Nth(pa, i) % TWO64 / PAGE_SIZE
  {
    hide Walk, MapRegion, Vm.Ok, PathOf, Visits, BelowWindow, Nth, Kept, Mapped;
    RegionTranslates(v, root, va, pa, size, flags, i, root);
  }

  /** The turn of the loop that maps byte `k`. */
  lemma TurnOf(va: nat, pa: nat, k: nat, count: nat) returns (i: nat)
    requires va % 4096 == pa % 4096 && pa + 4096 * count <= TWO64 && va % 4096 + k < 4096 * count
    ensures i < count && PathOf(va + k) == PathOf(Nth(va, i))
    ensures 4096 * (Nth(pa, i) % TWO64 / PAGE_SIZE) + (va + k) % 4096 == pa + k
  {
    i := (va % 4096 + k) / 4096;
    hide PathOf;
    SamePage(va, k);
    PathOfVa(va + k, Nth(va, i));
    FrameOf(pa, i, k);
  }

  lemma SamePage(va: nat, k: nat)
    ensures var i := (va % 4096 + k) / 4096;
            PageNumber(va + k) == PageNumber(Nth(va, i)) && (va + k) % 4096 == (va % 4096 + k) % 4096
  {
    var i, o := (va % 4096 + k) / 4096, (va % 4096 + k) % 4096;
    ModUnique(va + k, 4096, va / 4096 + i, o);
    ModUnique(Nth(va, i), 4096, va / 4096 + i, va % 4096);
  }

  lemma FrameOf(pa: nat, i: nat, k: nat)
    requires i == (pa % 4096 + k) / 4096 && Nth(pa, i) < TWO64
    ensures 4096 * (Nth(pa, i) % TWO64 / PAGE_SIZE) + (pa % 4096 + k) % 4096 == pa + k
  {
    ModUnique(Nth(pa, i), 4096, pa / 4096 + i, pa % 4096);
  }

  /** Byte `b` lies in a visited page. */
  predicate Visited(va: nat, size: nat, b: nat) {
    exists i :: 0 <= i < Visits(va, size) && Nth(va, i) / PAGE_SIZE == b / PAGE_SIZE
  }

  lemma NthPage(a: nat, i: nat)
    ensures Nth(a, i) / PAGE_SIZE == a / PAGE_SIZE + i && Nth(a, i) % PAGE_SIZE == a % PAGE_SIZE
  {}

  lemma VisitedExact(va: nat, size: nat, b: nat)
    requires va <= b
    ensures Visited(va, size, b) <==> b / PAGE_SIZE - va / PAGE_SIZE < Visits(va, size)
  {
    hide Visits;
    var i := b / PAGE_SIZE - va / PAGE_SIZE;
    NthPage(va, i);
    if Visited(va, size, b) {
      var j :| 0 <= j < Visits(va, size) && Nth(va, j) / PAGE_SIZE == b / PAGE_SIZE;
      NthPage(va, j);
    }
  }

  /** Pages that `size` bytes fill when they start on a page. */
  function PagesFor(size: nat): nat { (size + PAGE_SIZE - 1) / PAGE_SIZE }

  /**
   * The loop counts pages from `va`, not from the start of its page: every
   * byte of the region is mapped exactly when the offset in the first page
   * does not push the last byte into one page more.
   */
  lemma RegionCovers(va: nat, size: nat)
    requires va + size < TWO64
    ensures (forall b :: va <= b < va + size ==> Visited(va, size, b)) <==>
            size == 0 || va % PAGE_SIZE + size <= PAGE_SIZE * PagesFor(size)
  {
    hide Visited;
    assert Visits(va, size) == PagesFor(size);
    if size > 0 {
      var last := va + size - 1;
      LastPage(va, size);
      VisitedExact(va, size, last);
      forall b | va <= b < va + size && Visited(va, size, last) ensures Visited(va, size, b) {
        VisitedExact(va, size, b);
      }
    }
  }

  lemma LastPage(va: nat, size: nat)
    requires size > 0
    ensures (va + size - 1) / PAGE_SIZE - va / PAGE_SIZE < PagesFor(size) <==>
            va % PAGE_SIZE + size <= PAGE_SIZE * PagesFor(size)
  {}

  /** A page of bytes from the middle of a page: one page is mapped, its second half is not. */
  lemma RegionMisses()
    ensures Visits(0x1800, 0x1000) == 1 && !Visited(0x1800, 0x1000, 0x2000)
  {
    VisitedExact(0x1800, 0x1000, 0x2000);
  }
}
