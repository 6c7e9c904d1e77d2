/**
 * The page-table editor (osfmk/vm/paging.c) as the code runs it: words of
 * physical memory are overwritten one at a time, and frames come from the
 * allocator's stack.  cr3 is a field; TLB shoot-downs have no counterpart.
 */
module Paging {
  import Arith
  import opened Common
  import opened PageEntry
  import opened PageTables
  import Pmm
  import MapPageProof
  import AddressSpaces
  import Regions

  /** Frame numbers of a list of page addresses. */
  ghost function Frames(s: seq<nat>): seq<nat> {
    seq(|s|, i requires 0 <= i < |s| => s[i] / PAGE_SIZE)
  }

  /** Distinct, non-zero, page aligned addresses are distinct, non-zero frame numbers. */
  lemma FramesDistinct(s: seq<nat>)
    requires Distinct(s) && forall i :: 0 <= i < |s| ==> s[i] != 0 && s[i] % PAGE_SIZE == 0
    ensures Distinct(Frames(s)) && forall i :: 0 <= i < |s| ==> Frames(s)[i] != 0
  {
    forall i, j | 0 <= i < j < |s| ensures Frames(s)[i] != Frames(s)[j] {
      assert s[i] == PAGE_SIZE * (s[i] / PAGE_SIZE) && s[j] == PAGE_SIZE * (s[j] / PAGE_SIZE);
    }
  }

  /** The loop of paging_map_region turns exactly `Visits` times. */
  lemma Turns(va: nat, size: nat, i: nat)
    requires i <= Regions.Visits(va, size)
    ensures Regions.Nth(va, i) < (va + size) % TWO64 <==> i < Regions.Visits(va, size)
  {}

  lemma NextAddress(va: nat, pa: nat, i: nat)
    ensures Regions.Nth(va, i) + PAGE_SIZE == Regions.Nth(va, i + 1)
    ensures (Regions.Nth(pa, i) % TWO64 + PAGE_SIZE) % TWO64 == Regions.Nth(pa, i + 1) % TWO64
  {
    Arith.ModAdd(Regions.Nth(pa, i), PAGE_SIZE, TWO64);
  }

  /** The last 2^39 addresses are in slot 511. */
  lemma NoWrap(v: nat)
    requires v < TWO64 && Pml4Index(v) < 511
    ensures v + PAGE_SIZE < TWO64
  {}

  class Editor {
    const pmm: Pmm.FrameStack
    var mem: Memory
    var cr3: nat
    /** The state as a value: memory, free frames, and what each frame in use is for. */
    ghost var vm: Vm

    ghost predicate Linked()
      reads this, pmm, pmm.stack
    {
      pmm.Valid() && vm.mem == mem && vm.free == Frames(pmm.Free())
    }

    ghost predicate Valid()
      reads this, pmm, pmm.stack
    {
      Linked() && vm.Ok() && vm.IsSpace(cr3)
    }

    constructor (pmm: Pmm.FrameStack, mem: Memory, cr3: nat, ghost kind: map<nat, Kind>)
      requires pmm.Valid() && Vm(mem, Frames(pmm.Free()), kind).Ok() && cr3 in kind && kind[cr3] == Pml4
      ensures this.pmm == pmm && this.cr3 == cr3 && Valid() && vm == Vm(mem, Frames(pmm.Free()), kind)
    {
      this.pmm, this.mem, this.cr3, this.vm := pmm, mem, cr3, Vm(mem, Frames(pmm.Free()), kind);
    }

    lemma Bounds()
      requires Valid()
      ensures vm.Ok() && vm.IsSpace(cr3) && |vm.free| <= Pmm.STACK_SIZE
    {}

    /** pmm_alloc, as a frame number; 0 when the stack is empty. */
    method AllocFrame(ghost k: Kind) returns (t: nat)
      requires Linked() && vm.FreeOk()
      modifies this`vm, pmm`top, pmm`owned
      ensures Linked()
      ensures t == 0 <==> old(vm).free == []
      ensures vm == if t == 0 then old(vm) else old(vm).Take(k)
      ensures t != 0 ==> t == old(vm).Top()
    {
      hide Pmm.Books;
      var a := pmm.Alloc();
      t := a / PAGE_SIZE;
      if a != 0 {
        assert t == vm.Top();
        vm := vm.Take(k);
      }
    }

    /** zero_page_table. */
    method ZeroTable(t: nat)
      modifies this`mem
      ensures mem == old(mem)[t := EmptyTable()]
    {
      var i := 0;
      while i < 512
        invariant 0 <= i <= 512
        invariant mem == if i == 0 then old(mem) else old(mem)[t := TableAt(mem, t)]
        invariant forall j :: 0 <= j < i ==> TableAt(mem, t)[j] == ZERO
      {
        mem := mem[t := TableAt(mem, t)[i := ZERO]];
        i := i + 1;
      }
      assert TableAt(mem, t) == EmptyTable();
    }

    /** The loop that fills the table replacing a 2 MiB leaf. */
    method FillSplit(t: nat, leaf: Word, flags: bv12)
      modifies this`mem
      ensures mem == old(mem)[t := SplitTable(leaf, flags)]
    {
      var base := LeafBase(leaf);
      var i := 0;
      while i < 512
        invariant 0 <= i <= 512
        invariant mem == if i == 0 then old(mem) else old(mem)[t := TableAt(mem, t)]
        invariant forall j :: 0 <= j < i ==> TableAt(mem, t)[j] == SplitWord(leaf, flags, j)
      {
        var f := LeafFlags(leaf);
        if flags & (PWT | PCD) != 0 {
          f := (f & !(PWT | PCD)) | (flags & (PWT | PCD));
        }
        mem := mem[t := TableAt(mem, t)[i := Word(base + i, f)]];
        i := i + 1;
      }
      assert TableAt(mem, t) == SplitTable(leaf, flags);
    }

    /** The "not present" block of the two upper levels; the result says whether the word is present after it. */
    method EnsureTable(f: nat, i: Index, ghost k: Kind) returns (ok: bool)
      requires Linked() && vm.FreeOk()
      modifies this`mem, this`vm, pmm`top, pmm`owned
      ensures Linked() && vm == PageTables.EnsureTable(old(vm), f, i, k)
      ensures ok <==> Lookup(mem, f, i).Present()
    {
      hide Pmm.Books;
      ok := true;
      if !Lookup(mem, f, i).Present() {
        var t := AllocFrame(k);
        if t == 0 {
          return false;
        }
        ZeroTable(t);
        mem := mem[f := TableAt(mem, f)[i := TableWord(t)]];
        vm := PageTables.EnsureTable(old(vm), f, i, k);
      }
    }

    /** The directory level: a new table, or the split of a 2 MiB leaf. */
    method EnsureLeafTable(pd: nat, c: Index, flags: bv12) returns (ok: bool)
      requires Linked() && vm.FreeOk()
      modifies this`mem, this`vm, pmm`top, pmm`owned
      ensures Linked() && vm == PageTables.EnsureLeafTable(old(vm), pd, c, flags)
      ensures ok <==> Lookup(mem, pd, c).Present() && !Lookup(mem, pd, c).Large()
    {
      hide Pmm.Books;
      var leaf := Lookup(mem, pd, c);
      if !leaf.Present() {
        ok := EnsureTable(pd, c, Pt(pd, c));
      } else if leaf.Large() {
        var t := AllocFrame(Pt(pd, c));
        if t == 0 {
          return false;
        }
        ZeroTable(t);
        FillSplit(t, leaf, flags);
        assert mem == old(mem)[t := SplitTable(leaf, flags)];
        mem := mem[pd := TableAt(mem, pd)[c := SplitTableWord(t, leaf)]];
        vm := PageTables.EnsureLeafTable(old(vm), pd, c, flags);
        ok := true;
      } else {
        ok := true;
      }
    }

    /** paging_map_page from the page-directory-pointer level down. */
    method MapBelow(pdpt: nat, p: Path, frame: nat, flags: bv12)
      requires Linked() && vm.FreeOk() && PageTables.EnsureTable(vm, pdpt, p.b, Pd(pdpt, p.b)).FreeOk()
      modifies this`mem, this`vm, pmm`top, pmm`owned
      ensures Linked() && vm == PageTables.MapBelow(old(vm), pdpt, p, frame, flags)
    {
      hide Pmm.Books;
      var ok := EnsureTable(pdpt, p.b, Pd(pdpt, p.b));
      if !ok {
        return;
      }
      var pd := Lookup(mem, pdpt, p.b).frame;
      ok := EnsureLeafTable(pd, p.c, flags);
      if !ok {
        return;
      }
      var pt := Lookup(mem, pd, p.c).frame;
      mem := mem[pt := TableAt(mem, pt)[p.d := PageWord(frame, flags)]];
      vm := vm.Store(pt, p.d, PageWord(frame, flags));
    }

    /** paging_map_page, on the index fields of the address. */
    method Edit(p: Path, frame: nat, flags: bv12)
      requires Linked() && MapPageProof.StepsFree(vm, cr3, p)
      modifies this`mem, this`vm, pmm`top, pmm`owned
      ensures Linked() && vm == PageTables.MapPage(old(vm), cr3, p, frame, flags)
    {
      hide Pmm.Books, PageTables.MapBelow;
      var ok := EnsureTable(cr3, p.a, Pdpt(p.a));
      if !ok {
        return;
      }
      MapBelow(Lookup(mem, cr3, p.a).frame, p, frame, flags);
    }

    /** paging_map_page. */
    method MapPage(va: nat, pa: nat, flags: bv12)
      requires Valid() && Pml4Index(va) < 511
      modifies this`mem, this`vm, pmm`top, pmm`owned
      ensures Valid() && vm == PageTables.MapPage(old(vm), cr3, PathOf(va), pa / PAGE_SIZE, flags)
    {
      PathSlot(va);
      hide PathOf, Pml4Index;
      MapPageProof.MapPageConserves(vm, cr3, PathOf(va), pa / PAGE_SIZE, flags);
      MapPageProof.StepsFreeOk(vm, cr3, PathOf(va));
      Edit(PathOf(va), pa / PAGE_SIZE, flags);
    }

    /** paging_map_region: `v` and `p` step by pages while `v` is below the 64-bit sum. */
    method MapRegion(va: nat, pa: nat, size: nat, flags: bv12)
      requires Valid() && va < TWO64 && pa < TWO64 && size < TWO64
      requires Regions.BelowWindow(va, Regions.Visits(va, size))
      modifies this`mem, this`vm, pmm`top, pmm`owned
      ensures Valid() && vm == Regions.MapRegion(old(vm), cr3, va, pa, size, flags)
    {
      hide PageTables.MapPage, PathOf, Pml4Index, Editor.Valid, Regions.Visits;
      var end := (va + size) % TWO64;
      ghost var count := Regions.Visits(va, size);
      ghost var jobs := Regions.RegionJobs(va, pa, count);
      ghost var i := 0;
      var v, p := va, pa;
      assert jobs[0..] == jobs;
      Turns(va, size, 0);
      while v < end
        invariant Valid() && i <= count
        invariant v == Regions.Nth(va, i) < TWO64 && p == Regions.Nth(pa, i) % TWO64
        invariant v < end <==> i < count
        invariant Regions.MapAll(vm, cr3, jobs[i..], flags) == Regions.MapAll(old(vm), cr3, jobs, flags)
        decreases count - i
      {
        assert jobs[i..][1..] == jobs[i + 1..] && Pml4Index(Regions.Nth(va, i)) < 511;
        MapPage(v, p, flags);
        NextAddress(va, pa, i);
        NoWrap(v);
        Turns(va, size, i + 1);
        v := (v + PAGE_SIZE) % TWO64;
        p := (p + PAGE_SIZE) % TWO64;
        i := i + 1;
      }
      assert jobs[i..] == [];
    }

    /** paging_alloc_and_map: the frame is returned even when the mapping itself found no table frame. */
    method AllocAndMap(va: nat, flags: bv12) returns (phys: nat)
      requires Valid() && Pml4Index(va) < 511
      modifies this`mem, this`vm, pmm`top, pmm`owned
      ensures Valid() && vm == AddressSpaces.AllocAndMap(old(vm), cr3, PathOf(va), flags)
      ensures phys == if old(vm).free == [] then 0 else old(vm).Top() * PAGE_SIZE
    {
      hide PageTables.MapPage, Number, PathOf, Pml4Index, Vm.Ok, Vm.FreeOk, Editor.Linked;
      AddressSpaces.TakeIfAny(vm);
      phys := AllocFrame(Data);
      if phys == 0 {
        return;
      }
      phys := phys * PAGE_SIZE;
      MapPage(va, phys, flags);
    }

    method FillClone(t: nat)
      requires t != cr3
      modifies this`mem
      ensures mem == old(mem)[t := AddressSpaces.CloneTable(TableAt(old(mem), cr3), t)]
    {
      ZeroTable(t);
      ghost var zeroed := mem;
      var i := 256;
      while i < 511
        invariant 256 <= i <= 511 && mem == zeroed[t := TableAt(mem, t)] && TableAt(mem, cr3) == TableAt(old(mem), cr3)
        invariant forall j :: 0 <= j < 512 ==>
                    TableAt(mem, t)[j] == if 256 <= j < i then TableAt(mem, cr3)[j] else ZERO
      {
        mem := mem[t := TableAt(mem, t)[i := TableAt(mem, cr3)[i]]];
        i := i + 1;
      }
      mem := mem[t := TableAt(mem, t)[0 := TableAt(mem, cr3)[0]]];
      mem := mem[t := TableAt(mem, t)[511 := TableWord(t)]];
      assert TableAt(mem, t) == AddressSpaces.CloneTable(TableAt(old(mem), cr3), t);
    }

    method FillVfork(t: nat)
      requires t != cr3
      modifies this`mem
      ensures mem == old(mem)[t := AddressSpaces.VforkTable(TableAt(old(mem), cr3), t)]
    {
      var i := 0;
      while i < 511
        invariant 0 <= i <= 511 && TableAt(mem, cr3) == TableAt(old(mem), cr3)
        invariant mem == if i == 0 then old(mem) else old(mem)[t := TableAt(mem, t)]
        invariant forall j :: 0 <= j < i ==> TableAt(mem, t)[j] == TableAt(mem, cr3)[j]
      {
        mem := mem[t := TableAt(mem, t)[i := TableAt(mem, cr3)[i]]];
        i := i + 1;
      }
      mem := mem[t := TableAt(mem, t)[511 := TableWord(t)]];
      assert TableAt(mem, t) == AddressSpaces.VforkTable(TableAt(old(mem), cr3), t);
    }

    /** paging_clone_pd. */
    method ClonePd() returns (t: nat)
      requires Valid()
      modifies this`mem, this`vm, pmm`top, pmm`owned
      ensures Valid() && vm == AddressSpaces.Clone(old(vm), cr3)
      ensures t == if old(vm).free == [] then 0 else old(vm).Top()
    {
      hide Pmm.Books;
      AddressSpaces.CloneOk(vm, cr3);
      t := AllocFrame(Pml4);
      if t != 0 {
        FillClone(t);
        vm := AddressSpaces.Clone(old(vm), cr3);
      }
    }

    /** paging_vfork_clone. */
    method VforkClone() returns (t: nat)
      requires Valid()
      modifies this`mem, this`vm, pmm`top, pmm`owned
      ensures Valid() && vm == AddressSpaces.Vfork(old(vm), cr3)
      ensures t == if old(vm).free == [] then 0 else old(vm).Top()
    {
      hide Pmm.Books;
      AddressSpaces.VforkOk(vm, cr3);
      t := AllocFrame(Pml4);
      if t != 0 {
        FillVfork(t);
        vm := AddressSpaces.Vfork(old(vm), cr3);
      }
    }
  }

  /** Frames of an allocator whose pool is good: distinct, non-zero, and none of them used before. */
  lemma StartOk(free: seq<nat>, mem: Memory, kind: map<nat, Kind>)
    requires Distinct(free) && Vm(mem, [], kind).Ok()
    requires forall a :: a in free ==> a != 0 && a % PAGE_SIZE == 0 && a / PAGE_SIZE !in kind
    ensures Vm(mem, Frames(free), kind).Ok()
  {
    forall i | 0 <= i < |free| ensures free[i] != 0 && free[i] % PAGE_SIZE == 0 && free[i] / PAGE_SIZE !in kind {
      assert free[i] in free;
    }
    FramesDistinct(free);
  }

  /**
   * From the memory map to a page-table editor: pmm_init, then editing in the
   * boot space, whose tables are in no frame the map makes available.
   */
  method Boot(map': seq<Pmm.E820>, ks: nat, ke: nat, mem: Memory, cr3: nat, ghost kind: map<nat, Kind>)
    returns (editor: Editor)
    requires Pmm.Sane(map') && ks % PAGE_SIZE == 0
    requires Vm(mem, [], kind).Ok() && cr3 in kind && kind[cr3] == Pml4
    requires forall f :: f in kind ==> !Pmm.Good(map', ks, ke, f * PAGE_SIZE)
    ensures editor.Valid() && fresh(editor) && editor.cr3 == cr3
    ensures editor.vm == Vm(mem, Frames(Pmm.Capped(Pmm.FreeList(map', ks, ke))), kind)
    ensures forall a :: a in editor.pmm.pool ==> Pmm.Good(map', ks, ke, a)
  {
    hide Vm.Ok, Pmm.FreeList, Pmm.Sane;
    var pmm := new Pmm.FrameStack();
    pmm.Init(map', ks, ke);
    forall a | a in pmm.Free() ensures a != 0 && a % PAGE_SIZE == 0 && a / PAGE_SIZE !in kind {
      assert a in pmm.pool && Pmm.Good(map', ks, ke, a);
      assert a / PAGE_SIZE * PAGE_SIZE == a;
    }
    StartOk(pmm.Free(), mem, kind);
    editor := new Editor(pmm, mem, cr3, kind);
  }
}
