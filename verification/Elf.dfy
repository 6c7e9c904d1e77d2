/**
 * elf_load (bsd/kern/elf/elf.c:62-133): map every page of every loadable
 * segment first, then copy and zero through the new translations.
 */
module Elf {
  import opened Common
  import opened PageEntry
  import opened PageTables
  import opened ElfImage
  import opened ElfPages
  import ElfHeaders
  import MapPageProof
  import AddressSpaces
  import Ownership
  import Paging
  import Pmm

  /** A byte of virtual memory as the space translates it. */
  ghost function ReadVa(v: Vm, root: nat, ram: Ram, va: nat): Byte
    requires Walk(v.mem, root, PathOf(va)).Page?
  {
    FrameAt(ram, Walk(v.mem, root, PathOf(va)).frame)[va % PAGE_SIZE]
  }

  /**
   * Stray: the code has come to read headers or file bytes outside the image,
   * and the model stops there.  Fault: it has come to a store that faults.
   */
  datatype Result = Loaded(entry: nat, lo: nat, hi: nat) | Rejected | Stray | Fault

  /** The addresses of a segment do not wrap, and none is in slot 511. */
  predicate SegmentPlaced(s: Segment) {
    s.load ==> s.vaddr + s.memsz + PAGE_SIZE - 1 < TWO64 && Paged(Visits(s))
  }

  predicate AllPlaced(segs: seq<Segment>) { forall i :: 0 <= i < |segs| ==> SegmentPlaced(segs[i]) }

  predicate Placed(img: seq<Byte>) { |img| < TWO32 && (HeaderOk(img) ==> AllPlaced(Phs(img))) }

  ghost predicate CanonicalRange(va: nat, n: nat) { forall x :: va <= x < va + n ==> Canonical(x) }

  /** Every loadable byte has an address the processor accepts. */
  ghost predicate AllCanonical(segs: seq<Segment>) {
    forall i :: 0 <= i < |segs| && segs[i].load ==> CanonicalRange(segs[i].vaddr, segs[i].memsz)
  }

  /** Between the halves: accepted by every test, and not canonical.  In the kernel half: placed and canonical. */
  lemma HighSegments(offset: nat, filesz: nat)
    ensures var s := Segment(true, offset, 0x8000_0000_0000, filesz, 0x1000);
            SegmentPlaced(s) && !CanonicalRange(s.vaddr, s.memsz)
    ensures var s := Segment(true, offset, 0xffff_8000_0000_0000, filesz, 0x1000);
            SegmentPlaced(s) && CanonicalRange(s.vaddr, s.memsz) && Pml4Index(s.vaddr) == 256
  {
    var s, t := Segment(true, offset, 0x8000_0000_0000, filesz, 0x1000),
                Segment(true, offset, 0xffff_8000_0000_0000, filesz, 0x1000);
    assert Visits(s) == [0x8_0000_0000] by {
      assert PagesFrom(FirstPage(s) + 1, EndPage(s)) == [];
    }
    assert Visits(t) == [0x8_0000_0000] by {
      assert PagesFrom(FirstPage(t) + 1, EndPage(t)) == [];
    }
    assert !Canonical(0x8000_0000_0000);
  }

  predicate SomeLoad(segs: seq<Segment>) { exists i :: 0 <= i < |segs| && segs[i].load }

  const NO_LO: nat := 0xFFFF_FFFF_FFFF_FFFF

  /** `lo` and `hi` after the first headers of the copy pass. */
  function Lo(segs: seq<Segment>): nat {
    if segs == [] then NO_LO else
    var n := |segs| - 1;
    if segs[n].load && segs[n].vaddr < Lo(segs[..n]) then segs[n].vaddr else Lo(segs[..n])
  }

  function Hi(segs: seq<Segment>): nat {
    if segs == [] then 0 else
    var n := |segs| - 1;
    var end := segs[n].vaddr + segs[n].memsz;
    if segs[n].load && end > Hi(segs[..n]) then end else Hi(segs[..n])
  }

  /** `lo` and `hi` are the exact bounds of the loadable ranges. */
  lemma {:induction false} BoundsExact(segs: seq<Segment>)
    requires SomeLoad(segs) && forall i :: 0 <= i < |segs| && segs[i].load ==> segs[i].vaddr < NO_LO
    ensures forall i :: 0 <= i < |segs| && segs[i].load ==>
              Lo(segs) <= segs[i].vaddr && segs[i].vaddr + segs[i].memsz <= Hi(segs)
    ensures exists i :: 0 <= i < |segs| && segs[i].load && segs[i].vaddr == Lo(segs)
    ensures exists i :: 0 <= i < |segs| && segs[i].load && segs[i].vaddr + segs[i].memsz == Hi(segs)
    decreases |segs|
  {
    var n := |segs| - 1;
    var rest := segs[..n];
    if SomeLoad(rest) {
      BoundsExact(rest);
      var i :| 0 <= i < |rest| && rest[i].load && rest[i].vaddr == Lo(rest);
      var j :| 0 <= j < |rest| && rest[j].load && rest[j].vaddr + rest[j].memsz == Hi(rest);
      assert segs[i] == rest[i] && segs[j] == rest[j];
    } else {
      NoBounds(rest);
      assert segs[n].load;
    }
  }

  lemma {:induction false} NoBounds(segs: seq<Segment>)
    requires !SomeLoad(segs)
    ensures Lo(segs) == NO_LO && Hi(segs) == 0
    decreases |segs|
  {
    if segs != [] {
      var n := |segs| - 1;
      assert !segs[n].load;
      assert forall i :: 0 <= i < n ==> segs[..n][i] == segs[i];
      NoBounds(segs[..n]);
    }
  }

  const TEXT: Segment := Segment(true, 120, 0x80_0000_0000, 0x200, 0x300)

  lemma TextPlaced()
    ensures Visits(TEXT) == [0x800_0000] && SegmentPlaced(TEXT) && CanonicalRange(TEXT.vaddr, TEXT.memsz)
  {
    assert FirstPage(TEXT) == 0x800_0000 && EndPage(TEXT) == 0x800_0001;
    assert PagesFrom(FirstPage(TEXT) + 1, EndPage(TEXT)) == [];
  }

  lemma TextBounds()
    ensures Lo([TEXT]) == 0x80_0000_0000 && Hi([TEXT]) == 0x80_0000_0300 && SomeLoad([TEXT])
    ensures AllVisits([TEXT]) == Visits(TEXT)
  {
    hide Visits;
    assert [TEXT][..0] == [] && [TEXT][0].load;
    assert AllVisits([]) == [];
  }

  /** The sample program meets every condition of a load, which needs frames for one page. */
  lemma ProgramLoads()
    ensures var img := ElfHeaders.Program();
            && HeaderOk(img) && Placed(img) && AllInImage(img, Phs(img)) && SomeLoad(Phs(img))
            && AllCanonical(Phs(img)) && Disjoint(Phs(img)) && AllVisits(Phs(img)) == [0x800_0000]
            && Lo(Phs(img)) == 0x80_0000_0000 && Hi(Phs(img)) == 0x80_0000_0300
  {
    ElfHeaders.ProgramAccepted();
    ElfHeaders.ProgramSize();
    assert Phs(ElfHeaders.Program()) == [TEXT];
    hide HeaderOk, Phs, ElfHeaders.Program, Visits, AllVisits, Lo, Hi, CanonicalRange, SegmentPlaced;
    TextPlaced();
    TextBounds();
  }

  // --------------------------------------------------------------- visited pages

  lemma {:induction false} VisitsConcat(a: seq<Segment>, b: seq<Segment>)
    ensures AllVisits(a + b) == AllVisits(a) + AllVisits(b)
    decreases |b|
  {
    hide Visits;
    if b == [] {
      assert a + b == a;
    } else {
      assert (a + b)[..|a + b| - 1] == a + b[..|b| - 1];
      VisitsConcat(a, b[..|b| - 1]);
    }
  }

  lemma {:induction false} AllPaged(segs: seq<Segment>)
    requires AllPlaced(segs)
    ensures Paged(AllVisits(segs))
    decreases |segs|
  {
    hide Visits;
    if segs != [] {
      var n := |segs| - 1;
      AllPaged(segs[..n]);
      assert SegmentPlaced(segs[n]) && (!segs[n].load ==> Visits(segs[n]) == []) by {
        assert segs[n] in segs;
        NoVisits(segs[n]);
      }
      PagedParts(AllVisits(segs[..n]), Visits(segs[n]));
    }
  }

  lemma NoVisits(s: Segment)
    ensures !s.load ==> Visits(s) == []
  {}

  lemma ByteOnPage(s: Segment, x: nat)
    requires SegmentPlaced(s) && s.load && s.vaddr <= x < s.vaddr + s.memsz
    ensures PageNumber(x) < PAGES
  {
    hide Visits, PageNumber;
    VisitsHit(s, x);
  }

  /** Every loadable byte, canonical or not, is on a page of the view. */
  ghost predicate AllPagesIn(view: View, segs: seq<Segment>) {
    forall i, x :: 0 <= i < |segs| && segs[i].load && segs[i].vaddr <= x < segs[i].vaddr + segs[i].memsz ==>
      PageNumber(x) in view
  }

  lemma PagesIn(view: View, segs: seq<Segment>)
    requires Elems(AllVisits(segs)) <= view.Keys
    ensures AllPagesIn(view, segs)
  {
    hide Visits, PageNumber, AllVisits;
    forall i, x | 0 <= i < |segs| && segs[i].load && segs[i].vaddr <= x < segs[i].vaddr + segs[i].memsz
      ensures PageNumber(x) in view
    {
      VisitsHit(segs[i], x);
      AllVisitsHit(segs, i, PageNumber(x));
      assert PageNumber(x) in Elems(AllVisits(segs));
    }
  }

  /** Enough frames for the pages means that every length fits klibc's 32-bit parameters. */
  ghost predicate Sized(segs: seq<Segment>) { forall i :: 0 <= i < |segs| && segs[i].load ==> segs[i].memsz < TWO32 }

  lemma SizesBelow(segs: seq<Segment>)
    requires |AllVisits(segs)| <= Pmm.STACK_SIZE
    ensures Sized(segs)
  {
    hide Visits, AllVisits;
    forall i | 0 <= i < |segs| && segs[i].load ensures segs[i].memsz < TWO32 {
      VisitsBound(segs[i]);
      AllVisitsBound(segs, i);
    }
  }

  /** Every loadable byte has a translation of its own. */
  ghost predicate Copyable(v: Vm, root: nat, view: View, segs: seq<Segment>) {
    Shows(v, root, view) && AllPagesIn(view, segs) && Sized(segs)
  }

  /** Byte `k` of a segment reads through the page tables as its byte of the file, or past those as zero. */
  ghost predicate ByteBack(v: Vm, root: nat, ram: Ram, img: seq<Byte>, s: Segment, k: nat)
    requires s.load && InImage(img, s) && k < s.memsz
  {
    && Walk(v.mem, root, PathOf(s.vaddr + k)).Page?
    && ReadVa(v, root, ram, s.vaddr + k) == if k < s.filesz then img[s.offset + k] else 0
  }

  /** Every loadable byte does. */
  ghost predicate ReadsBack(v: Vm, root: nat, ram: Ram, img: seq<Byte>, segs: seq<Segment>) {
    && AllInImage(img, segs)
    && forall i, k :: 0 <= i < |segs| && segs[i].load && 0 <= k < segs[i].memsz ==>
         ByteBack(v, root, ram, img, segs[i], k)
  }

  /** A copied image reads back, also where two segments share a page. */
  lemma LoadedReads(v: Vm, root: nat, view: View, ram: Ram, img: seq<Byte>, segs: seq<Segment>)
    requires Shows(v, root, view) && AllCovered(view, segs) && AllInImage(img, segs) && Disjoint(segs)
    ensures ReadsBack(v, root, Copied(ram, view, img, segs), img, segs)
  {
    hide Walk, Copied, Number, PathOf, PageNumber, Canonical, Disjoint;
    forall i, k | 0 <= i < |segs| && segs[i].load && 0 <= k < segs[i].memsz
      ensures ByteBack(v, root, Copied(ram, view, img, segs), img, segs[i], k)
    {
      var va := segs[i].vaddr + k;
      CopiedReads(ram, view, img, segs, i, k);
      assert Found(v, root, PageNumber(va), view[PageNumber(va)]);
      PathOfPage(va);
    }
  }

  lemma CanonicalCovers(view: View, segs: seq<Segment>, i: nat)
    requires AllPagesIn(view, segs) && i < |segs| && segs[i].load
    ensures CanonicalRange(segs[i].vaddr, segs[i].memsz) ==> Covers(view, segs[i].vaddr, segs[i].memsz)
  {}

  lemma PhsAre(img: seq<Byte>)
    requires HeaderOk(img)
    ensures |img| >= EHDR && |Phs(img)| == Le(img, 56, 2)
    ensures forall i :: 0 <= i < |Phs(img)| ==> Phs(img)[i] == Ph(img, i)
  {}

  lemma InImagePasses(img: seq<Byte>, segs: seq<Segment>)
    requires |img| < TWO32
    ensures AllInImage(img, segs) ==> AllPass(img, segs)
  {}

  lemma SomeStray(img: seq<Byte>, segs: seq<Segment>)
    requires !AllInImage(img, segs)
    ensures SomeLoad(segs)
  {
    var i :| 0 <= i < |segs| && !InImage(img, segs[i]);
    assert segs[i].load;
  }

  lemma {:induction false} LoMissing(segs: seq<Segment>)
    requires AllPlaced(segs)
    ensures Lo(segs) == NO_LO <==> !SomeLoad(segs)
  {
    hide Visits;
    assert forall i :: 0 <= i < |segs| ==> SegmentPlaced(segs[i]);
    if SomeLoad(segs) {
      BoundsExact(segs);
    } else {
      NoBounds(segs);
    }
  }

  lemma TopNonZero(v: Vm)
    requires v.Ok()
    ensures v.free != [] ==> v.Top() != 0
  {}

  lemma NothingVisited(v: Vm, root: nat)
    ensures AllVisits([]) == [] && Paged([]) && Goes(v, root, []) && MapPages(v, root, []) == v
  {}

  lemma PassOne(v: Vm, root: nat, segs: seq<Segment>, i: nat)
    requires i < |segs| && AllPlaced(segs)
    ensures Paged(AllVisits(segs[..i])) && Paged(AllVisits(segs[..i + 1])) && Paged(Visits(segs[i]))
    ensures var w := MapPages(v, root, AllVisits(segs[..i]));
            && MapPages(v, root, AllVisits(segs[..i + 1])) == MapPages(w, root, Visits(segs[i]))
            && (Goes(v, root, AllVisits(segs[..i + 1])) <==>
                  Goes(v, root, AllVisits(segs[..i])) && Goes(w, root, Visits(segs[i])))
  {
    hide Visits, MapPages, Goes, Paged;
    assert segs[..i + 1][..i] == segs[..i];
    AllPaged(segs[..i + 1]);
    PassConcat(v, root, AllVisits(segs[..i]), Visits(segs[i]));
  }

  lemma PassPrefix(v: Vm, root: nat, segs: seq<Segment>, k: nat)
    requires k <= |segs| && AllPlaced(segs)
    ensures Paged(AllVisits(segs[..k])) && Paged(AllVisits(segs))
    ensures Goes(v, root, AllVisits(segs)) ==> Goes(v, root, AllVisits(segs[..k]))
  {
    hide Visits, MapPages, Goes, Paged, AllVisits;
    AllPaged(segs[..k]);
    AllPaged(segs);
    assert segs == segs[..k] + segs[k..];
    VisitsConcat(segs[..k], segs[k..]);
    PassConcat(v, root, AllVisits(segs[..k]), AllVisits(segs[k..]));
  }

  /** After a pass with enough frames the segments can be copied. */
  lemma PassCopyable(v: Vm, root: nat, segs: seq<Segment>) returns (view: View)
    requires v.Ok() && v.IsSpace(root) && |v.free| <= Pmm.STACK_SIZE
    requires Paged(AllVisits(segs)) && Enough(v, root, AllVisits(segs))
    ensures Copyable(MapPages(v, root, AllVisits(segs)), root, view, segs)
  {
    hide Visits, AllVisits, Paged, Enough, Vm.Ok, MapPages;
    assert Shows(v, root, map[]);
    MapPagesShows(v, root, map[], AllVisits(segs));
    view := ViewAfter(v, root, map[], AllVisits(segs));
    hide Shows;
    PagesIn(view, segs);
    EnoughBound(v, root, AllVisits(segs));
    SizesBelow(segs);
  }

  class Loader {
    const editor: Paging.Editor
    var ram: Ram

    constructor (editor: Paging.Editor, ram: Ram)
      ensures this.editor == editor && this.ram == ram
    {
      this.editor, this.ram := editor, ram;
    }

    /** One byte store; an address that is not canonical or not translated faults. */
    method StoreByte(va: nat, b: Byte, ghost view: View) returns (ok: bool)
      requires editor.Valid() && PageNumber(va) < PAGES
      modifies this`ram
      ensures ok ==> Canonical(va)
      ensures Shows(editor.vm, editor.cr3, view) && At(view, va) ==>
                ok && ram == Put(old(ram), view[PageNumber(va)], va % PAGE_SIZE, b)
    {
      hide Walk, Number, Vm.Ok, Injective, PathOf, PageNumber, Canonical;
      if !Canonical(va) {
        return false;
      }
      PathOfPage(va);
      var t := Walk(editor.mem, editor.cr3, PathOf(va));
      if t.Absent? {
        return false;
      }
      ram := Put(ram, t.frame, va % PAGE_SIZE, b);
      ok := true;
    }

    /** klibc.memcpy and memset to virtual addresses, byte after byte. */
    method CopyOut(va: nat, bytes: seq<Byte>, ghost view: View) returns (ok: bool)
      requires editor.Valid() && forall x :: va <= x < va + |bytes| ==> PageNumber(x) < PAGES
      modifies this`ram
      ensures ok ==> CanonicalRange(va, |bytes|)
      ensures Shows(editor.vm, editor.cr3, view) && Covers(view, va, |bytes|) ==>
                ok && ram == Poked(old(ram), view, va, bytes)
    {
      hide Shows, Put, Paging.Editor.Valid, PageNumber, Canonical;
      ghost var good := Shows(editor.vm, editor.cr3, view) && Covers(view, va, |bytes|);
      var i := 0;
      while i < |bytes|
        invariant 0 <= i <= |bytes| && CanonicalRange(va, i)
        invariant good ==> Poked(ram, view, va + i, bytes[i..]) == Poked(old(ram), view, va, bytes)
      {
        assert good ==> At(view, va + i);
        ok := StoreByte(va + i, bytes[i], view);
        if !ok {
          return;
        }
        assert bytes[i..][1..] == bytes[i + 1..];
        i := i + 1;
      }
      ok := true;
    }

    /** One segment of the copy pass; the lengths pass through the 32-bit parameters of klibc. */
    method CopySegment(img: seq<Byte>, s: Segment, ghost view: View) returns (ok: bool)
      requires editor.Valid() && |img| < TWO32 && s.load && InImage(img, s) && SegmentPlaced(s)
      modifies this`ram
      ensures ok && s.memsz < TWO32 ==> CanonicalRange(s.vaddr, s.memsz)
      ensures Shows(editor.vm, editor.cr3, view) && Covers(view, s.vaddr, s.memsz) && s.memsz < TWO32 ==>
                ok && ram == Poked(old(ram), view, s.vaddr, Contents(img, s))
    {
      hide Shows, Poked, Paging.Editor.Valid, Visits, PageNumber, Canonical;
      forall x | s.vaddr <= x < s.vaddr + s.memsz ensures PageNumber(x) < PAGES {
        ByteOnPage(s, x);
      }
      hide SegmentPlaced;
      var file := img[s.offset..s.offset + s.filesz];
      var zeros: seq<Byte> := seq((s.memsz - s.filesz) % TWO32, _ => 0);
      ghost var good := Shows(editor.vm, editor.cr3, view) && Covers(view, s.vaddr, s.memsz) && s.memsz < TWO32;
      assert |zeros| <= s.memsz - s.filesz;
      if good {
        assert zeros == seq(s.memsz - s.filesz, _ => 0);
        PokedConcat(ram, view, s.vaddr, file, zeros);
      }
      ok := CopyOut(s.vaddr, file, view);
      if ok {
        ok := CopyOut(s.vaddr + s.filesz, zeros, view);
      }
    }

    /** One segment of the mapping pass. */
    method MapSegment(s: Segment) returns (ok: bool)
      requires editor.Valid() && s.load && SegmentPlaced(s)
      modifies editor`mem, editor`vm, editor.pmm`top, editor.pmm`owned
      ensures editor.Valid()
      ensures ok <==> Goes(old(editor.vm), editor.cr3, Visits(s))
      ensures ok ==> editor.vm == MapPages(old(editor.vm), editor.cr3, Visits(s))
    {
      hide Vm.Ok, AddressSpaces.AllocAndMap, Number, Pmm.Books, PathOf, Pml4Index, PageNumber;
      var n, end := FirstPage(s), EndPage(s);
      while n < end
        invariant editor.Valid() && Paged(PagesFrom(n, end))
        invariant Goes(editor.vm, editor.cr3, PagesFrom(n, end)) <==> Goes(old(editor.vm), editor.cr3, Visits(s))
        invariant MapPages(editor.vm, editor.cr3, PagesFrom(n, end)) ==
                  MapPages(old(editor.vm), editor.cr3, Visits(s))
        decreases if n < end then end - n else 0
      {
        ghost var v, ns := editor.vm, PagesFrom(n, end);
        assert ns[0] == PageNumber(PAGE_SIZE * n) < PAGES && ns[1..] == PagesFrom(n + 1, end);
        PathOfPage(PAGE_SIZE * n);
        TopNonZero(v);
        var phys := editor.AllocAndMap(PAGE_SIZE * n, WRITE | USER);
        if phys == 0 {
          return false;
        }
        n := n + 1;
      }
      ok := true;
    }

    /** The mapping pass: checks and maps header after header. */
    method MapAll(img: seq<Byte>) returns (ok: bool)
      requires editor.Valid() && HeaderOk(img) && Placed(img)
      modifies editor`mem, editor`vm, editor.pmm`top, editor.pmm`owned
      ensures editor.Valid() && Paged(AllVisits(Phs(img)))
      ensures ok <==> AllPass(img, Phs(img)) && Goes(old(editor.vm), editor.cr3, AllVisits(Phs(img)))
      ensures ok ==> editor.vm == MapPages(old(editor.vm), editor.cr3, AllVisits(Phs(img)))
    {
      hide Paging.Editor.Valid, Le, Ph, Phs, HeaderOk, Visits, AllVisits, MapPages, Goes, Paged;
      ghost var segs, v, root := Phs(img), editor.vm, editor.cr3;
      PhsAre(img);
      AllPaged(segs);
      NothingVisited(v, root);
      var i, n := 0, Le(img, 56, 2);
      assert segs[..0] == [];
      while i < n
        invariant 0 <= i <= n == |segs| && editor.Valid() && AllPass(img, segs[..i]) && Paged(AllVisits(segs[..i]))
        invariant Goes(v, root, AllVisits(segs[..i])) && editor.vm == MapPages(v, root, AllVisits(segs[..i]))
      {
        var s := Ph(img, i);
        assert s == segs[i] && segs[..i + 1] == segs[..i] + [s];
        PassOne(v, root, segs, i);
        NoVisits(s);
        NothingVisited(editor.vm, root);
        if s.load {
          if (s.offset + s.filesz) % TWO64 > |img| || s.memsz < s.filesz {
            assert !Passes(img, segs[i]);
            return false;
          }
          ok := MapSegment(s);
          if !ok {
            PassPrefix(v, root, segs, i + 1);
            return;
          }
        }
        i := i + 1;
      }
      assert segs[..n] == segs;
      ok := true;
    }

    /** The copy pass, with the running bounds; `stray` says that a segment's file bytes are not in the image. */
    method CopyAll(img: seq<Byte>, ghost view: View) returns (ok: bool, stray: bool, lo: nat, hi: nat)
      requires editor.Valid() && HeaderOk(img) && Placed(img) && AllPass(img, Phs(img))
      modifies this`ram
      ensures !(ok && stray)
      ensures ok ==> AllInImage(img, Phs(img)) && lo == Lo(Phs(img)) && hi == Hi(Phs(img))
      ensures stray ==> !AllInImage(img, Phs(img))
      ensures !ok ==> SomeLoad(Phs(img))
      ensures Copyable(editor.vm, editor.cr3, view, Phs(img)) ==>
                && (!ok && !stray ==> !AllCanonical(Phs(img)))
                && (ok ==> AllCanonical(Phs(img)) && AllCovered(view, Phs(img)))
                && (ok ==> ram == Copied(old(ram), view, img, Phs(img)))
    {
      hide Shows, Paging.Editor.Valid, Le, Ph, Phs, Poked, Bounded, HeaderOk, PageNumber, Canonical, SegmentPlaced;
      ghost var segs := Phs(img);
      PhsAre(img);
      ghost var good := Copyable(editor.vm, editor.cr3, view, segs);
      stray, lo, hi := false, NO_LO, 0;
      var i, n := 0, Le(img, 56, 2);
      while i < n
        invariant 0 <= i <= n == |segs| && lo == Lo(segs[..i]) && hi == Hi(segs[..i])
        invariant AllInImage(img, segs[..i]) && !stray
        invariant good ==> AllCanonical(segs[..i]) && AllCovered(view, segs[..i])
        invariant good ==> ram == Copied(old(ram), view, img, segs[..i])
      {
        var s := Ph(img, i);
        assert s == segs[i] && segs[..i + 1][..i] == segs[..i] && Passes(img, segs[i]) && SegmentPlaced(segs[i]);
        if s.load {
          if s.offset + s.filesz > |img| {
            assert !InImage(img, segs[i]);
            return false, true, lo, hi;
          }
          if good {
            CanonicalCovers(view, segs, i);
          }
          ok := CopySegment(img, s, view);
          if !ok {
            return;
          }
          if s.vaddr < lo {
            lo := s.vaddr;
          }
          if s.vaddr + s.memsz > hi {
            hi := s.vaddr + s.memsz;
          }
        }
        i := i + 1;
      }
      assert segs[..n] == segs;
      ok := true;
    }

    /** elf_load; for Stray and Fault the state described is that before the offending access. */
    method Load(img: seq<Byte>) returns (r: Result, ghost view: View)
      requires editor.Valid() && Placed(img)
      modifies this`ram, editor`mem, editor`vm, editor.pmm`top, editor.pmm`owned
      ensures editor.Valid()
      ensures !HeaderPasses(img) ==> r == Rejected && editor.vm == old(editor.vm) && ram == old(ram)
      ensures HeaderPasses(img) && !HeaderOk(img) ==> r == Stray && editor.vm == old(editor.vm) && ram == old(ram)
      ensures HeaderOk(img) ==>
                var segs, v := Phs(img), old(editor.vm);
                && Paged(AllVisits(segs))
                && (r.Rejected? <==> !AllPass(img, segs) || !Goes(v, editor.cr3, AllVisits(segs)) || !SomeLoad(segs))
                && (r.Loaded? ==> AllInImage(img, segs) && r == Loaded(Le(img, 24, 8), Lo(segs), Hi(segs)))
                && (r.Stray? ==> !AllInImage(img, segs))
      ensures HeaderOk(img) && Enough(old(editor.vm), editor.cr3, AllVisits(Phs(img))) ==>
                && (r.Loaded? <==> AllInImage(img, Phs(img)) && SomeLoad(Phs(img)) && AllCanonical(Phs(img)))
                && (r.Fault? ==> !AllCanonical(Phs(img)))
                && (r.Loaded? ==>
                      && Copyable(editor.vm, editor.cr3, view, Phs(img)) && AllCovered(view, Phs(img))
                      && ram == Copied(old(ram), view, img, Phs(img)))
                && (r.Loaded? && Disjoint(Phs(img)) ==> ReadsBack(editor.vm, editor.cr3, ram, img, Phs(img)))
    {
      hide Shows, Paging.Editor.Valid, Le, SegmentAt, Copied, Bounded, Visits, AllVisits, Goes, Enough, Paged,
           AllCanonical, ReadsBack, AllPlaced, AllPagesIn, Sized;
      view := map[];
      if !HeaderPasses(img) {
        return Rejected, view;
      }
      if !HeaderOk(img) {
        return Stray, view;
      }
      ghost var segs, v, root, ram0 := Phs(img), editor.vm, editor.cr3, ram;
      InImagePasses(img, segs);
      editor.Bounds();
      var ok, stray, lo, hi;
      ok := MapAll(img);
      ghost var enough := Enough(v, root, AllVisits(segs));
      if enough {
        EnoughGoes(v, root, AllVisits(segs));
      }
      if !ok {
        return Rejected, view;
      }
      if enough {
        view := PassCopyable(v, root, segs);
      }
      ok, stray, lo, hi := CopyAll(img, view);
      LoMissing(segs);
      if stray {
        SomeStray(img, segs);
        return Stray, view;
      }
      if !ok {
        return Fault, view;
      }
      r := if lo == NO_LO then Rejected else Loaded(Le(img, 24, 8), lo, hi);
      if enough && Disjoint(segs) {
        LoadedReads(editor.vm, root, view, ram0, img, segs);
      }
    }
  }

  /** A byte one space writes to a user address is never read by a space apart from it, at any user address. */
  lemma WriteUnseen(v: Vm, ops: seq<AddressSpaces.Op>, r: nat, s: nat, ram: Ram, va: nat, x: nat, b: Byte)
    requires v.Ok() && Ownership.Owned(v) && Ownership.Private(v)
    requires AddressSpaces.LegalRun(v, ops) && Ownership.KeepsAll(ops)
    requires v.IsSpace(r) && v.IsSpace(s) && AddressSpaces.SlotsApart(v, r, s)
    requires AddressSpaces.User(Pml4Index(va)) && AddressSpaces.User(Pml4Index(x))
    requires var m := AddressSpaces.Run(v, ops).mem; Walk(m, r, PathOf(va)).Page? && Walk(m, s, PathOf(x)).Page?
    ensures var w := AddressSpaces.Run(v, ops);
            var ram' := Put(ram, Walk(w.mem, r, PathOf(va)).frame, va % PAGE_SIZE, b);
            ReadVa(w, s, ram', x) == ReadVa(w, s, ram, x)
  {
    hide Walk, AddressSpaces.Run, Vm.Ok, Ownership.Owned, Ownership.Private, PathOf, Pml4Index;
    PathSlot(va);
    PathSlot(x);
    Ownership.RunPrivate(v, ops, r, s, PathOf(va), PathOf(x));
  }
}
