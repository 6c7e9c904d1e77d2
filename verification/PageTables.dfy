/**
 * Address spaces as values (osfmk/vm/paging.c): physical memory, the hardware
 * walk, the shape of the table forest, and the editor's steps as functions.
 */
module PageTables {
  import opened Arith
  import opened Common
  import opened PageEntry

  /** Physical memory seen as table frames: frame number to its 512 words. */
  type Memory = map<nat, Table>

  /** The four index fields of a virtual page. */
  datatype Path = Path(a: Index, b: Index, c: Index, d: Index)

  function PathOf(va: nat): Path {
    Path(Pml4Index(va), PdptIndex(va), PdIndex(va), PtIndex(va))
  }

  /** The page number the index fields spell. */
  function Number(p: Path): nat { ((p.a * 512 + p.b) * 512 + p.c) * 512 + p.d }

  lemma NumberInjective(p: Path, q: Path)
    requires Number(p) == Number(q)
    ensures p == q
  {
    LastDigit((p.a * 512 + p.b) * 512 + p.c, p.d, (q.a * 512 + q.b) * 512 + q.c, q.d);
    LastDigit(p.a * 512 + p.b, p.c, q.a * 512 + q.b, q.c);
    LastDigit(p.a, p.b, q.a, q.b);
  }

  lemma LastDigit(x: nat, d: Index, y: nat, e: Index)
    requires x * 512 + d == y * 512 + e
    ensures x == y && d == e
  {}

  /** Pages below PML4 slot 511. */
  const PAGES: nat := 511 * 0x800_0000

  /** The page with a given number. */
  ghost function PageAt(n: nat): (p: Path)
    requires n < PAGES
    ensures Number(p) == n && p.a < 511
  {
    PageExists(n);
    var p: Path :| Number(p) == n;
    p
  }

  lemma PageExists(n: nat)
    requires n < PAGES
    ensures exists p: Path :: Number(p) == n
  {
    var p := Path(n / 512 / 512 / 512, n / 512 / 512 % 512, n / 512 % 512, n % 512);
    assert Number(p) == n;
  }

  /** Bits 47..12 of an address. */
  function PageNumber(va: nat): nat { va / 4096 % 0x10_0000_0000 }

  lemma PathNumber(va: nat)
    ensures Number(PathOf(va)) == PageNumber(va)
  {
    var n := va / 0x1000;
    assert va / 0x20_0000 == n / 512;
    assert va / 0x4000_0000 == n / 512 / 512;
    assert va / 0x80_0000_0000 == n / 512 / 512 / 512;
    Digits(n);
  }

  lemma Digits(n: nat)
    ensures ((n / 512 / 512 / 512 % 512 * 512 + n / 512 / 512 % 512) * 512 + n / 512 % 512) * 512 + n % 512
         == n % 0x10_0000_0000
  {
    var a, b, c := n / 512, n / 512 / 512, n / 512 / 512 / 512;
    assert n == 512 * a + n % 512 && a == 512 * b + a % 512 && b == 512 * c + b % 512 && c == 512 * (c / 512) + c % 512;
    ModUnique(n, 0x10_0000_0000, c / 512, ((c % 512 * 512 + b % 512) * 512 + a % 512) * 512 + n % 512);
  }

  /** The shifts and masks of the source take the same path for two addresses exactly when bits 47..12 agree. */
  lemma PathOfVa(va: nat, va': nat)
    ensures PathOf(va) == PathOf(va') <==> PageNumber(va) == PageNumber(va')
    ensures Pml4Index(va) < 511 <==> PageNumber(va) < PAGES
  {
    hide PathOf, PageNumber, Number;
    PathNumber(va);
    PathNumber(va');
    if PageNumber(va) == PageNumber(va') {
      NumberInjective(PathOf(va), PathOf(va'));
    }
    SlotOf(PathOf(va));
    assert PathOf(va).a == Pml4Index(va) by {
      PathSlot(va);
    }
  }

  lemma PathSlot(va: nat)
    ensures PathOf(va).a == Pml4Index(va)
  {}

  lemma SlotOf(p: Path)
    ensures p.a < 511 <==> Number(p) < PAGES
  {}

  /** Bits 63..47 are equal; the processor faults on any other address. */
  predicate Canonical(va: nat) { va < 0x8000_0000_0000 || TWO64 - 0x8000_0000_0000 <= va < TWO64 }

  /** Canonical addresses are told apart by page number and offset. */
  lemma CanonicalUnique(x: nat, y: nat)
    requires Canonical(x) && Canonical(y) && PageNumber(x) == PageNumber(y) && x % 4096 == y % 4096
    ensures x == y
  {
    HalfPage(x);
    HalfPage(y);
  }

  lemma HalfPage(x: nat)
    requires Canonical(x)
    ensures x == 4096 * PageNumber(x) + x % 4096 + (if x < 0x8000_0000_0000 then 0 else TWO64 - 0x1_0000_0000_0000)
    ensures x < 0x8000_0000_0000 <==> PageNumber(x) < 0x8_0000_0000
  {
    var n := x / 4096;
    if x < 0x8000_0000_0000 {
      ModUnique(n, 0x10_0000_0000, 0, n);
    } else {
      ModUnique(n, 0x10_0000_0000, 0xffff, n - 0xffff * 0x10_0000_0000);
    }
  }

  /** The index fields, shifted back to bits 39, 30, 21 and 12, spell the low 48 bits of the address. */
  lemma PathSpells(va: nat)
    ensures var p := PathOf(va);
            0x80_0000_0000 * p.a + 0x4000_0000 * p.b + 0x20_0000 * p.c + 0x1000 * p.d + va % 0x1000
            == va % 0x1_0000_0000_0000
  {
    hide PathOf, PageNumber;
    PathNumber(va);
    OffsetAndPage(va);
  }

  lemma OffsetAndPage(va: nat)
    ensures 0x1000 * PageNumber(va) + va % 0x1000 == va % 0x1_0000_0000_0000
  {
    var n := va / 0x1000;
    assert va == 0x1000 * n + va % 0x1000 && n == 0x10_0000_0000 * (n / 0x10_0000_0000) + PageNumber(va);
    ModUnique(va, 0x1_0000_0000_0000, n / 0x10_0000_0000, 0x1000 * PageNumber(va) + va % 0x1000);
  }

  /** The page of any address outside slot 511. */
  lemma PathOfPage(va: nat)
    requires PageNumber(va) < PAGES
    ensures PathOf(va) == PageAt(PageNumber(va)) && Pml4Index(va) < 511
  {
    hide PathOf, Number, PageNumber;
    PathNumber(va);
    NumberInjective(PathOf(va), PageAt(PageNumber(va)));
    PathSlot(va);
  }

  /** What the walk finds: the 4 KiB frame, the rights of the whole path, the leaf's caching bits. */
  datatype Translation = Absent | Page(frame: nat, write: bool, user: bool, cache: bv12)

  /** The words of frame `f`; a frame nothing was stored in yet reads as zeros. */
  function TableAt(m: Memory, f: nat): Table {
    if f in m then m[f] else EmptyTable()
  }

  function Lookup(m: Memory, f: nat, i: Index): Word { TableAt(m, f)[i] }

  function Restrict(w: Word, t: Translation): Translation {
    match t
    case Absent => Absent
    case Page(f, write, user, cache) => Page(f, w.Writable() && write, w.UserOk() && user, cache)
  }

  function Leaf(frame: nat, w: Word): Translation {
    Page(frame, w.Writable(), w.UserOk(), w.Cache())
  }

  function WalkPt(m: Memory, pt: nat, d: Index): Translation {
    var w := Lookup(m, pt, d);
    if w.Present() then Leaf(w.frame, w) else Absent
  }

  function WalkPd(m: Memory, pd: nat, c: Index, d: Index): Translation {
    var w := Lookup(m, pd, c);
    if !w.Present() then Absent
    else if w.Large() then Leaf(LeafBase(w) + d, w)
    else Restrict(w, WalkPt(m, w.frame, d))
  }

  function WalkPdpt(m: Memory, pdpt: nat, b: Index, c: Index, d: Index): Translation {
    var w := Lookup(m, pdpt, b);
    if w.Present() then Restrict(w, WalkPd(m, w.frame, c, d)) else Absent
  }

  /** The four-level walk from the table in cr3. */
  function Walk(m: Memory, root: nat, p: Path): Translation {
    var w := Lookup(m, root, p.a);
    if w.Present() then Restrict(w, WalkPdpt(m, w.frame, p.b, p.c, p.d)) else Absent
  }

  /**
   * The walk from the bits of the words it reads: all of them present, write
   * and user rights the conjunction over the levels, caching from the last,
   * and bit 7 of the directory word for a 2 MiB leaf.
   */
  lemma WalkBits(m: Memory, root: nat, p: Path)
    ensures var w4 := Lookup(m, root, p.a); var w3 := Lookup(m, w4.frame, p.b);
            var w2 := Lookup(m, w3.frame, p.c); var w1 := Lookup(m, w2.frame, p.d);
            Walk(m, root, p) ==
            if w4.flags & w3.flags & w2.flags & 0x001 == 0 then Absent
            else if w2.flags & 0x080 != 0 then
              Page(512 * (w2.frame / 512) + p.d, w4.flags & w3.flags & w2.flags & 0x002 != 0,
                   w4.flags & w3.flags & w2.flags & 0x004 != 0, w2.flags & 0x018)
            else if w1.flags & 0x001 == 0 then Absent
            else
              Page(w1.frame, w4.flags & w3.flags & w2.flags & w1.flags & 0x002 != 0,
                   w4.flags & w3.flags & w2.flags & w1.flags & 0x004 != 0, w1.flags & 0x018)
  {
    hide Lookup;
    var w4 := Lookup(m, root, p.a);
    var w3 := Lookup(m, w4.frame, p.b);
    var w2 := Lookup(m, w3.frame, p.c);
    var w1 := Lookup(m, w2.frame, p.d);
    BitOfAnd(w4.flags, w3.flags, w2.flags, w1.flags, 0x001);
    BitOfAnd(w4.flags, w3.flags, w2.flags, w1.flags, 0x002);
    BitOfAnd(w4.flags, w3.flags, w2.flags, w1.flags, 0x004);
    WordBits(w4);
    WordBits(w3);
    WordBits(w2);
    WordBits(w1);
  }

  lemma BitOfAnd(a: bv12, b: bv12, c: bv12, d: bv12, k: bv12)
    requires k == 0x001 || k == 0x002 || k == 0x004
    ensures a & b & c & k != 0 <==> a & k != 0 && b & k != 0 && c & k != 0
    ensures a & b & c & d & k != 0 <==> a & k != 0 && b & k != 0 && c & k != 0 && d & k != 0
  {}

  /**
   * What a frame in use is for.  A page-directory-pointer table remembers the
   * PML4 slot it hangs under (several spaces may share it, always in the same
   * slot); the two lower levels remember their only parent word.
   */
  datatype Kind =
    | Pml4
    | Pdpt(slot: Index)
    | Pd(parent: nat, at: Index)
    | Pt(parent: nat, at: Index)
    | Data

  /** Memory, the frame allocator's stack, and the use of every frame it gave out. */
  datatype Vm = Vm(mem: Memory, free: seq<nat>, kind: map<nat, Kind>)
  {
    predicate IsKind(f: nat, k: Kind) { f in kind && kind[f] == k }

    predicate IsSpace(f: nat) { IsKind(f, Pml4) }

    predicate FreeOk() {
      forall i :: 0 <= i < |free| ==> free[i] != 0 && free[i] !in kind
    }

    predicate SpacesOk() {
      forall f, a: Index :: f in kind && kind[f] == Pml4 && a < 511 && Lookup(mem, f, a).Present()
                            ==> IsKind(Lookup(mem, f, a).frame, Pdpt(a))
    }

    /** No 1 GiB leaves: a present word of a PDPT is a directory. */
    predicate PdptsOk() {
      forall f, b: Index :: f in kind && kind[f].Pdpt? && Lookup(mem, f, b).Present()
                            ==> !Lookup(mem, f, b).Large() && IsKind(Lookup(mem, f, b).frame, Pd(f, b))
    }

    predicate PdsOk() {
      forall f, c: Index :: f in kind && kind[f].Pd? && Lookup(mem, f, c).Present() && !Lookup(mem, f, c).Large()
                            ==> IsKind(Lookup(mem, f, c).frame, Pt(f, c))
    }

    /**
     * Table frames form trees (slot 511 apart), and free frames, table frames
     * and data frames are pairwise disjoint.
     */
    predicate Ok() {
      && Distinct(free) && FreeOk() && SpacesOk() && PdptsOk() && PdsOk()
      && forall f :: f in kind ==> f != 0
    }

    function Top(): nat
      requires free != []
    {
      free[|free| - 1]
    }

    /** pmm_alloc followed by marking the frame's use. */
    function Take(k: Kind): Vm
      requires free != []
    {
      Vm(mem, free[..|free| - 1], kind[Top() := k])
    }

    /** Store one word of one table. */
    function Store(f: nat, i: Index, w: Word): Vm {
      Vm(mem[f := TableAt(mem, f)[i := w]], free, kind)
    }

    /** Take a frame, fill it as a table and point word `i` of `f` at it. */
    function Attach(f: nat, i: Index, k: Kind, content: Table, w: Word): Vm
      requires free != []
    {
      Vm(mem[Top() := content], free[..|free| - 1], kind[Top() := k]).Store(f, i, w)
    }
  }

  /** The "not present" branch of the two upper levels. */
  function EnsureTable(v: Vm, f: nat, i: Index, k: Kind): Vm {
    if Lookup(v.mem, f, i).Present() || v.free == [] then v
    else v.Attach(f, i, k, EmptyTable(), TableWord(v.Top()))
  }

  /** The directory level: create the table, or split the 2 MiB leaf. */
  function EnsureLeafTable(v: Vm, pd: nat, c: Index, flags: bv12): Vm {
    var w := Lookup(v.mem, pd, c);
    if v.free == [] then v
    else if !w.Present() then v.Attach(pd, c, Pt(pd, c), EmptyTable(), TableWord(v.Top()))
    else if w.Large() then v.Attach(pd, c, Pt(pd, c), SplitTable(w, flags), SplitTableWord(v.Top(), w))
    else v
  }

  /** paging_map_page from the page-directory-pointer level down. */
  function MapBelow(v: Vm, pdpt: nat, p: Path, frame: nat, flags: bv12): Vm {
    var v2 := EnsureTable(v, pdpt, p.b, Pd(pdpt, p.b));
    var w3 := Lookup(v2.mem, pdpt, p.b);
    if !w3.Present() then v2 else
    var v3 := EnsureLeafTable(v2, w3.frame, p.c, flags);
    var w2 := Lookup(v3.mem, w3.frame, p.c);
    if !w2.Present() || w2.Large() then v3 else
    v3.Store(w2.frame, p.d, PageWord(frame, flags))
  }

  /** paging_map_page in the space `root`, with its early returns. */
  function MapPage(v: Vm, root: nat, p: Path, frame: nat, flags: bv12): Vm {
    var v1 := EnsureTable(v, root, p.a, Pdpt(p.a));
    var w4 := Lookup(v1.mem, root, p.a);
    if !w4.Present() then v1 else MapBelow(v1, w4.frame, p, frame, flags)
  }
}
