/**
 * What paging_map_page does to every translation of every address space
 * (osfmk/vm/paging.c:91-168).
 */
module MapPageProof {
  import opened Common
  import opened PageEntry
  import opened PageTables

  // ---------------------------------------------------------------- statement

  /** Tables the call has to allocate; a caller can count them before the call. */
  function Need(m: Memory, root: nat, p: Path): nat {
    var w4 := Lookup(m, root, p.a);
    if !w4.Present() then 3 else
    var w3 := Lookup(m, w4.frame, p.b);
    if !w3.Present() then 2 else
    var w2 := Lookup(m, w3.frame, p.c);
    if !w2.Present() || w2.Large() then 1 else 0
  }

  /** Space `r` hangs the same table as `root` in slot `a`. */
  predicate Shares(m: Memory, root: nat, r: nat, a: Index) {
    r == root ||
    (Lookup(m, root, a).Present() && Lookup(m, r, a).Present() && Lookup(m, root, a).frame == Lookup(m, r, a).frame)
  }

  /** The 2 MiB leaf on the path, if there is one. */
  predicate OnLeaf(m: Memory, root: nat, p: Path) {
    var w4 := Lookup(m, root, p.a);
    w4.Present() &&
    var w3 := Lookup(m, w4.frame, p.b);
    w3.Present() && Lookup(m, w3.frame, p.c).Present() && Lookup(m, w3.frame, p.c).Large()
  }

  /** Rights the tables above a page grant: words the call creates are writable and not user accessible. */
  function PathWrite(m: Memory, r: nat, p: Path): bool {
    var w4 := Lookup(m, r, p.a);
    !w4.Present() || (w4.Writable() &&
    var w3 := Lookup(m, w4.frame, p.b);
    !w3.Present() || (w3.Writable() &&
    var w2 := Lookup(m, w3.frame, p.c);
    !w2.Present() || w2.Large() || w2.Writable()))
  }

  function PathUser(m: Memory, r: nat, p: Path): bool {
    var w4 := Lookup(m, r, p.a);
    w4.Present() && w4.UserOk() &&
    var w3 := Lookup(m, w4.frame, p.b);
    w3.Present() && w3.UserOk() &&
    var w2 := Lookup(m, w3.frame, p.c);
    w2.Present() && w2.UserOk()
  }

  function Recached(t: Translation, flags: bv12): Translation {
    match t
    case Absent => Absent
    case Page(f, write, user, cache) =>
      Page(f, write, user, if flags & 0x018 != 0 then flags & 0x018 else cache)
  }

  /** The translation of page `q` in space `r` after a successful call, from the state before it. */
  function Outcome(m: Memory, root: nat, p: Path, frame: nat, flags: bv12, r: nat, q: Path): Translation {
    if !(q.a == p.a && q.b == p.b && q.c == p.c && Shares(m, root, r, p.a)) then Walk(m, r, q)
    else if q.d == p.d then
      Page(frame, flags & 0x002 != 0 && PathWrite(m, r, p), flags & 0x004 != 0 && PathUser(m, r, p), flags & 0x018)
    else if OnLeaf(m, root, p) then Recached(Walk(m, r, q), flags)
    else Walk(m, r, q)
  }

  ghost predicate SameWalks(v: Vm, m: Memory) {
    forall r, q: Path :: v.IsSpace(r) && q.a < 511 ==> Walk(m, r, q) == Walk(v.mem, r, q)
  }

  // ------------------------------------------------------------ one allocation

  /** The word a step fills belongs to a table of the level above the new one. */
  predicate Parent(v: Vm, f: nat, i: Index, k: Kind) {
    f in v.kind &&
    match v.kind[f]
    case Pml4 => i < 511 && k == Pdpt(i)
    case Pdpt(_) => k == Pd(f, i)
    case Pd(_, _) => k == Pt(f, i)
    case _ => false
  }

  lemma AttachOk(v: Vm, f: nat, i: Index, k: Kind, content: Table, w: Word)
    requires v.Ok() && v.free != [] && Parent(v, f, i, k)
    requires w.Present() && !w.Large() && w.frame == v.Top()
    requires k.Pt? || content == EmptyTable()
    ensures v.Attach(f, i, k, content, w).Ok()
  {
    var v' := v.Attach(f, i, k, content, w);
    var t := v.Top();
    assert t == v.free[|v.free| - 1] && t !in v.kind;
    AttachLookup(v, f, i, k, content, w);
  }

  lemma AttachLookup(v: Vm, f: nat, i: Index, k: Kind, content: Table, w: Word)
    requires v.free != [] && f != v.Top()
    ensures var m := v.Attach(f, i, k, content, w).mem;
            forall g, j: Index {:trigger Lookup(m, g, j)} :: Lookup(m, g, j) == (
              if g == f && j == i then w else if g == v.Top() then content[j] else Lookup(v.mem, g, j))
  {}

  predicate EmptyReady(v: Vm, f: nat, i: Index, k: Kind, w: Word) {
    && v.Ok() && v.free != [] && Parent(v, f, i, k)
    && w.Present() && !w.Large() && w.frame == v.Top()
    && !Lookup(v.mem, f, i).Present()
  }

  lemma EmptyPd(v: Vm, f: nat, i: Index, k: Kind, w: Word, pd: nat, c: Index, d: Index)
    requires EmptyReady(v, f, i, k, w) && pd in v.kind && v.kind[pd].Pd?
    ensures WalkPd(v.Attach(f, i, k, EmptyTable(), w).mem, pd, c, d) == WalkPd(v.mem, pd, c, d)
  {
    assert v.Top() == v.free[|v.free| - 1] && v.Top() !in v.kind;
    AttachLookup(v, f, i, k, EmptyTable(), w);
  }

  lemma EmptyPdpt(v: Vm, f: nat, i: Index, k: Kind, w: Word, pdpt: nat, b: Index, c: Index, d: Index)
    requires EmptyReady(v, f, i, k, w) && pdpt in v.kind && v.kind[pdpt].Pdpt?
    ensures WalkPdpt(v.Attach(f, i, k, EmptyTable(), w).mem, pdpt, b, c, d) == WalkPdpt(v.mem, pdpt, b, c, d)
  {
    assert v.Top() == v.free[|v.free| - 1] && v.Top() !in v.kind;
    AttachLookup(v, f, i, k, EmptyTable(), w);
    if Lookup(v.mem, pdpt, b).Present() {
      hide WalkPd;
      EmptyPd(v, f, i, k, w, Lookup(v.mem, pdpt, b).frame, c, d);
    }
  }

  /** Hanging an empty table under an absent word changes no translation of any space. */
  lemma AttachEmpty(v: Vm, f: nat, i: Index, k: Kind, w: Word)
    requires EmptyReady(v, f, i, k, w)
    ensures SameWalks(v, v.Attach(f, i, k, EmptyTable(), w).mem)
  {
    var m := v.Attach(f, i, k, EmptyTable(), w).mem;
    forall r, q: Path | v.IsSpace(r) && q.a < 511 ensures Walk(m, r, q) == Walk(v.mem, r, q) {
      EmptyWalk(v, f, i, k, w, r, q);
    }
  }

  lemma EmptyWalk(v: Vm, f: nat, i: Index, k: Kind, w: Word, r: nat, q: Path)
    requires EmptyReady(v, f, i, k, w) && v.IsSpace(r) && q.a < 511
    ensures Walk(v.Attach(f, i, k, EmptyTable(), w).mem, r, q) == Walk(v.mem, r, q)
  {
    assert v.Top() == v.free[|v.free| - 1] && v.Top() !in v.kind;
    AttachLookup(v, f, i, k, EmptyTable(), w);
    if Lookup(v.mem, r, q.a).Present() {
      hide WalkPdpt;
      EmptyPdpt(v, f, i, k, w, Lookup(v.mem, r, q.a).frame, q.b, q.c, q.d);
    }
  }

  /** The memory after the leaf in word `i` of directory `f` is split. */
  function SplitMemory(v: Vm, f: nat, i: Index, flags: bv12): Memory
    requires v.free != []
  {
    var leaf := Lookup(v.mem, f, i);
    v.Attach(f, i, Pt(f, i), SplitTable(leaf, flags), SplitTableWord(v.Top(), leaf)).mem
  }

  predicate SplitReady(v: Vm, f: nat, i: Index) {
    && v.Ok() && v.free != [] && Parent(v, f, i, Pt(f, i))
    && Lookup(v.mem, f, i).Present() && Lookup(v.mem, f, i).Large()
  }

  lemma SplitLookup(v: Vm, f: nat, i: Index, flags: bv12)
    requires SplitReady(v, f, i)
    ensures var leaf, m := Lookup(v.mem, f, i), SplitMemory(v, f, i, flags);
            && (forall g, j: Index {:trigger Lookup(m, g, j)} ::
                  g in v.kind && !(g == f && j == i) ==> Lookup(m, g, j) == Lookup(v.mem, g, j))
            && Lookup(m, f, i) == SplitTableWord(v.Top(), leaf)
            && (forall j: Index :: Lookup(m, v.Top(), j) == SplitWord(leaf, flags, j))
  {
    var leaf := Lookup(v.mem, f, i);
    assert v.Top() == v.free[|v.free| - 1] && v.Top() !in v.kind;
    AttachLookup(v, f, i, Pt(f, i), SplitTable(leaf, flags), SplitTableWord(v.Top(), leaf));
  }

  lemma SplitPd(v: Vm, f: nat, i: Index, flags: bv12, pd: nat, c: Index, d: Index)
    requires SplitReady(v, f, i) && pd in v.kind && v.kind[pd].Pd?
    ensures var t := WalkPd(v.mem, pd, c, d);
            WalkPd(SplitMemory(v, f, i, flags), pd, c, d) == if pd == f && c == i then Recached(t, flags) else t
  {
    SplitLookup(v, f, i, flags);
    SplitTableWordFields(v.Top(), Lookup(v.mem, f, i));
    SplitWordFields(Lookup(v.mem, f, i), flags, d);
  }

  lemma SplitPdpt(v: Vm, f: nat, i: Index, flags: bv12, pdpt: nat, q: Path)
    requires SplitReady(v, f, i) && pdpt in v.kind && v.kind[pdpt].Pdpt?
    ensures var w, t := Lookup(v.mem, pdpt, q.b), WalkPdpt(v.mem, pdpt, q.b, q.c, q.d);
            WalkPdpt(SplitMemory(v, f, i, flags), pdpt, q.b, q.c, q.d) ==
            if w.Present() && w.frame == f && q.c == i then Recached(t, flags) else t
  {
    hide WalkPd, SplitMemory;
    SplitLookup(v, f, i, flags);
    if Lookup(v.mem, pdpt, q.b).Present() {
      SplitPd(v, f, i, flags, Lookup(v.mem, pdpt, q.b).frame, q.c, q.d);
    }
  }

  /** Replacing a 2 MiB leaf by its table keeps frames and rights; only the caching bits may change. */
  lemma AttachSplit(v: Vm, f: nat, i: Index, flags: bv12, r: nat, q: Path)
    requires SplitReady(v, f, i) && v.IsSpace(r) && q.a < 511
    ensures var t := Walk(v.mem, r, q);
            Walk(SplitMemory(v, f, i, flags), r, q) ==
            if Through(v.mem, r, q, f) && q.c == i then Recached(t, flags) else t
  {
    hide WalkPdpt, SplitMemory;
    SplitLookup(v, f, i, flags);
    if Lookup(v.mem, r, q.a).Present() {
      SplitPdpt(v, f, i, flags, Lookup(v.mem, r, q.a).frame, q);
    }
  }

  /** The walk of `q` in `r` reads page directory `pd`. */
  predicate Through(m: Memory, r: nat, q: Path, pd: nat) {
    var w4 := Lookup(m, r, q.a);
    w4.Present() && Lookup(m, w4.frame, q.b).Present() && Lookup(m, w4.frame, q.b).frame == pd
  }

  // ------------------------------------------------------------------ the store

  /** The leaf table that an intact path ends in, and why nothing else reads it. */
  lemma PathKinds(v: Vm, r: nat, q: Path)
    requires v.Ok() && v.IsSpace(r) && q.a < 511 && Need(v.mem, r, q) == 0
    ensures var pdpt := Lookup(v.mem, r, q.a).frame;
            var pd := Lookup(v.mem, pdpt, q.b).frame;
            var pt := Lookup(v.mem, pd, q.c).frame;
            v.IsKind(pdpt, Pdpt(q.a)) && v.IsKind(pd, Pd(pdpt, q.b)) && v.IsKind(pt, Pt(pd, q.c))
  {}

  /** The leaf table the walk of `q` in `r` ends in. */
  function LeafTable(m: Memory, r: nat, q: Path): nat {
    Lookup(m, Lookup(m, Lookup(m, r, q.a).frame, q.b).frame, q.c).frame
  }

  /** A store into a leaf table is invisible to walks that do not read that word. */
  lemma StoreElsewhere(v: Vm, pt: nat, d: Index, w: Word, r: nat, q: Path)
    requires v.Ok() && v.IsSpace(r) && q.a < 511 && pt in v.kind && v.kind[pt].Pt?
    requires Need(v.mem, r, q) == 0 && LeafTable(v.mem, r, q) == pt ==> q.d != d
    ensures Walk(v.Store(pt, d, w).mem, r, q) == Walk(v.mem, r, q)
  {
    StoreLookup(v, pt, d, w);
  }

  /** A store into the leaf table a walk ends in is what that walk finds. */
  lemma StoreHere(v: Vm, r: nat, q: Path, w: Word)
    requires v.Ok() && v.IsSpace(r) && q.a < 511 && Need(v.mem, r, q) == 0 && w.Present()
    ensures Walk(v.Store(LeafTable(v.mem, r, q), q.d, w).mem, r, q) ==
            Page(w.frame, w.Writable() && PathWrite(v.mem, r, q), w.UserOk() && PathUser(v.mem, r, q), w.Cache())
  {
    PathKinds(v, r, q);
    StoreLookup(v, LeafTable(v.mem, r, q), q.d, w);
  }

  lemma StoreWalk(v: Vm, root: nat, p: Path, frame: nat, flags: bv12, r: nat, q: Path)
    requires v.Ok() && v.IsSpace(root) && p.a < 511 && Need(v.mem, root, p) == 0
    requires v.IsSpace(r) && q.a < 511
    ensures Walk(v.Store(LeafTable(v.mem, root, p), p.d, PageWord(frame, flags)).mem, r, q)
         == Outcome(v.mem, root, p, frame, flags, r, q)
  {
    PathKinds(v, root, p);
    PageWordFields(frame, flags);
    var pt, w := LeafTable(v.mem, root, p), PageWord(frame, flags);
    if Need(v.mem, r, q) == 0 && LeafTable(v.mem, r, q) == pt && q.d == p.d {
      PathKinds(v, r, q);
      assert q == p && Shares(v.mem, root, r, p.a);
      StoreHere(v, r, q, w);
    } else {
      StoreElsewhere(v, pt, p.d, w, r, q);
    }
  }

  lemma StoreLookup(v: Vm, f: nat, i: Index, w: Word)
    ensures var m := v.Store(f, i, w).mem;
            forall g, j: Index {:trigger Lookup(m, g, j)} ::
              Lookup(m, g, j) == (if g == f && j == i then w else Lookup(v.mem, g, j))
  {}

  /** With the whole path in place, one store changes exactly one page of the spaces sharing the slot. */
  lemma StoreOutcome(v: Vm, root: nat, p: Path, frame: nat, flags: bv12)
    requires v.Ok() && v.IsSpace(root) && p.a < 511 && Need(v.mem, root, p) == 0
    ensures var v' := MapPage(v, root, p, frame, flags);
            && v'.Ok() && v'.free == v.free && v'.kind == v.kind
            && (forall r, q: Path :: v.IsSpace(r) && q.a < 511 ==>
                  Walk(v'.mem, r, q) == Outcome(v.mem, root, p, frame, flags, r, q))
  {
    PathKinds(v, root, p);
    var pt := LeafTable(v.mem, root, p);
    StoreLookup(v, pt, p.d, PageWord(frame, flags));
    assert MapPage(v, root, p, frame, flags) == v.Store(pt, p.d, PageWord(frame, flags));
    forall r, q: Path | v.IsSpace(r) && q.a < 511
      ensures Walk(MapPage(v, root, p, frame, flags).mem, r, q) == Outcome(v.mem, root, p, frame, flags, r, q)
    {
      StoreWalk(v, root, p, frame, flags, r, q);
    }
  }

  // ------------------------------------------------------------------ the steps

  /** A call that moved `taken` frames from the top of the stack into the table forest, and nothing else. */
  predicate Conserved(v: Vm, v': Vm, taken: nat) {
    && taken <= |v.free|
    && v'.free == v.free[..|v.free| - taken]
    && v'.kind.Keys + Elems(v'.free) == v.kind.Keys + Elems(v.free)
    && (forall f :: f in v.kind ==> f in v'.kind && v'.kind[f] == v.kind[f])
    && (forall f :: f in v'.kind && v'.kind[f] == Pml4 ==> v.IsSpace(f))
  }

  lemma AttachConserves(v: Vm, f: nat, i: Index, k: Kind, content: Table, w: Word)
    requires v.Ok() && v.free != [] && k != Pml4
    ensures Conserved(v, v.Attach(f, i, k, content, w), 1)
  {
    assert v.free == v.free[..|v.free| - 1] + [v.Top()];
    assert v.Top() == v.free[|v.free| - 1] && v.Top() !in v.kind;
  }

  lemma ConservedTrans(v: Vm, v': Vm, v'': Vm, taken: nat)
    requires Conserved(v, v', 1) && Conserved(v', v'', taken)
    ensures Conserved(v, v'', taken + 1)
  {}

  /** The next allocation of the call: the first missing table on the path, or the split. */
  function Step(v: Vm, root: nat, p: Path, flags: bv12): Vm {
    var w4 := Lookup(v.mem, root, p.a);
    if !w4.Present() then EnsureTable(v, root, p.a, Pdpt(p.a)) else
    var w3 := Lookup(v.mem, w4.frame, p.b);
    if !w3.Present() then EnsureTable(v, w4.frame, p.b, Pd(w4.frame, p.b)) else
    EnsureLeafTable(v, w3.frame, p.c, flags)
  }

  predicate Ready(v: Vm, root: nat, p: Path) {
    v.Ok() && v.IsSpace(root) && p.a < 511
  }

  lemma UpperStep(v: Vm, root: nat, p: Path, flags: bv12)
    requires Ready(v, root, p) && Need(v.mem, root, p) > 1 && v.free != []
    ensures var v' := Step(v, root, p, flags);
            && v'.Ok() && Conserved(v, v', 1) && SameWalks(v, v'.mem)
            && Need(v'.mem, root, p) == Need(v.mem, root, p) - 1
  {
    var w4 := Lookup(v.mem, root, p.a);
    var f, i, k := root, p.a, Pdpt(p.a);
    if w4.Present() {
      f, i, k := w4.frame, p.b, Pd(w4.frame, p.b);
    }
    var w := TableWord(v.Top());
    TableWordFields(v.Top());
    AttachOk(v, f, i, k, EmptyTable(), w);
    AttachConserves(v, f, i, k, EmptyTable(), w);
    AttachEmpty(v, f, i, k, w);
    AttachLookup(v, f, i, k, EmptyTable(), w);
    assert v.Top() == v.free[|v.free| - 1] && v.Top() !in v.kind;
    assert Step(v, root, p, flags) == v.Attach(f, i, k, EmptyTable(), w);
  }

  /** What the outcome reads of the path is what it was. */
  lemma UpperStepPath(v: Vm, root: nat, p: Path, flags: bv12, r: nat)
    requires Ready(v, root, p) && Need(v.mem, root, p) > 1 && v.free != [] && v.IsSpace(r)
    ensures var m := Step(v, root, p, flags).mem;
            && Shares(m, root, r, p.a) == Shares(v.mem, root, r, p.a)
            && !OnLeaf(m, root, p) && !OnLeaf(v.mem, root, p)
            && (Shares(v.mem, root, r, p.a) ==>
                  PathWrite(m, r, p) == PathWrite(v.mem, r, p) && PathUser(m, r, p) == PathUser(v.mem, r, p))
  {
    var w4 := Lookup(v.mem, root, p.a);
    var f, i, k := root, p.a, Pdpt(p.a);
    if w4.Present() {
      f, i, k := w4.frame, p.b, Pd(w4.frame, p.b);
    }
    TableWordFields(v.Top());
    AttachLookup(v, f, i, k, EmptyTable(), TableWord(v.Top()));
    assert v.Top() == v.free[|v.free| - 1] && v.Top() !in v.kind;
    assert Step(v, root, p, flags) == v.Attach(f, i, k, EmptyTable(), TableWord(v.Top()));
  }

  lemma UpperStepOutcome(v: Vm, root: nat, p: Path, frame: nat, flags: bv12, r: nat, q: Path)
    requires Ready(v, root, p) && Need(v.mem, root, p) > 1 && v.free != []
    requires v.IsSpace(r) && q.a < 511
    ensures Outcome(Step(v, root, p, flags).mem, root, p, frame, flags, r, q)
         == Outcome(v.mem, root, p, frame, flags, r, q)
  {
    hide Walk, Step, Need, Shares, OnLeaf, PathWrite, PathUser, Vm.Ok;
    UpperStep(v, root, p, flags);
    UpperStepPath(v, root, p, flags, r);
  }

  lemma LeafStep(v: Vm, root: nat, p: Path, flags: bv12)
    requires Ready(v, root, p) && Need(v.mem, root, p) == 1 && v.free != []
    ensures var v' := Step(v, root, p, flags);
            v'.Ok() && Conserved(v, v', 1) && Need(v'.mem, root, p) == 0
  {
    var pdpt := Lookup(v.mem, root, p.a).frame;
    var pd := Lookup(v.mem, pdpt, p.b).frame;
    var leaf := Lookup(v.mem, pd, p.c);
    var content := if leaf.Present() then SplitTable(leaf, flags) else EmptyTable();
    var w := if leaf.Present() then SplitTableWord(v.Top(), leaf) else TableWord(v.Top());
    TableWordFields(v.Top());
    SplitTableWordFields(v.Top(), leaf);
    AttachOk(v, pd, p.c, Pt(pd, p.c), content, w);
    AttachConserves(v, pd, p.c, Pt(pd, p.c), content, w);
    AttachLookup(v, pd, p.c, Pt(pd, p.c), content, w);
    assert v.Top() == v.free[|v.free| - 1] && v.Top() !in v.kind;
    assert Step(v, root, p, flags) == v.Attach(pd, p.c, Pt(pd, p.c), content, w);
  }

  lemma SplitStepOutcome(v: Vm, root: nat, p: Path, frame: nat, flags: bv12, r: nat, q: Path)
    requires Ready(v, root, p) && OnLeaf(v.mem, root, p) && v.free != []
    requires v.IsSpace(r) && q.a < 511
    ensures Outcome(Step(v, root, p, flags).mem, root, p, frame, flags, r, q)
         == Outcome(v.mem, root, p, frame, flags, r, q)
  {
    hide Walk;
    var pdpt := Lookup(v.mem, root, p.a).frame;
    var pd := Lookup(v.mem, pdpt, p.b).frame;
    var leaf := Lookup(v.mem, pd, p.c);
    assert v.IsKind(pdpt, Pdpt(p.a)) && v.IsKind(pd, Pd(pdpt, p.b));
    SplitTableWordFields(v.Top(), leaf);
    SplitLookup(v, pd, p.c, flags);
    AttachSplit(v, pd, p.c, flags, r, q);
    var m := Step(v, root, p, flags).mem;
    assert m == SplitMemory(v, pd, p.c, flags);
    assert Shares(m, root, r, p.a) == Shares(v.mem, root, r, p.a);
    assert !OnLeaf(m, root, p);
    if Shares(v.mem, root, r, p.a) {
      assert Through(v.mem, r, p, pd);
      assert PathWrite(m, r, p) == PathWrite(v.mem, r, p);
      assert PathUser(m, r, p) == PathUser(v.mem, r, p);
    }
  }

  lemma LeafStepOutcome(v: Vm, root: nat, p: Path, frame: nat, flags: bv12, r: nat, q: Path)
    requires Ready(v, root, p) && Need(v.mem, root, p) == 1 && v.free != []
    requires v.IsSpace(r) && q.a < 511
    ensures Outcome(Step(v, root, p, flags).mem, root, p, frame, flags, r, q)
         == Outcome(v.mem, root, p, frame, flags, r, q)
  {
    hide Walk;
    var pdpt := Lookup(v.mem, root, p.a).frame;
    var pd := Lookup(v.mem, pdpt, p.b).frame;
    if OnLeaf(v.mem, root, p) {
      SplitStepOutcome(v, root, p, frame, flags, r, q);
    } else {
      assert v.Top() == v.free[|v.free| - 1] && v.Top() !in v.kind;
      assert v.IsKind(pdpt, Pdpt(p.a)) && v.IsKind(pd, Pd(pdpt, p.b));
      TableWordFields(v.Top());
      AttachLookup(v, pd, p.c, Pt(pd, p.c), EmptyTable(), TableWord(v.Top()));
      AttachEmpty(v, pd, p.c, Pt(pd, p.c), TableWord(v.Top()));
    }
  }

  /** The call is its first allocation followed by the same call. */
  lemma MapPageStep(v: Vm, root: nat, p: Path, frame: nat, flags: bv12)
    requires Ready(v, root, p) && Need(v.mem, root, p) > 0 && v.free != []
    ensures Step(v, root, p, flags).Ok() && Conserved(v, Step(v, root, p, flags), 1)
    ensures Need(Step(v, root, p, flags).mem, root, p) == Need(v.mem, root, p) - 1
    ensures MapPage(v, root, p, frame, flags) == MapPage(Step(v, root, p, flags), root, p, frame, flags)
  {
    hide MapPage, Walk, Vm.Ok;
    if Need(v.mem, root, p) == 1 {
      LeafStep(v, root, p, flags);
    } else {
      UpperStep(v, root, p, flags);
    }
    TopApart(v, root, p);
    MapPageUnfold(v, root, p, frame, flags);
  }

  /** The tables on the path and the frame about to be taken are all different. */
  predicate Apart(v: Vm, root: nat, p: Path)
    requires v.free != []
  {
    var w4 := Lookup(v.mem, root, p.a);
    v.Top() != root && (w4.Present() ==>
    var w3 := Lookup(v.mem, w4.frame, p.b);
    w4.frame !in {v.Top(), root} && (w3.Present() ==> w3.frame !in {v.Top(), root, w4.frame}))
  }

  lemma TopApart(v: Vm, root: nat, p: Path)
    requires Ready(v, root, p) && v.free != []
    ensures Apart(v, root, p)
  {
    assert v.Top() == v.free[|v.free| - 1] && v.Top() !in v.kind;
  }

  lemma MapPageUnfold(v: Vm, root: nat, p: Path, frame: nat, flags: bv12)
    requires v.free != [] && Need(v.mem, root, p) > 0 && Apart(v, root, p)
    requires Need(Step(v, root, p, flags).mem, root, p) == Need(v.mem, root, p) - 1
    ensures MapPage(v, root, p, frame, flags) == MapPage(Step(v, root, p, flags), root, p, frame, flags)
  {
    TableWordFields(v.Top());
    var w4 := Lookup(v.mem, root, p.a);
    if w4.Present() && Lookup(v.mem, w4.frame, p.b).Present() {
      SplitTableWordFields(v.Top(), Lookup(v.mem, Lookup(v.mem, w4.frame, p.b).frame, p.c));
    }
  }

  // ------------------------------------------------------------------- theorems

  lemma MapPageNoFrames(v: Vm, root: nat, p: Path, frame: nat, flags: bv12)
    requires v.free == [] && Need(v.mem, root, p) > 0
    ensures MapPage(v, root, p, frame, flags) == v
  {}

  /** The invariant survives every call, and frames are conserved. */
  lemma {:induction false} MapPageConserves(v: Vm, root: nat, p: Path, frame: nat, flags: bv12)
    requires Ready(v, root, p)
    ensures MapPage(v, root, p, frame, flags).Ok()
    ensures Conserved(v, MapPage(v, root, p, frame, flags), Min(Need(v.mem, root, p), |v.free|))
    decreases Need(v.mem, root, p)
  {
    hide MapPage, Step, Walk, Outcome, Need, Vm.Ok;
    if Need(v.mem, root, p) == 0 {
      StoreOutcome(v, root, p, frame, flags);
      assert v.free[..|v.free|] == v.free;
    } else if v.free == [] {
      MapPageNoFrames(v, root, p, frame, flags);
    } else {
      var v' := Step(v, root, p, flags);
      MapPageStep(v, root, p, frame, flags);
      MapPageConserves(v', root, p, frame, flags);
      ConservedTrans(v, v', MapPage(v', root, p, frame, flags), Min(Need(v'.mem, root, p), |v'.free|));
    }
  }

  /** Enough free frames: exactly the given page changes, in exactly the spaces that share its slot. */
  lemma {:induction false} MapPageTranslates(v: Vm, root: nat, p: Path, frame: nat, flags: bv12, r: nat, q: Path)
    requires Ready(v, root, p) && Need(v.mem, root, p) <= |v.free|
    requires v.IsSpace(r) && q.a < 511
    ensures Walk(MapPage(v, root, p, frame, flags).mem, r, q) == Outcome(v.mem, root, p, frame, flags, r, q)
    decreases Need(v.mem, root, p)
  {
    hide MapPage, Step, Walk, Outcome, Need, Vm.Ok;
    if Need(v.mem, root, p) == 0 {
      StoreOutcome(v, root, p, frame, flags);
    } else {
      MapPageStep(v, root, p, frame, flags);
      if Need(v.mem, root, p) == 1 {
        LeafStepOutcome(v, root, p, frame, flags, r, q);
      } else {
        UpperStepOutcome(v, root, p, frame, flags, r, q);
      }
      MapPageTranslates(Step(v, root, p, flags), root, p, frame, flags, r, q);
    }
  }

  /** The words a call stores in an empty slot: three new tables, each present and writable, and the page. */
  lemma FirstWords(v: Vm, root: nat, p: Path, frame: nat, flags: bv12)
    requires Ready(v, root, p) && !Lookup(v.mem, root, p.a).Present() && |v.free| >= 3
    ensures var m, n := MapPage(v, root, p, frame, flags).mem, |v.free|;
            && Lookup(m, root, p.a) == Word(v.free[n - 1], 0x003)
            && Lookup(m, v.free[n - 1], p.b) == Word(v.free[n - 2], 0x003)
            && Lookup(m, v.free[n - 2], p.c) == Word(v.free[n - 3], 0x003)
            && Lookup(m, v.free[n - 3], p.d) == Word(frame, (flags & 0xf7f) | 0x001)
  {
    var n := |v.free|;
    var pdpt, pd, pt := v.free[n - 1], v.free[n - 2], v.free[n - 3];
    assert root !in {pdpt, pd, pt} && pdpt != pd && pdpt != pt && pd != pt;
    assert EmptyTable()[p.b] == ZERO && EmptyTable()[p.c] == ZERO;
    StoredBits(pdpt, ZERO, flags);
    StoredBits(pd, ZERO, flags);
    StoredBits(pt, ZERO, flags);
    StoredBits(frame, ZERO, flags);
    WordBits(Word(pdpt, 0x003));
    WordBits(Word(pd, 0x003));
    WordBits(Word(pt, 0x003));
    var v1 := v.Attach(root, p.a, Pdpt(p.a), EmptyTable(), TableWord(pdpt));
    assert EnsureTable(v, root, p.a, Pdpt(p.a)) == v1 && Lookup(v1.mem, root, p.a) == TableWord(pdpt);
    assert v1.free == v.free[..n - 1] && Lookup(v1.mem, pdpt, p.b) == ZERO;
    var v2 := v1.Attach(pdpt, p.b, Pd(pdpt, p.b), EmptyTable(), TableWord(pd));
    assert EnsureTable(v1, pdpt, p.b, Pd(pdpt, p.b)) == v2 && Lookup(v2.mem, pdpt, p.b) == TableWord(pd);
    assert v2.free == v.free[..n - 2] && Lookup(v2.mem, pd, p.c) == ZERO;
    var v3 := v2.Attach(pd, p.c, Pt(pd, p.c), EmptyTable(), TableWord(pt));
    assert EnsureLeafTable(v2, pd, p.c, flags) == v3 && Lookup(v3.mem, pd, p.c) == TableWord(pt);
    assert MapPage(v, root, p, frame, flags) == v3.Store(pt, p.d, PageWord(frame, flags));
  }

  /** So in an empty slot bit 1 of the flags makes the page writable, and no flag makes it a user's. */
  lemma FirstMapping(v: Vm, root: nat, p: Path, frame: nat, flags: bv12)
    requires Ready(v, root, p) && !Lookup(v.mem, root, p.a).Present() && |v.free| >= 3
    ensures Walk(MapPage(v, root, p, frame, flags).mem, root, p) ==
            Page(frame, flags & 0x002 != 0, false, flags & 0x018)
  {
    hide MapPage, Walk;
    FirstWords(v, root, p, frame, flags);
    WalkBits(MapPage(v, root, p, frame, flags).mem, root, p);
  }

  /** One page mapped with flags 0x003 into a fresh space. */
  lemma FirstSample()
    ensures var v := Vm(map[], [5, 4, 3, 2], map[1 := Pml4]);
            && v.Ok()
            && Walk(MapPage(v, 1, Path(1, 0, 0, 0), 9, 0x003).mem, 1, Path(1, 0, 0, 0)) == Page(9, true, false, 0)
  {
    var v := Vm(map[], [5, 4, 3, 2], map[1 := Pml4]);
    assert forall f, i: Index {:trigger Lookup(v.mem, f, i)} :: Lookup(v.mem, f, i) == ZERO;
    WordBits(ZERO);
    hide MapPage, Walk;
    FirstMapping(v, 1, Path(1, 0, 0, 0), 9, 0x003);
  }

  /** Too few free frames: no translation of any space changes. */
  lemma {:induction false} MapPageFails(v: Vm, root: nat, p: Path, frame: nat, flags: bv12, r: nat, q: Path)
    requires Ready(v, root, p) && |v.free| < Need(v.mem, root, p)
    requires v.IsSpace(r) && q.a < 511
    ensures Walk(MapPage(v, root, p, frame, flags).mem, r, q) == Walk(v.mem, r, q)
    decreases Need(v.mem, root, p)
  {
    hide MapPage, Step, Walk, Outcome, Need, Vm.Ok;
    if v.free == [] {
      MapPageNoFrames(v, root, p, frame, flags);
    } else {
      assert Need(v.mem, root, p) > 1;
      MapPageStep(v, root, p, frame, flags);
      UpperStep(v, root, p, flags);
      MapPageFails(Step(v, root, p, flags), root, p, frame, flags, r, q);
    }
  }

  /** In the states between the allocations of one call, free frames stay out of the forest. */
  predicate StepsFree(v: Vm, root: nat, p: Path) {
    var v1 := EnsureTable(v, root, p.a, Pdpt(p.a));
    var pdpt := Lookup(v1.mem, root, p.a).frame;
    v.FreeOk() && v1.FreeOk() && EnsureTable(v1, pdpt, p.b, Pd(pdpt, p.b)).FreeOk()
  }

  lemma StepsFreeOk(v: Vm, root: nat, p: Path)
    requires Ready(v, root, p)
    ensures StepsFree(v, root, p)
  {}
}
