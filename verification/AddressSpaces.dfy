/**
 * Cloned address spaces and runs over many of them (osfmk/vm/paging.c:198-269).
 */
module AddressSpaces {
  import opened PageEntry
  import opened PageTables
  import opened MapPageProof

  /** The PML4 that paging_clone_pd fills: slot 0 and the kernel half shared, 1..255 empty. */
  function CloneTable(src: Table, t: nat): Table {
    seq(512, i requires 0 <= i < 512 =>
      if i == 511 then TableWord(t) else if i == 0 || i >= 256 then src[i] else ZERO)
  }

  /** The PML4 that paging_vfork_clone fills: every slot but the self-reference shared. */
  function VforkTable(src: Table, t: nat): Table {
    seq(512, i requires 0 <= i < 512 => if i == 511 then TableWord(t) else src[i])
  }

  /** A new space filled with `content`; without a free frame nothing happens. */
  function NewSpace(v: Vm, content: Table): Vm
    requires v.free != []
  {
    Vm(v.mem[v.Top() := content], v.free[..|v.free| - 1], v.kind[v.Top() := Pml4])
  }

  function Clone(v: Vm, root: nat): Vm {
    if v.free == [] then v else NewSpace(v, CloneTable(TableAt(v.mem, root), v.Top()))
  }

  function Vfork(v: Vm, root: nat): Vm {
    if v.free == [] then v else NewSpace(v, VforkTable(TableAt(v.mem, root), v.Top()))
  }

  /** paging_alloc_and_map: a data frame, then the mapping, whose own failure goes unnoticed. */
  function AllocAndMap(v: Vm, root: nat, p: Path, flags: bv12): Vm {
    if v.free == [] then v else MapPage(v.Take(Data), root, p, v.Top(), flags)
  }

  // --------------------------------------------------------------------- clones

  /** A slot of the new table is absent or copies the same slot of a space. */
  predicate CopiesSlots(v: Vm, root: nat, content: Table) {
    forall a: Index :: a < 511 ==> !content[a].Present() || content[a] == Lookup(v.mem, root, a)
  }

  lemma NewSpaceOk(v: Vm, root: nat, content: Table)
    requires v.Ok() && v.IsSpace(root) && v.free != [] && CopiesSlots(v, root, content)
    ensures NewSpace(v, content).Ok() && NewSpace(v, content).IsSpace(v.Top())
    ensures forall r, q: Path :: v.IsSpace(r) && q.a < 511 ==>
              Walk(NewSpace(v, content).mem, r, q) == Walk(v.mem, r, q)
    ensures forall q: Path :: q.a < 511 ==>
              Walk(NewSpace(v, content).mem, v.Top(), q) ==
              (if content[q.a].Present() then Walk(v.mem, root, q) else Absent)
  {
    var v' := NewSpace(v, content);
    assert v.Top() == v.free[|v.free| - 1] && v.Top() !in v.kind;
    assert forall g, j: Index {:trigger Lookup(v'.mem, g, j)} ::
      Lookup(v'.mem, g, j) == (if g == v.Top() then content[j] else Lookup(v.mem, g, j));
    forall r, q: Path | v.IsSpace(r) && q.a < 511 ensures Walk(v'.mem, r, q) == Walk(v.mem, r, q) {
      SubtreeUntouched(v, v', r, q);
    }
    forall q: Path | q.a < 511
      ensures Walk(v'.mem, v.Top(), q) == (if content[q.a].Present() then Walk(v.mem, root, q) else Absent)
    {
      SubtreeUntouched(v, v', root, q);
    }
  }

  lemma SubtreeUntouched(v: Vm, v': Vm, r: nat, q: Path)
    requires v.Ok() && v.IsSpace(r) && q.a < 511 && v.free != []
    requires forall g, j: Index :: g in v.kind ==> Lookup(v'.mem, g, j) == Lookup(v.mem, g, j)
    ensures Walk(v'.mem, r, q) == Walk(v.mem, r, q)
    ensures Lookup(v.mem, r, q.a).Present() ==>
              WalkPdpt(v'.mem, Lookup(v.mem, r, q.a).frame, q.b, q.c, q.d) ==
              WalkPdpt(v.mem, Lookup(v.mem, r, q.a).frame, q.b, q.c, q.d)
  {}

  /** The clone translates slot 0 and the kernel half as its parent does, and nothing in slots 1..255. */
  lemma CloneTranslates(v: Vm, root: nat)
    requires v.Ok() && v.IsSpace(root) && v.free != []
    ensures Clone(v, root).Ok() && Clone(v, root).IsSpace(v.Top()) && !v.IsSpace(v.Top())
    ensures forall q: Path :: q.a < 511 ==>
              Walk(Clone(v, root).mem, v.Top(), q) ==
              (if q.a == 0 || q.a >= 256 then Walk(v.mem, root, q) else Absent)
    ensures forall r, q: Path :: v.IsSpace(r) && q.a < 511 ==>
              Walk(Clone(v, root).mem, r, q) == Walk(v.mem, r, q)
  {
    NewSpaceOk(v, root, CloneTable(TableAt(v.mem, root), v.Top()));
    assert v.Top() == v.free[|v.free| - 1] && v.Top() !in v.kind;
  }

  /** The vfork child translates every slot below 511 as its parent does. */
  lemma VforkTranslates(v: Vm, root: nat)
    requires v.Ok() && v.IsSpace(root) && v.free != []
    ensures Vfork(v, root).Ok() && Vfork(v, root).IsSpace(v.Top()) && !v.IsSpace(v.Top())
    ensures forall q: Path :: q.a < 511 ==> Walk(Vfork(v, root).mem, v.Top(), q) == Walk(v.mem, root, q)
    ensures forall r, q: Path :: v.IsSpace(r) && q.a < 511 ==>
              Walk(Vfork(v, root).mem, r, q) == Walk(v.mem, r, q)
  {
    NewSpaceOk(v, root, VforkTable(TableAt(v.mem, root), v.Top()));
    assert v.Top() == v.free[|v.free| - 1] && v.Top() !in v.kind;
  }

  /** Every slot of the two new tables, the self-reference in slot 511 included; no other table changes. */
  lemma NewSlots(v: Vm, root: nat, f: nat, a: Index)
    requires v.free != []
    ensures var w := Lookup(v.mem, root, a);
            Lookup(Clone(v, root).mem, f, a) ==
            if f != v.Top() then Lookup(v.mem, f, a)
            else if a == 511 then Word(v.Top(), 0x003) else if a == 0 || 256 <= a then w else Word(0, 0)
    ensures Lookup(Vfork(v, root).mem, f, a) ==
            if f != v.Top() then Lookup(v.mem, f, a)
            else if a == 511 then Word(v.Top(), 0x003) else Lookup(v.mem, root, a)
  {
    StoredBits(v.Top(), ZERO, 0);
  }

  // ----------------------------------------------------------------------- runs

  datatype Op =
    | Map(space: nat, p: Path, frame: nat, flags: bv12)
    | AllocMap(space: nat, p: Path, flags: bv12)
    | CloneOf(space: nat)
    | VforkOf(space: nat)

  function Do(v: Vm, op: Op): Vm {
    match op
    case Map(s, p, frame, flags) => MapPage(v, s, p, frame, flags)
    case AllocMap(s, p, flags) => AllocAndMap(v, s, p, flags)
    case CloneOf(s) => Clone(v, s)
    case VforkOf(s) => Vfork(v, s)
  }

  predicate Legal(v: Vm, op: Op) {
    v.IsSpace(op.space) && (op.Map? || op.AllocMap? ==> op.p.a < 511)
  }

  function Run(v: Vm, ops: seq<Op>): Vm
    decreases |ops|
  {
    if ops == [] then v else Run(Do(v, ops[0]), ops[1..])
  }

  predicate LegalRun(v: Vm, ops: seq<Op>)
    decreases |ops|
  {
    ops == [] || (Legal(v, ops[0]) && LegalRun(Do(v, ops[0]), ops[1..]))
  }

  lemma TakeOk(v: Vm)
    requires v.Ok() && v.free != []
    ensures v.Take(Data).Ok()
    ensures forall r :: v.IsSpace(r) <==> v.Take(Data).IsSpace(r)
    ensures v.Take(Data).mem == v.mem
  {
    assert v.Top() == v.free[|v.free| - 1] && v.Top() !in v.kind;
  }

  lemma TakeIfAny(v: Vm)
    requires v.Ok()
    ensures v.FreeOk()
    ensures v.free != [] ==> v.Take(Data).Ok()
    ensures forall r :: v.free != [] && v.IsSpace(r) ==> v.Take(Data).IsSpace(r)
  {
    if v.free != [] {
      TakeOk(v);
    }
  }

  lemma CloneOk(v: Vm, root: nat)
    requires v.Ok() && v.IsSpace(root)
    ensures Clone(v, root).Ok() && Clone(v, root).IsSpace(root) && (v.free != [] ==> v.Top() != root)
  {
    if v.free != [] {
      CloneTranslates(v, root);
    }
  }

  lemma VforkOk(v: Vm, root: nat)
    requires v.Ok() && v.IsSpace(root)
    ensures Vfork(v, root).Ok() && Vfork(v, root).IsSpace(root) && (v.free != [] ==> v.Top() != root)
  {
    if v.free != [] {
      VforkTranslates(v, root);
    }
  }

  lemma StepOk(v: Vm, op: Op)
    requires v.Ok() && Legal(v, op)
    ensures Do(v, op).Ok()
    ensures forall r :: v.IsSpace(r) ==> Do(v, op).IsSpace(r)
  {
    match op
    case Map(s, p, frame, flags) => MapPageConserves(v, s, p, frame, flags);
    case AllocMap(s, p, flags) =>
      if v.free != [] {
        TakeOk(v);
        MapPageConserves(v.Take(Data), s, p, v.Top(), flags);
      }
    case CloneOf(s) => if v.free != [] { CloneTranslates(v, s); }
    case VforkOf(s) => if v.free != [] { VforkTranslates(v, s); }
  }

  /** The forest invariant holds in every state of every run. */
  lemma {:induction false} RunOk(v: Vm, ops: seq<Op>)
    requires v.Ok() && LegalRun(v, ops)
    ensures Run(v, ops).Ok()
    decreases |ops|
  {
    if ops != [] {
      StepOk(v, ops[0]);
      RunOk(Do(v, ops[0]), ops[1..]);
    }
  }

  // ------------------------------------------------------------------ isolation

  predicate User(a: Index) { 1 <= a < 256 }

  /** No user slot of `s` hangs a table that `other` hangs there too. */
  predicate SlotsApart(v: Vm, s: nat, other: nat) {
    s != other &&
    forall a: Index :: User(a) && Lookup(v.mem, s, a).Present() && Lookup(v.mem, other, a).Present()
                       ==> Lookup(v.mem, s, a).frame != Lookup(v.mem, other, a).frame
  }

  predicate AllApart(v: Vm, family: set<nat>, other: nat) {
    forall s :: s in family ==> v.IsSpace(s) && SlotsApart(v, s, other)
  }

  /** A step made by a member of the family, in its user slots. */
  predicate Inside(family: set<nat>, op: Op) {
    op.space in family && (op.Map? || op.AllocMap? ==> User(op.p.a))
  }

  /** The family after a step: clones and vfork children join it. */
  function Joined(v: Vm, family: set<nat>, op: Op): set<nat> {
    if (op.CloneOf? || op.VforkOf?) && v.free != [] then family + {v.Top()} else family
  }

  predicate InsideRun(v: Vm, family: set<nat>, ops: seq<Op>)
    decreases |ops|
  {
    ops == [] || (Inside(family, ops[0]) && InsideRun(Do(v, ops[0]), Joined(v, family, ops[0]), ops[1..]))
  }

  /** A call writes no PML4 word but an absent one of its own, and that gets a table word with a frame nothing used. */
  lemma {:induction false} MapPageSlots(v: Vm, root: nat, p: Path, frame: nat, flags: bv12, r: nat, a: Index)
    requires Ready(v, root, p) && v.IsSpace(r)
    ensures var w, w' := Lookup(v.mem, r, a), Lookup(MapPage(v, root, p, frame, flags).mem, r, a);
            w' == w || (r == root && a == p.a && !w.Present() && w'.frame !in v.kind && w' == Word(w'.frame, 0x003))
    decreases Need(v.mem, root, p)
  {
    if Need(v.mem, root, p) == 0 {
      PathKinds(v, root, p);
      StoreLookup(v, LeafTable(v.mem, root, p), p.d, PageWord(frame, flags));
    } else if v.free != [] {
      MapPageStep(v, root, p, frame, flags);
      StepSlots(v, root, p, flags, r, a);
      MapPageSlots(Step(v, root, p, flags), root, p, frame, flags, r, a);
    }
  }

  lemma StepSlots(v: Vm, root: nat, p: Path, flags: bv12, r: nat, a: Index)
    requires Ready(v, root, p) && v.IsSpace(r) && Need(v.mem, root, p) > 0 && v.free != []
    ensures var w, w' := Lookup(v.mem, r, a), Lookup(Step(v, root, p, flags).mem, r, a);
            || w' == w
            || (r == root && a == p.a && !w.Present() && w'.Present() && w'.frame !in v.kind
                && w' == Word(w'.frame, 0x003))
  {
    assert v.Top() == v.free[|v.free| - 1] && v.Top() !in v.kind;
    TableWordFields(v.Top());
  }

  lemma StepIsolated(v: Vm, family: set<nat>, other: nat, op: Op)
    requires v.Ok() && v.IsSpace(other) && AllApart(v, family, other) && Inside(family, op)
    ensures Do(v, op).Ok() && Do(v, op).IsSpace(other)
    ensures AllApart(Do(v, op), Joined(v, family, op), other)
    ensures forall q: Path :: q.a < 511 ==> Walk(Do(v, op).mem, other, q) == Walk(v.mem, other, q)
  {
    StepOk(v, op);
    match op
    case Map(s, p, frame, flags) => MapIsolated(v, family, other, s, p, frame, flags);
    case AllocMap(s, p, flags) =>
      if v.free != [] {
        TakeOk(v);
        MapIsolated(v.Take(Data), family, other, s, p, v.Top(), flags);
      }
    case CloneOf(s) =>
      if v.free != [] {
        CloneTranslates(v, s);
        NewIsolated(v, family, other, s, CloneTable(TableAt(v.mem, s), v.Top()));
      }
    case VforkOf(s) =>
      if v.free != [] {
        VforkTranslates(v, s);
        NewIsolated(v, family, other, s, VforkTable(TableAt(v.mem, s), v.Top()));
      }
  }

  lemma MapIsolated(v: Vm, family: set<nat>, other: nat, s: nat, p: Path, frame: nat, flags: bv12)
    requires v.Ok() && v.IsSpace(other) && AllApart(v, family, other) && s in family && User(p.a)
    ensures AllApart(MapPage(v, s, p, frame, flags), family, other)
    ensures forall q: Path :: q.a < 511 ==>
              Walk(MapPage(v, s, p, frame, flags).mem, other, q) == Walk(v.mem, other, q)
  {
    var v' := MapPage(v, s, p, frame, flags);
    MapPageConserves(v, s, p, frame, flags);
    forall r | r in family ensures v'.IsSpace(r) && SlotsApart(v', r, other) {
      forall a: Index | User(a) && Lookup(v'.mem, r, a).Present() && Lookup(v'.mem, other, a).Present()
        ensures Lookup(v'.mem, r, a).frame != Lookup(v'.mem, other, a).frame
      {
        MapPageSlots(v, s, p, frame, flags, r, a);
        MapPageSlots(v, s, p, frame, flags, other, a);
      }
    }
    forall q: Path | q.a < 511 ensures Walk(v'.mem, other, q) == Walk(v.mem, other, q) {
      if Need(v.mem, s, p) <= |v.free| {
        MapPageTranslates(v, s, p, frame, flags, other, q);
        assert !Shares(v.mem, s, other, p.a);
      } else {
        MapPageFails(v, s, p, frame, flags, other, q);
      }
    }
  }

  lemma NewIsolated(v: Vm, family: set<nat>, other: nat, s: nat, content: Table)
    requires v.Ok() && v.IsSpace(other) && AllApart(v, family, other) && s in family && v.free != []
    requires CopiesSlots(v, s, content)
    ensures AllApart(NewSpace(v, content), family + {v.Top()}, other)
  {
    var v' := NewSpace(v, content);
    assert v.Top() == v.free[|v.free| - 1] && v.Top() !in v.kind;
    assert forall g, j: Index {:trigger Lookup(v'.mem, g, j)} ::
      Lookup(v'.mem, g, j) == (if g == v.Top() then content[j] else Lookup(v.mem, g, j));
  }

  /** Whatever a family apart from `other` maps or spawns, no translation of `other` changes. */
  lemma {:induction false} RunIsolated(v: Vm, family: set<nat>, other: nat, ops: seq<Op>, q: Path)
    requires v.Ok() && v.IsSpace(other) && AllApart(v, family, other) && InsideRun(v, family, ops)
    requires q.a < 511
    ensures Walk(Run(v, ops).mem, other, q) == Walk(v.mem, other, q)
    decreases |ops|
  {
    if ops != [] {
      StepIsolated(v, family, other, ops[0]);
      RunIsolated(Do(v, ops[0]), Joined(v, family, ops[0]), other, ops[1..], q);
    }
  }

  /** A fresh clone and its parent cannot reach each other through user slots, in either direction. */
  lemma CloneIsolated(v: Vm, parent: nat, ops: seq<Op>, q: Path)
    requires v.Ok() && v.IsSpace(parent) && v.free != [] && q.a < 511
    ensures var c := Clone(v, parent);
            && (InsideRun(c, {v.Top()}, ops) ==> Walk(Run(c, ops).mem, parent, q) == Walk(v.mem, parent, q))
            && (InsideRun(c, {parent}, ops) ==> Walk(Run(c, ops).mem, v.Top(), q) == Walk(c.mem, v.Top(), q))
  {
    var c, child := Clone(v, parent), v.Top();
    CloneTranslates(v, parent);
    assert forall a: Index :: User(a) ==> !Lookup(c.mem, child, a).Present();
    assert SlotsApart(c, child, parent) && SlotsApart(c, parent, child);
    if InsideRun(c, {child}, ops) {
      RunIsolated(c, {child}, parent, ops, q);
    }
    if InsideRun(c, {parent}, ops) {
      RunIsolated(c, {parent}, child, ops, q);
    }
  }

  /** Same frame and same rights; the caching bits may differ. */
  predicate Kept(t: Translation, t': Translation) {
    if t.Absent? then t'.Absent? else t'.Page? && t'.frame == t.frame && t'.write == t.write && t'.user == t.user
  }

  // --------------------------------------------------------- sharing and failure

  /** A shared slot is a snapshot: later mappings of the parent reach the clone exactly if the slot had a table. */
  lemma CloneSeesLater(v: Vm, parent: nat, p: Path, frame: nat, flags: bv12)
    requires v.Ok() && v.IsSpace(parent) && v.free != [] && (p.a == 0 || 256 <= p.a < 511)
    requires Need(v.mem, parent, p) < |v.free|
    ensures var c := Clone(v, parent);
            var t := Walk(MapPage(c, parent, p, frame, flags).mem, v.Top(), p);
            if Lookup(v.mem, parent, p.a).Present() then t.Page? && t.frame == frame else t == Absent
  {
    hide Walk, MapPage;
    var c := Clone(v, parent);
    CloneTranslates(v, parent);
    CloneWords(v, parent, p.a);
    SameNeed(v, c, parent, p);
    MapPageTranslates(c, parent, p, frame, flags, v.Top(), p);
    AbsentWalk(c.mem, v.Top(), p);
  }

  /** A kernel page mapped in the parent after the clone, in a slot that was empty, is missing from the clone. */
  lemma CloneMissesLater(frame: nat, flags: bv12)
    ensures var v, p := Vm(map[], [5, 4, 3, 2], map[1 := Pml4]), Path(256, 0, 0, 0);
            var late := MapPage(Clone(v, 1), 1, p, frame, flags).mem;
            v.Ok() && v.IsSpace(1) && Walk(late, 1, p).Page? && Walk(late, v.Top(), p) == Absent
  {
    hide Walk, MapPage;
    var v, p := Vm(map[], [5, 4, 3, 2], map[1 := Pml4]), Path(256, 0, 0, 0);
    assert v.Top() == 2 && !Lookup(v.mem, 1, p.a).Present();
    CloneSeesLater(v, 1, p, frame, flags);
    CloneTranslates(v, 1);
    SameNeed(v, Clone(v, 1), 1, p);
    ThisPageMapped(Clone(v, 1), 1, p, frame, flags);
  }

  // ------------------------------------------------------------ the missing user bit

  /** The tables in the user slots of a space do not admit user accesses. */
  predicate NoUser(v: Vm, s: nat) {
    forall a: Index :: User(a) && Lookup(v.mem, s, a).Present() ==> !Lookup(v.mem, s, a).UserOk()
  }

  predicate NoneUser(v: Vm, family: set<nat>) { forall s :: s in family ==> v.IsSpace(s) && NoUser(v, s) }

  lemma MapNoUser(v: Vm, family: set<nat>, s: nat, p: Path, frame: nat, flags: bv12)
    requires v.Ok() && NoneUser(v, family) && s in family && p.a < 511
    ensures NoneUser(MapPage(v, s, p, frame, flags), family)
  {
    var v' := MapPage(v, s, p, frame, flags);
    MapPageConserves(v, s, p, frame, flags);
    forall r, a: Index | r in family && User(a) && Lookup(v'.mem, r, a).Present()
      ensures !Lookup(v'.mem, r, a).UserOk()
    {
      MapPageSlots(v, s, p, frame, flags, r, a);
      TableWordFields(Lookup(v'.mem, r, a).frame);
    }
  }

  lemma StepNoUser(v: Vm, family: set<nat>, op: Op)
    requires v.Ok() && NoneUser(v, family) && Inside(family, op)
    ensures Do(v, op).Ok() && NoneUser(Do(v, op), Joined(v, family, op))
  {
    hide Walk, MapPage;
    StepOk(v, op);
    match op
    case Map(s, p, frame, flags) => MapNoUser(v, family, s, p, frame, flags);
    case AllocMap(s, p, flags) =>
      if v.free != [] {
        TakeOk(v);
        MapNoUser(v.Take(Data), family, s, p, v.Top(), flags);
      }
    case CloneOf(s) =>
      if v.free != [] {
        CloneTranslates(v, s);
        NewNoUser(v, family, s, CloneTable(TableAt(v.mem, s), v.Top()));
      }
    case VforkOf(s) =>
      if v.free != [] {
        VforkTranslates(v, s);
        NewNoUser(v, family, s, VforkTable(TableAt(v.mem, s), v.Top()));
      }
  }

  lemma NewNoUser(v: Vm, family: set<nat>, s: nat, content: Table)
    requires v.Ok() && NoneUser(v, family) && s in family && v.free != [] && CopiesSlots(v, s, content)
    ensures NoneUser(NewSpace(v, content), family + {v.Top()})
  {
    var v' := NewSpace(v, content);
    assert v.Top() == v.free[|v.free| - 1] && v.Top() !in v.kind;
    assert forall g, j: Index {:trigger Lookup(v'.mem, g, j)} ::
      Lookup(v'.mem, g, j) == (if g == v.Top() then content[j] else Lookup(v.mem, g, j));
  }

  lemma {:induction false} RunNoUser(v: Vm, family: set<nat>, ops: seq<Op>, s: nat, q: Path)
    requires v.Ok() && NoneUser(v, family) && InsideRun(v, family, ops) && s in family && User(q.a)
    ensures var t := Walk(Run(v, ops).mem, s, q); t.Page? ==> !t.user
    decreases |ops|
  {
    hide MapPage;
    if ops != [] {
      StepNoUser(v, family, ops[0]);
      RunNoUser(Do(v, ops[0]), Joined(v, family, ops[0]), ops[1..], s, q);
    }
  }

  /**
   * Whatever is mapped in a fresh clone's user slots, with PAGE_USER or
   * without, no page there is ever accessible to user code: the tables the
   * editor creates lack the bit.
   */
  lemma CloneNeverUser(v: Vm, parent: nat, ops: seq<Op>, q: Path)
    requires v.Ok() && v.IsSpace(parent) && v.free != [] && InsideRun(Clone(v, parent), {v.Top()}, ops) && User(q.a)
    ensures var t := Walk(Run(Clone(v, parent), ops).mem, v.Top(), q); t.Page? ==> !t.user
  {
    hide Walk, MapPage;
    var c := Clone(v, parent);
    CloneTranslates(v, parent);
    assert forall a: Index :: User(a) ==> !Lookup(c.mem, v.Top(), a).Present();
    RunNoUser(c, {v.Top()}, ops, v.Top(), q);
  }

  lemma CloneWords(v: Vm, parent: nat, a: Index)
    requires v.free != [] && v.Top() != parent && (a == 0 || 256 <= a < 511)
    ensures var m := Clone(v, parent).mem; Lookup(m, v.Top(), a) == Lookup(m, parent, a) == Lookup(v.mem, parent, a)
  {}

  lemma SameNeed(v: Vm, c: Vm, root: nat, p: Path)
    requires v.Ok() && v.IsSpace(root) && p.a < 511 && v.free != [] && c == Clone(v, root)
    ensures Need(c.mem, root, p) == Need(v.mem, root, p)
  {
    assert v.Top() == v.free[|v.free| - 1] && v.Top() !in v.kind;
    assert forall g, j: Index {:trigger Lookup(c.mem, g, j)} :: g in v.kind ==>
           Lookup(c.mem, g, j) == Lookup(v.mem, g, j);
  }

  lemma AbsentWalk(m: Memory, r: nat, q: Path)
    ensures !Lookup(m, r, q.a).Present() ==> Walk(m, r, q) == Absent
  {}

  lemma OtherPageKept(v: Vm, root: nat, p: Path, f: nat, flags: bv12, r: nat, q: Path)
    requires Ready(v, root, p) && v.IsSpace(r) && q.a < 511 && q != p
    ensures Kept(Walk(v.mem, r, q), Walk(MapPage(v, root, p, f, flags).mem, r, q))
  {
    if Need(v.mem, root, p) <= |v.free| {
      MapPageTranslates(v, root, p, f, flags, r, q);
    } else {
      MapPageFails(v, root, p, f, flags, r, q);
    }
  }

  lemma ThisPageMapped(v: Vm, root: nat, p: Path, f: nat, flags: bv12)
    requires Ready(v, root, p) && Need(v.mem, root, p) <= |v.free|
    ensures var t := Walk(MapPage(v, root, p, f, flags).mem, root, p); t.Page? && t.frame == f
  {
    MapPageTranslates(v, root, p, f, flags, root, p);
  }

  /**
   * paging_alloc_and_map maps the page exactly when the stack also holds the
   * tables it needs; otherwise no translation of any space changes.
   */
  lemma AllocAndMapExact(v: Vm, root: nat, p: Path, flags: bv12, r: nat, q: Path)
    requires v.Ok() && v.IsSpace(root) && p.a < 511 && v.free != [] && v.IsSpace(r) && q.a < 511
    ensures Walk(AllocAndMap(v, root, p, flags).mem, r, q) ==
            if Need(v.mem, root, p) < |v.free| then Outcome(v.mem, root, p, v.Top(), flags, r, q) else Walk(v.mem, r, q)
    ensures Need(v.mem, root, p) < |v.free| ==>
              var t := Walk(AllocAndMap(v, root, p, flags).mem, root, p); t.Page? && t.frame == v.Top()
  {
    hide Walk, MapPage, Need, Vm.Ok;
    TakeOk(v);
    if Need(v.mem, root, p) < |v.free| {
      MapPageTranslates(v.Take(Data), root, p, v.Top(), flags, r, q);
      ThisPageMapped(v.Take(Data), root, p, v.Top(), flags);
    } else {
      MapPageFails(v.Take(Data), root, p, v.Top(), flags, r, q);
    }
  }

  /** With one free frame and an empty space it hands out the frame and maps nothing. */
  lemma AllocAndMapSilent(p: Path, flags: bv12)
    requires p.a < 511
    ensures var v := Vm(map[], [2], map[1 := Pml4]);
            v.Ok() && v.IsSpace(1) && v.Top() != 0 && Walk(AllocAndMap(v, 1, p, flags).mem, 1, p) == Absent
  {
    var v := Vm(map[], [2], map[1 := Pml4]);
    AllocAndMapExact(v, 1, p, flags, 1, p);
  }
}
