/**
 * Who owns the frames behind user pages (osfmk/vm/paging.c:91-269).  When user
 * slots are filled by paging_alloc_and_map alone, unrelated spaces never come
 * to share a frame, over every run of mappings, clones and vforks.
 */
module Ownership {
  import opened Common
  import opened PageEntry
  import opened PageTables
  import opened MapPageProof
  import opened AddressSpaces

  /** A translated user page. */
  ghost predicate UserPage(v: Vm, r: nat, q: Path) { v.IsSpace(r) && User(q.a) && Walk(v.mem, r, q).Page? }

  /** Every user page lies in a data frame the allocator gave out. */
  ghost predicate Owned(v: Vm) {
    forall r, q: Path :: UserPage(v, r, q) ==> v.IsKind(Walk(v.mem, r, q).frame, Data)
  }

  /** Two user pages in the same frame are the same page, through the same table. */
  ghost predicate Private(v: Vm) {
    forall r, s, q: Path, q': Path ::
      UserPage(v, r, q) && UserPage(v, s, q') && Walk(v.mem, r, q).frame == Walk(v.mem, s, q').frame ==>
        q == q' && Shares(v.mem, r, s, q.a)
  }

  /** Mappings of frames the caller chooses stay out of the user slots. */
  predicate Keeps(op: Op) { op.Map? ==> !User(op.p.a) }

  predicate KeepsAll(ops: seq<Op>) { forall i :: 0 <= i < |ops| ==> Keeps(ops[i]) }

  /** A state in which no user slot is filled yet. */
  lemma EmptyPrivate(v: Vm)
    requires forall r, a: Index :: v.IsSpace(r) && User(a) ==> !Lookup(v.mem, r, a).Present()
    ensures Owned(v) && Private(v)
  {
    forall r, q: Path | v.IsSpace(r) && User(q.a) ensures Walk(v.mem, r, q) == Absent {
      AbsentWalk(v.mem, r, q);
    }
  }

  lemma PageHasTable(m: Memory, r: nat, q: Path)
    requires Walk(m, r, q).Page?
    ensures Lookup(m, r, q.a).Present()
  {}

  // -------------------------------------------------------------------- one mapping

  /** A present PML4 word is never rewritten, so spaces that share a table keep sharing it. */
  lemma SharesKept(v: Vm, root: nat, p: Path, frame: nat, flags: bv12, r: nat, s: nat, a: Index)
    requires Ready(v, root, p) && v.IsSpace(r) && v.IsSpace(s) && Shares(v.mem, r, s, a)
    ensures Shares(MapPage(v, root, p, frame, flags).mem, r, s, a)
  {
    hide MapPage, Vm.Ok;
    MapPageSlots(v, root, p, frame, flags, r, a);
    MapPageSlots(v, root, p, frame, flags, s, a);
  }

  lemma SharesJoin(m: Memory, root: nat, r: nat, s: nat, a: Index)
    requires Shares(m, root, r, a) && Shares(m, root, s, a)
    ensures Shares(m, r, s, a)
  {}

  /** What a mapping does to a user page: nothing that matters, or it is the new page with the new frame. */
  lemma UserPageAfter(v: Vm, root: nat, p: Path, frame: nat, flags: bv12, r: nat, q: Path)
    requires Ready(v, root, p) && v.IsSpace(r) && UserPage(MapPage(v, root, p, frame, flags), r, q)
    ensures var t := Walk(MapPage(v, root, p, frame, flags).mem, r, q);
            || (UserPage(v, r, q) && Walk(v.mem, r, q).frame == t.frame)
            || (q == p && t.frame == frame && Shares(v.mem, root, r, p.a))
  {
    hide MapPage, Walk, Vm.Ok, Need;
    if Need(v.mem, root, p) <= |v.free| {
      MapPageTranslates(v, root, p, frame, flags, r, q);
    } else {
      MapPageFails(v, root, p, frame, flags, r, q);
    }
  }

  lemma MapPrivate(v: Vm, root: nat, p: Path, frame: nat, flags: bv12)
    requires Ready(v, root, p) && Owned(v) && Private(v)
    requires User(p.a) ==> v.IsKind(frame, Data) && Unused(v, frame)
    ensures Owned(MapPage(v, root, p, frame, flags)) && Private(MapPage(v, root, p, frame, flags))
  {
    hide MapPage, Walk, Vm.Ok, Need;
    var v' := MapPage(v, root, p, frame, flags);
    MapPageConserves(v, root, p, frame, flags);
    forall r, q: Path | UserPage(v', r, q) ensures v'.IsKind(Walk(v'.mem, r, q).frame, Data) {
      UserPageAfter(v, root, p, frame, flags, r, q);
    }
    forall r, s, q: Path, q': Path |
      UserPage(v', r, q) && UserPage(v', s, q') && Walk(v'.mem, r, q).frame == Walk(v'.mem, s, q').frame
      ensures q == q' && Shares(v'.mem, r, s, q.a)
    {
      UserPageAfter(v, root, p, frame, flags, r, q);
      UserPageAfter(v, root, p, frame, flags, s, q');
      if Shares(v.mem, root, r, q.a) && Shares(v.mem, root, s, q.a) {
        SharesJoin(v.mem, root, r, s, q.a);
      }
      assert q == q' && Shares(v.mem, r, s, q.a);
      SharesKept(v, root, p, frame, flags, r, s, q.a);
    }
  }

  /** No user page lies in the frame. */
  ghost predicate Unused(v: Vm, frame: nat) {
    forall r, q: Path :: UserPage(v, r, q) ==> Walk(v.mem, r, q).frame != frame
  }

  // ------------------------------------------------------------------------ one step

  lemma TakePrivate(v: Vm)
    requires v.Ok() && v.free != [] && Owned(v) && Private(v)
    ensures v.Take(Data).Ok() && Owned(v.Take(Data)) && Private(v.Take(Data))
    ensures v.Take(Data).IsKind(v.Top(), Data) && Unused(v.Take(Data), v.Top())
  {
    hide Walk;
    TakeOk(v);
    assert v.Top() == v.free[|v.free| - 1] && v.Top() !in v.kind;
    forall r, q: Path | UserPage(v.Take(Data), r, q) ensures UserPage(v, r, q) {
    }
  }

  lemma NewPrivate(v: Vm, root: nat, content: Table)
    requires v.Ok() && v.IsSpace(root) && v.free != [] && CopiesSlots(v, root, content) && Owned(v) && Private(v)
    ensures Owned(NewSpace(v, content)) && Private(NewSpace(v, content))
  {
    hide Walk;
    var v' := NewSpace(v, content);
    NewSpaceOk(v, root, content);
    assert v.Top() == v.free[|v.free| - 1] && v.Top() !in v.kind;
    forall r, q: Path | UserPage(v', r, q)
      ensures UserPage(v, Source(v, root, r), q) && Walk(v'.mem, r, q) == Walk(v.mem, Source(v, root, r), q)
      ensures Lookup(v'.mem, r, q.a) == Lookup(v.mem, Source(v, root, r), q.a)
    {
      PageHasTable(v'.mem, r, q);
      NewWord(v, content, r, q.a);
    }
  }

  /** The space a space copies its words from: the new one from `root`, any other from itself. */
  ghost function Source(v: Vm, root: nat, r: nat): nat
    requires v.free != []
  {
    if r == v.Top() then root else r
  }

  lemma NewWord(v: Vm, content: Table, r: nat, a: Index)
    requires v.free != []
    ensures Lookup(NewSpace(v, content).mem, r, a) == if r == v.Top() then content[a] else Lookup(v.mem, r, a)
  {}

  lemma StepPrivate(v: Vm, op: Op)
    requires v.Ok() && Legal(v, op) && Keeps(op) && Owned(v) && Private(v)
    ensures Do(v, op).Ok() && Owned(Do(v, op)) && Private(Do(v, op))
  {
    hide Walk, MapPage, Vm.Ok, Owned, Private, Unused;
    StepOk(v, op);
    match op
    case Map(s, p, frame, flags) => MapPrivate(v, s, p, frame, flags);
    case AllocMap(s, p, flags) =>
      if v.free != [] {
        TakeOk(v);
        TakePrivate(v);
        MapPrivate(v.Take(Data), s, p, v.Top(), flags);
      }
    case CloneOf(s) =>
      if v.free != [] {
        NewPrivate(v, s, CloneTable(TableAt(v.mem, s), v.Top()));
      }
    case VforkOf(s) =>
      if v.free != [] {
        NewPrivate(v, s, VforkTable(TableAt(v.mem, s), v.Top()));
      }
  }

  // ------------------------------------------------------------- spaces stay apart

  lemma MapApart(v: Vm, root: nat, p: Path, frame: nat, flags: bv12, r: nat, s: nat)
    requires Ready(v, root, p) && v.IsSpace(r) && v.IsSpace(s) && SlotsApart(v, r, s)
    ensures SlotsApart(MapPage(v, root, p, frame, flags), r, s)
  {
    hide MapPage;
    var v' := MapPage(v, root, p, frame, flags);
    forall a: Index | User(a) && Lookup(v'.mem, r, a).Present() && Lookup(v'.mem, s, a).Present()
      ensures Lookup(v'.mem, r, a).frame != Lookup(v'.mem, s, a).frame
    {
      MapPageSlots(v, root, p, frame, flags, r, a);
      MapPageSlots(v, root, p, frame, flags, s, a);
    }
  }

  lemma StepApart(v: Vm, op: Op, r: nat, s: nat)
    requires v.Ok() && Legal(v, op) && v.IsSpace(r) && v.IsSpace(s) && SlotsApart(v, r, s)
    ensures Do(v, op).IsSpace(r) && Do(v, op).IsSpace(s) && SlotsApart(Do(v, op), r, s)
  {
    hide Walk, MapPage;
    StepOk(v, op);
    if op.Map? {
      MapApart(v, op.space, op.p, op.frame, op.flags, r, s);
    } else if op.AllocMap? && v.free != [] {
      TakeOk(v);
      MapApart(v.Take(Data), op.space, op.p, v.Top(), op.flags, r, s);
    } else if v.free != [] {
      assert v.Top() == v.free[|v.free| - 1] && v.Top() !in v.kind;
      assert forall a: Index :: Lookup(Do(v, op).mem, r, a) == Lookup(v.mem, r, a);
      assert forall a: Index :: Lookup(Do(v, op).mem, s, a) == Lookup(v.mem, s, a);
    }
  }

  // ----------------------------------------------------------------------- the result

  /**
   * Whatever any space maps, clones or forks, two spaces that do not share a
   * user table never translate user pages to the same frame.
   */
  lemma {:induction false} RunPrivate(v: Vm, ops: seq<Op>, r: nat, s: nat, q: Path, q': Path)
    requires v.Ok() && Owned(v) && Private(v) && LegalRun(v, ops) && KeepsAll(ops)
    requires v.IsSpace(r) && v.IsSpace(s) && SlotsApart(v, r, s) && User(q.a) && User(q'.a)
    ensures var t, t' := Walk(Run(v, ops).mem, r, q), Walk(Run(v, ops).mem, s, q');
            t.Page? && t'.Page? ==> t.frame != t'.frame
    decreases |ops|
  {
    hide MapPage, Walk, Vm.Ok;
    if ops != [] {
      StepPrivate(v, ops[0]);
      StepApart(v, ops[0], r, s);
      RunPrivate(Do(v, ops[0]), ops[1..], r, s, q, q');
    } else if Walk(v.mem, r, q).Page? {
      PageHasTable(v.mem, r, q);
      ApartShares(v, r, s, q.a);
      assert Walk(v.mem, s, q').Page? ==> UserPage(v, r, q) && UserPage(v, s, q');
    }
  }

  lemma ApartShares(v: Vm, r: nat, s: nat, a: Index)
    requires SlotsApart(v, r, s) && User(a)
    ensures !Shares(v.mem, r, s, a)
  {}

  /** In particular a fresh clone and its parent, over every later run of both. */
  lemma ClonePrivate(v: Vm, parent: nat, ops: seq<Op>, q: Path, q': Path)
    requires v.Ok() && Owned(v) && Private(v) && v.IsSpace(parent) && v.free != []
    requires LegalRun(Clone(v, parent), ops) && KeepsAll(ops) && User(q.a) && User(q'.a)
    ensures var m := Run(Clone(v, parent), ops).mem;
            var t, t' := Walk(m, parent, q), Walk(m, v.Top(), q');
            t.Page? && t'.Page? ==> t.frame != t'.frame
  {
    hide MapPage, Walk, Owned, Private;
    var c := Clone(v, parent);
    CloneTranslates(v, parent);
    NewPrivate(v, parent, CloneTable(TableAt(v.mem, parent), v.Top()));
    assert forall a: Index :: User(a) ==> !Lookup(c.mem, v.Top(), a).Present();
    RunPrivate(c, ops, parent, v.Top(), q, q');
  }
}
