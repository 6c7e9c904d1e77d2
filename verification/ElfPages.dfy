/**
 * The mapping pass of elf_load (bsd/kern/elf/elf.c:84-102) as a function on
 * address spaces, and how many free frames it takes.
 */
module ElfPages {
  import opened Common
  import opened PageEntry
  import opened PageTables
  import opened ElfImage
  import opened MapPageProof
  import opened AddressSpaces

  // ---------------------------------------------------------- what a pass leaves

  /** Page `n` of space `root` lies in data frame `f`. */
  ghost predicate Found(v: Vm, root: nat, n: nat, f: nat) {
    n < PAGES && v.IsKind(f, Data) &&
    var t := Walk(v.mem, root, PageAt(n)); t.Page? && t.frame == f
  }

  /** The space maps the pages of the view to distinct data frames. */
  ghost predicate Shows(v: Vm, root: nat, view: View) {
    Injective(view) && forall n :: n in view ==> Found(v, root, n, view[n])
  }

  predicate Paged(ns: seq<nat>) { forall i :: 0 <= i < |ns| ==> ns[i] < PAGES }

  /** One turn: paging_alloc_and_map of page `n` with the flags elf_load passes. */
  ghost function Next(v: Vm, root: nat, n: nat): Vm
    requires n < PAGES
  {
    AllocAndMap(v, root, PageAt(n), 0x006)
  }

  /** The space after the pass over the pages `ns`. */
  ghost function MapPages(v: Vm, root: nat, ns: seq<nat>): Vm
    requires Paged(ns)
    decreases |ns|
  {
    if ns == [] then v else MapPages(Next(v, root, ns[0]), root, ns[1..])
  }

  /** paging_alloc_and_map never returns 0: the pass goes through. */
  ghost predicate Goes(v: Vm, root: nat, ns: seq<nat>)
    requires Paged(ns)
    decreases |ns|
  {
    ns == [] || (v.free != [] && Goes(Next(v, root, ns[0]), root, ns[1..]))
  }

  /** Every turn finds its data frame and the tables it needs. */
  ghost predicate Enough(v: Vm, root: nat, ns: seq<nat>)
    requires Paged(ns)
    decreases |ns|
  {
    ns == [] || (Need(v.mem, root, PageAt(ns[0])) < |v.free| && Enough(Next(v, root, ns[0]), root, ns[1..]))
  }

  // ------------------------------------------------------------------- one turn

  lemma NextOk(v: Vm, root: nat, n: nat)
    requires v.Ok() && v.IsSpace(root) && n < PAGES
    ensures var v' := Next(v, root, n);
            && v'.Ok() && v'.IsSpace(root)
            && |v'.free| == |v.free| - Min(1 + Need(v.mem, root, PageAt(n)), |v.free|)
  {
    hide Walk, MapPage, Number;
    if v.free != [] {
      TakeOk(v);
      MapPageConserves(v.Take(Data), root, PageAt(n), v.Top(), 0x006);
    }
  }

  lemma NextFound(v: Vm, root: nat, n: nat)
    requires v.Ok() && v.IsSpace(root) && n < PAGES && Need(v.mem, root, PageAt(n)) < |v.free|
    ensures var v' := Next(v, root, n);
            && Found(v', root, n, v.Top()) && v.Top() !in v.kind
            && forall x, f :: x != n && Found(v, root, x, f) ==> Found(v', root, x, f)
  {
    hide Walk, MapPage, Number, Need;
    var w := v.Take(Data);
    TakeOk(v);
    var p := PageAt(n);
    MapPageConserves(w, root, p, v.Top(), 0x006);
    ThisPageMapped(w, root, p, v.Top(), 0x006);
    assert v.Top() == v.free[|v.free| - 1];
    forall x, f | x != n && Found(v, root, x, f) ensures Found(Next(v, root, n), root, x, f) {
      OtherPageKept(w, root, p, v.Top(), 0x006, root, PageAt(x));
    }
  }

  /** The page is mapped with every right that the tables on its path allow, and cached. */
  lemma NextRights(v: Vm, root: nat, n: nat)
    requires v.Ok() && v.IsSpace(root) && n < PAGES && Need(v.mem, root, PageAt(n)) < |v.free|
    ensures Walk(Next(v, root, n).mem, root, PageAt(n)) ==
            Page(v.Top(), PathWrite(v.mem, root, PageAt(n)), PathUser(v.mem, root, PageAt(n)), 0)
  {
    hide Walk, Need, Vm.Ok, PathWrite, PathUser;
    AllocAndMapExact(v, root, PageAt(n), 0x006, root, PageAt(n));
  }

  lemma NextShows(v: Vm, root: nat, view: View, n: nat)
    requires v.Ok() && v.IsSpace(root) && n < PAGES && Need(v.mem, root, PageAt(n)) < |v.free| && Shows(v, root, view)
    ensures Shows(Next(v, root, n), root, view[n := v.Top()])
  {
    hide Found, Vm.Ok, Next, Need, Number;
    NextFound(v, root, n);
    FoundData(v, root, view);
  }

  lemma FoundData(v: Vm, root: nat, view: View)
    requires Shows(v, root, view)
    ensures forall k :: k in view ==> view[k] in v.kind
  {}

  // ------------------------------------------------------------------ whole passes

  /** The frames the pages end up in, when there are enough. */
  ghost function ViewAfter(v: Vm, root: nat, view: View, ns: seq<nat>): View
    requires Paged(ns) && Enough(v, root, ns)
    decreases |ns|
  {
    if ns == [] then view else ViewAfter(Next(v, root, ns[0]), root, view[ns[0] := v.Top()], ns[1..])
  }

  lemma {:induction false} MapPagesOk(v: Vm, root: nat, ns: seq<nat>)
    requires v.Ok() && v.IsSpace(root) && Paged(ns)
    ensures MapPages(v, root, ns).Ok() && MapPages(v, root, ns).IsSpace(root)
    decreases |ns|
  {
    hide Vm.Ok, Next, Number;
    if ns != [] {
      NextOk(v, root, ns[0]);
      MapPagesOk(Next(v, root, ns[0]), root, ns[1..]);
    }
  }

  /** With enough frames every visited page gets a data frame of its own, and pages found before stay found. */
  lemma {:induction false} MapPagesShows(v: Vm, root: nat, view: View, ns: seq<nat>)
    requires v.Ok() && v.IsSpace(root) && Paged(ns) && Enough(v, root, ns) && Shows(v, root, view)
    ensures Shows(MapPages(v, root, ns), root, ViewAfter(v, root, view, ns))
    ensures ViewAfter(v, root, view, ns).Keys == view.Keys + Elems(ns)
    decreases |ns|
  {
    hide Vm.Ok, Next, Number, Shows, Need;
    if ns != [] {
      NextOk(v, root, ns[0]);
      NextShows(v, root, view, ns[0]);
      MapPagesShows(Next(v, root, ns[0]), root, view[ns[0] := v.Top()], ns[1..]);
      assert ns == [ns[0]] + ns[1..];
    }
  }

  /** Every visited page costs a frame. */
  lemma {:induction false} EnoughBound(v: Vm, root: nat, ns: seq<nat>)
    requires v.Ok() && v.IsSpace(root) && Paged(ns) && Enough(v, root, ns)
    ensures |ns| <= |v.free|
    decreases |ns|
  {
    hide Vm.Ok, Next, Number, Need;
    if ns != [] {
      NextOk(v, root, ns[0]);
      EnoughBound(Next(v, root, ns[0]), root, ns[1..]);
    }
  }

  /** Four free frames a page are always enough. */
  lemma {:induction false} FourEnough(v: Vm, root: nat, ns: seq<nat>)
    requires v.Ok() && v.IsSpace(root) && Paged(ns) && 4 * |ns| <= |v.free|
    ensures Enough(v, root, ns)
    decreases |ns|
  {
    hide Vm.Ok, Next, Number;
    if ns != [] {
      NextOk(v, root, ns[0]);
      FourEnough(Next(v, root, ns[0]), root, ns[1..]);
    }
  }

  lemma {:induction false} EnoughGoes(v: Vm, root: nat, ns: seq<nat>)
    requires Paged(ns) && Enough(v, root, ns)
    ensures Goes(v, root, ns)
    decreases |ns|
  {
    hide Next, Number, Need;
    if ns != [] {
      EnoughGoes(Next(v, root, ns[0]), root, ns[1..]);
    }
  }

  /**
   * A turn that lacks a table frame goes unnoticed but drains the stack, so
   * the next turn fails: the pass goes through exactly when there are enough
   * frames, or enough for all pages but the last and one more.
   */
  lemma {:induction false} GoesExact(v: Vm, root: nat, ns: seq<nat>)
    requires v.Ok() && v.IsSpace(root) && Paged(ns)
    ensures Goes(v, root, ns) <==>
            || Enough(v, root, ns)
            || (ns != [] && Enough(v, root, ns[..|ns| - 1]) && MapPages(v, root, ns[..|ns| - 1]).free != [])
    decreases |ns|
  {
    hide Vm.Ok, Next, Number, Need;
    if ns != [] {
      var v' := Next(v, root, ns[0]);
      NextOk(v, root, ns[0]);
      if |ns| == 1 {
        assert ns[..0] == [] && ns[1..] == [];
      } else {
        var front, rest := ns[..|ns| - 1], ns[1..];
        assert front[0] == ns[0] && front[1..] == rest[..|rest| - 1];
        GoesExact(v', root, rest);
      }
    }
  }

  lemma {:induction false} PassConcat(v: Vm, root: nat, a: seq<nat>, b: seq<nat>)
    requires Paged(a + b)
    ensures Paged(a) && Paged(b)
    ensures MapPages(v, root, a + b) == MapPages(MapPages(v, root, a), root, b)
    ensures Goes(v, root, a + b) <==> Goes(v, root, a) && Goes(MapPages(v, root, a), root, b)
    decreases |a|
  {
    hide Next;
    PagedParts(a, b);
    if a == [] {
      assert a + b == b;
    } else {
      assert (a + b)[1..] == a[1..] + b;
      PassConcat(Next(v, root, a[0]), root, a[1..], b);
    }
  }

  lemma PagedParts(a: seq<nat>, b: seq<nat>)
    ensures Paged(a + b) <==> Paged(a) && Paged(b)
  {
    forall i | 0 <= i < |a| ensures a[i] == (a + b)[i] {
    }
    forall i | 0 <= i < |b| ensures b[i] == (a + b)[|a| + i] {
    }
  }

  /** In the unnoticed case the last page keeps the translation it had, in every space. */
  lemma LastKeeps(v: Vm, root: nat, n: nat, r: nat, q: Path)
    requires v.Ok() && v.IsSpace(root) && v.IsSpace(r) && n < PAGES && q.a < 511
    requires v.free != [] && Need(v.mem, root, PageAt(n)) >= |v.free|
    ensures Walk(Next(v, root, n).mem, r, q) == Walk(v.mem, r, q) && Next(v, root, n).free == []
  {
    hide Walk, Need, Vm.Ok;
    AllocAndMapExact(v, root, PageAt(n), 0x006, r, q);
    NextOk(v, root, n);
  }
}
