/**
 * ELF64 images and byte memory seen through a page view (bsd/kern/elf/elf.c,
 * bsd/kern/elf/elf.h).
 */
module ElfImage {
  import opened Arith
  import opened Common
  import opened PageTables

  const EHDR: nat := 64
  const PHDR: nat := 56

  /** Little-endian number in `n` bytes at `off`. */
  function Le(img: seq<Byte>, off: nat, n: nat): nat
    requires off + n <= |img|
    decreases n
  {
    if n == 0 then 0 else img[off] + 256 * Le(img, off + 1, n - 1)
  }

  /** elf_valid. */
  predicate Valid(img: seq<Byte>) {
    && |img| >= EHDR
    && img[0] == 0x7f && img[1] == 0x45 && img[2] == 0x4c && img[3] == 0x46
    && img[4] == 2 && img[5] == 1
    && Le(img, 16, 2) == 2 && Le(img, 18, 2) == 62
  }

  /** The bounds test of elf_load, in 64-bit arithmetic. */
  predicate Bounded(offset: nat, length: nat, size: nat) { (offset + length) % TWO64 <= size }

  /** Of what the test accepts, exactly the sums that do not wrap lie inside the image. */
  lemma BoundedExact(offset: nat, length: nat, size: nat)
    requires offset < TWO64 && length < TWO64 && size < TWO32 && Bounded(offset, length, size)
    ensures offset + length <= size <==> offset + length < TWO64
  {}

  /** The header checks of elf_load. */
  predicate HeaderPasses(img: seq<Byte>) {
    && Valid(img)
    && Le(img, 52, 2) >= EHDR && Le(img, 54, 2) >= PHDR && Le(img, 56, 2) != 0
    && Bounded(Le(img, 32, 8), Le(img, 56, 2) * Le(img, 54, 2), |img|)
  }

  /** The checks pass and the program headers lie in the image. */
  predicate HeaderOk(img: seq<Byte>) {
    HeaderPasses(img) && Le(img, 32, 8) + Le(img, 56, 2) * Le(img, 54, 2) <= |img|
  }

  datatype Segment = Segment(load: bool, offset: nat, vaddr: nat, filesz: nat, memsz: nat)

  function SegmentAt(img: seq<Byte>, at: nat): Segment
    requires at + PHDR <= |img|
  {
    Segment(Le(img, at, 4) == 1, Le(img, at + 8, 8), Le(img, at + 16, 8), Le(img, at + 32, 8), Le(img, at + 40, 8))
  }

  lemma HeaderRoom(img: seq<Byte>, i: nat)
    requires HeaderOk(img) && i < Le(img, 56, 2)
    ensures Le(img, 32, 8) + PHDR * i + PHDR <= |img|
  {
    var n, size := Le(img, 56, 2), Le(img, 54, 2);
    assert PHDR * i + PHDR == PHDR * (i + 1);
    assert PHDR * (i + 1) <= PHDR * n <= n * size by {
      MulMono(PHDR, size, n);
    }
  }

  lemma MulMono(a: nat, b: nat, n: nat)
    requires a <= b
    ensures a * n <= n * b
  {}

  /** `ph[i]`: the code strides by the structure's own size. */
  function Ph(img: seq<Byte>, i: nat): Segment
    requires HeaderOk(img) && i < Le(img, 56, 2)
  {
    HeaderRoom(img, i);
    SegmentAt(img, Le(img, 32, 8) + PHDR * i)
  }

  function Phs(img: seq<Byte>): seq<Segment>
    requires HeaderOk(img)
  {
    seq(Le(img, 56, 2), i requires 0 <= i < Le(img, 56, 2) => Ph(img, i))
  }

  function EntryAt(base: nat, stride: nat, i: nat): nat { base + stride * i }

  function HeaderAt(img: seq<Byte>, at: nat): Option<Segment> {
    if at + PHDR <= |img| then Some(SegmentAt(img, at)) else None
  }

  /** Header `i` where the file declares it, in entries of e_phentsize bytes, if the image goes that far. */
  function Declared(img: seq<Byte>, i: nat): Option<Segment>
    requires |img| >= EHDR
  {
    HeaderAt(img, EntryAt(Le(img, 32, 8), Le(img, 54, 2), i))
  }

  predicate Laid(img: seq<Byte>, size: nat, count: nat) {
    HeaderOk(img) && Le(img, 54, 2) == size && Le(img, 56, 2) == count
  }

  predicate ReadsDeclared(img: seq<Byte>)
    requires HeaderOk(img)
  {
    forall i :: 0 <= i < Le(img, 56, 2) ==> Declared(img, i) == Some(Ph(img, i))
  }

  // ------------------------------------------------------------- sample images

  /** An ELF header for an executable with the given table fields. */
  function SampleHeader(phoff: seq<Byte>, size: nat, count: nat): (h: seq<Byte>)
    requires |phoff| == 8 && size < 0x1_0000 && count < 0x1_0000
    ensures |h| == EHDR
  {
    [0x7f, 0x45, 0x4c, 0x46, 2, 1, 0, 0, 0, 0, 0, 0, 0, 0, 0, 0,
     2, 0, 62, 0, 0, 0, 0, 0, 0, 0, 0, 0, 0, 0, 0, 0] + phoff +
    [0, 0, 0, 0, 0, 0, 0, 0, 0, 0, 0, 0, 64, 0,
     size % 256, size / 256, count % 256, count / 256, 0, 0, 0, 0, 0, 0]
  }

  function Two(lo: nat, hi: nat): nat { lo + 256 * hi }

  lemma Le2(img: seq<Byte>, off: nat)
    requires off + 2 <= |img|
    ensures Le(img, off, 2) == Two(img[off], img[off + 1])
  {
    assert Le(img, off + 2, 0) == 0;
    assert Le(img, off + 1, 1) == img[off + 1];
  }

  lemma Le4(img: seq<Byte>, off: nat)
    requires off + 4 <= |img|
    ensures Le(img, off, 4) == Le(img, off, 2) + 0x1_0000 * Le(img, off + 2, 2)
  {
    Le2(img, off);
    assert Le(img, off, 4) == img[off] + 256 * Le(img, off + 1, 3);
    assert Le(img, off + 1, 3) == img[off + 1] + 256 * Le(img, off + 2, 2);
  }

  lemma Le8(img: seq<Byte>, off: nat)
    requires off + 8 <= |img|
    ensures Le(img, off, 8) == Le(img, off, 4) + TWO32 * Le(img, off + 4, 4)
  {
    Le4(img, off);
    Le2(img, off);
    Le2(img, off + 2);
    assert Le(img, off, 8) == img[off] + 256 * Le(img, off + 1, 7);
    assert Le(img, off + 1, 7) == img[off + 1] + 256 * Le(img, off + 2, 6);
    assert Le(img, off + 2, 6) == img[off + 2] + 256 * Le(img, off + 3, 5);
    assert Le(img, off + 3, 5) == img[off + 3] + 256 * Le(img, off + 4, 4);
  }

  /** Eight bytes as four pairs. */
  lemma Le8Pairs(b: seq<Byte>, off: nat)
    requires off + 8 <= |b|
    ensures Le(b, off, 8) == Two(b[off], b[off + 1]) + 0x1_0000 * Two(b[off + 2], b[off + 3])
                           + TWO32 * (Two(b[off + 4], b[off + 5]) + 0x1_0000 * Two(b[off + 6], b[off + 7]))
  {
    hide Le, Two;
    Le8(b, off);
    Le4(b, off);
    Le4(b, off + 4);
    Le2(b, off);
    Le2(b, off + 2);
    Le2(b, off + 4);
    Le2(b, off + 6);
  }

  lemma SampleBytes(phoff: seq<Byte>, size: nat, count: nat, rest: seq<Byte>)
    requires |phoff| == 8 && size < 0x1_0000 && count < 0x1_0000
    ensures var img := SampleHeader(phoff, size, count) + rest;
            && img[0] == 0x7f && img[1] == 0x45 && img[2] == 0x4c && img[3] == 0x46 && img[4] == 2 && img[5] == 1
            && img[16] == 2 && img[17] == 0 && img[18] == 62 && img[19] == 0 && img[52] == 64 && img[53] == 0
            && img[54] == size % 256 && img[55] == size / 256 && img[56] == count % 256 && img[57] == count / 256
  {}

  lemma SamplePhoff(phoff: seq<Byte>, size: nat, count: nat, rest: seq<Byte>, k: nat)
    requires |phoff| == 8 && size < 0x1_0000 && count < 0x1_0000 && k < 8
    ensures (SampleHeader(phoff, size, count) + rest)[32 + k] == phoff[k]
  {}

  lemma TwoDigits(v: nat)
    ensures Two(v % 256, v / 256) == v
  {}

  /** The fields of a sample header, whatever follows it. */
  lemma SampleFields(phoff: seq<Byte>, size: nat, count: nat, rest: seq<Byte>)
    requires |phoff| == 8 && size < 0x1_0000 && count < 0x1_0000
    ensures var img := SampleHeader(phoff, size, count) + rest;
            && Valid(img) && Le(img, 52, 2) == EHDR && Le(img, 54, 2) == size && Le(img, 56, 2) == count
            && Le(img, 32, 8) == Le(phoff, 0, 8)
  {
    hide Le, SampleHeader;
    var img := SampleHeader(phoff, size, count) + rest;
    SampleBytes(phoff, size, count, rest);
    TwoDigits(size);
    TwoDigits(count);
    Le2(img, 16);
    Le2(img, 18);
    Le2(img, 52);
    Le2(img, 54);
    Le2(img, 56);
    SamePhoff(phoff, size, count, rest);
  }

  lemma SamePhoff(phoff: seq<Byte>, size: nat, count: nat, rest: seq<Byte>)
    requires |phoff| == 8 && size < 0x1_0000 && count < 0x1_0000
    ensures Le(SampleHeader(phoff, size, count) + rest, 32, 8) == Le(phoff, 0, 8)
  {
    hide Le, SampleHeader, Two;
    forall k: nat | k < 8 ensures (SampleHeader(phoff, size, count) + rest)[32 + k] == phoff[k] {
      SamplePhoff(phoff, size, count, rest, k);
    }
    Le8Pairs(SampleHeader(phoff, size, count) + rest, 32);
    Le8Pairs(phoff, 0);
  }

  const BEFORE: seq<Byte> := [0x80, 0xff, 0xff, 0xff, 0xff, 0xff, 0xff, 0xff]

  lemma BeforeValue()
    ensures Le(BEFORE, 0, 8) == TWO64 - 128
  {
    hide Le;
    Le8Pairs(BEFORE, 0);
    assert Two(0x80, 0xff) == 0xff80 && Two(0xff, 0xff) == 0xffff;
  }

  /** A table of two headers that claims to start 128 bytes before the image. */
  function StrayTable(): seq<Byte> { SampleHeader(BEFORE, 64, 2) }

  /** The wrapped sum is 0, so the table passes the check although no byte of it is in the image. */
  lemma TableStrays()
    ensures HeaderPasses(StrayTable()) && !HeaderOk(StrayTable())
  {
    var img := StrayTable();
    SampleFields(BEFORE, 64, 2, []);
    assert img == img + [];
    BeforeValue();
    hide Le, SampleHeader, StrayTable, Valid;
    assert Bounded(TWO64 - 128, 128, |img|);
  }

  /** Likewise file bytes that claim to start 16 bytes before any image of at least 16 bytes. */
  lemma SegmentStrays(img: seq<Byte>, vaddr: nat, memsz: nat)
    requires 16 <= |img| < TWO32 && memsz >= 32
    ensures var s := Segment(true, TWO64 - 16, vaddr, 32, memsz); Passes(img, s) && !InImage(img, s)
  {}

  /** An image whose second header, and nothing else, is loadable where it is declared. */
  function TwoHeaders(size: nat, count: nat): seq<Byte>
    requires PHDR <= size < 0x1_0000 && 2 <= count < 0x1_0000
  {
    SampleHeader([64, 0, 0, 0, 0, 0, 0, 0], size, count) + seq(count * size, k => if k == size then 1 else 0)
  }

  lemma TwoHeadersOk(size: nat, count: nat)
    requires PHDR <= size < 0x1_0000 && 2 <= count < 0x1_0000
    ensures var img := TwoHeaders(size, count);
            && |img| == EHDR + count * size && Laid(img, size, count) && Le(img, 32, 8) == EHDR
            && forall k :: EHDR <= k < |img| ==> img[k] == if k == EHDR + size then 1 else 0
  {
    var b: seq<Byte> := [64, 0, 0, 0, 0, 0, 0, 0];
    var rest: seq<Byte> := seq(count * size, k => if k == size then 1 else 0);
    var img := TwoHeaders(size, count);
    assert img == SampleHeader(b, size, count) + rest;
    SampleFields(b, size, count, rest);
    hide Le, SampleHeader, Valid;
    Le8Pairs(b, 0);
    assert |img| == EHDR + count * size;
    SizeBound(size, count);
  }

  lemma SizeBound(size: nat, count: nat)
    requires size < 0x1_0000 && count < 0x1_0000
    ensures count * size <= 0xffff * 0xffff
  {
    MulMono(size, 0xffff, count);
    MulMono(count, 0xffff, 0xffff);
  }

  /** p_type is PT_LOAD only if its first byte is 1, and is if the others are 0. */
  lemma LoadByte(img: seq<Byte>, at: nat)
    requires at + PHDR <= |img|
    ensures img[at] == 0 ==> !SegmentAt(img, at).load
    ensures img[at] == 1 && img[at + 1] == 0 && img[at + 2] == 0 && img[at + 3] == 0 ==> SegmentAt(img, at).load
  {
    Le4(img, at);
    Le2(img, at);
    Le2(img, at + 2);
    hide Le;
  }

  lemma SecondMisread(size: nat, count: nat)
    requires PHDR < size < 0x1_0000 && 2 <= count < 0x1_0000
    ensures var img := TwoHeaders(size, count);
            Laid(img, size, count) && !Ph(img, 1).load && Declared(img, 1).Some? && Declared(img, 1).value.load
  {
    var img := TwoHeaders(size, count);
    TwoHeadersOk(size, count);
    hide TwoHeaders, Le, Valid, SegmentAt, Bounded;
    HeaderRoom(img, 1);
    MulMono(2, count, size);
    assert EntryAt(EHDR, size, 1) == EHDR + size;
    hide EntryAt;
    LoadByte(img, EHDR + PHDR);
    LoadByte(img, EHDR + size);
    assert Ph(img, 1) == SegmentAt(img, EHDR + PHDR);
    assert Declared(img, 1) == HeaderAt(img, EHDR + size);
  }

  /**
   * elf_load strides by the structure's size: it reads the headers the file
   * declares, in every image, exactly when the declared size is 56 or there
   * is only one header.
   */
  lemma StrideExact(size: nat, count: nat)
    requires PHDR <= size < 0x1_0000 && 1 <= count < 0x1_0000
    ensures (forall img: seq<Byte> :: Laid(img, size, count) ==> ReadsDeclared(img)) <==> size == PHDR || count == 1
  {
    if size != PHDR && count != 1 {
      SecondMisread(size, count);
      var img := TwoHeaders(size, count);
      assert Laid(img, size, count) && Declared(img, 1) != Some(Ph(img, 1));
      assert !ReadsDeclared(img);
    } else {
      hide Le;
      forall img: seq<Byte> | Laid(img, size, count) ensures ReadsDeclared(img) {
        forall i | 0 <= i < count ensures Declared(img, i) == Some(Ph(img, i)) {
          HeaderRoom(img, i);
        }
      }
    }
  }

  /** With entries of 64 bytes the second segment of this image is not seen. */
  lemma SegmentMisread()
    ensures var img := TwoHeaders(64, 2);
            Laid(img, 64, 2) && !Ph(img, 1).load && Declared(img, 1).Some? && Declared(img, 1).value.load
  {
    SecondMisread(64, 2);
  }

  // --------------------------------------------------------------- byte memory

  type Frame = s: seq<Byte> | |s| == 4096 witness seq(4096, _ => 0)
  type Ram = map<nat, Frame>

  function Blank(): Frame { seq(4096, _ => 0) }

  function FrameAt(ram: Ram, f: nat): Frame { if f in ram then ram[f] else Blank() }

  /** Which frame each page of interest, by its number, is in. */
  type View = map<nat, nat>

  predicate Injective(view: View) {
    forall n, k :: n in view && k in view && view[n] == view[k] ==> n == k
  }

  /** An address the processor accepts, on a page of the view. */
  predicate At(view: View, va: nat) { Canonical(va) && PageNumber(va) in view }

  function Get(ram: Ram, view: View, va: nat): Byte
    requires At(view, va)
  {
    FrameAt(ram, view[PageNumber(va)])[va % PAGE_SIZE]
  }

  function Put(ram: Ram, f: nat, o: nat, b: Byte): Ram
    requires o < PAGE_SIZE
  {
    ram[f := FrameAt(ram, f)[o := b]]
  }

  lemma PutGet(ram: Ram, view: View, va: nat, b: Byte, x: nat)
    requires Injective(view) && At(view, va) && At(view, x)
    ensures Get(Put(ram, view[PageNumber(va)], va % PAGE_SIZE, b), view, x) == if x == va then b else Get(ram, view, x)
  {
    hide PageNumber, Canonical;
    if PageNumber(x) == PageNumber(va) && x % PAGE_SIZE == va % PAGE_SIZE {
      CanonicalUnique(x, va);
    }
  }

  ghost predicate Covers(view: View, va: nat, n: nat) {
    forall x :: va <= x < va + n ==> At(view, x)
  }

  /** A run of bytes stored at consecutive addresses. */
  ghost function Poked(ram: Ram, view: View, va: nat, bytes: seq<Byte>): Ram
    requires Covers(view, va, |bytes|)
    decreases |bytes|
  {
    if bytes == [] then ram
    else
      assert At(view, va);
      Poked(Put(ram, view[PageNumber(va)], va % PAGE_SIZE, bytes[0]), view, va + 1, bytes[1..])
  }

  lemma {:induction false} PokedGet(ram: Ram, view: View, va: nat, bytes: seq<Byte>, x: nat)
    requires Injective(view) && Covers(view, va, |bytes|) && At(view, x)
    ensures Get(Poked(ram, view, va, bytes), view, x) ==
            if va <= x < va + |bytes| then bytes[x - va] else Get(ram, view, x)
    decreases |bytes|
  {
    hide Get, Put, Injective, PageNumber, Canonical;
    if bytes != [] {
      assert At(view, va);
      PutGet(ram, view, va, bytes[0], x);
      PokedGet(Put(ram, view[PageNumber(va)], va % PAGE_SIZE, bytes[0]), view, va + 1, bytes[1..], x);
    }
  }

  lemma {:induction false} PokedConcat(ram: Ram, view: View, va: nat, a: seq<Byte>, b: seq<Byte>)
    requires Covers(view, va, |a| + |b|)
    ensures Covers(view, va, |a|) && Covers(view, va + |a|, |b|)
    ensures Poked(Poked(ram, view, va, a), view, va + |a|, b) == Poked(ram, view, va, a + b)
    decreases |a|
  {
    hide Put, PageNumber, Canonical;
    if a == [] {
      assert a + b == b;
    } else {
      assert At(view, va);
      assert (a + b)[1..] == a[1..] + b;
      PokedConcat(Put(ram, view[PageNumber(va)], va % PAGE_SIZE, a[0]), view, va + 1, a[1..], b);
    }
  }

  // -------------------------------------------------------------------- loading

  /** What elf_load checks for each loadable header. */
  predicate Passes(img: seq<Byte>, s: Segment) {
    s.load ==> Bounded(s.offset, s.filesz, |img|) && s.filesz <= s.memsz
  }

  /** The checks hold and the file bytes lie in the image. */
  predicate InImage(img: seq<Byte>, s: Segment) {
    s.load ==> s.offset + s.filesz <= |img| && s.filesz <= s.memsz
  }

  /** What a segment is to read as: its file bytes, then zeros up to its memory size. */
  function Contents(img: seq<Byte>, s: Segment): seq<Byte>
    requires s.load && InImage(img, s)
  {
    img[s.offset..s.offset + s.filesz] + seq(s.memsz - s.filesz, _ => 0)
  }

  ghost predicate AllCovered(view: View, segs: seq<Segment>) {
    forall i :: 0 <= i < |segs| && segs[i].load ==> Covers(view, segs[i].vaddr, segs[i].memsz)
  }

  predicate AllInImage(img: seq<Byte>, segs: seq<Segment>) {
    forall i :: 0 <= i < |segs| ==> InImage(img, segs[i])
  }

  predicate AllPass(img: seq<Byte>, segs: seq<Segment>) {
    forall i :: 0 <= i < |segs| ==> Passes(img, segs[i])
  }

  /** Memory after the copy pass over the first headers. */
  ghost function Copied(ram: Ram, view: View, img: seq<Byte>, segs: seq<Segment>): Ram
    requires AllCovered(view, segs) && AllInImage(img, segs)
    decreases |segs|
  {
    if segs == [] then ram
    else
      var n := |segs| - 1;
      var before := Copied(ram, view, img, segs[..n]);
      if segs[n].load then Poked(before, view, segs[n].vaddr, Contents(img, segs[n])) else before
  }

  predicate Disjoint(segs: seq<Segment>) {
    forall i, j :: 0 <= i < j < |segs| && segs[i].load && segs[j].load ==>
      segs[i].vaddr + segs[i].memsz <= segs[j].vaddr || segs[j].vaddr + segs[j].memsz <= segs[i].vaddr
  }

  /** Every loadable range reads back as its contents, also when two of them share a page. */
  lemma {:induction false} CopiedReads(ram: Ram, view: View, img: seq<Byte>, segs: seq<Segment>, i: nat, k: nat)
    requires Injective(view) && AllCovered(view, segs) && AllInImage(img, segs) && Disjoint(segs)
    requires i < |segs| && segs[i].load && k < segs[i].memsz
    ensures Covers(view, segs[i].vaddr, segs[i].memsz) && At(view, segs[i].vaddr + k)
    ensures Get(Copied(ram, view, img, segs), view, segs[i].vaddr + k) == Contents(img, segs[i])[k]
    decreases |segs|
  {
    hide Get, Poked, Injective, PageNumber, Canonical;
    var n := |segs| - 1;
    var x := segs[i].vaddr + k;
    assert At(view, x);
    if segs[n].load {
      PokedGet(Copied(ram, view, img, segs[..n]), view, segs[n].vaddr, Contents(img, segs[n]), x);
    }
    if i < n {
      CopiedReads(ram, view, img, segs[..n], i, k);
    }
  }

  /** Bytes outside every loadable range are left alone. */
  lemma {:induction false} CopiedKeeps(ram: Ram, view: View, img: seq<Byte>, segs: seq<Segment>, x: nat)
    requires Injective(view) && AllCovered(view, segs) && AllInImage(img, segs) && At(view, x)
    requires forall i :: 0 <= i < |segs| && segs[i].load ==> !(segs[i].vaddr <= x < segs[i].vaddr + segs[i].memsz)
    ensures Get(Copied(ram, view, img, segs), view, x) == Get(ram, view, x)
    decreases |segs|
  {
    hide Get, Poked, Injective, PageNumber, Canonical;
    if segs != [] {
      var n := |segs| - 1;
      CopiedKeeps(ram, view, img, segs[..n], x);
      if segs[n].load {
        PokedGet(Copied(ram, view, img, segs[..n]), view, segs[n].vaddr, Contents(img, segs[n]), x);
      }
    }
  }

  // ---------------------------------------------------------------------- pages

  /** First and last page (exclusive) the mapping pass touches for a segment. */
  function FirstPage(s: Segment): nat { s.vaddr / PAGE_SIZE }

  function EndPage(s: Segment): nat { (s.vaddr + s.memsz + PAGE_SIZE - 1) / PAGE_SIZE }

  /** The numbers of the pages from `n` up to `end`. */
  function PagesFrom(n: nat, end: nat): (ns: seq<nat>)
    ensures |ns| == if n < end then end - n else 0
    decreases end - n
  {
    if n >= end then [] else [PageNumber(PAGE_SIZE * n)] + PagesFrom(n + 1, end)
  }

  lemma {:induction false} PagesFromHit(n: nat, end: nat, k: nat)
    requires n <= k < end
    ensures PageNumber(PAGE_SIZE * k) in PagesFrom(n, end)
    decreases end - n
  {
    hide PageNumber;
    if n < k {
      PagesFromHit(n + 1, end, k);
    }
  }

  /** The pages the mapping pass visits for a segment, in order. */
  function Visits(s: Segment): seq<nat> { if s.load then PagesFrom(FirstPage(s), EndPage(s)) else [] }

  function AllVisits(segs: seq<Segment>): seq<nat> {
    if segs == [] then [] else AllVisits(segs[..|segs| - 1]) + Visits(segs[|segs| - 1])
  }

  lemma VisitsHit(s: Segment, x: nat)
    requires s.load && s.vaddr <= x < s.vaddr + s.memsz
    ensures PageNumber(x) in Visits(s)
  {
    var n := x / PAGE_SIZE;
    assert PAGE_SIZE * n / PAGE_SIZE == n;
    PagesFromHit(FirstPage(s), EndPage(s), n);
  }

  /** The pages visited are those of the bytes from the start of the segment's first page to its end, and no others. */
  lemma VisitsExact(s: Segment, n: nat)
    requires s.load
    ensures n in Visits(s) <==>
            exists x :: s.vaddr - s.vaddr % 0x1000 <= x < s.vaddr + s.memsz && PageNumber(x) == n
  {
    var first, end := FirstPage(s), EndPage(s);
    if n in Visits(s) {
      var k := PagesFromOnly(first, end, n);
      assert PAGE_SIZE * k < s.vaddr + s.memsz;
    }
    if x :| s.vaddr - s.vaddr % 0x1000 <= x < s.vaddr + s.memsz && PageNumber(x) == n {
      var k := x / PAGE_SIZE;
      assert PAGE_SIZE * k / PAGE_SIZE == k && first <= k < end;
      PagesFromHit(first, end, k);
    }
  }

  lemma {:induction false} PagesFromOnly(n: nat, end: nat, p: nat) returns (k: nat)
    requires p in PagesFrom(n, end)
    ensures n <= k < end && PageNumber(PAGE_SIZE * k) == p
    decreases end - n
  {
    hide PageNumber;
    if p == PageNumber(PAGE_SIZE * n) {
      k := n;
    } else {
      k := PagesFromOnly(n + 1, end, p);
    }
  }

  lemma {:induction false} AllVisitsHit(segs: seq<Segment>, i: nat, n: nat)
    requires i < |segs| && n in Visits(segs[i])
    ensures n in AllVisits(segs)
    decreases |segs|
  {
    if i < |segs| - 1 {
      AllVisitsHit(segs[..|segs| - 1], i, n);
    }
  }

  /** Every page costs a frame, so a segment is smaller than its visits. */
  lemma VisitsBound(s: Segment)
    requires s.load
    ensures s.memsz <= PAGE_SIZE * |Visits(s)|
  {}

  lemma {:induction false} AllVisitsBound(segs: seq<Segment>, i: nat)
    requires i < |segs|
    ensures |Visits(segs[i])| <= |AllVisits(segs)|
    decreases |segs|
  {
    if i < |segs| - 1 {
      AllVisitsBound(segs[..|segs| - 1], i);
    }
  }
}
