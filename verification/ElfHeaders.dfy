/**
 * The ELF64 structures as they are written (bsd/kern/elf/elf.h:12-38), and
 * what elf_load makes of every image that holds them.
 */
module ElfHeaders {
  import opened Arith
  import opened Common
  import opened ElfImage

  /** The `n` bytes of a number, least significant first. */
  function Bytes(v: nat, n: nat): (b: seq<Byte>)
    ensures |b| == n
  {
    if n == 0 then [] else [v % 256] + Bytes(v / 256, n - 1)
  }

  /** elf64_ehdr, field by field. */
  datatype Ehdr = Ehdr(ident: seq<Byte>, etype: nat, machine: nat, version: nat, entry: nat, phoff: nat, shoff: nat,
                       flags: nat, ehsize: nat, phentsize: nat, phnum: nat, shentsize: nat, shnum: nat, shstrndx: nat)
  {
    predicate Ok() {
      && |ident| == 16 && etype < 0x1_0000 && machine < 0x1_0000 && entry < TWO64 && phoff < TWO64
      && ehsize < 0x1_0000 && phentsize < 0x1_0000 && phnum < 0x1_0000
    }

    function Encoded(): (b: seq<Byte>)
      requires |ident| == 16
      ensures |b| == 64
    {
      ident + Bytes(etype, 2) + Bytes(machine, 2) + Bytes(version, 4) + Bytes(entry, 8) + Bytes(phoff, 8) +
      Bytes(shoff, 8) + Bytes(flags, 4) + Bytes(ehsize, 2) + Bytes(phentsize, 2) + Bytes(phnum, 2) +
      Bytes(shentsize, 2) + Bytes(shnum, 2) + Bytes(shstrndx, 2)
    }

    /** A 64-bit little-endian executable for x86-64 with at least the structures' sizes. */
    predicate Executable()
      requires |ident| == 16
    {
      && ident[0] == 0x7f && ident[1] == 'E' as nat && ident[2] == 'L' as nat && ident[3] == 'F' as nat
      && ident[4] == 2 && ident[5] == 1 && etype == 2 && machine == 62
      && ehsize >= 64 && phentsize >= 56 && phnum != 0
    }
  }

  /** elf64_phdr. */
  datatype Phdr = Phdr(ptype: nat, flags: nat, offset: nat, vaddr: nat, paddr: nat, filesz: nat, memsz: nat, align: nat)
  {
    predicate Ok() {
      ptype < TWO32 && offset < TWO64 && vaddr < TWO64 && filesz < TWO64 && memsz < TWO64
    }

    function Encoded(): (b: seq<Byte>)
      ensures |b| == 56
    {
      Bytes(ptype, 4) + Bytes(flags, 4) + Bytes(offset, 8) + Bytes(vaddr, 8) + Bytes(paddr, 8) + Bytes(filesz, 8) +
      Bytes(memsz, 8) + Bytes(align, 8)
    }
  }

  /** Reading what was written. */
  lemma {:induction false} LeBytes(img: seq<Byte>, off: nat, v: nat, n: nat)
    requires off + n <= |img| && img[off..off + n] == Bytes(v, n) && v < Pow256(n)
    ensures Le(img, off, n) == v
    decreases n
  {
    if n > 0 {
      assert img[off..off + n][0] == img[off] && img[off..off + n][1..] == img[off + 1..off + 1 + (n - 1)];
      LeBytes(img, off + 1, v / 256, n - 1);
    }
  }

  lemma Sizes()
    ensures Pow256(2) == 0x1_0000 && Pow256(4) == TWO32 && Pow256(8) == TWO64
  {
    assert Pow256(3) == 0x100_0000 && Pow256(5) == 0x100_0000_0000;
    assert Pow256(6) == 0x1_0000_0000_0000 && Pow256(7) == 0x100_0000_0000_0000;
  }

  lemma SliceOf(img: seq<Byte>, at: nat, b: seq<Byte>, off: nat, n: nat)
    requires at + |b| <= |img| && img[at..at + |b|] == b && off + n <= |b|
    ensures img[at + off..at + off + n] == b[off..off + n]
  {
    var s, t := img[at + off..at + off + n], b[off..off + n];
    forall k | 0 <= k < n ensures s[k] == t[k] {
      assert img[at..at + |b|][off + k] == b[off + k];
    }
  }

  /** The number in a field of a structure that the image holds at `at`. */
  lemma Field(img: seq<Byte>, at: nat, b: seq<Byte>, off: nat, n: nat, v: nat)
    requires at + |b| <= |img| && img[at..at + |b|] == b && off + n <= |b|
    requires b[off..off + n] == Bytes(v, n) && v < Pow256(n)
    ensures Le(img, at + off, n) == v
  {
    hide Le, Bytes, Pow256;
    SliceOf(img, at, b, off, n);
    LeBytes(img, at + off, v, n);
  }

  lemma PhdrFields(h: Phdr)
    ensures var b := h.Encoded();
            && b[0..4] == Bytes(h.ptype, 4) && b[8..16] == Bytes(h.offset, 8) && b[16..24] == Bytes(h.vaddr, 8)
            && b[32..40] == Bytes(h.filesz, 8) && b[40..48] == Bytes(h.memsz, 8)
  {
    hide Bytes;
  }

  /** Every program header is read as it was written. */
  lemma PhdrDecoded(img: seq<Byte>, at: nat, h: Phdr)
    requires h.Ok() && at + 56 <= |img| && img[at..at + 56] == h.Encoded()
    ensures SegmentAt(img, at) == Segment(h.ptype == 1, h.offset, h.vaddr, h.filesz, h.memsz)
  {
    hide Le, Bytes, Phdr.Encoded, Pow256;
    var b := h.Encoded();
    PhdrFields(h);
    Sizes();
    Field(img, at, b, 0, 4, h.ptype);
    Field(img, at, b, 8, 8, h.offset);
    Field(img, at, b, 16, 8, h.vaddr);
    Field(img, at, b, 32, 8, h.filesz);
    Field(img, at, b, 40, 8, h.memsz);
  }

  lemma EhdrFields(h: Ehdr)
    requires h.Ok()
    ensures var b := h.Encoded();
            && b[..16] == h.ident && b[16..18] == Bytes(h.etype, 2) && b[18..20] == Bytes(h.machine, 2)
            && b[24..32] == Bytes(h.entry, 8) && b[32..40] == Bytes(h.phoff, 8)
            && b[52..54] == Bytes(h.ehsize, 2) && b[54..56] == Bytes(h.phentsize, 2) && b[56..58] == Bytes(h.phnum, 2)
  {
    hide Bytes;
  }

  /** The header is read as it was written: the fields elf_load uses, and exactly when it goes on. */
  lemma EhdrDecoded(img: seq<Byte>, h: Ehdr)
    requires h.Ok() && 64 <= |img| && img[..64] == h.Encoded()
    ensures Le(img, 24, 8) == h.entry && Le(img, 32, 8) == h.phoff
    ensures Le(img, 54, 2) == h.phentsize && Le(img, 56, 2) == h.phnum
    ensures HeaderPasses(img) <==> h.Executable() && (h.phoff + h.phnum * h.phentsize) % TWO64 <= |img|
  {
    hide Le, Bytes, Ehdr.Encoded, Pow256;
    var b := h.Encoded();
    EhdrFields(h);
    Sizes();
    assert img[0..0 + |b|] == b;
    Field(img, 0, b, 16, 2, h.etype);
    Field(img, 0, b, 18, 2, h.machine);
    Field(img, 0, b, 24, 8, h.entry);
    Field(img, 0, b, 32, 8, h.phoff);
    Field(img, 0, b, 52, 2, h.ehsize);
    Field(img, 0, b, 54, 2, h.phentsize);
    Field(img, 0, b, 56, 2, h.phnum);
    forall k | 0 <= k < 16 ensures img[k] == h.ident[k] {
      assert img[..64][k] == b[..16][k];
    }
  }

  /** The image holds the header and, from e_phoff on, the program headers `phs` one after the other. */
  predicate Holds(img: seq<Byte>, h: Ehdr, phs: seq<Phdr>) {
    && h.Ok() && h.Executable() && |phs| == h.phnum && h.phoff + h.phnum * h.phentsize <= |img| < TWO32
    && 64 <= |img| && img[..64] == h.Encoded()
    && forall i :: 0 <= i < |phs| ==> HeldAt(img, h.phoff + 56 * i, phs[i])
  }

  predicate HeldAt(img: seq<Byte>, at: nat, h: Phdr) {
    h.Ok() && at + 56 <= |img| && img[at..at + 56] == h.Encoded()
  }

  /** The segments elf_load sees in every such image are those written into it. */
  lemma ImageDecoded(img: seq<Byte>, h: Ehdr, phs: seq<Phdr>)
    requires Holds(img, h, phs)
    ensures HeaderOk(img) && |Phs(img)| == |phs| && Le(img, 24, 8) == h.entry
    ensures forall i :: 0 <= i < |phs| ==>
              Phs(img)[i] == Segment(phs[i].ptype == 1, phs[i].offset, phs[i].vaddr, phs[i].filesz, phs[i].memsz)
  {
    hide Le, Ehdr.Encoded, Phdr.Encoded, SegmentAt, HeaderPasses;
    EhdrDecoded(img, h);
    forall i | 0 <= i < |phs|
      ensures Phs(img)[i] == Segment(phs[i].ptype == 1, phs[i].offset, phs[i].vaddr, phs[i].filesz, phs[i].memsz)
    {
      assert HeldAt(img, h.phoff + 56 * i, phs[i]);
      PhdrDecoded(img, h.phoff + 56 * i, phs[i]);
    }
  }

  // ---------------------------------------------------------- an ordinary program

  const EXEC: Ehdr := Ehdr([0x7f, 0x45, 0x4c, 0x46, 2, 1, 1, 0, 0, 0, 0, 0, 0, 0, 0, 0],
                           2, 62, 1, 0x80_0000_0010, 64, 0, 0, 64, 56, 1, 0, 0, 0)
  const TEXT: Phdr := Phdr(1, 7, 120, 0x80_0000_0000, 0, 0x200, 0x300, 0x1000)

  /** 0x200 bytes in the file, 0x300 in memory: a program with a .bss. */
  function Program(): seq<Byte> { EXEC.Encoded() + TEXT.Encoded() + seq(0x200, _ => 0x90) }

  lemma ProgramSize()
    ensures |Program()| == 632
  {}

  /** It is accepted with its one segment, which is to read as the file bytes and 0x100 zeros. */
  lemma ProgramAccepted()
    ensures var img := Program();
            && HeaderOk(img) && Phs(img) == [Segment(true, 120, 0x80_0000_0000, 0x200, 0x300)]
            && AllPass(img, Phs(img)) && AllInImage(img, Phs(img)) && Le(img, 24, 8) == 0x80_0000_0010
            && Contents(img, Phs(img)[0]) == seq(0x200, _ => 0x90) + seq(0x100, _ => 0)
  {
    hide Le, Ehdr.Encoded, Phdr.Encoded, SegmentAt, HeaderPasses;
    var img := Program();
    assert |img| == 120 + 0x200;
    assert img[..64] == EXEC.Encoded();
    assert img[64..120] == TEXT.Encoded();
    assert HeldAt(img, 64 + 56 * 0, TEXT);
    ImageDecoded(img, EXEC, [TEXT]);
    assert Phs(img) == [Segment(true, 120, 0x80_0000_0000, 0x200, 0x300)];
    assert img[120..120 + 0x200] == seq(0x200, _ => 0x90);
  }
}
