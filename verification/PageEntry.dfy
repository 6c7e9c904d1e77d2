/**
 * Words of the four page-table levels (osfmk/vm/paging.c, include/paging.h).
 *
 * A 64-bit word is kept as its two fields: bits 63..12 as a frame number and
 * bits 11..0 as flags.  The source's `w & ~0xFFF` is then the frame field, and
 * every flag mask below is the source's own mask on the low twelve bits.
 */
module PageEntry {
  import opened Arith

  const PRESENT: bv12 := 0x001
  const WRITE: bv12 := 0x002
  const USER: bv12 := 0x004
  const PWT: bv12 := 0x008
  const PCD: bv12 := 0x010
  const PS: bv12 := 0x080

  datatype Word = Word(frame: nat, flags: bv12)
  {
    predicate Present() { flags & PRESENT != 0 }

    predicate Writable() { flags & WRITE != 0 }

    predicate UserOk() { flags & USER != 0 }

    /** The caching bits PAGE_PWT and PAGE_PCD. */
    function Cache(): bv12 { flags & (PWT | PCD) }

    /** PAGE_PS: in a page directory, a 2 MiB leaf. */
    predicate Large() { flags & PS != 0 }
  }

  const ZERO := Word(0, 0)

  type Table = t: seq<Word> | |t| == 512 witness seq(512, _ => ZERO)

  function EmptyTable(): Table { seq(512, _ => ZERO) }

  // Index fields of a virtual address (PML4_INDEX, PDPT_INDEX, PD_INDEX, PT_INDEX).

  type Index = i: nat | i < 512

  function Pml4Index(va: nat): Index { va / 0x80_0000_0000 % 512 }

  function PdptIndex(va: nat): Index { va / 0x4000_0000 % 512 }

  function PdIndex(va: nat): Index { va / 0x20_0000 % 512 }

  function PtIndex(va: nat): Index { va / 0x1000 % 512 }

  // The words the editor writes.

  /** `t | PAGE_PRESENT | PAGE_WRITE` for a table frame `t`. */
  function TableWord(t: nat): Word { Word(t, PRESENT | WRITE) }

  /** The final `pt[d]` store: caller's flags without PAGE_PS, always present. */
  function PageWord(frame: nat, flags: bv12): Word { Word(frame, (flags & !PS) | PRESENT) }

  /** First frame of a 2 MiB leaf: `pd[c] & ~((1ULL << 21) - 1)`. */
  function LeafBase(leaf: Word): nat { leaf.frame - leaf.frame % 512 }

  /** The leaf bits a split carries over. */
  function LeafFlags(leaf: Word): bv12 { leaf.flags & (PRESENT | WRITE | USER | PWT | PCD) }

  /** Word `i` of the table that replaces the 2 MiB leaf `leaf`. */
  function SplitWord(leaf: Word, flags: bv12, i: nat): Word {
    Word(LeafBase(leaf) + i,
         if flags & (PWT | PCD) != 0
         then (LeafFlags(leaf) & !(PWT | PCD)) | (flags & (PWT | PCD))
         else LeafFlags(leaf))
  }

  /** The table that replaces `leaf`. */
  function SplitTable(leaf: Word, flags: bv12): Table {
    seq(512, i requires 0 <= i < 512 => SplitWord(leaf, flags, i))
  }

  /** The directory word that points at the table replacing `leaf`. */
  function SplitTableWord(t: nat, leaf: Word): Word {
    Word(t, PRESENT | WRITE | (LeafFlags(leaf) & !PRESENT))
  }

  lemma TableWordFields(t: nat)
    ensures var w := TableWord(t); w.Present() && w.Writable() && !w.UserOk() && !w.Large()
  {}

  lemma PageWordFields(frame: nat, flags: bv12)
    ensures var w := PageWord(frame, flags);
            && w.Present() && !w.Large()
            && (w.Writable() <==> flags & WRITE != 0)
            && (w.UserOk() <==> flags & USER != 0)
            && w.Cache() == flags & (PWT | PCD)
  {}

  lemma SplitWordFields(leaf: Word, flags: bv12, i: nat)
    requires leaf.Present()
    ensures var w := SplitWord(leaf, flags, i);
            && w.Present()
            && w.Writable() == leaf.Writable() && w.UserOk() == leaf.UserOk()
            && w.Cache() == (if flags & (PWT | PCD) != 0 then flags & (PWT | PCD) else leaf.Cache())
  {}

  lemma SplitTableWordFields(t: nat, leaf: Word)
    ensures var w := SplitTableWord(t, leaf);
            w.Present() && w.Writable() && !w.Large() && w.UserOk() == leaf.UserOk()
  {}

  // ------------------------------------------------------------- the bits themselves

  /** Bits 0, 1, 2, 3 and 4, and 7 of a word: section 4.5 of the Intel SDM, volume 3A. */
  lemma WordBits(w: Word)
    ensures w.Present() <==> w.flags & 0x001 != 0
    ensures w.Writable() <==> w.flags & 0x002 != 0
    ensures w.UserOk() <==> w.flags & 0x004 != 0
    ensures w.Cache() == w.flags & 0x018
    ensures w.Large() <==> w.flags & 0x080 != 0
  {}

  /** The words the editor stores, bit by bit. */
  lemma StoredBits(t: nat, leaf: Word, flags: bv12)
    ensures TableWord(t) == Word(t, 0x003)
    ensures PageWord(t, flags) == Word(t, (flags & 0xf7f) | 0x001)
    ensures SplitTableWord(t, leaf) == Word(t, (leaf.flags & 0x01e) | 0x003)
    ensures LeafFlags(leaf) == leaf.flags & 0x01f
  {}

  /** Word `i` of a split: the leaf's rights, and the caller's caching bits where it gives any. */
  lemma SplitBits(leaf: Word, flags: bv12, i: Index)
    ensures SplitTable(leaf, flags)[i] ==
            Word(512 * (leaf.frame / 512) + i,
                 if flags & 0x018 != 0 then (leaf.flags & 0x007) | (flags & 0x018) else leaf.flags & 0x01f)
  {}

  /** The 64-bit word as it lies in memory. */
  function Raw(w: Word): nat { 4096 * w.frame + w.flags as nat }

  /** `w & ~0xFFF` is the frame's address, and `w & ~((1 << 21) - 1)` that of the first frame of a leaf. */
  lemma RawFields(w: Word)
    ensures Raw(w) - Raw(w) % 0x1000 == 4096 * w.frame && Raw(w) % 0x1000 == w.flags as nat
    ensures Raw(w) - Raw(w) % 0x20_0000 == 4096 * LeafBase(w)
  {
    FlagsBound(w.flags);
    Rounded(w.frame, w.flags as nat);
  }

  lemma FlagsBound(flags: bv12)
    ensures flags as nat < 4096
  {}

  lemma Rounded(f: nat, b: nat)
    requires b < 4096
    ensures var raw := 4096 * f + b;
            raw % 0x1000 == b && raw - raw % 0x20_0000 == 4096 * (f - f % 512)
  {
    ModUnique(4096 * f + b, 0x1000, f, b);
    ModUnique(4096 * f + b, 0x20_0000, f / 512, 4096 * (f % 512) + b);
  }
}
