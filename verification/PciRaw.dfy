/**
 * What the scan reads, stated on the doublewords of configuration space
 * themselves (iokit/IOPCIFamily/pci.c:12-136, pci.h; PCI Local Bus
 * Specification 3.0, section 6.1).
 */
module PciRaw {
  import opened Pci

  /** The word pci_config_read puts on the address port. */
  function Address(bus: bv32, dev: bv32, func: bv32, offset: bv32): bv32 {
    (bus << 16) | (dev << 11) | (func << 8) | (offset & 0xfc) | 0x8000_0000
  }

  /** Every field can be read back, so no two functions or doublewords share an address. */
  lemma AddressFields(bus: bv32, dev: bv32, func: bv32, offset: bv32)
    requires bus < 256 && dev < 32 && func < 8 && offset < 256
    ensures var a := Address(bus, dev, func, offset);
            && a >> 31 == 1 && (a >> 16) & 0x7fff == bus && (a >> 11) & 0x1f == dev && (a >> 8) & 0x7 == func
            && a & 0xff == offset & 0xfc
  {}

  /** Function `f` of device `d` answers, and is not hidden behind a single-function device. */
  predicate Responds(cfg: Config, b: nat, d: nat, f: nat) {
    && cfg(b, d, 0, 0x00) != 0xffff_ffff && cfg(b, d, f, 0x00) != 0xffff_ffff
    && (f == 0 || cfg(b, d, 0, 0x0c) & 0x80 != 0)
  }

  /** A PCI-to-PCI bridge of header type 1 with secondary bus `c`. */
  predicate BridgeTo(cfg: Config, b: nat, d: nat, f: nat, c: nat) {
    && cfg(b, d, f, 0x08) >> 16 == 0x0604 && (cfg(b, d, f, 0x0c) >> 16) & 0x7f == 1
    && ((cfg(b, d, f, 0x18) >> 8) & 0xff) as nat == c
  }

  /** The offsets the scan reads, as doublewords. */
  lemma ReadWords(cfg: Config, f: Bdf)
    ensures Read(cfg, f, 0x00) == cfg(f.bus, f.dev, f.func, 0x00)
    ensures Read(cfg, f, 0x08) == cfg(f.bus, f.dev, f.func, 0x08)
    ensures Read(cfg, f, 0x0a) == Read(cfg, f, 0x0b) == Read(cfg, f, 0x09) == Read(cfg, f, 0x08)
    ensures Read(cfg, f, 0x0e) == Read(cfg, f, 0x0c) == cfg(f.bus, f.dev, f.func, 0x0c)
    ensures Read(cfg, f, 0x19) == cfg(f.bus, f.dev, f.func, 0x18)
    ensures Read(cfg, f, 0x3c) == cfg(f.bus, f.dev, f.func, 0x3c)
  {}

  lemma ClassBits(w: bv32)
    ensures Lane(w, 3) == 0x06 && Lane(w, 2) == 0x04 <==> w >> 16 == 0x0604
  {}

  lemma HeaderBits(w: bv32)
    ensures Lane(w, 2) & 0x7f == 0x01 <==> (w >> 16) & 0x7f == 1
  {}

  lemma SecondaryBits(w: bv32)
    ensures Lane(w, 1) as bv32 == (w >> 8) & 0xff && Lane(w, 1) as nat == ((w >> 8) & 0xff) as nat
  {}

  lemma EnumeratedExact(cfg: Config, b: nat, d: nat, f: nat)
    ensures Enumerated(cfg, Bdf(b, d, f)) <==> d < 32 && f < 8 && Responds(cfg, b, d, f)
  {
    ReadWords(cfg, Bdf(b, d, 0));
    ReadWords(cfg, Bdf(b, d, f));
    hide Read;
  }

  lemma SecondaryExact(cfg: Config, b: nat, d: nat, f: nat, c: nat)
    requires c != 0
    ensures Secondary(cfg, Bdf(b, d, f)) == c <==> BridgeTo(cfg, b, d, f, c)
  {
    ReadWords(cfg, Bdf(b, d, f));
    ClassBits(cfg(b, d, f, 0x08));
    HeaderBits(cfg(b, d, f, 0x0c));
    SecondaryBits(cfg(b, d, f, 0x18));
    hide Read, Lane;
  }

  /** The edges the scan follows, from the doublewords. */
  lemma EdgeExact(cfg: Config, b: nat, c: nat)
    ensures Edge(cfg, b, c) <==>
            c != 0 && exists d: nat, f: nat :: d < 32 && f < 8 && Responds(cfg, b, d, f) && BridgeTo(cfg, b, d, f, c)
  {
    hide Enumerated, Secondary, Responds, BridgeTo;
    if Edge(cfg, b, c) {
      var d: nat, f: nat :| d < 32 && f < 8 && Enumerated(cfg, Bdf(b, d, f)) && Secondary(cfg, Bdf(b, d, f)) == c;
      EnumeratedExact(cfg, b, d, f);
      SecondaryExact(cfg, b, d, f, c);
    }
    if c != 0 {
      if d: nat, f: nat :| d < 32 && f < 8 && Responds(cfg, b, d, f) && BridgeTo(cfg, b, d, f, c) {
        EnumeratedExact(cfg, b, d, f);
        SecondaryExact(cfg, b, d, f, c);
      }
    }
  }

  /** Where the scan starts: bus 0, or every bus when bit 7 of the doubleword at 0x0c of 0:0.0 is set. */
  lemma RootExact(cfg: Config, r: nat)
    ensures Root(cfg, r) <==> r == 0 || (r < 256 && cfg(0, 0, 0, 0x0c) & 0x80 != 0)
  {
    ReadWords(cfg, Bdf(0, 0, 0));
    hide Read;
  }

  // ------------------------------------------------------------- what is recorded

  lemma LaneBits(w: bv32)
    ensures Lane(w, 0) as bv32 == w & 0xff && Lane(w, 1) as bv32 == (w >> 8) & 0xff
    ensures Lane(w, 2) as bv32 == (w >> 16) & 0xff && Lane(w, 3) as bv32 == w >> 24
    ensures LowHalf(w) as bv32 == w & 0xffff && HighHalf(w) as bv32 == w >> 16
    ensures Lane(w, 0) & 0x7f == 0 <==> w & 0x7f == 0
  {}

  lemma DescribeLanes(cfg: Config, b: nat, d: nat, f: nat)
    ensures var r, id, kind := Describe(cfg, Bdf(b, d, f)), cfg(b, d, f, 0x00), cfg(b, d, f, 0x08);
            && r.at == Bdf(b, d, f) && r.vendor == LowHalf(id) && r.device == HighHalf(id)
            && r.classCode == Lane(kind, 3) && r.subclass == Lane(kind, 2) && r.progIf == Lane(kind, 1)
            && r.headerType == Lane(cfg(b, d, f, 0x0c), 0)
  {
    hide Lane, Bars, LowHalf, HighHalf;
  }

  /** The identification fields of a recorded device. */
  lemma DescribeExact(cfg: Config, b: nat, d: nat, f: nat)
    ensures var r, id, kind := Describe(cfg, Bdf(b, d, f)), cfg(b, d, f, 0x00), cfg(b, d, f, 0x08);
            && r.at == Bdf(b, d, f) && r.vendor as bv32 == id & 0xffff && r.device as bv32 == id >> 16
            && r.classCode as bv32 == kind >> 24 && r.subclass as bv32 == (kind >> 16) & 0xff
            && r.progIf as bv32 == (kind >> 8) & 0xff && r.headerType as bv32 == cfg(b, d, f, 0x0c) & 0xff
  {
    DescribeLanes(cfg, b, d, f);
    LaneBits(cfg(b, d, f, 0x00));
    LaneBits(cfg(b, d, f, 0x08));
    LaneBits(cfg(b, d, f, 0x0c));
    hide Lane, Describe, LowHalf, HighHalf;
  }

  lemma BarWords(cfg: Config, f: Bdf, i: nat)
    requires i < 6
    ensures Bars(cfg, f)[i] == cfg(f.bus, f.dev, f.func, 0x10 + 4 * i)
  {
    assert (0x10 + 4 * i) % 4 == 0;
  }

  lemma ResourceLanes(cfg: Config, b: nat, d: nat, f: nat)
    ensures var r, plain := Describe(cfg, Bdf(b, d, f)), Lane(cfg(b, d, f, 0x0c), 0) & 0x7f == 0;
            && r.bars == (if plain then Bars(cfg, Bdf(b, d, f)) else seq(6, _ => 0))
            && r.irqLine == if plain then Lane(cfg(b, d, f, 0x3c), 0) else 0
  {
    hide Lane, Bars, LowHalf, HighHalf;
  }

  /** Base addresses and interrupt line, recorded where the header byte reads as type 0. */
  lemma ResourcesExact(cfg: Config, b: nat, d: nat, f: nat, i: nat)
    requires i < 6
    ensures var r, plain := Describe(cfg, Bdf(b, d, f)), cfg(b, d, f, 0x0c) & 0x7f == 0;
            && |r.bars| == 6 && r.bars[i] == (if plain then cfg(b, d, f, 0x10 + 4 * i) else 0)
            && r.irqLine as bv32 == if plain then cfg(b, d, f, 0x3c) & 0xff else 0
  {
    BarWords(cfg, Bdf(b, d, f), i);
    ResourceLanes(cfg, b, d, f);
    LaneBits(cfg(b, d, f, 0x0c));
    LaneBits(cfg(b, d, f, 0x3c));
    hide Lane, Bars, Describe;
  }

  // ------------------------------------------------------------ a bridge on bus 0

  /** A host bridge at 0:0.0 and, at 0:1.0, a bridge with primary bus 0 and secondary bus 1; nothing else. */
  function OneBridge(b: nat, d: nat, f: nat, offset: nat): bv32 {
    if b != 0 || f != 0 || d > 1 then 0xffff_ffff
    else if d == 0 then (if offset == 0x00 then 0x1237_8086 else 0)
    else if offset == 0x00 then 0x0001_1b36
    else if offset == 0x08 then 0x0604_0000
    else if offset == 0x0c then 0x0001_0000
    else if offset == 0x18 then 0x0001_0100
    else 0
  }

  /** Bus 1 is scanned. */
  lemma BehindBridge()
    ensures Found(OneBridge, 1)
  {
    var cfg: Config := OneBridge;
    RootExact(cfg, 0);
    assert Responds(cfg, 0, 1, 0);
    assert BridgeTo(cfg, 0, 1, 0, 1) by {
      assert (OneBridge(0, 1, 0, 0x18) >> 8) & 0xff == 1;
    }
    EdgeExact(cfg, 0, 1);
    hide Edge, Responds, BridgeTo;
    ReachesSelf(cfg, 1);
    ReachesStep(cfg, 0, 1, 1);
  }
}
