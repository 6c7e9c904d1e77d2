/**
 * The recursive PCI bus scan (iokit/IOPCIFamily/pci.c:8-136).  Configuration
 * space is a function that does not change during a scan.
 */
module Pci {
  import opened Common

  const BUSES: nat := 256
  const DEVICES: nat := 32
  const FUNCTIONS: nat := 8
  const MAX_DETECTED: nat := 512

  /** The doubleword at bus, device, function and aligned offset. */
  type Config = (nat, nat, nat, nat) -> bv32

  datatype Bdf = Bdf(bus: nat, dev: nat, func: nat)

  /** pci_config_read: the two low offset bits do not reach the hardware. */
  function Read(cfg: Config, f: Bdf, offset: nat): bv32 { cfg(f.bus, f.dev, f.func, offset - offset % 4) }

  /** `(w >> (8 * k)) & 0xff`. */
  function Lane(w: bv32, k: nat): bv8
    requires k < 4
  {
    (if k == 0 then w & 0xff else if k == 1 then (w >> 8) & 0xff else if k == 2 then (w >> 16) & 0xff
      else (w >> 24) & 0xff) as bv8
  }

  function LowHalf(w: bv32): bv16 { (w & 0xffff) as bv16 }

  function HighHalf(w: bv32): bv16 { ((w >> 16) & 0xffff) as bv16 }

  /** pci_config_read_byte. */
  function ReadByte(cfg: Config, f: Bdf, offset: nat): bv8 {
    Lane(Read(cfg, f, offset), offset % 4)
  }

  /** The offsets of one doubleword read the same word. */
  lemma SameWord(cfg: Config, f: Bdf)
    ensures Read(cfg, f, 0x09) == Read(cfg, f, 0x0a) == Read(cfg, f, 0x0b) == Read(cfg, f, 0x08)
    ensures Read(cfg, f, 0x0e) == Read(cfg, f, 0x0c)
  {}

  predicate Present(cfg: Config, f: Bdf) { Read(cfg, f, 0x00) != 0xffff_ffff }

  /** The test pci_check_device takes for the multifunction bit. */
  predicate Multi(cfg: Config, bus: nat, dev: nat) { Read(cfg, Bdf(bus, dev, 0), 0x0e) & 0x80 != 0 }

  /** Functions pci_check_device hands to pci_check_function. */
  predicate Enumerated(cfg: Config, f: Bdf) {
    && f.dev < DEVICES && f.func < FUNCTIONS
    && Present(cfg, Bdf(f.bus, f.dev, 0)) && Present(cfg, f) && (f.func == 0 || Multi(cfg, f.bus, f.dev))
  }

  /** The secondary bus number of a bridge function, 0 for anything else. */
  function Secondary(cfg: Config, f: Bdf): (bus: nat)
    ensures bus < BUSES
  {
    if ReadByte(cfg, f, 0x0b) == 0x06 && ReadByte(cfg, f, 0x0a) == 0x04 && ReadByte(cfg, f, 0x0e) & 0x7f == 0x01
    then ReadByte(cfg, f, 0x19) as nat
    else 0
  }

  /** Bus `c` hangs under an enumerated bridge of bus `b`. */
  predicate Edge(cfg: Config, b: nat, c: nat) {
    && c != 0
    && exists d: nat, f: nat ::
         d < DEVICES && f < FUNCTIONS && Enumerated(cfg, Bdf(b, d, f)) && Secondary(cfg, Bdf(b, d, f)) == c
  }

  datatype Device = Device(at: Bdf, vendor: bv16, device: bv16, classCode: bv8, subclass: bv8, progIf: bv8,
                           headerType: bv8, bars: seq<bv32>, irqLine: bv8)

  function Bars(cfg: Config, f: Bdf): (bars: seq<bv32>)
    ensures |bars| == 6
  {
    seq(6, i requires 0 <= i < 6 => Read(cfg, f, 0x10 + 4 * i))
  }

  /** What pci_add_device records. */
  function Describe(cfg: Config, f: Bdf): Device {
    var id := Read(cfg, f, 0x00);
    var header := ReadByte(cfg, f, 0x0c);
    var plain := header & 0x7f == 0;
    Device(f, LowHalf(id), HighHalf(id),
           ReadByte(cfg, f, 0x0b), ReadByte(cfg, f, 0x0a), ReadByte(cfg, f, 0x09), header,
           if plain then Bars(cfg, f) else seq(6, _ => 0),
           if plain then ReadByte(cfg, f, 0x3c) else 0)
  }

  // -------------------------------------------------------------- reachable buses

  ghost predicate Chain(cfg: Config, p: seq<nat>) {
    p != [] && forall i :: 0 <= i < |p| - 1 ==> Edge(cfg, p[i], p[i + 1])
  }

  ghost predicate Reaches(cfg: Config, a: nat, b: nat) {
    exists p :: Chain(cfg, p) && p[0] == a && p[|p| - 1] == b
  }

  lemma ReachesSelf(cfg: Config, a: nat)
    ensures Reaches(cfg, a, a)
  {
    assert Chain(cfg, [a]) && [a][0] == a;
  }

  lemma ReachesStep(cfg: Config, a: nat, b: nat, c: nat)
    requires Edge(cfg, a, b) && Reaches(cfg, b, c)
    ensures Reaches(cfg, a, c)
  {
    hide Edge;
    var p :| Chain(cfg, p) && p[0] == b && p[|p| - 1] == c;
    var q := [a] + p;
    forall i | 0 <= i < |q| - 1 ensures Edge(cfg, q[i], q[i + 1]) {
      if i > 0 {
        assert q[i] == p[i - 1] && q[i + 1] == p[i];
      }
    }
    assert Chain(cfg, q) && q[0] == a && q[|q| - 1] == c;
  }

  /** Buses whose bridges all lead to marked buses. */
  ghost predicate Closed(cfg: Config, marked: set<nat>, open: set<nat>) {
    forall b, c :: b in marked && b !in open && Edge(cfg, b, c) ==> c in marked
  }

  lemma {:induction false} ClosedReaches(cfg: Config, marked: set<nat>, p: seq<nat>)
    requires Closed(cfg, marked, {}) && Chain(cfg, p) && p[0] in marked
    ensures p[|p| - 1] in marked
    decreases |p|
  {
    hide Edge;
    if |p| > 1 {
      assert Edge(cfg, p[0], p[1]);
      ClosedReaches(cfg, marked, p[1..]);
    }
  }

  // ------------------------------------------------------------------ the bitmap

  /** `1 << (bus & 7)`. */
  function Mask(k: nat): bv8
    requires k < 8
  {
    if k == 0 then 0x01 else if k == 1 then 0x02 else if k == 2 then 0x04 else if k == 3 then 0x08
    else if k == 4 then 0x10 else if k == 5 then 0x20 else if k == 6 then 0x40 else 0x80
  }

  lemma SetBit(x: bv8, i: nat, j: nat)
    requires i < 8 && j < 8
    ensures (x | Mask(i)) & Mask(j) != 0 <==> x & Mask(j) != 0 || i == j
  {}

  /** Bit `bus` of the bitmap. */
  predicate Bit(bits: seq<bv8>, bus: nat)
    requires |bits| == 32 && bus < BUSES
  {
    bits[bus / 8] & Mask(bus % 8) != 0
  }

  lemma MarkBit(bits: seq<bv8>, bus: nat, b: nat)
    requires |bits| == 32 && bus < BUSES && b < BUSES
    ensures Bit(bits[bus / 8 := bits[bus / 8] | Mask(bus % 8)], b) <==> Bit(bits, b) || b == bus
  {
    hide Mask;
    SetBit(bits[bus / 8], bus % 8, b % 8);
  }

  lemma NoBits(bits: seq<bv8>, b: nat)
    requires |bits| == 32 && b < BUSES && forall k :: 0 <= k < 32 ==> bits[k] == 0
    ensures !Bit(bits, b)
  {
    hide Mask;
    assert bits[b / 8] == 0;
    var m := Mask(b % 8);
    assert 0 & m == 0;
  }

  // ------------------------------------------------------------------ scan states

  /**
   * What holds between two configuration reads: buses that are not being
   * scanned right now are finished, the log of checked functions has no
   * repetition, and it names only enumerated functions of marked buses.
   */
  ghost predicate Sound(cfg: Config, marked: set<nat>, log: seq<Bdf>, open: set<nat>) {
    && open <= marked && (forall b :: b in marked ==> b < BUSES)
    && Closed(cfg, marked, open) && Distinct(log)
    && (forall e :: e in log ==> e.bus in marked && Enumerated(cfg, e))
    && (forall e: Bdf :: e.bus in marked && e.bus !in open && Enumerated(cfg, e) ==> e in log)
  }

  /** What a call adds: functions of newly marked buses or of `own`, and buses reachable from `root`. */
  ghost predicate Grown(cfg: Config, root: nat, own: set<nat>, marked: set<nat>, log: seq<Bdf>, marked': set<nat>,
      log': seq<Bdf>) {
    && marked <= marked' && |log| <= |log'| && log == log'[..|log|]
    && (forall i :: |log| <= i < |log'| ==> log'[i].bus in own || (log'[i].bus in marked' && log'[i].bus !in marked))
    && (forall b :: b in marked' && b !in marked ==> Reaches(cfg, root, b))
  }

  /** No function of `bus` at or after (dev, func) has been checked. */
  ghost predicate Ahead(log: seq<Bdf>, bus: nat, dev: nat, func: nat) {
    forall e :: e in log && e.bus == bus ==> e.dev < dev || (e.dev == dev && e.func < func)
  }

  /** Every enumerated function of `bus` before (dev, func) is logged and the buses under those bridges are marked. */
  ghost predicate Finished(cfg: Config, marked: set<nat>, log: seq<Bdf>, bus: nat, dev: nat, func: nat) {
    forall e: Bdf :: e.bus == bus && (e.dev < dev || (e.dev == dev && e.func < func)) && Enumerated(cfg, e) ==>
      e in log && (Secondary(cfg, e) != 0 ==> Secondary(cfg, e) in marked)
  }

  /** The scan of `bus` has reached (dev, func). */
  ghost predicate At(cfg: Config, marked: set<nat>, log: seq<Bdf>, open: set<nat>, bus: nat, dev: nat, func: nat) {
    && Sound(cfg, marked, log, open) && bus in open
    && Ahead(log, bus, dev, func) && Finished(cfg, marked, log, bus, dev, func)
  }

  lemma Skip(cfg: Config, marked: set<nat>, log: seq<Bdf>, open: set<nat>, bus: nat, dev: nat, func: nat)
    requires At(cfg, marked, log, open, bus, dev, func) && !Enumerated(cfg, Bdf(bus, dev, func))
    ensures At(cfg, marked, log, open, bus, dev, func + 1)
  {
    hide Enumerated, Secondary, Sound;
    forall e: Bdf | e.bus == bus && (e.dev < dev || (e.dev == dev && e.func < func + 1)) && Enumerated(cfg, e)
      ensures e in log && (Secondary(cfg, e) != 0 ==> Secondary(cfg, e) in marked)
    {
      assert e != Bdf(bus, dev, func);
    }
  }

  /** Past the functions a device can have, or past function 0 when it is not multifunction. */
  lemma NextDevice(cfg: Config, marked: set<nat>, log: seq<Bdf>, open: set<nat>, bus: nat, dev: nat, func: nat)
    requires At(cfg, marked, log, open, bus, dev, func) && func <= FUNCTIONS
    requires func == FUNCTIONS || (func == 1 && !Multi(cfg, bus, dev)) || !Present(cfg, Bdf(bus, dev, 0))
    ensures At(cfg, marked, log, open, bus, dev + 1, 0)
  {
    hide Secondary, Sound, Multi, Present;
    assert Ahead(log, bus, dev + 1, 0);
    forall e: Bdf | e.bus == bus && (e.dev < dev + 1 || (e.dev == dev + 1 && e.func < 0)) && Enumerated(cfg, e)
      ensures e in log && (Secondary(cfg, e) != 0 ==> Secondary(cfg, e) in marked)
    {
      assert e.dev < dev || e.func < func;
    }
  }

  lemma AddOwn(cfg: Config, marked: set<nat>, log: seq<Bdf>, open: set<nat>, f: Bdf)
    requires At(cfg, marked, log, open, f.bus, f.dev, f.func) && Enumerated(cfg, f)
    ensures Sound(cfg, marked, log + [f], open) && Ahead(log + [f], f.bus, f.dev, f.func + 1)
    ensures Finished(cfg, marked, log + [f], f.bus, f.dev, f.func)
    ensures Grown(cfg, f.bus, {f.bus}, marked, log, marked, log + [f])
  {
    hide Enumerated, Edge, Secondary;
    assert f !in log;
  }

  lemma FunctionDone(cfg: Config, marked: set<nat>, log: seq<Bdf>, f: Bdf)
    requires Finished(cfg, marked, log, f.bus, f.dev, f.func) && f in log
    requires Secondary(cfg, f) != 0 ==> Secondary(cfg, f) in marked
    ensures Finished(cfg, marked, log, f.bus, f.dev, f.func + 1)
  {
    hide Enumerated, Secondary;
    forall e: Bdf | e.bus == f.bus && e.dev == f.dev && e.func == f.func ensures e == f {
    }
  }

  lemma GrownTrans(cfg: Config, root: nat, own: set<nat>, m: set<nat>, l: seq<Bdf>, m1: set<nat>, l1: seq<Bdf>,
      m2: set<nat>, l2: seq<Bdf>)
    requires Grown(cfg, root, own, m, l, m1, l1) && Grown(cfg, root, own, m1, l1, m2, l2)
    ensures Grown(cfg, root, own, m, l, m2, l2)
  {
    hide Reaches;
    forall i | |l| <= i < |l2| ensures l2[i].bus in own || (l2[i].bus in m2 && l2[i].bus !in m) {
      if i < |l1| {
        assert l2[i] == l1[i];
      }
    }
    assert l == l2[..|l|] by {
      assert l1[..|l|] == l2[..|l1|][..|l|];
    }
  }

  lemma GrownNothing(cfg: Config, root: nat, own: set<nat>, m: set<nat>, l: seq<Bdf>)
    ensures Grown(cfg, root, own, m, l, m, l)
  {
    assert l[..|l|] == l;
  }

  /** What the scan of a bus under a bridge adds, seen from the bridge's bus. */
  lemma GrownThrough(cfg: Config, bus: nat, child: nat, m: set<nat>, l: seq<Bdf>, m': set<nat>, l': seq<Bdf>)
    requires Edge(cfg, bus, child) && Grown(cfg, child, {}, m, l, m', l')
    ensures Grown(cfg, bus, {bus}, m, l, m', l')
  {
    hide Edge, Reaches;
    forall b | b in m' && b !in m ensures Reaches(cfg, bus, b) {
      ReachesStep(cfg, bus, child, b);
    }
  }

  /** Entries of other buses do not disturb the position reached on this one. */
  lemma AheadKept(cfg: Config, bus: nat, dev: nat, func: nat, child: nat, m: set<nat>, l: seq<Bdf>, m': set<nat>,
      l': seq<Bdf>)
    requires Ahead(l, bus, dev, func) && bus in m && Grown(cfg, child, {}, m, l, m', l')
    ensures Ahead(l', bus, dev, func)
  {
    hide Reaches;
    forall e | e in l' && e.bus == bus ensures e.dev < dev || (e.dev == dev && e.func < func) {
      var i :| 0 <= i < |l'| && l'[i] == e;
      assert i < |l|;
      assert e == l[i];
    }
  }

  lemma OpenBus(cfg: Config, marked: set<nat>, log: seq<Bdf>, open: set<nat>, bus: nat)
    requires Sound(cfg, marked, log, open) && bus !in marked && bus < BUSES
    ensures At(cfg, marked + {bus}, log, open + {bus}, bus, 0, 0) && bus !in open
    ensures Grown(cfg, bus, {bus}, marked, log, marked + {bus}, log)
  {
    hide Enumerated, Edge;
    ReachesSelf(cfg, bus);
    assert log[..|log|] == log;
  }

  lemma CloseBus(cfg: Config, marked: set<nat>, log: seq<Bdf>, open: set<nat>, bus: nat)
    requires At(cfg, marked, log, open + {bus}, bus, DEVICES, 0) && bus !in open
    ensures Sound(cfg, marked, log, open)
  {
    hide Secondary;
    forall c | Edge(cfg, bus, c) ensures c in marked {
      var d: nat, f: nat :| d < DEVICES && f < FUNCTIONS && Enumerated(cfg, Bdf(bus, d, f)) &&
        Secondary(cfg, Bdf(bus, d, f)) == c;
    }
    forall e: Bdf | e.bus == bus && Enumerated(cfg, e) ensures e in log {
    }
  }

  lemma LogKept(cfg: Config, root: nat, own: set<nat>, m: set<nat>, l: seq<Bdf>, m': set<nat>, l': seq<Bdf>, e: Bdf)
    requires Grown(cfg, root, own, m, l, m', l') && e in l
    ensures e in l'
  {
    hide Reaches;
    var i :| 0 <= i < |l| && l[i] == e;
    assert l'[i] == e;
  }

  lemma FinishedKept(cfg: Config, root: nat, own: set<nat>, bus: nat, dev: nat, func: nat, m: set<nat>,
      l: seq<Bdf>, m': set<nat>, l': seq<Bdf>)
    requires Finished(cfg, m, l, bus, dev, func) && Grown(cfg, root, own, m, l, m', l')
    ensures Finished(cfg, m', l', bus, dev, func)
  {
    hide Enumerated, Secondary, Reaches;
    forall e | e in l ensures e in l' {
      LogKept(cfg, root, own, m, l, m', l', e);
    }
  }

  /** A bridge whose secondary bus has been scanned: everything known before the recursion still holds. */
  lemma BridgeDone(cfg: Config, f: Bdf, open: set<nat>, m: set<nat>, l: seq<Bdf>, m': set<nat>, l': seq<Bdf>)
    requires Sound(cfg, m, l, open) && f.bus in open && Enumerated(cfg, f) && Secondary(cfg, f) != 0
    requires Ahead(l, f.bus, f.dev, f.func + 1) && Finished(cfg, m, l, f.bus, f.dev, f.func) && f in l
    requires Grown(cfg, Secondary(cfg, f), {}, m, l, m', l') && Secondary(cfg, f) in m'
    ensures Ahead(l', f.bus, f.dev, f.func + 1) && Finished(cfg, m', l', f.bus, f.dev, f.func + 1)
    ensures Grown(cfg, f.bus, {f.bus}, m, l, m', l')
  {
    var child := Secondary(cfg, f);
    assert f.bus in m;
    assert Edge(cfg, f.bus, child) by {
      hide Secondary;
      assert Bdf(f.bus, f.dev, f.func) == f && f.dev < DEVICES && f.func < FUNCTIONS;
    }
    hide *;
    GrownThrough(cfg, f.bus, child, m, l, m', l');
    AheadKept(cfg, f.bus, f.dev, f.func + 1, child, m, l, m', l');
    FinishedKept(cfg, child, {}, f.bus, f.dev, f.func, m, l, m', l');
    LogKept(cfg, child, {}, m, l, m', l', f);
    FunctionDone(cfg, m', l', f);
  }

  ghost function Below(n: nat): (s: set<nat>)
    ensures forall b: nat :: b in s <==> b < n
  {
    if n == 0 then {} else Below(n - 1) + {n - 1}
  }

  /** The buses a scan has still to visit: the termination measure. */
  ghost function Left(marked: set<nat>): set<nat> { Below(BUSES) - marked }

  lemma LeftShrinks(marked: set<nat>, bus: nat)
    requires bus !in marked && bus < BUSES
    ensures Left(marked + {bus}) < Left(marked)
  {
    assert bus in Left(marked) && bus !in Left(marked + {bus});
  }

  lemma Shrinks(cfg: Config, root: nat, own: set<nat>, m: set<nat>, l: seq<Bdf>, m': set<nat>, l': seq<Bdf>)
    requires Grown(cfg, root, own, m, l, m', l')
    ensures m <= m' && (Left(m') < Left(m) || Left(m') == Left(m))
  {}

  /** The scan of one bus, from the outside. */
  lemma BusDone(cfg: Config, bus: nat, m: set<nat>, l: seq<Bdf>, m': set<nat>, l': seq<Bdf>)
    requires bus !in m && bus in m' && Grown(cfg, bus, {bus}, m, l, m', l')
    ensures Grown(cfg, bus, {}, m, l, m', l')
  {
    hide Reaches;
  }

  // -------------------------------------------------------------- the whole scan

  /** Where pci_scan starts: bus 0, or every bus when the host bridge looks multifunction. */
  predicate Root(cfg: Config, r: nat) { r == 0 || (r < BUSES && Multi(cfg, 0, 0)) }

  ghost predicate Found(cfg: Config, b: nat) { exists r: nat :: Root(cfg, r) && Reaches(cfg, r, b) }

  /** The buses are exactly the reachable ones and the log is exactly their enumerated functions, once each. */
  ghost predicate Complete(cfg: Config, marked: set<nat>, log: seq<Bdf>) {
    && (forall b: nat :: b in marked <==> Found(cfg, b))
    && Distinct(log) && (forall e: Bdf :: e in log <==> Found(cfg, e.bus) && Enumerated(cfg, e))
  }

  ghost predicate AllFound(cfg: Config, marked: set<nat>) { forall b: nat :: b in marked ==> Found(cfg, b) }

  ghost predicate AllBelow(marked: set<nat>, n: nat) { forall b: nat :: b < n ==> b in marked }

  lemma ScanComplete(cfg: Config, marked: set<nat>, log: seq<Bdf>)
    requires Sound(cfg, marked, log, {}) && AllFound(cfg, marked)
    requires 0 in marked && (Multi(cfg, 0, 0) ==> AllBelow(marked, BUSES))
    ensures Complete(cfg, marked, log)
  {
    hide Enumerated, Edge, Multi;
    forall b: nat | Found(cfg, b) ensures b in marked {
      var r: nat :| Root(cfg, r) && Reaches(cfg, r, b);
      var p :| Chain(cfg, p) && p[0] == r && p[|p| - 1] == b;
      ClosedReaches(cfg, marked, p);
    }
  }

  lemma RootScanned(cfg: Config, r: nat, m: set<nat>, l: seq<Bdf>, m': set<nat>, l': seq<Bdf>)
    requires Root(cfg, r) && Grown(cfg, r, {}, m, l, m', l') && AllFound(cfg, m) && r in m'
    ensures AllFound(cfg, m') && (0 in m ==> 0 in m') && (AllBelow(m, r) ==> AllBelow(m', r + 1))
  {
    hide Reaches, Root;
  }

  // ------------------------------------------------------------- multifunction bit

  /** The multifunction bit of the header-type byte. */
  predicate HeaderMulti(cfg: Config, bus: nat, dev: nat) { ReadByte(cfg, Bdf(bus, dev, 0), 0x0e) & 0x80 != 0 }

  /** The functions a device declares through its header-type byte. */
  predicate Declared(cfg: Config, f: Bdf) {
    && f.dev < DEVICES && f.func < FUNCTIONS
    && Present(cfg, Bdf(f.bus, f.dev, 0)) && Present(cfg, f) && (f.func == 0 || HeaderMulti(cfg, f.bus, f.dev))
  }

  /**
   * The scan tests bit 7 of the word it reads at offset 0x0e, which the
   * aligned access turns into bit 7 of the cache-line-size byte at 0x0c.  A
   * device is enumerated as it declares itself exactly when the two bits
   * agree or the device has nothing beyond function 0.
   */
  lemma DeclaredExact(cfg: Config, bus: nat, dev: nat)
    requires dev < DEVICES
    ensures (forall func: nat :: Enumerated(cfg, Bdf(bus, dev, func)) <==> Declared(cfg, Bdf(bus, dev, func))) <==>
            (|| (ReadByte(cfg, Bdf(bus, dev, 0), 0x0c) & 0x80 == ReadByte(cfg, Bdf(bus, dev, 0), 0x0e) & 0x80)
             || !Present(cfg, Bdf(bus, dev, 0))
             || (forall func: nat :: 0 < func < FUNCTIONS ==> !Present(cfg, Bdf(bus, dev, func))))
  {
    MultiByte(cfg, bus, dev);
    LaneBit(Read(cfg, Bdf(bus, dev, 0), 0x0c), 2);
    SameWord(cfg, Bdf(bus, dev, 0));
    hide Lane, Read, Multi;
    assert ReadByte(cfg, Bdf(bus, dev, 0), 0x0e) == Lane(Read(cfg, Bdf(bus, dev, 0), 0x0c), 2);
    assert ReadByte(cfg, Bdf(bus, dev, 0), 0x0c) == Lane(Read(cfg, Bdf(bus, dev, 0), 0x0c), 0);
    hide ReadByte, Present;
    if exists func: nat :: 0 < func < FUNCTIONS && Present(cfg, Bdf(bus, dev, func)) {
      var func: nat :| 0 < func < FUNCTIONS && Present(cfg, Bdf(bus, dev, func));
      assert Enumerated(cfg, Bdf(bus, dev, func)) <==> Present(cfg, Bdf(bus, dev, 0)) && Multi(cfg, bus, dev);
      assert Declared(cfg, Bdf(bus, dev, func)) <==> Present(cfg, Bdf(bus, dev, 0)) && HeaderMulti(cfg, bus, dev);
    }
  }

  lemma LaneBit(w: bv32, k: nat)
    requires k < 4
    ensures Lane(w, k) & 0x80 == 0 || Lane(w, k) & 0x80 == 0x80
    ensures Lane(w, 0) & 0x80 == 0 || Lane(w, 0) & 0x80 == 0x80
  {}

  lemma MultiByte(cfg: Config, bus: nat, dev: nat)
    ensures Multi(cfg, bus, dev) <==> ReadByte(cfg, Bdf(bus, dev, 0), 0x0c) & 0x80 != 0
  {}

  function TwoFunctions(bus: nat, dev: nat, func: nat, offset: nat): bv32 {
    if bus == 0 && dev == 0 && func < 2 then (if offset == 0x0c then 0x0080_0000 else 0) else 0xffff_ffff
  }

  /** A multifunction device whose function 1 is never recorded. */
  lemma DeclaredMissed()
    ensures Declared(TwoFunctions, Bdf(0, 0, 1)) && !Enumerated(TwoFunctions, Bdf(0, 0, 1))
  {
    assert TwoFunctions(0, 0, 0, 0x0c) == 0x0080_0000;
  }

  // ------------------------------------------------------------------ the scanner


  /** g_pci_devices, g_pci_count and g_scanned_buses. */
  class Scanner {
    const cfg: Config
    const bitmap: array<bv8>
    var devices: seq<Device>
    ghost var marked: set<nat>
    ghost var log: seq<Bdf>

    constructor (cfg: Config)
      ensures this.cfg == cfg && bitmap.Length == 32 && fresh(bitmap)
    {
      this.cfg := cfg;
      bitmap := new bv8[32](_ => 0);
    }

    /** The bitmap is the set of marked buses; the table holds the first 512 checked functions. */
    ghost predicate Valid()
      reads this, bitmap
    {
      && bitmap.Length == 32
      && (forall b: nat :: b < BUSES ==> (Bit(bitmap[..], b) <==> b in marked))
      && |devices| == (if |log| < 512 then |log| else 512)
      && (forall i :: 0 <= i < |devices| ==> devices[i] == Describe(cfg, log[i]))
    }

    method Mark(bus: nat)
      requires Valid() && bus < BUSES
      modifies this`marked, bitmap
      ensures Valid() && marked == old(marked) + {bus}
    {
      hide Mask, Describe, Bit;
      ghost var was := bitmap[..];
      bitmap[bus / 8] := bitmap[bus / 8] | Mask(bus % 8);
      marked := marked + {bus};
      assert bitmap[..] == was[bus / 8 := was[bus / 8] | Mask(bus % 8)];
      forall b: nat | b < BUSES ensures Bit(bitmap[..], b) <==> b in marked {
        MarkBit(was, bus, b);
      }
    }

    method ReadDevice(f: Bdf) returns (entry: Device)
      ensures entry == Describe(cfg, f)
    {
      hide Read, Lane, LowHalf, HighHalf;
      var id := Read(cfg, f, 0x00);
      var classRev := Read(cfg, f, 0x08);
      var header := Lane(Read(cfg, f, 0x0e), 0);
      var bars := seq(6, _ => 0 as bv32);
      var irq := 0 as bv8;
      if header & 0x7f == 0 {
        for i := 0 to 6
          invariant |bars| == 6 && forall k :: 0 <= k < i ==> bars[k] == Read(cfg, f, 0x10 + 4 * k)
        {
          bars := bars[i := Read(cfg, f, 0x10 + i * 4)];
        }
        assert bars == Bars(cfg, f);
        irq := Lane(Read(cfg, f, 0x3c), 0);
      }
      SameWord(cfg, f);
      entry := Device(f, LowHalf(id), HighHalf(id), Lane(classRev, 3), Lane(classRev, 2),
                      Lane(classRev, 1), header, bars, irq);
    }

    method AddDevice(f: Bdf)
      requires Valid()
      modifies this`devices, this`log
      ensures Valid() && log == old(log) + [f]
    {
      hide Mask, Describe, Bit;
      if |devices| < MAX_DETECTED {
        var entry := ReadDevice(f);
        devices := devices + [entry];
      }
      log := log + [f];
    }

    method CheckFunction(f: Bdf, ghost open: set<nat>)
      requires Valid() && At(cfg, marked, log, open, f.bus, f.dev, f.func) && Enumerated(cfg, f)
      modifies this, bitmap
      ensures Valid() && At(cfg, marked, log, open, f.bus, f.dev, f.func + 1)
      ensures Grown(cfg, f.bus, {f.bus}, old(marked), old(log), marked, log)
      decreases Left(marked), 1
    {
      hide Valid, Sound, Grown, Ahead, Finished, Enumerated, ReadByte;
      AddOwn(cfg, marked, log, open, f);
      AddDevice(f);
      ghost var m, l := marked, log;
      var secondary := 0;
      if ReadByte(cfg, f, 0x0b) == 0x06 && ReadByte(cfg, f, 0x0a) == 0x04 {
        if ReadByte(cfg, f, 0x0e) & 0x7f == 0x01 {
          secondary := ReadByte(cfg, f, 0x19) as nat;
        }
      }
      assert secondary == Secondary(cfg, f);
      hide Secondary;
      if secondary != 0 {
        ScanBus(secondary, open);
        BridgeDone(cfg, f, open, m, l, marked, log);
        GrownTrans(cfg, f.bus, {f.bus}, old(marked), old(log), m, l, marked, log);
      } else {
        FunctionDone(cfg, marked, log, f);
      }
    }

    method CheckDevice(bus: nat, dev: nat, ghost open: set<nat>)
      requires Valid() && dev < DEVICES && At(cfg, marked, log, open, bus, dev, 0)
      modifies this, bitmap
      ensures Valid() && At(cfg, marked, log, open, bus, dev + 1, 0)
      ensures Grown(cfg, bus, {bus}, old(marked), old(log), marked, log)
      decreases Left(marked), 2
    {
      hide Valid, At, Grown, Read;
      GrownNothing(cfg, bus, {bus}, marked, log);
      if Read(cfg, Bdf(bus, dev, 0), 0x00) == 0xffff_ffff {
        NextDevice(cfg, marked, log, open, bus, dev, 0);
        return;
      }
      var multi := Read(cfg, Bdf(bus, dev, 0), 0x0e) & 0x80 != 0;
      var func := 0;
      while func < FUNCTIONS
        invariant func <= FUNCTIONS && Valid() && At(cfg, marked, log, open, bus, dev, func)
        invariant Grown(cfg, bus, {bus}, old(marked), old(log), marked, log)
        invariant func == 0 || multi
        decreases FUNCTIONS - func
      {
        ghost var m, l := marked, log;
        if Read(cfg, Bdf(bus, dev, func), 0x00) == 0xffff_ffff {
          Skip(cfg, marked, log, open, bus, dev, func);
          func := func + 1;
          continue;
        }
        Shrinks(cfg, bus, {bus}, old(marked), old(log), marked, log);
        CheckFunction(Bdf(bus, dev, func), open);
        GrownTrans(cfg, bus, {bus}, old(marked), old(log), m, l, marked, log);
        func := func + 1;
        if !multi {
          break;
        }
      }
      NextDevice(cfg, marked, log, open, bus, dev, func);
    }

    /** A bus that is already marked is left alone; any other is marked, then all 32 devices are checked. */
    method ScanBus(bus: nat, ghost open: set<nat>)
      requires Valid() && Sound(cfg, marked, log, open) && bus < BUSES
      modifies this, bitmap
      ensures Valid() && Sound(cfg, marked, log, open) && bus in marked
      ensures Grown(cfg, bus, {}, old(marked), old(log), marked, log)
      decreases Left(marked), 0
    {
      hide At, Sound, Grown, Mask;
      assert Bit(bitmap[..], bus) <==> bitmap[bus / 8] & Mask(bus % 8) != 0;
      if bitmap[bus / 8] & Mask(bus % 8) != 0 {
        GrownNothing(cfg, bus, {}, marked, log);
        return;
      }
      OpenBus(cfg, marked, log, open, bus);
      LeftShrinks(marked, bus);
      Mark(bus);
      hide Valid;
      ghost var open1 := open + {bus};
      var dev := 0;
      while dev < DEVICES
        invariant dev <= DEVICES && Valid() && At(cfg, marked, log, open1, bus, dev, 0)
        invariant Grown(cfg, bus, {bus}, old(marked), old(log), marked, log)
        invariant bus in marked && Left(marked) < old(Left(marked))
        decreases DEVICES - dev
      {
        ghost var m, l := marked, log;
        CheckDevice(bus, dev, open1);
        Shrinks(cfg, bus, {bus}, m, l, marked, log);
        GrownTrans(cfg, bus, {bus}, old(marked), old(log), m, l, marked, log);
        dev := dev + 1;
      }
      CloseBus(cfg, marked, log, open, bus);
      BusDone(cfg, bus, old(marked), old(log), marked, log);
    }

    method Reset()
      requires bitmap.Length == 32
      modifies this, bitmap
      ensures Valid() && marked == {} && Sound(cfg, marked, log, {})
    {
      hide Mask, Enumerated, Edge, Bit;
      devices, log, marked := [], [], {};
      for i := 0 to 32
        modifies bitmap
        invariant forall k :: 0 <= k < i ==> bitmap[k] == 0
      {
        bitmap[i] := 0;
      }
      forall b: nat | b < BUSES ensures !Bit(bitmap[..], b) {
        NoBits(bitmap[..], b);
      }
    }

    /** pci_scan: from scratch, from every root. */
    method Scan() returns (count: nat)
      requires bitmap.Length == 32
      modifies this, bitmap
      ensures Valid() && Complete(cfg, marked, log)
      ensures count == |devices| == (if |log| < 512 then |log| else 512)
    {
      Reset();
      assert AllFound(cfg, marked) && AllBelow(marked, 0);
      hide Grown, Mask, Valid, Sound, AllFound, AllBelow, Complete, Read;
      var everyBus := Read(cfg, Bdf(0, 0, 0), 0x0e) & 0x80 != 0;
      assert everyBus == Multi(cfg, 0, 0);
      hide Multi;
      ghost var m, l := marked, log;
      if !everyBus {
        ScanBus(0, {});
        RootScanned(cfg, 0, m, l, marked, log);
      } else {
        for bus := 0 to BUSES
          invariant Valid() && Sound(cfg, marked, log, {})
          invariant AllFound(cfg, marked) && AllBelow(marked, bus) && (bus > 0 ==> 0 in marked)
        {
          m, l := marked, log;
          ScanBus(bus, {});
          RootScanned(cfg, bus, m, l, marked, log);
        }
      }
      ScanComplete(cfg, marked, log);
      count := |devices|;
    }
  }
}
