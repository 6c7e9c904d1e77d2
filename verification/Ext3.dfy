/**
 * Reading files of an ext3 volume: the block-mapped read of an inode
 * (bsd/ext3/src/inode.cpp:67-131) and the open-file table
 * (bsd/ext3/src/fs.cpp:75-92, 155-256).
 */
module Ext3 {
  import opened Arith
  import opened Common

  const DIRECT: nat := 12
  const MAX_OPEN: nat := 16

  /** The blocks on the device. */
  datatype Volume = Volume(bs: nat, content: nat -> seq<bv8>) {
    ghost predicate Ok() { bs > 0 && bs % 4 == 0 && forall b :: |content(b)| == bs }
  }

  /** i_size and i_block. */
  datatype Inode = Inode(size: nat, block: seq<nat>) {
    predicate Ok() { size < TWO32 && |block| == 15 }
  }

  // ------------------------------------------------------------ the mapped contents

  /** A little-endian word of an indirect block. */
  function Le32(s: seq<bv8>, k: nat): nat
    requires 4 * k + 4 <= |s|
  {
    s[4 * k] as nat + 0x100 * s[4 * k + 1] as nat + 0x1_0000 * s[4 * k + 2] as nat + 0x100_0000 * s[4 * k + 3] as nat
  }

  /** The device block of a logical block; 0 is a hole, and so is everything past the indirect block. */
  ghost function Physical(v: Volume, n: Inode, k: nat): nat
    requires v.Ok() && n.Ok()
  {
    if k < DIRECT then n.block[k]
    else if k < DIRECT + v.bs / 4 && n.block[DIRECT] != 0 then Le32(v.content(n.block[DIRECT]), k - DIRECT)
    else 0
  }

  ghost function Block(v: Volume, n: Inode, k: nat): (s: seq<bv8>)
    requires v.Ok() && n.Ok()
    ensures |s| == v.bs
  {
    if Physical(v, n, k) == 0 then seq(v.bs, _ => 0) else v.content(Physical(v, n, k))
  }

  /** Where a file offset lies: logical block and offset in it. */
  function Logical(i: nat, bs: nat): nat
    requires bs > 0
  {
    i / bs
  }

  function Within(i: nat, bs: nat): (r: nat)
    requires bs > 0
    ensures r < bs
  {
    i % bs
  }

  ghost function Byte(v: Volume, n: Inode, i: nat): bv8
    requires v.Ok() && n.Ok()
  {
    Block(v, n, Logical(i, v.bs))[Within(i, v.bs)]
  }

  /** The file. */
  ghost function Contents(v: Volume, n: Inode): (s: seq<bv8>)
    requires v.Ok() && n.Ok()
    ensures |s| == n.size
  {
    seq(n.size, i requires 0 <= i => Byte(v, n, i))
  }

  lemma Digits(p: nat)
    ensures p == p % 0x100 + 0x100 * (p / 0x100 % 0x100) + 0x1_0000 * (p / 0x1_0000 % 0x100)
                 + 0x100_0000 * (p / 0x100_0000)
  {
    assert p / 0x100 / 0x100 == p / 0x1_0000 && p / 0x1_0000 / 0x100 == p / 0x100_0000;
  }

  /** Four bytes that spell `p`, least significant first, are read as `p`. */
  lemma Le32Bytes(s: seq<bv8>, k: nat, p: nat)
    requires 4 * k + 4 <= |s|
    requires s[4 * k] as nat == p % 0x100 && s[4 * k + 1] as nat == p / 0x100 % 0x100
    requires s[4 * k + 2] as nat == p / 0x1_0000 % 0x100 && s[4 * k + 3] as nat == p / 0x100_0000
    ensures Le32(s, k) == p
  {
    Digits(p);
  }

  /** The word that names block `k`: of i_block, or of the block that word 12 of it names. */
  ghost function Named(v: Volume, n: Inode, k: nat): nat
    requires v.Ok() && n.Ok()
  {
    if k < 12 then n.block[k]
    else if 4 * (k - 12) + 4 <= v.bs && n.block[12] != 0 then Le32(v.content(n.block[12]), k - 12)
    else 0
  }

  /** Byte `at` of block `k` of a file, zero in holes. */
  lemma FileByte(v: Volume, n: Inode, k: nat, at: nat)
    requires v.Ok() && n.Ok() && at < v.bs && v.bs * k + at < n.size
    ensures Contents(v, n)[v.bs * k + at] == if Named(v, n, k) == 0 then 0 else v.content(Named(v, n, k))[at]
  {
    hide Le32;
    hide Logical, Within;
    PlaceOf(v.bs, k, at);
    NamedPhysical(v, n, k);
    hide Physical, Named;
  }

  lemma PlaceOf(bs: nat, k: nat, at: nat)
    requires at < bs
    ensures Logical(bs * k + at, bs) == k && Within(bs * k + at, bs) == at
  {
    ModUnique(bs * k + at, bs, k, at);
  }

  lemma NamedPhysical(v: Volume, n: Inode, k: nat)
    requires v.Ok() && n.Ok()
    ensures Named(v, n, k) == Physical(v, n, k)
  {
    hide Le32;
  }

  /** Bytes that stay inside one block come from that block. */
  lemma WithinBlock(v: Volume, n: Inode, at: nat, t: nat)
    requires v.Ok() && n.Ok() && Within(at, v.bs) + t < v.bs
    ensures Byte(v, n, at + t) == Block(v, n, Logical(at, v.bs))[Within(at, v.bs) + t]
  {
    hide Block;
    SameBlock(at, t, v.bs);
    hide Logical, Within;
  }

  lemma SameBlock(at: nat, t: nat, bs: nat)
    requires bs > 0 && Within(at, bs) + t < bs
    ensures Logical(at + t, bs) == Logical(at, bs) && Within(at + t, bs) == Within(at, bs) + t
  {
    ModUnique(at + t, bs, at / bs, at % bs + t);
  }

  /** How many bytes a read of `len` at `pos` yields. */
  function Yield(size: nat, pos: nat, len: nat): nat {
    if pos >= size then 0 else if len < size - pos then len else size - pos
  }

  function ToS32(n: nat): int { if n % TWO32 < 0x8000_0000 then n % TWO32 else n % TWO32 - TWO32 }

  // -------------------------------------------------------------------- the device

  /** A device that may fail at any call. */
  class Disk {
    const volume: Volume
    const works: (nat, nat) -> bool
    var clock: nat

    constructor (volume: Volume, works: (nat, nat) -> bool)
      ensures this.volume == volume
    {
      this.volume, this.works, clock := volume, works, 0;
    }

    method ReadBlock(b: nat) returns (r: Option<seq<bv8>>)
      modifies this`clock
      ensures r == if works(old(clock), b) then Some(volume.content(b)) else None
    {
      r := if works(clock, b) then Some(volume.content(b)) else None;
      clock := clock + 1;
    }
  }

  method Clear(out: array<bv8>, at: nat, n: nat)
    requires at + n <= out.Length
    modifies out
    ensures out[..] == old(out[..at]) + seq(n, _ => 0) + old(out[at + n..])
  {
    for i := 0 to n
      invariant forall k :: 0 <= k < out.Length ==> out[k] == if at <= k < at + i then 0 else old(out[k])
    {
      out[at + i] := 0;
    }
  }

  method Copy(out: array<bv8>, at: nat, src: seq<bv8>)
    requires at + |src| <= out.Length
    modifies out
    ensures out[..] == old(out[..at]) + src + old(out[at + |src|..])
  {
    for i := 0 to |src|
      invariant forall k :: 0 <= k < out.Length ==> out[k] == if at <= k < at + i then src[k - at] else old(out[k])
    {
      out[at + i] := src[i];
    }
  }

  /** Where the loop finds logical block `k`: a device block, a hole (0), or a failed read of the indirect block. */
  method Locate(disk: Disk, n: Inode, k: nat) returns (r: Option<nat>)
    requires disk.volume.Ok() && n.Ok()
    modifies disk`clock
    ensures r.Some? ==> r.value == Physical(disk.volume, n, k)
    ensures r.None? ==> exists c :: !disk.works(c, n.block[DIRECT])
  {
    if k < DIRECT {
      return Some(n.block[k]);
    }
    if k < DIRECT + disk.volume.bs / 4 {
      if n.block[DIRECT] == 0 {
        return Some(0);
      }
      var ind := disk.ReadBlock(n.block[DIRECT]);
      if ind.None? {
        return None;
      }
      assert 4 * (k - DIRECT) + 4 <= disk.volume.bs;
      return Some(Le32(ind.value, k - DIRECT));
    }
    return Some(0);
  }

  lemma PieceAppended(v: Volume, n: Inode, out: seq<bv8>, offset: nat, done: nat, piece: seq<bv8>)
    requires v.Ok() && n.Ok() && offset + done + |piece| <= n.size && done <= |out|
    requires out[..done] == Contents(v, n)[offset..offset + done]
    requires Within(offset + done, v.bs) + |piece| <= v.bs
    requires var at, from := Logical(offset + done, v.bs), Within(offset + done, v.bs);
             piece == Block(v, n, at)[from..from + |piece|]
    ensures out[..done] + piece == Contents(v, n)[offset..offset + done + |piece|]
  {
    hide Block, Byte, Logical, Within;
    var whole := Contents(v, n);
    forall t | 0 <= t < |piece| ensures piece[t] == whole[offset + done + t] {
      WithinBlock(v, n, offset + done, t);
    }
    var mid, end := offset + done, offset + done + |piece|;
    assert whole[offset..end] == whole[offset..mid] + whole[mid..end];
  }

  /** One turn of the loop: `m` bytes of logical block `k`, from `from` on. */
  method ReadPiece(disk: Disk, n: Inode, k: nat, from: nat, m: nat, out: array<bv8>, at: nat) returns (ok: bool)
    requires disk.volume.Ok() && n.Ok() && from + m <= disk.volume.bs && at + m <= out.Length
    modifies disk`clock, out
    ensures ok ==> out[..] == old(out[..at]) + Block(disk.volume, n, k)[from..from + m] + old(out[at + m..])
    ensures !ok ==> out[..] == old(out[..]) && exists c, b :: !disk.works(c, b)
  {
    hide Physical, Block;
    var phys := Locate(disk, n, k);
    if phys.None? {
      return false;
    }
    if phys.value == 0 {
      HoleBlock(disk.volume, n, k, from, m);
      Clear(out, at, m);
    } else {
      var tmp := disk.ReadBlock(phys.value);
      if tmp.None? {
        return false;
      }
      MappedBlock(disk.volume, n, k);
      Copy(out, at, tmp.value[from..from + m]);
    }
    return true;
  }

  /** What the buffer holds after `done` bytes of the read. */
  ghost predicate Filled(v: Volume, n: Inode, offset: nat, done: nat, out: seq<bv8>, was: seq<bv8>)
    requires v.Ok() && n.Ok()
  {
    && done <= |out| == |was| && out[done..] == was[done..]
    && (done > 0 ==> offset + done <= n.size && out[..done] == Contents(v, n)[offset..offset + done])
  }

  lemma FilledMore(v: Volume, n: Inode, offset: nat, done: nat, m: nat, out: seq<bv8>, out': seq<bv8>, was: seq<bv8>)
    requires v.Ok() && n.Ok() && Filled(v, n, offset, done, out, was)
    requires offset + done + m <= n.size && done + m <= |out|
    requires Within(offset + done, v.bs) + m <= v.bs
    requires var at, from := Logical(offset + done, v.bs), Within(offset + done, v.bs);
             out' == out[..done] + Block(v, n, at)[from..from + m] + out[done + m..]
    ensures Filled(v, n, offset, done + m, out', was)
  {
    hide Block, Logical, Within, Contents;
    var at, from := Logical(offset + done, v.bs), Within(offset + done, v.bs);
    var piece := Block(v, n, at)[from..from + m];
    assert done == 0 ==> out[..done] == Contents(v, n)[offset..offset + done];
    PieceAppended(v, n, out, offset, done, piece);
    assert out'[..done + m] == out[..done] + piece;
    assert out'[done + m..] == out[done..][m..] == was[done..][m..];
  }

  /** Inode::read_data. */
  method ReadData(disk: Disk, n: Inode, offset: nat, len: nat, out: array<bv8>) returns (r: int, ghost failed: bool)
    requires disk.volume.Ok() && n.Ok() && offset < TWO32 && len < TWO32 && len <= out.Length
    modifies disk`clock, out
    ensures failed ==> r == -1 && exists c, b :: !disk.works(c, b)
    ensures !failed ==> r == ToS32(Yield(n.size, offset, len))
    ensures !failed ==> Filled(disk.volume, n, offset, Yield(n.size, offset, len), out[..], old(out[..]))
    ensures out[Yield(n.size, offset, len)..] == old(out[Yield(n.size, offset, len)..])
  {
    hide Block, Filled, Physical, Logical, Within, Volume.Ok;
    var bs := disk.volume.bs;
    var read := 0;
    ghost var total := Yield(n.size, offset, len);
    FilledStart(disk.volume, n, offset, out[..]);
    while read < len
      invariant read <= total && Filled(disk.volume, n, offset, read, out[..], old(out[..]))
    {
      var fileOff := (offset + read) % TWO32;
      if fileOff >= n.size {
        break;
      }
      var blkOff := Within(fileOff, bs);
      var toCopy := Min(Min(bs - blkOff, len - read), n.size - fileOff);
      ghost var before := out[..];
      var ok := ReadPiece(disk, n, Logical(fileOff, bs), blkOff, toCopy, out, read);
      if !ok {
        FilledRest(disk.volume, n, offset, read, total, out[..], old(out[..]));
        return -1, true;
      }
      FilledMore(disk.volume, n, offset, read, toCopy, before, out[..], old(out[..]));
      read := read + toCopy;
    }
    FilledRest(disk.volume, n, offset, read, total, out[..], old(out[..]));
    return ToS32(read), false;
  }

  lemma FilledStart(v: Volume, n: Inode, offset: nat, out: seq<bv8>)
    requires v.Ok() && n.Ok()
    ensures v.bs > 0 && Filled(v, n, offset, 0, out, out)
  {}

  lemma FilledRest(v: Volume, n: Inode, offset: nat, done: nat, total: nat, out: seq<bv8>, was: seq<bv8>)
    requires v.Ok() && n.Ok() && Filled(v, n, offset, done, out, was) && done <= total <= |out|
    ensures out[total..] == was[total..]
  {
    assert out[total..] == out[done..][total - done..];
  }

  lemma HoleBlock(v: Volume, n: Inode, k: nat, from: nat, m: nat)
    requires v.Ok() && n.Ok() && Physical(v, n, k) == 0 && from + m <= v.bs
    ensures Block(v, n, k)[from..from + m] == seq(m, _ => 0)
  {
    hide Physical;
  }

  lemma MappedBlock(v: Volume, n: Inode, k: nat)
    requires v.Ok() && n.Ok() && Physical(v, n, k) != 0
    ensures Block(v, n, k) == v.content(Physical(v, n, k))
  {
    hide Physical;
  }

  // -------------------------------------------------------------------- positions

  function Wrap(n: int): nat { n % TWO32 }

  /** The position a seek asks for. */
  function Target(whence: int, pos: nat, size: nat, offset: int): int {
    if whence == 0 then offset else if whence == 1 then pos + offset else size + offset
  }

  /** The position seek computes in 32-bit arithmetic, if it accepts one. */
  function SoughtTo(whence: int, pos: nat, size: nat, offset: int): Option<nat> {
    if whence == 2 then
      (if Wrap(-offset) > size then None else Some(size - Wrap(-offset)))
    else if whence == 0 || whence == 1 then
      var at := Wrap(if whence == 0 then offset else pos + offset);
      if at > size then None else Some(at)
    else None
  }

  /** Seek works modulo 2^32: it lands on the target's residue, and refuses exactly the residues past the end. */
  lemma SeekWraps(whence: int, pos: nat, size: nat, offset: int)
    requires 0 <= whence <= 2 && pos <= size < TWO32
    ensures var at := Wrap(Target(whence, pos, size, offset));
            SoughtTo(whence, pos, size, offset) == if at <= size then Some(at) else None
  {
    if whence == 2 {
      var k, q := Wrap(-offset), (-offset) / TWO32;
      assert -offset == TWO32 * q + k;
      if k <= size {
        ModUnique(size + offset, TWO32, -q, size - k);
      } else {
        ModUnique(size + offset, TWO32, -q - 1, size - k + TWO32);
      }
    }
  }

  predicate Intended(whence: int, pos: nat, size: nat, offset: int) {
    var to := Target(whence, pos, size, offset);
    SoughtTo(whence, pos, size, offset) == if 0 <= to <= size then Some(to) else None
  }

  /** Every seek does what its target says exactly on files below 2 GiB. */
  lemma SeekExact(size: nat)
    requires size < TWO32
    ensures size < 0x8000_0000 <==>
            (forall whence, pos: nat, offset ::
               0 <= whence <= 2 && pos <= size && -0x8000_0000 <= offset < 0x8000_0000 ==>
                 Intended(whence, pos, size, offset))
  {
    hide SoughtTo;
    if size < 0x8000_0000 {
      forall whence, pos: nat, offset | 0 <= whence <= 2 && pos <= size && -0x8000_0000 <= offset < 0x8000_0000
        ensures Intended(whence, pos, size, offset)
      {
        SeekWraps(whence, pos, size, offset);
      }
    } else {
      SeekWraps(0, 0, size, -0x8000_0000);
      assert !Intended(0, 0, size, -0x8000_0000);
    }
  }

  /** A read's result is the number of bytes delivered exactly below 2 GiB. */
  lemma CountExact(n: nat)
    requires n < TWO32
    ensures ToS32(n) == n <==> n < 0x8000_0000
    ensures ToS32(n) >= 0 <==> n < 0x8000_0000
  {}

  // --------------------------------------------------------------- the open files

  datatype File = File(inodeNo: nat, inode: Inode, pos: nat, inUse: bool)

  /** Since the file was opened or last sought, at `start`, reads have delivered `got`. */
  ghost predicate FileOk(v: Volume, f: File, start: nat, got: seq<bv8>)
    requires v.Ok()
  {
    && f.inode.Ok()
    && (f.inUse ==> start <= f.pos <= f.inode.size && got == Contents(v, f.inode)[start..f.pos])
  }

  lemma ReadOk(v: Volume, f: File, start: nat, got: seq<bv8>, m: nat, out: seq<bv8>, was: seq<bv8>)
    requires v.Ok() && FileOk(v, f, start, got) && f.inUse && f.pos + m <= f.inode.size
    requires Filled(v, f.inode, f.pos, m, out, was)
    ensures FileOk(v, f.(pos := f.pos + m), start, got + out[..m])
  {
    hide Contents;
    var c := Contents(v, f.inode);
    assert c[start..f.pos + m] == c[start..f.pos] + c[f.pos..f.pos + m];
  }

  lemma SeekOk(v: Volume, f: File, at: nat)
    requires v.Ok() && f.inode.Ok() && at <= f.inode.size
    ensures FileOk(v, f.(pos := at), at, [])
  {}

  class FileSystem {
    const files: array<File>
    var disk: Disk?
    var mounted: bool
    ghost var start: seq<nat>
    ghost var got: seq<seq<bv8>>

    /**
     * In every reachable state: positions are inside their files, deliveries are
     * slices, only mounted volumes have open files.
     */
    ghost predicate Valid()
      reads this, files
    {
      && files.Length == MAX_OPEN == |start| == |got|
      && (mounted ==> disk != null && disk.volume.Ok())
      && (forall fd :: 0 <= fd < MAX_OPEN ==> files[fd].inode.Ok() && (files[fd].inUse ==> mounted))
      && (mounted ==> forall fd :: 0 <= fd < MAX_OPEN ==> FileOk(disk.volume, files[fd], start[fd], got[fd]))
    }

    constructor ()
      ensures Valid() && !mounted && fresh(files)
    {
      files := new File[MAX_OPEN](_ => File(0, Inode(0, seq(15, _ => 0)), 0, false));
      disk, mounted := null, false;
      start, got := seq(MAX_OPEN, _ => 0), seq(MAX_OPEN, _ => []);
    }

    /** FileSystem::mount; `readable` says whether device, superblock and group table could be read. */
    method Mount(device: Disk, readable: bool) returns (r: int)
      requires Valid() && device.volume.Ok()
      modifies this
      ensures Valid() && r == if !old(mounted) && readable then 0 else -1
      ensures mounted == (old(mounted) || readable) && (r == 0 ==> disk == device)
    {
      if mounted {
        return -1;
      }
      if !readable {
        disk := null;
        return -1;
      }
      disk, mounted := device, true;
      return 0;
    }

    method Unmount() returns (r: int)
      requires Valid()
      modifies this, files
      ensures Valid() && !mounted && r == if old(mounted) then 0 else -1
      ensures forall fd :: 0 <= fd < MAX_OPEN ==> !files[fd].inUse
    {
      if !mounted {
        return -1;
      }
      for i := 0 to MAX_OPEN
        modifies files
        invariant forall k :: 0 <= k < MAX_OPEN ==> files[k] == if k < i then old(files[k]).(inUse := false)
                  else old(files[k])
      {
        if files[i].inUse {
          files[i] := files[i].(inUse := false);
        }
      }
      disk, mounted := null, false;
      return 0;
    }

    /** alloc_fd: the lowest free descriptor. */
    method AllocFd() returns (fd: int)
      requires Valid() && mounted
      modifies this`start, this`got, files
      ensures Valid() && -1 <= fd < 16
      ensures fd == -1 ==> files[..] == old(files[..]) && forall k :: 0 <= k < 16 ==> files[k].inUse
      ensures fd >= 0 ==> (forall k :: 0 <= k < fd ==> old(files[k]).inUse) && !old(files[fd]).inUse
      ensures fd >= 0 ==> files[..] == old(files[..])[fd := old(files[fd]).(inUse := true, pos := 0)]
    {
      for i := 0 to MAX_OPEN
        invariant files[..] == old(files[..]) && start == old(start) && got == old(got)
        invariant forall k :: 0 <= k < i ==> files[k].inUse
      {
        if !files[i].inUse {
          files[i] := files[i].(inUse := true, pos := 0);
          start, got := start[i := 0], got[i := []];
          SeekOk(disk.volume, files[i], 0);
          return i;
        }
      }
      return -1;
    }

    /** FileSystem::open, given what the path resolves to and what its inode reads as. */
    method Open(ino: Option<nat>, inode: Option<Inode>) returns (fd: int)
      requires Valid() && (inode.Some? ==> inode.value.Ok())
      modifies this`start, this`got, files
      ensures Valid() && -1 <= fd < 16
      ensures fd >= 0 <==> mounted && ino.Some? && inode.Some? && exists k :: 0 <= k < 16 && !old(files[k]).inUse
      ensures fd >= 0 ==>
                !old(files[fd]).inUse && files[..] == old(files[..])[fd := File(ino.value, inode.value, 0, true)]
      ensures fd == -1 ==> forall k :: 0 <= k < 16 ==>
                files[k].inUse == old(files[k]).inUse && (files[k].inUse ==> files[k] == old(files[k]))
    {
      if !mounted || ino.None? {
        return -1;
      }
      fd := AllocFd();
      if fd < 0 {
        return -1;
      }
      var f := files[fd].(inodeNo := ino.value);
      if inode.None? {
        files[fd] := f.(inUse := false);
        return -1;
      }
      files[fd] := f.(inode := inode.value, pos := 0);
      start, got := start[fd := 0], got[fd := []];
      SeekOk(disk.volume, files[fd], 0);
    }

    /** FileSystem::close. */
    method Close(fd: int) returns (r: int)
      requires Valid()
      modifies files
      ensures Valid() && r == if 0 <= fd < 16 && old(files[fd]).inUse then 0 else -1
      ensures r != 0 ==> files[..] == old(files[..])
      ensures r == 0 ==> files[..] == old(files[..])[fd := old(files[fd]).(inUse := false, inodeNo := 0, pos := 0)]
    {
      if fd < 0 || fd >= MAX_OPEN || !files[fd].inUse {
        return -1;
      }
      files[fd] := files[fd].(inUse := false, inodeNo := 0, pos := 0);
      return 0;
    }

    /** A descriptor that read and seek accept. */
    predicate IsOpen(fd: int)
      requires files.Length == MAX_OPEN
      reads files
    {
      0 <= fd < MAX_OPEN && files[fd].inUse
    }

    /**
     * FileSystem::read: the next bytes of the file, and the position moves
     * over them; a count of 2 GiB or more is not representable in the result,
     * and then the position stays.
     */
    method Read(fd: int, out: array<bv8>, len: nat) returns (r: int, ghost failed: bool)
      requires Valid() && len < TWO32 && len <= out.Length && (files as object) != (out as object)
      modifies this`got, files, out, if disk != null then {disk} else {}
      ensures Valid()
      ensures !old(IsOpen(fd)) ==> !failed && r == -1 && files[..] == old(files[..]) && out[..] == old(out[..])
      ensures failed ==> r == -1 && files[..] == old(files[..]) && got == old(got) && exists c, b :: !disk.works(c, b)
      ensures old(IsOpen(fd)) && !failed ==>
                var f, total := old(files[fd]), Yield(old(files[fd]).inode.size, old(files[fd]).pos, len);
                && r == ToS32(total) && disk.volume.Ok()
                && Filled(disk.volume, f.inode, f.pos, total, out[..], old(out[..]))
                && files[..] == old(files[..])[fd := f.(pos := if r >= 0 then f.pos + total else f.pos)]
                && got == if r >= 0 then old(got)[fd := old(got[fd]) + out[..total]] else old(got)
    {
      hide Filled;
      if fd < 0 || fd >= MAX_OPEN || !files[fd].inUse {
        return -1, false;
      }
      var f := files[fd];
      ghost var total := Yield(f.inode.size, f.pos, len);
      ghost var was := out[..];
      assert FileOk(disk.volume, f, start[fd], got[fd]);
      CountExact(total);
      if f.pos >= f.inode.size {
        FilledStart(disk.volume, f.inode, f.pos, was);
        assert out[..0] == [] && got[fd] + [] == got[fd] && got[fd := got[fd]] == got;
        assert f.(pos := f.pos + 0) == f && files[..][fd := f] == files[..];
        return 0, false;
      }
      var n := if (f.pos + len) % TWO32 > f.inode.size then f.inode.size - f.pos else len;
      assert Yield(f.inode.size, f.pos, n) == total;
      r, failed := ReadData(disk, f.inode, f.pos, n, out);
      if !failed && r >= 0 {
        ReadOk(disk.volume, f, start[fd], got[fd], total, out[..], was);
        got := got[fd := got[fd] + out[..total]];
      }
      if r > 0 {
        files[fd] := f.(pos := f.pos + r);
      }
    }

    /** FileSystem::seek. */
    method Seek(fd: int, offset: int, whence: int) returns (r: int)
      requires Valid() && -0x8000_0000 <= offset < 0x8000_0000
      modifies this`start, this`got, files
      ensures Valid()
      ensures !old(IsOpen(fd)) ==> r == -1 && files[..] == old(files[..])
      ensures old(IsOpen(fd)) ==>
                var f := old(files[fd]);
                var to := SoughtTo(whence, f.pos, f.inode.size, offset);
                && r == (if to.Some? then 0 else -1)
                && files[..] == if to.Some? then old(files[..])[fd := f.(pos := to.value)] else old(files[..])
    {
      if fd < 0 || fd >= MAX_OPEN || !files[fd].inUse {
        return -1;
      }
      var f := files[fd];
      var size, at := f.inode.size, f.pos;
      if whence == 0 {
        at := Wrap(offset);
      } else if whence == 1 {
        at := Wrap(f.pos + offset);
      } else if whence == 2 {
        if Wrap(-offset) > size {
          return -1;
        }
        at := size - Wrap(-offset);
      } else {
        return -1;
      }
      if at > size {
        return -1;
      }
      SeekOk(disk.volume, f, at);
      files[fd] := f.(pos := at);
      start, got := start[fd := at], got[fd := []];
      return 0;
    }
  }
}
