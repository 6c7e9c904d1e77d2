/**
 * memcpy and memmove (libkern/libkern/string.c:5-45) on one byte memory, so
 * that the two ranges may overlap in every way.
 */
module Memmove {

  type Bytes = seq<bv8>

  /** Memory with the `n` bytes at `src` put at `dest`. */
  function Moved(m: Bytes, dest: nat, src: nat, n: nat): (r: Bytes)
    requires dest + n <= |m| && src + n <= |m|
    ensures |r| == |m|
  {
    m[..dest] + m[src..src + n] + m[dest + n..]
  }

  /** Forward copying never reads a byte it has written. */
  predicate Safe(dest: nat, src: nat, n: nat) { dest <= src || src + n <= dest }

  /** `((d | s) & (w - 1)) == 0`. */
  predicate Aligned(d: nat, s: nat, w: nat)
    requires w > 0
  {
    d % w == 0 && s % w == 0
  }

  lemma MovedNone(m: Bytes, dest: nat, src: nat)
    requires dest <= |m| && src <= |m|
    ensures Moved(m, dest, src, 0) == m
  {
    assert m[..dest] + m[dest..] == m;
  }

  lemma MovedMore(m: Bytes, dest: nat, src: nat, k: nat, w: nat)
    requires dest + k + w <= |m| && src + k + w <= |m| && Safe(dest, src, k + w)
    ensures Moved(Moved(m, dest, src, k), dest + k, src + k, w) == Moved(m, dest, src, k + w)
  {
    var a := Moved(m, dest, src, k);
    assert a[src + k..src + k + w] == m[src + k..src + k + w];
    assert m[src..src + k + w] == m[src..src + k] + m[src + k..src + k + w];
  }

  /** The ranges' tail, copied downwards from the top. */
  lemma MovedLower(m: Bytes, dest: nat, src: nat, r: nat, n: nat)
    requires dest + n <= |m| && src + n <= |m| && 0 < r <= n && src < dest
    ensures var a := Moved(m, dest + r, src + r, n - r);
            a[dest + r - 1 := a[src + r - 1]] == Moved(m, dest + r - 1, src + r - 1, n - r + 1)
  {
    var a := Moved(m, dest + r, src + r, n - r);
    assert a[src + r - 1] == m[src + r - 1];
    assert m[src + r - 1..src + n] == [m[src + r - 1]] + m[src + r..src + n];
    var b := m[src + r - 1];
    assert a[dest + r - 1 := b] == m[..dest + r - 1] + [b] + m[src + r..src + n] + m[dest + n..];
  }

  /** A `w`-byte load followed by a `w`-byte store. */
  method CopyWord(mem: array<bv8>, d: nat, s: nat, w: nat)
    requires d + w <= mem.Length && s + w <= mem.Length
    modifies mem
    ensures mem[..] == Moved(old(mem[..]), d, s, w)
  {
    var word := mem[s..s + w];
    for i := 0 to w
      invariant forall k :: 0 <= k < mem.Length ==> mem[k] == if d <= k < d + i then word[k - d] else old(mem[k])
    {
      mem[d + i] := word[i];
    }
  }

  /** `while (n >= w)` over words of `w` bytes, continuing a copy that has done `done` bytes. */
  method CopyWords(mem: array<bv8>, dest: nat, src: nat, n: nat, w: nat, done: nat, ghost m: Bytes) returns (k: nat)
    requires dest + n <= mem.Length && src + n <= mem.Length && Safe(dest, src, n) && w > 0 && done <= n
    requires |m| == mem.Length && mem[..] == Moved(m, dest, src, done)
    modifies mem
    ensures done <= k <= n && n - k < w && mem[..] == Moved(m, dest, src, k)
  {
    hide Moved;
    k := done;
    while n - k >= w
      invariant done <= k <= n && mem[..] == Moved(m, dest, src, k)
    {
      MovedMore(m, dest, src, k, w);
      CopyWord(mem, dest + k, src + k, w);
      k := k + w;
    }
  }

  /** memcpy: 8 bytes at a time while both pointers are 8-aligned, then 4, then 1. */
  method MemCpy(mem: array<bv8>, dest: nat, src: nat, n: nat)
    requires dest + n <= mem.Length && src + n <= mem.Length && Safe(dest, src, n)
    modifies mem
    ensures mem[..] == Moved(old(mem[..]), dest, src, n)
  {
    hide Moved, Aligned, Safe;
    ghost var m := mem[..];
    MovedNone(m, dest, src);
    var k := 0;
    if Aligned(dest, src, 8) {
      k := CopyWords(mem, dest, src, n, 8, k, m);
    }
    if Aligned(dest + k, src + k, 4) {
      k := CopyWords(mem, dest, src, n, 4, k, m);
    }
    k := CopyWords(mem, dest, src, n, 1, k, m);
  }

  /** memmove, for every overlap and every alignment. */
  method MemMove(mem: array<bv8>, dest: nat, src: nat, n: nat)
    requires dest + n <= mem.Length && src + n <= mem.Length
    modifies mem
    ensures mem[..] == Moved(old(mem[..]), dest, src, n)
  {
    if dest == src {
      return;
    }
    if dest < src {
      MemCpy(mem, dest, src, n);
      return;
    }
    ghost var m := mem[..];
    var r := n;
    MovedNone(m, dest + n, src + n);
    while r > 0
      invariant 0 <= r <= n && mem[..] == Moved(m, dest + r, src + r, n - r)
    {
      MovedLower(m, dest, src, r, n);
      r := r - 1;
      mem[dest + r] := mem[src + r];
    }
  }
}
