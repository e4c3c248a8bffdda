/// FAT access: 28-bit entries read from the first FAT copy and written to
/// every copy, the free-cluster scan, and the walk along a cluster chain.
module Fat {
  import opened Bytes
  import opened Structs
  import opened Geometry

  /// `0x0FFFFFFF`: the mask applied to every entry, the end-of-chain value
  /// the driver writes, and the answer of every failed read, scan and walk.
  const FAT_MASK: nat := 0x0FFF_FFFF
  /// Entries at or above this value end a chain.
  const EOC_MIN: nat := 0x0FFF_FFF8
  /// `x & 0x0FFFFFFF == x % ENTRY_MODULUS` for unsigned `x`.
  const ENTRY_MODULUS: nat := 0x1000_0000

  /// Byte address of the entry of cluster `c` in FAT copy `copy`: copy `i`
  /// starts `i * FATSz32` sectors after the reserved area and holds 4 bytes
  /// per cluster. `DriverEntryAddr` shows that the driver's sector/offset
  /// split lands on the same byte.
  function FatEntryAddr(b: Bpb, c: nat, copy: nat): nat {
    Mul(b.rsvdSecCnt + Mul(copy, b.fatSz32), b.bytsPerSec) + 4 * c
  }

  /// The driver's computation: the sector holding the entry, then the
  /// offset within that sector.
  lemma DriverEntryAddr(b: Bpb, c: nat, copy: nat)
    requires b.bytsPerSec > 0
    ensures FatEntryAddr(b, c, copy)
         == Mul(b.rsvdSecCnt + Mul(copy, b.fatSz32) + (4 * c) / b.bytsPerSec, b.bytsPerSec) + (4 * c) % b.bytsPerSec
  {
    SplitAddr(b.rsvdSecCnt + Mul(copy, b.fatSz32), b.bytsPerSec, 4 * c);
  }

  lemma SplitAddr(base: nat, bps: nat, off: nat)
    requires bps > 0
    ensures Mul(base, bps) + off == Mul(base + off / bps, bps) + off % bps
  {
    assert off == (off / bps) * bps + off % bps;
    assert (base + off / bps) * bps == base * bps + (off / bps) * bps;
  }

  /// Copies of one entry are either the same four bytes (an empty FAT
  /// size) or lie apart, in copy order.
  lemma CopiesApart(b: Bpb, c: nat, k: nat, i: nat)
    requires WellFormed(b) && k < i
    ensures FatEntryAddr(b, c, k) == FatEntryAddr(b, c, i) || FatEntryAddr(b, c, k) + 4 <= FatEntryAddr(b, c, i)
  {
    CopyOffset(b.rsvdSecCnt, b.fatSz32, b.bytsPerSec, k);
    CopyOffset(b.rsvdSecCnt, b.fatSz32, b.bytsPerSec, i);
    MulGrows(k, i, Mul(b.fatSz32, b.bytsPerSec));
    if b.fatSz32 > 0 {
      MulGrows(1, b.fatSz32, b.bytsPerSec);
    } else {
      MulZero(b.bytsPerSec);
    }
  }

  /// Copy `k` starts `k` FAT sizes past copy 0.
  lemma CopyOffset(r: nat, f: nat, bps: nat, k: nat)
    ensures Mul(r + Mul(k, f), bps) == Mul(r, bps) + Mul(k, Mul(f, bps))
  {
    assert (r + k * f) * bps == r * bps + k * (f * bps);
  }

  lemma MulGrows(x: nat, y: nat, z: nat)
    requires x <= y
    ensures Mul(x, z) <= Mul(y, z)
    ensures x < y ==> Mul(x, z) + z <= Mul(y, z)
  {
    var d: nat := y - x;
    assert (x + d) * z == x * z + d * z;
  }

  lemma MulZero(z: nat)
    ensures Mul(0, z) == 0 && Mul(1, z) == z && Mul(z, 0) == 0
  {
  }

  /// `read_fat_entry`: the 4 bytes of FAT copy 0 masked to 28 bits, or
  /// `0x0FFFFFFF` when the read fails.
  function ReadFatEntry(b: Bpb, img: seq<byte>, c: nat): (r: nat)
    ensures r <= FAT_MASK
    ensures FatEntryAddr(b, c, 0) + 4 > |img| ==> r == FAT_MASK
  {
    match ReadAt(img, FatEntryAddr(b, c, 0), 4)
    case None => FAT_MASK
    case Some(bs) => LE32(bs, 0) % ENTRY_MODULUS
  }

  /// Byte `p` belongs to a copy of cluster `c`'s entry that fits in an image of `n` bytes.
  ghost predicate InWrittenCopy(b: Bpb, n: nat, c: nat, p: nat)
  {
    exists k :: 0 <= k < b.numFats && FatEntryAddr(b, c, k) + 4 <= n
      && FatEntryAddr(b, c, k) <= p < FatEntryAddr(b, c, k) + 4
  }

  /// `out` is `img` with `val` stored, little-endian, in every copy of
  /// cluster `c`'s entry that fits, and every other byte as it was.
  ghost predicate FatWritten(b: Bpb, img: seq<byte>, out: seq<byte>, c: nat, val: u32)
  {
    && |out| == |img|
    && (forall k :: 0 <= k < b.numFats && FatEntryAddr(b, c, k) + 4 <= |img| ==>
          out[FatEntryAddr(b, c, k)..FatEntryAddr(b, c, k) + 4] == Bytes32(val))
    && (forall p :: 0 <= p < |img| && !InWrittenCopy(b, |img|, c, p) ==> out[p] == img[p])
  }

  /// `write_fat_entry`: mask the value to 28 bits and write it into FAT
  /// copies 0, 1, ... in turn, stopping at the first write that fails.
  method WriteFatEntry(b: Bpb, img: seq<byte>, c: nat, v: u32) returns (out: seq<byte>)
    requires WellFormed(b)
    ensures FatWritten(b, img, out, c, v % ENTRY_MODULUS)
  {
    var masked: u32 := v % ENTRY_MODULUS;
    var entry := Bytes32(masked);
    out := img;
    var i := 0;
    while i < b.numFats
      invariant 0 <= i <= b.numFats
      invariant |out| == |img|
      invariant forall k :: 0 <= k < i ==> FatEntryAddr(b, c, k) + 4 <= |img|
      invariant forall k :: 0 <= k < i ==> out[FatEntryAddr(b, c, k)..FatEntryAddr(b, c, k) + 4] == entry
      invariant forall p :: 0 <= p < |img| && !WrittenBefore(b, c, i, p) ==> out[p] == img[p]
    {
      var a := FatEntryAddr(b, c, i);
      var w := WriteAt(out, a, entry);
      if w.None? {
        forall k | i <= k < b.numFats ensures FatEntryAddr(b, c, k) + 4 > |img| {
          if k > i { CopiesApart(b, c, i, k); }
        }
        forall p | 0 <= p < |img| && !InWrittenCopy(b, |img|, c, p) ensures !WrittenBefore(b, c, i, p) { }
        return;
      }
      WriteKeepsEarlierCopies(b, c, i, out, w.value, entry);
      out := w.value;
      i := i + 1;
    }
    forall p | 0 <= p < |img| && !InWrittenCopy(b, |img|, c, p) ensures !WrittenBefore(b, c, i, p) { }
  }

  /// Writing copy `i` keeps the copies written before it intact.
  lemma WriteKeepsEarlierCopies(b: Bpb, c: nat, i: nat, prev: seq<byte>, out: seq<byte>, entry: seq<byte>)
    requires WellFormed(b) && |entry| == 4
    requires WriteAt(prev, FatEntryAddr(b, c, i), entry) == Some(out)
    requires forall k :: 0 <= k < i ==> FatEntryAddr(b, c, k) + 4 <= |prev|
    requires forall k :: 0 <= k < i ==> prev[FatEntryAddr(b, c, k)..FatEntryAddr(b, c, k) + 4] == entry
    ensures forall k :: 0 <= k <= i ==> out[FatEntryAddr(b, c, k)..FatEntryAddr(b, c, k) + 4] == entry
  {
    var a := FatEntryAddr(b, c, i);
    forall k | 0 <= k <= i
      ensures out[FatEntryAddr(b, c, k)..FatEntryAddr(b, c, k) + 4] == entry
    {
      if k < i {
        CopiesApart(b, c, k, i);
      }
      WriteKeepsRange(prev, out, a, FatEntryAddr(b, c, k), entry);
    }
  }

  /// A 4-byte write at `a` leaves `entry` at `ak` when it wrote `entry`
  /// there itself or when `ak` lies before it and already held `entry`.
  lemma WriteKeepsRange(prev: seq<byte>, out: seq<byte>, a: nat, ak: nat, entry: seq<byte>)
    requires |entry| == 4 && WriteAt(prev, a, entry) == Some(out)
    requires ak == a || (ak + 4 <= a && prev[ak..ak + 4] == entry)
    ensures out[ak..ak + 4] == entry
  {
    forall t | 0 <= t < 4 ensures out[ak..ak + 4][t] == entry[t] {
      if ak != a {
        assert prev[ak..ak + 4][t] == entry[t];
      }
    }
  }

  /// Byte `p` belongs to one of the first `i` copies of cluster `c`'s entry.
  ghost predicate WrittenBefore(b: Bpb, c: nat, i: nat, p: nat)
  {
    exists k :: 0 <= k < i && FatEntryAddr(b, c, k) <= p < FatEntryAddr(b, c, k) + 4
  }

  /// After a write, reading the same entry returns the masked value (or
  /// the failure answer when FAT copy 0 lies past the end of the image).
  lemma ReadAfterWriteFat(b: Bpb, img: seq<byte>, out: seq<byte>, c: nat, v: u32)
    requires WellFormed(b) && b.numFats >= 1
    requires FatWritten(b, img, out, c, v % ENTRY_MODULUS)
    ensures FatEntryAddr(b, c, 0) + 4 <= |img| ==> ReadFatEntry(b, out, c) == v % ENTRY_MODULUS
    ensures FatEntryAddr(b, c, 0) + 4 > |img| ==> ReadFatEntry(b, out, c) == FAT_MASK
  {
    var a := FatEntryAddr(b, c, 0);
    if a + 4 <= |img| {
      var w: u32 := v % ENTRY_MODULUS;
      assert out[a..a + 4] == Bytes32(w);
      assert ReadAt(out, a, 4) == Some(out[a..a + 4]);
      assert LE32(out[a..a + 4], 0) == w;
      assert w % ENTRY_MODULUS == w;
    }
  }

  /// Writing cluster `c`'s entry leaves the entry of every other cluster
  /// `d` of the FAT as it reads before.
  lemma WriteKeepsOtherEntries(b: Bpb, img: seq<byte>, out: seq<byte>, c: nat, d: nat, val: u32)
    requires WellFormed(b) && FatWritten(b, img, out, c, val)
    requires c != d && 4 * d + 4 <= Mul(b.fatSz32, b.bytsPerSec)
    ensures ReadFatEntry(b, out, d) == ReadFatEntry(b, img, d)
  {
    var a := FatEntryAddr(b, d, 0);
    var base := Mul(b.rsvdSecCnt, b.bytsPerSec);
    var size := Mul(b.fatSz32, b.bytsPerSec);
    CopyOffset(b.rsvdSecCnt, b.fatSz32, b.bytsPerSec, 0);
    MulZero(size);
    forall p | a <= p < a + 4 && p < |img| ensures out[p] == img[p] {
      forall k | 0 <= k < b.numFats ensures !(FatEntryAddr(b, c, k) <= p < FatEntryAddr(b, c, k) + 4) {
        CopyOffset(b.rsvdSecCnt, b.fatSz32, b.bytsPerSec, k);
        EntryBytesDisjoint(base, size, k, c, d, p);
      }
    }
    if a + 4 <= |img| {
      assert out[a..a + 4] == img[a..a + 4];
    }
  }

  /// Byte `p` of entry `d` in copy 0 is no byte of entry `c != d` in any
  /// copy `k`: copy 0 holds both entries apart, and every later copy starts
  /// past the end of the entries copy 0 holds.
  lemma EntryBytesDisjoint(base: nat, size: nat, k: nat, c: nat, d: nat, p: nat)
    requires c != d && 4 * d + 4 <= size
    requires base + 4 * d <= p < base + 4 * d + 4
    ensures !(base + Mul(k, size) + 4 * c <= p < base + Mul(k, size) + 4 * c + 4)
  {
    MulZero(size);
    if k > 0 {
      MulGrows(1, k, size);
    }
  }

  /// The cluster `get_free_cluster` settles on when its scan starts at `c`:
  /// the first data cluster from `c` on whose entry reads 0, else `0x0FFFFFFF`.
  function FreeFrom(b: Bpb, img: seq<byte>, c: nat): (r: nat)
    requires WellFormed(b)
    ensures r == FAT_MASK || (c <= r < TotalClusters(b) + 2 && ReadFatEntry(b, img, r) == 0)
    decreases TotalClusters(b) + 2 - c
  {
    if c >= TotalClusters(b) + 2 then FAT_MASK
    else if ReadFatEntry(b, img, c) == 0 then c
    else FreeFrom(b, img, c + 1)
  }

  /// `get_free_cluster`: the least data cluster whose entry reads 0, or
  /// `0x0FFFFFFF` when there is none. The image is only read.
  method GetFreeCluster(b: Bpb, img: seq<byte>) returns (r: nat)
    requires WellFormed(b)
    ensures || (2 <= r < TotalClusters(b) + 2 && ReadFatEntry(b, img, r) == 0
                && forall c :: 2 <= c < r ==> ReadFatEntry(b, img, c) != 0)
            || (r == FAT_MASK && forall c :: 2 <= c < TotalClusters(b) + 2 ==> ReadFatEntry(b, img, c) != 0)
    ensures r == FreeFrom(b, img, 2)
  {
    var total := TotalClusters(b);
    var c := 2;
    while c < total + 2
      invariant 2 <= c <= total + 2
      invariant forall d :: 2 <= d < c ==> ReadFatEntry(b, img, d) != 0
      invariant FreeFrom(b, img, c) == FreeFrom(b, img, 2)
    {
      if ReadFatEntry(b, img, c) == 0 {
        return c;
      }
      c := c + 1;
    }
    return FAT_MASK;
  }

  /// The cluster reached from `s` by following `k` links; `0x0FFFFFFF` as
  /// soon as a link is an end-of-chain value.
  function Walk(b: Bpb, img: seq<byte>, s: nat, k: nat): (r: nat)
    ensures k == 0 ==> r == s
    ensures k > 0 ==> r < EOC_MIN || r == FAT_MASK
    decreases k
  {
    if k == 0 then s
    else
      var next := ReadFatEntry(b, img, s);
      if next >= EOC_MIN then FAT_MASK else Walk(b, img, next, k - 1)
  }

  /// One more link extends a walk that has not ended by one `read_fat_entry`.
  lemma {:induction false} WalkStep(b: Bpb, img: seq<byte>, s: nat, k: nat)
    requires Walk(b, img, s, k) < EOC_MIN
    ensures Walk(b, img, s, k + 1) ==
      (var n := ReadFatEntry(b, img, Walk(b, img, s, k)); if n >= EOC_MIN then FAT_MASK else n)
    decreases k
  {
    if k > 0 {
      WalkStep(b, img, ReadFatEntry(b, img, s), k - 1);
    }
  }

  /// The first link of a walk of one or more links.
  lemma WalkFirst(b: Bpb, img: seq<byte>, s: nat, k: nat)
    requires k > 0
    ensures var n := ReadFatEntry(b, img, s);
      Walk(b, img, s, k) == if n >= EOC_MIN then FAT_MASK else Walk(b, img, n, k - 1)
  {
  }

  /// `find_cluster_from_offset`: follow `offset / cluster size` links from
  /// `start`, giving up with `0x0FFFFFFF` at an end-of-chain link.
  method FindClusterFromOffset(b: Bpb, img: seq<byte>, start: nat, offset: nat) returns (r: nat)
    requires ClusterSize(b) > 0
    ensures r == Walk(b, img, start, offset / ClusterSize(b))
    ensures offset < ClusterSize(b) ==> r == start
  {
    var clusterSize := ClusterSize(b);
    var skip: nat := offset / clusterSize;
    QuotientOfSmaller(offset, clusterSize);
    var cur: nat := start;
    var i := 0;
    while i < skip
      invariant 0 <= i <= skip
      invariant Walk(b, img, start, skip) == Walk(b, img, cur, skip - i)
    {
      var next := ReadFatEntry(b, img, cur);
      WalkFirst(b, img, cur, skip - i);
      if next >= EOC_MIN {
        return FAT_MASK;
      }
      cur := next;
      i := i + 1;
    }
    r := cur;
  }

  /// The directory loop `while (c < 0x0FFFFFF8) { ...; c = read_fat_entry(c); }`
  /// reaches an end-of-chain value within `fuel` links.
  predicate Terminates(b: Bpb, img: seq<byte>, c: nat, fuel: nat)
    decreases fuel
  {
    c >= EOC_MIN || (fuel > 0 && Terminates(b, img, ReadFatEntry(b, img, c), fuel - 1))
  }

  /// The chain from `c` is not cyclic: the driver's directory loops end.
  ghost predicate FiniteChain(b: Bpb, img: seq<byte>, c: nat)
  {
    exists fuel :: Terminates(b, img, c, fuel)
  }
}
