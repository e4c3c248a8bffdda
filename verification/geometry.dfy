/// Volume geometry: the data-region start, the data-cluster count and the
/// mapping from a cluster number to its first sector, all derived from the
/// boot parameter block. Arithmetic is on unbounded integers; the driver's
/// 32-bit wrap-around is excluded by `WellFormed` or left out.
module Geometry {
  import opened Bytes
  import opened Structs

  /// What the driver's divisions and 32-byte entry walk rely on: non-zero
  /// sector and cluster sizes, whole entries per sector, and a data region
  /// that starts inside the volume.
  predicate WellFormed(b: Bpb) {
    && b.bytsPerSec >= DIR_ENTRY_SIZE
    && b.bytsPerSec % DIR_ENTRY_SIZE == 0
    && b.secPerClus > 0
    && FirstDataSector(b) <= b.totSec32
  }

  /// `get_sector_offset`: byte address of a sector.
  function SectorOffset(b: Bpb, sector: nat): nat {
    Mul(sector, b.bytsPerSec)
  }

  /// `get_first_data_sector`: reserved sectors followed by every FAT copy.
  function FirstDataSector(b: Bpb): (r: nat)
    ensures b.rsvdSecCnt <= r
    ensures b.numFats > 0 ==> b.rsvdSecCnt + b.fatSz32 <= r
  {
    b.rsvdSecCnt + b.numFats * b.fatSz32
  }

  /// `get_total_clusters`: whole clusters in the sectors after the FATs.
  function TotalClusters(b: Bpb): (r: nat)
    requires WellFormed(b)
    ensures r <= b.totSec32 - FirstDataSector(b)
  {
    var d := b.totSec32 - FirstDataSector(b);
    QuotientAtMost(d, b.secPerClus);
    d / b.secPerClus
  }

  /// `get_cluster_sector`: clusters 0 and 1 fall back to the data-region start.
  function ClusterSector(b: Bpb, n: nat): (r: nat)
    ensures FirstDataSector(b) <= r
  {
    if n < 2 then FirstDataSector(b) else FirstDataSector(b) + Mul(n - 2, b.secPerClus)
  }

  /// Bytes in one cluster.
  function ClusterSize(b: Bpb): (r: nat)
    ensures b.secPerClus > 0 ==> b.bytsPerSec <= r
  {
    b.bytsPerSec * b.secPerClus
  }

  /// A cluster holds at least one sector, so cluster-size divisions are defined.
  lemma ClusterSizePositive(b: Bpb)
    requires WellFormed(b)
    ensures ClusterSize(b) >= b.bytsPerSec > 0
  {
    MulMonotone(1, b.secPerClus, b.bytsPerSec);
  }

  /// The counted clusters fill the data region, and one more would not fit.
  lemma DataRegionFits(b: Bpb)
    requires WellFormed(b)
    ensures FirstDataSector(b) + TotalClusters(b) * b.secPerClus <= b.totSec32
    ensures b.totSec32 < FirstDataSector(b) + (TotalClusters(b) + 1) * b.secPerClus
  {
    var d := b.totSec32 - FirstDataSector(b);
    var spc := b.secPerClus as int;
    assert d == (d / spc) * spc + d % spc;
  }

  /// Every data cluster `2 <= n < TotalClusters + 2` lies wholly inside the volume.
  lemma ClusterInVolume(b: Bpb, n: nat)
    requires WellFormed(b) && 2 <= n < TotalClusters(b) + 2
    ensures FirstDataSector(b) <= ClusterSector(b, n)
    ensures ClusterSector(b, n) + b.secPerClus <= b.totSec32
  {
    DataRegionFits(b);
    MulMonotone(n - 1, TotalClusters(b), b.secPerClus);
    assert (n - 2) * b.secPerClus + b.secPerClus == (n - 1) * b.secPerClus;
  }

  /// Distinct data clusters get disjoint runs of `SecPerClus` sectors, in cluster order.
  lemma ClustersDisjoint(b: Bpb, m: nat, n: nat)
    requires 2 <= m < n
    ensures ClusterSector(b, m) + b.secPerClus <= ClusterSector(b, n)
  {
    MulMonotone(m - 1, n - 2, b.secPerClus);
    assert (m - 2) * b.secPerClus + b.secPerClus == (m - 1) * b.secPerClus;
  }

  /// Clusters 0 and 1 alias the first data cluster.
  lemma ReservedClustersAlias(b: Bpb, n: nat)
    requires n < 2
    ensures ClusterSector(b, n) == ClusterSector(b, 2)
  {
  }

  /// A quotient by a positive divisor is no larger than the dividend.
  lemma QuotientAtMost(d: nat, k: nat)
    requires k > 0
    ensures d / k <= d
  {
    var q := d / k;
    assert d == q * k + d % k;
    MulMonotone(1, k, q);
  }

  /// A dividend below the divisor has quotient 0.
  lemma QuotientOfSmaller(d: nat, k: nat)
    requires k > 0
    ensures d < k ==> d / k == 0
  {
  }

  lemma MulMonotone(x: nat, y: nat, k: nat)
    requires x <= y
    ensures x * k <= y * k
  {
  }
}
