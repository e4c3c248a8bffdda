/// The open-file table lookups of `open`, `close`, `lseek` and `read`, and
/// the chunked read along a file's cluster chain.
module OpenFiles {
  import opened Bytes
  import opened Structs
  import opened Geometry
  import opened Fat

  /// A used slot whose stored name is `name`: what `close`, `lseek` and
  /// `read` look for. The path is not compared.
  predicate HoldsName(f: OpenFile, name: seq<byte>) {
    f.used && f.name == name
  }

  /// A used slot holding `name` opened from directory `path`: what `open`
  /// treats as already open.
  predicate HoldsFile(f: OpenFile, name: seq<byte>, path: seq<byte>) {
    HoldsName(f, name) && f.path == path
  }

  /// The slot `close`, `lseek` and `read` act on: the first used slot
  /// whose name is `name`, or -1.
  function FirstHeld(s: seq<OpenFile>, name: seq<byte>): (i: int)
    ensures -1 <= i < |s|
    ensures i >= 0 ==> HoldsName(s[i], name) && forall k :: 0 <= k < i ==> !HoldsName(s[k], name)
    ensures i == -1 ==> forall k :: 0 <= k < |s| ==> !HoldsName(s[k], name)
    decreases |s|
  {
    if |s| == 0 then -1
    else if HoldsName(s[0], name) then 0
    else
      var j := FirstHeld(s[1..], name);
      if j == -1 then -1 else j + 1
  }

  /// The slot `open` fills: the first unused slot, or -1.
  function FirstUnused(s: seq<OpenFile>): (i: int)
    ensures -1 <= i < |s|
    ensures i >= 0 ==> !s[i].used && forall k :: 0 <= k < i ==> s[k].used
    ensures i == -1 ==> forall k :: 0 <= k < |s| ==> s[k].used
    decreases |s|
  {
    if |s| == 0 then -1
    else if !s[0].used then 0
    else
      var j := FirstUnused(s[1..]);
      if j == -1 then -1 else j + 1
  }

  /// The loop of `close_command`, `lseek_command` and `read_command`.
  method FindHandle(table: array<OpenFile>, name: seq<byte>) returns (i: int)
    ensures i == FirstHeld(table[..], name)
  {
    var k := 0;
    while k < table.Length
      invariant 0 <= k <= table.Length
      invariant forall t :: 0 <= t < k ==> !HoldsName(table[t], name)
    {
      if table[k].used && table[k].name == name {
        FirstHeldIs(table[..], name, k);
        return k;
      }
      k := k + 1;
    }
    FirstHeldIs(table[..], name, -1);
    return -1;
  }

  /// `FirstHeld` is the one index its contract describes.
  lemma FirstHeldIs(s: seq<OpenFile>, name: seq<byte>, i: int)
    requires -1 <= i < |s|
    requires i >= 0 ==> HoldsName(s[i], name) && forall k :: 0 <= k < i ==> !HoldsName(s[k], name)
    requires i == -1 ==> forall k :: 0 <= k < |s| ==> !HoldsName(s[k], name)
    ensures FirstHeld(s, name) == i
  {
  }

  /// `FirstUnused` is the one index its contract describes.
  lemma FirstUnusedIs(s: seq<OpenFile>, i: int)
    requires -1 <= i < |s|
    requires i >= 0 ==> !s[i].used && forall k :: 0 <= k < i ==> s[k].used
    requires i == -1 ==> forall k :: 0 <= k < |s| ==> s[k].used
    ensures FirstUnused(s) == i
  {
  }

  /// The table loop of `open_command`: it reports a slot that already holds
  /// the file opened from the same path, and otherwise the first unused
  /// slot (-1 when all are in use).
  method FindOpenSlot(table: array<OpenFile>, name: seq<byte>, path: seq<byte>) returns (dup: bool, free: int)
    ensures dup <==> exists k :: 0 <= k < table.Length && HoldsFile(table[k], name, path)
    ensures !dup ==> free == FirstUnused(table[..])
  {
    free := -1;
    var k := 0;
    while k < table.Length
      invariant 0 <= k <= table.Length
      invariant forall t :: 0 <= t < k ==> !HoldsFile(table[t], name, path)
      invariant -1 <= free < k
      invariant free >= 0 ==> !table[free].used && forall t :: 0 <= t < free ==> table[t].used
      invariant free == -1 ==> forall t :: 0 <= t < k ==> table[t].used
    {
      if table[k].used {
        if table[k].name == name && table[k].path == path {
          return true, free;
        }
      } else if free == -1 {
        free := k;
      }
      k := k + 1;
    }
    FirstUnusedIs(table[..], free);
    return false, free;
  }

  /// `fread` of `n` one-byte items at `at`: the bytes up to the end of the
  /// image, possibly fewer than asked for, none at or past the end.
  function ReadSome(img: seq<byte>, at: nat, n: nat): (r: seq<byte>)
    ensures |r| <= n
    ensures |r| > 0 ==> at + |r| <= |img| && r == img[at..at + |r|]
    ensures |r| < n ==> at + |r| >= |img|
  {
    if at >= |img| then []
    else if at + n <= |img| then img[at..at + n]
    else img[at..]
  }

  function Min(x: nat, y: nat): nat {
    if x <= y then x else y
  }

  /// Byte address of byte `off` of cluster `c`.
  function DataAddr(b: Bpb, c: nat, off: nat): nat {
    SectorOffset(b, ClusterSector(b, c)) + off
  }

  /// The data loop of `read_command`, from byte `off` of cluster `cur`,
  /// for `want` bytes: read the rest of the cluster or what is still
  /// wanted, stop when a read returns nothing, and otherwise go on at the
  /// start of the next cluster of the chain, even after a short read.
  function ReadFrom(b: Bpb, img: seq<byte>, cur: nat, off: nat, want: nat): (r: seq<byte>)
    requires off < ClusterSize(b)
    ensures |r| <= want
    decreases want
  {
    if want == 0 || cur >= EOC_MIN then []
    else
      var got := Chunk(b, img, cur, off, want);
      if |got| == 0 || |got| == want then got
      else got + ReadFrom(b, img, ReadFatEntry(b, img, cur), 0, want - |got|)
  }

  /// The bytes one turn of the loop reads: the rest of cluster `cur` from
  /// `off`, or less when less is wanted or the image ends first.
  function Chunk(b: Bpb, img: seq<byte>, cur: nat, off: nat, want: nat): (r: seq<byte>)
    requires off < ClusterSize(b)
    ensures |r| <= want
  {
    ReadSome(img, DataAddr(b, cur, off), Min(want, ClusterSize(b) - off))
  }

  /// The loop itself, proved to compute `ReadFrom`.
  method ReadChain(b: Bpb, img: seq<byte>, start: nat, off0: nat, want: nat) returns (data: seq<byte>)
    requires off0 < ClusterSize(b)
    ensures data == ReadFrom(b, img, start, off0, want)
  {
    var clusterSize := ClusterSize(b);
    var cur: nat := start;
    var off: nat := off0;
    var left: nat := want;
    data := [];
    AppendEmpty(ReadFrom(b, img, start, off0, want));
    while left > 0 && cur < EOC_MIN
      invariant off < clusterSize && |data| + left == want
      invariant data + ReadFrom(b, img, cur, off, left) == ReadFrom(b, img, start, off0, want)
      decreases left, if cur < EOC_MIN then 1 else 0
    {
      var got := Chunk(b, img, cur, off, left);
      ReadOn(b, img, cur, off, left, data);
      if |got| == 0 {
        cur := FAT_MASK;
      } else if |got| == left {
        data := data + got;
        left := 0;
      } else {
        data := data + got;
        left := left - |got|;
        cur := ReadFatEntry(b, img, cur);
        off := 0;
      }
    }
  }

  /// The loop invariant carried over one turn: what has been read so far
  /// followed by what the next turns read.
  lemma ReadOn(b: Bpb, img: seq<byte>, cur: nat, off: nat, want: nat, data: seq<byte>)
    requires off < ClusterSize(b) && want > 0 && cur < EOC_MIN
    ensures var got := Chunk(b, img, cur, off, want);
      && (|got| == 0 ==> data + ReadFrom(b, img, cur, off, want) == data + ReadFrom(b, img, FAT_MASK, off, want))
      && (|got| == want ==> data + ReadFrom(b, img, cur, off, want) == (data + got) + ReadFrom(b, img, cur, off, 0))
      && (0 < |got| < want ==>
            data + ReadFrom(b, img, cur, off, want) == (data + got) + ReadFrom(b, img, ReadFatEntry(b, img, cur), 0, want - |got|))
  {
    var got := Chunk(b, img, cur, off, want);
    ReadFromStep(b, img, cur, off, want);
    if |got| == 0 {
      assert ReadFrom(b, img, FAT_MASK, off, want) == [];
    } else if |got| == want {
      assert ReadFrom(b, img, cur, off, 0) == [];
      assert got + [] == got;
    } else {
      AppendAssoc(data, got, ReadFrom(b, img, ReadFatEntry(b, img, cur), 0, want - |got|));
    }
  }

  /// One turn of the data loop: nothing read ends it, all that is still
  /// wanted ends it, anything less goes on in the next cluster.
  lemma ReadFromStep(b: Bpb, img: seq<byte>, cur: nat, off: nat, want: nat)
    requires off < ClusterSize(b) && want > 0 && cur < EOC_MIN
    ensures var got := Chunk(b, img, cur, off, want);
      && (|got| == 0 || |got| == want ==> ReadFrom(b, img, cur, off, want) == got)
      && (0 < |got| < want ==> ReadFrom(b, img, cur, off, want) == got + ReadFrom(b, img, ReadFatEntry(b, img, cur), 0, want - |got|))
  {
  }

  /// Every cluster the chain reaches from `cur` lies whole inside the image.
  ghost predicate ChainFits(b: Bpb, img: seq<byte>, cur: nat) {
    forall j: nat :: Walk(b, img, cur, j) < EOC_MIN ==> DataAddr(b, Walk(b, img, cur, j), ClusterSize(b)) <= |img|
  }

  /// Image address of byte `k` counted from byte `off` of cluster `cur`,
  /// following the chain from cluster to cluster; `None` once it has ended.
  ghost function ChainAddr(b: Bpb, img: seq<byte>, cur: nat, off: nat, k: nat): Option<nat>
    requires off < ClusterSize(b)
    decreases k
  {
    if cur >= EOC_MIN then None
    else if off + k < ClusterSize(b) then Some(DataAddr(b, cur, off + k))
    else ChainAddr(b, img, ReadFatEntry(b, img, cur), 0, k - (ClusterSize(b) - off))
  }

  /// Address `a` exists, lies inside the image and holds `x`.
  predicate ByteAt(img: seq<byte>, a: Option<nat>, x: byte) {
    a.Some? && a.value < |img| && img[a.value] == x
  }

  /// `r` holds the bytes counted from byte `off` of cluster `cur`.
  ghost predicate ReadsFrom(b: Bpb, img: seq<byte>, cur: nat, off: nat, r: seq<byte>)
    requires off < ClusterSize(b)
  {
    forall k :: 0 <= k < |r| ==>
      ByteAt(img, ChainAddr(b, img, cur, off, k), r[k])
  }

  /// The data loop reads the bytes along the chain, and stops short only
  /// where the chain ends, provided every cluster of the chain fits.
  lemma {:induction false} ReadFromSound(b: Bpb, img: seq<byte>, cur: nat, off: nat, want: nat)
    requires off < ClusterSize(b) && ChainFits(b, img, cur)
    ensures ReadsFrom(b, img, cur, off, ReadFrom(b, img, cur, off, want))
    ensures var r := ReadFrom(b, img, cur, off, want);
      |r| == want || ChainAddr(b, img, cur, off, |r|) == None
    decreases want
  {
    var r := ReadFrom(b, img, cur, off, want);
    if want > 0 && cur < EOC_MIN {
      var got := Chunk(b, img, cur, off, want);
      HeadReads(b, img, cur, off, want);
      ReadFromStep(b, img, cur, off, want);
      if |got| < want {
        var next := ReadFatEntry(b, img, cur);
        var rest := want - |got|;
        if next >= EOC_MIN {
          assert ReadFrom(b, img, next, 0, rest) == [];
          assert r == got + [];
          assert ChainAddr(b, img, cur, off, |r|) == ChainAddr(b, img, next, 0, 0);
        } else {
          ChainFitsNext(b, img, cur);
          ReadFromSound(b, img, next, 0, rest);
          var tail := ReadFrom(b, img, next, 0, rest);
          TailReads(b, img, cur, off, got, tail);
          assert ChainAddr(b, img, cur, off, |got| + |tail|) == ChainAddr(b, img, next, 0, |tail|);
        }
      }
    }
  }

  /// The first turn reads the rest of the cluster, or all that is wanted
  /// when that is less, and those are the bytes of the cluster.
  lemma HeadReads(b: Bpb, img: seq<byte>, cur: nat, off: nat, want: nat)
    requires off < ClusterSize(b) && ChainFits(b, img, cur) && cur < EOC_MIN && want > 0
    ensures |Chunk(b, img, cur, off, want)| == Min(want, ClusterSize(b) - off)
    ensures ReadsFrom(b, img, cur, off, Chunk(b, img, cur, off, want))
  {
    assert Walk(b, img, cur, 0) == cur;
    ChunkSound(b, img, cur, off, want);
    var got := Chunk(b, img, cur, off, want);
    forall k | 0 <= k < |got|
      ensures ByteAt(img, ChainAddr(b, img, cur, off, k), got[k])
    {
      DataAddrShift(b, cur, off, k);
    }
  }

  /// Bytes read after a whole first turn are the bytes of the next cluster on.
  lemma TailReads(b: Bpb, img: seq<byte>, cur: nat, off: nat, got: seq<byte>, tail: seq<byte>)
    requires off < ClusterSize(b) && cur < EOC_MIN && |got| == ClusterSize(b) - off
    requires ReadsFrom(b, img, cur, off, got) && ReadsFrom(b, img, ReadFatEntry(b, img, cur), 0, tail)
    ensures ReadsFrom(b, img, cur, off, got + tail)
  {
    var next := ReadFatEntry(b, img, cur);
    forall k | |got| <= k < |got| + |tail|
      ensures ByteAt(img, ChainAddr(b, img, cur, off, k), (got + tail)[k])
    {
      assert ChainAddr(b, img, cur, off, k) == ChainAddr(b, img, next, 0, k - |got|);
      assert (got + tail)[k] == tail[k - |got|];
    }
  }

  /// A chain that fits goes on fitting from its next cluster.
  lemma ChainFitsNext(b: Bpb, img: seq<byte>, cur: nat)
    requires ChainFits(b, img, cur) && cur < EOC_MIN && ReadFatEntry(b, img, cur) < EOC_MIN
    ensures ChainFits(b, img, ReadFatEntry(b, img, cur))
  {
    var next := ReadFatEntry(b, img, cur);
    forall j: nat | Walk(b, img, next, j) < EOC_MIN
      ensures DataAddr(b, Walk(b, img, next, j), ClusterSize(b)) <= |img|
    {
      assert Walk(b, img, cur, j + 1) == Walk(b, img, next, j);
    }
  }

  /// A turn at byte `off` of a cluster that lies inside the image reads
  /// the whole chunk, straight from the image.
  lemma ChunkSound(b: Bpb, img: seq<byte>, cur: nat, off: nat, want: nat)
    requires off < ClusterSize(b) && want > 0 && DataAddr(b, cur, ClusterSize(b)) <= |img|
    ensures |Chunk(b, img, cur, off, want)| == Min(want, ClusterSize(b) - off)
    ensures forall k :: 0 <= k < |Chunk(b, img, cur, off, want)| ==>
      DataAddr(b, cur, off) + k < |img| && Chunk(b, img, cur, off, want)[k] == img[DataAddr(b, cur, off) + k]
  {
    DataAddrShift(b, cur, off, ClusterSize(b) - off);
  }

  lemma DataAddrShift(b: Bpb, c: nat, x: nat, k: nat)
    ensures DataAddr(b, c, x + k) == DataAddr(b, c, x) + k
  {
  }

  /// What `read_command` returns for `want` bytes from file position `p`:
  /// `find_cluster_from_offset` skips `p / cluster size` links and the data
  /// loop starts at byte `p % cluster size` of the cluster it reaches
  /// (`IndexIsDiv` equates those with `Index` and `Offset`).
  function FileRead(b: Bpb, img: seq<byte>, start: nat, p: nat, want: nat): (r: seq<byte>)
    requires ClusterSize(b) > 0
    ensures |r| <= want
  {
    ReadFrom(b, img, Walk(b, img, start, Index(ClusterSize(b), p)), Offset(ClusterSize(b), p), want)
  }

  /// Image address of byte `p` of the file whose first cluster is `start`.
  ghost function FileByte(b: Bpb, img: seq<byte>, start: nat, p: nat): Option<nat>
    requires ClusterSize(b) > 0
  {
    ChainAddr(b, img, start, 0, p)
  }

  /// `r` holds bytes `p`, `p + 1`, ... of the file whose first cluster is `start`.
  ghost predicate FileBytes(b: Bpb, img: seq<byte>, start: nat, p: nat, r: seq<byte>)
    requires ClusterSize(b) > 0
  {
    forall k :: 0 <= k < |r| ==>
      ByteAt(img, FileByte(b, img, start, p + k), r[k])
  }

  /// A read from file position `p` returns the file's bytes `p`, `p + 1`, ...
  lemma ReadFileSound(b: Bpb, img: seq<byte>, start: nat, p: nat, want: nat)
    requires ClusterSize(b) > 0 && start < EOC_MIN && ChainFits(b, img, start)
    ensures FileBytes(b, img, start, p, FileRead(b, img, start, p, want))
  {
    var cs := ClusterSize(b);
    var cur := Walk(b, img, start, Index(cs, p));
    var off := Offset(cs, p);
    if cur < EOC_MIN {
      ChainFitsWalk(b, img, start, Index(cs, p));
      ReadFromSound(b, img, cur, off, want);
      ReadsFromFile(b, img, start, p, ReadFrom(b, img, cur, off, want));
    }
  }

  /// `r`, read from file position `p`, holds all `want` bytes, or the
  /// file's chain ends right after it.
  ghost predicate ShortOnlyAtEnd(b: Bpb, img: seq<byte>, start: nat, p: nat, want: nat, r: seq<byte>) {
    ClusterSize(b) > 0 && (|r| == want || FileByte(b, img, start, p + |r|) == None)
  }

  /// A read from file position `p` comes up short only where the file's
  /// chain ends.
  lemma ReadFileShort(b: Bpb, img: seq<byte>, start: nat, p: nat, want: nat)
    requires ClusterSize(b) > 0 && start < EOC_MIN && ChainFits(b, img, start)
    ensures ShortOnlyAtEnd(b, img, start, p, want, FileRead(b, img, start, p, want))
  {
    var cs := ClusterSize(b);
    var cur := Walk(b, img, start, Index(cs, p));
    var off := Offset(cs, p);
    var r := ReadFrom(b, img, cur, off, want);
    assert |r| == want || ChainAddr(b, img, cur, off, |r|) == None by {
      if cur < EOC_MIN {
        ChainFitsWalk(b, img, start, Index(cs, p));
        ReadFromSound(b, img, cur, off, want);
      }
    }
    assert FileByte(b, img, start, p + |r|) == ChainAddr(b, img, cur, off, |r|) by {
      FilePositions(b, img, start, p, |r|);
    }
    assert ShortOnlyAtEnd(b, img, start, p, want, r);
    assert FileRead(b, img, start, p, want) == r;
  }

  /// Both facts about a file read, for a chain that starts at a cluster
  /// and fits the image.
  lemma ReadFileFacts(b: Bpb, img: seq<byte>, start: nat, p: nat, want: nat)
    requires ClusterSize(b) > 0
    ensures start < EOC_MIN && ChainFits(b, img, start) ==>
      && FileBytes(b, img, start, p, FileRead(b, img, start, p, want))
      && ShortOnlyAtEnd(b, img, start, p, want, FileRead(b, img, start, p, want))
  {
    if start < EOC_MIN && ChainFits(b, img, start) {
      ReadFileSound(b, img, start, p, want);
      ReadFileShort(b, img, start, p, want);
    }
  }

  /// Bytes counted from where position `p` falls are the file's bytes from `p` on.
  lemma ReadsFromFile(b: Bpb, img: seq<byte>, start: nat, p: nat, r: seq<byte>)
    requires ClusterSize(b) > 0 && start < EOC_MIN
    requires ReadsFrom(b, img, Walk(b, img, start, Index(ClusterSize(b), p)), Offset(ClusterSize(b), p), r)
    ensures FileBytes(b, img, start, p, r)
  {
    var cs := ClusterSize(b);
    var cur := Walk(b, img, start, Index(cs, p));
    var off := Offset(cs, p);
    forall k | 0 <= k < |r|
      ensures ByteAt(img, FileByte(b, img, start, p + k), r[k])
    {
      FilePositions(b, img, start, p, k);
      assert FileByte(b, img, start, p + k) == ChainAddr(b, img, cur, off, k);
      assert ByteAt(img, ChainAddr(b, img, cur, off, k), r[k]);
    }
  }

  /// Byte `p + k` of a file is byte `k` counted from where position `p`
  /// falls: byte `Offset` of the cluster `Index` links along the chain.
  lemma {:induction false} FilePositions(b: Bpb, img: seq<byte>, start: nat, p: nat, k: nat)
    requires ClusterSize(b) > 0 && start < EOC_MIN
    ensures ChainAddr(b, img, start, 0, p + k) ==
      ChainAddr(b, img, Walk(b, img, start, Index(ClusterSize(b), p)), Offset(ClusterSize(b), p), k)
    decreases p
  {
    var cs := ClusterSize(b);
    if p < cs {
      assert Walk(b, img, start, Index(cs, p)) == start && Offset(cs, p) == p;
    } else {
      var next := ReadFatEntry(b, img, start);
      assert ChainAddr(b, img, start, 0, p + k) == ChainAddr(b, img, next, 0, p - cs + k);
      assert Index(cs, p) == Index(cs, p - cs) + 1 && Offset(cs, p) == Offset(cs, p - cs);
      if next < EOC_MIN {
        FilePositions(b, img, next, p - cs, k);
        assert Walk(b, img, start, Index(cs, p)) == Walk(b, img, next, Index(cs, p - cs));
      } else {
        assert Walk(b, img, start, Index(cs, p)) == FAT_MASK;
      }
    }
  }

  /// Every cluster the chain reaches after `j` links fits when the chain fits.
  lemma ChainFitsWalk(b: Bpb, img: seq<byte>, start: nat, j: nat)
    requires ChainFits(b, img, start) && Walk(b, img, start, j) < EOC_MIN
    ensures ChainFits(b, img, Walk(b, img, start, j))
  {
    var cur := Walk(b, img, start, j);
    forall i: nat | Walk(b, img, cur, i) < EOC_MIN
      ensures DataAddr(b, Walk(b, img, cur, i), ClusterSize(b)) <= |img|
    {
      WalkAdd(b, img, start, j, i);
    }
  }

  /// `j` links then `i` more are `j + i` links.
  lemma {:induction false} WalkAdd(b: Bpb, img: seq<byte>, s: nat, j: nat, i: nat)
    requires Walk(b, img, s, j) < EOC_MIN
    ensures Walk(b, img, s, j + i) == Walk(b, img, Walk(b, img, s, j), i)
    decreases j
  {
    if j > 0 {
      var next := ReadFatEntry(b, img, s);
      assert next < EOC_MIN && Walk(b, img, s, j) == Walk(b, img, next, j - 1);
      WalkAdd(b, img, next, j - 1, i);
      assert Walk(b, img, s, j + i) == Walk(b, img, next, j - 1 + i);
    }
  }

  /// `p / cs`, counted cluster by cluster.
  function Index(cs: nat, p: nat): nat
    requires cs > 0
    decreases p
  {
    if p < cs then 0 else 1 + Index(cs, p - cs)
  }

  /// `p % cs`, counted cluster by cluster.
  function Offset(cs: nat, p: nat): (r: nat)
    requires cs > 0
    ensures r < cs
    decreases p
  {
    if p < cs then p else Offset(cs, p - cs)
  }

  /// `Index` and `Offset` are the quotient and remainder the driver computes.
  lemma IndexIsDiv(cs: nat, p: nat)
    requires cs > 0
    ensures Index(cs, p) == p / cs && Offset(cs, p) == p % cs
  {
    IndexSplits(cs, p);
    DivMod(p, cs, Index(cs, p), Offset(cs, p));
  }

  lemma {:induction false} IndexSplits(cs: nat, p: nat)
    requires cs > 0
    ensures p == Mul(Index(cs, p), cs) + Offset(cs, p)
    decreases p
  {
    if p >= cs {
      IndexSplits(cs, p - cs);
      assert Mul(Index(cs, p), cs) == Mul(Index(cs, p - cs), cs) + cs;
    }
  }

  /// Division is determined by the quotient and remainder it leaves.
  lemma DivMod(x: nat, cs: nat, d: nat, m: nat)
    requires cs > 0 && m < cs && x == Mul(d, cs) + m
    ensures x / cs == d && x % cs == m
  {
    var d0, m0 := x / cs, x % cs;
    assert Mul(d0, cs) + m0 == x;
    if d0 < d {
      MulGrows(d0, d, cs);
    } else if d < d0 {
      MulGrows(d, d0, cs);
    }
  }
}
