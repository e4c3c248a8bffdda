/// The directory walk shared by `search_current_directory`, `ls`, `cd` and
/// `open`: follow the cluster chain of a directory, read each of its
/// sectors whole, and look at the 32-byte entries in order. The four loops
/// differ only in what they do with an unreadable sector and with each
/// entry; `Walker` names the four variants.
///
/// The specification is in two layers. `Visited` is the list of entries the
/// loop reaches when nothing stops it early (the chain, cut where a sector
/// cannot be read), and `Fold` runs one loop's per-entry `Step` over such a
/// list. `ScanDirectory` is the driver's nested loop, proved equal to the
/// fold; the lemmas at the end say what the fold computes.
module Directory {
  import opened Bytes
  import opened Structs
  import opened Geometry
  import opened Fat
  import opened Names

  /// `Search` is `search_current_directory`, `CdLookup` and `OpenLookup`
  /// the loops inlined in `cd_command` and `open_command`, `Listing` the
  /// loop of `ls_command`.
  datatype Walker = Search | CdLookup | OpenLookup | Listing

  /// `cd` skips the rest of a cluster whose sector cannot be read and goes
  /// on along the chain; the other loops give up.
  predicate HaltsOnReadFailure(w: Walker) {
    w != CdLookup
  }

  /// One directory entry as the loop sees it: its byte address in the
  /// image and its 32 bytes.
  datatype DirSlot = DirSlot(at: nat, bytes: EntryBytes)

  /// The 32 bytes of one directory entry.
  type EntryBytes = s: seq<byte> | |s| == DIR_ENTRY_SIZE
    witness [0, 0, 0, 0, 0, 0, 0, 0, 0, 0, 0, 0, 0, 0, 0, 0, 0, 0, 0, 0, 0, 0, 0, 0, 0, 0, 0, 0, 0, 0, 0, 0]

  predicate ValidSlot(img: seq<byte>, e: DirSlot) {
    e.at + DIR_ENTRY_SIZE <= |img| && e.bytes == img[e.at..e.at + DIR_ENTRY_SIZE]
  }

  predicate ValidSlots(img: seq<byte>, es: seq<DirSlot>) {
    forall k :: 0 <= k < |es| ==> ValidSlot(img, es[k])
  }

  function Lead(e: DirSlot): byte
  {
    e.bytes[0]
  }

  function Attr(e: DirSlot): byte
  {
    e.bytes[11]
  }

  function EntryName(e: DirSlot): seq<byte>
  {
    FormatName(e.bytes[..11])
  }

  /// Byte address of sector `i` of cluster `c`.
  function SectorStart(b: Bpb, c: nat, i: nat): nat {
    SectorOffset(b, ClusterSector(b, c) + i)
  }

  /// The whole sector lies inside the image, so `fread` of it succeeds.
  predicate SectorReadable(b: Bpb, img: seq<byte>, c: nat, i: nat) {
    SectorStart(b, c, i) + b.bytsPerSec <= |img|
  }

  predicate ClusterReadable(b: Bpb, img: seq<byte>, c: nat) {
    forall i :: 0 <= i < b.secPerClus ==> SectorReadable(b, img, c, i)
  }

  /// The entry whose 32 bytes start at `at`.
  function SlotAt(img: seq<byte>, at: nat): (e: DirSlot)
    requires at + DIR_ENTRY_SIZE <= |img|
    ensures ValidSlot(img, e) && e.at == at
  {
    DirSlot(at, img[at..at + DIR_ENTRY_SIZE])
  }

  /// The entries of sector `i` of cluster `c`, at steps of 32 bytes.
  function SectorEntries(b: Bpb, img: seq<byte>, c: nat, i: nat): (r: seq<DirSlot>)
    requires WellFormed(b) && SectorReadable(b, img, c, i)
    ensures |r| == b.bytsPerSec / DIR_ENTRY_SIZE
    ensures forall j :: 0 <= j < |r| ==> r[j].at == SectorStart(b, c, i) + DIR_ENTRY_SIZE * j
    ensures ValidSlots(img, r)
  {
    var base := SectorStart(b, c, i);
    seq(b.bytsPerSec / DIR_ENTRY_SIZE, j requires 0 <= j < b.bytsPerSec / DIR_ENTRY_SIZE =>
      SlotAt(img, base + DIR_ENTRY_SIZE * j))
  }

  /// The entries of sectors `i`, `i + 1`, ... of cluster `c`, up to the end
  /// of the cluster or the first sector that cannot be read.
  function ClusterEntriesFrom(b: Bpb, img: seq<byte>, c: nat, i: nat): (r: seq<DirSlot>)
    requires WellFormed(b)
    ensures ValidSlots(img, r)
    decreases b.secPerClus - i
  {
    if i >= b.secPerClus || !SectorReadable(b, img, c, i) then []
    else SectorEntries(b, img, c, i) + ClusterEntriesFrom(b, img, c, i + 1)
  }

  /// What the loop reaches after cluster `c`: the rest of the chain, unless
  /// the walker gives up on a sector of `c` it cannot read.
  function AfterCluster(w: Walker, b: Bpb, img: seq<byte>, c: nat, fuel: nat): (r: seq<DirSlot>)
    requires WellFormed(b)
    ensures ValidSlots(img, r)
    decreases fuel, 0
  {
    if HaltsOnReadFailure(w) && !ClusterReadable(b, img, c) then []
    else if fuel == 0 then []
    else Visited(w, b, img, ReadFatEntry(b, img, c), fuel - 1)
  }

  /// Every entry the directory loop of walker `w` reaches from cluster `c`
  /// when no entry stops it, following at most `fuel` links.
  function Visited(w: Walker, b: Bpb, img: seq<byte>, c: nat, fuel: nat): (r: seq<DirSlot>)
    requires WellFormed(b)
    ensures ValidSlots(img, r)
    decreases fuel, 1
  {
    if c >= EOC_MIN then []
    else ClusterEntriesFrom(b, img, c, 0) + AfterCluster(w, b, img, c, fuel)
  }

  /// The state the four loops keep: the matched entry (`found` and the
  /// copied entry), the free-slot offset of the search (`-1` for none), the
  /// names `ls` prints, and whether a `goto`/`return` has ended the walk.
  datatype Scan = Scan(hit: Option<DirSlot>, slot: int, names: seq<seq<byte>>, done: bool)

  const Start: Scan := Scan(None, -1, [], false)

  /// `(attr & ATTR_LFN) == ATTR_LFN`
  predicate IsLongName(e: DirSlot)
  {
    HasAll(Attr(e), ATTR_LFN)
  }

  /// The entries a walker compares with the wanted name: no end marker, no
  /// long-name or volume-label entry, and, except for the search, no
  /// deleted entry.
  predicate Compared(w: Walker, e: DirSlot)
  {
    && w != Listing
    && Lead(e) != END_OF_DIRECTORY
    && (w == Search || Lead(e) != DELETED_ENTRY)
    && !IsLongName(e)
    && !HasAny(Attr(e), ATTR_VOLUME_ID)
  }

  predicate Matches(w: Walker, name: seq<byte>, e: DirSlot)
  {
    Compared(w, e) && EntryName(e) == name
  }

  /// The entries `ls` prints: not the end marker, not deleted, not a
  /// long-name entry, none of hidden, system or volume label.
  predicate Listed(e: DirSlot)
  {
    && Lead(e) != END_OF_DIRECTORY
    && Lead(e) != DELETED_ENTRY
    && !IsLongName(e)
    && !HasAny(Attr(e), ATTR_HIDDEN) && !HasAny(Attr(e), ATTR_SYSTEM) && !HasAny(Attr(e), ATTR_VOLUME_ID)
  }

  /// What one loop does with one entry.
  function Step(w: Walker, name: seq<byte>, st: Scan, e: DirSlot): (r: Scan)
    ensures r.done <==> st.done || Stops(w, name, e)
    ensures r.hit != st.hit ==> r.hit == Some(e) && Matches(w, name, e)
    ensures r.slot != st.slot ==> w == Search && r.slot == e.at
    ensures r.names == st.names || (w == Listing && r.names == st.names + [EntryName(e)])
  {
    if Lead(e) == END_OF_DIRECTORY then
      if w == Search then st.(slot := e.at, done := true) else st.(done := true)
    else if w == Listing then
      if Listed(e) then st.(names := st.names + [EntryName(e)]) else st
    else
      var st' := if w == Search && Lead(e) == DELETED_ENTRY && st.slot == -1 then st.(slot := e.at) else st;
      if Matches(w, name, e) then st'.(hit := Some(e), done := true) else st'
  }


  /// `Step` over the entries in order, until one ends the walk.
  function Fold(w: Walker, name: seq<byte>, es: seq<DirSlot>, st: Scan): (r: Scan)
    ensures st.done ==> r == st
    ensures r.hit != st.hit ==> r.hit.Some? && r.hit.value in es && Matches(w, name, r.hit.value)
    decreases |es|
  {
    if |es| == 0 || st.done then st
    else Fold(w, name, es[1..], Step(w, name, st, es[0]))
  }

  /// How many links the chain has does not matter once it ends within the fuel.
  lemma {:induction false} VisitedFuel(w: Walker, b: Bpb, img: seq<byte>, c: nat, f1: nat, f2: nat)
    requires WellFormed(b) && Terminates(b, img, c, f1) && Terminates(b, img, c, f2)
    ensures Visited(w, b, img, c, f1) == Visited(w, b, img, c, f2)
    decreases f1
  {
    if c < EOC_MIN {
      var next := ReadFatEntry(b, img, c);
      VisitedFuel(w, b, img, next, f1 - 1, f2 - 1);
    }
  }

  /// The entries walker `w` reaches from directory cluster `c`, whose chain ends.
  ghost function Entries(w: Walker, b: Bpb, img: seq<byte>, c: nat): (r: seq<DirSlot>)
    requires WellFormed(b) && FiniteChain(b, img, c)
    ensures ValidSlots(img, r)
    ensures forall fuel :: Terminates(b, img, c, fuel) ==> r == Visited(w, b, img, c, fuel)
  {
    var fuel :| Terminates(b, img, c, fuel);
    assert forall f :: Terminates(b, img, c, f) ==> Visited(w, b, img, c, fuel) == Visited(w, b, img, c, f) by {
      forall f | Terminates(b, img, c, f) ensures Visited(w, b, img, c, fuel) == Visited(w, b, img, c, f) {
        VisitedFuel(w, b, img, c, fuel, f);
      }
    }
    Visited(w, b, img, c, fuel)
  }

  /// A walk that has ended ignores the entries after it.
  lemma FoldDone(w: Walker, name: seq<byte>, es: seq<DirSlot>, st: Scan)
    requires st.done
    ensures Fold(w, name, es, st) == st
  {
  }

  /// The loop invariant of the entry loop carried over entry `j`.
  lemma FoldAt(w: Walker, name: seq<byte>, es: seq<DirSlot>, j: nat, st: Scan, st0: Scan)
    requires j < |es| && !st.done
    requires Fold(w, name, es, st0) == Fold(w, name, es[j..], st)
    ensures Fold(w, name, es, st0) == Fold(w, name, es[j + 1..], Step(w, name, st, es[j]))
  {
    assert es[j..][0] == es[j] && es[j..][1..] == es[j + 1..];
  }

  /// Entry `j` of a sector read into `buf` is the entry the image holds there.
  lemma EntryOfBuffer(img: seq<byte>, at: nat, buf: seq<byte>, here: seq<DirSlot>, j: nat)
    requires at + |buf| <= |img| && buf == img[at..at + |buf|]
    requires j < |here| && DIR_ENTRY_SIZE * |here| <= |buf|
    requires forall k :: 0 <= k < |here| ==> here[k] == SlotAt(img, at + DIR_ENTRY_SIZE * k)
    ensures here[j] == DirSlot(at + DIR_ENTRY_SIZE * j, buf[DIR_ENTRY_SIZE * j..DIR_ENTRY_SIZE * j + DIR_ENTRY_SIZE])
  {
    SliceOfSlice(img, at, |buf|, DIR_ENTRY_SIZE * j, DIR_ENTRY_SIZE);
  }

  lemma SliceOfSlice(img: seq<byte>, at: nat, n: nat, k: nat, m: nat)
    requires at + n <= |img| && k + m <= n
    ensures img[at..at + n][k..k + m] == img[at + k..at + k + m]
  {
    var u := img[at..at + n][k..k + m];
    var v := img[at + k..at + k + m];
    forall t | 0 <= t < m ensures u[t] == v[t] { }
  }

  /// Folding a concatenation folds the second part from where the first ended.
  lemma {:induction false} FoldAppend(w: Walker, name: seq<byte>, a: seq<DirSlot>, c: seq<DirSlot>, st: Scan)
    ensures Fold(w, name, a + c, st) == Fold(w, name, c, Fold(w, name, a, st))
    decreases |a|
  {
    if |a| == 0 {
      assert a + c == c;
    } else if !st.done {
      assert (a + c)[1..] == a[1..] + c;
      FoldAppend(w, name, a[1..], c, Step(w, name, st, a[0]));
    }
  }

  /// The entry loop over one sector already read into `buf`, which holds the
  /// bytes of the image from `at` on.
  method ScanSector(w: Walker, name: seq<byte>, st0: Scan, buf: seq<byte>, at: nat, n: nat,
                    ghost img: seq<byte>, ghost here: seq<DirSlot>)
      returns (st: Scan)
    requires DIR_ENTRY_SIZE * n <= |buf| && at + |buf| <= |img| && buf == img[at..at + |buf|]
    requires |here| == n
    requires forall j :: 0 <= j < n ==> here[j] == SlotAt(img, at + DIR_ENTRY_SIZE * j)
    ensures st == Fold(w, name, here, st0)
  {
    st := st0;
    var j := 0;
    while j < n && !st.done
      invariant 0 <= j <= n
      invariant Fold(w, name, here, st0) == Fold(w, name, here[j..], st)
    {
      var e := DirSlot(at + DIR_ENTRY_SIZE * j, buf[DIR_ENTRY_SIZE * j..DIR_ENTRY_SIZE * j + DIR_ENTRY_SIZE]);
      EntryOfBuffer(img, at, buf, here, j);
      FoldAt(w, name, here, j, st, st0);
      st := Step(w, name, st, e);
      j := j + 1;
    }
  }

  /// The driver's loop: clusters along the chain, sectors of each cluster,
  /// 32-byte entries of each sector, until an entry or a failed read ends
  /// the walk.
  method ScanDirectory(w: Walker, b: Bpb, img: seq<byte>, start: nat, name: seq<byte>) returns (st: Scan)
    requires WellFormed(b) && FiniteChain(b, img, start)
    ensures st == Fold(w, name, Entries(w, b, img, start), Start)
  {
    ghost var fuel :| Terminates(b, img, start, fuel);
    ghost var all := Visited(w, b, img, start, fuel);
    st := Start;
    var cur: nat := start;
    while cur < EOC_MIN
      invariant Terminates(b, img, cur, fuel)
      invariant !st.done
      invariant Fold(w, name, all, Start) == Fold(w, name, Visited(w, b, img, cur, fuel), st)
      decreases fuel
    {
      EnterCluster(w, b, img, cur, fuel);
      var gaveUp;
      st, gaveUp := ScanCluster(w, b, img, cur, name, st, fuel);
      if st.done || gaveUp {
        return;
      }
      cur := ReadFatEntry(b, img, cur);
      fuel := fuel - 1;
    }
  }

  /// The sector loop over one cluster `c` of the chain. It ends the walk
  /// (`st.done` or `gaveUp`) or leaves the rest of the chain to be walked.
  method ScanCluster(w: Walker, b: Bpb, img: seq<byte>, c: nat, name: seq<byte>, st0: Scan, ghost fuel: nat)
      returns (st: Scan, gaveUp: bool)
    requires WellFormed(b) && c < EOC_MIN && Terminates(b, img, c, fuel) && !st0.done
    ensures ClusterOutcome(w, name, b, img, c, fuel, st0, st, gaveUp)
  {
    ghost var after := AfterCluster(w, b, img, c, fuel);
    var i := 0;
    var readable := true;
    st := st0;
    while i < b.secPerClus && readable && !st.done
      invariant 0 <= i <= b.secPerClus
      invariant readable && i > 0 ==> SectorReadable(b, img, c, i - 1)
      invariant !readable ==> i < b.secPerClus && !SectorReadable(b, img, c, i)
      invariant Fold(w, name, ClusterEntriesFrom(b, img, c, 0) + after, st0)
             == Fold(w, name, ClusterEntriesFrom(b, img, c, i) + after, st)
      decreases b.secPerClus - i + (if readable then 1 else 0)
    {
      st, readable := ScanClusterSector(w, b, img, c, i, name, st, after);
      if readable {
        i := i + 1;
      }
    }
    gaveUp := !readable && HaltsOnReadFailure(w);
    LeaveCluster(w, name, b, img, c, i, fuel, st0, st, readable);
  }

  /// What the sector loop over cluster `c` leaves: either the walk has
  /// ended with `st`, or the rest of the chain is still to be walked from `st`.
  ghost predicate ClusterOutcome(w: Walker, name: seq<byte>, b: Bpb, img: seq<byte>, c: nat, fuel: nat,
                                 st0: Scan, st: Scan, gaveUp: bool)
    requires WellFormed(b)
  {
    if st.done || gaveUp then
      Fold(w, name, ClusterEntriesFrom(b, img, c, 0) + AfterCluster(w, b, img, c, fuel), st0) == st
    else
      && fuel > 0
      && Terminates(b, img, ReadFatEntry(b, img, c), fuel - 1)
      && Fold(w, name, ClusterEntriesFrom(b, img, c, 0) + AfterCluster(w, b, img, c, fuel), st0)
         == Fold(w, name, Visited(w, b, img, ReadFatEntry(b, img, c), fuel - 1), st)
  }

  /// The sector loop stopped at sector `i`: the walk ended, a sector could
  /// not be read, or the cluster is exhausted.
  lemma LeaveCluster(w: Walker, name: seq<byte>, b: Bpb, img: seq<byte>, c: nat, i: nat, fuel: nat,
                     st0: Scan, st: Scan, readable: bool)
    requires WellFormed(b) && c < EOC_MIN && Terminates(b, img, c, fuel) && i <= b.secPerClus
    requires readable ==> st.done || (i == b.secPerClus && SectorReadable(b, img, c, i - 1))
    requires !readable ==> i < b.secPerClus && !SectorReadable(b, img, c, i)
    requires Fold(w, name, ClusterEntriesFrom(b, img, c, 0) + AfterCluster(w, b, img, c, fuel), st0)
          == Fold(w, name, ClusterEntriesFrom(b, img, c, i) + AfterCluster(w, b, img, c, fuel), st)
    ensures ClusterOutcome(w, name, b, img, c, fuel, st0, st, !readable && HaltsOnReadFailure(w))
  {
    if st.done {
    } else if !readable && HaltsOnReadFailure(w) {
      GiveUpOnCluster(w, b, img, c, i, fuel);
    } else {
      NextCluster(w, b, img, c, i, fuel);
    }
  }

  /// Reads sector `i` of cluster `c` and runs the entry loop over it.
  method ScanClusterSector(w: Walker, b: Bpb, img: seq<byte>, c: nat, i: nat, name: seq<byte>, st0: Scan,
                           ghost after: seq<DirSlot>)
      returns (st: Scan, readable: bool)
    requires WellFormed(b) && i < b.secPerClus
    ensures readable <==> SectorReadable(b, img, c, i)
    ensures !readable ==> st == st0
    ensures readable ==>
      Fold(w, name, ClusterEntriesFrom(b, img, c, i) + after, st0)
      == Fold(w, name, ClusterEntriesFrom(b, img, c, i + 1) + after, st)
  {
    var at := SectorStart(b, c, i);
    var sector := ReadAt(img, at, b.bytsPerSec);
    if sector.None? {
      return st0, false;
    }
    SectorBytes(b, img, c, i);
    st := ScanSector(w, name, st0, sector.value, at, b.bytsPerSec / DIR_ENTRY_SIZE, img, SectorEntries(b, img, c, i));
    NextSector(w, name, b, img, c, i, after, st0);
    readable := true;
  }

  /// Entering a cluster of the chain.
  lemma EnterCluster(w: Walker, b: Bpb, img: seq<byte>, c: nat, fuel: nat)
    requires WellFormed(b) && c < EOC_MIN
    ensures Visited(w, b, img, c, fuel) == ClusterEntriesFrom(b, img, c, 0) + AfterCluster(w, b, img, c, fuel)
  {
  }

  /// After sector `i` is scanned, the entries left are those of the later sectors.
  lemma NextSector(w: Walker, name: seq<byte>, b: Bpb, img: seq<byte>, c: nat, i: nat,
                   after: seq<DirSlot>, st: Scan)
    requires WellFormed(b) && i < b.secPerClus && SectorReadable(b, img, c, i)
    ensures Fold(w, name, ClusterEntriesFrom(b, img, c, i) + after, st)
         == Fold(w, name, ClusterEntriesFrom(b, img, c, i + 1) + after,
                 Fold(w, name, SectorEntries(b, img, c, i), st))
  {
    var here := SectorEntries(b, img, c, i);
    var later := ClusterEntriesFrom(b, img, c, i + 1);
    assert ClusterEntriesFrom(b, img, c, i) + after == here + (later + after);
    FoldAppend(w, name, later, after, st);
    FoldAppend(w, name, here, later + after, st);
  }

  /// A walker that gives up on an unreadable sector has nothing left to visit.
  lemma GiveUpOnCluster(w: Walker, b: Bpb, img: seq<byte>, c: nat, i: nat, fuel: nat)
    requires WellFormed(b) && HaltsOnReadFailure(w) && i < b.secPerClus && !SectorReadable(b, img, c, i)
    ensures ClusterEntriesFrom(b, img, c, i) + AfterCluster(w, b, img, c, fuel) == []
  {
  }

  /// Leaving a cluster, either after its last sector or, for `cd`, at its
  /// first unreadable sector: what is left is the rest of the chain.
  lemma NextCluster(w: Walker, b: Bpb, img: seq<byte>, c: nat, i: nat, fuel: nat)
    requires WellFormed(b) && c < EOC_MIN && Terminates(b, img, c, fuel) && i <= b.secPerClus
    requires || (i == b.secPerClus && SectorReadable(b, img, c, i - 1))
             || (!HaltsOnReadFailure(w) && i < b.secPerClus && !SectorReadable(b, img, c, i))
    ensures fuel > 0 && Terminates(b, img, ReadFatEntry(b, img, c), fuel - 1)
    ensures ClusterEntriesFrom(b, img, c, i) + AfterCluster(w, b, img, c, fuel)
         == Visited(w, b, img, ReadFatEntry(b, img, c), fuel - 1)
  {
    if i == b.secPerClus {
      forall k | 0 <= k < b.secPerClus ensures SectorReadable(b, img, c, k) {
        EarlierSectorReadable(b, img, c, k, i - 1);
      }
    }
  }

  /// Sectors of a cluster lie at increasing addresses, so a readable
  /// sector makes every earlier one readable.
  lemma EarlierSectorReadable(b: Bpb, img: seq<byte>, c: nat, k: nat, i: nat)
    requires k <= i && SectorReadable(b, img, c, i)
    ensures SectorReadable(b, img, c, k)
  {
    MulGrows(ClusterSector(b, c) + k, ClusterSector(b, c) + i, b.bytsPerSec);
  }

  lemma SectorBytes(b: Bpb, img: seq<byte>, c: nat, i: nat)
    requires WellFormed(b) && SectorReadable(b, img, c, i)
    ensures DIR_ENTRY_SIZE * (b.bytsPerSec / DIR_ENTRY_SIZE) <= b.bytsPerSec
    ensures forall j :: 0 <= j < b.bytsPerSec / DIR_ENTRY_SIZE ==>
      SectorEntries(b, img, c, i)[j] == SlotAt(img, SectorStart(b, c, i) + DIR_ENTRY_SIZE * j)
  {
  }

  // What the fold computes.

  /// The entries that end a walk: the end marker, or a match.
  predicate Stops(w: Walker, name: seq<byte>, e: DirSlot)
  {
    Lead(e) == END_OF_DIRECTORY || Matches(w, name, e)
  }

  /// Position of the first entry that ends the walk, or `|es|` when none does.
  function StopIndex(w: Walker, name: seq<byte>, es: seq<DirSlot>): (z: nat)
    ensures z <= |es|
    ensures forall t :: 0 <= t < z ==> !Stops(w, name, es[t])
    ensures z < |es| ==> Stops(w, name, es[z])
    decreases |es|
  {
    if |es| == 0 then 0
    else if Stops(w, name, es[0]) then 0
    else 1 + StopIndex(w, name, es[1..])
  }

  /// Position of the first deleted entry, or -1.
  function FirstDeleted(es: seq<DirSlot>): (d: int)
    ensures -1 <= d < |es|
    ensures d >= 0 ==> Lead(es[d]) == DELETED_ENTRY
    ensures forall t :: 0 <= t < |es| && (d == -1 || t < d) ==> Lead(es[t]) != DELETED_ENTRY
    decreases |es|
  {
    if |es| == 0 then -1
    else if Lead(es[0]) == DELETED_ENTRY then 0
    else
      var d := FirstDeleted(es[1..]);
      if d == -1 then -1 else d + 1
  }

  /// A name lookup finds the first entry that matches before the end
  /// marker, and nothing when the end marker or the end of the chain comes
  /// first.
  lemma {:induction false} LookupFindsFirstMatch(w: Walker, name: seq<byte>, es: seq<DirSlot>, st: Scan)
    requires w != Listing && !st.done && st.hit.None?
    ensures var z := StopIndex(w, name, es);
      Fold(w, name, es, st).hit == if z < |es| && Matches(w, name, es[z]) then Some(es[z]) else None
    decreases |es|
  {
    if |es| > 0 && !Stops(w, name, es[0]) {
      var st' := Step(w, name, st, es[0]);
      LookupStepOver(w, name, es, st);
      LookupFindsFirstMatch(w, name, es[1..], st');
      var z := StopIndex(w, name, es);
      if z < |es| {
        assert es[z] == es[1..][z - 1];
      }
    } else if |es| > 0 {
      FoldDone(w, name, es[1..], Step(w, name, st, es[0]));
    }
  }

  /// A lookup steps over an entry that does not stop it, finding nothing.
  lemma LookupStepOver(w: Walker, name: seq<byte>, es: seq<DirSlot>, st: Scan)
    requires w != Listing && !st.done && st.hit.None?
    requires |es| > 0 && !Stops(w, name, es[0])
    ensures var st' := Step(w, name, st, es[0]);
      && !st'.done && st'.hit.None?
      && Fold(w, name, es, st) == Fold(w, name, es[1..], st')
      && StopIndex(w, name, es) == 1 + StopIndex(w, name, es[1..])
  {
  }

  /// Found if and only if some entry before the end marker matches; what
  /// is found is such an entry.
  lemma LookupFoundIff(w: Walker, name: seq<byte>, es: seq<DirSlot>)
    requires w != Listing
    ensures Fold(w, name, es, Start).hit.Some? <==>
      exists k :: 0 <= k < |es| && BeforeEnd(es, k) && Matches(w, name, es[k])
    ensures forall e :: Fold(w, name, es, Start).hit == Some(e) ==> e in es && Matches(w, name, e)
  {
    LookupFindsFirstMatch(w, name, es, Start);
    var z := StopIndex(w, name, es);
    if z < |es| && Matches(w, name, es[z]) {
      StopIndexBeforeEnd(w, name, es);
    } else {
      forall k | 0 <= k < |es| && BeforeEnd(es, k) ensures !Matches(w, name, es[k]) {
        if Matches(w, name, es[k]) { FirstMatchBound(w, name, es, k); }
      }
    }
  }

  /// No entry before the stopping one is the end marker.
  lemma StopIndexBeforeEnd(w: Walker, name: seq<byte>, es: seq<DirSlot>)
    ensures BeforeEnd(es, StopIndex(w, name, es))
  {
    var z := StopIndex(w, name, es);
    forall t | 0 <= t < z ensures Lead(es[t]) != END_OF_DIRECTORY {
      assert !Stops(w, name, es[t]);
    }
  }

  /// A matching entry before the end marker stops the walk at or after the
  /// first stopping entry, and that one matches too.
  lemma FirstMatchBound(w: Walker, name: seq<byte>, es: seq<DirSlot>, k: nat)
    requires k < |es| && BeforeEnd(es, k) && Matches(w, name, es[k])
    ensures StopIndex(w, name, es) <= k && Matches(w, name, es[StopIndex(w, name, es)])
  {
    var z := StopIndex(w, name, es);
    assert Stops(w, name, es[k]);
    if z < k {
      assert Lead(es[z]) != END_OF_DIRECTORY;
    }
  }

  /// Address of the first deleted entry of `es`, or -1.
  function DeletedSlot(es: seq<DirSlot>): int
  {
    var d := FirstDeleted(es);
    if d == -1 then -1 else es[d].at
  }

  /// The free slot `search_current_directory` reports: the end marker when
  /// the walk reaches it, which overrides any deleted entry seen before;
  /// otherwise the first deleted entry up to and including the one that
  /// stopped the walk; otherwise none.
  lemma SearchSlot(name: seq<byte>, es: seq<DirSlot>, st: Scan)
    requires !st.done
    ensures var z := StopIndex(Search, name, es);
      var r := Fold(Search, name, es, st);
      && (z < |es| && Lead(es[z]) == END_OF_DIRECTORY ==> r.slot == es[z].at)
      && (!(z < |es| && Lead(es[z]) == END_OF_DIRECTORY) ==>
            r.slot == if st.slot != -1 then st.slot else DeletedSlot(es[..if z < |es| then z + 1 else |es|]))
  {
    var z := StopIndex(Search, name, es);
    if z < |es| && Lead(es[z]) == END_OF_DIRECTORY {
      SearchSlotAtEnd(name, es, st);
    } else {
      SearchSlotDeleted(name, es, st);
    }
  }

  /// The search steps over an entry that does not stop it.
  lemma SearchStepOver(name: seq<byte>, es: seq<DirSlot>, st: Scan)
    requires !st.done && |es| > 0 && !Stops(Search, name, es[0])
    ensures var st' := Step(Search, name, st, es[0]);
      && !st'.done
      && st'.slot == (if Lead(es[0]) == DELETED_ENTRY && st.slot == -1 then es[0].at else st.slot)
      && Fold(Search, name, es, st) == Fold(Search, name, es[1..], st')
      && StopIndex(Search, name, es) == 1 + StopIndex(Search, name, es[1..])
  {
  }

  lemma {:induction false} SearchSlotAtEnd(name: seq<byte>, es: seq<DirSlot>, st: Scan)
    requires !st.done
    requires var z := StopIndex(Search, name, es); z < |es| && Lead(es[z]) == END_OF_DIRECTORY
    ensures Fold(Search, name, es, st).slot == es[StopIndex(Search, name, es)].at
    decreases |es|
  {
    if Stops(Search, name, es[0]) {
      FoldDone(Search, name, es[1..], Step(Search, name, st, es[0]));
    } else {
      SearchStepOver(name, es, st);
      SearchSlotAtEnd(name, es[1..], Step(Search, name, st, es[0]));
      assert es[StopIndex(Search, name, es)] == es[1..][StopIndex(Search, name, es[1..])];
    }
  }

  lemma {:induction false} SearchSlotDeleted(name: seq<byte>, es: seq<DirSlot>, st: Scan)
    requires !st.done
    requires var z := StopIndex(Search, name, es); !(z < |es| && Lead(es[z]) == END_OF_DIRECTORY)
    ensures var z := StopIndex(Search, name, es);
      Fold(Search, name, es, st).slot == if st.slot != -1 then st.slot else DeletedSlot(es[..if z < |es| then z + 1 else |es|])
    decreases |es|
  {
    var z := StopIndex(Search, name, es);
    var n := if z < |es| then z + 1 else |es|;
    if |es| == 0 {
    } else if Stops(Search, name, es[0]) {
      var st' := Step(Search, name, st, es[0]);
      assert st'.done && st'.slot == (if Lead(es[0]) == DELETED_ENTRY && st.slot == -1 then es[0].at else st.slot);
      FoldDone(Search, name, es[1..], st');
      DeletedSlotCons(es[..1]);
    } else {
      var st' := Step(Search, name, st, es[0]);
      SearchStepOver(name, es, st);
      SearchSlotDeleted(name, es[1..], st');
      SearchPrefixTail(es, n);
      DeletedSlotCons(es[..n]);
    }
  }

  lemma DeletedSlotCons(es: seq<DirSlot>)
    requires |es| > 0
    ensures DeletedSlot(es) == if Lead(es[0]) == DELETED_ENTRY then es[0].at else DeletedSlot(es[1..])
  {
  }

  lemma SearchPrefixTail(es: seq<DirSlot>, z: nat)
    requires 0 < z <= |es|
    ensures es[..z][1..] == es[1..][..z - 1] && es[..z][0] == es[0]
  {
  }

  /// No end marker among the first `k` entries.
  predicate BeforeEnd(es: seq<DirSlot>, k: nat)
    requires k <= |es|
  {
    forall t :: 0 <= t < k ==> Lead(es[t]) != END_OF_DIRECTORY
  }

  lemma BeforeEndTail(es: seq<DirSlot>, k: nat)
    requires 0 < k <= |es|
    ensures BeforeEnd(es, k) <==> Lead(es[0]) != END_OF_DIRECTORY && BeforeEnd(es[1..], k - 1)
  {
    if Lead(es[0]) != END_OF_DIRECTORY && BeforeEnd(es[1..], k - 1) {
      forall t | 0 < t < k ensures Lead(es[t]) != END_OF_DIRECTORY {
        assert es[t] == es[1..][t - 1];
      }
    }
  }

  /// The names `ls` prints for the entries `es`: the listed ones before
  /// the first end marker, in order.
  function Printed(es: seq<DirSlot>): (r: seq<seq<byte>>)
    ensures |r| <= |es|
    decreases |es|
  {
    if |es| == 0 || Lead(es[0]) == END_OF_DIRECTORY then []
    else (if Listed(es[0]) then [EntryName(es[0])] else []) + Printed(es[1..])
  }

  /// The `ls` loop appends exactly the printed names.
  lemma {:induction false} ListingPrints(es: seq<DirSlot>, st: Scan)
    requires !st.done
    ensures Fold(Listing, [], es, st).names == st.names + Printed(es)
    decreases |es|
  {
    if |es| > 0 {
      if Lead(es[0]) == END_OF_DIRECTORY {
        ListingAtEnd(es, st);
      } else {
        var head := ListingStepOver(es, st);
        ListingPrints(es[1..], st.(names := st.names + head));
        AppendAssoc(st.names, head, Printed(es[1..]));
      }
    }
  }

  /// `ls` stops at the end marker without printing it.
  lemma ListingAtEnd(es: seq<DirSlot>, st: Scan)
    requires !st.done && |es| > 0 && Lead(es[0]) == END_OF_DIRECTORY
    ensures Fold(Listing, [], es, st).names == st.names && Printed(es) == []
  {
    FoldDone(Listing, [], es[1..], Step(Listing, [], st, es[0]));
  }

  /// `ls` steps over an entry that is not the end marker, printing it if listed.
  lemma ListingStepOver(es: seq<DirSlot>, st: Scan) returns (head: seq<seq<byte>>)
    requires !st.done && |es| > 0 && Lead(es[0]) != END_OF_DIRECTORY
    ensures head == (if Listed(es[0]) then [EntryName(es[0])] else [])
    ensures !st.(names := st.names + head).done
    ensures Fold(Listing, [], es, st) == Fold(Listing, [], es[1..], st.(names := st.names + head))
    ensures Printed(es) == head + Printed(es[1..])
  {
    head := if Listed(es[0]) then [EntryName(es[0])] else [];
    if !Listed(es[0]) {
      assert st.(names := st.names + head) == st;
    }
  }

  /// A name is printed if and only if an entry before the end marker that
  /// is listed carries it.
  lemma {:induction false} PrintedIff(es: seq<DirSlot>, n: seq<byte>)
    ensures n in Printed(es) <==>
      exists k :: 0 <= k < |es| && BeforeEnd(es, k) && Listed(es[k]) && EntryName(es[k]) == n
    decreases |es|
  {
    if |es| > 0 && Lead(es[0]) != END_OF_DIRECTORY {
      var tail := es[1..];
      PrintedIff(tail, n);
      if exists k :: 0 <= k < |es| && BeforeEnd(es, k) && Listed(es[k]) && EntryName(es[k]) == n {
        var k :| 0 <= k < |es| && BeforeEnd(es, k) && Listed(es[k]) && EntryName(es[k]) == n;
        if k > 0 {
          BeforeEndTail(es, k);
          assert tail[k - 1] == es[k];
        }
      }
      if exists k :: 0 <= k < |tail| && BeforeEnd(tail, k) && Listed(tail[k]) && EntryName(tail[k]) == n {
        var k :| 0 <= k < |tail| && BeforeEnd(tail, k) && Listed(tail[k]) && EntryName(tail[k]) == n;
        BeforeEndTail(es, k + 1);
        assert es[k + 1] == tail[k];
      }
    } else if |es| > 0 {
      forall k | 0 < k < |es| ensures !BeforeEnd(es, k) { }
    }
  }

  /// `ls` soundness and completeness: a name is printed if and only if an
  /// entry before the end marker that is not deleted, not a long-name
  /// entry and not hidden, system or a volume label carries it.
  lemma ListingIff(es: seq<DirSlot>, n: seq<byte>)
    ensures n in Fold(Listing, [], es, Start).names <==>
      exists k :: 0 <= k < |es| && BeforeEnd(es, k) && Listed(es[k]) && EntryName(es[k]) == n
  {
    ListingPrints(es, Start);
    PrintedIff(es, n);
  }

  // A write over one directory slot.

  /// Position of the first entry at address `a`, or `|es|` when none is.
  function FirstAt(es: seq<DirSlot>, a: nat): (k: nat)
    ensures k <= |es|
    ensures forall t :: 0 <= t < k ==> es[t].at != a
    ensures k < |es| ==> es[k].at == a
    decreases |es|
  {
    if |es| == 0 then 0
    else if es[0].at == a then 0
    else 1 + FirstAt(es[1..], a)
  }

  /// The entries `es` once slot `s` has been written over the image: each
  /// entry at its address now holds its bytes.
  function Overwrite(es: seq<DirSlot>, s: DirSlot): seq<DirSlot>
  {
    seq(|es|, k requires 0 <= k < |es| => if es[k].at == s.at then s else es[k])
  }

  lemma OverwriteAppend(x: seq<DirSlot>, y: seq<DirSlot>, s: DirSlot)
    ensures Overwrite(x + y, s) == Overwrite(x, s) + Overwrite(y, s)
  {
  }

  /// Entries on 32-byte boundaries, at or after the first data sector.
  predicate InDataRegion(b: Bpb, es: seq<DirSlot>) {
    forall k :: 0 <= k < |es| ==>
      es[k].at % DIR_ENTRY_SIZE == 0 && SectorOffset(b, FirstDataSector(b)) <= es[k].at
  }

  /// `img'` is `img` with slot `s` written over it, on a slot boundary in
  /// the data region.
  predicate SlotWritten(b: Bpb, img: seq<byte>, img': seq<byte>, s: DirSlot) {
    && WriteAt(img, s.at, s.bytes) == Some(img')
    && s.at % DIR_ENTRY_SIZE == 0
    && SectorOffset(b, FirstDataSector(b)) <= s.at
  }

  /// Every live cluster of the chain from `c` has its entry inside the
  /// first FAT, as on a volume whose chains hold only counted clusters.
  ghost predicate ChainInFat(b: Bpb, img: seq<byte>, c: nat) {
    forall j: nat :: Walk(b, img, c, j) < EOC_MIN ==> 4 * Walk(b, img, c, j) + 4 <= Mul(b.fatSz32, b.bytsPerSec)
  }

  lemma ChainInFatNext(b: Bpb, img: seq<byte>, c: nat)
    requires ChainInFat(b, img, c) && c < EOC_MIN && ReadFatEntry(b, img, c) < EOC_MIN
    ensures ChainInFat(b, img, ReadFatEntry(b, img, c))
  {
    var next := ReadFatEntry(b, img, c);
    forall j: nat | Walk(b, img, next, j) < EOC_MIN
      ensures 4 * Walk(b, img, next, j) + 4 <= Mul(b.fatSz32, b.bytsPerSec)
    {
      assert Walk(b, img, c, j + 1) == Walk(b, img, next, j);
    }
  }

  /// The entries of a sector lie on slot boundaries in the data region.
  lemma SectorInDataRegion(b: Bpb, img: seq<byte>, c: nat, i: nat)
    requires WellFormed(b) && SectorReadable(b, img, c, i)
    ensures InDataRegion(b, SectorEntries(b, img, c, i))
  {
    var x := ClusterSector(b, c) + i;
    MulSlotAligned(x, b.bytsPerSec);
    MulGrows(FirstDataSector(b), x, b.bytsPerSec);
    SlotStepsAligned(SectorStart(b, c, i), SectorOffset(b, FirstDataSector(b)), SectorEntries(b, img, c, i));
  }

  /// Entries 32 bytes apart from an aligned base lie on slot boundaries at or after it.
  lemma SlotStepsAligned(base: nat, lo: nat, es: seq<DirSlot>)
    requires base % DIR_ENTRY_SIZE == 0 && lo <= base
    requires forall j :: 0 <= j < |es| ==> es[j].at == base + DIR_ENTRY_SIZE * j
    ensures forall j :: 0 <= j < |es| ==> es[j].at % DIR_ENTRY_SIZE == 0 && lo <= es[j].at
  {
    var m := base / DIR_ENTRY_SIZE;
    assert base == DIR_ENTRY_SIZE * m;
    forall j | 0 <= j < |es| ensures es[j].at % DIR_ENTRY_SIZE == 0 && lo <= es[j].at {
      assert es[j].at == DIR_ENTRY_SIZE * (m + j);
    }
  }

  lemma MulSlotAligned(x: nat, bps: nat)
    requires bps % DIR_ENTRY_SIZE == 0
    ensures Mul(x, bps) % DIR_ENTRY_SIZE == 0
  {
    var q := bps / DIR_ENTRY_SIZE;
    assert bps == DIR_ENTRY_SIZE * q;
    assert x * bps == DIR_ENTRY_SIZE * (x * q);
  }

  lemma {:induction false} ClusterInDataRegion(b: Bpb, img: seq<byte>, c: nat, i: nat)
    requires WellFormed(b)
    ensures InDataRegion(b, ClusterEntriesFrom(b, img, c, i))
    decreases b.secPerClus - i
  {
    if i < b.secPerClus && SectorReadable(b, img, c, i) {
      SectorInDataRegion(b, img, c, i);
      ClusterInDataRegion(b, img, c, i + 1);
    }
  }

  /// Every entry a walk reaches lies on a slot boundary in the data region.
  lemma {:induction false} VisitedInDataRegion(w: Walker, b: Bpb, img: seq<byte>, c: nat, fuel: nat)
    requires WellFormed(b)
    ensures InDataRegion(b, Visited(w, b, img, c, fuel))
    decreases fuel
  {
    if c < EOC_MIN {
      ClusterInDataRegion(b, img, c, 0);
      if fuel > 0 && !(HaltsOnReadFailure(w) && !ClusterReadable(b, img, c)) {
        VisitedInDataRegion(w, b, img, ReadFatEntry(b, img, c), fuel - 1);
      }
    }
  }

  /// Walkers that treat an unreadable sector alike reach the same entries.
  lemma {:induction false} VisitedAlike(w: Walker, v: Walker, b: Bpb, img: seq<byte>, c: nat, fuel: nat)
    requires WellFormed(b) && HaltsOnReadFailure(w) == HaltsOnReadFailure(v)
    ensures Visited(w, b, img, c, fuel) == Visited(v, b, img, c, fuel)
    decreases fuel
  {
    if c < EOC_MIN && fuel > 0 {
      VisitedAlike(w, v, b, img, ReadFatEntry(b, img, c), fuel - 1);
    }
  }

  /// A FAT entry inside the first FAT lies before the data region, so a
  /// slot write leaves it alone.
  lemma FatEntryKept(b: Bpb, img: seq<byte>, img': seq<byte>, s: DirSlot, c: nat)
    requires b.numFats >= 1 && SlotWritten(b, img, img', s)
    requires 4 * c + 4 <= Mul(b.fatSz32, b.bytsPerSec)
    ensures ReadFatEntry(b, img', c) == ReadFatEntry(b, img, c)
  {
    var a := FatEntryAddr(b, c, 0);
    MulZero(b.fatSz32);
    assert a == Mul(b.rsvdSecCnt, b.bytsPerSec) + 4 * c;
    assert b.numFats * b.fatSz32 >= b.fatSz32;
    MulGrows(b.rsvdSecCnt + b.fatSz32, FirstDataSector(b), b.bytsPerSec);
    assert Mul(b.rsvdSecCnt + b.fatSz32, b.bytsPerSec) == Mul(b.rsvdSecCnt, b.bytsPerSec) + Mul(b.fatSz32, b.bytsPerSec);
    assert a + 4 <= s.at;
    if a + 4 <= |img| {
      assert img'[a..a + 4] == img[a..a + 4];
    }
  }

  /// A slot write changes exactly the entry at its own address.
  lemma SlotAfterWrite(b: Bpb, img: seq<byte>, img': seq<byte>, s: DirSlot, at: nat)
    requires SlotWritten(b, img, img', s) && at % DIR_ENTRY_SIZE == 0 && at + DIR_ENTRY_SIZE <= |img|
    ensures at + DIR_ENTRY_SIZE <= |img'|
    ensures SlotAt(img', at) == if at == s.at then s else SlotAt(img, at)
  {
    if at == s.at {
      assert img'[at..at + DIR_ENTRY_SIZE] == s.bytes;
    } else {
      var p := at / DIR_ENTRY_SIZE;
      var q := s.at / DIR_ENTRY_SIZE;
      assert at == DIR_ENTRY_SIZE * p && s.at == DIR_ENTRY_SIZE * q;
      assert at + DIR_ENTRY_SIZE <= s.at || s.at + DIR_ENTRY_SIZE <= at;
      assert img'[at..at + DIR_ENTRY_SIZE] == img[at..at + DIR_ENTRY_SIZE];
    }
  }

  lemma SectorAfterWrite(b: Bpb, img: seq<byte>, img': seq<byte>, s: DirSlot, c: nat, i: nat)
    requires WellFormed(b) && SlotWritten(b, img, img', s) && SectorReadable(b, img, c, i)
    ensures SectorReadable(b, img', c, i)
    ensures SectorEntries(b, img', c, i) == Overwrite(SectorEntries(b, img, c, i), s)
  {
    SectorInDataRegion(b, img, c, i);
    var es := SectorEntries(b, img, c, i);
    forall j | 0 <= j < |es| ensures SectorEntries(b, img', c, i)[j] == Overwrite(es, s)[j] {
      SlotAfterWrite(b, img, img', s, es[j].at);
    }
  }

  lemma {:induction false} ClusterAfterWrite(b: Bpb, img: seq<byte>, img': seq<byte>, s: DirSlot, c: nat, i: nat)
    requires WellFormed(b) && SlotWritten(b, img, img', s)
    ensures ClusterEntriesFrom(b, img', c, i) == Overwrite(ClusterEntriesFrom(b, img, c, i), s)
    decreases b.secPerClus - i
  {
    if i < b.secPerClus && SectorReadable(b, img, c, i) {
      SectorAfterWrite(b, img, img', s, c, i);
      ClusterAfterWrite(b, img, img', s, c, i + 1);
      OverwriteAppend(SectorEntries(b, img, c, i), ClusterEntriesFrom(b, img, c, i + 1), s);
    }
  }

  /// Writing one slot of a directory whose chain keeps its FAT entries in
  /// the first FAT leaves the chain as it was: the walk reaches the same
  /// slots, with the written one replaced, and ends where it ended.
  lemma {:induction false} VisitedAfterWrite(w: Walker, b: Bpb, img: seq<byte>, img': seq<byte>, s: DirSlot,
                                             c: nat, fuel: nat)
    requires WellFormed(b) && b.numFats >= 1 && SlotWritten(b, img, img', s) && ChainInFat(b, img, c)
    ensures Visited(w, b, img', c, fuel) == Overwrite(Visited(w, b, img, c, fuel), s)
    decreases fuel, 1
  {
    if c < EOC_MIN {
      ClusterAfterWrite(b, img, img', s, c, 0);
      AfterClusterAfterWrite(w, b, img, img', s, c, fuel);
      OverwriteAppend(ClusterEntriesFrom(b, img, c, 0), AfterCluster(w, b, img, c, fuel), s);
    } else {
      assert Overwrite([], s) == [];
    }
  }

  lemma {:induction false} AfterClusterAfterWrite(w: Walker, b: Bpb, img: seq<byte>, img': seq<byte>, s: DirSlot,
                                                  c: nat, fuel: nat)
    requires WellFormed(b) && b.numFats >= 1 && SlotWritten(b, img, img', s) && ChainInFat(b, img, c)
    requires c < EOC_MIN
    ensures AfterCluster(w, b, img', c, fuel) == Overwrite(AfterCluster(w, b, img, c, fuel), s)
    decreases fuel, 0
  {
    assert Walk(b, img, c, 0) == c;
    FatEntryKept(b, img, img', s, c);
    assert |img'| == |img|;
    assert ClusterReadable(b, img', c) <==> ClusterReadable(b, img, c) by {
      assert forall i :: SectorReadable(b, img', c, i) <==> SectorReadable(b, img, c, i);
    }
    var next := ReadFatEntry(b, img, c);
    if (HaltsOnReadFailure(w) && !ClusterReadable(b, img, c)) || fuel == 0 || next >= EOC_MIN {
      assert Overwrite([], s) == [];
    } else {
      ChainInFatNext(b, img, c);
      VisitedAfterWrite(w, b, img, img', s, next, fuel - 1);
    }
  }

  /// The same write leaves the chain's length as it was.
  lemma {:induction false} TerminatesAfterWrite(b: Bpb, img: seq<byte>, img': seq<byte>, s: DirSlot, c: nat, fuel: nat)
    requires b.numFats >= 1 && SlotWritten(b, img, img', s) && ChainInFat(b, img, c)
    requires Terminates(b, img, c, fuel)
    ensures Terminates(b, img', c, fuel)
    decreases fuel
  {
    if c < EOC_MIN {
      assert Walk(b, img, c, 0) == c;
      FatEntryKept(b, img, img', s, c);
      var next := ReadFatEntry(b, img, c);
      if next < EOC_MIN {
        ChainInFatNext(b, img, c);
        TerminatesAfterWrite(b, img, img', s, next, fuel - 1);
      }
    }
  }
}
