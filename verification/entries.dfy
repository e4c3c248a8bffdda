/// The directory entries `creat` and `mkdir` write: the new entry in the
/// parent directory and the first cluster of a new directory with its
/// `.` and `..` entries.
module Entries {
  import opened Bytes
  import opened Structs
  import opened Geometry
  import opened Names
  import opened Fat
  import opened Directory

  /// The entry `creat` writes: an archive with no cluster and size 0.
  function NewFileEntry(n: seq<byte>): (e: DirEntry)
    requires NoNul(n)
    ensures |e.name| == 11
  {
    DirEntry(EncodeName(n), ATTR_ARCHIVE, 0, 0, 0, 0, 0, 0, 0, 0, 0, 0)
  }

  /// A directory entry pointing at cluster `c`, size 0, every other field zero.
  function DirectoryEntry(name: seq<byte>, c: u32): (e: DirEntry)
    requires |name| == 11
    ensures |e.name| == 11
  {
    DirEntry(name, ATTR_DIRECTORY, 0, 0, 0, 0, 0, ClusterHi(c), 0, 0, ClusterLo(c), 0)
  }

  /// The entry `mkdir` writes into the parent directory.
  function NewDirEntry(n: seq<byte>, c: u32): (e: DirEntry)
    requires NoNul(n)
    ensures |e.name| == 11
  {
    DirectoryEntry(EncodeName(n), c)
  }

  const DOT_NAME: seq<byte> := [DOT, SPACE, SPACE, SPACE, SPACE, SPACE, SPACE, SPACE, SPACE, SPACE, SPACE]
  const DOTDOT_NAME: seq<byte> := [DOT, DOT, SPACE, SPACE, SPACE, SPACE, SPACE, SPACE, SPACE, SPACE, SPACE]

  /// The `.` and `..` names list as "." and "..".
  lemma DotNames()
    ensures |DOT_NAME| == 11 && FormatName(DOT_NAME) == [DOT]
    ensures |DOTDOT_NAME| == 11 && FormatName(DOTDOT_NAME) == [DOT, DOT]
  {
    ShortFieldOfPadded(DOT_NAME[..8], [DOT]);
    BlankField(DOT_NAME[8..]);
    ShortFieldOfPadded(DOTDOT_NAME[..8], [DOT, DOT]);
    BlankField(DOTDOT_NAME[8..]);
  }

  /// The cluster number `..` records: 0 when the parent is the root
  /// directory, the parent's cluster otherwise.
  function ParentField(b: Bpb, parent: u32): (r: u32)
    ensures r == 0 <==> parent == b.rootClus || parent == 0
  {
    if parent == b.rootClus then 0 else parent
  }

  /// The first cluster of a new directory: `.` at byte 0, `..` at byte 32,
  /// zeros after them.
  function NewDirCluster(size: nat, self: u32, parentField: u32): (r: seq<byte>)
    requires size >= 2 * DIR_ENTRY_SIZE
    ensures |r| == size
    ensures r[..DIR_ENTRY_SIZE] == EncodeDirEntry(DirectoryEntry(DOT_NAME, self))
    ensures r[DIR_ENTRY_SIZE..2 * DIR_ENTRY_SIZE] == EncodeDirEntry(DirectoryEntry(DOTDOT_NAME, parentField))
    ensures forall k :: 2 * DIR_ENTRY_SIZE <= k < size ==> r[k] == 0
  {
    var dot := EncodeDirEntry(DirectoryEntry(DOT_NAME, self));
    var dotdot := EncodeDirEntry(DirectoryEntry(DOTDOT_NAME, parentField));
    var r := dot + dotdot + Zeros(size - 2 * DIR_ENTRY_SIZE);
    assert r[..DIR_ENTRY_SIZE] == dot;
    assert r[DIR_ENTRY_SIZE..2 * DIR_ENTRY_SIZE] == dotdot;
    r
  }

  /// `n` zero bytes.
  function Zeros(n: nat): (r: seq<byte>)
    ensures |r| == n && forall k :: 0 <= k < n ==> r[k] == 0
  {
    if n == 0 then [] else [0] + Zeros(n - 1)
  }

  /// The entry `mkdir` writes records the new cluster and the directory bit.
  lemma NewDirEntryDecodes(n: seq<byte>, c: u32)
    requires NoNul(n)
    ensures var d := DecodeDirEntry(EncodeDirEntry(NewDirEntry(n, c)));
      FirstCluster(d) == c && HasAll(d.attr, ATTR_DIRECTORY) && d.fileSize == 0 && d.name == EncodeName(n)
  {
    DecodeEncodeDirEntry(NewDirEntry(n, c));
    ClusterHalves(DecodeDirEntry(EncodeDirEntry(NewDirEntry(n, c))), c);
  }

  /// The slot `entry` at `at` holding an encoded entry.
  function SlotOf(at: nat, e: DirEntry): DirSlot
    requires |e.name| == 11
  {
    DirSlot(at, EncodeDirEntry(e))
  }

  /// Names `creat` can store and find again: one to eight bytes, upper
  /// case, no space or NUL, not starting with the deleted marker.
  predicate Storable(n: seq<byte>) {
    && 0 < |n| <= 8
    && NoNul(n) && NoSpace(n)
    && (forall k :: 0 <= k < |n| ==> !('a' as int <= n[k] <= 'z' as int))
    && n[0] != DELETED_ENTRY
  }

  /// The new file entry matches its own name for the search and for `open`.
  lemma NewFileEntryMatches(n: seq<byte>, at: nat)
    requires Storable(n)
    ensures Matches(Search, n, SlotOf(at, NewFileEntry(n)))
    ensures Matches(OpenLookup, n, SlotOf(at, NewFileEntry(n)))
  {
    var e := NewFileEntry(n);
    var s := SlotOf(at, e);
    DecodeEncodeDirEntry(e);
    assert s.bytes[..11] == e.name && s.bytes[11] == e.attr;
    StoredAttributes();
    FormatEncodeShort(n);
    UpperOfUpper(n);
    assert EntryName(s) == n;
    assert Lead(s) == e.name[0] == n[0];
  }

  /// The free slot a search reports when it finds nothing is an entry it
  /// walked to, and every entry before it leaves the walk going.
  lemma SlotEntry(n: seq<byte>, es: seq<DirSlot>) returns (j: nat)
    requires var r := Fold(Search, n, es, Start); r.hit.None? && r.slot >= 0
    ensures j < |es| && es[j].at == Fold(Search, n, es, Start).slot
    ensures forall t :: 0 <= t < j ==> !Stops(Search, n, es[t])
  {
    var z := StopIndex(Search, n, es);
    LookupFindsFirstMatch(Search, n, es, Start);
    SearchSlot(n, es, Start);
    if z < |es| && Lead(es[z]) == END_OF_DIRECTORY {
      j := z;
    } else {
      assert z == |es|;
      assert es[..|es|] == es;
      j := FirstDeleted(es);
    }
  }

  /// Writing the new entry over the free slot the search reported makes
  /// both the search and `open` find it.
  lemma FoundAfterOverwrite(n: seq<byte>, es: seq<DirSlot>)
    requires Storable(n)
    requires var r := Fold(Search, n, es, Start); r.hit.None? && r.slot >= 0
    ensures var s := SlotOf(Fold(Search, n, es, Start).slot, NewFileEntry(n));
      && Fold(Search, n, Overwrite(es, s), Start).hit == Some(s)
      && Fold(OpenLookup, n, Overwrite(es, s), Start).hit == Some(s)
  {
    var slot := Fold(Search, n, es, Start).slot;
    var s := SlotOf(slot, NewFileEntry(n));
    var es' := Overwrite(es, s);
    var j := SlotEntry(n, es);
    var f := FirstAt(es, slot);
    assert f <= j;
    assert es'[f] == s;
    NewFileEntryMatches(n, slot);
    forall t | 0 <= t < f ensures !Stops(Search, n, es'[t]) && !Stops(OpenLookup, n, es'[t]) {
      assert es'[t] == es[t];
      assert !Stops(Search, n, es[t]);
    }
    FirstStopAt(Search, n, es', f);
    LookupFindsFirstMatch(Search, n, es', Start);
    FirstStopAt(OpenLookup, n, es', f);
    LookupFindsFirstMatch(OpenLookup, n, es', Start);
  }

  /// `creat` then search: once the new entry is written into the image at
  /// the free slot the search reported, the chain is as long as before and
  /// searching again (so a second `creat` reports that the name exists) and
  /// opening the name both find exactly that entry.
  lemma CreatThenFound(b: Bpb, img: seq<byte>, img': seq<byte>, cur: nat, n: seq<byte>)
    requires WellFormed(b) && b.numFats >= 1
    requires FiniteChain(b, img, cur) && ChainInFat(b, img, cur)
    requires Storable(n)
    requires var r := Fold(Search, n, Directory.Entries(Search, b, img, cur), Start);
      && r.hit.None? && r.slot >= 0
      && WriteAt(img, r.slot, EncodeDirEntry(NewFileEntry(n))) == Some(img')
    ensures FiniteChain(b, img', cur)
    ensures var s := SlotOf(Fold(Search, n, Directory.Entries(Search, b, img, cur), Start).slot, NewFileEntry(n));
      && Fold(Search, n, Directory.Entries(Search, b, img', cur), Start).hit == Some(s)
      && Fold(OpenLookup, n, Directory.Entries(OpenLookup, b, img', cur), Start).hit == Some(s)
  {
    var fuel :| Terminates(b, img, cur, fuel);
    var es := Directory.Entries(Search, b, img, cur);
    assert es == Visited(Search, b, img, cur, fuel);
    var slot := Fold(Search, n, es, Start).slot;
    var s := SlotOf(slot, NewFileEntry(n));
    var j := SlotEntry(n, es);
    VisitedInDataRegion(Search, b, img, cur, fuel);
    assert SlotWritten(b, img, img', s);
    TerminatesAfterWrite(b, img, img', s, cur, fuel);
    VisitedAfterWrite(Search, b, img, img', s, cur, fuel);
    VisitedAlike(Search, OpenLookup, b, img', cur, fuel);
    assert Directory.Entries(Search, b, img', cur) == Overwrite(es, s);
    assert Directory.Entries(OpenLookup, b, img', cur) == Overwrite(es, s);
    FoundAfterOverwrite(n, es);
  }

  /// `creat` stores the name upper-cased but its duplicate check compares
  /// the name as typed, so a name with a lower-case letter never matches
  /// the entry made for it, and a second `creat` of it is not refused.
  lemma LowerCaseNeverMatches(n: seq<byte>, at: nat, k: nat)
    requires 0 < |n| <= 8 && NoNul(n) && NoSpace(n)
    requires k < |n| && 'a' as int <= n[k] <= 'z' as int
    ensures !Matches(Search, n, SlotOf(at, NewFileEntry(n)))
  {
    var e := NewFileEntry(n);
    var s := SlotOf(at, e);
    DecodeEncodeDirEntry(e);
    assert s.bytes[..11] == e.name;
    FormatEncodeShort(n);
    assert EntryName(s)[k] != n[k];
  }

  lemma FirstStopAt(w: Walker, n: seq<byte>, es: seq<DirSlot>, k: nat)
    requires k < |es| && Stops(w, n, es[k])
    requires forall t :: 0 <= t < k ==> !Stops(w, n, es[t])
    ensures StopIndex(w, n, es) == k
  {
  }
}
