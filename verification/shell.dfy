/// The shell's session state (`g_fs_state`) and the commands that read and
/// change it: mounting an image, `cd`, `ls`, `mkdir`, `creat`, `open`,
/// `close`, `lseek` and `read`. The image file is the `image` byte sequence;
/// every positioned read and write goes through `ReadAt`/`WriteAt`.
module Shell {
  import opened Bytes
  import opened Structs
  import opened Geometry
  import opened Fat
  import opened Names
  import opened Directory
  import opened Entries
  import opened OpenFiles

  const SLASH: byte := 0x2F
  const ROOT_PATH: seq<byte> := [SLASH]
  const DOT_ARG: seq<byte> := [DOT]
  const DOTDOT_ARG: seq<byte> := [DOT, DOT]

  /// What a command reports; each error stands for the message the shell prints.
  datatype Status =
    | Ok
    | LoadFailed
    | NotFound
    | NotADirectory
    | IsADirectory
    | AlreadyExists
    | NoFreeSlot
    | NoFreeCluster
    | WriteFailed
    | AlreadyOpen
    | TableFull
    | NotOpen
    | OutOfBounds
    | BadSize
    | NotReadable
    | EndOfFile
    | ChainError

  /// The cluster recorded in a directory entry slot.
  function SlotCluster(e: DirSlot): (r: u32)
    ensures r == LE16(e.bytes, 20) * 0x1_0000 + LE16(e.bytes, 26)
  {
    FirstCluster(DecodeDirEntry(e.bytes))
  }

  // ---------------------------------------------------------------------
  // Paths

  /// The working path after entering `n`: `"/n/"` from the root, and
  /// otherwise `n` appended with no separator; cut to 255 bytes as
  /// `snprintf` into a 256-byte buffer does.
  function PushPath(p: seq<byte>, n: seq<byte>): (r: seq<byte>)
    ensures |r| <= PATH_CAPACITY
  {
    if p == ROOT_PATH then Prefix(ROOT_PATH + n + ROOT_PATH, PATH_CAPACITY)
    else Prefix(p + n, PATH_CAPACITY)
  }

  /// `strrchr(s, '/')`: the index of the last slash, or -1.
  function LastSlash(s: seq<byte>): (i: int)
    ensures -1 <= i < |s|
    ensures i >= 0 ==> s[i] == SLASH
    ensures forall k :: i < k < |s| ==> s[k] != SLASH
    decreases |s|
  {
    if |s| == 0 then -1
    else if s[|s| - 1] == SLASH then |s| - 1
    else LastSlash(s[..|s| - 1])
  }

  /// The working path after `cd ..` below the root: one trailing slash is
  /// dropped, then everything after the last remaining slash; `"/"` when
  /// no slash is left.
  function PopPath(p: seq<byte>): (r: seq<byte>)
    ensures |r| <= |p| || r == ROOT_PATH
    ensures |r| > 0 && r[|r| - 1] == SLASH
  {
    var q := if |p| > 1 && p[|p| - 1] == SLASH then p[..|p| - 1] else p;
    var i := LastSlash(q);
    if i >= 0 then q[..i + 1] else ROOT_PATH
  }

  predicate HasNoSlash(n: seq<byte>) {
    forall k :: 0 <= k < |n| ==> n[k] != SLASH
  }

  /// A path `cd` can come back to with `..`: the root, or one ending in a slash.
  predicate DirPath(p: seq<byte>) {
    p == ROOT_PATH || (|p| > 1 && p[|p| - 1] == SLASH)
  }

  /// Appending slash-free bytes leaves the last slash where it was.
  lemma {:induction false} LastSlashSkips(s: seq<byte>, t: seq<byte>)
    requires HasNoSlash(t)
    ensures LastSlash(s + t) == LastSlash(s)
    decreases |t|
  {
    if |t| > 0 {
      var u := s + t;
      assert u[|u| - 1] == t[|t| - 1] != SLASH;
      assert u[..|u| - 1] == s + t[..|t| - 1];
      LastSlashSkips(s, t[..|t| - 1]);
    } else {
      assert s + t == s;
    }
  }

  /// `cd n` followed by `cd ..` restores the path when the path is the
  /// root or ends in a slash, the name is a single component, and nothing
  /// was cut to fit the buffer.
  lemma PopPushPath(p: seq<byte>, n: seq<byte>)
    requires DirPath(p) && |n| > 0 && HasNoSlash(n)
    requires p == ROOT_PATH ==> |n| + 2 <= PATH_CAPACITY
    requires p != ROOT_PATH ==> |p| + |n| <= PATH_CAPACITY
    ensures PopPath(PushPath(p, n)) == p
  {
    if p == ROOT_PATH {
      var r := ROOT_PATH + n + ROOT_PATH;
      assert PushPath(p, n) == r;
      assert r[..|r| - 1] == ROOT_PATH + n;
      LastSlashSkips(ROOT_PATH, n);
      assert LastSlash(ROOT_PATH) == 0;
      assert (ROOT_PATH + n)[..1] == ROOT_PATH;
    } else {
      var r := p + n;
      assert PushPath(p, n) == r;
      assert r[|r| - 1] == n[|n| - 1] != SLASH;
      LastSlashSkips(p, n);
      assert LastSlash(p) == |p| - 1;
      assert r[..|p|] == p;
    }
  }

  /// Below the root the name is appended without a separator, so `cd ..`
  /// after a second `cd` does not come back: from `/A/B`, `cd C` gives
  /// `/A/BC`, and `cd ..` from there gives `/A/`.
  lemma MissingSeparator()
    ensures PushPath(['/' as byte, 'A' as byte, '/' as byte, 'B' as byte], ['C' as byte])
         == ['/' as byte, 'A' as byte, '/' as byte, 'B' as byte, 'C' as byte]
    ensures PopPath(['/' as byte, 'A' as byte, '/' as byte, 'B' as byte, 'C' as byte])
         == ['/' as byte, 'A' as byte, '/' as byte]
  {
    var p: seq<byte> := ['/' as byte, 'A' as byte, '/' as byte, 'B' as byte, 'C' as byte];
    assert LastSlash(p[..4]) == LastSlash(p[..3]) == 2;
  }

  // ---------------------------------------------------------------------
  // Outcomes of the commands as functions of the state before them

  /// `cd name`, given the entry the lookup found (if any): the status, the
  /// new current cluster and the new path.
  function CdOutcome(b: Bpb, cur: u32, path: seq<byte>, name: seq<byte>, hit: Option<DirSlot>)
    : (r: (Status, u32, seq<byte>))
    ensures r.0 != Ok ==> r.1 == cur && r.2 == path
    ensures r.0 == Ok <==> hit.Some? && HasAny(Attr(hit.value), ATTR_DIRECTORY)
    ensures r.0 == Ok && name != DOTDOT_ARG && name != DOT_ARG ==> r.1 == SlotCluster(hit.value)
    ensures |path| <= PATH_CAPACITY ==> |r.2| <= PATH_CAPACITY
  {
    if hit.None? then (NotFound, cur, path)
    else if !HasAny(Attr(hit.value), ATTR_DIRECTORY) then (NotADirectory, cur, path)
    else if name == DOTDOT_ARG then
      if cur == b.rootClus then (Ok, cur, ROOT_PATH)
      else (Ok, SlotCluster(hit.value), PopPath(path))
    else if name == DOT_ARG then (Ok, cur, path)
    else (Ok, SlotCluster(hit.value), PushPath(path, name))
  }

  /// `cd n` into a directory below the root, then `cd ..` there, brings
  /// the path back when it was the root or ended in a slash; the cluster
  /// becomes the one the `..` entry records.
  lemma CdUpRestoresPath(b: Bpb, cur: u32, path: seq<byte>, n: seq<byte>, hit: Option<DirSlot>, up: Option<DirSlot>)
    requires DirPath(path) && |n| > 0 && HasNoSlash(n) && n != DOT_ARG && n != DOTDOT_ARG
    requires path == ROOT_PATH ==> |n| + 2 <= PATH_CAPACITY
    requires path != ROOT_PATH ==> |path| + |n| <= PATH_CAPACITY
    requires CdOutcome(b, cur, path, n, hit).0 == Ok && CdOutcome(b, cur, path, n, hit).1 != b.rootClus
    requires up.Some? && HasAny(Attr(up.value), ATTR_DIRECTORY)
    ensures var r := CdOutcome(b, cur, path, n, hit);
      CdOutcome(b, r.1, r.2, DOTDOT_ARG, up) == (Ok, SlotCluster(up.value), path)
  {
    PopPushPath(path, n);
  }

  /// In the cluster `mkdir` writes, `cd` finds `.` as the first entry, a
  /// directory recording the new cluster.
  lemma NewDirDotEntry(b: Bpb, size: nat, self: u32, parent: u32, at: nat)
    requires size >= 2 * DIR_ENTRY_SIZE
    ensures var dot := DirSlot(at, NewDirCluster(size, self, ParentField(b, parent))[..DIR_ENTRY_SIZE]);
      Matches(CdLookup, DOT_ARG, dot) && HasAny(Attr(dot), ATTR_DIRECTORY) && SlotCluster(dot) == self
  {
    var e := DirectoryEntry(DOT_NAME, self);
    var bytes := NewDirCluster(size, self, ParentField(b, parent))[..DIR_ENTRY_SIZE];
    assert bytes == EncodeDirEntry(e);
    DotNames();
    StoredAttributes();
    DecodeEncodeDirEntry(e);
    ClusterHalves(e, self);
    assert bytes[..11] == DOT_NAME && bytes[11] == ATTR_DIRECTORY;
  }

  /// In the cluster `mkdir` writes, `cd` finds `..` as the second entry, a
  /// directory recording the parent, or cluster 0 when the parent is the root.
  lemma NewDirDotDotEntry(b: Bpb, size: nat, self: u32, parent: u32, at: nat)
    requires size >= 2 * DIR_ENTRY_SIZE
    ensures var dotdot := DirSlot(at, NewDirCluster(size, self, ParentField(b, parent))[DIR_ENTRY_SIZE..2 * DIR_ENTRY_SIZE]);
      && Matches(CdLookup, DOTDOT_ARG, dotdot) && HasAny(Attr(dotdot), ATTR_DIRECTORY)
      && SlotCluster(dotdot) == (if parent == b.rootClus then 0 else parent)
  {
    var e := DirectoryEntry(DOTDOT_NAME, ParentField(b, parent));
    var bytes := NewDirCluster(size, self, ParentField(b, parent))[DIR_ENTRY_SIZE..2 * DIR_ENTRY_SIZE];
    assert bytes == EncodeDirEntry(e);
    DotNames();
    StoredAttributes();
    DecodeEncodeDirEntry(e);
    ClusterHalves(e, ParentField(b, parent));
    assert bytes[..11] == DOTDOT_NAME && bytes[11] == ATTR_DIRECTORY;
  }

  /// A slot `read` may move within: an open file's position never passes its size.
  predicate InBounds(f: OpenFile) {
    f.used ==> f.offset <= f.fileSize
  }

  /// `read` on open handle `h` asked for `n` bytes: the status, the bytes
  /// delivered and the handle afterwards.
  function ReadHandle(b: Bpb, img: seq<byte>, h: OpenFile, n: nat): (r: (Status, seq<byte>, OpenFile))
    requires ClusterSize(b) > 0
    ensures |r.1| <= n
    ensures r.2 == h.(offset := h.offset + |r.1|)
    ensures r.0 != Ok ==> r.1 == []
    ensures r.0 == Ok ==> AllowsRead(h.mode) && h.offset < h.fileSize
                          && r.1 == FileRead(b, img, h.startCluster, h.offset, Min(n, h.fileSize - h.offset))
    ensures InBounds(h) ==> InBounds(r.2)
  {
    if !AllowsRead(h.mode) then (NotReadable, [], h)
    else if h.offset >= h.fileSize then (EndOfFile, [], h)
    else
      var want := Min(n, h.fileSize - h.offset);
      if Walk(b, img, h.startCluster, Index(ClusterSize(b), h.offset)) >= EOC_MIN then (ChainError, [], h)
      else
        var data := FileRead(b, img, h.startCluster, h.offset, want);
        (Ok, data, h.(offset := h.offset + |data|))
  }

  /// The slot `open` fills for directory entry `e`.
  function Opened(index: int, name: seq<byte>, path: seq<byte>, mode: AccessMode, e: DirEntry): (f: OpenFile)
    ensures f.used && f.offset == 0 && InBounds(f)
    ensures |name| <= NAME_CAPACITY ==> HoldsName(f, name)
    ensures |name| <= NAME_CAPACITY && |path| <= PATH_CAPACITY ==> HoldsFile(f, name, path)
  {
    OpenFile(index, true, Prefix(name, NAME_CAPACITY), Prefix(path, PATH_CAPACITY), mode, 0, FirstCluster(e), e.fileSize)
  }

  /// After `open` fills the first free slot, `close`, `lseek` and `read`
  /// find a handle under that name at or before it: an earlier handle of
  /// the same name, opened from another directory, is the one they use.
  lemma OpenedIsHeld(s: seq<OpenFile>, f: OpenFile, name: seq<byte>)
    requires FirstUnused(s) >= 0 && HoldsName(f, name)
    ensures var i := FirstHeld(s[FirstUnused(s) := f], name);
      0 <= i <= FirstUnused(s) && (i < FirstUnused(s) ==> i == FirstHeld(s, name))
  {
    var free := FirstUnused(s);
    var s' := s[free := f];
    var i := FirstHeld(s', name);
    assert HoldsName(s'[free], name);
    if i < free {
      assert s'[i] == s[i];
      forall k | 0 <= k < i ensures !HoldsName(s[k], name) {
        assert s'[k] == s[k];
      }
      FirstHeldIs(s, name, i);
    }
  }

  /// `mkdir`'s writes after the FAT update: the new entry into the free
  /// slot, then the new directory's first cluster, stopping at the first
  /// write that fails; `ok` says whether both succeeded.
  ghost predicate DirWrites(b: Bpb, fat: seq<byte>, out: seq<byte>, slot: nat, c: u32, name: seq<byte>,
                            parent: u32, ok: bool)
    requires NoNul(name) && ClusterSize(b) >= 2 * DIR_ENTRY_SIZE
  {
    match WriteAt(fat, slot, EncodeDirEntry(NewDirEntry(name, c)))
    case None => !ok && out == fat
    case Some(mid) =>
      match WriteAt(mid, DataAddr(b, c, 0), NewDirCluster(ClusterSize(b), c, ParentField(b, parent)))
      case None => !ok && out == mid
      case Some(last) => ok && out == last
  }

  /// `mkdir`'s effect on the image once it has a slot and a cluster `c`:
  /// the FAT entry of `c` becomes the end-of-chain mark, then `DirWrites`.
  ghost predicate DirCreated(b: Bpb, img: seq<byte>, out: seq<byte>, slot: nat, c: u32, name: seq<byte>,
                             parent: u32, ok: bool)
    requires NoNul(name) && ClusterSize(b) >= 2 * DIR_ENTRY_SIZE
  {
    exists fat :: FatWritten(b, img, fat, c, FAT_MASK) && DirWrites(b, fat, out, slot, c, name, parent, ok)
  }

  /// Where byte `p` of the file starting at cluster `start` lies: the
  /// cluster `find_cluster_from_offset` reaches and the offset within it.
  method SeekFile(b: Bpb, img: seq<byte>, start: nat, p: nat) returns (cur: nat, off: nat)
    requires ClusterSize(b) > 0
    ensures cur == Walk(b, img, start, Index(ClusterSize(b), p))
    ensures off == Offset(ClusterSize(b), p) && off < ClusterSize(b)
  {
    cur := FindClusterFromOffset(b, img, start, p);
    IndexIsDiv(ClusterSize(b), p);
    off := p % ClusterSize(b);
  }

  /// A readable handle before the end of its file whose position lies on
  /// the chain reads the file's bytes from that position.
  lemma ReadHandleOk(b: Bpb, img: seq<byte>, h: OpenFile, n: nat)
    requires ClusterSize(b) > 0 && AllowsRead(h.mode) && h.offset < h.fileSize
    requires Walk(b, img, h.startCluster, Index(ClusterSize(b), h.offset)) < EOC_MIN
    ensures var want := Min(n, h.fileSize - h.offset);
      ReadHandle(b, img, h, n).0 == Ok &&
      ReadHandle(b, img, h, n).1 == ReadFrom(b, img, Walk(b, img, h.startCluster, Index(ClusterSize(b), h.offset)),
                                             Offset(ClusterSize(b), h.offset), want)
  {
  }

  /// The data path of `read` for handle `h`: refuse a write-only handle,
  /// stop at the end of the file, clamp the request to what is left, find
  /// the cluster holding the position, and read on along the chain.
  method ReadOpenFile(b: Bpb, img: seq<byte>, h: OpenFile, n: nat) returns (status: Status, data: seq<byte>)
    requires ClusterSize(b) > 0
    ensures (status, data) == (ReadHandle(b, img, h, n).0, ReadHandle(b, img, h, n).1)
  {
    ghost var r := ReadHandle(b, img, h, n);
    if !AllowsRead(h.mode) {
      assert r.0 == NotReadable && r.1 == [];
      return NotReadable, [];
    }
    if h.offset >= h.fileSize {
      assert r.0 == EndOfFile && r.1 == [];
      return EndOfFile, [];
    }
    var want := Min(n, h.fileSize - h.offset);
    var cur, off := SeekFile(b, img, h.startCluster, h.offset);
    if cur >= EOC_MIN {
      assert r.0 == ChainError && r.1 == [];
      return ChainError, [];
    }
    data := ReadChain(b, img, cur, off, want);
    ReadHandleOk(b, img, h, n);
    status := Ok;
  }

  /// `mkdir` once the search has given free slot `slot`: take the first
  /// free cluster, mark it end-of-chain in the FAT, write the entry, then
  /// the cluster holding `.` and `..`.
  method MakeDirectory(b: Bpb, img: seq<byte>, slot: nat, name: seq<byte>, parent: u32)
    returns (status: Status, out: seq<byte>)
    requires WellFormed(b) && NoNul(name) && ClusterSize(b) >= 2 * DIR_ENTRY_SIZE
    ensures var c := FreeFrom(b, img, 2);
      && (status == NoFreeCluster <==> c >= EOC_MIN)
      && (status == NoFreeCluster ==> out == img)
      && (status != NoFreeCluster ==>
            (status == Ok || status == WriteFailed) && DirCreated(b, img, out, slot, c, name, parent, status == Ok))
  {
    var c := GetFreeCluster(b, img);
    if c == 0 || c >= EOC_MIN {
      return NoFreeCluster, img;
    }
    var fat := WriteFatEntry(b, img, c, FAT_MASK);
    var w := WriteAt(fat, slot, EncodeDirEntry(NewDirEntry(name, c)));
    if w.None? {
      assert DirWrites(b, fat, fat, slot, c, name, parent, false);
      return WriteFailed, fat;
    }
    var block := NewDirCluster(ClusterSize(b), c, ParentField(b, parent));
    var w2 := WriteAt(w.value, DataAddr(b, c, 0), block);
    if w2.None? {
      assert DirWrites(b, fat, w.value, slot, c, name, parent, false);
      return WriteFailed, w.value;
    }
    assert DirWrites(b, fat, w2.value, slot, c, name, parent, true);
    return Ok, w2.value;
  }

  // ---------------------------------------------------------------------
  // The session

  /// `FS_STATE`: the mounted image, its boot parameters, the working
  /// directory and the open-file table.
  class Session {
    var bpb: Bpb
    var image: seq<byte>
    var currentCluster: u32
    var currentPath: seq<byte>
    const table: array<OpenFile>

    /// The table has its ten slots, the path fits its buffer, and no open
    /// file is positioned past its end.
    predicate Valid()
      reads this, table
    {
      && table.Length == MAX_OPEN_FILES
      && |currentPath| <= PATH_CAPACITY
      && forall k :: 0 <= k < table.Length ==> InBounds(table[k])
    }

    /// The zero-initialised global state before an image is loaded.
    constructor ()
      ensures Valid() && fresh(table)
      ensures image == [] && currentPath == [] && currentCluster == 0
      ensures forall k :: 0 <= k < table.Length ==> table[k] == ZeroSlot
    {
      bpb := Bpb(0, 0, 0, 0, 0, 0, 0, 0);
      image := [];
      currentCluster := 0;
      currentPath := [];
      var t := new OpenFile[MAX_OPEN_FILES];
      forall k | 0 <= k < t.Length {
        t[k] := ZeroSlot;
      }
      table := t;
    }

    /// `load_bpb_and_init_state`: read the boot sector, reject a missing
    /// signature, and otherwise start at the root with every slot free and
    /// numbered.
    method Load(img: seq<byte>) returns (status: Status)
      requires Valid()
      modifies this, table
      ensures Valid()
      ensures image == img && currentPath == ROOT_PATH
      ensures |img| >= BPB_SIZE ==> bpb == DecodeBpb(img[..BPB_SIZE])
      ensures |img| < BPB_SIZE ==> bpb == old(bpb)
      ensures status == Ok <==> |img| >= BPB_SIZE && bpb.signature == BOOT_SIGNATURE
      ensures status != Ok ==> status == LoadFailed && currentCluster == old(currentCluster)
                               && table[..] == old(table[..])
      ensures status == Ok ==> currentCluster == bpb.rootClus
      ensures status == Ok ==> forall k :: 0 <= k < table.Length ==>
                                  table[k] == old(table[k]).(used := false, index := k)
    {
      image := img;
      currentPath := ROOT_PATH;
      var header := ReadAt(img, 0, BPB_SIZE);
      if header.None? {
        return LoadFailed;
      }
      assert header.value == img[..BPB_SIZE];
      bpb := DecodeBpb(header.value);
      if bpb.signature != BOOT_SIGNATURE {
        return LoadFailed;
      }
      currentCluster := bpb.rootClus;
      var k := 0;
      while k < table.Length
        invariant 0 <= k <= table.Length
        invariant forall t :: 0 <= t < k ==> table[t] == old(table[t]).(used := false, index := t)
        invariant forall t :: k <= t < table.Length ==> table[t] == old(table[t])
        modifies table
      {
        table[k] := table[k].(used := false, index := k);
        k := k + 1;
      }
      status := Ok;
    }

    /// The commands below need a loaded volume whose directory chain from
    /// the working directory ends.
    predicate Mounted()
      reads this, table
    {
      Valid() && WellFormed(bpb)
    }

    /// `ls`: the names of the listed entries of the working directory, in order.
    method Ls() returns (names: seq<seq<byte>>)
      requires Mounted() && FiniteChain(bpb, image, currentCluster)
      ensures names == Fold(Listing, [], Directory.Entries(Listing, bpb, image, currentCluster), Start).names
    {
      var st := ScanDirectory(Listing, bpb, image, currentCluster, []);
      names := st.names;
    }

    /// `cd name`.
    method Cd(name: seq<byte>) returns (status: Status)
      requires Mounted() && FiniteChain(bpb, image, currentCluster)
      modifies this
      ensures Valid() && bpb == old(bpb) && image == old(image)
      ensures var hit := Fold(CdLookup, name, Directory.Entries(CdLookup, bpb, image, old(currentCluster)), Start).hit;
        (status, currentCluster, currentPath) == CdOutcome(bpb, old(currentCluster), old(currentPath), name, hit)
    {
      var st := ScanDirectory(CdLookup, bpb, image, currentCluster, name);
      var r := CdOutcome(bpb, currentCluster, currentPath, name, st.hit);
      status := r.0;
      currentCluster := r.1;
      currentPath := r.2;
    }

    /// `creat name`: a new empty archive entry in the slot the search
    /// reports, unless the name is present or there is no slot.
    method Creat(name: seq<byte>) returns (status: Status)
      requires Mounted() && FiniteChain(bpb, image, currentCluster) && NoNul(name)
      modifies this
      ensures Valid() && bpb == old(bpb) && currentCluster == old(currentCluster) && currentPath == old(currentPath)
      ensures var st := Fold(Search, name, Directory.Entries(Search, bpb, old(image), currentCluster), Start);
        && (status == AlreadyExists <==> st.hit.Some?)
        && (status == NoFreeSlot <==> st.hit.None? && st.slot < 0)
        && (st.hit.None? && st.slot >= 0 ==>
              var w := WriteAt(old(image), st.slot, EncodeDirEntry(NewFileEntry(name)));
              && (status == Ok <==> w.Some?)
              && (status != Ok ==> status == WriteFailed)
              && (w.Some? ==> image == w.value))
        && (status != Ok ==> image == old(image))
    {
      var st := ScanDirectory(Search, bpb, image, currentCluster, name);
      if st.hit.Some? {
        return AlreadyExists;
      }
      if st.slot < 0 {
        return NoFreeSlot;
      }
      var w := WriteAt(image, st.slot, EncodeDirEntry(NewFileEntry(name)));
      if w.None? {
        return WriteFailed;
      }
      image := w.value;
      status := Ok;
    }

    /// `mkdir name`: a directory entry in the free slot, its first cluster
    /// taken from the FAT, and that cluster holding `.` and `..`.
    method Mkdir(name: seq<byte>) returns (status: Status)
      requires Mounted() && FiniteChain(bpb, image, currentCluster) && NoNul(name)
      requires ClusterSize(bpb) >= 2 * DIR_ENTRY_SIZE
      modifies this
      ensures Valid() && bpb == old(bpb) && currentCluster == old(currentCluster) && currentPath == old(currentPath)
      ensures var st := Fold(Search, name, Directory.Entries(Search, bpb, old(image), currentCluster), Start);
        var c := FreeFrom(bpb, old(image), 2);
        && (status == AlreadyExists <==> st.hit.Some?)
        && (status == NoFreeSlot <==> st.hit.None? && st.slot < 0)
        && (status == NoFreeCluster <==> st.hit.None? && st.slot >= 0 && c >= EOC_MIN)
        && (status in {AlreadyExists, NoFreeSlot, NoFreeCluster} ==> image == old(image))
        && (status !in {AlreadyExists, NoFreeSlot, NoFreeCluster} ==>
              && (status == Ok || status == WriteFailed)
              && st.slot >= 0 && c < EOC_MIN
              && DirCreated(bpb, old(image), image, st.slot, c, name, currentCluster, status == Ok))
    {
      var st := ScanDirectory(Search, bpb, image, currentCluster, name);
      if st.hit.Some? {
        return AlreadyExists;
      }
      if st.slot < 0 {
        return NoFreeSlot;
      }
      var out;
      status, out := MakeDirectory(bpb, image, st.slot, name, currentCluster);
      image := out;
    }

    /// `open name mode`: find the file in the working directory, refuse a
    /// directory or a file already open from this path, and fill the first
    /// free slot.
    method Open(name: seq<byte>, mode: AccessMode) returns (status: Status)
      requires Mounted() && FiniteChain(bpb, image, currentCluster)
      modifies table
      ensures Valid()
      ensures var hit := Fold(OpenLookup, name, Directory.Entries(OpenLookup, bpb, image, currentCluster), Start).hit;
        var isDir := hit.Some? && HasAny(Attr(hit.value), ATTR_DIRECTORY);
        var dup := exists k :: 0 <= k < table.Length && HoldsFile(old(table[k]), name, currentPath);
        var free := FirstUnused(old(table[..]));
        && (status == NotFound <==> hit.None?)
        && (status == IsADirectory <==> isDir)
        && (status == AlreadyOpen <==> hit.Some? && !isDir && dup)
        && (status == TableFull <==> hit.Some? && !isDir && !dup && free < 0)
        && (status == Ok <==> hit.Some? && !isDir && !dup && free >= 0)
        && (status == Ok ==> table[..] == old(table[..])[free :=
              Opened(old(table[free]).index, name, currentPath, mode, DecodeDirEntry(hit.value.bytes))])
        && (status != Ok ==> table[..] == old(table[..]))
    {
      var st := ScanDirectory(OpenLookup, bpb, image, currentCluster, name);
      if st.hit.None? {
        return NotFound;
      }
      if HasAny(Attr(st.hit.value), ATTR_DIRECTORY) {
        return IsADirectory;
      }
      var dup, free := FindOpenSlot(table, name, currentPath);
      if dup {
        return AlreadyOpen;
      }
      if free < 0 {
        return TableFull;
      }
      table[free] := Opened(table[free].index, name, currentPath, mode, DecodeDirEntry(st.hit.value.bytes));
      status := Ok;
    }

    /// `close name`: free the first used slot holding the name.
    method Close(name: seq<byte>) returns (status: Status)
      requires Valid()
      modifies table
      ensures Valid()
      ensures var i := FirstHeld(old(table[..]), name);
        && (status == NotOpen <==> i < 0)
        && (status != NotOpen ==> status == Ok)
        && (i >= 0 ==> table[..] == old(table[..])[i := old(table[i]).(used := false)])
        && (i < 0 ==> table[..] == old(table[..]))
    {
      var i := FindHandle(table, name);
      if i < 0 {
        return NotOpen;
      }
      table[i] := table[i].(used := false);
      status := Ok;
    }

    /// `lseek name off`: move the first handle holding the name to any
    /// position from 0 to the file size.
    method Lseek(name: seq<byte>, off: int) returns (status: Status)
      requires Valid()
      modifies table
      ensures Valid()
      ensures var i := FirstHeld(old(table[..]), name);
        && (status == NotOpen <==> i < 0)
        && (i >= 0 && (off < 0 || off > old(table[i]).fileSize) ==> status == OutOfBounds)
        && (status == Ok <==> i >= 0 && 0 <= off <= old(table[i]).fileSize)
        && (status == Ok ==> table[..] == old(table[..])[i := old(table[i]).(offset := off)])
        && (status != Ok ==> table[..] == old(table[..]))
    {
      var i := FindHandle(table, name);
      if i < 0 {
        return NotOpen;
      }
      if off < 0 || off > table[i].fileSize {
        return OutOfBounds;
      }
      table[i] := table[i].(offset := off);
      status := Ok;
    }

    /// `read name n`: up to `n` bytes of the first handle holding the name,
    /// from its position, never past the file size; the position advances
    /// by what was read.
    method Read(name: seq<byte>, n: int) returns (status: Status, data: seq<byte>)
      requires Valid() && ClusterSize(bpb) > 0
      modifies table
      ensures Valid()
      ensures var i := FirstHeld(old(table[..]), name);
        && (n <= 0 ==> status == BadSize && data == [] && table[..] == old(table[..]))
        && (n > 0 && i < 0 ==> status == NotOpen && data == [] && table[..] == old(table[..]))
        && (n > 0 && i >= 0 ==>
              var r := ReadHandle(bpb, image, old(table[i]), n);
              status == r.0 && data == r.1 && table[..] == old(table[..])[i := r.2])
    {
      if n <= 0 {
        return BadSize, [];
      }
      var i := FindHandle(table, name);
      if i < 0 {
        return NotOpen, [];
      }
      var h := table[i];
      status, data := ReadOpenFile(bpb, image, h, n);
      var moved := h.(offset := h.offset + |data|);
      assert moved == ReadHandle(bpb, image, h, n).2;
      table[i] := moved;
    }
  }
}
