/// The packed on-disk records and the constants of the driver: the boot
/// parameter block, the 32-byte short directory entry, the attribute bits,
/// the access modes and the open-file record. The packed structs are read
/// and written field by field in little-endian order.
module Structs {
  import opened Bytes

  const BPB_SIZE: nat := 512
  const DIR_ENTRY_SIZE: nat := 32
  const BOOT_SIGNATURE: u16 := 0xAA55

  /// The boot-sector fields the driver uses, at their offsets in the sector.
  datatype Bpb = Bpb(
    bytsPerSec: u16,   // 0x0B
    secPerClus: byte,  // 0x0D
    rsvdSecCnt: u16,   // 0x0E
    numFats: byte,     // 0x10
    totSec32: u32,     // 0x20
    fatSz32: u32,      // 0x24
    rootClus: u32,     // 0x2C
    signature: u16)    // 0x1FE

  /// The fields of a boot sector; the signature is `0xAA55` exactly when
  /// the sector ends in the bytes `0x55 0xAA`.
  function DecodeBpb(s: seq<byte>): (r: Bpb)
    requires |s| == BPB_SIZE
    ensures r.signature == BOOT_SIGNATURE <==> s[0x1FE] == 0x55 && s[0x1FF] == 0xAA
  {
    Bpb(LE16(s, 0x0B), s[0x0D], LE16(s, 0x0E), s[0x10],
        LE32(s, 0x20), LE32(s, 0x24), LE32(s, 0x2C), LE16(s, 0x1FE))
  }

  /// Writes the fields of `b` at their offsets into the 512-byte sector
  /// `sector`, leaving every other byte (jump code, OEM name, labels,
  /// bootstrap code) as it was.
  function PlaceBpb(b: Bpb, sector: seq<byte>): (s: seq<byte>)
    requires |sector| == BPB_SIZE
    ensures |s| == BPB_SIZE
  {
    var s1 := Splice(sector, 0x0B, Bytes16(b.bytsPerSec));
    var s2 := Splice(s1, 0x0D, [b.secPerClus]);
    var s3 := Splice(s2, 0x0E, Bytes16(b.rsvdSecCnt));
    var s4 := Splice(s3, 0x10, [b.numFats]);
    var s5 := Splice(s4, 0x20, Bytes32(b.totSec32));
    var s6 := Splice(s5, 0x24, Bytes32(b.fatSz32));
    var s7 := Splice(s6, 0x2C, Bytes32(b.rootClus));
    Splice(s7, 0x1FE, Bytes16(b.signature))
  }

  /// Decoding a sector into which the fields were placed gives the fields back.
  lemma DecodePlacedBpb(b: Bpb, sector: seq<byte>)
    requires |sector| == BPB_SIZE
    ensures DecodeBpb(PlaceBpb(b, sector)) == b
  {
    var s := PlaceBpb(b, sector);
    var e16 := Bytes16(b.bytsPerSec);
    assert s[0x0B] == e16[0] && s[0x0C] == e16[1];
    assert LE16(s, 0x0B) == LE16(e16, 0);
    var r16 := Bytes16(b.rsvdSecCnt);
    assert s[0x0E] == r16[0] && s[0x0F] == r16[1];
    assert LE16(s, 0x0E) == LE16(r16, 0);
    var t32 := Bytes32(b.totSec32);
    assert s[0x20] == t32[0] && s[0x21] == t32[1] && s[0x22] == t32[2] && s[0x23] == t32[3];
    assert LE32(s, 0x20) == LE32(t32, 0);
    var f32 := Bytes32(b.fatSz32);
    assert s[0x24] == f32[0] && s[0x25] == f32[1] && s[0x26] == f32[2] && s[0x27] == f32[3];
    assert LE32(s, 0x24) == LE32(f32, 0);
    var c32 := Bytes32(b.rootClus);
    assert s[0x2C] == c32[0] && s[0x2D] == c32[1] && s[0x2E] == c32[2] && s[0x2F] == c32[3];
    assert LE32(s, 0x2C) == LE32(c32, 0);
    var g16 := Bytes16(b.signature);
    assert s[0x1FE] == g16[0] && s[0x1FF] == g16[1];
    assert LE16(s, 0x1FE) == LE16(g16, 0);
  }

  /// Placing the decoded fields back into the sector they came from changes no byte.
  lemma PlaceDecodedBpb(s: seq<byte>)
    requires |s| == BPB_SIZE
    ensures PlaceBpb(DecodeBpb(s), s) == s
  {
    var b := DecodeBpb(s);
    Bytes16OfLE16(s, 0x0B);
    Bytes16OfLE16(s, 0x0E);
    Bytes32OfLE32(s, 0x20);
    Bytes32OfLE32(s, 0x24);
    Bytes32OfLE32(s, 0x2C);
    Bytes16OfLE16(s, 0x1FE);
    var r := PlaceBpb(b, s);
    forall p | 0 <= p < BPB_SIZE ensures r[p] == s[p] {
      if 0x0B <= p < 0x0D { assert s[0x0B..0x0D][p - 0x0B] == s[p]; }
      else if 0x0E <= p < 0x10 { assert s[0x0E..0x10][p - 0x0E] == s[p]; }
      else if 0x20 <= p < 0x24 { assert s[0x20..0x24][p - 0x20] == s[p]; }
      else if 0x24 <= p < 0x28 { assert s[0x24..0x28][p - 0x24] == s[p]; }
      else if 0x2C <= p < 0x30 { assert s[0x2C..0x30][p - 0x2C] == s[p]; }
      else if 0x1FE <= p < 0x200 { assert s[0x1FE..0x200][p - 0x1FE] == s[p]; }
    }
  }

  // Attribute bits of a directory entry.
  const ATTR_READ_ONLY: byte := 0x01
  const ATTR_HIDDEN: byte := 0x02
  const ATTR_SYSTEM: byte := 0x04
  const ATTR_VOLUME_ID: byte := 0x08
  const ATTR_DIRECTORY: byte := 0x10
  const ATTR_ARCHIVE: byte := 0x20
  const ATTR_LFN: byte := 0x0F

  /// Bitwise AND, one bit at a time from the lowest.
  function BitAnd(x: nat, y: nat): (r: nat)
    ensures r <= x && r <= y
    decreases x
  {
    if x == 0 || y == 0 then 0
    else 2 * BitAnd(x / 2, y / 2) + (if x % 2 == 1 && y % 2 == 1 then 1 else 0)
  }

  /// The long-file-name marker is the four low attribute bits together,
  /// and neither the directory nor the archive bit is among them.
  lemma LongNameIsLowFourBits()
    ensures ATTR_LFN == ATTR_READ_ONLY + ATTR_HIDDEN + ATTR_SYSTEM + ATTR_VOLUME_ID
    ensures BitAnd(ATTR_DIRECTORY, ATTR_LFN) == 0 && BitAnd(ATTR_ARCHIVE, ATTR_LFN) == 0
  {
  }

  /// What `creat` and `mkdir` store passes the filters of the directory
  /// walks: neither attribute is a long-name marker or a volume label, and
  /// only the directory attribute has the directory bit.
  lemma StoredAttributes()
    ensures !HasAll(ATTR_ARCHIVE, ATTR_LFN) && !HasAny(ATTR_ARCHIVE, ATTR_VOLUME_ID)
    ensures !HasAll(ATTR_DIRECTORY, ATTR_LFN) && !HasAny(ATTR_DIRECTORY, ATTR_VOLUME_ID)
    ensures HasAll(ATTR_DIRECTORY, ATTR_DIRECTORY) && !HasAny(ATTR_ARCHIVE, ATTR_DIRECTORY)
  {
    assert BitAnd(0x20, 0x0F) == 16 * BitAnd(2, 0) == 0;
    assert BitAnd(0x20, 0x08) == 8 * BitAnd(4, 1) == 0;
    assert BitAnd(0x10, 0x0F) == 16 * BitAnd(1, 0) == 0;
    assert BitAnd(0x10, 0x08) == 8 * BitAnd(2, 1) == 0;
    assert BitAnd(0x10, 0x10) == 16 * BitAnd(1, 1) == 16;
    assert BitAnd(0x20, 0x10) == 16 * BitAnd(2, 1) == 0;
  }

  /// `(attr & mask) == mask`
  predicate HasAll(attr: byte, mask: byte) {
    BitAnd(attr, mask) == mask
  }

  /// `(attr & mask) != 0`
  predicate HasAny(attr: byte, mask: byte) {
    BitAnd(attr, mask) != 0
  }

  /// Name-byte sentinels.
  const END_OF_DIRECTORY: byte := 0x00
  const DELETED_ENTRY: byte := 0xE5

  /// The 32-byte short directory entry, every field in on-disk order.
  datatype DirEntry = DirEntry(
    name: seq<byte>,      // 0..10
    attr: byte,           // 11
    ntRes: byte,          // 12
    crtTimeTenth: byte,   // 13
    crtTime: u16,         // 14
    crtDate: u16,         // 16
    lstAccDate: u16,      // 18
    fstClusHi: u16,       // 20
    wrtTime: u16,         // 22
    wrtDate: u16,         // 24
    fstClusLo: u16,       // 26
    fileSize: u32)        // 28..31

  function EncodeDirEntry(e: DirEntry): (s: seq<byte>)
    requires |e.name| == 11
    ensures |s| == DIR_ENTRY_SIZE
  {
    e.name + [e.attr, e.ntRes, e.crtTimeTenth]
    + Bytes16(e.crtTime) + Bytes16(e.crtDate) + Bytes16(e.lstAccDate)
    + Bytes16(e.fstClusHi) + Bytes16(e.wrtTime) + Bytes16(e.wrtDate)
    + Bytes16(e.fstClusLo) + Bytes32(e.fileSize)
  }

  function DecodeDirEntry(s: seq<byte>): (e: DirEntry)
    requires |s| == DIR_ENTRY_SIZE
    ensures |e.name| == 11 && e.attr == s[11]
  {
    DirEntry(s[..11], s[11], s[12], s[13], LE16(s, 14), LE16(s, 16), LE16(s, 18),
             LE16(s, 20), LE16(s, 22), LE16(s, 24), LE16(s, 26), LE32(s, 28))
  }

  /// Every 32-byte record decodes to an entry that encodes back to it.
  lemma EncodeDecodeDirEntry(s: seq<byte>)
    requires |s| == DIR_ENTRY_SIZE
    ensures |DecodeDirEntry(s).name| == 11
    ensures EncodeDirEntry(DecodeDirEntry(s)) == s
  {
    var e := DecodeDirEntry(s);
    Bytes16OfLE16(s, 14); Bytes16OfLE16(s, 16); Bytes16OfLE16(s, 18); Bytes16OfLE16(s, 20);
    Bytes16OfLE16(s, 22); Bytes16OfLE16(s, 24); Bytes16OfLE16(s, 26); Bytes32OfLE32(s, 28);
    assert [s[11], s[12], s[13]] == s[11..14];
    PrefixGrows(s, 11, 14); PrefixGrows(s, 14, 16); PrefixGrows(s, 16, 18); PrefixGrows(s, 18, 20);
    PrefixGrows(s, 20, 22); PrefixGrows(s, 22, 24); PrefixGrows(s, 24, 26); PrefixGrows(s, 26, 28);
    PrefixGrows(s, 28, 32);
    assert s[..32] == s;
  }

  lemma PrefixGrows(s: seq<byte>, i: nat, j: nat)
    requires i <= j <= |s|
    ensures s[..i] + s[i..j] == s[..j]
  {
  }

  /// Every entry with an 11-byte name survives encoding and decoding.
  lemma DecodeEncodeDirEntry(e: DirEntry)
    requires |e.name| == 11
    ensures DecodeDirEntry(EncodeDirEntry(e)) == e
  {
    var s := EncodeDirEntry(e);
    assert s[..11] == e.name;
    assert s[14..16] == Bytes16(e.crtTime);
    assert s[16..18] == Bytes16(e.crtDate);
    assert s[18..20] == Bytes16(e.lstAccDate);
    assert s[20..22] == Bytes16(e.fstClusHi);
    assert s[22..24] == Bytes16(e.wrtTime);
    assert s[24..26] == Bytes16(e.wrtDate);
    assert s[26..28] == Bytes16(e.fstClusLo);
    assert s[28..32] == Bytes32(e.fileSize);
    assert LE16(s, 14) == LE16(s[14..16], 0);
    assert LE16(s, 16) == LE16(s[16..18], 0);
    assert LE16(s, 18) == LE16(s[18..20], 0);
    assert LE16(s, 20) == LE16(s[20..22], 0);
    assert LE16(s, 22) == LE16(s[22..24], 0);
    assert LE16(s, 24) == LE16(s[24..26], 0);
    assert LE16(s, 26) == LE16(s[26..28], 0);
    assert LE32(s, 28) == LE32(s[28..32], 0);
  }

  /// `DIR_FstClusHI << 16 | DIR_FstClusLO`
  function FirstCluster(e: DirEntry): u32 {
    e.fstClusHi * 0x1_0000 + e.fstClusLo
  }

  /// The high and low halves stored for cluster `c`: `(c >> 16) & 0xFFFF`, `c & 0xFFFF`.
  function ClusterHi(c: u32): u16 { c / 0x1_0000 }
  function ClusterLo(c: u32): u16 { c % 0x1_0000 }

  /// Splitting a cluster number into halves and joining them gives it back.
  lemma ClusterHalves(e: DirEntry, c: u32)
    requires e.fstClusHi == ClusterHi(c) && e.fstClusLo == ClusterLo(c)
    ensures FirstCluster(e) == c
  {
  }

  /// `FILE_ACCESS_MODE`; only write-only refuses reads.
  datatype AccessMode = ModeRead | ModeWrite | ModeReadWrite | ModeWriteRead

  predicate AllowsRead(m: AccessMode) {
    m != ModeWrite
  }

  const MAX_OPEN_FILES: nat := 10
  /// `char name[13]` and `char path[256]` hold at most this many bytes before the NUL.
  const NAME_CAPACITY: nat := 12
  const PATH_CAPACITY: nat := 255

  /// `OPEN_FILE`: one slot of the open-file table.
  datatype OpenFile = OpenFile(
    index: int,
    used: bool,
    name: seq<byte>,
    path: seq<byte>,
    mode: AccessMode,
    offset: nat,
    startCluster: u32,
    fileSize: u32)

  /// A slot of the zero-initialised global table.
  const ZeroSlot := OpenFile(0, false, [], [], ModeRead, 0, 0, 0)

  /// The first `n` bytes of `s` (strncpy into a buffer of `n` + 1 bytes).
  function Prefix(s: seq<byte>, n: nat): (r: seq<byte>)
    ensures |r| <= n && r <= s
    ensures |s| <= n ==> r == s
  {
    if |s| <= n then s else s[..n]
  }
}
