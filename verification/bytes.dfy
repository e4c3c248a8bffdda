/// Byte-level vocabulary shared by the whole model: fixed-width unsigned
/// integers, the little-endian codecs every on-disk field uses, and
/// positioned reads and writes on the disk image, which is an in-memory
/// byte sequence standing in for the image file.
module Bytes {

  type byte = x: int | 0 <= x < 0x100
  type u16 = x: int | 0 <= x < 0x1_0000
  type u32 = x: int | 0 <= x < 0x1_0000_0000

  datatype Option<T> = None | Some(value: T)

  /// Product of two naturals, named so that address arithmetic over the
  /// bounded on-disk fields stays a single term for the solver.
  function Mul(x: nat, y: nat): nat {
    x * y
  }

  /// Little-endian 16-bit field starting at byte `at`.
  function LE16(s: seq<byte>, at: nat): u16
    requires at + 2 <= |s|
  {
    s[at] as int + 0x100 * (s[at + 1] as int)
  }

  /// Little-endian 32-bit field starting at byte `at`.
  function LE32(s: seq<byte>, at: nat): u32
    requires at + 4 <= |s|
  {
    s[at] as int + 0x100 * (s[at + 1] as int) + 0x1_0000 * (s[at + 2] as int) + 0x100_0000 * (s[at + 3] as int)
  }

  /// The two bytes of `v`, least significant first; decoding them gives `v` back.
  function Bytes16(v: u16): (r: seq<byte>)
    ensures |r| == 2 && LE16(r, 0) == v
  {
    [v % 0x100, v / 0x100]
  }

  /// The four bytes of `v`, least significant first; decoding them gives `v` back.
  function Bytes32(v: u32): (r: seq<byte>)
    ensures |r| == 4 && LE32(r, 0) == v
  {
    var a := v / 0x100;
    var b := a / 0x100;
    assert v == v % 0x100 + 0x100 * a;
    assert a == a % 0x100 + 0x100 * b;
    assert b == b % 0x100 + 0x100 * (b / 0x100);
    [v % 0x100, a % 0x100, b % 0x100, b / 0x100]
  }

  /// Encoding a decoded 16-bit field reproduces the bytes it came from.
  lemma Bytes16OfLE16(s: seq<byte>, at: nat)
    requires at + 2 <= |s|
    ensures Bytes16(LE16(s, at)) == s[at..at + 2]
  {
    var v := LE16(s, at);
    assert v % 0x100 == s[at] && v / 0x100 == s[at + 1];
  }

  /// Encoding a decoded 32-bit field reproduces the bytes it came from.
  lemma Bytes32OfLE32(s: seq<byte>, at: nat)
    requires at + 4 <= |s|
    ensures Bytes32(LE32(s, at)) == s[at..at + 4]
  {
    var v := LE32(s, at);
    var hi: int := s[at + 1] as int + 0x100 * (s[at + 2] as int) + 0x1_0000 * (s[at + 3] as int);
    assert v == s[at] as int + 0x100 * hi;
    assert v % 0x100 == s[at] && v / 0x100 == hi;
    var hi2: int := s[at + 2] as int + 0x100 * (s[at + 3] as int);
    assert hi == s[at + 1] as int + 0x100 * hi2;
    assert hi % 0x100 == s[at + 1] && hi / 0x100 == hi2;
    assert hi2 % 0x100 == s[at + 2] && hi2 / 0x100 == s[at + 3];
  }

  /// `s` with the bytes from `at` on replaced by `data`; nothing else moves.
  function Splice(s: seq<byte>, at: nat, data: seq<byte>): (r: seq<byte>)
    requires at + |data| <= |s|
    ensures |r| == |s|
    ensures forall k :: 0 <= k < |data| ==> r[at + k] == data[k]
    ensures forall p :: 0 <= p < |s| && !(at <= p < at + |data|) ==> r[p] == s[p]
  {
    s[..at] + data + s[at + |data|..]
  }

  /// A positioned read of `n` bytes (fseek + fread): it fails when the
  /// range runs past the end of the image.
  function ReadAt(img: seq<byte>, at: nat, n: nat): (r: Option<seq<byte>>)
    ensures r.Some? <==> at + n <= |img|
    ensures r.Some? ==> |r.value| == n && forall k :: 0 <= k < n ==> r.value[k] == img[at + k]
  {
    if at + n <= |img| then Some(img[at..at + n]) else None
  }

  /// A positioned write (fseek + fwrite). The image is a fixed-size
  /// device here: a write that would run past its end fails and changes nothing.
  function WriteAt(img: seq<byte>, at: nat, data: seq<byte>): (r: Option<seq<byte>>)
    ensures r.Some? <==> at + |data| <= |img|
    ensures r.Some? ==> |r.value| == |img|
    ensures r.Some? ==> forall k :: 0 <= k < |data| ==> r.value[at + k] == data[k]
    ensures r.Some? ==> forall p :: 0 <= p < |img| && !(at <= p < at + |data|) ==> r.value[p] == img[p]
  {
    if at + |data| <= |img| then Some(Splice(img, at, data)) else None
  }

  /// A write followed by a read of the same range returns what was written.
  lemma ReadAfterWrite(img: seq<byte>, at: nat, data: seq<byte>)
    requires WriteAt(img, at, data).Some?
    ensures ReadAt(WriteAt(img, at, data).value, at, |data|) == Some(data)
  {
    var w := WriteAt(img, at, data).value;
    var r := ReadAt(w, at, |data|);
    assert r.value == data by {
      forall k | 0 <= k < |data| ensures r.value[k] == data[k] { }
    }
  }

  lemma AppendEmpty<T>(x: seq<T>)
    ensures [] + x == x
  {
  }

  lemma AppendAssoc<T>(x: seq<T>, y: seq<T>, z: seq<T>)
    ensures x + (y + z) == (x + y) + z
  {
  }

  /// `toupper` in the C locale: only 'a'..'z' change.
  function ToUpper(c: byte): (r: byte)
    ensures 'a' as int <= c <= 'z' as int ==> r == c - 0x20
    ensures !('a' as int <= c <= 'z' as int) ==> r == c
    ensures !('a' as int <= r <= 'z' as int)
  {
    if 'a' as int <= c <= 'z' as int then c - 0x20 else c
  }
}
