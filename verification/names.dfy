/// Short names: the 11-byte `DIR_Name` field as `ls`, `cd`, `open` and the
/// directory search print and compare it, and the field `creat` and
/// `mkdir` build from a command-line name.
module Names {
  import opened Bytes

  const SPACE: byte := 0x20
  const DOT: byte := 0x2E
  const NUL: byte := 0x00

  /// A C string argument: no NUL byte inside.
  predicate NoNul(s: seq<byte>) {
    forall k :: 0 <= k < |s| ==> s[k] != NUL
  }

  /// Index of the first NUL in `s`, or `|s|` when there is none.
  function NulIndex(s: seq<byte>): (r: nat)
    ensures r <= |s|
  {
    if |s| == 0 then 0
    else if s[0] == NUL then 0
    else 1 + NulIndex(s[1..])
  }

  /// `NulIndex` stops at the first NUL: none before it, and a NUL at it
  /// unless it is the length.
  lemma {:induction false} NulIndexFirst(s: seq<byte>)
    ensures forall k :: 0 <= k < NulIndex(s) ==> s[k] != NUL
    ensures NulIndex(s) < |s| ==> s[NulIndex(s)] == NUL
    decreases |s|
  {
    if |s| > 0 && s[0] != NUL {
      NulIndexFirst(s[1..]);
      forall k | 0 < k < NulIndex(s) ensures s[k] != NUL {
        assert s[k] == s[1..][k - 1];
      }
    }
  }

  /// `s` without its trailing spaces.
  function TrimSpaces(s: seq<byte>): (r: seq<byte>)
    decreases |s|
  {
    if |s| == 0 then []
    else if s[|s| - 1] == SPACE then TrimSpaces(s[..|s| - 1])
    else s
  }

  /// Trimming removes trailing spaces and nothing else: it leaves a prefix
  /// ending in a non-space, and only spaces were cut.
  lemma {:induction false} TrimSpacesCutsSpaces(s: seq<byte>)
    ensures TrimSpaces(s) <= s
    ensures |TrimSpaces(s)| > 0 ==> TrimSpaces(s)[|TrimSpaces(s)| - 1] != SPACE
    ensures forall k :: |TrimSpaces(s)| <= k < |s| ==> s[k] == SPACE
    decreases |s|
  {
    if |s| > 0 && s[|s| - 1] == SPACE {
      TrimSpacesCutsSpaces(s[..|s| - 1]);
    }
  }

  /// One field copied with `strncpy` into a NUL-filled buffer, then trimmed
  /// from the back while the last byte is a space. A NUL inside the field
  /// stops the copy and leaves a NUL in the last position, so the trim loop
  /// stops at once and no space is removed.
  function CleanField(f: seq<byte>): seq<byte> {
    var z := NulIndex(f);
    if z < |f| then f[..z] else TrimSpaces(f)
  }

  /// The cleaned field is a prefix of the field with no NUL in it.
  lemma CleanFieldPrefix(f: seq<byte>)
    ensures CleanField(f) <= f && NoNul(CleanField(f))
  {
    NulIndexFirst(f);
    TrimSpacesCutsSpaces(f);
  }

  /// `get_formatted_name`: "NAME.EXT", or "NAME" when the cleaned extension
  /// is empty. The result fits the 13-byte buffer with its terminator and
  /// has no NUL in it, so `strcmp` compares all of it.
  function FormatName(raw: seq<byte>): (r: seq<byte>)
    requires |raw| == 11
    ensures |r| <= 12
    ensures NoNul(r)
  {
    var name := CleanField(raw[..8]);
    var ext := CleanField(raw[8..]);
    CleanFieldPrefix(raw[..8]);
    CleanFieldPrefix(raw[8..]);
    if |ext| > 0 then
      var joined := name + [DOT] + ext;
      assert NoNul(joined) by {
        forall k | 0 <= k < |joined| ensures joined[k] != NUL {
          if k < |name| { assert joined[k] == name[k]; }
          else if k > |name| { assert joined[k] == ext[k - |name| - 1]; }
        }
      }
      joined
    else name
  }

  /// The name bytes `creat` and `mkdir` store: the first 11 bytes of the
  /// argument in upper case, padded with spaces.
  function EncodeName(n: seq<byte>): (r: seq<byte>)
    requires NoNul(n)
    ensures |r| == 11
    ensures forall k :: 0 <= k < 11 && k < |n| ==> r[k] == ToUpper(n[k])
    ensures forall k :: |n| <= k < 11 ==> r[k] == SPACE
  {
    var m := if |n| < 11 then |n| else 11;
    seq(m, k requires 0 <= k < m => ToUpper(n[k])) + seq(11 - m, _ => SPACE)
  }

  /// Every byte in upper case.
  function Upper(n: seq<byte>): (r: seq<byte>)
    ensures |r| == |n| && forall k :: 0 <= k < |n| ==> r[k] == ToUpper(n[k])
  {
    seq(|n|, k requires 0 <= k < |n| => ToUpper(n[k]))
  }

  predicate NoSpace(s: seq<byte>) {
    forall k :: 0 <= k < |s| ==> s[k] != SPACE
  }

  /// A name of at most eight bytes without spaces lists as its upper-case
  /// form: the whole name lands in the 8-byte field and the extension
  /// field is blank.
  lemma FormatEncodeShort(n: seq<byte>)
    requires NoNul(n) && NoSpace(n) && |n| <= 8
    ensures FormatName(EncodeName(n)) == Upper(n)
  {
    var raw := EncodeName(n);
    ShortFieldOfPadded(raw[..8], Upper(n));
    BlankField(raw[8..]);
  }

  /// A name of nine to eleven bytes without spaces is split after its
  /// eighth byte: it lists as the first eight, a dot, then the rest.
  lemma FormatEncodeLong(n: seq<byte>)
    requires NoNul(n) && NoSpace(n) && 8 < |n| <= 11
    ensures FormatName(EncodeName(n)) == Upper(n[..8]) + [DOT] + Upper(n[8..])
  {
    var raw := EncodeName(n);
    ShortFieldOfPadded(raw[..8], Upper(n[..8]));
    ShortFieldOfPadded(raw[8..], Upper(n[8..]));
  }

  /// Uppercasing is the identity on a name that is already upper case, so
  /// `creat NAME` followed by a search for NAME finds the new entry.
  lemma UpperOfUpper(n: seq<byte>)
    requires forall k :: 0 <= k < |n| ==> !('a' as int <= n[k] <= 'z' as int)
    ensures Upper(n) == n
  {
  }

  /// A field holding `v` (no NUL, no space, not longer than the field)
  /// followed by spaces cleans to `v`.
  lemma ShortFieldOfPadded(f: seq<byte>, v: seq<byte>)
    requires |v| <= |f| && f[..|v|] == v
    requires forall k :: 0 <= k < |v| ==> v[k] != NUL && v[k] != SPACE
    requires forall k :: |v| <= k < |f| ==> f[k] == SPACE
    ensures CleanField(f) == v
  {
    assert NoNul(f) by {
      forall k | 0 <= k < |f| ensures f[k] != NUL {
        if k < |v| { assert f[k] == f[..|v|][k]; }
      }
    }
    NulIndexFirst(f);
    TrimPadded(f, v);
  }

  lemma {:induction false} TrimPadded(f: seq<byte>, v: seq<byte>)
    requires |v| <= |f| && f[..|v|] == v
    requires |v| > 0 ==> v[|v| - 1] != SPACE
    requires forall k :: |v| <= k < |f| ==> f[k] == SPACE
    ensures TrimSpaces(f) == v
    decreases |f|
  {
    if |f| > |v| {
      assert f[..|f| - 1][..|v|] == v;
      TrimPadded(f[..|f| - 1], v);
    } else {
      assert f == v;
      if |f| > 0 { assert f[|f| - 1] != SPACE; }
    }
  }

  /// An all-space field cleans to nothing.
  lemma BlankField(f: seq<byte>)
    requires forall k :: 0 <= k < |f| ==> f[k] == SPACE
    ensures CleanField(f) == []
  {
    assert NoNul(f);
    NulIndexFirst(f);
    TrimPadded(f, []);
  }
}
