/** Machine-level value types shared by the loader model: bytes, 32-bit words
    as the big-endian PowerPC target stores them, and NUL-terminated strings. */
module Bytes {

  /** An `unsigned char`. */
  type byte = x: int | 0 <= x < 0x100

  /** An `Elf32_Word`, `Elf32_Addr` or 32-bit `unsigned long`. */
  type u32 = x: int | 0 <= x < 0x1_0000_0000

  const U32_LIMIT: int := 0x1_0000_0000

  /** The largest value of a C `int` on the target. */
  const INT_MAX: int := 0x7FFF_FFFF

  /** An `Elf32_Half` read from `s` at offset `p` (most significant byte first). */
  function Be16(s: seq<byte>, p: nat): (r: nat)
    requires p + 2 <= |s|
    ensures r < 0x1_0000
    ensures r / 0x100 == s[p] && r % 0x100 == s[p + 1]
  {
    (s[p] as int) * 0x100 + s[p + 1]
  }

  /** The two bytes a half-word store writes, most significant first. */
  function EncodeBe16(x: nat): (r: seq<byte>)
    requires x < 0x1_0000
    ensures |r| == 2
  {
    [x / 0x100, x % 0x100]
  }

  /** A half-word load returns what a half-word store to the same place wrote. */
  lemma DecodeEncodeBe16(x: nat, s: seq<byte>, p: nat)
    requires x < 0x1_0000 && p + 2 <= |s|
    requires s[p] == EncodeBe16(x)[0] && s[p + 1] == EncodeBe16(x)[1]
    ensures Be16(s, p) == x
  {
  }

  /** A 32-bit word read from `s` at offset `p` (most significant byte first). */
  function Be32(s: seq<byte>, p: nat): (r: u32)
    requires p + 4 <= |s|
  {
    Be16(s, p) * 0x1_0000 + Be16(s, p + 2)
  }

  /** The four bytes a 32-bit store writes, most significant first. */
  function EncodeBe32(x: u32): (r: seq<byte>)
    ensures |r| == 4
  {
    [x / 0x100_0000, (x / 0x1_0000) % 0x100, (x / 0x100) % 0x100, x % 0x100]
  }

  /** A 32-bit load returns what a 32-bit store to the same place wrote. */
  lemma DecodeEncodeBe32(x: u32, s: seq<byte>, p: nat)
    requires p + 4 <= |s|
    requires var e := EncodeBe32(x);
      s[p] == e[0] && s[p + 1] == e[1] && s[p + 2] == e[2] && s[p + 3] == e[3]
    ensures Be32(s, p) == x
  {
    var e := EncodeBe32(x);
    var hi, lo := x / 0x1_0000, x % 0x1_0000;
    assert x == hi * 0x1_0000 + lo;
    assert e[0] == hi / 0x100 && e[1] == hi % 0x100 by {
      assert x / 0x100_0000 == hi / 0x100;
    }
    assert e[2] == lo / 0x100 && e[3] == lo % 0x100 by {
      assert x / 0x100 == hi * 0x100 + lo / 0x100;
    }
  }

  /** A NUL byte lies at or after offset `p` of `s`. */
  predicate HasNul(s: seq<byte>, p: nat)
  {
    exists j :: p <= j < |s| && s[j] == 0
  }

  /** The C string that starts at offset `p` of `s`: the bytes before the first NUL. */
  function CString(s: seq<byte>, p: nat): (r: seq<byte>)
    requires HasNul(s, p)
    ensures p + |r| < |s| && s[p + |r|] == 0
    ensures r == s[p..p + |r|]
    ensures forall k :: 0 <= k < |r| ==> r[k] != 0
    decreases |s| - p
  {
    if s[p] == 0 then []
    else
      assert HasNul(s, p + 1) by {
        var j :| p <= j < |s| && s[j] == 0;
        assert j != p;
      }
      [s[p]] + CString(s, p + 1)
  }

  /** A run of non-NUL bytes followed by a NUL is exactly the C string found there. */
  lemma CStringOfTerminated(s: seq<byte>, p: nat, n: nat)
    requires p + n < |s| && s[p + n] == 0
    requires forall k :: p <= k < p + n ==> s[k] != 0
    ensures HasNul(s, p) && CString(s, p) == s[p..p + n]
  {
    assert HasNul(s, p);
  }

  /** Concatenation regroups freely; stated once so that traces and sync logs
      grown piece by piece can be compared with their definitions. */
  lemma AppendAssoc<T>(a: seq<T>, b: seq<T>, c: seq<T>)
    ensures (a + b) + c == a + (b + c)
  {
  }
}
