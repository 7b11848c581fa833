/** Physical memory as the sequence of its 2^32 bytes, and the value-level meaning
    of the two bulk writes the loader performs on it. */
module Memory {
  import opened Bytes

  const MEM_SIZE: nat := U32_LIMIT

  /** `l` copies of byte `b`. */
  function Repeat(b: byte, l: nat): (r: seq<byte>)
    ensures |r| == l && forall k :: 0 <= k < l ==> r[k] == b
  {
    seq(l, _ => b)
  }

  /** Memory after `l` bytes from `dst` on are set to `b`. */
  function Fill(m: seq<byte>, dst: nat, l: nat, b: byte): (r: seq<byte>)
    requires dst + l <= |m|
    ensures |r| == |m|
  {
    m[..dst] + Repeat(b, l) + m[dst + l..]
  }

  /** Memory after `src` is copied to `dst`. */
  function Copy(m: seq<byte>, dst: nat, src: seq<byte>): (r: seq<byte>)
    requires dst + |src| <= |m|
    ensures |r| == |m|
  {
    m[..dst] + src + m[dst + |src|..]
  }

  /** A fill sets exactly its range and leaves every other byte alone. */
  lemma FillAt(m: seq<byte>, dst: nat, l: nat, b: byte, a: nat)
    requires dst + l <= |m| && a < |m|
    ensures Fill(m, dst, l, b)[a] == if dst <= a < dst + l then b else m[a]
  {
    var head := m[..dst] + Repeat(b, l);
    if a < dst + l {
      assert Fill(m, dst, l, b)[a] == head[a];
    }
  }

  /** A copy places `src[a - dst]` at each `a` of its range and leaves every other
      byte alone. */
  lemma CopyAt(m: seq<byte>, dst: nat, src: seq<byte>, a: nat)
    requires dst + |src| <= |m| && a < |m|
    ensures Copy(m, dst, src)[a] == if dst <= a < dst + |src| then src[a - dst] else m[a]
  {
    var head := m[..dst] + src;
    if a < dst + |src| {
      assert Copy(m, dst, src)[a] == head[a];
    }
  }
}
