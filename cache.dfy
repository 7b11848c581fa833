/** The cache lines `elf_sync_before_exec(dst, l)` synchronises, and what they cover. */
module Cache {
  import opened Bytes
  import Arith

  /** `a & ~(LINESIZE - 1)` with `LINESIZE` = 128: the start of the cache line holding `a`. */
  function LineBase(a: nat): (r: nat)
    ensures r <= a && a - r < 128 && r % 128 == 0
  {
    a - a % 128
  }

  /** `(l + LINESIZE) & ~(LINESIZE - 1)` on a two's-complement `int`; clearing the
      low seven bits rounds down to a multiple of 128, for negative values too. */
  function RoundedLength(l: int): (r: int)
  {
    (l + 128) - (l + 128) % 128
  }

  /** The lines the `while (l > 0)` loop visits from `dst` with `l` bytes left:
      one per pass, `dst` advancing by a line as a 32-bit pointer. */
  function Lines(dst: u32, l: int): (r: seq<u32>)
    decreases l
  {
    if l <= 0 then [] else [dst] + Lines((dst + 128) % 0x1_0000_0000, l - 128)
  }

  /** Everything `elf_sync_before_exec(a, l)` synchronises, in order. */
  function SyncLines(a: u32, l: int): seq<u32>
  {
    Lines(LineBase(a), RoundedLength(l))
  }

  /** Every byte of `[a, a + l)` lies on a synchronised line. */
  ghost predicate Covers(lines: seq<u32>, a: nat, l: nat)
  {
    forall x :: a <= x < a + l ==> LineBase(x) in lines
  }

  lemma ModAdd(x: nat, y: nat, m: nat)
    requires m > 0
    ensures (x % m + y) % m == (x + y) % m
  {
    var q, r := x / m, x % m;
    var q', r' := (r + y) / m, (r + y) % m;
    assert x + y == (q + q') * m + r';
    Arith.DivModUnique(x + y, m, q + q', r');
  }

  /** The loop makes one pass per started line of `l`, and pass `k` syncs
      `dst + k * LINESIZE` (modulo 2^32). */
  lemma {:induction false} LinesShape(dst: u32, l: int)
    ensures l <= 0 ==> Lines(dst, l) == []
    ensures l > 0 ==> |Lines(dst, l)| == (l + 128 - 1) / 128
    ensures forall k :: 0 <= k < |Lines(dst, l)| ==>
      Lines(dst, l)[k] == (dst + 128 * k) % 0x1_0000_0000
    decreases l
  {
    if l > 0 {
      var next: u32 := (dst + 128) % 0x1_0000_0000;
      LinesShape(next, l - 128);
      var r := Lines(dst, l);
      forall k | 0 < k < |r| ensures r[k] == (dst + 128 * k) % 0x1_0000_0000 {
        assert r[k] == Lines(next, l - 128)[k - 1];
        ModAdd(dst + 128, 128 * (k - 1), 0x1_0000_0000);
      }
      assert r[0] == dst % 0x1_0000_0000;
    }
  }

  /** For `l >= 0` exactly `l / 128 + 1` lines are synced; for `l < 0`, none. */
  lemma SyncLineCount(a: u32, l: int)
    ensures l >= 0 ==> |SyncLines(a, l)| == l / 128 + 1
    ensures l < 0 ==> SyncLines(a, l) == []
  {
    var n := l + 128;
    var q := n / 128;
    assert RoundedLength(l) == 128 * q;
    LinesShape(LineBase(a), RoundedLength(l));
    if l >= 0 {
      Arith.DivModUnique(128 * q + 128 - 1, 128, q, 128 - 1);
      Arith.DivModUnique(l, 128, q - 1, n % 128);
    }
  }

  /** The synced lines start at `a` rounded down to a line and rise a line at a
      time; every one of them is line-aligned. */
  lemma SyncLinesAligned(a: u32, l: int)
    ensures l >= 0 ==> SyncLines(a, l)[0] == LineBase(a)
    ensures forall k :: 0 <= k < |SyncLines(a, l)| ==>
      SyncLines(a, l)[k] == (LineBase(a) + 128 * k) % 0x1_0000_0000
    ensures forall k :: 0 <= k < |SyncLines(a, l)| ==> SyncLines(a, l)[k] % 128 == 0
  {
    SyncLineCount(a, l);
    var base := LineBase(a);
    LinesShape(base, RoundedLength(l));
    var r := SyncLines(a, l);
    forall k | 0 <= k < |r| ensures r[k] % 128 == 0 {
      var x := base + 128 * k;
      assert x % 128 == 0 by {
        Arith.DivModUnique(x, 128, base / 128 + k, 0);
      }
      Arith.DivDiv(x, 128, 0x200_0000);
    }
  }

  /** The line of `x` is line `j` counted from the line of `a`. */
  lemma LineOf(a: nat, x: nat, j: nat)
    requires LineBase(a) <= x && (x - LineBase(a)) / 128 == j
    ensures LineBase(x) == LineBase(a) + 128 * j
  {
    var base := LineBase(a);
    var t := (x - base) % 128;
    assert x == (base / 128 + j) * 128 + t;
    Arith.DivModUnique(x, 128, base / 128 + j, t);
  }

  /** `elf_sync_before_exec(a, l)` covers `[a, a + l)` exactly when the offset of
      `a` in its line and the remainder of `l` together fit in one line: the
      length is rounded up on its own, not from the rounded-down start. */
  lemma SyncCoverage(a: u32, l: nat)
    requires a + l <= U32_LIMIT
    ensures Covers(SyncLines(a, l), a, l) <==> a % 128 + l % 128 <= 128
  {
    var base := LineBase(a);
    var lines := SyncLines(a, l);
    var count := l / 128 + 1;
    SyncLineCount(a, l);
    SyncLinesAligned(a, l);
    assert l == 128 * (l / 128) + l % 128;
    if a % 128 + l % 128 <= 128 {
      var last := 128 * (l / 128) + 128 - 1;
      Arith.DivModUnique(last, 128, l / 128, 128 - 1);
      forall x | a <= x < a + l ensures LineBase(x) in lines {
        var j := (x - base) / 128;
        assert x - base <= last;
        assert j <= l / 128;
        LineOf(a, x, j);
        assert lines[j] == LineBase(x);
      }
    } else {
      var x := a + l - 1;
      var t := a % 128 + l % 128 - 1 - 128;
      assert x - base == 128 * count + t;
      Arith.DivModUnique(x - base, 128, count, t);
      LineOf(a, x, count);
      assert LineBase(x) !in lines;
    }
  }

  /** The case `A = 100, L = 50`: only line 0 is synced, so bytes 128..149 of the
      range are left out. */
  lemma SyncMissesTail()
    ensures SyncLines(100, 50) == [0]
    ensures !Covers(SyncLines(100, 50), 100, 50)
  {
    assert LineBase(149) == 128;
    assert SyncLines(100, 50) == Lines(0, 128) == [0] + Lines(128, 0);
  }
}
