/** Fixed-width upper-case hexadecimal formatting, as `elf_int2hex` produces it
    for the boot trace. */
module Hex {
  import opened Bytes
  import Arith

  function Pow16(i: nat): (r: nat)
    ensures r > 0
  {
    if i == 0 then 1 else 16 * Pow16(i - 1)
  }

  /** Nibble `i` of `n`, that is `(n >> (i << 2)) & 0x0f`. */
  function Nibble(n: nat, i: nat): (d: nat)
    ensures d < 16
  {
    (n / Pow16(i)) % 16
  }

  predicate IsUpperHexDigit(c: byte)
  {
    '0' as int <= c <= '9' as int || 'A' as int <= c <= 'F' as int
  }

  /** The character written for a nibble: `d + 48` for 0..9, `d + 55` for 10..15. */
  function HexDigit(d: nat): (c: byte)
    requires d < 16
    ensures IsUpperHexDigit(c) && c != 0
    ensures d <= 9 <==> c <= '9' as int
  {
    if d <= 9 then d + 48 else d + 55
  }

  /** The value of an upper-case hex digit; the inverse of `HexDigit`. */
  function DigitValue(c: byte): (d: nat)
    requires IsUpperHexDigit(c)
    ensures d < 16 && HexDigit(d) == c
  {
    if c <= '9' as int then c - 48 else c - 55
  }

  lemma DigitValueOfHexDigit(d: nat)
    requires d < 16
    ensures DigitValue(HexDigit(d)) == d
  {
  }

  /** The `w` characters `elf_int2hex(n, w, str)` leaves before the NUL:
      position `w - 1 - i` holds the digit of nibble `i`. */
  function HexString(n: nat, w: nat): (r: seq<byte>)
    ensures |r| == w
  {
    seq(w, k requires 0 <= k < w => DigitAt(n, w, k))
  }

  /** Character `k` of the `w`-digit field. */
  function DigitAt(n: nat, w: nat, k: nat): byte
    requires k < w
  {
    HexDigit(Nibble(n, w - 1 - k))
  }

  predicate AllUpperHex(s: seq<byte>)
  {
    forall k :: 0 <= k < |s| ==> IsUpperHexDigit(s[k])
  }

  /** Reading a hex string back, most significant digit first. */
  function ParseHex(s: seq<byte>): (n: nat)
    requires AllUpperHex(s)
    ensures n < Pow16(|s|)
  {
    if s == [] then 0
    else
      var init := s[..|s| - 1];
      assert AllUpperHex(init) by {
        forall k | 0 <= k < |init| ensures IsUpperHexDigit(init[k]) {
          assert init[k] == s[k];
        }
      }
      ParseHex(init) * 16 + DigitValue(s[|s| - 1])
  }

  /** Every character is an upper-case hex digit, so none is the NUL that ends the string. */
  lemma HexStringDigits(n: nat, w: nat)
    ensures AllUpperHex(HexString(n, w))
    ensures forall k :: 0 <= k < w ==> HexString(n, w)[k] != 0
  {
    var s := HexString(n, w);
    forall k | 0 <= k < w ensures IsUpperHexDigit(s[k]) && s[k] != 0 {
      assert s[k] == HexDigit(Nibble(n, w - 1 - k));
    }
  }

  /** Shifting right by one nibble moves every nibble down one place. */
  lemma NibbleShift(n: nat, j: nat)
    ensures Nibble(n / 16, j) == Nibble(n, j + 1)
  {
    Arith.DivDiv(n, 16, Pow16(j));
  }

  /** The formatted string parses back to `n` reduced to `w` hex digits. */
  lemma {:induction false} ParseHexString(n: nat, w: nat)
    ensures AllUpperHex(HexString(n, w))
    ensures ParseHex(HexString(n, w)) == n % Pow16(w)
  {
    HexStringDigits(n, w);
    if w > 0 {
      var s := HexString(n, w);
      var high := HexString(n / 16, w - 1);
      assert s[..w - 1] == high by {
        forall k | 0 <= k < w - 1 ensures s[k] == high[k] {
          NibbleShift(n, w - 2 - k);
        }
      }
      ParseHexString(n / 16, w - 1);
      DigitValueOfHexDigit(Nibble(n, 0));
      assert DigitValue(s[w - 1]) == n % 16;
      Arith.DivDiv(n, 16, Pow16(w - 1));
    }
  }

  /** Leading zeros are kept: when `n` needs only `j` digits, the first `w - j`
      characters are `'0'`. */
  lemma HexStringLeadingZeros(n: nat, w: nat, j: nat)
    requires j <= w && n < Pow16(j)
    ensures forall k :: 0 <= k < w - j ==> HexString(n, w)[k] == '0' as int
  {
    var s := HexString(n, w);
    forall k | 0 <= k < w - j ensures s[k] == '0' as int {
      var i := w - 1 - k;
      PowMonotone(j, i);
      Arith.DivModUnique(n, Pow16(i), 0, n);
      assert Nibble(n, i) == 0;
      assert s[k] == HexDigit(Nibble(n, i));
    }
  }

  lemma {:induction false} PowMonotone(i: nat, j: nat)
    requires i <= j
    ensures Pow16(i) <= Pow16(j)
  {
    if i < j {
      PowMonotone(i, j - 1);
    }
  }

  lemma Pow16Eight()
    ensures Pow16(8) == 0x1_0000_0000
  {
    assert Pow16(4) == 0x1_0000 by {
      assert Pow16(2) == 0x100;
    }
    assert Pow16(8) == Pow16(4) * Pow16(4) by {
      assert Pow16(6) == 0x100 * Pow16(4);
    }
  }

  /** An eight-digit field of the boot trace holds a 32-bit value exactly. */
  lemma ParseHexWord(n: u32)
    ensures AllUpperHex(HexString(n, 8)) && ParseHex(HexString(n, 8)) == n
  {
    ParseHexString(n, 8);
    Pow16Eight();
  }

  /** `elf_int2hex(n, w, str)`: writes `w` digits, most significant first, and a
      NUL at `str[w]`; nothing after `str[w]` changes. */
  method Int2Hex(n: nat, w: nat, str: array<byte>)
    requires n < 0x1_0000_0000_0000_0000 // unsigned long long
    requires w <= 16 // C leaves a shift by 64 bits or more undefined
    requires w < str.Length
    modifies str
    ensures str[..w + 1] == HexString(n, w) + [0]
    ensures str[w + 1..] == old(str[w + 1..])
  {
    var p := w;
    str[p] := 0;
    var i := 0;
    while i < w
      invariant 0 <= i <= w && p == w - i
      invariant str[w] == 0
      invariant forall k :: p <= k < w ==> str[k] == HexDigit(Nibble(n, w - 1 - k))
      invariant forall k :: w < k < str.Length ==> str[k] == old(str[k])
    {
      var d := Nibble(n, i);
      p := p - 1;
      str[p] := HexDigit(d);
      i := i + 1;
    }
    assert str[..w + 1] == HexString(n, w) + [0];
  }
}
