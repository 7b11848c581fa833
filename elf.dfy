/** The 32-bit ELF structures the section mapper reads (ELF specification, TIS
    ELF v1.2 Book I, "ELF Header" and "Sections"), decoded big-endian as the
    PowerPC target stores them, and the value-level meaning of one mapping pass:
    the memory it leaves, the boot trace it prints and the lines it syncs. */
module Elf {
  import opened Bytes
  import opened Memory
  import opened Hex
  import opened Cache

  const EHDR_SIZE: nat := 52
  /** `sizeof (Elf32_Shdr)`; the mapper steps by this, not by `e_shentsize`. */
  const SHDR_SIZE: nat := 40

  const SHT_STRTAB: u32 := 3
  const SHT_NOBITS: u32 := 8
  const SHF_ALLOC: u32 := 0x2

  /** The base bit ORed into every section address. */
  const TARGET_BIT: nat := 0x8000_0000

  const SP: byte := 0x20
  const CR: byte := 0x0D
  const LF: byte := 0x0A

  /** The fields of `Elf32_Ehdr` the loader reads. */
  datatype Ehdr = Ehdr(entry: u32, shoff: u32, shnum: nat, shstrndx: nat)

  /** `Elf32_Shdr`, all ten words in declaration order. */
  datatype Shdr = Shdr(
    name: u32, shType: u32, flags: u32, addr: u32, offset: u32,
    size: u32, link: u32, info: u32, addralign: u32, entsize: u32)

  /** `e_entry` at 24, `e_shoff` at 32, `e_shnum` at 48, `e_shstrndx` at 50. */
  function DecodeEhdr(img: seq<byte>): (h: Ehdr)
    requires |img| >= EHDR_SIZE
    ensures h.shnum < 0x1_0000 && h.shstrndx < 0x1_0000
  {
    Ehdr(Be32(img, 24), Be32(img, 32), Be16(img, 48), Be16(img, 50))
  }

  /** A 52-byte header carrying the fields of `h`; the bytes the loader never
      reads (`e_ident`, `e_type`, `e_phoff`, ...) are taken from `rest`. */
  function EncodeEhdr(h: Ehdr, rest: seq<byte>): (r: seq<byte>)
    requires |rest| == EHDR_SIZE && h.shnum < 0x1_0000 && h.shstrndx < 0x1_0000
    ensures |r| == EHDR_SIZE
  {
    rest[..24] + EncodeBe32(h.entry) + rest[28..32] + EncodeBe32(h.shoff)
      + rest[36..48] + EncodeBe16(h.shnum) + EncodeBe16(h.shstrndx)
  }

  /** Reading the header back yields the fields that were laid out in it. */
  lemma DecodeEncodeEhdr(img: seq<byte>, h: Ehdr, rest: seq<byte>)
    requires |rest| == EHDR_SIZE && h.shnum < 0x1_0000 && h.shstrndx < 0x1_0000
    requires |img| >= EHDR_SIZE && img[..EHDR_SIZE] == EncodeEhdr(h, rest)
    ensures DecodeEhdr(img) == h
  {
    var e := EncodeEhdr(h, rest);
    var entry, shoff := EncodeBe32(h.entry), EncodeBe32(h.shoff);
    assert img[24] == entry[0] && img[25] == entry[1] && img[26] == entry[2] && img[27] == entry[3] by {
      assert e[24..28] == entry;
    }
    DecodeEncodeBe32(h.entry, img, 24);
    assert img[32] == shoff[0] && img[33] == shoff[1] && img[34] == shoff[2] && img[35] == shoff[3] by {
      assert e[32..36] == shoff;
    }
    DecodeEncodeBe32(h.shoff, img, 32);
    assert e[48..50] == EncodeBe16(h.shnum);
    assert e[50] == EncodeBe16(h.shstrndx)[0] && e[51] == EncodeBe16(h.shstrndx)[1];
    DecodeEncodeBe16(h.shnum, img, 48);
    DecodeEncodeBe16(h.shstrndx, img, 50);
  }

  function DecodeShdr(img: seq<byte>, p: nat): (sh: Shdr)
    requires p + SHDR_SIZE <= |img|
  {
    Shdr(Be32(img, p), Be32(img, p + 4), Be32(img, p + 8), Be32(img, p + 12),
         Be32(img, p + 16), Be32(img, p + 20), Be32(img, p + 24), Be32(img, p + 28),
         Be32(img, p + 32), Be32(img, p + 36))
  }

  function EncodeShdr(sh: Shdr): (r: seq<byte>)
    ensures |r| == SHDR_SIZE
  {
    EncodeBe32(sh.name) + EncodeBe32(sh.shType) + EncodeBe32(sh.flags)
      + EncodeBe32(sh.addr) + EncodeBe32(sh.offset) + EncodeBe32(sh.size)
      + EncodeBe32(sh.link) + EncodeBe32(sh.info) + EncodeBe32(sh.addralign)
      + EncodeBe32(sh.entsize)
  }

  /** Word `i` of a 40-byte window of `img` reads back as the word encoded there. */
  lemma WordOfShdr(img: seq<byte>, p: nat, e: seq<byte>, i: nat, w: u32)
    requires p + SHDR_SIZE <= |img| && img[p..p + SHDR_SIZE] == e
    requires i < 10 && e[4 * i..4 * i + 4] == EncodeBe32(w)
    ensures Be32(img, p + 4 * i) == w
  {
    var q, j := p + 4 * i, 4 * i;
    var word := EncodeBe32(w);
    assert word[0] == e[j] == img[q];
    assert word[1] == e[j + 1] == img[q + 1];
    assert word[2] == e[j + 2] == img[q + 2];
    assert word[3] == e[j + 3] == img[q + 3];
    DecodeEncodeBe32(w, img, p + 4 * i);
  }

  /** Reading a section header back yields the header that was laid out there. */
  lemma DecodeEncodeShdr(img: seq<byte>, p: nat, sh: Shdr)
    requires p + SHDR_SIZE <= |img| && img[p..p + SHDR_SIZE] == EncodeShdr(sh)
    ensures DecodeShdr(img, p) == sh
  {
    var e := EncodeShdr(sh);
    WordOfShdr(img, p, e, 0, sh.name);
    WordOfShdr(img, p, e, 1, sh.shType);
    WordOfShdr(img, p, e, 2, sh.flags);
    WordOfShdr(img, p, e, 3, sh.addr);
    WordOfShdr(img, p, e, 4, sh.offset);
    WordOfShdr(img, p, e, 5, sh.size);
    WordOfShdr(img, p, e, 6, sh.link);
    WordOfShdr(img, p, e, 7, sh.info);
    WordOfShdr(img, p, e, 8, sh.addralign);
    WordOfShdr(img, p, e, 9, sh.entsize);
  }

  /** `sh_flags & SHF_ALLOC`: the section occupies memory at run time. The flag
      is the single bit 1, so the test reads that bit. */
  predicate IsAlloc(sh: Shdr)
  {
    (sh.flags / SHF_ALLOC) % 2 == 1
  }

  /** The bit test is the source's mask test on the 32-bit word. */
  lemma IsAllocMask(sh: Shdr)
    ensures IsAlloc(sh) <==> (sh.flags as bv32) & (SHF_ALLOC as bv32) != 0
  {
  }

  /** The mapper writes, traces and syncs a section unless it is not allocated
      or empty. */
  predicate Mapped(sh: Shdr)
  {
    IsAlloc(sh) && sh.size != 0
  }

  /** `0x80000000 | sh_addr`: the top address bit is forced on. */
  function Target(addr: u32): (t: u32)
    ensures t >= TARGET_BIT && t % 0x8000_0000 == addr % 0x8000_0000
    ensures addr >= TARGET_BIT ==> t == addr
  {
    if addr < TARGET_BIT then addr + TARGET_BIT else addr
  }

  /** `a` lies in the range a mapped section writes. */
  predicate InTarget(sh: Shdr, a: nat)
  {
    Mapped(sh) && Target(sh.addr) <= a < Target(sh.addr) + sh.size
  }

  // ---- the section-header table and the string table ----

  /** The header and the section-header table lie inside the image, and so does
      the header at `e_shstrndx` that is read before the loop. */
  predicate TableInImage(img: seq<byte>)
  {
    |img| >= EHDR_SIZE &&
    var h := DecodeEhdr(img);
    h.shoff + 40 * h.shnum <= |img| &&
    h.shoff + 40 * (h.shstrndx + 1) <= |img|
  }

  /** Header `i` of the table, at `addr + e_shoff + i * sizeof (Elf32_Shdr)`. */
  function ShdrAt(img: seq<byte>, h: Ehdr, i: nat): Shdr
    requires h.shoff + 40 * (i + 1) <= |img|
  {
    DecodeShdr(img, h.shoff + 40 * i)
  }

  /** The section headers in table order. */
  function Sections(img: seq<byte>): (ss: seq<Shdr>)
    requires TableInImage(img)
  {
    var h := DecodeEhdr(img);
    seq(h.shnum, i requires 0 <= i < h.shnum => ShdrAt(img, h, i))
  }

  /** The `strtab` pointer: null unless the `e_shstrndx` header is a string table. */
  datatype StrtabRef = NoStrtab | StrtabAt(offset: nat)

  function Strtab(img: seq<byte>): (t: StrtabRef)
    requires TableInImage(img)
  {
    var h := DecodeEhdr(img);
    var sh := ShdrAt(img, h, h.shstrndx);
    if sh.shType == SHT_STRTAB then StrtabAt(sh.offset) else NoStrtab
  }

  /** An image laid out as a header for `h` followed, at `e_shoff`, by the
      encoded headers `ss` decodes back to `h` and `ss`, and its `strtab` is the
      `e_shstrndx` section's offset exactly when that section is a string table. */
  lemma ImageLayout(img: seq<byte>, h: Ehdr, rest: seq<byte>, ss: seq<Shdr>)
    requires |rest| == EHDR_SIZE && h.shnum < 0x1_0000 && h.shstrndx < h.shnum
    requires |img| >= EHDR_SIZE && img[..EHDR_SIZE] == EncodeEhdr(h, rest)
    requires |ss| == h.shnum && h.shoff + 40 * h.shnum <= |img|
    requires forall i :: 0 <= i < |ss| ==>
      img[h.shoff + 40 * i..h.shoff + 40 * i + 40] == EncodeShdr(ss[i])
    ensures TableInImage(img) && DecodeEhdr(img) == h
    ensures Sections(img) == ss
    ensures Strtab(img) ==
      if ss[h.shstrndx].shType == SHT_STRTAB then StrtabAt(ss[h.shstrndx].offset) else NoStrtab
  {
    DecodeEncodeEhdr(img, h, rest);
    forall i | 0 <= i < |ss|
      ensures ShdrAt(img, h, i) == ss[i]
    {
      DecodeEncodeShdr(img, h.shoff + 40 * i, ss[i]);
    }
  }

  // ---- what the source leaves undefined, stated as preconditions ----

  /** A mapped section's target range lies in the 32-bit address space and a
      copied section's bytes lie inside the image. */
  predicate Placeable(img: seq<byte>, sh: Shdr)
  {
    Mapped(sh) ==>
      Target(sh.addr) + sh.size <= MEM_SIZE &&
      (sh.shType != SHT_NOBITS ==> sh.offset + sh.size <= |img|)
  }

  /** A mapped section's name, `&strtab[sh_name]`, is a NUL-terminated string
      inside the image. */
  predicate Named(img: seq<byte>, strtab: StrtabRef, sh: Shdr)
  {
    Mapped(sh) ==> strtab.StrtabAt? && HasNul(img, strtab.offset + sh.name)
  }

  predicate AllPlaceable(img: seq<byte>, ss: seq<Shdr>)
  {
    forall k :: 0 <= k < |ss| ==> Placeable(img, ss[k])
  }

  predicate AllNamed(img: seq<byte>, strtab: StrtabRef, ss: seq<Shdr>)
  {
    forall k :: 0 <= k < |ss| ==> Named(img, strtab, ss[k])
  }

  // ---- memory ----

  /** The bytes a mapped section puts at its target: zeros for `SHT_NOBITS`,
      without reading the image, and the image's bytes from `sh_offset` otherwise. */
  function SectionBytes(img: seq<byte>, sh: Shdr): (b: seq<byte>)
    requires Mapped(sh) && Placeable(img, sh)
    ensures |b| == sh.size
  {
    if sh.shType == SHT_NOBITS then Repeat(0, sh.size)
    else img[sh.offset..sh.offset + sh.size]
  }

  /** Memory after one header of the loop. */
  function ApplySection(m: seq<byte>, img: seq<byte>, sh: Shdr): (r: seq<byte>)
    requires |m| == MEM_SIZE && Placeable(img, sh)
    ensures |r| == MEM_SIZE
  {
    if !Mapped(sh) then m
    else if sh.shType == SHT_NOBITS then Fill(m, Target(sh.addr), sh.size, 0)
    else Copy(m, Target(sh.addr), SectionBytes(img, sh))
  }

  /** Memory after the loop has gone through the headers `ss` in order. */
  function MapSections(m: seq<byte>, img: seq<byte>, ss: seq<Shdr>): (r: seq<byte>)
    requires |m| == MEM_SIZE && AllPlaceable(img, ss)
    ensures |r| == MEM_SIZE
  {
    if ss == [] then m
    else ApplySection(MapSections(m, img, ss[..|ss| - 1]), img, ss[|ss| - 1])
  }

  /** The byte a mapped section leaves at address `a` of its target range. */
  function SectionByte(img: seq<byte>, sh: Shdr, a: nat): byte
    requires InTarget(sh, a) && Placeable(img, sh)
  {
    SectionBytes(img, sh)[a - Target(sh.addr)]
  }

  /** One section writes its own target range and nothing else. */
  lemma ApplySectionAt(m: seq<byte>, img: seq<byte>, sh: Shdr, a: nat)
    requires |m| == MEM_SIZE && Placeable(img, sh) && a < MEM_SIZE
    ensures ApplySection(m, img, sh)[a] == if InTarget(sh, a) then SectionByte(img, sh, a) else m[a]
  {
    if Mapped(sh) {
      if sh.shType == SHT_NOBITS {
        FillAt(m, Target(sh.addr), sh.size, 0, a);
      } else {
        CopyAt(m, Target(sh.addr), SectionBytes(img, sh), a);
      }
    }
  }

  /** A mapped `SHT_NOBITS` section reads as zero over `[T, T + sh_size)`, and the
      result does not depend on the image. */
  lemma NoBitsZeroFilled(m: seq<byte>, img: seq<byte>, img': seq<byte>, sh: Shdr)
    requires |m| == MEM_SIZE && Mapped(sh) && sh.shType == SHT_NOBITS && Placeable(img, sh)
    ensures var t := Target(sh.addr);
      forall a :: t <= a < t + sh.size ==> ApplySection(m, img, sh)[a] == 0
    ensures Placeable(img', sh) && ApplySection(m, img', sh) == ApplySection(m, img, sh)
  {
    var t := Target(sh.addr);
    forall a | t <= a < t + sh.size ensures ApplySection(m, img, sh)[a] == 0 {
      ApplySectionAt(m, img, sh, a);
    }
  }

  /** Any other mapped section holds `image[sh_offset + k]` at `T + k`. */
  lemma ContentsCopied(m: seq<byte>, img: seq<byte>, sh: Shdr)
    requires |m| == MEM_SIZE && Mapped(sh) && sh.shType != SHT_NOBITS && Placeable(img, sh)
    ensures var t := Target(sh.addr);
      forall a :: t <= a < t + sh.size ==> ApplySection(m, img, sh)[a] == img[sh.offset + (a - t)]
  {
    var t := Target(sh.addr);
    forall a | t <= a < t + sh.size ensures ApplySection(m, img, sh)[a] == img[sh.offset + (a - t)] {
      ApplySectionAt(m, img, sh, a);
    }
  }

  lemma AllPlaceablePrefix(img: seq<byte>, ss: seq<Shdr>, n: nat)
    requires AllPlaceable(img, ss) && n <= |ss|
    ensures AllPlaceable(img, ss[..n])
  {
    assert forall k :: 0 <= k < n ==> ss[..n][k] == ss[k];
  }

  /** A byte no mapped section targets keeps its old value. */
  lemma {:induction false} MapSectionsFrame(m: seq<byte>, img: seq<byte>, ss: seq<Shdr>, a: nat)
    requires |m| == MEM_SIZE && AllPlaceable(img, ss) && a < MEM_SIZE
    requires forall k :: 0 <= k < |ss| ==> !InTarget(ss[k], a)
    ensures MapSections(m, img, ss)[a] == m[a]
  {
    if ss != [] {
      var init := ss[..|ss| - 1];
      AllPlaceablePrefix(img, ss, |ss| - 1);
      assert forall k :: 0 <= k < |init| ==> init[k] == ss[k];
      MapSectionsFrame(m, img, init, a);
      ApplySectionAt(MapSections(m, img, init), img, ss[|ss| - 1], a);
    }
  }

  /** Sections are applied in table order: where target ranges overlap, the
      byte of the last section that targets `a` is the one left there. */
  lemma {:induction false} MapSectionsLastWins(m: seq<byte>, img: seq<byte>, ss: seq<Shdr>, j: nat, a: nat)
    requires |m| == MEM_SIZE && AllPlaceable(img, ss) && a < MEM_SIZE
    requires j < |ss| && InTarget(ss[j], a)
    requires forall k :: j < k < |ss| ==> !InTarget(ss[k], a)
    ensures MapSections(m, img, ss)[a] == SectionByte(img, ss[j], a)
  {
    var init := ss[..|ss| - 1];
    AllPlaceablePrefix(img, ss, |ss| - 1);
    assert forall k :: 0 <= k < |init| ==> init[k] == ss[k];
    ApplySectionAt(MapSections(m, img, init), img, ss[|ss| - 1], a);
    if j < |ss| - 1 {
      MapSectionsLastWins(m, img, init, j, a);
    }
  }

  // ---- the boot trace ----

  /** `%08X %08X name\r\n` for a mapped section (the raw `sh_addr`, not the
      target), nothing for a skipped one. */
  function SectionRecord(img: seq<byte>, strtab: StrtabRef, sh: Shdr): seq<byte>
    requires Named(img, strtab, sh)
  {
    if !Mapped(sh) then []
    else
      (HexString(sh.addr, 8) + [SP]) + (HexString(sh.size, 8) + [SP])
        + (CString(img, strtab.offset + sh.name) + [CR, LF])
  }

  /** The trace lines printed for the headers `ss`, in order. */
  function Trace(img: seq<byte>, strtab: StrtabRef, ss: seq<Shdr>): seq<byte>
    requires AllNamed(img, strtab, ss)
  {
    if ss == [] then []
    else
      var init := ss[..|ss| - 1];
      assert AllNamed(img, strtab, init) by {
        assert forall k :: 0 <= k < |init| ==> init[k] == ss[k];
      }
      Trace(img, strtab, init) + SectionRecord(img, strtab, ss[|ss| - 1])
  }

  /** `\r\nEP %08X\r\n` after the loop. */
  function EntryRecord(entry: u32): seq<byte>
  {
    [CR, LF, 'E' as int, 'P' as int, SP] + HexString(entry, 8) + [CR, LF]
  }

  /** A section's trace line reads back as its address, a space, its size, a
      space, its name and CRLF. */
  lemma SectionRecordFields(img: seq<byte>, strtab: StrtabRef, sh: Shdr)
    requires Mapped(sh) && Named(img, strtab, sh)
    ensures var r := SectionRecord(img, strtab, sh);
      var name := CString(img, strtab.offset + sh.name);
      |r| == 20 + |name| &&
      AllUpperHex(r[..8]) && ParseHex(r[..8]) == sh.addr && r[8] == SP &&
      AllUpperHex(r[9..17]) && ParseHex(r[9..17]) == sh.size && r[17] == SP &&
      r[18..18 + |name|] == name && r[18 + |name|..] == [CR, LF]
  {
    var r := SectionRecord(img, strtab, sh);
    var name := CString(img, strtab.offset + sh.name);
    assert r[..8] == HexString(sh.addr, 8);
    assert r[9..17] == HexString(sh.size, 8);
    assert r[18..18 + |name|] == name;
    ParseHexWord(sh.addr);
    ParseHexWord(sh.size);
  }

  /** The entry record reads back as CRLF, `EP `, the entry point and CRLF. */
  lemma EntryRecordFields(entry: u32)
    ensures var r := EntryRecord(entry);
      |r| == 15 && r[..5] == [CR, LF, 'E' as int, 'P' as int, SP] &&
      AllUpperHex(r[5..13]) && ParseHex(r[5..13]) == entry && r[13..] == [CR, LF]
  {
    var r := EntryRecord(entry);
    assert r[5..13] == HexString(entry, 8);
    ParseHexWord(entry);
  }

  // ---- cache synchronisation ----

  /** The lines synced for one header: those of its target range if mapped. */
  function SectionSyncs(sh: Shdr): seq<u32>
  {
    if Mapped(sh) then SyncLines(Target(sh.addr), sh.size) else []
  }

  function Syncs(ss: seq<Shdr>): seq<u32>
  {
    if ss == [] then [] else Syncs(ss[..|ss| - 1]) + SectionSyncs(ss[|ss| - 1])
  }

  /** Going from the first `i` headers to the first `i + 1` adds header `i`'s
      write, trace line and syncs. */
  lemma PrefixStep(m: seq<byte>, img: seq<byte>, strtab: StrtabRef, ss: seq<Shdr>, i: nat)
    requires |m| == MEM_SIZE && i < |ss| && AllPlaceable(img, ss) && AllNamed(img, strtab, ss)
    ensures AllPlaceable(img, ss[..i]) && AllNamed(img, strtab, ss[..i])
    ensures AllPlaceable(img, ss[..i + 1]) && AllNamed(img, strtab, ss[..i + 1])
    ensures MapSections(m, img, ss[..i + 1]) == ApplySection(MapSections(m, img, ss[..i]), img, ss[i])
    ensures Trace(img, strtab, ss[..i + 1]) == Trace(img, strtab, ss[..i]) + SectionRecord(img, strtab, ss[i])
    ensures Syncs(ss[..i + 1]) == Syncs(ss[..i]) + SectionSyncs(ss[i])
  {
    AllPlaceablePrefix(img, ss, i);
    AllPlaceablePrefix(img, ss, i + 1);
    assert forall k :: 0 <= k < i + 1 ==> ss[..i + 1][k] == ss[k];
    assert ss[..i + 1][..i] == ss[..i];
  }

  /** A skipped header writes nothing, prints nothing and syncs nothing. */
  lemma SkippedSection(m: seq<byte>, img: seq<byte>, strtab: StrtabRef, ss: seq<Shdr>, sh: Shdr)
    requires |m| == MEM_SIZE && AllPlaceable(img, ss) && AllNamed(img, strtab, ss)
    requires !Mapped(sh)
    ensures AllPlaceable(img, ss + [sh]) && AllNamed(img, strtab, ss + [sh])
    ensures MapSections(m, img, ss + [sh]) == MapSections(m, img, ss)
    ensures Trace(img, strtab, ss + [sh]) == Trace(img, strtab, ss)
    ensures Syncs(ss + [sh]) == Syncs(ss)
  {
    assert (ss + [sh])[..|ss|] == ss;
  }
}
