/** The loader's run-time state and the steps of `elf_prepare_run` and
    `elf_runWithDeviceTree` that change it. */
module Loader {
  import opened Bytes
  import opened Memory
  import opened Hex
  import opened Cache
  import opened Elf

  /** `ELF_CODE_RELOC_START`: where the loader's own transfer code is copied. */
  const CODE_RELOC_START: nat := 0x87FF_0000
  /** `ELF_DATA_RELOC_START`: where the image is staged before it is mapped. */
  const DATA_RELOC_START: nat := 0x8800_0000
  /** `ELF_DEVTREE_START` and `ELF_DEVTREE_MAX_SIZE`. */
  const DEVTREE_START: nat := 0x87FE_0000
  const DEVTREE_MAX_SIZE: nat := 0x1_0000
  /** Added to `e_entry` to form the address parked secondary cores jump to. */
  const SECONDARY_ENTRY_OFFSET: nat := 0x60
  /** Size of the trace buffer `s[50]`. */
  const TRACE_BUFFER_SIZE: nat := 50

  /** The link-time addresses of the loader symbols the relocation works with:
      `elfldr_start`, `elfldr_end`, `elf_secondary_hold_addr` and `elf_run`. */
  datatype LoaderSymbols = LoaderSymbols(start: u32, end: u32, holdAddr: u32, run: u32)

  /** `ELF_GET_RELOCATED(x)`: `(unsigned long)x - (unsigned long)elfldr_start`
      added to `ELF_CODE_RELOC_START`, both steps wrapping modulo 2^32. */
  function Relocated(start: u32, x: u32): u32
  {
    (CODE_RELOC_START + (x - start) % 0x1_0000_0000) % 0x1_0000_0000
  }

  /** A symbol inside `[elfldr_start, elfldr_end)` is relocated to the same
      offset inside the copied block, without wrapping, when the block fits
      below 2^32. */
  lemma RelocatedInBlock(start: u32, end: u32, x: u32)
    requires start <= x < end && CODE_RELOC_START + (end - start) <= U32_LIMIT
    ensures Relocated(start, x) == CODE_RELOC_START + (x - start)
    ensures CODE_RELOC_START <= Relocated(start, x) < CODE_RELOC_START + (end - start)
  {
    assert (x - start) % 0x1_0000_0000 == x - start;
  }

  /** Once the `elfldr_end - elfldr_start` bytes of loader code (`code[i]` is the
      byte linked at `elfldr_start + i`) are copied to `ELF_CODE_RELOC_START`,
      the relocated address of a symbol in the block holds the symbol's byte. */
  lemma RelocatedReachesCopy(m: seq<byte>, code: seq<byte>, start: u32, end: u32, x: u32)
    requires |m| == MEM_SIZE && start <= x < end && |code| == end - start
    requires CODE_RELOC_START + |code| <= MEM_SIZE
    ensures Relocated(start, x) < MEM_SIZE
    ensures Copy(m, CODE_RELOC_START, code)[Relocated(start, x)] == code[x - start]
  {
    RelocatedInBlock(start, end, x);
    CopyAt(m, CODE_RELOC_START, code, Relocated(start, x));
  }

  /** The symbols `elf_prepare_run` relocates lie in the copied block, the
      block ends below the staged image, and the hold cell fits in the block. */
  predicate SymbolsInBlock(sym: LoaderSymbols)
  {
    sym.start <= sym.holdAddr && sym.holdAddr + 4 <= sym.end &&
    sym.start <= sym.run < sym.end &&
    CODE_RELOC_START + (sym.end - sym.start) <= DATA_RELOC_START
  }

  /** The hold-cell store and the call of `elf_run` both go to the relocated
      copy of the loader code, never outside it. */
  lemma RelocatedTargetsInBlock(sym: LoaderSymbols)
    requires SymbolsInBlock(sym)
    ensures var cell := Relocated(sym.start, sym.holdAddr);
      cell == CODE_RELOC_START + (sym.holdAddr - sym.start) &&
      CODE_RELOC_START <= cell && cell + 4 <= CODE_RELOC_START + (sym.end - sym.start)
    ensures var call := Relocated(sym.start, sym.run);
      call == CODE_RELOC_START + (sym.run - sym.start) &&
      CODE_RELOC_START <= call < CODE_RELOC_START + (sym.end - sym.start)
  {
    RelocatedInBlock(sym.start, sym.end, sym.holdAddr);
    RelocatedInBlock(sym.start, sym.end, sym.run);
  }

  /** `a & 0x7fffffff`: the address with the top bit cleared. */
  function Physical(a: u32): (r: u32)
    ensures r < TARGET_BIT && r % 0x8000_0000 == a % 0x8000_0000
  {
    a % 0x8000_0000
  }

  /** `e_entry + 0x60` as a 32-bit `unsigned long`. */
  function HoldValue(entry: u32): u32
  {
    (entry + SECONDARY_ENTRY_OFFSET) % 0x1_0000_0000
  }

  /** The call that ends `elf_prepare_run`: the relocated `elf_run` with the
      entry point and the device-tree address as arguments. */
  datatype Handoff = Handoff(call: u32, entry: u32, devtree: u32)

  /** `sh_size` is passed as an `int` length: it must stay non-negative, and
      `l += LINESIZE` in `elf_sync_before_exec` must not overflow. */
  predicate SizeFitsInt(sh: Shdr)
  {
    Mapped(sh) ==> sh.size + 128 <= INT_MAX
  }

  /** `[a, a + n)` and `[b, b + k)` share no address. */
  predicate Disjoint(a: nat, n: nat, b: nat, k: nat)
  {
    a + n <= b || b + k <= a
  }

  /** A mapped section writes neither the relocated loader code (`codeLen` bytes
      at `ELF_CODE_RELOC_START`), nor the staged image (`imgLen` bytes at
      `ELF_DATA_RELOC_START`), nor the trace buffer `s[50]` on the loader's stack
      (at `bufAddr`): all three are still executed, read or written after it. */
  predicate ClearOfLoader(sh: Shdr, codeLen: nat, imgLen: nat, bufAddr: nat)
  {
    Mapped(sh) ==>
      Disjoint(Target(sh.addr), sh.size, CODE_RELOC_START, codeLen) &&
      Disjoint(Target(sh.addr), sh.size, DATA_RELOC_START, imgLen) &&
      Disjoint(Target(sh.addr), sh.size, bufAddr, TRACE_BUFFER_SIZE)
  }

  /** What `elf_prepare_run` takes for granted about the staged image, the
      loader's own symbols and the address `bufAddr` of its trace buffer. */
  predicate RunnableImage(img: seq<byte>, sym: LoaderSymbols, bufAddr: nat)
  {
    TableInImage(img) &&
    AllPlaceable(img, Sections(img)) &&
    AllNamed(img, Strtab(img), Sections(img)) &&
    (forall k :: 0 <= k < |Sections(img)| ==> SizeFitsInt(Sections(img)[k])) &&
    SymbolsInBlock(sym) &&
    forall k :: 0 <= k < |Sections(img)| ==>
      ClearOfLoader(Sections(img)[k], sym.end - sym.start, |img|, bufAddr)
  }

  /** Mapping the sections of a runnable image leaves the relocated loader code,
      the staged image and the trace buffer as they were, so the headers, names
      and contents the loop reads later are the staged bytes, and the digits
      written to the buffer are not overwritten by a section. */
  lemma StagingSurvivesMapping(m: seq<byte>, img: seq<byte>, sym: LoaderSymbols, bufAddr: nat, a: nat)
    requires |m| == MEM_SIZE && RunnableImage(img, sym, bufAddr) && a < MEM_SIZE
    requires CODE_RELOC_START <= a < CODE_RELOC_START + (sym.end - sym.start) ||
             DATA_RELOC_START <= a < DATA_RELOC_START + |img| ||
             bufAddr <= a < bufAddr + TRACE_BUFFER_SIZE
    ensures MapSections(m, img, Sections(img))[a] == m[a]
  {
    var ss := Sections(img);
    forall k | 0 <= k < |ss|
      ensures !InTarget(ss[k], a)
    {
      assert ClearOfLoader(ss[k], sym.end - sym.start, |img|, bufAddr);
    }
    MapSectionsFrame(m, img, ss, a);
  }

  /** Memory once `elf_prepare_run` reaches its jump: every section mapped in
      table order, then the hold cell stored at `cell`. */
  function MemoryAfterRun(m: seq<byte>, img: seq<byte>, cell: nat): (r: seq<byte>)
    requires |m| == MEM_SIZE && TableInImage(img) && AllPlaceable(img, Sections(img))
    requires cell + 4 <= MEM_SIZE
    ensures |r| == MEM_SIZE
  {
    Copy(MapSections(m, img, Sections(img)), cell,
         EncodeBe32(HoldValue(DecodeEhdr(img).entry)))
  }

  /** Everything `elf_prepare_run` prints. */
  function BootTrace(img: seq<byte>): seq<byte>
    requires TableInImage(img) && AllNamed(img, Strtab(img), Sections(img))
  {
    Trace(img, Strtab(img), Sections(img)) + EntryRecord(DecodeEhdr(img).entry)
  }

  /** The hold cell is stored after every section: secondary cores reading it
      see `e_entry + 0x60` even if a section's range covered it, and every other
      byte is as the mapping left it. */
  lemma HoldCellAfterRun(m: seq<byte>, img: seq<byte>, cell: nat, a: nat)
    requires |m| == MEM_SIZE && TableInImage(img) && AllPlaceable(img, Sections(img))
    requires cell + 4 <= MEM_SIZE && a < MEM_SIZE
    ensures Be32(MemoryAfterRun(m, img, cell), cell) == HoldValue(DecodeEhdr(img).entry)
    ensures !(cell <= a < cell + 4) ==>
      MemoryAfterRun(m, img, cell)[a] == MapSections(m, img, Sections(img))[a]
  {
    var mapped := MapSections(m, img, Sections(img));
    var word := EncodeBe32(HoldValue(DecodeEhdr(img).entry));
    CopyAt(mapped, cell, word, cell);
    CopyAt(mapped, cell, word, cell + 1);
    CopyAt(mapped, cell, word, cell + 2);
    CopyAt(mapped, cell, word, cell + 3);
    DecodeEncodeBe32(HoldValue(DecodeEhdr(img).entry), MemoryAfterRun(m, img, cell), cell);
    CopyAt(mapped, cell, word, a);
  }

  /** Memory after staging: the region zeroed, then the `n` bytes at `dt_addr`
      copied to its start, read as they are once the region is zeroed. */
  function StageDeviceTree(m: seq<byte>, dtAddr: nat, n: nat): (r: seq<byte>)
    requires |m| == MEM_SIZE && n <= DEVTREE_MAX_SIZE && dtAddr + n <= MEM_SIZE
    ensures |r| == MEM_SIZE
  {
    var zeroed := Fill(m, DEVTREE_START, DEVTREE_MAX_SIZE, 0);
    Copy(zeroed, DEVTREE_START, zeroed[dtAddr..dtAddr + n])
  }

  /** After staging, byte `k` of the region holds the byte found at `dt_addr + k`
      once the region was zeroed: zero where the blob itself lies in the region,
      the blob's byte elsewhere. The rest of the region is zero up to
      `ELF_DEVTREE_MAX_SIZE`, and memory outside the region is untouched. */
  lemma DeviceTreeStaged(m: seq<byte>, dtAddr: nat, n: nat, a: nat)
    requires |m| == MEM_SIZE && n <= DEVTREE_MAX_SIZE && dtAddr + n <= MEM_SIZE && a < MEM_SIZE
    ensures StageDeviceTree(m, dtAddr, n)[a] ==
      if DEVTREE_START <= a < DEVTREE_START + n then
        var b := dtAddr + (a - DEVTREE_START);
        if DEVTREE_START <= b < DEVTREE_START + DEVTREE_MAX_SIZE then 0 else m[b]
      else if DEVTREE_START <= a < DEVTREE_START + DEVTREE_MAX_SIZE then 0
      else m[a]
  {
    var zeroed := Fill(m, DEVTREE_START, DEVTREE_MAX_SIZE, 0);
    CopyAt(zeroed, DEVTREE_START, zeroed[dtAddr..dtAddr + n], a);
    FillAt(m, DEVTREE_START, DEVTREE_MAX_SIZE, 0, a);
    if DEVTREE_START <= a < DEVTREE_START + n {
      FillAt(m, DEVTREE_START, DEVTREE_MAX_SIZE, 0, dtAddr + (a - DEVTREE_START));
    }
  }

  /** A blob lying outside the region arrives intact: the region starts with
      the `dt_size` bytes read at `dt_addr` before the call. */
  lemma BlobOutsideRegion(m: seq<byte>, dtAddr: nat, n: nat, k: nat)
    requires |m| == MEM_SIZE && n <= DEVTREE_MAX_SIZE && dtAddr + n <= MEM_SIZE && k < n
    requires Disjoint(dtAddr, n, DEVTREE_START, DEVTREE_MAX_SIZE)
    ensures StageDeviceTree(m, dtAddr, n)[DEVTREE_START + k] == m[dtAddr + k]
  {
    DeviceTreeStaged(m, dtAddr, n, DEVTREE_START + k);
  }

  /** The machine the loader drives: physical memory, the characters sent to the
      UART, the cache lines synced by `elf_sync` (data-cache store, then
      instruction-cache invalidate) and the ranges passed to `memdcbst`. */
  class Machine {
    var mem: array<byte>
    var uart: seq<byte>
    var synced: seq<u32>
    var dcacheFlushes: seq<(nat, nat)>

    ghost predicate Valid()
      reads this
    {
      mem.Length == MEM_SIZE
    }

    constructor (m: array<byte>)
      requires m.Length == MEM_SIZE
      ensures Valid() && mem == m && uart == [] && synced == [] && dcacheFlushes == []
    {
      mem, uart, synced, dcacheFlushes := m, [], [], [];
    }

    /** `elf_putch`: the transmit-ready wait and the register write become one
        appended character. */
    method Putch(c: byte)
      modifies this`uart
      ensures uart == old(uart) + [c]
    {
      uart := uart + [c];
    }

    /** `elf_puts`: the characters before the first NUL. */
    method Puts(s: seq<byte>, p: nat)
      requires HasNul(s, p)
      modifies this`uart
      ensures uart == old(uart) + CString(s, p)
    {
      ghost var str := CString(s, p);
      var i := p;
      while s[i] != 0
        invariant p <= i <= p + |str|
        invariant uart == old(uart) + s[p..i]
        decreases p + |str| - i
      {
        Putch(s[i]);
        i := i + 1;
      }
      assert i == p + |str|;
    }

    /** `elf_memset(dst, v, l)`: `l` bytes from `dst` become `(unsigned char)v`. */
    method Memset(dst: nat, v: int, l: int)
      requires Valid() && 0 <= l <= INT_MAX && dst + l <= mem.Length
      modifies mem
      ensures Valid()
      ensures mem[..] == Fill(old(mem[..]), dst, l, v % 0x100)
    {
      var p, n := dst, l;
      while n != 0
        invariant dst <= p && 0 <= n && p + n == dst + l
        invariant forall a :: 0 <= a < mem.Length ==>
          mem[a] == if dst <= a < p then v % 0x100 else old(mem[a])
      {
        mem[p] := v % 0x100;
        p, n := p + 1, n - 1;
      }
      forall a | 0 <= a < mem.Length ensures mem[a] == Fill(old(mem[..]), dst, l, v % 0x100)[a] {
        FillAt(old(mem[..]), dst, l, v % 0x100, a);
      }
    }

    /** `elf_memcpy(dst, src + from, l)` from the image into memory. */
    method Memcpy(dst: nat, src: seq<byte>, from: nat, l: int)
      requires Valid() && 0 <= l <= INT_MAX && dst + l <= mem.Length && from + l <= |src|
      modifies mem
      ensures Valid()
      ensures mem[..] == Copy(old(mem[..]), dst, src[from..from + l])
    {
      var p, q, n := dst, from, l;
      while n != 0
        invariant dst <= p && 0 <= n && p + n == dst + l && q - from == p - dst
        invariant forall a :: 0 <= a < mem.Length ==>
          mem[a] == if dst <= a < p then src[from + (a - dst)] else old(mem[a])
      {
        mem[p] := src[q];
        p, q, n := p + 1, q + 1, n - 1;
      }
      forall a | 0 <= a < mem.Length ensures mem[a] == Copy(old(mem[..]), dst, src[from..from + l])[a] {
        CopyAt(old(mem[..]), dst, src[from..from + l], a);
      }
    }

    /** `elf_sync_before_exec(dst, l)`: one `elf_sync` per line the loop visits. */
    method SyncBeforeExec(dst: u32, l: int)
      requires -INT_MAX - 1 <= l && l + 128 <= INT_MAX
      modifies this`synced
      ensures synced == old(synced) + SyncLines(dst, l)
    {
      var p: u32 := LineBase(dst);
      var n := l + 128;
      n := n - n % 128;
      while n > 0
        invariant old(synced) + SyncLines(dst, l) == synced + Lines(p, n)
        decreases n
      {
        synced := synced + [p];
        p := (p + 128) % 0x1_0000_0000;
        n := n - 128;
      }
    }

    /** The 32-bit store `*(volatile unsigned long *)a = v`. */
    method Store32(a: nat, v: u32)
      requires Valid() && a + 4 <= mem.Length
      modifies mem
      ensures Valid()
      ensures mem[..] == Copy(old(mem[..]), a, EncodeBe32(v))
    {
      var word := EncodeBe32(v);
      mem[a], mem[a + 1], mem[a + 2], mem[a + 3] := word[0], word[1], word[2], word[3];
      forall x | 0 <= x < mem.Length ensures mem[x] == Copy(old(mem[..]), a, word)[x] {
        CopyAt(old(mem[..]), a, word, x);
      }
    }

    /** Prints `n` as eight hex digits through the trace buffer `s`. */
    method PutHex(n: u32, s: array<byte>)
      requires s.Length == TRACE_BUFFER_SIZE
      modifies s, this`uart
      ensures uart == old(uart) + HexString(n, 8)
    {
      Int2Hex(n, 8, s);
      HexStringDigits(n, 8);
      CStringOfTerminated(s[..], 0, 8);
      Puts(s[..], 0);
    }

    /** The trace line of a mapped section. */
    method TraceSection(img: seq<byte>, strtab: StrtabRef, sh: Shdr, s: array<byte>)
      requires s.Length == TRACE_BUFFER_SIZE && Mapped(sh) && Named(img, strtab, sh)
      modifies s, this`uart
      ensures uart == old(uart) + SectionRecord(img, strtab, sh)
    {
      ghost var u := uart;
      ghost var addr, size := HexString(sh.addr, 8) + [SP], HexString(sh.size, 8) + [SP];
      PutField(sh.addr, s);
      PutField(sh.size, s);
      PutName(img, strtab.offset + sh.name);
      AppendAssoc(u, addr, size);
      AppendAssoc(u, addr + size, CString(img, strtab.offset + sh.name) + [CR, LF]);
    }

    /** The section name and the line end. */
    method PutName(img: seq<byte>, p: nat)
      requires HasNul(img, p)
      modifies this`uart
      ensures uart == old(uart) + (CString(img, p) + [CR, LF])
    {
      Puts(img, p);
      Putch(CR);
      Putch(LF);
      assert old(uart) + CString(img, p) + [CR] + [LF] == old(uart) + (CString(img, p) + [CR, LF]);
    }

    /** A hex field of a trace line and the space after it. */
    method PutField(n: u32, s: array<byte>)
      requires s.Length == TRACE_BUFFER_SIZE
      modifies s, this`uart
      ensures uart == old(uart) + (HexString(n, 8) + [SP])
    {
      PutHex(n, s);
      Putch(SP);
      AppendAssoc(old(uart), HexString(n, 8), [SP]);
    }

    /** A mapped section written to its target, then synced over the same range. */
    method WriteSection(img: seq<byte>, sh: Shdr)
      requires Valid() && Mapped(sh) && Placeable(img, sh) && SizeFitsInt(sh)
      modifies mem, this`synced
      ensures Valid()
      ensures mem[..] == ApplySection(old(mem[..]), img, sh)
      ensures synced == old(synced) + SectionSyncs(sh)
    {
      var target := Target(sh.addr);
      if sh.shType == SHT_NOBITS {
        Memset(target, 0, sh.size);
      } else {
        Memcpy(target, img, sh.offset, sh.size);
      }
      SyncBeforeExec(target, sh.size);
    }

    /** One pass of the loop in `elf_prepare_run`: a mapped section is traced,
        written to its target and synced; any other header is skipped. */
    method MapSection(img: seq<byte>, strtab: StrtabRef, sh: Shdr, s: array<byte>)
      requires Valid() && s.Length == TRACE_BUFFER_SIZE && s != mem
      requires Placeable(img, sh) && Named(img, strtab, sh) && SizeFitsInt(sh)
      modifies mem, s, this`uart, this`synced
      ensures Valid()
      ensures mem[..] == ApplySection(old(mem[..]), img, sh)
      ensures uart == old(uart) + SectionRecord(img, strtab, sh)
      ensures synced == old(synced) + SectionSyncs(sh)
    {
      if Mapped(sh) {
        TraceSection(img, strtab, sh, s);
        WriteSection(img, sh);
      }
    }

    /** Pass `i` of the loop, stated over the first `i` and `i + 1` headers. */
    method MapNext(img: seq<byte>, strtab: StrtabRef, ghost ss: seq<Shdr>, i: nat, sh: Shdr,
                   s: array<byte>, ghost m0: seq<byte>, ghost u0: seq<byte>, ghost y0: seq<u32>)
      requires Valid() && s.Length == TRACE_BUFFER_SIZE && s != mem && |m0| == MEM_SIZE
      requires i < |ss| && ss[i] == sh && SizeFitsInt(sh)
      requires AllPlaceable(img, ss) && AllNamed(img, strtab, ss)
      requires AllPlaceable(img, ss[..i]) && AllNamed(img, strtab, ss[..i])
      requires mem[..] == MapSections(m0, img, ss[..i])
      requires uart == u0 + Trace(img, strtab, ss[..i])
      requires synced == y0 + Syncs(ss[..i])
      modifies mem, s, this`uart, this`synced
      ensures Valid()
      ensures AllPlaceable(img, ss[..i + 1]) && AllNamed(img, strtab, ss[..i + 1])
      ensures mem[..] == MapSections(m0, img, ss[..i + 1])
      ensures uart == u0 + Trace(img, strtab, ss[..i + 1])
      ensures synced == y0 + Syncs(ss[..i + 1])
    {
      PrefixStep(m0, img, strtab, ss, i);
      MapSection(img, strtab, sh, s);
      AppendAssoc(u0, Trace(img, strtab, ss[..i]), SectionRecord(img, strtab, sh));
      AppendAssoc(y0, Syncs(ss[..i]), SectionSyncs(sh));
    }

    /** The loop of `elf_prepare_run` over the `e_shnum` headers of the table. */
    method MapTable(img: seq<byte>, eh: Ehdr, strtab: StrtabRef, ghost ss: seq<Shdr>, s: array<byte>)
      requires Valid() && s.Length == TRACE_BUFFER_SIZE && s != mem
      requires eh.shoff + 40 * eh.shnum <= |img| && |ss| == eh.shnum
      requires forall k :: 0 <= k < |ss| ==> ss[k] == ShdrAt(img, eh, k)
      requires AllPlaceable(img, ss) && AllNamed(img, strtab, ss)
      requires forall k :: 0 <= k < |ss| ==> SizeFitsInt(ss[k])
      modifies mem, s, this`uart, this`synced
      ensures Valid()
      ensures mem[..] == MapSections(old(mem[..]), img, ss)
      ensures uart == old(uart) + Trace(img, strtab, ss)
      ensures synced == old(synced) + Syncs(ss)
    {
      var i := 0;
      while i < eh.shnum
        invariant 0 <= i <= eh.shnum
        invariant AllPlaceable(img, ss[..i]) && AllNamed(img, strtab, ss[..i])
        invariant mem[..] == MapSections(old(mem[..]), img, ss[..i])
        invariant uart == old(uart) + Trace(img, strtab, ss[..i])
        invariant synced == old(synced) + Syncs(ss[..i])
      {
        var sh := ShdrAt(img, eh, i);
        MapNext(img, strtab, ss, i, sh, s, old(mem[..]), old(uart), old(synced));
        i := i + 1;
      }
      assert ss[..i] == ss;
    }

    /** The entry-point record printed after the loop. */
    method TraceEntry(entry: u32, s: array<byte>)
      requires s.Length == TRACE_BUFFER_SIZE
      modifies s, this`uart
      ensures uart == old(uart) + EntryRecord(entry)
    {
      Putch(CR);
      Putch(LF);
      Putch('E' as int);
      Putch('P' as int);
      Putch(SP);
      PutHex(entry, s);
      Putch(CR);
      Putch(LF);
    }

    /** `elf_prepare_run(addr)` up to its call of the relocated `elf_run`. */
    method PrepareRun(img: seq<byte>, sym: LoaderSymbols, ghost bufAddr: nat) returns (h: Handoff)
      requires Valid() && RunnableImage(img, sym, bufAddr)
      modifies mem, this`uart, this`synced
      ensures Valid()
      ensures mem[..] == MemoryAfterRun(old(mem[..]), img, Relocated(sym.start, sym.holdAddr))
      ensures uart == old(uart) + BootTrace(img)
      ensures synced == old(synced) + Syncs(Sections(img))
      ensures h == Handoff(Relocated(sym.start, sym.run), DecodeEhdr(img).entry, 0x07FE_0000)
    {
      var eh := DecodeEhdr(img);
      ghost var ss := Sections(img);
      var sh := ShdrAt(img, eh, eh.shstrndx);
      var strtab := NoStrtab;
      if sh.shType == SHT_STRTAB {
        strtab := StrtabAt(sh.offset);
      }
      var s := new byte[TRACE_BUFFER_SIZE];
      MapTable(img, eh, strtab, ss, s);
      TraceEntry(eh.entry, s);
      AppendAssoc(old(uart), Trace(img, strtab, ss), EntryRecord(eh.entry));
      RelocatedTargetsInBlock(sym);
      Store32(Relocated(sym.start, sym.holdAddr), HoldValue(eh.entry));
      h := Handoff(Relocated(sym.start, sym.run), eh.entry, Physical(DEVTREE_START));
    }

    /** `elf_runWithDeviceTree`: an oversized blob is refused before anything is
        touched; otherwise the region is zeroed, the blob at `dt_addr` copied in
        from memory, the whole region flushed from the data cache, and
        `elf_runFromMemory` comes next. The copy's source and destination must
        not overlap, as `memcpy` requires. */
    method RunWithDeviceTree(dtAddr: nat, dtSize: int) returns (proceeds: bool)
      requires Valid() && -INT_MAX - 1 <= dtSize <= INT_MAX
      requires dtSize <= DEVTREE_MAX_SIZE ==>
        0 <= dtSize && dtAddr + dtSize <= MEM_SIZE &&
        Disjoint(dtAddr, dtSize, DEVTREE_START, dtSize)
      modifies mem, this`dcacheFlushes
      ensures Valid()
      ensures proceeds <==> dtSize <= DEVTREE_MAX_SIZE
      ensures !proceeds ==> mem[..] == old(mem[..]) && dcacheFlushes == old(dcacheFlushes)
      ensures proceeds ==>
        mem[..] == StageDeviceTree(old(mem[..]), dtAddr, dtSize) &&
        dcacheFlushes == old(dcacheFlushes) + [(DEVTREE_START, DEVTREE_MAX_SIZE)]
    {
      if dtSize > DEVTREE_MAX_SIZE {
        return false;
      }
      Memset(DEVTREE_START, 0, DEVTREE_MAX_SIZE);
      Memcpy(DEVTREE_START, mem[..], dtAddr, dtSize);
      dcacheFlushes := dcacheFlushes + [(DEVTREE_START, DEVTREE_MAX_SIZE)];
      proceeds := true;
    }
  }
}
