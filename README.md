# libxenon ELF loader: section mapper and hand-off

This project models the core of libxenon's ELF loader for the Xbox 360
(`libxenon/drivers/elf/elf.c`). That core is the relocated routine `elf_prepare_run`.
It walks the section-header table of an ELF image that has been staged in memory.
For each allocated, non-empty section it:

- prints a trace line on the UART;
- writes the section to `0x80000000 | sh_addr`, zero-filling `SHT_NOBITS` sections and copying the others from the image;
- syncs the data and instruction caches over the range it wrote.

After the loop it prints the entry record and stores `e_entry + 0x60` into the relocated hold
cell that parked secondary cores poll. It then calls the relocated `elf_run` with the entry
point and the physical device-tree address. The model also covers the low-level primitives
the routine is built from (`elf_putch`, `elf_puts`, `elf_int2hex`, `elf_memset`, `elf_memcpy`,
`elf_sync_before_exec`). It covers the size gate and staging of `elf_runWithDeviceTree` too.

## Layout

- `bytes.dfy`, module `Bytes`: bytes, 32-bit words, big-endian loads and stores, and NUL-terminated strings.
- `hex.dfy`, module `Hex`: the fixed-width upper-case hex field of `elf_int2hex`, and its parse back.
- `cache.dfy`, module `Cache`: the cache lines `elf_sync_before_exec` visits, and what they cover.
- `memory.dfy`, module `Memory`: memory as the sequence of its 2^32 bytes, plus fill and copy on it.
- `elf.dfy`, module `Elf`: `Elf32_Ehdr`/`Elf32_Shdr` decoding, and the value-level meaning of the loop:
  - the memory it leaves;
  - the trace it prints;
  - the lines it syncs.
- `arith.dfy`, module `Arith`: division facts used by the proofs.
- `loader.dfy`, module `Loader`: the class `Machine` and its methods, and facts about the state after the hand-off.
  - Physical memory is an `array<byte>` of 2^32 bytes.
  - The characters sent to the UART are a `seq<byte>`.
  - The line addresses passed to `elf_sync` are a `seq<u32>`.
  - The ranges passed to `memdcbst` are a sequence of pairs.

Modelling choices:

- The target is big-endian PowerPC. `unsigned long` and pointers are 32 bits wide, so pointer sums such as `dst += LINESIZE` wrap modulo 2^32.
- C's `int` arguments (`l` in the primitives, the device-tree size) keep their range. The source leaves overflow undefined, so those bounds become preconditions.
- `LINESIZE` (128) and `sizeof (Elf32_Shdr)` (40) are written as literals where they multiply or divide. This keeps the arithmetic linear for the solver.
- `sh_flags & SHF_ALLOC` is read as bit 1 of `sh_flags`. `Elf.IsAllocMask` shows this equals the 32-bit mask test.
- The source validates nothing. Everything it takes for granted is a precondition of `Loader.Machine.PrepareRun`, spelled out by `Loader.RunnableImage`:
  - the section-header table, including the `e_shstrndx` entry, lies inside the image;
  - mapped sections have a string table and NUL-terminated names;
  - target ranges fit in the address space;
  - copied sections lie in the image;
  - `sh_size + 128` fits in an `int`;
  - `elf_secondary_hold_addr` (4 bytes) and `elf_run` lie between `elfldr_start` and `elfldr_end`, and the copied loader code ends below `0x88000000`;
  - no mapped section writes the relocated loader code at `0x87FF0000`, the staged image at `0x88000000` (elf.c:165, 169), or the trace buffer `s[50]` on the loader's stack (elf.c:93). The buffer's address is a ghost parameter of `Loader.Machine.PrepareRun`. The code is still running; later headers, names and contents are read from the staged image; and later `elf_int2hex` calls (elf.c:115, 118, 141) write the buffer. `Loader.StagingSurvivesMapping` shows the mapping leaves all three regions as they were.

The rounding in `elf_sync_before_exec` reads as if the sync covered the written range
rounded out to whole lines. The code does not do that. It rounds the address down to a line
start, and it takes the length to the next multiple of 128 strictly above `L`:
`(L + 128) & ~127` is 256 for `L = 128`, so an aligned 128-byte range syncs two lines. The
two roundings are independent. It therefore covers `[A, A + L)` exactly when
`A % 128 + L % 128 <= 128` (`Cache.SyncCoverage`), and misses the tail otherwise
(`Cache.SyncMissesTail`, `A = 100, L = 50`). The model follows the code.

## Model

| member | source | states |
|---|---|---|
| `Bytes.Be16` | libxenon/drivers/elf/elf.c:100-105 | A half-word read big-endian is below 2^16; its high byte is the first byte and its low byte the second |
| `Bytes.DecodeEncodeBe32` | libxenon/drivers/elf/elf.c:146 | A 32-bit load from four bytes laid out by a big-endian store of `x` returns `x` |
| `Bytes.CString` | libxenon/drivers/elf/elf.c:36-39 | The string `elf_puts` prints is the bytes before the first NUL at or after `p`; it contains no NUL and the NUL follows it |
| `Bytes.CStringOfTerminated` | libxenon/drivers/elf/elf.c:36-39 | `n` non-NUL bytes followed by a NUL are exactly the C string at `p` |
| `Hex.HexDigit` | libxenon/drivers/elf/elf.c:50 | A nibble becomes an upper-case hex digit, never NUL; the digit is a decimal one exactly when the nibble is at most 9 |
| `Hex.DigitValue` | libxenon/drivers/elf/elf.c:50 | Every upper-case hex digit is the digit of exactly the nibble it denotes (inverse of `HexDigit`) |
| `Hex.HexStringDigits` | libxenon/drivers/elf/elf.c:45-51 | Every character of the field is an upper-case hex digit, so none of them is NUL before the terminator |
| `Hex.ParseHexString` | libxenon/drivers/elf/elf.c:41-52 | The `w`-digit field parses back to `n mod 16^w` |
| `Hex.HexStringLeadingZeros` | libxenon/drivers/elf/elf.c:41-52 | Leading zeros are kept: when `n < 16^j`, the first `w - j` characters are `'0'` |
| `Hex.ParseHexWord` | libxenon/drivers/elf/elf.c:115-118 | An 8-digit field holds any 32-bit value exactly (round trip) |
| `Hex.Int2Hex` | libxenon/drivers/elf/elf.c:41-52 | `str[0..w]` becomes the `w` hex digits of `n`, most significant first, then a NUL at `str[w]`; bytes after `str[w]` are unchanged |
| `Cache.LineBase` | libxenon/drivers/elf/elf.c:77 | `a & ~127` is line-aligned, at most `a`, and less than 128 below it |
| `Cache.LinesShape` | libxenon/drivers/elf/elf.c:82-87 | The loop makes one pass per started 128-byte block of `l`; pass `k` syncs `dst + 128k` modulo 2^32; no pass happens when `l <= 0` |
| `Cache.SyncLineCount` | libxenon/drivers/elf/elf.c:75-88 | `elf_sync_before_exec(A, L)` syncs exactly `L/128 + 1` lines for `L >= 0` and none for `L < 0` |
| `Cache.SyncLinesAligned` | libxenon/drivers/elf/elf.c:77-87 | The first synced line is `A` rounded down; line `k` is `128k` above it (mod 2^32); every synced address is line-aligned |
| `Cache.SyncCoverage` | libxenon/drivers/elf/elf.c:75-88 | Every byte of `[A, A+L)` lies on a synced line if and only if `A % 128 + L % 128 <= 128` |
| `Cache.SyncMissesTail` | libxenon/drivers/elf/elf.c:75-88 | For `A = 100, L = 50` only line 0 is synced and bytes 128..149 are not covered |
| `Memory.FillAt` | libxenon/drivers/elf/elf.c:55-58 | A fill sets exactly its range to the byte and leaves every other address alone |
| `Memory.CopyAt` | libxenon/drivers/elf/elf.c:60-64 | A copy puts `src[a - dst]` at each address of its range and leaves every other address alone |
| `Elf.DecodeEncodeEhdr` | libxenon/drivers/elf/elf.c:100-107 | Reading `e_entry` (offset 24), `e_shoff` (32), `e_shnum` (48, half-word) and `e_shstrndx` (50, half-word) back from a header laid out with those fields returns them, whatever the unread bytes are |
| `Elf.DecodeEncodeShdr` | libxenon/drivers/elf/elf.c:109-110 | Reading the 40-byte header laid out at `p` yields, field by field, the header encoded there |
| `Elf.IsAllocMask` | libxenon/drivers/elf/elf.c:112 | The allocation test is exactly `sh_flags & SHF_ALLOC != 0` on the 32-bit word |
| `Elf.Target` | libxenon/drivers/elf/elf.c:125 | `0x80000000 \| sh_addr` has the top bit set, keeps the low 31 bits, and is `sh_addr` itself when that bit was already set |
| `Elf.ImageLayout` | libxenon/drivers/elf/elf.c:100-110 | An image holding a header for `h` and, at `e_shoff + 40i`, the encoding of `ss[i]` for each `i < e_shnum`, decodes back to `h` and to exactly `ss`. Its `strtab` is the `e_shstrndx` section's offset if that section has type `SHT_STRTAB`, and null otherwise |
| `Elf.SectionBytes` | libxenon/drivers/elf/elf.c:127-133 | A mapped section contributes exactly `sh_size` bytes |
| `Elf.ApplySectionAt` | libxenon/drivers/elf/elf.c:112-133 | One header changes exactly the bytes of its target range when mapped, to that section's byte, and nothing else |
| `Elf.NoBitsZeroFilled` | libxenon/drivers/elf/elf.c:127-128 | A mapped `SHT_NOBITS` section reads zero over `[T, T + sh_size)`, and the result does not depend on the image |
| `Elf.ContentsCopied` | libxenon/drivers/elf/elf.c:129-133 | Any other mapped section holds `image[sh_offset + k]` at `T + k` for every `k < sh_size` |
| `Elf.MapSectionsFrame` | libxenon/drivers/elf/elf.c:107-135 | An address no mapped section targets keeps its old value after the whole loop |
| `Elf.MapSectionsLastWins` | libxenon/drivers/elf/elf.c:107-135 | Where targets overlap, the address holds the byte of the last section in table order that targets it |
| `Elf.SectionRecordFields` | libxenon/drivers/elf/elf.c:115-123 | A section's trace line reads back as the 8-digit `sh_addr`, a space, the 8-digit `sh_size`, a space, the NUL-terminated name, CR LF |
| `Elf.EntryRecordFields` | libxenon/drivers/elf/elf.c:136-144 | The entry record is CR LF `EP `, the 8-digit `e_entry` that parses back to it, and CR LF |
| `Elf.PrefixStep` | libxenon/drivers/elf/elf.c:107-135 | Going from the first `i` headers to the first `i + 1`, memory, trace and syncs each grow by header `i`'s contribution |
| `Elf.SkippedSection` | libxenon/drivers/elf/elf.c:112-113 | A non-allocated or empty header writes nothing, prints nothing and syncs nothing |
| `Loader.RelocatedInBlock` | libxenon/drivers/elf/elf.c:20 | With the 32-bit wrap-around of `ELF_GET_RELOCATED`, a symbol in `[elfldr_start, elfldr_end)` goes to `0x87FF0000 + (x - elfldr_start)`, inside the copied block, when the block fits below 2^32 |
| `Loader.RelocatedReachesCopy` | libxenon/drivers/elf/elf.c:20 | After the loader code is copied to `0x87FF0000` (elf.c:165), the relocated address of a symbol in the block holds the byte linked at that symbol |
| `Loader.RelocatedTargetsInBlock` | libxenon/drivers/elf/elf.c:146-150 | The hold-cell store (all four bytes) and the call of `elf_run` both land inside the relocated code block |
| `Loader.StagingSurvivesMapping` | libxenon/drivers/elf/elf.c:107-135 | On a runnable image, mapping every section leaves each byte of the relocated code, of the staged image and of the trace buffer unchanged |
| `Loader.Physical` | libxenon/drivers/elf/elf.c:150 | `a & 0x7fffffff` is below `0x80000000` and keeps the low 31 bits |
| `Loader.HoldCellAfterRun` | libxenon/drivers/elf/elf.c:146 | After the hand-off the hold cell reads `e_entry + 0x60` (mod 2^32), even where a section covered it; every other byte is as mapping left it |
| `Loader.DeviceTreeStaged` | libxenon/drivers/elf/elf.c:218-219 | After staging, `0x87FE0000 + k` (for `k < dt_size`) holds the byte at `dt_addr + k` as it is after the memset. That byte is zero where the blob lies inside the region, and the blob's own byte elsewhere. The region is zero from `dt_size` up to `0x10000`; memory outside the region is unchanged |
| `Loader.BlobOutsideRegion` | libxenon/drivers/elf/elf.c:218-219 | A blob lying outside `[0x87FE0000, 0x87FF0000)` arrives intact: `0x87FE0000 + k` holds the byte `dt_addr + k` held before the call |
| `Loader.Machine.Putch` | libxenon/drivers/elf/elf.c:30-34 | One character is appended to the UART output |
| `Loader.Machine.Puts` | libxenon/drivers/elf/elf.c:36-39 | The UART output grows by the C string at `p` |
| `Loader.Machine.Memset` | libxenon/drivers/elf/elf.c:55-58 | Memory becomes the old memory with `l` bytes from `dst` set to `(unsigned char)v` |
| `Loader.Machine.Memcpy` | libxenon/drivers/elf/elf.c:60-64 | Memory becomes the old memory with `src[from .. from + l]` copied to `dst` |
| `Loader.Machine.SyncBeforeExec` | libxenon/drivers/elf/elf.c:75-88 | The sync log grows by exactly `SyncLines(dst, l)`, the lines whose count, alignment and coverage the `Cache` lemmas state |
| `Loader.Machine.Store32` | libxenon/drivers/elf/elf.c:146 | Memory becomes the old memory with the big-endian word `v` at `a` |
| `Loader.Machine.PutHex` | libxenon/drivers/elf/elf.c:115-116 | The UART output grows by the 8-digit hex field of `n` |
| `Loader.Machine.PutField` | libxenon/drivers/elf/elf.c:115-120 | The UART output grows by the 8-digit hex field and a space |
| `Loader.Machine.PutName` | libxenon/drivers/elf/elf.c:121-123 | The UART output grows by the section name and CR LF |
| `Loader.Machine.TraceSection` | libxenon/drivers/elf/elf.c:115-123 | The UART output grows by the section's trace line |
| `Loader.Machine.WriteSection` | libxenon/drivers/elf/elf.c:125-134 | Memory becomes the section applied to the old memory, and the sync log grows by the section's target lines |
| `Loader.Machine.MapSection` | libxenon/drivers/elf/elf.c:112-134 | One loop pass: memory, UART output and sync log each grow by the header's contribution, which is nothing for a skipped header |
| `Loader.Machine.MapNext` | libxenon/drivers/elf/elf.c:107-135 | Pass `i` takes the state that reflects the first `i` headers to the one that reflects the first `i + 1` |
| `Loader.Machine.MapTable` | libxenon/drivers/elf/elf.c:107-135 | After the loop, memory is every header applied in table order, the UART output has every trace line, and the sync log has every section's lines |
| `Loader.Machine.TraceEntry` | libxenon/drivers/elf/elf.c:136-144 | The UART output grows by the entry record |
| `Loader.Machine.PrepareRun` | libxenon/drivers/elf/elf.c:91-150 | The final state: memory is all sections mapped and then the hold cell `ELF_GET_RELOCATED(&elf_secondary_hold_addr)` set to `e_entry + 0x60`; the UART has the full boot trace; every section's lines are synced. The call goes to `ELF_GET_RELOCATED(elf_run)` with `e_entry` and `0x07FE0000` |
| `Loader.Machine.RunWithDeviceTree` | libxenon/drivers/elf/elf.c:212-222 | Boot proceeds if and only if `dt_size <= 0x10000`. An oversized blob leaves memory and the flush log untouched. Otherwise memory is `StageDeviceTree`: the region is zeroed, `dt_size` bytes are copied from `dt_addr` in memory, and the whole region is flushed once |

## Left out

- The UART's transmit-ready busy-wait and the register write in `elf_putch` (elf.c:32-33) are one appended byte; the hardware is out of scope.
- The four cache instructions of `elf_sync` (elf.c:67-73) are one logged line address, because the model has no cache state.
- `memdcbst` in `elf_runWithDeviceTree` (elf.c:220) is logged as its `(start, length)` range for the same reason.
- `elf_runFromMemory` (elf.c:155-184) is not modelled. It needs peripheral shutdown, `memicbi`, copies of the loader's own code and of the image to the staging regions, the dispatch of threads 1..5 to `elf_hold_thread` with its retry loop, and `mdelay`. These are hardware and threading calls. The staged image is a parameter of `Loader.Machine.PrepareRun` instead.
- `elf_runFromDisk` (elf.c:186-210) is file I/O and is not modelled.
- The `printf` diagnostic for an oversized device tree (elf.c:215) is not modelled.
- `elf_run` and `elf_hold_thread` are assembly routines outside this file (elf.c:25-26). The call at elf.c:149-150 does not return, and the C loop `for(;;)` at elf.c:152 is never reached. `Loader.Machine.PrepareRun` returns the call's target and arguments as a `Handoff` value instead.
- The secondary cores polling the hold cell run concurrently and are not modelled; only the one store they wait for is.
- Loader.Machine.PrepareRun: the staged image is a separate value, not bytes of memory, and the trace buffer `s[50]` is an array apart from `mem`. `Loader.RunnableImage` requires that no mapped section writes the staged image, the relocated code or the trace buffer. Under that requirement, `Loader.StagingSurvivesMapping` shows memory there stays unchanged, so the separate value and array behave as those bytes of memory would. Images whose sections overwrite any of these regions are excluded rather than modelled. The rest of the loader's stack (saved registers, return addresses, the other locals) is not modelled, and neither is a section overwriting it.
- Loader.Machine.RunWithDeviceTree: it ends where `elf_runFromMemory` would be called (elf.c:222), and its `elf_addr`/`elf_size` arguments are not modelled.
- Loader.Machine.RunWithDeviceTree: a blob whose bytes `[dt_addr, dt_addr + dt_size)` overlap the copy's destination `[0x87FE0000, 0x87FE0000 + dt_size)` makes `memcpy` undefined. That case is excluded by precondition. A blob elsewhere in the region, which the memset clears first, is modelled.
- Loader.Machine.RunWithDeviceTree: a negative `dt_size` passes the size test in C but then makes `memcpy` read a huge `size_t` length. That case is excluded by precondition.
- Malformed images are excluded by the preconditions `Loader.RunnableImage`, `Elf.Placeable` and `Elf.Named`, so their undefined behaviour is not modelled. Such images include: a table outside the image; a mapped section without a string table or a terminated name; targets past 2^32; an `int` size overflow.
- `elf_memset`/`elf_memcpy` with a negative length (a loop of about 2^32 passes in C) are excluded by precondition.
- `elf_int2hex` with `w > 16` shifts a 64-bit value by 64 or more, which C leaves undefined. That case is excluded by precondition.
