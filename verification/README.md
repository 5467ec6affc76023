# Origami: a verified model of the boot path

Origami is a UEFI bootloader for x86-64. This project models, in Dafny, what it computes between reading its
configuration and jumping to the kernel, and proves what a kernel relies on when it is entered.

One byte array, the machine's RAM, is shared by everything that writes memory: the ELF loader, the page-table edits
and the conversion of the memory map. Each piece that works step by step in the source is a method over that array
or over an object's fields; its contract ties the new state to a function of the old one, and lemmas about that
function carry the properties.

| file | what it holds |
|---|---|
| `Bytes.dfy` | little-endian words in memory, 64-bit arithmetic, stores |
| `Uefi.dfy` | statuses, pages, memory types, descriptors, the page and pool allocators |
| `E820.dfy` | the coalescing fold and its properties |
| `MemoryMap.dfy` | the same fold, done in place in the buffer the descriptors arrived in |
| `Paging.dfy` | four-level translation, the two higher-half windows, the table edits |
| `ElfFile.dfy` | exact reads, the ELF-64 headers |
| `ElfLoader.dfy` | loading segments |
| `ElfSections.dfy` | finding and loading a section by name |
| `Boot.dfy` | the whole path, from the kernel file to the state at the jump |
| `BootConfig.dfy` | the configuration file |

Main results:

- *End to end* (`Boot.LoadOrigamiKernel`, `Boot.Arrival`, `Boot.RestArrives`, `Boot.ReservedArrival`). The path succeeds
  only if every call it checks does; and given room for the memory it asks for, it does succeed then. When it succeeds,
  every byte of every loadable segment is read, through the edited page tables, at the virtual address it is linked for;
  every other address leads where it did, if the firmware owns the tables that lead there; the E820 table is the
  coalesced firmware map; and if that map is right about page types, every byte of the image is in
  `E820_TYPE_RESERVED_KERN` entries and in no others; and the pool blocks filled on the way hold what was put into them.
  What is said of the address space and the image holds when there was a page for the new table; the source
  does not check that there was, and goes on with address 0.
- *In-place conversion* (`MemoryMap.ConvertMemoryMap`). For every descriptor list and every stride of at least 20
  bytes, the bytes left behind decode to exactly what the fold computes from the bytes that were there, although
  writer and reader share the buffer. Firmware spaces descriptors at least 40 bytes apart; at less than 20 the first
  entry may spoil the second descriptor (`MemoryMap.TwentyIsLeast`).
- *The fold* (`E820`). Coverage and total size are preserved for any order of descriptors; coverage is preserved
  *exactly when* nothing wraps at 2^64; the output is canonical, minimal and a fixed point; order is kept.
- *Windows* (`Paging`). A complete account of where every virtual address leads after the edits, and of what the walk
  itself finds, from the four indices in an address and the words in four tables.
- *Loading* (`ElfLoader`). Exactly when it succeeds; the image and the reported top when it does; frame and page count
  on every path. All of it also for files whose headers are written out byte by byte (`ElfLoader.LoadElfWritten`,
  `ElfSections.DeliversWritten`), so that what is read where in a file is part of what is proved.
- *Configuration* (`BootConfig`). How any file splits into lines, what any line says, a closed form of the line loop,
  and a round trip from the bytes of a file. Two results
  are about UCS-2 text, which the line reader knows: the loop forgets after the first line that a file is UCS-2, so
  that such a file, of characters below 256, never yields a path (`BootConfig.WideFileUseless`); and a file of
  single-byte text whose first line begins with the UCS-2 mark is lost altogether, while any other comes back as written
  (`BootConfig.LinesOfJoin`, `BootConfig.FileRoundTrip`).

Assumptions the source makes of its environment, stated as preconditions where they are needed:

- no segment is written beyond the pages it gets. Where one is, loading has the status `Undefined` in the model;
  `ElfLoader.UndefinedExactly` says when, in terms of the bytes that are written, and `ElfLoader.LoadElf` and
  `Boot.Trusted` exclude just that. Segments no larger in the file than in memory suffice (`ElfLoader.SmallFilesDefined`);
- the section header of the name table lies where an `int` product can reach it, and the section names that are
  read lie in a NUL-terminated table (`ElfSections.NamesInTable`);
- the firmware's descriptors are at least 40 bytes apart, and the size it asks for leaves room for ten more in 64 bits
  (`Boot.Sensible`);
- firmware identity-maps RAM below 512 GiB with tables in pages it owns and does not deal out as pool memory, the root is not one of its own lower-level
  tables, and the root's first entry is present and free of bits above the physical address (`Boot.IdentityMapped`);
- no descriptor has type `EfiPersistentMemory`, for which the type table has no element (`E820.KnownType`).

The allocator follows the UEFI Specification, section 7.2. That text leaves two requests open, an address that is not
page aligned and a count of zero; here both are refused with `EFI_NOT_FOUND`, so a loadable segment of size 0 makes
loading fail. Alignment of segments and the range of their addresses are therefore not assumed but follow from success.

A descriptor may end exactly at 2^64. If the next one has the same type and starts at 0, or if a run of descriptors
covers the whole space, the 64-bit arithmetic of the conversion loses memory (`E820.WrapLosesMemory`). Both are
excluded by `E820.Fits`, which is proved to be the exact condition.

## Model

| member | source | states |
|---|---|---|
| Boot.LoadOrigamiKernel | src/Loader/Origami.c:44-219 | when the path succeeds, and its status otherwise, given room; on success the entry point and image top are right and the bytes at Memmap are the coalesced entries of whatever descriptors the firmware wrote out; and if there was a page for the new table, every image byte is read at its linked virtual address through the final tables, the windows are open, all other addresses are as they were, the table reserves the whole image if the firmware's final map is right about page types, and the pool blocks are intact |
| Boot.PrepareHandoff | src/Loader/Origami.c:77-217 | the path after loading: pool blocks, page tables, memory map; the status when there is room, and what each part leaves alone |
| Boot.FillBlocks | src/Loader/Origami.c:77-129 | each block's bytes end up in a pool piece of its own; pool blocks are written only where memory could be handed out, and what has an owner keeps it |
| Boot.BlocksArrive | src/Loader/Origami.c:77-217 | page-table edits and the memory map leave filled pool blocks alone |
| Boot.Arrival | src/Loader/Origami.c:154-163 | end to end over the states of a run: image bytes survive pool writes, the edits and all later writes to memory that can be handed out, and are read at p_vaddr + j |
| Boot.RestArrives | src/Loader/Origami.c:154-163 | at kernel entry any address outside the two root slots leads where it did before the kernel was loaded, if its tables had owners, and the rest of the top 512 GiB is not present |
| Boot.ReservedArrival | src/Loader/Origami.c:191-217 | every image byte is covered by RESERVED_KERN entries and by entries of no other type |
| Boot.PageTypeDecides | src/Loader/Origami.c:195-216 | in any page of RAM an address is covered by the E820 type its page's EFI type maps to, and by no other |
| Boot.TableCoverage | src/Loader/Origami.c:191-217 | for any order of descriptors an address is covered with a type if and only if some descriptor covers it whose EFI type maps to that type |
| Boot.WindowsOpen | src/Loader/Origami.c:154-163 | low memory, the direct window and the kernel window all lead to the same physical addresses, and still do after any writes to memory that can be handed out at that point |
| Boot.IdentityKept | src/Loader/Origami.c:72-73 | loading the kernel cannot disturb the firmware's identity map |
| Boot.TakeMemoryMap | src/Loader/Origami.c:170-217 | the status for every answer of the firmware, the buffer being ten descriptors larger than asked for; writes only where memory could be handed out, leaves owners alone, and on success leaves the coalesced entries of the firmware's descriptors in memory |
| Boot.LoadKernel | src/Loader/Origami.c:52-75 | succeeds if and only if there is an Origami header of 17 bytes and the image can be loaded; the header's entry point, when not zero, overrides the ELF entry point |
| Boot.WrittenReadable | src/Loader/Origami.c:72-73 | for a kernel file written out header by header, what is read at p_vaddr + j is byte p_offset + j of the file, or zero beyond p_filesz |
| Boot.EntersWritten | src/Loader/Origami.c:52-75 | for a written-out file the entry point is the first field of the first section named .origamihdr, unless it is zero, and then e_entry |
| Boot.HeaderRoundTrip | src/Loader/Origami.h:9-15 | the Origami header is 17 packed bytes that begin with the entry point |
| Boot.HeaderName | src/Loader/Origami.c:56-56 | the section looked for is .origamihdr |
| MemoryMap.ConvertMemoryMap | src/Loader/Origami.c:188-217 | whatever descriptors lie stride * i bytes from the start of the buffer, the bytes left there are their coalesced entries, 20 bytes each, MemmapEntries is their number, and no other byte changes |
| MemoryMap.ReportedIs | src/Loader/Origami.c:191-193 | the descriptors read are those written out at stride * i, as many as fit |
| MemoryMap.MapIsHeld | src/Loader/Origami.c:191-193 | every buffer holds such descriptors |
| MemoryMap.ConvertDescriptor | src/Loader/Origami.c:193-216 | one iteration appends the descriptor's range to the entries written so far, by extending the last or by adding one |
| MemoryMap.PutDescriptor | src/Loader/Origami.c:211-213 | the three stores of an entry that may lie over its own descriptor write the descriptor's original fields |
| MemoryMap.NextReady | src/Loader/Origami.c:193-193 | when a descriptor is read it is as the firmware wrote it, and no entry written so far reaches into it |
| MemoryMap.TwentyIsLeast | src/Loader/Origami.c:193-213 | for every stride below 20 there are bytes for which the first entry written changes what the second descriptor says |
| MemoryMap.DescriptorRoundTrip | src/Loader/Origami.c:193-193 | field offsets agree with the C layout of EFI_MEMORY_DESCRIPTOR |
| MemoryMap.EntryPut | src/Loader/Origami.h:31-36 | an entry written as packed 20 bytes is read back |
| E820.TypeOf | src/Loader/Origami.c:25-40 | which EFI types become RAM (exactly 1 to 7), ACPI, NVS, unusable and kernel-reserved memory |
| E820.Local | src/Loader/Origami.c:199-202 | the loop's test on the entry being built is the test on the two neighbouring descriptors |
| E820.CoalesceMergesRuns | src/Loader/Origami.c:199-216 | the output is the list of mergers of consecutive joining runs that together are the input |
| E820.Minimal | src/Loader/Origami.c:199-216 | no order-preserving grouping into contiguous same-type runs has fewer groups than the output has entries |
| E820.CoalesceCanonical | src/Loader/Origami.c:199-216 | no two consecutive entries have one type and are contiguous |
| E820.NoneAdjoin | src/Loader/Origami.c:199-202 | the same in terms of types, addresses and sizes |
| E820.Idempotent | src/Loader/Origami.c:199-216 | coalescing the output again changes nothing |
| E820.Exact | src/Loader/Origami.c:199-216 | where nothing wraps, coverage by type and the sum of sizes are those of the input, for any order and any overlaps |
| E820.BelowTopFits | src/Loader/Origami.c:202-204 | descriptors that all end below 2^64 never wrap |
| E820.EntryRun | src/Loader/Origami.c:199-216 | each entry starts and ends with a maximal run of joining descriptors |
| E820.CoverageExactlyWhenFits | src/Loader/Origami.c:202-204 | for disjoint non-empty descriptors coverage is preserved if and only if no merge crosses or fills 2^64 |
| E820.WrapLosesMemory | src/Loader/Origami.c:202-204 | two descriptors, each legal by itself, for which the 64-bit sum loses all memory |
| E820.SortedKept | src/Loader/Origami.c:191-217 | ascending disjoint descriptors give ascending disjoint entries |
| Paging.PrepareHigherHalf | src/Loader/Origami.c:154-163 | memory is what the stores make of it, in the source's order; with a free page at hand the new table is in one and the effect is the intended one, and without one the table goes to address 0, unnoticed |
| Paging.KernelWindow | src/Loader/Origami.c:157-163 | for v below 2 GiB and leaves of any size, 0xffffffff80000000 + v translates as v did, present or not |
| Paging.KernelWindowShows | src/Loader/Origami.c:157-163 | with no assumption on the root's first entry, the window shows what the first two entries of the masked table lead to |
| Paging.DirectWindow | src/Loader/Origami.c:155-155 | for v below 512 GiB, 0xffff800000000000 + v translates as v did |
| Paging.ElsewhereUnchanged | src/Loader/Origami.c:154-163 | addresses under any other root slot translate as before |
| Paging.TopOtherwiseUnmapped | src/Loader/Origami.c:157-163 | the rest of the top 512 GiB is not present |
| Paging.EditedEffect | src/Loader/Origami.c:154-163 | the stores write the new table, zero but for its last two entries, which are the low table's first two, and root slots 256 and 511, and no other byte |
| Paging.LowTableIntact | src/Loader/Origami.c:161-163 | the low table, found and read after the first stores, still holds what it held before |
| Paging.MaskExact | src/Loader/Origami.c:161-161 | the mask 0x7ffffffffffff000 finds the table if and only if bits 52 to 62 of the entry are clear |
| Paging.TargetRoundsDown | src/Loader/Origami.c:161-161 | mask and table address are the entry's low 63 and 52 bits, rounded down to a page |
| Paging.WalkSmallPage | src/Loader/Origami.c:154-163 | an address made of four indices and an offset leads, through four entries, to the byte of a 4 KiB page |
| Paging.WalkMediumPage | src/Loader/Origami.c:154-163 | the same through three entries to a 2 MiB page |
| Paging.WalkLargePage | src/Loader/Origami.c:162-163 | the same through two entries to a 1 GiB page |
| Paging.WalkStops | src/Loader/Origami.c:154-163 | an entry that is not present ends the walk, at any level |
| Paging.WalkFrame | src/Loader/Origami.c:154-163 | a translation depends only on the tables it reads |
| Paging.FrameRoundsDown | src/Loader/Origami.c:162-163 | the frame of a 4 KiB, 2 MiB or 1 GiB leaf is the low 52 bits of the entry rounded down to the page size |
| Paging.AddressDigits | src/Loader/Origami.c:154-163 | an address is its four 9-bit indices and 12-bit offset |
| ElfLoader.LoadElf | src/Loader/ElfLoader.c:75-122 | memory, page map, top, entry point and status after the loop, on every path |
| ElfLoader.LoadElfSucceeds | src/Loader/ElfLoader.c:90-114 | success if and only if every program header can be read and every loadable segment is page aligned, not empty, in pages free at the start and in no other segment's, readable, and no larger in the file than in memory |
| ElfLoader.LoadElfWritten | src/Loader/ElfLoader.c:75-122 | for a file whose header and program headers are written out: loading succeeds if and only if every PT_LOAD segment is page aligned, not empty, in free pages, readable and no larger in the file than in memory, and no two share a page; then every byte, page type and the top are as the headers say |
| ElfLoader.RunningTop | src/Loader/ElfLoader.c:102-104 | on every path, failures included, the top is the greatest 64-bit end of the segments that were tried |
| ElfLoader.RelocateIs | src/Loader/ElfLoader.c:98-100 | for any address, relocation modulo 2^64 |
| ElfLoader.UndefinedExactly | src/Loader/ElfLoader.c:106-113 | loading is undefined if and only if some segment gets its pages and what is then written, the bytes the file delivers or the zeroed tail of 64-bit length, reaches beyond them |
| ElfLoader.LeavesExactly | src/Loader/ElfLoader.c:109-113 | the same for one segment: the test on sizes and status is exact for the extents of the two stores |
| ElfLoader.WritesExtents | src/Loader/ElfLoader.c:109-113 | otherwise the bytes of those extents, whether loading succeeds or not, become the segment's image, and no others change |
| ElfLoader.SmallFilesDefined | src/Loader/ElfLoader.c:109-113 | a file whose segments are no larger than their memory never overruns |
| ElfLoader.LoadOne | src/Loader/ElfLoader.c:98-113 | one loadable segment: top, claim, copy, zero the tail, stopping where the source stops |
| ElfLoader.LoadElfImage | src/Loader/ElfLoader.c:90-114 | on success every segment holds its file bytes and then zeros, no two share a page, and the top is the least upper bound |
| ElfLoader.LoadElfFrame | src/Loader/ElfLoader.c:90-121 | on every path, failures included, only free pages were claimed, nothing else changed, and the pages claimed number the sum over granted segments |
| ElfLoader.ImagePlaced | src/Loader/ElfLoader.c:98-113 | a segment, once loaded, stays in place whatever is loaded after it |
| ElfLoader.SegmentsDisjoint | src/Loader/ElfLoader.c:106-107 | two loaded segments share no page |
| ElfLoader.TopExact | src/Loader/ElfLoader.c:102-104 | the modular running maximum is the exact least upper bound of segment ends, 0 when there is none |
| ElfLoader.RelocationExact | src/Loader/ElfLoader.c:98-100 | for a segment that was loaded the modular relocation is the plain difference, and its address is in the lower half or the top 2 GiB |
| ElfLoader.Accounting | src/Loader/ElfLoader.c:106-107 | pages claimed number the sum of the page counts of granted segments, after any number of headers |
| ElfFile.FileRead | src/Loader/ElfLoader.c:13-27 | success means exactly the bytes asked for, at the place asked for |
| ElfFile.ReadExact | src/Loader/ElfLoader.c:13-27 | success if and only if the file holds all the bytes and no fault breaks the read; in any case what is delivered is what is in the file there |
| ElfFile.HeaderWritten | src/Loader/ElfLoader.c:81-87 | a file that begins with a header is accepted if and only if the header has ELF magic, little-endian data, version 1 and machine 62, and then that header is used |
| ElfFile.SegmentWritten | src/Loader/ElfLoader.c:93-96 | program header i is the one written at e_phoff + e_phentsize * i, and a segment if its type is 1 |
| ElfFile.SectionWritten | src/Loader/ElfLoader.c:53-53 | section header i is the one written at e_shoff + e_shentsize * i |
| ElfFile.PhdrRoundTrip | src/Loader/elf64.h:117-126 | field offsets agree with Elf64_Phdr |
| ElfFile.EhdrRoundTrip | src/Loader/elf64.h:66-81 | field offsets agree with Elf64_Ehdr |
| ElfFile.ShdrRoundTrip | src/Loader/elf64.h:99-111 | field offsets agree with Elf64_Shdr |
| ElfSections.LoadSection | src/Loader/ElfLoader.c:29-73 | succeeds exactly when a first section with the name can be delivered, then delivers its bytes and size; otherwise writes no out-parameter; frees the name table once on every path that allocated it and nothing else |
| ElfSections.FindSection | src/Loader/ElfLoader.c:51-61 | the loop finds the lowest-index section with the name, or there is none behind readable headers |
| ElfSections.CompareExact | src/Loader/ElfLoader.c:54-54 | the character loop compares equal exactly when the name stands in the table at that place, followed by a NUL |
| ElfSections.DeliversWritten | src/Loader/ElfLoader.c:43-68 | for a file whose section headers are written out: the section delivered is the first whose name stands in the bytes of the name table where sh_name says, followed by a NUL, if its bytes can be read |
| BootConfig.LoadBootEntry | src/Config/BootConfig.c:54-90 | the loop leaves the entry as the fold over the lines read does, for any bytes, and fails exactly at a line that does not fit |
| BootConfig.ApplyLine | src/Config/BootConfig.c:65-89 | what one line does to the entry |
| BootConfig.ParseClosedForm | src/Config/BootConfig.c:54-90 | each field is what the last line to assign it says; titles reset the command line but not the path; options count only below a title; tracing is never switched off |
| BootConfig.RoundTrip | src/Config/BootConfig.c:65-83 | a title and below it a path and a command line, in any order among unrelated lines, parse back to the same values |
| BootConfig.FileRoundTrip | src/Config/BootConfig.c:54-90 | the same from the bytes of a file, with either line ending, unless its first line begins with the UCS-2 mark; then nothing at all is loaded |
| BootConfig.WideFileUseless | src/Config/BootConfig.c:58-63 | a UCS-2 file of characters below 256, whatever it says, gives an entry without a name no path, no tracing and no command line but the empty one |
| BootConfig.LinesOfJoin | src/Config/BootConfig.c:60-63 | the lines written to a file, the last with or without a line feed, are the lines read, if and only if the first does not begin with the UCS-2 mark |
| BootConfig.AsciiExact | src/Config/BootConfig.c:54-63 | any single-byte text is read as its lines are, without carriage returns and up to a NUL, until one keeps more than 126 characters |
| BootConfig.MarkedExact | src/Config/BootConfig.c:58-63 | after the UCS-2 mark the first line is read as UCS-2, and whatever follows as single-byte text |
| BootConfig.ReturnsDropped | src/Config/BootConfig.c:63-63 | dropping carriage returns is done character by character |
| BootConfig.ReturnsAre | src/Config/BootConfig.c:63-63 | a carriage return is dropped, and text without one is kept |
| BootConfig.CheckOptionExact | src/Config/BootConfig.h:6 | an option is recognised exactly by its key followed by '=' |
| BootConfig.ClassifyExact | src/Config/BootConfig.c:65-88 | what any line says, from the characters it begins with |
| BootConfig.LiteralIs | src/Config/BootConfig.c:76-86 | the keys are these characters |
| BootConfig.OptionRoundTrip | src/Config/BootConfig.c:76-86 | a key is recognised for itself and no other, and the value starts after the first '=' |
| BootConfig.TracingExact | src/Config/BootConfig.c:84-88 | tracing is switched on by exactly the lines that begin with TRACING=yes or BOOT_TRACING=yes |

## Left out

- ElfLoader.LoadElf: what happens once a segment is written beyond its pages is not modelled; a precondition excludes exactly that.
- ElfFile.FileRead: whether a place in the file can be read is fixed; a fault that comes and goes between two reads of one place is not modelled.
- Boot.TakeMemoryMap: the second GetMemoryMap fails only for want of room or of a buffer.
- Boot.FillBlocks: what the loader puts into the blocks is a parameter; the source does not notice when a block cannot be had and writes to address 0; the method stops with the allocator's status.
- Boot.LoadOrigamiKernel: opening files and selecting a graphics mode are a status each; the pool memory that holds the Origami header is outside the modelled RAM; what goes into the pool blocks (ACPI, time and framebuffer fields of the handoff structure), console output and the jump itself are not modelled; nothing is claimed about the E820 type of the handoff structure or of the table.
- Paging.KernelWindow: access rights, reserved bits, caches and five-level paging are not part of the walk.
- E820.TypeOf: nothing is claimed for EfiPersistentMemory, whose table element does not exist.
- ElfSections.LoadSection: a data buffer whose final read fails stays allocated, as in the source.
- BootConfig.LoadBootEntry: finding and opening the file, device errors, failing string allocations, and the byte a one-byte file leaves unset when the mark is looked for, are not modelled.
- SelectBestGopMode: a weak rule over firmware modes, which stores height as width.
- Splash screen and start-up code: user interface only.
