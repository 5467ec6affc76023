/** From the kernel file to the state in which the kernel is entered (LoadOrigamiKernel): the ELF image, the
    higher-half windows and the E820 table, in one memory. */
module Boot {
  import opened Bytes
  import opened Uefi
  import opened ElfFile
  import opened ElfLoader
  import opened ElfSections
  import opened Paging
  import opened E820
  import opened MemoryMap

  // ---------------------------------------------------------------------------
  // The memory map, from descriptors to entries
  // ---------------------------------------------------------------------------

  predicate DescriptorCovers(d: Descriptor, a: nat) {
    d.start <= a < d.start + d.pages * PAGE
  }

  /** The firmware's map gives the address this EFI memory type. */
  ghost predicate Reports(ds: seq<Descriptor>, a: nat, t: u32) {
    exists i :: 0 <= i < |ds| && ds[i].typ == t && DescriptorCovers(ds[i], a)
  }

  /** Descriptors the conversion is exact for: known types, inside the 64-bit address space, nothing wraps. */
  ghost predicate Convertible(ds: seq<Descriptor>) {
    && AllKnown(ds)
    && (forall i :: 0 <= i < |ds| ==> ds[i].pages < 0x10_0000_0000_0000 && ds[i].start + ds[i].pages * PAGE <= TWO_64)
    && Fits(Ranges(ds))
  }

  /** An address is covered by an entry of type `t` exactly when some descriptor covers it whose type maps to `t`. */
  lemma TableCoverage(ds: seq<Descriptor>, a: nat, t: u32)
    requires Convertible(ds)
    ensures Covers(Coalesce(Ranges(ds)), a, t) <==>
      exists i :: 0 <= i < |ds| && DescriptorCovers(ds[i], a) && TypeOf(ds[i].typ) == t
  {
    hide Coalesce, Fits, PagesToSize, TypeOf;
    var rs := Ranges(ds);
    assert forall i :: 0 <= i < |ds| ==> rs[i].size == ds[i].pages * PAGE;
    Exact(rs);
    assert SameCoverage(rs, Coalesce(rs));
    assert forall i :: 0 <= i < |ds| ==> (In(rs[i], a) <==> DescriptorCovers(ds[i], a));
  }

  /** The map agrees with the allocator: in RAM, an address has the type of its page and no other. */
  ghost predicate Describes(ds: seq<Descriptor>, pages: PageMap) {
    forall a, t :: a / PAGE in pages ==> (Reports(ds, a, t) <==> pages[a / PAGE] == t)
  }

  /** An address in a page of EFI type `e` ends up in entries of the type that `e` maps to, and of no other. */
  lemma PageTypeDecides(ds: seq<Descriptor>, pages: PageMap, a: nat, t: u32)
    requires Convertible(ds) && Describes(ds, pages) && a / PAGE in pages
    ensures KnownType(pages[a / PAGE])
    ensures Covers(Coalesce(Ranges(ds)), a, t) <==> t == TypeOf(pages[a / PAGE])
  {
    hide Coalesce, Ranges, Fits, TypeOf, DescriptorCovers;
    var e := pages[a / PAGE];
    assert Reports(ds, a, e);
    var i :| 0 <= i < |ds| && ds[i].typ == e && DescriptorCovers(ds[i], a);
    TableCoverage(ds, a, t);
    forall j | 0 <= j < |ds| && DescriptorCovers(ds[j], a) ensures ds[j].typ == e {
      assert Reports(ds, a, ds[j].typ);
    }
  }

  // ---------------------------------------------------------------------------
  // What the steps leave alone
  // ---------------------------------------------------------------------------

  /** From `m` to `r` only bytes that could be handed out changed. */
  ghost predicate Spares(m: seq<u8>, r: seq<u8>, o: Owners) {
    |m| == |r| && forall a :: 0 <= a < |m| && r[a] != m[a] ==> Loose(o, a)
  }

  lemma PageSpared(m: seq<u8>, r: seq<u8>, o: Owners, t: nat)
    requires Spares(m, r, o) && t % PAGE == 0 && Fixed(o, t / PAGE)
    ensures Same(m, r, t, t + PAGE)
  {
    forall k | t <= k < t + PAGE ensures k / PAGE == t / PAGE {
    }
  }

  /** What can be handed out could be before. */
  lemma LooseBefore(o: Owners, mid: Owners, a: nat)
    requires Keeps(o, mid) && PoolOwned(mid) && Loose(mid, a)
    ensures Loose(o, a)
  {
    assert !Fixed(mid, a / PAGE) && a / PAGE in mid.pages;
    assert a / PAGE in o.pool ==> a / PAGE in mid.pool && Owned(mid.pages, a / PAGE);
  }

  lemma SparesTrans(m: seq<u8>, u: seq<u8>, r: seq<u8>, o: Owners, mid: Owners)
    requires Spares(m, u, o) && Spares(u, r, mid) && Keeps(o, mid) && PoolOwned(mid)
    ensures Spares(m, r, o)
  {
    forall a | 0 <= a < |m| && r[a] != m[a] ensures Loose(o, a) {
      if u[a] == m[a] {
        LooseBefore(o, mid, a);
      }
    }
  }

  lemma KeepsTrans(o: Owners, mid: Owners, after: Owners)
    requires Keeps(o, mid) && Keeps(mid, after)
    ensures Keeps(o, after)
  {
    forall p | Fixed(o, p) ensures Fixed(after, p) && after.pages[p] == o.pages[p] {
      assert Fixed(mid, p);
    }
  }

  /** The tables a translation reads below the root have owners, and are not the root. */
  ghost predicate TablesFixed(m: seq<u8>, o: Owners, cr3: u64, va: u64)
    requires cr3 + PAGE <= |m|
  {
    forall t :: t in LowerTables(m, cr3, va) ==> t != cr3 && Fixed(o, t / PAGE)
  }

  /** Such a translation is the same in any memory that differs only in bytes that could be handed out. */
  lemma WalkSpared(m: seq<u8>, r: seq<u8>, o: Owners, cr3: u64, va: u64)
    requires Spares(m, r, o) && cr3 % PAGE == 0 && cr3 + PAGE <= |m| && Fixed(o, cr3 / PAGE)
    requires forall t :: t in LowerTables(m, cr3, va) ==> Fixed(o, t / PAGE)
    ensures Walk(r, cr3, va) == Walk(m, cr3, va)
    ensures LowerTables(r, cr3, va) == LowerTables(m, cr3, va)
  {
    hide U64, Bits48, Index, Rest, Tables, FromEntry, Spares, Fixed;
    PageSpared(m, r, o, cr3);
    Kept64(m, r, cr3 + 8 * RootIndex(va));
    var e := RootEntry(m, cr3, va);
    TablesAligned(m, e, 4, Rest(Bits48(va), 4));
    forall t | t in LowerTables(m, cr3, va) ensures Same(m, r, t, t + PAGE) {
      PageSpared(m, r, o, t);
    }
    assert LowerTables(m, cr3, va) == Tables(m, e, 4, Rest(Bits48(va), 4));
    WalkFrame(m, r, e, 4, Rest(Bits48(va), 4));
  }

  /** It stays so while ownership changes. */
  lemma WalkKeeps(m: seq<u8>, o: Owners, cr3: u64, va: u64, r: seq<u8>, after: Owners)
    requires cr3 % PAGE == 0 && cr3 + PAGE <= |m| && Fixed(o, cr3 / PAGE) && TablesFixed(m, o, cr3, va)
    requires Spares(m, r, o) && Keeps(o, after)
    ensures |r| == |m| && Fixed(after, cr3 / PAGE) && TablesFixed(r, after, cr3, va)
    ensures Walk(r, cr3, va) == Walk(m, cr3, va)
  {
    hide LowerTables, Walk;
    WalkSpared(m, r, o, cr3, va);
  }

  /** The firmware's page tables at the time the loader runs (UEFI Specification, section 2.3.4): RAM is identity
      mapped below 512 GiB, by tables the firmware owns, none of which is the root itself; the root's first entry
      is present and has no bits above the physical address. */
  ghost predicate IdentityMapped(m: seq<u8>, o: Owners, cr3: u64) {
    && |m| <= PHYSICAL_LIMIT && cr3 % PAGE == 0 && cr3 + PAGE <= |m| && Fixed(o, cr3 / PAGE)
    && Present(U64(m, cr3)) && Masked(U64(m, cr3)) == Target(U64(m, cr3)) && Fixed(o, Masked(U64(m, cr3)) / PAGE)
    && forall v :: 0 <= v < |m| && v < 0x80_0000_0000 ==> LowPage(m, o, cr3, v)
  }

  ghost predicate LowPage(m: seq<u8>, o: Owners, cr3: u64, v: u64)
    requires cr3 + PAGE <= |m|
  {
    Walk(m, cr3, v) == Physical(v) && TablesFixed(m, o, cr3, v)
  }

  /** The identity map survives writes to memory that could be handed out. */
  lemma IdentityKept(m: seq<u8>, o: Owners, cr3: u64, r: seq<u8>, after: Owners)
    requires IdentityMapped(m, o, cr3) && Spares(m, r, o) && Keeps(o, after)
    ensures IdentityMapped(r, after, cr3)
  {
    hide U64, Walk, LowerTables, Present, Masked, Target, TablesFixed;
    PageSpared(m, r, o, cr3);
    Kept64(m, r, cr3);
    forall v | 0 <= v < |r| && v < 0x80_0000_0000 ensures LowPage(r, after, cr3, v) {
      assert LowPage(m, o, cr3, v);
      WalkKeeps(m, o, cr3, v, r, after);
    }
  }

  /** Where virtual addresses lead once the kernel runs. */
  ghost predicate Windows(m: seq<u8>, cr3: u64) {
    && (forall v :: 0 <= v < |m| && v < 0x80_0000_0000 ==> Walk(m, cr3, v) == Physical(v))
    && (forall v :: 0 <= v < |m| && v < 0x80_0000_0000 ==> DirectPage(m, cr3, v))
    && (forall v :: 0 <= v < |m| && v < 0x8000_0000 ==> KernelPage(m, cr3, v))
  }

  ghost predicate DirectPage(m: seq<u8>, cr3: u64, v: nat) {
    DIRECT + v < TWO_64 && Walk(m, cr3, DIRECT + v) == Physical(v)
  }

  ghost predicate KernelPage(m: seq<u8>, cr3: u64, v: nat) {
    KERNEL + v < TWO_64 && Walk(m, cr3, KERNEL + v) == Physical(v)
  }

  /** The new table's page is taken by the loader. */
  function WithTable(o: Owners, pdpt: u64): Owners {
    o.(pages := Claim(o.pages, pdpt / PAGE, 1, EfiReservedMemoryType))
  }

  lemma WithTableFixes(o: Owners, pdpt: u64)
    requires PoolOwned(o) && CanClaim(o.pages, pdpt, 1)
    ensures Keeps(o, WithTable(o, pdpt)) && PoolOwned(WithTable(o, pdpt)) && Fixed(WithTable(o, pdpt), pdpt / PAGE)
  {
    ClaimSparesOwned(o.pages, pdpt, 1, EfiReservedMemoryType);
    assert Free(o.pages, pdpt / PAGE);
  }

  /** The edits open the windows over an identity-mapped machine, and they stay open whatever is written to memory
      that can be handed out afterwards. */
  lemma WindowsOpen(m: seq<u8>, o: Owners, cr3: u64, pdpt: u64, e: seq<u8>, r: seq<u8>)
    requires IdentityMapped(m, o, cr3) && PoolOwned(o) && EditedTo(m, e, cr3, pdpt) && CanClaim(o.pages, pdpt, 1)
    requires Spares(e, r, WithTable(o, pdpt))
    ensures |r| == |m| && Windows(r, cr3)
  {
    hide U64, Walk, LowerTables, Present, Masked, Target, NewEntry, Written, CanClaim, WithTable, Spares;
    var after := WithTable(o, pdpt);
    WithTableFixes(o, pdpt);
    SameSize(e, r, after);
    forall v | 0 <= v < |m| && v < 0x80_0000_0000 ensures Walk(r, cr3, v) == Physical(v) && DirectPage(r, cr3, v) {
      assert LowPage(m, o, cr3, v);
      TableIsNew(m, o, cr3, pdpt, v);
      LowIsElsewhere(v);
      ElsewhereUnchanged(m, e, cr3, pdpt, v);
      WalkSpared(e, r, after, cr3, v);
      DirectWindow(m, e, cr3, pdpt, v);
      WalkSpared(e, r, after, cr3, DIRECT + v);
    }
    forall v | 0 <= v < |m| && v < 0x8000_0000 ensures KernelPage(r, cr3, v) {
      assert LowPage(m, o, cr3, v);
      TableIsNew(m, o, cr3, pdpt, v);
      KernelWindow(m, e, cr3, pdpt, v);
      WalkSpared(e, r, after, cr3, KERNEL + v);
    }
  }

  lemma SameSize(m: seq<u8>, r: seq<u8>, o: Owners)
    requires Spares(m, r, o)
    ensures |m| == |r|
  {
  }

  /** A page that was free is not among tables that have owners. */
  lemma TableIsNew(m: seq<u8>, o: Owners, cr3: u64, pdpt: u64, va: u64)
    requires cr3 + PAGE <= |m| && TablesFixed(m, o, cr3, va) && CanClaim(o.pages, pdpt, 1)
    ensures Clear(m, cr3, pdpt, va)
  {
    hide LowerTables;
    assert Free(o.pages, pdpt / PAGE);
  }

  /** What becomes of every other address: where its tables had owners, it leads where it did; and the rest of the top
      512 GiB is unmapped. */
  ghost predicate RestAsBefore(m: seq<u8>, o: Owners, r: seq<u8>, cr3: u64)
    requires cr3 + PAGE <= |m|
  {
    && (forall va: u64 :: RootIndex(va) != 256 && RootIndex(va) != 511 && TablesFixed(m, o, cr3, va) ==>
          Walk(r, cr3, va) == Walk(m, cr3, va))
    && (forall va: u64 :: Paging.Canonical(va) && RootIndex(va) == 511 && va < KERNEL ==>
          Walk(r, cr3, va) == NotPresent)
  }

  lemma LowIsElsewhere(v: u64)
    requires v < 0x80_0000_0000
    ensures RootIndex(v) == 0
  {
    DirectBits(v);
  }

  // ---------------------------------------------------------------------------
  // The kernel image at entry
  // ---------------------------------------------------------------------------

  /** What the kernel reads at a virtual address. */
  function ReadVirtual(m: seq<u8>, cr3: u64, va: u64): Option<u8> {
    match Walk(m, cr3, va)
    case Physical(a) => if a < |m| then Some(m[a]) else None
    case _ => None
  }

  /** Byte `j` of the segment is in memory at the segment's load address. */
  ghost predicate ByteInPlace(f: File, ph: Phdr, j: nat, m: seq<u8>) {
    var x := Relocate(ph.vaddr) + j;
    x < |m| && m[x] == ImageByte(f, ph, j) && (j < ph.filesz ==> ph.offset + j < |f.bytes|)
  }

  /** It is in memory, and is what is read at the virtual address the segment is linked for (in the lower half, below
      512 GiB). */
  ghost predicate ByteReadable(f: File, ph: Phdr, j: nat, m: seq<u8>, cr3: u64) {
    var x := Relocate(ph.vaddr) + j;
    && ByteInPlace(f, ph, j, m)
    && (x < 0x80_0000_0000 && ph.vaddr + j < TWO_64 ==> ReadVirtual(m, cr3, ph.vaddr + j) == Some(ImageByte(f, ph, j)))
  }

  ghost predicate KernelReadable(f: File, h: Ehdr, m: seq<u8>, cr3: u64) {
    forall i, j :: 0 <= i < h.phnum && Segment(f, h, i).Some? && 0 <= j < Segment(f, h, i).value.memsz ==>
      ByteReadable(f, Segment(f, h, i).value, j, m, cr3)
  }

  /** For a file that is written out: the kernel reads, at the addresses it is linked for, the bytes of its segments and
      zeros after them. */
  lemma WrittenReadable(f: File, h: Ehdr, phs: seq<Phdr>, m: seq<u8>, cr3: u64, k: nat, j: nat)
    requires ElfHolds(f, h, phs) && KernelReadable(f, h, m, cr3)
    requires k < |phs| && phs[k].typ == 1 && j < phs[k].memsz
    requires Relocate(phs[k].vaddr) + j < 0x80_0000_0000 && phs[k].vaddr + j < TWO_64
    ensures j < phs[k].filesz ==> phs[k].offset + j < |f.bytes|
    ensures ReadVirtual(m, cr3, phs[k].vaddr + j) ==
      Some(if j < phs[k].filesz then f.bytes[phs[k].offset + j] else 0)
  {
    hide ElfHolds, Segment, ByteReadable, Relocate, ReadVirtual;
    SegmentIs(f, h, phs, k);
    assert ByteReadable(f, phs[k], j, m, cr3);
    ReadableByte(f, phs[k], j, m, cr3);
  }

  lemma SegmentIs(f: File, h: Ehdr, phs: seq<Phdr>, k: nat)
    requires ElfHolds(f, h, phs) && k < |phs| && phs[k].typ == 1
    ensures k < h.phnum && Segment(f, h, k) == Some(phs[k])
  {
    HeadersWritten(f, h, phs);
    hide Segment, PhdrRead, HeaderStatus, Header;
  }

  lemma ReadableByte(f: File, p: Phdr, j: nat, m: seq<u8>, cr3: u64)
    requires ByteReadable(f, p, j, m, cr3) && Relocate(p.vaddr) + j < 0x80_0000_0000 && p.vaddr + j < TWO_64
    ensures j < p.filesz ==> p.offset + j < |f.bytes|
    ensures ReadVirtual(m, cr3, p.vaddr + j) == Some(if j < p.filesz then f.bytes[p.offset + j] else 0)
  {
    hide Relocate, ReadVirtual;
  }

  /** The address lies in entries of this type, and of no other. */
  ghost predicate OnlyCoveredAs(entries: seq<Range>, a: nat, e: u32) {
    forall t :: Covers(entries, a, t) <==> t == e
  }

  ghost predicate ByteReserved(ph: Phdr, j: nat, entries: seq<Range>) {
    OnlyCoveredAs(entries, Relocate(ph.vaddr) + j, RESERVED_KERN)
  }

  /** Every byte of the image is reserved for the kernel, and is not RAM to be allocated. */
  ghost predicate KernelReserved(f: File, h: Ehdr, entries: seq<Range>) {
    forall i, j :: 0 <= i < h.phnum && Segment(f, h, i).Some? && 0 <= j < Segment(f, h, i).value.memsz ==>
      ByteReserved(Segment(f, h, i).value, j, entries)
  }

  lemma ExtendsSpares(s: Load, t: Load, typ: u32, o: Owners)
    requires Extends(s, t, typ) && typ != EfiConventionalMemory && PoolOwned(o) && o.pages == s.pages
    ensures Spares(s.mem, t.mem, o) && Keeps(o, o.(pages := t.pages)) && PoolOwned(o.(pages := t.pages))
  {
  }

  /** A byte of the image after LoadElf: in place, in a page that is the image's. */
  lemma ByteLoaded(f: File, h: Ehdr, i: nat, j: nat, s: Load, t: Load)
    requires Backed(s.mem, s.pages) && i < h.phnum && Segment(f, h, i).Some?
    requires t == Loaded(f, h, EfiMemoryMappedIOPortSpace, h.phnum, s) && t.status.Success?
    requires j < Segment(f, h, i).value.memsz
    ensures var ph := Segment(f, h, i).value;
      ByteInPlace(f, ph, j, t.mem) && Taken(t.pages, (Relocate(ph.vaddr) + j) / PAGE, EfiMemoryMappedIOPortSpace)
  {
    hide Loaded, Segment, Relocate, ImageByte, Placed, PageOf, Taken, Backed;
    ImagePlaced(f, h, EfiMemoryMappedIOPortSpace, i, h.phnum, s);
    PlacedByte(f, Segment(f, h, i).value, t, EfiMemoryMappedIOPortSpace, j);
  }

  /** The page was free at the start. */
  lemma ByteWasFree(f: File, h: Ehdr, i: nat, j: nat, s: Load, t: Load)
    requires Backed(s.mem, s.pages) && i < h.phnum && Segment(f, h, i).Some?
    requires t == Loaded(f, h, EfiMemoryMappedIOPortSpace, h.phnum, s) && t.status.Success?
    requires j < Segment(f, h, i).value.memsz
    ensures Free(s.pages, (Relocate(Segment(f, h, i).value.vaddr) + j) / PAGE)
  {
    hide Loaded, Segment, Relocate, ImageByte, Placed, PageOf, Taken, Backed;
    var ph := Segment(f, h, i).value;
    ImagePlaced(f, h, EfiMemoryMappedIOPortSpace, i, h.phnum, s);
    PlacedByte(f, ph, t, EfiMemoryMappedIOPortSpace, j);
    SegmentPagesWereFree(f, h, EfiMemoryMappedIOPortSpace, i, h.phnum, s, (Relocate(ph.vaddr) + j) / PAGE);
  }

  /** A page that was free was not in the pool. */
  lemma ByteNotHandedOut(o: Owners, t: Load, p: nat)
    requires PoolOwned(o) && Free(o.pages, p) && Taken(t.pages, p, EfiMemoryMappedIOPortSpace)
    ensures FixedAs(o.(pages := t.pages), p, EfiMemoryMappedIOPortSpace)
  {
    assert p !in o.pool;
  }

  /** A byte in a page that has an owner comes through writes elsewhere. */
  lemma ByteKept(m: seq<u8>, r: seq<u8>, o: Owners, after: Owners, x: nat, typ: u32)
    requires x < |m| && FixedAs(o, x / PAGE, typ) && Spares(m, r, o) && Keeps(o, after)
    ensures x < |r| && r[x] == m[x] && FixedAs(after, x / PAGE, typ)
  {
  }

  /** Such a byte comes through the page-table edits and later writes to memory that can be handed out. */
  lemma ByteSurvives(m: seq<u8>, o: Owners, x: nat, cr3: u64, pdpt: u64, e: seq<u8>, r: seq<u8>)
    requires x < |m| && Fixed(o, x / PAGE) && x / PAGE != cr3 / PAGE
    requires EditedTo(m, e, cr3, pdpt) && PoolOwned(o) && CanClaim(o.pages, pdpt, 1) && Spares(e, r, WithTable(o, pdpt))
    ensures x < |r| && r[x] == m[x]
    ensures forall typ :: FixedAs(o, x / PAGE, typ) ==> FixedAs(WithTable(o, pdpt), x / PAGE, typ)
  {
    hide U64, Masked, NewEntry, WithTable;
    WithTableFixes(o, pdpt);
    assert Free(o.pages, pdpt / PAGE);
  }

  /** With the windows open, a byte at its load address is read at the address it is linked for. */
  lemma LinkedAddress(f: File, ph: Phdr, j: nat, m: seq<u8>, cr3: u64)
    requires Windows(m, cr3) && |m| <= PHYSICAL_LIMIT && j < ph.memsz
    requires ByteInPlace(f, ph, j, m)
    ensures ByteReadable(f, ph, j, m, cr3)
  {
    hide Walk, ImageByte;
    var x := Relocate(ph.vaddr) + j;
    if ph.vaddr >= KERNEL && ph.vaddr + j < TWO_64 {
      assert KernelPage(m, cr3, x);
    }
  }

  // ---------------------------------------------------------------------------
  // The steps
  // ---------------------------------------------------------------------------

  lemma ReportedElsewhere(m: seq<u8>, base: nat, report: seq<u8>, stride: nat)
    requires stride >= DESCRIPTOR_SIZE && base + |report| <= |m|
    ensures Reported(Write(m, base, report), base, |report|, stride) == Reported(report, 0, |report|, stride)
  {
    var r := Write(m, base, report);
    forall i | 0 <= i < Count(|report|, stride)
      ensures Reported(r, base, |report|, stride)[i] == Reported(report, 0, |report|, stride)[i]
    {
      var a := Offset(stride, i);
      OffsetFits(|report|, stride, i);
      assert r[base + a..base + a + DESCRIPTOR_SIZE] == report[a..a + DESCRIPTOR_SIZE];
      SameDescriptor(r, base + a, report, a);
    }
  }

  /** The report and the table lie in the buffer, which could be handed out. */
  lemma BufferSpares(m: seq<u8>, o: Owners, base: u64, size: u64, report: seq<u8>, r: seq<u8>, out: seq<Range>)
    requires |report| <= size && base + size <= |m| && forall a: nat :: base <= a < base + size ==> Loose(o, a)
    requires Updates(Write(m, base, report), r, base, out) && |out| * ENTRY_SIZE <= |report|
    ensures Spares(m, r, o)
  {
    hide Table, Loose;
  }

  /** The report alone lies in the buffer, too. */
  lemma ReportSpares(m: seq<u8>, o: Owners, base: u64, size: u64, report: seq<u8>)
    requires |report| <= size && base + size <= |m| && forall a: nat :: base <= a < base + size ==> Loose(o, a)
    ensures Spares(m, Write(m, base, report), o)
  {
    hide Updates, Spares, Write, Loose;
    NothingYet(Write(m, base, report), base, []);
    BufferSpares(m, o, base, size, report, Write(m, base, report), []);
  }

  /** What the firmware answers: to the calls that open the volume and the kernel file, to those that select a graphics
      mode, and to ExitBootServices, a status; to the first GetMemoryMap, which only asks for sizes, a status, the
      descriptor version, the size and the stride; to the second, its memory map. */
  datatype Answers = Answers(
    opening: Status, graphics: Status, exit: Status,
    first: Status, version: u32, firstSize: u64, stride: u64, report: seq<u8>)

  /** EFI_MEMORY_DESCRIPTOR_VERSION */
  const DESCRIPTOR_VERSION: u32 := 1

  /** The loader goes on after the first GetMemoryMap. */
  predicate Accepted(a: Answers) {
    a.first == BufferTooSmall && a.version == DESCRIPTOR_VERSION
  }

  /** The loader relies on the stride, and on the types of descriptors. */
  ghost predicate Sensible(a: Answers) {
    && a.stride >= DESCRIPTOR_SIZE && a.firstSize + 10 * a.stride < TWO_64
    && AllKnown(Reported(a.report, 0, |a.report|, a.stride))
  }

  /** The E820 entries the firmware's map becomes. */
  function Converted(a: Answers): seq<Range>
    requires Sensible(a)
  {
    Coalesce(Ranges(Reported(a.report, 0, |a.report|, a.stride)))
  }

  /** The table is the coalesced map of the descriptors that the report holds, whatever they are. */
  lemma ConvertedIs(a: Answers, m: seq<u8>, base: nat)
    requires Sensible(a) && Table(m, base, Converted(a))
    ensures forall ds :: MapHolds(a.report, 0, |a.report|, a.stride, ds) ==>
      |Converted(a)| == |Coalesce(Ranges(ds))| && TableHolds(m, base, Coalesce(Ranges(ds)))
  {
    hide MapHolds, TableHolds, Table, Reported, Coalesce, Ranges;
    TableIsHeld(m, base, Converted(a));
    forall ds | MapHolds(a.report, 0, |a.report|, a.stride, ds)
      ensures Reported(a.report, 0, |a.report|, a.stride) == ds
    {
      ReportedIs(a.report, 0, |a.report|, a.stride, ds);
    }
  }

  /** The coalesced table at `base`, and in terms of bytes: whatever descriptors the report holds, their coalesced
      entries are in memory. */
  ghost predicate TableIs(a: Answers, m: seq<u8>, base: nat, n: nat)
    requires Sensible(a)
  {
    && Table(m, base, Converted(a)) && n == |Converted(a)|
    && forall ds :: MapHolds(a.report, 0, |a.report|, a.stride, ds) ==>
      n == |Coalesce(Ranges(ds))| && TableHolds(m, base, Coalesce(Ranges(ds)))
  }

  /** GetMemoryMap into a pool buffer, ExitBootServices, then the conversion. The loader does not notice when there is
      no buffer, but the firmware refuses a null one. */
  method TakeMemoryMap(fw: Firmware, a: Answers, handoff: Handoff) returns (status: Status)
    requires fw.Valid() && handoff.memmapEntries == 0 && (Accepted(a) ==> Sensible(a))
    modifies fw`pages, fw`pool, fw`live, fw.ram, handoff
    ensures fw.Valid()
    ensures a.first != BufferTooSmall || a.version != 1 ==> status == InvalidParameter
    ensures a.first == BufferTooSmall && a.version == 1 && |a.report| > a.firstSize + 10 * a.stride ==>
      status == BufferTooSmall
    ensures a.first == BufferTooSmall && a.version == 1 && |a.report| <= a.firstSize + 10 * a.stride ==>
      && (status == a.exit || status == InvalidParameter)
      && (HasRun(old(fw.pages), SizeToPages(a.firstSize + 10 * a.stride)) ==> status == a.exit)
    ensures Spares(old(fw.ram[..]), fw.ram[..], old(fw.Current())) && Keeps(old(fw.Current()), fw.Current())
    ensures status.Success? ==>
      Accepted(a) && TableIs(a, fw.ram[..], handoff.memmap, handoff.memmapEntries)
  {
    hide Reported, Coalesce, Ranges, AllKnown, Table, Claim, Loose, SizeToPages, Write, HasRun, PoolStep, Keeps,
      PoolOwned, MapHolds, TableHolds;
    ghost var m := fw.ram[..];
    ghost var o := fw.Current();
    KeepsRefl(o);
    SparesRefl(m, o);
    if !Accepted(a) {
      return InvalidParameter;
    }
    var size := a.firstSize + 10 * a.stride;
    var base;
    base, status := fw.AllocatePool(EfiLoaderData, size);
    PoolStepKeeps(o, fw.Current(), EfiLoaderData, size);
    if |a.report| > size {
      return BufferTooSmall;
    }
    if !status.Success? {
      return InvalidParameter;
    }
    Store(fw.ram, base, a.report);
    if a.exit.Success? {
      ReportedElsewhere(m, base, a.report, a.stride);
      ConvertMemoryMap(fw.ram, base, |a.report|, a.stride, handoff);
      BufferSpares(m, o, base, size, a.report, fw.ram[..], Converted(a));
      ConvertedIs(a, fw.ram[..], base);
    } else {
      ReportSpares(m, o, base, size, a.report);
    }
    return a.exit;
  }

  lemma KeepsRefl(o: Owners)
    ensures Keeps(o, o)
  {
  }

  /** A block of pool memory and what goes into it. */
  datatype Block = Block(typ: u32, data: seq<u8>)

  predicate ProperBlock(b: Block) {
    b.typ != EfiConventionalMemory && 0 < |b.data| < TWO_64
  }

  lemma BlockSpares(m: seq<u8>, o: Owners, base: u64, data: seq<u8>)
    requires base + |data| <= |m| && forall a: nat :: base <= a < base + |data| ==> Loose(o, a)
    ensures Spares(m, Write(m, base, data), o)
  {
  }

  lemma SparesRefl(m: seq<u8>, o: Owners)
    ensures Spares(m, m, o)
  {
  }

  /** Memory that will be asked for: a piece of pool memory, or a page for a table. */
  datatype Need = PoolPiece(typ: u32, size: u64) | TablePage

  /** All of it can be had, whatever is handed out each time. */
  ghost predicate Roomy(o: Owners, needs: seq<Need>)
    decreases |needs|
  {
    needs == [] ||
    match needs[0]
    case PoolPiece(typ, size) =>
      HasRun(o.pages, SizeToPages(size)) && forall after :: PoolStep(o, after, typ, size) ==> Roomy(after, needs[1..])
    case TablePage =>
      HasRun(o.pages, 1) && forall p: u64 :: CanClaim(o.pages, p, 1) ==> Roomy(WithTable(o, p), needs[1..])
  }

  function BlockNeeds(blocks: seq<Block>): seq<Need>
    requires forall i :: 0 <= i < |blocks| ==> ProperBlock(blocks[i])
  {
    if blocks == [] then []
    else
      assert ProperBlock(blocks[0]);
      [PoolPiece(blocks[0].typ, |blocks[0].data|)] + BlockNeeds(blocks[1..])
  }

  lemma RoomForBlock(o: Owners, blocks: seq<Block>, i: nat, rest: seq<Need>)
    requires i < |blocks| && forall k :: 0 <= k < |blocks| ==> ProperBlock(blocks[k])
    requires Roomy(o, BlockNeeds(blocks[i..]) + rest)
    ensures var b := blocks[i];
      && HasRun(o.pages, SizeToPages(|b.data|))
      && forall after :: PoolStep(o, after, b.typ, |b.data|) ==> Roomy(after, BlockNeeds(blocks[i + 1..]) + rest)
  {
    hide HasRun, SizeToPages, PoolStep;
    var needs := BlockNeeds(blocks[i..]) + rest;
    assert blocks[i..][1..] == blocks[i + 1..];
    assert needs[1..] == BlockNeeds(blocks[i + 1..]) + rest;
  }

  lemma NoBlockNeeds(rest: seq<Need>)
    ensures BlockNeeds([]) + rest == rest
  {
  }

  /** The data are in memory, in a piece of the pool that is in use. */
  ghost predicate BlockAt(m: seq<u8>, o: Owners, base: nat, data: seq<u8>) {
    && base + |data| <= |m| && m[base..base + |data|] == data
    && forall a: nat :: base <= a < base + |data| ==> a in o.live
  }

  /** They stay there. */
  lemma BlockKept(m: seq<u8>, o: Owners, base: nat, data: seq<u8>, r: seq<u8>, after: Owners)
    requires BlockAt(m, o, base, data) && PoolOwned(o) && Spares(m, r, o) && Keeps(o, after)
    ensures BlockAt(r, after, base, data)
  {
    forall a: nat | base <= a < base + |data| ensures r[a] == m[a] {
      assert a in o.live && a / PAGE in o.pool && Owned(o.pages, a / PAGE);
    }
  }

  /** The page-table edits leave them alone. */
  lemma BlockNotEdited(m: seq<u8>, o: Owners, base: nat, data: seq<u8>, cr3: u64, pdpt: u64, e: seq<u8>)
    requires BlockAt(m, o, base, data) && PoolOwned(o) && EditedTo(m, e, cr3, pdpt)
    requires CanClaim(o.pages, pdpt, 1) && Fixed(o, cr3 / PAGE)
    ensures BlockAt(e, WithTable(o, pdpt), base, data)
  {
    hide U64, Masked, NewEntry;
    assert Free(o.pages, pdpt / PAGE);
    forall a: nat | base <= a < base + |data| ensures e[a] == m[a] {
      assert a in o.live && a / PAGE in o.pool && Owned(o.pages, a / PAGE);
      assert a / PAGE != pdpt / PAGE && a / PAGE != cr3 / PAGE;
    }
  }

  lemma BlockStored(m: seq<u8>, o: Owners, base: nat, data: seq<u8>)
    requires base + |data| <= |m| && forall a: nat :: base <= a < base + |data| ==> a in o.live
    ensures BlockAt(Write(m, base, data), o, base, data)
  {
  }

  /** The blocks are in memory, each at its base. */
  ghost predicate BlocksAt(m: seq<u8>, o: Owners, bases: seq<u64>, blocks: seq<Block>) {
    |bases| <= |blocks| && forall i :: 0 <= i < |bases| ==> BlockAt(m, o, bases[i], blocks[i].data)
  }

  lemma BlocksKept(m: seq<u8>, o: Owners, bases: seq<u64>, blocks: seq<Block>, r: seq<u8>, after: Owners)
    requires BlocksAt(m, o, bases, blocks) && PoolOwned(o) && Spares(m, r, o) && Keeps(o, after)
    ensures BlocksAt(r, after, bases, blocks)
  {
    hide BlockAt, PoolOwned, Spares, Keeps;
    forall i | 0 <= i < |bases| ensures BlockAt(r, after, bases[i], blocks[i].data) {
      BlockKept(m, o, bases[i], blocks[i].data, r, after);
    }
  }

  lemma BlocksArrive(m: seq<u8>, o: Owners, bases: seq<u64>, blocks: seq<Block>, cr3: u64, pdpt: u64, e: seq<u8>,
                     r: seq<u8>, after: Owners)
    requires BlocksAt(m, o, bases, blocks) && PoolOwned(o) && EditedTo(m, e, cr3, pdpt)
    requires CanClaim(o.pages, pdpt, 1) && Fixed(o, cr3 / PAGE)
    requires Spares(e, r, WithTable(o, pdpt)) && Keeps(WithTable(o, pdpt), after)
    ensures BlocksAt(r, after, bases, blocks)
  {
    hide BlockAt, PoolOwned, Spares, Keeps, EditedTo, CanClaim, Fixed, WithTable;
    WithTableFixes(o, pdpt);
    forall i | 0 <= i < |bases| ensures BlockAt(r, after, bases[i], blocks[i].data) {
      BlockNotEdited(m, o, bases[i], blocks[i].data, cr3, pdpt, e);
      BlockKept(e, WithTable(o, pdpt), bases[i], blocks[i].data, r, after);
    }
  }

  /** The pool blocks that are filled between loading the image and editing the tables: the handoff structure, the
      framebuffer description, the copy of the ACPI root pointer. */
  method FillBlocks(fw: Firmware, blocks: seq<Block>) returns (status: Status, bases: seq<u64>)
    requires fw.Valid() && forall i :: 0 <= i < |blocks| ==> ProperBlock(blocks[i])
    modifies fw`pages, fw`pool, fw`live, fw.ram
    ensures fw.Valid()
    ensures Spares(old(fw.ram[..]), fw.ram[..], old(fw.Current())) && Keeps(old(fw.Current()), fw.Current())
    ensures status.Success? ==> |bases| == |blocks| && BlocksAt(fw.ram[..], fw.Current(), bases, blocks)
    ensures forall rest :: Roomy(old(fw.Current()), BlockNeeds(blocks) + rest) ==>
      status.Success? && Roomy(fw.Current(), rest)
  {
    hide Write, HasRun, PoolStep, Keeps, PoolOwned, Spares, SizeToPages, Loose, Roomy, BlockNeeds, BlockAt, BlocksAt;
    ghost var m := fw.ram[..];
    ghost var o := fw.Current();
    KeepsRefl(o);
    SparesRefl(m, o);
    status, bases := Success, [];
    NoBlocks(m, o, blocks);
    assert blocks[0..] == blocks;
    var i := 0;
    while i < |blocks|
      invariant i == |bases| <= |blocks| && fw.Valid() && status.Success?
      invariant Spares(m, fw.ram[..], o) && Keeps(o, fw.Current())
      invariant BlocksAt(fw.ram[..], fw.Current(), bases, blocks)
      invariant forall rest :: Roomy(o, BlockNeeds(blocks) + rest) ==>
        Roomy(fw.Current(), BlockNeeds(blocks[i..]) + rest)
    {
      ghost var u := fw.ram[..];
      ghost var mid := fw.Current();
      assert PoolOwned(mid);
      var base;
      base, status := fw.AllocatePool(blocks[i].typ, |blocks[i].data|);
      forall rest | Roomy(mid, BlockNeeds(blocks[i..]) + rest)
        ensures status.Success? && Roomy(fw.Current(), BlockNeeds(blocks[i + 1..]) + rest)
      {
        RoomForBlock(mid, blocks, i, rest);
      }
      PoolStepKeeps(mid, fw.Current(), blocks[i].typ, |blocks[i].data|);
      KeepsTrans(o, mid, fw.Current());
      if !status.Success? {
        return;
      }
      Store(fw.ram, base, blocks[i].data);
      NextBlock(u, mid, bases, blocks, base, fw.Current());
      SparesTrans(m, u, fw.ram[..], o, mid);
      i, bases := i + 1, bases + [base];
    }
    assert blocks[i..] == [];
    forall rest | Roomy(o, BlockNeeds(blocks) + rest) ensures Roomy(fw.Current(), rest) {
      NoBlockNeeds(rest);
    }
  }

  lemma NoBlocks(m: seq<u8>, o: Owners, blocks: seq<Block>)
    ensures BlocksAt(m, o, [], blocks)
  {
  }

  /** One more block. */
  lemma NextBlock(m: seq<u8>, o: Owners, bases: seq<u64>, blocks: seq<Block>, base: u64, after: Owners)
    requires BlocksAt(m, o, bases, blocks) && |bases| < |blocks| && PoolOwned(o) && Keeps(o, after)
    requires var data := blocks[|bases|].data;
      base + |data| <= |m| && forall a: nat :: base <= a < base + |data| ==> Loose(o, a) && a in after.live
    ensures var r := Write(m, base, blocks[|bases|].data);
      Spares(m, r, o) && BlocksAt(r, after, bases + [base], blocks)
  {
    hide BlockAt, PoolOwned, Keeps, Loose, Write;
    var data := blocks[|bases|].data;
    BlockSpares(m, o, base, data);
    BlockStored(m, after, base, data);
    hide Spares;
    BlocksKept(m, o, bases, blocks, Write(m, base, data), after);
  }

  // ---------------------------------------------------------------------------
  // The whole path
  // ---------------------------------------------------------------------------

  lemma IdentityFacts(m: seq<u8>, o: Owners, cr3: u64)
    requires IdentityMapped(m, o, cr3)
    ensures |m| <= PHYSICAL_LIMIT && cr3 % PAGE == 0 && cr3 + PAGE <= |m| && Fixed(o, cr3 / PAGE)
    ensures Fixed(o, Masked(U64(m, cr3)) / PAGE)
  {
  }

  /** The states of a successful run: `s` and `before` at the start; `t` after LoadElf; `u` and `o` after other writes
      to memory that could be handed out; then the edits, which take page `pdpt` and leave memory `e`; then `r`, which
      differs from `e` only in memory that could still be handed out. */
  datatype Run = Run(
    s: Load, before: Owners, t: Load, u: seq<u8>, o: Owners, cr3: u64, pdpt: u64, e: seq<u8>, r: seq<u8>)

  function AfterLoad(run: Run): Owners {
    run.before.(pages := run.t.pages)
  }

  /** The steps after the image is loaded, from memory `m` and owners `before` on. */
  ghost predicate Handed(m: seq<u8>, before: Owners, u: seq<u8>, o: Owners, cr3: u64, pdpt: u64, e: seq<u8>,
                         r: seq<u8>)
  {
    && Spares(m, u, before) && Keeps(before, o) && PoolOwned(o)
    && EditedTo(u, e, cr3, pdpt) && CanClaim(o.pages, pdpt, 1) && Spares(e, r, WithTable(o, pdpt))
  }

  ghost predicate Steps(f: File, h: Ehdr, run: Run) {
    && Backed(run.s.mem, run.s.pages) && run.before.pages == run.s.pages && PoolOwned(run.before) && run.s.top == 0
    && run.cr3 % PAGE == 0 && Fixed(run.before, run.cr3 / PAGE)
    && run.t == Loaded(f, h, EfiMemoryMappedIOPortSpace, h.phnum, run.s) && run.t.status.Success?
    && Handed(run.t.mem, AfterLoad(run), run.u, run.o, run.cr3, run.pdpt, run.e, run.r)
  }

  /** From the start to the edits. */
  lemma UntilEdits(f: File, h: Ehdr, run: Run)
    requires Steps(f, h, run)
    ensures var t := AfterLoad(run);
      && Spares(run.s.mem, run.t.mem, run.before) && Keeps(run.before, t) && PoolOwned(t)
      && Spares(run.t.mem, run.u, t) && Keeps(t, run.o)
  {
    hide Loaded, EditedTo, Spares, Keeps, PoolOwned, CanClaim, Fixed;
    LoadedExtends(f, h, EfiMemoryMappedIOPortSpace, h.phnum, run.s);
    ExtendsSpares(run.s, run.t, EfiMemoryMappedIOPortSpace, run.before);
  }

  lemma ByteArrives(f: File, h: Ehdr, i: nat, j: nat, run: Run)
    requires Steps(f, h, run)
    requires i < h.phnum && Segment(f, h, i).Some? && j < Segment(f, h, i).value.memsz
    ensures var ph := Segment(f, h, i).value;
      && ByteInPlace(f, ph, j, run.r)
      && FixedAs(WithTable(run.o, run.pdpt), (Relocate(ph.vaddr) + j) / PAGE, EfiMemoryMappedIOPortSpace)
  {
    hide Loaded, Segment, Relocate, ImageByte, EditedTo, CanClaim, WithTable;
    var x := Relocate(Segment(f, h, i).value.vaddr) + j;
    ByteLoaded(f, h, i, j, run.s, run.t);
    ByteWasFree(f, h, i, j, run.s, run.t);
    ByteNotHandedOut(run.before, run.t, x / PAGE);
    ByteKept(run.t.mem, run.u, AfterLoad(run), run.o, x, EfiMemoryMappedIOPortSpace);
    ByteSurvives(run.u, run.o, x, run.cr3, run.pdpt, run.e, run.r);
  }

  /** End to end: if the machine was identity mapped at the start, every byte of every segment is in memory, and is
      read at the address it is linked for. */
  lemma Arrival(f: File, h: Ehdr, run: Run)
    requires Steps(f, h, run) && IdentityMapped(run.s.mem, run.before, run.cr3)
    ensures Windows(run.r, run.cr3) && KernelReadable(f, h, run.r, run.cr3)
  {
    hide Loaded, Segment, ByteReadable, EditedTo, IdentityMapped, ImageByte, Windows, Spares, Keeps, CanClaim,
      WithTable, ByteInPlace;
    UntilEdits(f, h, run);
    var t := AfterLoad(run);
    IdentityKept(run.s.mem, run.before, run.cr3, run.t.mem, t);
    IdentityKept(run.t.mem, t, run.cr3, run.u, run.o);
    IdentityFacts(run.u, run.o, run.cr3);
    WindowsOpen(run.u, run.o, run.cr3, run.pdpt, run.e, run.r);
    forall i, j | 0 <= i < h.phnum && Segment(f, h, i).Some? && 0 <= j < Segment(f, h, i).value.memsz
      ensures ByteReadable(f, Segment(f, h, i).value, j, run.r, run.cr3)
    {
      ByteArrives(f, h, i, j, run);
      LinkedAddress(f, Segment(f, h, i).value, j, run.r, run.cr3);
    }
  }

  /** End to end: any other address leads where it did before the kernel was loaded, if the firmware owned the tables
      that lead there; and the rest of the top 512 GiB is unmapped. */
  lemma RestArrives(f: File, h: Ehdr, run: Run)
    requires Steps(f, h, run)
    ensures run.cr3 + PAGE <= |run.s.mem| && RestAsBefore(run.s.mem, run.before, run.r, run.cr3)
  {
    hide Loaded, EditedTo, Spares, Keeps, CanClaim, WithTable, TablesFixed, Walk, RootIndex;
    UntilEdits(f, h, run);
    RootInMemory(f, h, run);
    forall va: u64 | RootIndex(va) != 256 && RootIndex(va) != 511 && TablesFixed(run.s.mem, run.before, run.cr3, va)
      ensures Walk(run.r, run.cr3, va) == Walk(run.s.mem, run.cr3, va)
    {
      OtherArrives(f, h, run, va);
    }
    forall va: u64 | Paging.Canonical(va) && RootIndex(va) == 511 && va < KERNEL
      ensures Walk(run.r, run.cr3, va) == NotPresent
    {
      TopArrives(run.u, run.o, run.cr3, run.pdpt, run.e, run.r, va);
    }
  }

  lemma RootInMemory(f: File, h: Ehdr, run: Run)
    requires Steps(f, h, run)
    ensures run.cr3 + PAGE <= |run.s.mem| == |run.t.mem| == |run.u| == |run.e| && Fixed(run.o, run.cr3 / PAGE)
  {
    hide Loaded, CanClaim;
    UntilEdits(f, h, run);
  }

  lemma OtherArrives(f: File, h: Ehdr, run: Run, va: u64)
    requires Steps(f, h, run) && run.cr3 + PAGE <= |run.s.mem|
    requires RootIndex(va) != 256 && RootIndex(va) != 511 && TablesFixed(run.s.mem, run.before, run.cr3, va)
    ensures Walk(run.r, run.cr3, va) == Walk(run.s.mem, run.cr3, va)
  {
    hide Loaded, EditedTo, Spares, Keeps, CanClaim, WithTable, LowerTables, Walk, RootIndex, Fixed;
    UntilEdits(f, h, run);
    RootInMemory(f, h, run);
    var t, after := AfterLoad(run), WithTable(run.o, run.pdpt);
    WalkKeeps(run.s.mem, run.before, run.cr3, va, run.t.mem, t);
    WalkKeeps(run.t.mem, t, run.cr3, va, run.u, run.o);
    TableIsNew(run.u, run.o, run.cr3, run.pdpt, va);
    ElsewhereUnchanged(run.u, run.e, run.cr3, run.pdpt, va);
    WithTableFixes(run.o, run.pdpt);
    KeepsFixed(run.o, after);
    WalkSpared(run.e, run.r, after, run.cr3, va);
  }

  lemma KeepsFixed(o: Owners, after: Owners)
    requires Keeps(o, after)
    ensures forall p :: Fixed(o, p) ==> Fixed(after, p)
  {
  }

  lemma TopArrives(m: seq<u8>, o: Owners, cr3: u64, pdpt: u64, e: seq<u8>, r: seq<u8>, va: u64)
    requires EditedTo(m, e, cr3, pdpt) && PoolOwned(o) && CanClaim(o.pages, pdpt, 1) && Spares(e, r, WithTable(o, pdpt))
    requires cr3 % PAGE == 0 && cr3 + PAGE <= |e| && Fixed(o, cr3 / PAGE)
    requires Paging.Canonical(va) && RootIndex(va) == 511 && va < KERNEL
    ensures Walk(r, cr3, va) == NotPresent
  {
    hide EditedTo, CanClaim, WithTable, LowerTables, Walk, RootIndex, Fixed, Spares, Paging.Canonical;
    WithTableFixes(o, pdpt);
    KeepsFixed(o, WithTable(o, pdpt));
    TopOtherwiseUnmapped(m, e, cr3, pdpt, va);
    WalkSpared(e, r, WithTable(o, pdpt), cr3, va);
  }

  /** End to end: if the firmware's final map is right about the pages, the E820 table reserves the whole image. */
  lemma ReservedArrival(f: File, h: Ehdr, run: Run, pages: PageMap, ds: seq<Descriptor>)
    requires Steps(f, h, run)
    requires var after := WithTable(run.o, run.pdpt);
      forall p :: Fixed(after, p) ==> p in pages && pages[p] == after.pages[p]
    requires Convertible(ds) && Describes(ds, pages)
    ensures KernelReserved(f, h, Coalesce(Ranges(ds)))
  {
    hide Steps, Segment, Relocate, Coalesce, Ranges, Describes, Covers, ImageByte, WithTable, Convertible, ByteInPlace;
    KnownTypes(ds);
    forall i, j | 0 <= i < h.phnum && Segment(f, h, i).Some? && 0 <= j < Segment(f, h, i).value.memsz
      ensures ByteReserved(Segment(f, h, i).value, j, Coalesce(Ranges(ds)))
    {
      var x := Relocate(Segment(f, h, i).value.vaddr) + j;
      ByteArrives(f, h, i, j, run);
      assert Fixed(WithTable(run.o, run.pdpt), x / PAGE);
      forall t ensures Covers(Coalesce(Ranges(ds)), x, t) <==> t == RESERVED_KERN {
        PageTypeDecides(ds, pages, x, t);
      }
    }
  }

  lemma KnownTypes(ds: seq<Descriptor>)
    requires Convertible(ds)
    ensures AllKnown(ds)
  {
  }

  /** ".origamihdr" */
  const HEADER_SECTION: seq<u8> := [0x2e, 0x6f, 0x72, 0x69, 0x67, 0x61, 0x6d, 0x69, 0x68, 0x64, 0x72]
  /** sizeof(struct ORIGAMI_HEADER), packed: entry point, stack, flags. */
  const HEADER_SIZE: nat := 17

  /** struct ORIGAMI_HEADER as C lays it out, packed. */
  function HeaderBytes(entry: u64, stack: u64, flags: u8): seq<u8> {
    Bytes64(entry) + Bytes64(stack) + [flags]
  }

  lemma HeaderRoundTrip(entry: u64, stack: u64, flags: u8)
    ensures |HeaderBytes(entry, stack, flags)| == HEADER_SIZE && U64(HeaderBytes(entry, stack, flags), 0) == entry
  {
    hide Digits, LittleEndian, Pow256;
    WordSizes();
    FieldIs(HeaderBytes(entry, stack, flags), 0, entry, 8);
  }

  lemma HeaderName()
    ensures |HEADER_SECTION| == 11 && forall k :: 0 <= k < 11 ==> HEADER_SECTION[k] == ".origamihdr"[k] as int
  {
  }

  /** Where the kernel is entered: at the address in its Origami header, or else in its ELF header. */
  ghost predicate EntersAt(f: File, h: Ehdr, limit: nat, entry: u64) {
    exists i :: Delivers(f, h, i, HEADER_SECTION, limit) && SectionAt(f, h, i).size == HEADER_SIZE &&
      var own := U64(FileRead(f, SectionAt(f, h, i).offset, HEADER_SIZE).data, 0);
      entry == if own != 0 then own else h.entry
  }

  /** For a file that is written out: the entry point is the one in the first section of that name, unless it is 0; then
      it is the one in the ELF header. */
  lemma EntersWritten(f: File, h: Ehdr, shs: seq<Shdr>, i: nat, limit: nat, entry: u64,
                      own: u64, stack: u64, flags: u8)
    requires SectionsHold(f, h, shs) && Complete(f, shs[h.shstrndx], limit)
    requires FirstWritten(NameTable(f, h, shs), shs, i, HEADER_SECTION) && Complete(f, shs[i], limit)
    requires f.bytes[shs[i].offset..shs[i].offset + shs[i].size] == HeaderBytes(own, stack, flags)
    requires EntersAt(f, h, limit, entry)
    ensures entry == if own != 0 then own else h.entry
  {
    assert i < |shs|;
    hide SectionsHold, NameTable, NameAt, FirstWritten, HeaderBytes, SectionAt, U64, Delivers, FileRead, EntersAt;
    HeaderRoundTrip(own, stack, flags);
    forall k | Delivers(f, h, k, HEADER_SECTION, limit) ensures k == i {
      FirstDelivered(f, h, shs, i, k, limit);
    }
    SectionIs(f, h, shs, i, limit);
    EntersOnly(f, h, i, limit, entry);
  }

  lemma EntersOnly(f: File, h: Ehdr, i: nat, limit: nat, entry: u64)
    requires EntersAt(f, h, limit, entry) && forall k :: Delivers(f, h, k, HEADER_SECTION, limit) ==> k == i
    ensures ShdrRead(f, h, i).status.Success? && SectionAt(f, h, i).size == HEADER_SIZE
    ensures |FileRead(f, SectionAt(f, h, i).offset, HEADER_SIZE).data| == HEADER_SIZE
    ensures var own := U64(FileRead(f, SectionAt(f, h, i).offset, HEADER_SIZE).data, 0);
      entry == if own != 0 then own else h.entry
  {
    hide FileRead, U64, NamesReadable, FirstNamed;
    FirstIsRead(f, h, i, limit);
  }

  lemma FirstIsRead(f: File, h: Ehdr, i: nat, limit: nat)
    ensures Delivers(f, h, i, HEADER_SECTION, limit) ==>
      && ShdrRead(f, h, i).status.Success?
      && |FileRead(f, SectionAt(f, h, i).offset, SectionAt(f, h, i).size).data| == SectionAt(f, h, i).size
  {
  }

  lemma SectionIs(f: File, h: Ehdr, shs: seq<Shdr>, i: nat, limit: nat)
    requires SectionsHold(f, h, shs) && i < |shs| && Complete(f, shs[i], limit)
    ensures ShdrRead(f, h, i).status.Success? && SectionAt(f, h, i) == shs[i]
    ensures FileRead(f, shs[i].offset, shs[i].size).data == f.bytes[shs[i].offset..shs[i].offset + shs[i].size]
  {
    SectionsWritten(f, h, shs);
    assert |f.bytes| < TWO_64;
    hide SectionsHold, ShdrRead, FileRead;
    ReadableExactly(f, shs[i], limit);
  }

  lemma FirstDelivered(f: File, h: Ehdr, shs: seq<Shdr>, i: nat, k: nat, limit: nat)
    requires SectionsHold(f, h, shs) && Complete(f, shs[h.shstrndx], limit)
    requires FirstWritten(NameTable(f, h, shs), shs, i, HEADER_SECTION) && Delivers(f, h, k, HEADER_SECTION, limit)
    ensures k == i
  {
    assert h.shstrndx < |shs| && Unbroken(f, shs[h.shstrndx].offset, shs[h.shstrndx].size);
    hide SectionsHold, NameTable, Complete, Delivers, Fetchable, FirstWritten;
    DeliversWritten(f, h, shs, k, HEADER_SECTION, limit);
    FirstIsUnique(NameTable(f, h, shs), shs, i, k, HEADER_SECTION);
  }

  lemma FirstIsUnique(names: seq<u8>, shs: seq<Shdr>, i: nat, k: nat, name: seq<u8>)
    requires FirstWritten(names, shs, i, name) && FirstWritten(names, shs, k, name)
    ensures k == i
  {
    hide NameAt;
  }

  /** The file has an Origami header, which can be loaded. */
  ghost predicate HasHeader(f: File, limit: nat)
    ensures HasHeader(f, limit) ==> HeaderStatus(f).Success?
  {
    HeaderStatus(f).Success? &&
    exists i :: Delivers(f, Header(f), i, HEADER_SECTION, limit) && SectionAt(f, Header(f), i).size == HEADER_SIZE
  }

  /** What loading the image makes of memory. */
  function ImageLoad(f: File, mem: seq<u8>, pages: PageMap): (r: Load)
    requires Backed(mem, pages) && HeaderStatus(f).Success?
    ensures |r.mem| == |mem| && Backed(r.mem, r.pages)
  {
    LoadElfResult(f, EfiMemoryMappedIOPortSpace, mem, pages)
  }

  /** The Origami header and the image can both be loaded. */
  ghost predicate KernelLoads(f: File, limit: nat, mem: seq<u8>, pages: PageMap)
    requires Backed(mem, pages)
    ensures KernelLoads(f, limit, mem, pages) ==> HeaderStatus(f).Success?
  {
    HasHeader(f, limit) && ImageLoad(f, mem, pages).status.Success?
  }

  /** What the loader takes for granted about the file: the section names it reads lie in their table, and no segment
      is written beyond the pages it gets. */
  ghost predicate Trusted(f: File, limit: nat, mem: seq<u8>, pages: PageMap)
    requires Backed(mem, pages)
  {
    && (HeaderStatus(f).Success? ==> NamesInTable(f, Header(f), HEADER_SECTION, limit))
    && (HasHeader(f, limit) ==> ImageLoad(f, mem, pages).status != Undefined)
  }

  /** Loading the Origami header and then the image. It succeeds exactly when both can be loaded. */
  method LoadKernel(f: File, pool: Pool, out: SectionOut, info: ElfInfo, fw: Firmware) returns (status: Status)
    requires fw.Valid() && pool.Valid() && Trusted(f, pool.limit, fw.ram[..], fw.pages)
    modifies fw`pages, fw.ram, info, pool, out
    ensures fw.Valid() && pool.Valid()
    ensures status.Success? <==> KernelLoads(f, pool.limit, old(fw.ram[..]), old(fw.pages))
    ensures HasHeader(f, pool.limit) ==> status == ImageLoad(f, old(fw.ram[..]), old(fw.pages)).status
    ensures status.Success? ==>
      && Load(fw.ram[..], fw.pages, info.top, status) == ImageLoad(f, old(fw.ram[..]), old(fw.pages))
      && EntersAt(f, Header(f), pool.limit, info.entryPoint)
  {
    hide HeaderStatus, Header, NamesInTable, Delivers, LoadElfResult, NamesAllocated, FileRead, SectionAt, U64;
    status := LoadSection(f, pool, out, HEADER_SECTION);
    if !status.Success? {
      return;
    }
    ghost var i :| Delivers(f, Header(f), i, HEADER_SECTION, pool.limit);
    DeliveredBytes(f, Header(f), i, HEADER_SECTION, pool.limit);
    if out.size != HEADER_SIZE {
      return InvalidParameter;
    }
    assert HasHeader(f, pool.limit);
    var header := pool.buffers[out.buffer];
    status := LoadElf(f, info, EfiMemoryMappedIOPortSpace, fw);
    ghost var mem := fw.ram[..];
    if status.Success? && U64(header, 0) != 0 {
      info.entryPoint := U64(header, 0);
    }
    assert fw.ram[..] == mem;
  }

  lemma DeliveredBytes(f: File, h: Ehdr, i: nat, name: seq<u8>, limit: nat)
    requires Delivers(f, h, i, name, limit)
    ensures ShdrRead(f, h, i).status.Success?
    ensures |FileRead(f, SectionAt(f, h, i).offset, SectionAt(f, h, i).size).data| == SectionAt(f, h, i).size
    ensures forall k :: Delivers(f, h, k, name, limit) ==> k == i
  {
  }

  /** The memory that is still needed when the tables are edited. */
  function LateNeeds(a: Answers): seq<Need>
    requires Accepted(a) ==> a.firstSize + 10 * a.stride < TWO_64
  {
    [TablePage] + if Accepted(a) then [PoolPiece(EfiLoaderData, a.firstSize + 10 * a.stride)] else []
  }

  /** The memory the path needs after the image is loaded. */
  function Needs(a: Answers, blocks: seq<Block>): seq<Need>
    requires Accepted(a) ==> a.firstSize + 10 * a.stride < TWO_64
    requires forall i :: 0 <= i < |blocks| ==> ProperBlock(blocks[i])
  {
    BlockNeeds(blocks) + LateNeeds(a)
  }

  /** All of it can be had. */
  ghost predicate RoomFor(f: File, mem: seq<u8>, o: Owners, a: Answers, blocks: seq<Block>)
    requires Backed(mem, o.pages) && HeaderStatus(f).Success?
    requires Accepted(a) ==> a.firstSize + 10 * a.stride < TWO_64
    requires forall i :: 0 <= i < |blocks| ==> ProperBlock(blocks[i])
  {
    Roomy(o.(pages := ImageLoad(f, mem, o.pages).pages), Needs(a, blocks))
  }

  /** How TakeMemoryMap ends when there is a buffer. */
  ghost predicate MapOutcome(a: Answers, status: Status) {
    if a.first != BufferTooSmall || a.version != 1 then status == InvalidParameter
    else if |a.report| > a.firstSize + 10 * a.stride then status == BufferTooSmall
    else status == a.exit
  }

  /** The path after the image is loaded: the pool blocks, the page tables, the memory map. `blocks` are the pool blocks
      the loader fills on the way; it does not notice when one cannot be had, and the model stops there. */
  method PrepareHandoff(fw: Firmware, cr3: u64, a: Answers, blocks: seq<Block>, handoff: Handoff)
    returns (status: Status, pdpt: u64, bases: seq<u64>, ghost u: seq<u8>, ghost o: Owners, ghost e: seq<u8>)
    requires fw.Valid() && IdentityMapped(fw.ram[..], fw.Current(), cr3)
    requires handoff.memmapEntries == 0 && (Accepted(a) ==> Sensible(a))
    requires forall i :: 0 <= i < |blocks| ==> ProperBlock(blocks[i])
    modifies fw`pages, fw`pool, fw`live, fw.ram, handoff
    ensures fw.Valid()
    ensures status.Success? ==>
      Accepted(a) && MapOutcome(a, Success) && TableIs(a, fw.ram[..], handoff.memmap, handoff.memmapEntries)
    ensures Roomy(old(fw.Current()), Needs(a, blocks)) ==> MapOutcome(a, status)
    ensures status.Success? && (pdpt != 0 || Roomy(old(fw.Current()), Needs(a, blocks))) ==>
      && Handed(old(fw.ram[..]), old(fw.Current()), u, o, cr3, pdpt, e, fw.ram[..])
      && Keeps(WithTable(o, pdpt), fw.Current())
      && |bases| == |blocks| && BlocksAt(fw.ram[..], fw.Current(), bases, blocks)
  {
    hide IdentityMapped, Reported, AllKnown, Coalesce, Ranges, EditedTo, Edited, Spares, Keeps, PoolOwned, Fixed, Table,
      CanClaim, Claim, HasRun, SizeToPages, Storable, Roomy, BlockNeeds, WithTable, ProperBlock, LateNeeds, BlocksAt,
      TableIs;
    ghost var m := fw.ram[..];
    ghost var loaded := fw.Current();
    pdpt, e := 0, [];
    status, bases := FillBlocks(fw, blocks);
    u, o := fw.ram[..], fw.Current();
    if !status.Success? {
      return;
    }
    assert PoolOwned(o);
    IdentityKept(m, loaded, cr3, u, o);
    IdentityFacts(u, o, cr3);
    pdpt := PrepareHigherHalf(fw, cr3);
    e := fw.ram[..];
    WithTableIs(o, pdpt);
    if Roomy(loaded, Needs(a, blocks)) {
      RoomForTable(o, pdpt, a);
    }
    status := TakeMemoryMap(fw, a, handoff);
    if HasRun(o.pages, 1) {
      BlocksArrive(u, o, bases, blocks, cr3, pdpt, e, fw.ram[..], fw.Current());
    }
  }

  lemma WithTableIs(o: Owners, pdpt: u64)
    ensures WithTable(o, pdpt) == o.(pages := Claim(o.pages, pdpt / PAGE, 1, EfiReservedMemoryType))
  {
  }

  /** The whole path from the kernel file to the jump, for a machine whose low memory is identity mapped by the
      firmware.

      The path succeeds only when every call it checks does; and when there is room for all the memory it asks for, it
      does succeed then. When there is no page for the new table the loader does not notice; `pdpt`, the table's
      address, is 0 then. `bases` are where the pool blocks lie. */
  method LoadOrigamiKernel(f: File, fw: Firmware, pool: Pool, cr3: u64, a: Answers, blocks: seq<Block>,
                           out: SectionOut, info: ElfInfo, handoff: Handoff)
    returns (status: Status, pdpt: u64, bases: seq<u64>)
    requires fw.Valid() && pool.Valid() && IdentityMapped(fw.ram[..], fw.Current(), cr3)
    requires Trusted(f, pool.limit, fw.ram[..], fw.pages)
    requires handoff.memmapEntries == 0 && (Accepted(a) ==> Sensible(a))
    requires forall i :: 0 <= i < |blocks| ==> ProperBlock(blocks[i])
    modifies fw`pages, fw`pool, fw`live, fw.ram, pool, out, info, handoff
    ensures fw.Valid() && pool.Valid()
    // When it succeeds, and when not.
    ensures status.Success? ==>
      && KernelLoads(f, pool.limit, old(fw.ram[..]), old(fw.pages)) && a.opening.Success? && a.graphics.Success?
      && a.first == BufferTooSmall && a.version == 1 && |a.report| <= a.firstSize + 10 * a.stride && a.exit.Success?
    ensures !a.opening.Success? ==> status == a.opening
    ensures a.opening.Success? && HasHeader(f, pool.limit) ==>
      var loading := ImageLoad(f, old(fw.ram[..]), old(fw.pages)).status; !loading.Success? ==> status == loading
    ensures a.opening.Success? && KernelLoads(f, pool.limit, old(fw.ram[..]), old(fw.pages)) ==>
      && (!a.graphics.Success? ==> status == a.graphics)
      && (a.graphics.Success? && RoomFor(f, old(fw.ram[..]), old(fw.Current()), a, blocks) ==>
            && (a.first != BufferTooSmall || a.version != 1 ==> status == InvalidParameter)
            && (a.first == BufferTooSmall && a.version == 1 ==>
                  status == if |a.report| > a.firstSize + 10 * a.stride then BufferTooSmall else a.exit))
    // The entry point, the top of the image, and the E820 table.
    ensures status.Success? ==>
      && EntersAt(f, Header(f), pool.limit, info.entryPoint) && LeastTop(f, Header(f), Header(f).phnum, info.top)
      && TableIs(a, fw.ram[..], handoff.memmap, handoff.memmapEntries)
    // The address space, the image and the pool blocks.
    ensures status.Success? && (pdpt != 0 || RoomFor(f, old(fw.ram[..]), old(fw.Current()), a, blocks)) ==>
      && KernelReadable(f, Header(f), fw.ram[..], cr3) && Windows(fw.ram[..], cr3)
      && RestAsBefore(old(fw.ram[..]), old(fw.Current()), fw.ram[..], cr3)
      && ReservesKernel(f, Header(f), a, fw.pages)
      && |bases| == |blocks| && BlocksAt(fw.ram[..], fw.Current(), bases, blocks)
  {
    hide IdentityMapped, Trusted, Reported, AllKnown, Coalesce, Ranges, EditedTo, Spares, Keeps, PoolOwned, Fixed,
      HeaderStatus, Header, EntersAt, KernelReadable, KernelReserved, Windows, LeastTop, Convertible, Describes, Table,
      Loaded, HasHeader, Roomy, Needs, RestAsBefore, WithTable, ProperBlock, Handed, BlocksAt, TableIs, ReservesKernel;
    pdpt, bases := 0, [];
    status := a.opening;
    if !status.Success? {
      return;
    }
    ghost var before := fw.Current();
    ghost var s := Load(fw.ram[..], fw.pages, 0, Success);
    IdentityFacts(s.mem, before, cr3);
    assert PoolOwned(before);
    status := LoadKernel(f, pool, out, info, fw);
    if !status.Success? {
      return;
    }
    ghost var h := Header(f);
    ghost var t := Load(fw.ram[..], fw.pages, info.top, status);
    LoadedExtends(f, h, EfiMemoryMappedIOPortSpace, h.phnum, s);
    ExtendsSpares(s, t, EfiMemoryMappedIOPortSpace, before);
    IdentityKept(s.mem, before, cr3, t.mem, fw.Current());
    TopExact(f, h, EfiMemoryMappedIOPortSpace, h.phnum, s);
    status := a.graphics;
    if !status.Success? {
      return;
    }
    ghost var loaded := fw.Current();
    ghost var u, o, e;
    status, pdpt, bases, u, o, e := PrepareHandoff(fw, cr3, a, blocks, handoff);
    if status.Success? && (pdpt != 0 || Roomy(loaded, Needs(a, blocks))) {
      Ending(f, h, Run(s, before, t, u, o, cr3, pdpt, e, fw.ram[..]), fw.Current(), a);
    }
  }

  lemma RoomForTable(o: Owners, pdpt: u64, a: Answers)
    requires (Accepted(a) ==> a.firstSize + 10 * a.stride < TWO_64) && Roomy(o, LateNeeds(a))
    ensures HasRun(o.pages, 1)
    ensures Accepted(a) && CanClaim(o.pages, pdpt, 1) ==>
      HasRun(WithTable(o, pdpt).pages, SizeToPages(a.firstSize + 10 * a.stride))
  {
    hide HasRun, SizeToPages, CanClaim, WithTable, PoolStep;
    var needs := LateNeeds(a);
    assert needs[0] == TablePage;
    if Accepted(a) && CanClaim(o.pages, pdpt, 1) {
      assert needs[1..] == [PoolPiece(EfiLoaderData, a.firstSize + 10 * a.stride)];
      assert Roomy(WithTable(o, pdpt), needs[1..]);
    }
  }

  /** If the firmware's map is right about the pages, the E820 table reserves the whole image. */
  ghost predicate ReservesKernel(f: File, h: Ehdr, a: Answers, pages: PageMap)
    requires Sensible(a)
  {
    var ds := Reported(a.report, 0, |a.report|, a.stride);
    Convertible(ds) && Describes(ds, pages) ==> KernelReserved(f, h, Converted(a))
  }

  /** The state in which the kernel is entered. */
  lemma Ending(f: File, h: Ehdr, run: Run, final: Owners, a: Answers)
    requires Steps(f, h, run) && IdentityMapped(run.s.mem, run.before, run.cr3)
    requires Sensible(a) && Keeps(WithTable(run.o, run.pdpt), final)
    ensures Windows(run.r, run.cr3) && KernelReadable(f, h, run.r, run.cr3)
    ensures run.cr3 + PAGE <= |run.s.mem| && RestAsBefore(run.s.mem, run.before, run.r, run.cr3)
    ensures ReservesKernel(f, h, a, final.pages)
  {
    hide Steps, IdentityMapped, Windows, KernelReadable, RestAsBefore, KernelReserved, Convertible, Describes, Reported,
      Coalesce, Ranges, WithTable;
    Arrival(f, h, run);
    RestArrives(f, h, run);
    var ds := Reported(a.report, 0, |a.report|, a.stride);
    if Convertible(ds) && Describes(ds, final.pages) {
      ReservedArrival(f, h, run, final.pages, ds);
    }
  }
}
