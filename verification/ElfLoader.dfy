/** Loading the segments of an ELF kernel at their physical addresses (LoadElf). */
module ElfLoader {
  import opened Bytes
  import opened Uefi
  import opened ElfFile

  /** The physical address of a segment, in 64-bit arithmetic. */
  function Relocate(vaddr: u64): u64 {
    if vaddr >= 0x8000_0000_0000_0000 then Sub64(vaddr, KERNEL) else vaddr
  }

  /** Addresses with the top bit set are moved down by 0xffffffff80000000, that is, up by 2 GiB, modulo 2^64. */
  lemma RelocateIs(vaddr: u64)
    ensures Relocate(vaddr) ==
      if vaddr < 0x8000_0000_0000_0000 then vaddr else (vaddr + 0x8000_0000) % 0x1_0000_0000_0000_0000
  {
    if vaddr >= KERNEL {
      DivMod(vaddr + 0x8000_0000, TWO_64, 1, vaddr - KERNEL);
    } else if vaddr >= 0x8000_0000_0000_0000 {
      DivMod(vaddr + 0x8000_0000, TWO_64, 0, vaddr + 0x8000_0000);
    }
  }

  /** Memory, the page map, the top of the image so far and the status so far. */
  datatype Load = Load(mem: seq<u8>, pages: PageMap, top: u64, status: Status)

  /** Every page of the map lies in memory. */
  ghost predicate Backed(mem: seq<u8>, pages: PageMap) {
    |mem| < TWO_64 && forall p :: p in pages ==> (p + 1) * PAGE <= |mem|
  }

  lemma ClaimBacked(mem: seq<u8>, pages: PageMap, address: u64, size: u64)
    requires Backed(mem, pages) && CanClaim(pages, address, SizeToPages(size))
    ensures address + size <= address + SizeToPages(size) * PAGE <= |mem|
  {
    var last := address / PAGE + SizeToPages(size) - 1;
    assert Free(pages, last);
  }

  /** A run of bytes that is written, counted from the address of the segment. */
  datatype Extent = Extent(offset: nat, length: nat)

  /** What loading a segment writes once it has its pages: as many bytes as the file delivers; and, if those were all
      that were asked for, the rest of the segment, of a length computed in 64 bits. */
  function Extents(f: File, ph: Phdr): seq<Extent> {
    var t := FileRead(f, ph.offset, ph.filesz);
    var zeroed := Sub64(ph.memsz, ph.filesz);
    [Extent(0, |t.data|)] + if t.status.Success? && zeroed != 0 then [Extent(ph.filesz, zeroed)] else []
  }

  /** Some of it lies beyond the pages of the segment. */
  ghost predicate LeavesPages(f: File, ph: Phdr) {
    exists e :: e in Extents(f, ph) && e.offset + e.length > SizeToPages(ph.memsz) * PAGE
  }

  /** Loading one segment: the top grows, the pages are claimed, the file's bytes are copied and the rest of the
      segment is cleared. Where that leaves the pages (LeavesExactly) the result is undefined. */
  function LoadSegment(f: File, typ: u32, ph: Phdr, s: Load): (r: Load)
    requires Backed(s.mem, s.pages)
    ensures |r.mem| == |s.mem| && r.pages.Keys == s.pages.Keys && Backed(r.mem, r.pages)
  {
    var address := Relocate(ph.vaddr);
    var end := Add64(address, ph.memsz);
    var top := if end > s.top then end else s.top;
    var count := SizeToPages(ph.memsz);
    if !CanClaim(s.pages, address, count) then s.(top := top, status := NotFound)
    else
      ClaimBacked(s.mem, s.pages, address, ph.memsz);
      var pages := Claim(s.pages, address / PAGE, count, typ);
      var t := FileRead(f, ph.offset, ph.filesz);
      if |t.data| > count * PAGE || (t.status.Success? && ph.filesz > ph.memsz) then Load(s.mem, pages, top, Undefined)
      else
        var mem := Write(s.mem, address, t.data);
        if !t.status.Success? then Load(mem, pages, top, t.status)
        else Load(Write(mem, address + ph.filesz, Zeros(ph.memsz - ph.filesz)), pages, top, Success)
  }

  /** Loading a segment into pages that it gets is undefined exactly when it writes beyond them. */
  lemma LeavesExactly(f: File, typ: u32, ph: Phdr, s: Load)
    requires Backed(s.mem, s.pages) && CanClaim(s.pages, Relocate(ph.vaddr), SizeToPages(ph.memsz))
    ensures LoadSegment(f, typ, ph, s).status.Undefined? <==> LeavesPages(f, ph)
  {
    hide Relocate, CanClaim, Write, Read;
    var t, zeroed := FileRead(f, ph.offset, ph.filesz), Sub64(ph.memsz, ph.filesz);
    assert Extents(f, ph)[0] == Extent(0, |t.data|);
    assert t.status.Success? && zeroed != 0 ==> Extents(f, ph)[1] == Extent(ph.filesz, zeroed);
  }

  /** Byte `j` of a segment's image: a byte of the file, or zero beyond its bytes in the file. */
  function ImageByte(f: File, ph: Phdr, j: nat): u8 {
    if j < ph.filesz && ph.offset + j < |f.bytes| then f.bytes[ph.offset + j] else 0
  }

  predicate InExtents(extents: seq<Extent>, x: int) {
    exists i :: 0 <= i < |extents| && extents[i].offset <= x < extents[i].offset + extents[i].length
  }

  /** Otherwise the bytes of its extents become the segment's image, whether loading succeeds or not, and no others
      change. */
  lemma WritesExtents(f: File, typ: u32, ph: Phdr, s: Load, a: nat)
    requires Backed(s.mem, s.pages) && CanClaim(s.pages, Relocate(ph.vaddr), SizeToPages(ph.memsz))
    requires |f.bytes| < TWO_64 && !LeavesPages(f, ph) && a < |s.mem|
    ensures LoadSegment(f, typ, ph, s).mem[a] ==
      if InExtents(Extents(f, ph), a - Relocate(ph.vaddr)) then ImageByte(f, ph, a - Relocate(ph.vaddr)) else s.mem[a]
  {
    hide Relocate, CanClaim, Read, FileRead, LeavesPages, SizeToPages;
    LeavesExactly(f, typ, ph, s);
    ClaimBacked(s.mem, s.pages, Relocate(ph.vaddr), ph.memsz);
    ReadExact(f, ph.offset, ph.filesz);
    ExtentsAre(f, ph, a - Relocate(ph.vaddr));
  }

  /** The extents of a segment that stays in its pages: what is delivered, and then, after a complete read, the rest. */
  lemma ExtentsAre(f: File, ph: Phdr, x: int)
    requires !LeavesPages(f, ph)
    ensures var t := FileRead(f, ph.offset, ph.filesz);
      InExtents(Extents(f, ph), x) <==> 0 <= x < if t.status.Success? then ph.memsz else |t.data|
  {
    hide Read;
    var t, extents := FileRead(f, ph.offset, ph.filesz), Extents(f, ph);
    assert extents[0] == Extent(0, |t.data|);
    assert forall i :: 0 <= i < |extents| ==> extents[i] in extents;
    assert |extents| == 2 ==> extents[1] == Extent(ph.filesz, Sub64(ph.memsz, ph.filesz));
  }

  /** One iteration of the loop over program headers. */
  function LoadHeader(f: File, h: Ehdr, typ: u32, i: nat, s: Load): (r: Load)
    requires Backed(s.mem, s.pages) && i < h.phnum
    ensures |r.mem| == |s.mem| && r.pages.Keys == s.pages.Keys && Backed(r.mem, r.pages)
  {
    if !PhdrRead(f, h, i).status.Success? then s.(status := PhdrRead(f, h, i).status)
    else match Segment(f, h, i)
      case None => s
      case Some(ph) => LoadSegment(f, typ, ph, s)
  }

  /** The state after the first `i` program headers; an error ends the loop. */
  function Loaded(f: File, h: Ehdr, typ: u32, i: nat, s: Load): (r: Load)
    requires Backed(s.mem, s.pages) && i <= h.phnum
    ensures |r.mem| == |s.mem| && r.pages.Keys == s.pages.Keys && Backed(r.mem, r.pages)
  {
    if i == 0 then s
    else
      var before := Loaded(f, h, typ, i - 1, s);
      if before.status.Success? then LoadHeader(f, h, typ, i - 1, before) else before
  }

  class ElfInfo {
    var entryPoint: u64
    var top: u64

    constructor ()
      ensures entryPoint == top == 0
    {
      entryPoint, top := 0, 0;
    }
  }

  function LoadElfResult(f: File, typ: u32, mem: seq<u8>, pages: PageMap): (r: Load)
    requires Backed(mem, pages) && HeaderStatus(f).Success?
    ensures |r.mem| == |mem| && Backed(r.mem, r.pages)
  {
    Loaded(f, Header(f), typ, Header(f).phnum, Load(mem, pages, 0, Success))
  }

  /** Copying a segment's bytes to its pages and clearing the rest. */
  method PlaceBytes(f: File, ph: Phdr, ram: array<u8>, address: u64) returns (status: Status)
    requires address + |FileRead(f, ph.offset, ph.filesz).data| <= ram.Length
    requires FileRead(f, ph.offset, ph.filesz).status.Success? ==>
      ph.filesz <= ph.memsz && address + ph.memsz <= ram.Length
    modifies ram
    ensures status == FileRead(f, ph.offset, ph.filesz).status
    ensures ram[..] == var copied := Write(old(ram[..]), address, FileRead(f, ph.offset, ph.filesz).data);
      if status.Success? then Write(copied, address + ph.filesz, Zeros(ph.memsz - ph.filesz)) else copied
  {
    var t := FileRead(f, ph.offset, ph.filesz);
    Store(ram, address, t.data);
    status := t.status;
    if !status.Success? {
      return;
    }
    hide FileRead;
    var zeroed := Sub64(ph.memsz, ph.filesz);
    if zeroed != 0 {
      Store(ram, address + ph.filesz, Zeros(zeroed));
    }
  }

  /** The body of the loop for one loadable segment. */
  method LoadOne(f: File, typ: u32, ph: Phdr, fw: Firmware, info: ElfInfo) returns (status: Status)
    requires fw.Valid()
    requires LoadSegment(f, typ, ph, Load(fw.ram[..], fw.pages, info.top, Success)).status != Undefined
    modifies fw`pages, fw.ram, info`top
    ensures fw.Valid()
    ensures Load(fw.ram[..], fw.pages, info.top, status) ==
      LoadSegment(f, typ, ph, Load(old(fw.ram[..]), old(fw.pages), old(info.top), Success))
  {
    hide CanClaim, Claim, Relocate, Write, FileRead, SizeToPages, Add64;
    var address := Relocate(ph.vaddr);
    var end := Add64(address, ph.memsz);
    if end > info.top {
      info.top := end;
    }
    assert fw.ram[..] == old(fw.ram[..]);
    ghost var pages := fw.pages;
    status := fw.AllocateAt(typ, SizeToPages(ph.memsz), address);
    if !status.Success? {
      return;
    }
    ClaimBacked(fw.ram[..], pages, address, ph.memsz);
    status := PlaceBytes(f, ph, fw.ram, address);
  }

  /** The body of the loop for program header `i`. */
  method LoadNext(f: File, h: Ehdr, typ: u32, i: nat, fw: Firmware, info: ElfInfo) returns (status: Status)
    requires fw.Valid() && i < h.phnum
    requires LoadHeader(f, h, typ, i, Load(fw.ram[..], fw.pages, info.top, Success)).status != Undefined
    modifies fw`pages, fw.ram, info`top
    ensures fw.Valid()
    ensures Load(fw.ram[..], fw.pages, info.top, status) ==
      LoadHeader(f, h, typ, i, Load(old(fw.ram[..]), old(fw.pages), old(info.top), Success))
  {
    hide LoadSegment;
    status := PhdrRead(f, h, i).status;
    if status.Success? && Segment(f, h, i).Some? {
      status := LoadOne(f, typ, Segment(f, h, i).value, fw, info);
    }
  }

  method LoadElf(f: File, info: ElfInfo, typ: u32, fw: Firmware) returns (status: Status)
    requires fw.Valid()
    requires HeaderStatus(f).Success? ==> LoadElfResult(f, typ, fw.ram[..], fw.pages).status != Undefined
    modifies fw`pages, fw.ram, info
    ensures fw.Valid()
    ensures !HeaderStatus(f).Success? ==>
      status == HeaderStatus(f) && fw.pages == old(fw.pages) && fw.ram[..] == old(fw.ram[..]) && unchanged(info)
    ensures HeaderStatus(f).Success? ==>
      && Load(fw.ram[..], fw.pages, info.top, status) == LoadElfResult(f, typ, old(fw.ram[..]), old(fw.pages))
      && info.entryPoint == if status.Success? then Header(f).entry else old(info.entryPoint)
  {
    hide LoadHeader, HeaderStatus, Header;
    status := HeaderStatus(f);
    if !status.Success? {
      return;
    }
    var h := Header(f);
    ghost var start := Load(fw.ram[..], fw.pages, 0, Success);
    info.top := 0;
    assert fw.ram[..] == start.mem;
    var i := 0;
    while i < h.phnum && status.Success?
      invariant i <= h.phnum && fw.Valid() && info.entryPoint == old(info.entryPoint)
      invariant Load(fw.ram[..], fw.pages, info.top, status) == Loaded(f, h, typ, i, start)
    {
      DefinedBefore(f, h, typ, i + 1, start);
      status := LoadNext(f, h, typ, i, fw, info);
      i := i + 1;
    }
    Stopped(f, h, typ, i, start);
    if status.Success? {
      ghost var mem := fw.ram[..];
      info.entryPoint := h.entry;
      assert fw.ram[..] == mem;
    }
  }

  /** What stops the loop stops it for good. */
  lemma {:induction false} Stopped(f: File, h: Ehdr, typ: u32, i: nat, s: Load)
    requires Backed(s.mem, s.pages) && i <= h.phnum
    requires i == h.phnum || !Loaded(f, h, typ, i, s).status.Success?
    ensures Loaded(f, h, typ, h.phnum, s) == Loaded(f, h, typ, i, s)
    decreases h.phnum - i
  {
    hide LoadHeader;
    if i < h.phnum {
      assert Loaded(f, h, typ, i + 1, s) == Loaded(f, h, typ, i, s);
      Stopped(f, h, typ, i + 1, s);
    }
  }

  lemma DefinedBefore(f: File, h: Ehdr, typ: u32, i: nat, s: Load)
    requires Backed(s.mem, s.pages) && i <= h.phnum && Loaded(f, h, typ, h.phnum, s).status != Undefined
    ensures Loaded(f, h, typ, i, s).status != Undefined
  {
    hide Loaded;
    if !Loaded(f, h, typ, i, s).status.Success? {
      Stopped(f, h, typ, i, s);
    }
  }

  // ---------------------------------------------------------------------------
  // What every step keeps, on success and on failure
  // ---------------------------------------------------------------------------

  /** From `s` to `t` only pages that were free changed hands, to `typ`, and only bytes in such pages changed. */
  ghost predicate Extends(s: Load, t: Load, typ: u32) {
    && |t.mem| == |s.mem| && t.pages.Keys == s.pages.Keys
    && (forall p :: p in s.pages && t.pages[p] != s.pages[p] ==> Free(s.pages, p) && t.pages[p] == typ)
    && (forall a :: 0 <= a < |s.mem| && t.mem[a] != s.mem[a] ==>
          Free(s.pages, a / PAGE) && Taken(t.pages, a / PAGE, typ))
  }

  predicate Taken(pages: PageMap, p: nat, typ: u32) {
    p in pages && pages[p] == typ
  }

  lemma ExtendsTrans(s: Load, t: Load, u: Load, typ: u32)
    requires typ != EfiConventionalMemory && Extends(s, t, typ) && Extends(t, u, typ)
    ensures Extends(s, u, typ)
  {
    forall p | p in s.pages && u.pages[p] != s.pages[p] ensures Free(s.pages, p) && u.pages[p] == typ {
    }
    forall a | 0 <= a < |s.mem| && u.mem[a] != s.mem[a]
      ensures Free(s.pages, a / PAGE) && Taken(u.pages, a / PAGE, typ)
    {
      assert t.mem[a] == s.mem[a] || t.mem[a] != s.mem[a];
    }
  }

  lemma SegmentExtends(f: File, typ: u32, ph: Phdr, s: Load)
    requires Backed(s.mem, s.pages)
    ensures Extends(s, LoadSegment(f, typ, ph, s), typ)
  {
    hide FileRead, Relocate, SizeToPages;
    var address, count := Relocate(ph.vaddr), SizeToPages(ph.memsz);
    if CanClaim(s.pages, address, count) {
      ClaimBacked(s.mem, s.pages, address, ph.memsz);
      var t := LoadSegment(f, typ, ph, s);
      forall a | 0 <= a < |s.mem| && t.mem[a] != s.mem[a]
        ensures Free(s.pages, a / PAGE) && Taken(t.pages, a / PAGE, typ)
      {
        InRun(address, ph.memsz, a);
      }
    }
  }

  lemma ExtendsRefl(s: Load, top: u64, status: Status, typ: u32)
    ensures Extends(s, Load(s.mem, s.pages, top, status), typ)
  {
  }

  lemma HeaderExtends(f: File, h: Ehdr, typ: u32, i: nat, s: Load)
    requires Backed(s.mem, s.pages) && i < h.phnum
    ensures Extends(s, LoadHeader(f, h, typ, i, s), typ)
  {
    hide LoadSegment, Extends, PhdrRead, Segment;
    ExtendsRefl(s, s.top, s.status, typ);
    ExtendsRefl(s, s.top, PhdrRead(f, h, i).status, typ);
    if Segment(f, h, i).Some? {
      SegmentExtends(f, typ, Segment(f, h, i).value, s);
    }
  }

  /** After any number of headers, whether or not one of them failed, memory outside the pages claimed is
      unchanged, and the pages claimed were free. */
  lemma {:induction false} LoadedExtends(f: File, h: Ehdr, typ: u32, i: nat, s: Load)
    requires Backed(s.mem, s.pages) && i <= h.phnum && typ != EfiConventionalMemory
    ensures Extends(s, Loaded(f, h, typ, i, s), typ)
  {
    hide LoadHeader, Extends;
    if i == 0 {
      ExtendsRefl(s, s.top, s.status, typ);
    } else {
      var before := Loaded(f, h, typ, i - 1, s);
      LoadedExtends(f, h, typ, i - 1, s);
      HeaderExtends(f, h, typ, i - 1, before);
      ExtendsTrans(s, before, LoadHeader(f, h, typ, i - 1, before), typ);
    }
  }

  // ---------------------------------------------------------------------------
  // The image
  // ---------------------------------------------------------------------------

  /** The segment is in its pages: its file bytes, all of which exist, then zeros. */
  ghost predicate Placed(f: File, ph: Phdr, s: Load, typ: u32) {
    var a := Relocate(ph.vaddr);
    && a % PAGE == 0 && a + ph.memsz <= |s.mem|
    && (forall p :: PageOf(ph, p) ==> Taken(s.pages, p, typ))
    && ph.filesz <= ph.memsz && (ph.filesz > 0 ==> ph.offset + ph.filesz <= |f.bytes|)
    && (forall x :: a <= x < a + ph.memsz ==> s.mem[x] == ImageByte(f, ph, x - a))
  }

  predicate PageOf(ph: Phdr, p: nat) {
    Relocate(ph.vaddr) / PAGE <= p < Relocate(ph.vaddr) / PAGE + SizeToPages(ph.memsz)
  }

  /** Two segments share no page. */
  ghost predicate Apart(ph: Phdr, qh: Phdr) {
    forall p: nat :: !(PageOf(ph, p) && PageOf(qh, p))
  }

  lemma SegmentPlaced(f: File, typ: u32, ph: Phdr, s: Load)
    requires Backed(s.mem, s.pages) && LoadSegment(f, typ, ph, s).status.Success?
    ensures Placed(f, ph, LoadSegment(f, typ, ph, s), typ)
  {
    hide Read, SizeToPages, Relocate;
    var a := Relocate(ph.vaddr);
    ClaimBacked(s.mem, s.pages, a, ph.memsz);
    var t := FileRead(f, ph.offset, ph.filesz);
    var r := LoadSegment(f, typ, ph, s);
    forall p | PageOf(ph, p) ensures Taken(r.pages, p, typ) {
      assert Free(s.pages, p);
    }
    forall x | a <= x < a + ph.memsz ensures r.mem[x] == ImageByte(f, ph, x - a) {
      assert x - a < ph.filesz ==> r.mem[x] == t.data[x - a];
    }
  }

  /** One byte of a segment that is in place. */
  lemma PlacedByte(f: File, ph: Phdr, s: Load, typ: u32, j: nat)
    requires Placed(f, ph, s, typ) && j < ph.memsz
    ensures var x := Relocate(ph.vaddr) + j;
      && x < |s.mem| && s.mem[x] == ImageByte(f, ph, j) && (j < ph.filesz ==> ph.offset + j < |f.bytes|)
      && PageOf(ph, x / PAGE) && Taken(s.pages, x / PAGE, typ)
  {
    hide Relocate, SizeToPages, ImageByte;
    InRun(Relocate(ph.vaddr), ph.memsz, Relocate(ph.vaddr) + j);
    assert PageOf(ph, (Relocate(ph.vaddr) + j) / PAGE);
  }

  /** A segment stays in place while further pages are claimed: its own are no longer free. */
  lemma PlacedKept(f: File, ph: Phdr, s: Load, t: Load, typ: u32)
    requires typ != EfiConventionalMemory && Placed(f, ph, s, typ) && Extends(s, t, typ)
    ensures Placed(f, ph, t, typ)
  {
    hide SizeToPages, Relocate, ImageByte;
    var a := Relocate(ph.vaddr);
    forall p | PageOf(ph, p) ensures Taken(t.pages, p, typ) {
      assert Taken(s.pages, p, typ);
    }
    forall x | a <= x < a + ph.memsz ensures t.mem[x] == s.mem[x] {
      InRun(a, ph.memsz, x);
      assert PageOf(ph, x / PAGE) && Taken(s.pages, x / PAGE, typ);
    }
  }

  /** No error so far means no error before. */
  lemma {:induction false} SuccessBefore(f: File, h: Ehdr, typ: u32, k: nat, i: nat, s: Load)
    requires Backed(s.mem, s.pages) && k <= i <= h.phnum
    requires Loaded(f, h, typ, i, s).status.Success?
    ensures Loaded(f, h, typ, k, s).status.Success?
    decreases i
  {
    hide LoadHeader;
    if k < i {
      SuccessBefore(f, h, typ, k, i - 1, s);
    }
  }

  /** A successful iteration on a loadable header is a successful load of its segment. */
  lemma StepOnSegment(f: File, h: Ehdr, typ: u32, k: nat, s: Load)
    requires Backed(s.mem, s.pages) && k < h.phnum && Segment(f, h, k).Some?
    requires Loaded(f, h, typ, k + 1, s).status.Success?
    ensures var ph, before := Segment(f, h, k).value, Loaded(f, h, typ, k, s);
      && before.status.Success? && Loaded(f, h, typ, k + 1, s) == LoadSegment(f, typ, ph, before)
      && CanClaim(before.pages, Relocate(ph.vaddr), SizeToPages(ph.memsz))
  {
    hide FileRead, CanClaim;
  }

  /** Every segment loaded so far is in place, whatever was loaded after it. */
  lemma {:induction false} ImagePlaced(f: File, h: Ehdr, typ: u32, k: nat, i: nat, s: Load)
    requires Backed(s.mem, s.pages) && k < i <= h.phnum && typ != EfiConventionalMemory
    requires Loaded(f, h, typ, i, s).status.Success? && Segment(f, h, k).Some?
    ensures Placed(f, Segment(f, h, k).value, Loaded(f, h, typ, i, s), typ)
    decreases i
  {
    hide LoadHeader, LoadSegment, Placed, Extends, Segment;
    SuccessBefore(f, h, typ, i - 1, i, s);
    if k == i - 1 {
      StepOnSegment(f, h, typ, k, s);
      SegmentPlaced(f, typ, Segment(f, h, k).value, Loaded(f, h, typ, k, s));
    } else {
      ImagePlaced(f, h, typ, k, i - 1, s);
      HeaderExtends(f, h, typ, i - 1, Loaded(f, h, typ, i - 1, s));
      PlacedKept(f, Segment(f, h, k).value, Loaded(f, h, typ, i - 1, s), Loaded(f, h, typ, i, s), typ);
    }
  }

  /** No two segments share a page. */
  lemma SegmentsDisjoint(f: File, h: Ehdr, typ: u32, k: nat, l: nat, i: nat, s: Load, p: nat)
    requires Backed(s.mem, s.pages) && k < l < i <= h.phnum && typ != EfiConventionalMemory
    requires Loaded(f, h, typ, i, s).status.Success? && Segment(f, h, k).Some? && Segment(f, h, l).Some?
    ensures !(PageOf(Segment(f, h, k).value, p) && PageOf(Segment(f, h, l).value, p))
  {
    hide Loaded, LoadSegment, Segment, Relocate, SizeToPages;
    SuccessBefore(f, h, typ, l + 1, i, s);
    StepOnSegment(f, h, typ, l, s);
    ImagePlaced(f, h, typ, k, l, s);
    var before := Loaded(f, h, typ, l, s);
    assert PageOf(Segment(f, h, k).value, p) ==> Taken(before.pages, p, typ);
    assert PageOf(Segment(f, h, l).value, p) ==> Free(before.pages, p);
  }

  /** The pages of a loaded segment were free before anything was loaded. */
  lemma SegmentPagesWereFree(f: File, h: Ehdr, typ: u32, k: nat, i: nat, s: Load, p: nat)
    requires Backed(s.mem, s.pages) && k < i <= h.phnum && typ != EfiConventionalMemory
    requires Loaded(f, h, typ, i, s).status.Success? && Segment(f, h, k).Some? && PageOf(Segment(f, h, k).value, p)
    ensures Free(s.pages, p)
  {
    hide Loaded, LoadSegment, Segment, Relocate, SizeToPages;
    SuccessBefore(f, h, typ, k + 1, i, s);
    StepOnSegment(f, h, typ, k, s);
    LoadedExtends(f, h, typ, k, s);
    assert Free(Loaded(f, h, typ, k, s).pages, p);
  }

  // ---------------------------------------------------------------------------
  // The top of the image
  // ---------------------------------------------------------------------------

  /** The end of a segment, in exact arithmetic. */
  function SegmentEnd(ph: Phdr): nat {
    Relocate(ph.vaddr) + ph.memsz
  }

  /** `top` is the least upper bound of the ends of the first `i` headers' segments, 0 when there is none. */
  ghost predicate LeastTop(f: File, h: Ehdr, i: nat, top: nat) {
    && (forall k :: 0 <= k < i && Segment(f, h, k).Some? ==> SegmentEnd(Segment(f, h, k).value) <= top)
    && (top == 0 || exists k :: 0 <= k < i && Segment(f, h, k).Some? && SegmentEnd(Segment(f, h, k).value) == top)
  }

  lemma SegmentTop(f: File, typ: u32, ph: Phdr, s: Load)
    requires Backed(s.mem, s.pages) && LoadSegment(f, typ, ph, s).status.Success?
    ensures LoadSegment(f, typ, ph, s).top == if SegmentEnd(ph) > s.top then SegmentEnd(ph) else s.top
  {
    hide Relocate, FileRead, Write, SizeToPages;
    ClaimBacked(s.mem, s.pages, Relocate(ph.vaddr), ph.memsz);
  }

  lemma LeastTopGrows(f: File, h: Ehdr, i: nat, top: nat, top': nat)
    requires LeastTop(f, h, i, top)
    requires match Segment(f, h, i)
      case None => top' == top
      case Some(ph) => top' == if SegmentEnd(ph) > top then SegmentEnd(ph) else top
    ensures LeastTop(f, h, i + 1, top')
  {
    hide Segment, SegmentEnd;
    if top' != 0 && top' == top {
      var k :| 0 <= k < i && Segment(f, h, k).Some? && SegmentEnd(Segment(f, h, k).value) == top;
    }
  }

  lemma {:induction false} TopExact(f: File, h: Ehdr, typ: u32, i: nat, s: Load)
    requires Backed(s.mem, s.pages) && i <= h.phnum && s.top == 0
    requires Loaded(f, h, typ, i, s).status.Success?
    ensures LeastTop(f, h, i, Loaded(f, h, typ, i, s).top)
  {
    hide LoadSegment, Segment, SegmentEnd, PhdrRead;
    if i > 0 {
      hide LeastTop;
      SuccessBefore(f, h, typ, i - 1, i, s);
      TopExact(f, h, typ, i - 1, s);
      var before := Loaded(f, h, typ, i - 1, s);
      if Segment(f, h, i - 1).Some? {
        StepOnSegment(f, h, typ, i - 1, s);
        SegmentTop(f, typ, Segment(f, h, i - 1).value, before);
      }
      LeastTopGrows(f, h, i - 1, before.top, Loaded(f, h, typ, i, s).top);
    }
  }

  /** The end of a segment in 64-bit arithmetic. */
  function ModularEnd(ph: Phdr): u64 {
    Add64(Relocate(ph.vaddr), ph.memsz)
  }

  /** Header `k` is reached and is a loadable one, whether or not its segment can then be loaded. */
  predicate Tried(f: File, h: Ehdr, typ: u32, k: nat, s: Load)
    requires Backed(s.mem, s.pages) && k < h.phnum
  {
    Loaded(f, h, typ, k, s).status.Success? && Segment(f, h, k).Some?
  }

  /** Tried header `k` ends at `top`, or not beyond it. */
  predicate EndsBy(f: File, h: Ehdr, typ: u32, k: nat, s: Load, top: nat)
    requires Backed(s.mem, s.pages) && k < h.phnum
  {
    Tried(f, h, typ, k, s) ==> ModularEnd(Segment(f, h, k).value) <= top
  }

  predicate EndsAt(f: File, h: Ehdr, typ: u32, k: nat, s: Load, top: nat)
    requires Backed(s.mem, s.pages) && k < h.phnum
  {
    Tried(f, h, typ, k, s) && ModularEnd(Segment(f, h, k).value) == top
  }

  lemma StepTop(f: File, h: Ehdr, typ: u32, i: nat, s: Load)
    requires Backed(s.mem, s.pages) && i < h.phnum
    ensures var before := Loaded(f, h, typ, i, s).top;
      Loaded(f, h, typ, i + 1, s).top ==
        if Tried(f, h, typ, i, s) && ModularEnd(Segment(f, h, i).value) > before then ModularEnd(Segment(f, h, i).value)
        else before
  {
    hide Relocate, Write, SizeToPages, CanClaim, Claim, FileRead, Add64;
  }

  /** On every path, failures included, the reported top is the greatest 64-bit end of the segments that were tried. */
  lemma {:induction false} RunningTop(f: File, h: Ehdr, typ: u32, i: nat, s: Load)
    requires Backed(s.mem, s.pages) && i <= h.phnum && s.top == 0
    ensures var top := Loaded(f, h, typ, i, s).top;
      && (forall k :: 0 <= k < i ==> EndsBy(f, h, typ, k, s, top))
      && (top == 0 || exists k :: 0 <= k < i && EndsAt(f, h, typ, k, s, top))
  {
    hide LoadHeader, Segment, ModularEnd, Tried;
    if i > 0 {
      hide Loaded;
      RunningTop(f, h, typ, i - 1, s);
      StepTop(f, h, typ, i - 1, s);
      var before, top := Loaded(f, h, typ, i - 1, s).top, Loaded(f, h, typ, i, s).top;
      forall k | 0 <= k < i ensures EndsBy(f, h, typ, k, s, top) {
        assert k < i - 1 ==> EndsBy(f, h, typ, k, s, before);
      }
      if top != before {
        assert EndsAt(f, h, typ, i - 1, s, top);
      } else if before != 0 {
        var k :| 0 <= k < i - 1 && EndsAt(f, h, typ, k, s, before);
      }
    }
  }

  /** A segment that was loaded is linked either for the lower half or for the top 2 GiB, and the modular
      relocation is the plain difference. */
  lemma RelocationExact(f: File, ph: Phdr, s: Load, typ: u32)
    requires Placed(f, ph, s, typ) && ph.memsz > 0 && |s.mem| <= 0x10_0000_0000_0000
    ensures ph.vaddr < 0x8000_0000_0000_0000 || ph.vaddr >= KERNEL
    ensures Relocate(ph.vaddr) == if ph.vaddr >= KERNEL then ph.vaddr - KERNEL else ph.vaddr
  {
  }

  // ---------------------------------------------------------------------------
  // Accounting
  // ---------------------------------------------------------------------------

  /** The pages that changed hands. */
  function Claimed(before: PageMap, after: PageMap): set<nat> {
    set p | p in before && p in after && after[p] != before[p]
  }

  /** Whether iteration `i` gets its pages, whatever happens to it afterwards. */
  predicate Granted(f: File, h: Ehdr, typ: u32, i: nat, s: Load)
    requires Backed(s.mem, s.pages) && i < h.phnum
  {
    var before := Loaded(f, h, typ, i, s);
    before.status.Success? && Segment(f, h, i).Some? &&
    CanClaim(before.pages, Relocate(Segment(f, h, i).value.vaddr), SizeToPages(Segment(f, h, i).value.memsz))
  }

  function GrantedPages(f: File, h: Ehdr, typ: u32, i: nat, s: Load): nat
    requires Backed(s.mem, s.pages) && i <= h.phnum
  {
    if i == 0 then 0
    else
      var n := if Granted(f, h, typ, i - 1, s) then SizeToPages(Segment(f, h, i - 1).value.memsz) else 0;
      GrantedPages(f, h, typ, i - 1, s) + n
  }

  lemma ClaimCounts(first: PageMap, pages: PageMap, address: u64, count: nat, typ: u32)
    requires first.Keys == pages.Keys && typ != EfiConventionalMemory && CanClaim(pages, address, count)
    requires forall p :: p in first && pages[p] != first[p] ==> pages[p] == typ
    ensures |Claimed(first, Claim(pages, address / PAGE, count, typ))| == |Claimed(first, pages)| + count
  {
    var a := address / PAGE;
    var run := Interval(a, count);
    forall p | p in run ensures Free(pages, p) && p !in Claimed(first, pages) && first[p] == EfiConventionalMemory {
      assert Free(pages, p);
    }
    assert Claimed(first, Claim(pages, a, count, typ)) == Claimed(first, pages) + run;
  }

  lemma StepPages(f: File, h: Ehdr, typ: u32, i: nat, s: Load)
    requires Backed(s.mem, s.pages) && i < h.phnum
    ensures Loaded(f, h, typ, i + 1, s).pages ==
      if Granted(f, h, typ, i, s) then
        var ph := Segment(f, h, i).value;
        Claim(Loaded(f, h, typ, i, s).pages, Relocate(ph.vaddr) / PAGE, SizeToPages(ph.memsz), typ)
      else Loaded(f, h, typ, i, s).pages
  {
    hide FileRead, CanClaim, Claim, Relocate, SizeToPages, Write;
  }

  lemma StepCounts(first: PageMap, f: File, h: Ehdr, typ: u32, i: nat, s: Load)
    requires Backed(s.mem, s.pages) && i < h.phnum && typ != EfiConventionalMemory
    requires var pages := Loaded(f, h, typ, i, s).pages;
      first.Keys == pages.Keys && forall p :: p in first && pages[p] != first[p] ==> pages[p] == typ
    ensures |Claimed(first, Loaded(f, h, typ, i + 1, s).pages)| ==
      |Claimed(first, Loaded(f, h, typ, i, s).pages)| +
      if Granted(f, h, typ, i, s) then SizeToPages(Segment(f, h, i).value.memsz) else 0
  {
    hide Segment, Loaded, CanClaim, Claim, Claimed, Relocate, SizeToPages;
    StepPages(f, h, typ, i, s);
    if Granted(f, h, typ, i, s) {
      var ph := Segment(f, h, i).value;
      ClaimCounts(first, Loaded(f, h, typ, i, s).pages, Relocate(ph.vaddr), SizeToPages(ph.memsz), typ);
    }
  }

  /** On every path, the pages claimed number exactly the pages of the segments whose allocation was granted. */
  lemma {:induction false} Accounting(f: File, h: Ehdr, typ: u32, i: nat, s: Load)
    requires Backed(s.mem, s.pages) && i <= h.phnum && typ != EfiConventionalMemory
    ensures |Claimed(s.pages, Loaded(f, h, typ, i, s).pages)| == GrantedPages(f, h, typ, i, s)
  {
    hide Segment, Granted, LoadHeader, SizeToPages;
    if i == 0 {
      assert Claimed(s.pages, s.pages) == {};
    } else {
      hide Claimed, Loaded;
      Accounting(f, h, typ, i - 1, s);
      LoadedExtends(f, h, typ, i - 1, s);
      StepCounts(s.pages, f, h, typ, i - 1, s);
    }
  }

  // ---------------------------------------------------------------------------
  // When loading succeeds, and when it is undefined
  // ---------------------------------------------------------------------------

  /** A segment that can be loaded on its own into these pages: it is page aligned, not empty, its pages are free,
      and its bytes can be read and fit in it. */
  ghost predicate Loads(f: File, ph: Phdr, pages: PageMap) {
    && CanClaim(pages, Relocate(ph.vaddr), SizeToPages(ph.memsz))
    && FileRead(f, ph.offset, ph.filesz).status.Success? && ph.filesz <= ph.memsz
  }

  /** Header `k` can be read, and if it is loadable then its segment can be loaded into pages that are free at the
      start and belong to no segment before it. */
  ghost predicate Fine(f: File, h: Ehdr, k: nat, pages: PageMap) {
    && PhdrRead(f, h, k).status.Success?
    && (Segment(f, h, k).Some? ==>
          Loads(f, Segment(f, h, k).value, pages) && forall l :: 0 <= l < k ==> ApartFrom(f, h, l, k))
  }

  ghost predicate ApartFrom(f: File, h: Ehdr, k: nat, l: nat) {
    Segment(f, h, k).Some? && Segment(f, h, l).Some? ==> Apart(Segment(f, h, k).value, Segment(f, h, l).value)
  }

  predicate InSegment(f: File, h: Ehdr, k: nat, p: nat) {
    Segment(f, h, k).Some? && PageOf(Segment(f, h, k).value, p)
  }

  /** Without errors so far, the pages still free are those free at the start that are in no segment so far. */
  lemma {:induction false} StillFree(f: File, h: Ehdr, typ: u32, i: nat, s: Load, p: nat)
    requires Backed(s.mem, s.pages) && i <= h.phnum && typ != EfiConventionalMemory
    requires Loaded(f, h, typ, i, s).status.Success?
    ensures Free(Loaded(f, h, typ, i, s).pages, p) <==>
      Free(s.pages, p) && forall k :: 0 <= k < i ==> !InSegment(f, h, k, p)
  {
    hide LoadHeader, InSegment, CanClaim;
    if i > 0 {
      hide Loaded;
      SuccessBefore(f, h, typ, i - 1, i, s);
      StillFree(f, h, typ, i - 1, s, p);
      StepFree(f, h, typ, i - 1, s, p);
    }
  }

  lemma StepFree(f: File, h: Ehdr, typ: u32, i: nat, s: Load, p: nat)
    requires Backed(s.mem, s.pages) && i < h.phnum && typ != EfiConventionalMemory
    requires Loaded(f, h, typ, i, s).status.Success? && Loaded(f, h, typ, i + 1, s).status.Success?
    ensures Free(Loaded(f, h, typ, i + 1, s).pages, p) <==>
      Free(Loaded(f, h, typ, i, s).pages, p) && !InSegment(f, h, i, p)
  {
    hide Loaded, Segment, Relocate, SizeToPages, CanClaim;
    StepPages(f, h, typ, i, s);
    if Segment(f, h, i).Some? {
      StepOnSegment(f, h, typ, i, s);
    }
  }

  /** A segment can be loaded after others exactly when it could be loaded first and shares no page with them. */
  lemma LoadsAfter(f: File, h: Ehdr, typ: u32, i: nat, s: Load)
    requires Backed(s.mem, s.pages) && i < h.phnum && typ != EfiConventionalMemory
    requires Loaded(f, h, typ, i, s).status.Success? && Segment(f, h, i).Some?
    ensures var ph := Segment(f, h, i).value;
      Loads(f, ph, Loaded(f, h, typ, i, s).pages) <==>
      Loads(f, ph, s.pages) && forall l :: 0 <= l < i ==> ApartFrom(f, h, l, i)
  {
    hide Loaded, Segment, Relocate, SizeToPages, FileRead;
    var ph, pages := Segment(f, h, i).value, Loaded(f, h, typ, i, s).pages;
    forall p: nat
      ensures Free(pages, p) <==> Free(s.pages, p) && forall k :: 0 <= k < i ==> !InSegment(f, h, k, p)
    {
      StillFree(f, h, typ, i, s, p);
    }
    if Loads(f, ph, pages) {
      forall l, p: nat | 0 <= l < i && Segment(f, h, l).Some? && PageOf(ph, p)
        ensures !PageOf(Segment(f, h, l).value, p)
      {
        assert Free(pages, p);
        assert !InSegment(f, h, l, p);
      }
    }
    if Loads(f, ph, s.pages) && forall l :: 0 <= l < i ==> ApartFrom(f, h, l, i) {
      forall p, k | PageOf(ph, p) && 0 <= k < i ensures !InSegment(f, h, k, p) {
        assert ApartFrom(f, h, k, i);
      }
    }
  }

  /** One more header is processed without error exactly when it is fine. */
  lemma StepSucceeds(f: File, h: Ehdr, typ: u32, i: nat, s: Load)
    requires Backed(s.mem, s.pages) && i < h.phnum && typ != EfiConventionalMemory
    requires Loaded(f, h, typ, i, s).status.Success?
    ensures Loaded(f, h, typ, i + 1, s).status.Success? <==> Fine(f, h, i, s.pages)
  {
    var before := Loaded(f, h, typ, i, s);
    assert Loaded(f, h, typ, i + 1, s) == LoadHeader(f, h, typ, i, before);
    hide Loaded, CanClaim, Relocate, SizeToPages, Write, ApartFrom, Read;
    if Segment(f, h, i).Some? {
      LoadsAfter(f, h, typ, i, s);
    }
  }

  lemma {:induction false} SucceedsExactly(f: File, h: Ehdr, typ: u32, i: nat, s: Load)
    requires Backed(s.mem, s.pages) && i <= h.phnum && typ != EfiConventionalMemory && s.status.Success?
    ensures Loaded(f, h, typ, i, s).status.Success? <==> forall k :: 0 <= k < i ==> Fine(f, h, k, s.pages)
  {
    hide LoadHeader, Fine;
    if i > 0 {
      SucceedsExactly(f, h, typ, i - 1, s);
      if Loaded(f, h, typ, i - 1, s).status.Success? {
        StepSucceeds(f, h, typ, i - 1, s);
      }
    }
  }

  /** Segment `k` gets its pages, and loading it writes beyond them. */
  ghost predicate Overruns(f: File, h: Ehdr, typ: u32, k: nat, s: Load)
    requires Backed(s.mem, s.pages) && k < h.phnum
  {
    Granted(f, h, typ, k, s) && LeavesPages(f, Segment(f, h, k).value)
  }

  lemma StepUndefined(f: File, h: Ehdr, typ: u32, i: nat, s: Load)
    requires Backed(s.mem, s.pages) && i < h.phnum && s.status != Undefined
    ensures Loaded(f, h, typ, i + 1, s).status.Undefined? <==>
      Loaded(f, h, typ, i, s).status.Undefined? || Overruns(f, h, typ, i, s)
  {
    hide CanClaim, Relocate, SizeToPages, Write, FileRead, LeavesPages;
    if Granted(f, h, typ, i, s) {
      LeavesExactly(f, typ, Segment(f, h, i).value, Loaded(f, h, typ, i, s));
    }
  }

  /** Loading is undefined if and only if some segment gets its pages and its loading writes beyond them. */
  lemma {:induction false} UndefinedExactly(f: File, h: Ehdr, typ: u32, i: nat, s: Load)
    requires Backed(s.mem, s.pages) && i <= h.phnum && s.status != Undefined
    ensures Loaded(f, h, typ, i, s).status.Undefined? <==> exists k :: 0 <= k < i && Overruns(f, h, typ, k, s)
  {
    hide LoadHeader, Overruns;
    if i > 0 {
      hide Loaded;
      UndefinedExactly(f, h, typ, i - 1, s);
      StepUndefined(f, h, typ, i - 1, s);
    }
  }

  // ---------------------------------------------------------------------------
  // LoadElf as a whole
  // ---------------------------------------------------------------------------

  /** LoadElf succeeds if and only if every program header can be read and every loadable segment is page aligned, not
      empty, in pages that are free at the start and shared with no other segment, and can be read and fits. */
  lemma LoadElfSucceeds(f: File, typ: u32, mem: seq<u8>, pages: PageMap)
    requires Backed(mem, pages) && HeaderStatus(f).Success? && typ != EfiConventionalMemory
    ensures LoadElfResult(f, typ, mem, pages).status.Success? <==>
      forall k :: 0 <= k < Header(f).phnum ==> Fine(f, Header(f), k, pages)
  {
    hide Loaded, HeaderStatus, Header, Fine;
    SucceedsExactly(f, Header(f), typ, Header(f).phnum, Load(mem, pages, 0, Success));
  }

  /** A file whose loadable segments are no larger than their memory never makes LoadElf undefined. */
  lemma SmallFilesDefined(f: File, typ: u32, mem: seq<u8>, pages: PageMap)
    requires Backed(mem, pages) && HeaderStatus(f).Success?
    requires forall k :: 0 <= k < Header(f).phnum && Segment(f, Header(f), k).Some? ==>
      Segment(f, Header(f), k).value.filesz <= Segment(f, Header(f), k).value.memsz
    ensures LoadElfResult(f, typ, mem, pages).status != Undefined
  {
    hide Loaded, HeaderStatus, Header, Segment;
    UndefinedExactly(f, Header(f), typ, Header(f).phnum, Load(mem, pages, 0, Success));
  }

  /** On every path out of LoadElf, whichever step failed: memory outside the pages it claimed is as it was, those
      pages were free, no other page changed hands, and their number is the sum over the granted segments. */
  lemma LoadElfFrame(f: File, typ: u32, mem: seq<u8>, pages: PageMap)
    requires Backed(mem, pages) && HeaderStatus(f).Success? && typ != EfiConventionalMemory
    requires LoadElfResult(f, typ, mem, pages).status != Undefined
    ensures var s, r, h := Load(mem, pages, 0, Success), LoadElfResult(f, typ, mem, pages), Header(f);
      Extends(s, r, typ) && |Claimed(pages, r.pages)| == GrantedPages(f, h, typ, h.phnum, s)
  {
    hide Loaded, Extends, HeaderStatus, Header, GrantedPages, Claimed;
    LoadedExtends(f, Header(f), typ, Header(f).phnum, Load(mem, pages, 0, Success));
    Accounting(f, Header(f), typ, Header(f).phnum, Load(mem, pages, 0, Success));
  }

  /** When LoadElf succeeds every segment is in its pages, no two segments share one, and the reported top is the
      least upper bound of their ends. */
  lemma LoadElfImage(f: File, typ: u32, mem: seq<u8>, pages: PageMap)
    requires Backed(mem, pages) && HeaderStatus(f).Success? && typ != EfiConventionalMemory
    requires LoadElfResult(f, typ, mem, pages).status.Success?
    ensures var r, h := LoadElfResult(f, typ, mem, pages), Header(f);
      && (forall k :: 0 <= k < h.phnum && Segment(f, h, k).Some? ==> Placed(f, Segment(f, h, k).value, r, typ))
      && (forall k, l :: 0 <= k < l < h.phnum && Segment(f, h, k).Some? && Segment(f, h, l).Some? ==>
            Apart(Segment(f, h, k).value, Segment(f, h, l).value))
      && LeastTop(f, h, h.phnum, r.top)
  {
    hide Loaded, Segment, Placed, HeaderStatus, Header, PageOf, LeastTop;
    var s, h := Load(mem, pages, 0, Success), Header(f);
    forall k | 0 <= k < h.phnum && Segment(f, h, k).Some?
      ensures Placed(f, Segment(f, h, k).value, LoadElfResult(f, typ, mem, pages), typ)
    {
      ImagePlaced(f, h, typ, k, h.phnum, s);
    }
    forall k, l | 0 <= k < l < h.phnum && Segment(f, h, k).Some? && Segment(f, h, l).Some?
      ensures Apart(Segment(f, h, k).value, Segment(f, h, l).value)
    {
      forall p: nat ensures !(PageOf(Segment(f, h, k).value, p) && PageOf(Segment(f, h, l).value, p)) {
        SegmentsDisjoint(f, h, typ, k, l, h.phnum, s, p);
      }
    }
    TopExact(f, h, typ, h.phnum, s);
  }

  // ---------------------------------------------------------------------------
  // Files that are written out
  // ---------------------------------------------------------------------------

  /** A file that begins with this header, and has these program headers where the header says. */
  ghost predicate ElfHolds(f: File, h: Ehdr, phs: seq<Phdr>) {
    && |f.bytes| < TWO_64 && HoldsEhdr(f, h) && ForX86(h) && |phs| == h.phnum
    && forall i :: 0 <= i < |phs| ==> HoldsPhdr(f, h.phoff + h.phentsize * i, phs[i])
  }

  lemma HeadersWritten(f: File, h: Ehdr, phs: seq<Phdr>)
    requires ElfHolds(f, h, phs)
    ensures HeaderStatus(f).Success? && Header(f) == h
    ensures forall i :: 0 <= i < |phs| ==>
      PhdrRead(f, h, i).status.Success? && Segment(f, h, i) == if phs[i].typ == 1 then Some(phs[i]) else None
  {
    hide HoldsEhdr, HoldsPhdr, HeaderStatus, Header, PhdrRead, Segment;
    HeaderWritten(f, h);
    forall i | 0 <= i < |phs|
      ensures PhdrRead(f, h, i).status.Success? && Segment(f, h, i) == if phs[i].typ == 1 then Some(phs[i]) else None
    {
      SegmentWritten(f, h, i, phs[i]);
    }
  }

  /** Page `q` is one that a segment lies in. */
  predicate LiesIn(p: Phdr, q: nat) {
    Relocate(p.vaddr) <= 0x1000 * q < Relocate(p.vaddr) + p.memsz
  }

  /** A page-aligned, non-empty segment in free pages (EfiConventionalMemory is 7) that is no larger in the file than in
      memory, and whose bytes are in the file, to be read without fault. */
  ghost predicate Loadable(f: File, p: Phdr, pages: PageMap) {
    && Relocate(p.vaddr) % 0x1000 == 0 && p.memsz > 0 && (forall q: nat :: LiesIn(p, q) ==> q in pages && pages[q] == 7)
    && p.filesz <= p.memsz && if p.offset == TWO_64 - 1 then p.filesz == 0 else Unbroken(f, p.offset, p.filesz)
  }

  lemma CoveredPages(p: Phdr, q: nat)
    requires Relocate(p.vaddr) % 0x1000 == 0
    ensures LiesIn(p, q) <==> PageOf(p, q)
  {
    hide Relocate;
  }

  lemma LoadableLoads(f: File, p: Phdr, pages: PageMap)
    requires |f.bytes| < TWO_64
    ensures Loadable(f, p, pages) <==> Loads(f, p, pages)
  {
    hide Relocate, FileRead, SizeToPages, PageOf, LiesIn, Unbroken;
    ReadExact(f, p.offset, p.filesz);
    if Relocate(p.vaddr) % 0x1000 == 0 {
      forall q: nat ensures LiesIn(p, q) <==> PageOf(p, q) {
        CoveredPages(p, q);
      }
      ClaimsCovered(p, pages);
    }
  }

  lemma ClaimsCovered(p: Phdr, pages: PageMap)
    requires Relocate(p.vaddr) % 0x1000 == 0
    ensures CanClaim(pages, Relocate(p.vaddr), SizeToPages(p.memsz)) <==>
      p.memsz > 0 && forall q: nat :: PageOf(p, q) ==> Free(pages, q)
  {
    hide Relocate;
  }

  /** No loadable segment lies in the page. */
  ghost predicate Uncovered(phs: seq<Phdr>, q: nat) {
    forall k :: 0 <= k < |phs| && phs[k].typ == 1 ==> !LiesIn(phs[k], q)
  }

  /** No page belongs to both segments. */
  ghost predicate NoneShared(p: Phdr, p': Phdr) {
    forall q: nat :: !(LiesIn(p, q) && LiesIn(p', q))
  }

  /** Byte `j` of a segment: a byte of the file, then zeros. */
  ghost predicate WrittenByte(f: File, p: Phdr, j: nat, mem: seq<u8>) {
    var x := Relocate(p.vaddr) + j;
    x < |mem| && if j < p.filesz then p.offset + j < |f.bytes| && mem[x] == f.bytes[p.offset + j] else mem[x] == 0
  }

  /** The image of a written-out file: every byte of every segment is where it belongs, the pages of the segments, and
      no others, have the type asked for, and the top is the least upper bound of the ends. */
  ghost predicate WrittenImage(f: File, phs: seq<Phdr>, typ: u32, pages: PageMap, r: Load) {
    && (forall k, j :: 0 <= k < |phs| && phs[k].typ == 1 && 0 <= j < phs[k].memsz ==> WrittenByte(f, phs[k], j, r.mem))
    && (forall q :: q in pages ==> q in r.pages && r.pages[q] == if Uncovered(phs, q) then pages[q] else typ)
    && (forall k :: 0 <= k < |phs| && phs[k].typ == 1 ==> Relocate(phs[k].vaddr) + phs[k].memsz <= r.top)
    && (r.top == 0 || exists k :: 0 <= k < |phs| && phs[k].typ == 1 && Relocate(phs[k].vaddr) + phs[k].memsz == r.top)
  }

  lemma FineWritten(f: File, h: Ehdr, phs: seq<Phdr>, k: nat, pages: PageMap)
    requires ElfHolds(f, h, phs) && k < |phs|
    ensures Fine(f, h, k, pages) <==>
      (phs[k].typ == 1 ==>
        && Loads(f, phs[k], pages)
        && forall l :: 0 <= l < k && phs[l].typ == 1 ==> Apart(phs[l], phs[k]))
  {
    hide ElfHolds, Loads, Apart, PhdrRead, Segment;
    HeadersWritten(f, h, phs);
    if Fine(f, h, k, pages) && phs[k].typ == 1 {
      forall l | 0 <= l < k && phs[l].typ == 1 ensures Apart(phs[l], phs[k]) {
        assert ApartFrom(f, h, l, k);
      }
    }
  }

  lemma ApartIsNoneShared(p: Phdr, p': Phdr)
    requires Relocate(p.vaddr) % 0x1000 == 0 && Relocate(p'.vaddr) % 0x1000 == 0
    ensures Apart(p, p') <==> NoneShared(p, p')
  {
    hide Relocate, LiesIn, PageOf;
    forall q: nat ensures (LiesIn(p, q) <==> PageOf(p, q)) && (LiesIn(p', q) <==> PageOf(p', q)) {
      CoveredPages(p, q);
      CoveredPages(p', q);
    }
  }

  lemma LoadableAligned(f: File, p: Phdr, pages: PageMap)
    requires Loadable(f, p, pages)
    ensures Relocate(p.vaddr) % 0x1000 == 0
  {
  }

  /** Every header is fine exactly when every loadable segment can be loaded and no two share a page. */
  lemma AllFine(f: File, h: Ehdr, phs: seq<Phdr>, pages: PageMap)
    requires ElfHolds(f, h, phs)
    ensures (forall k :: 0 <= k < |phs| ==> Fine(f, h, k, pages)) <==> AllLoadable(f, phs, pages)
  {
    hide Fine, Loads, Apart, Loadable, NoneShared;
    assert |f.bytes| < TWO_64;
    hide ElfHolds;
    forall k | 0 <= k < |phs|
      ensures Fine(f, h, k, pages) <==>
        (phs[k].typ == 1 ==>
          Loadable(f, phs[k], pages) && forall l :: 0 <= l < k && phs[l].typ == 1 ==> Apart(phs[l], phs[k]))
    {
      FineWritten(f, h, phs, k, pages);
      LoadableLoads(f, phs[k], pages);
    }
    forall k, l | 0 <= k < l < |phs| && phs[k].typ == phs[l].typ == 1 &&
      Loadable(f, phs[k], pages) && Loadable(f, phs[l], pages)
      ensures Apart(phs[k], phs[l]) <==> NoneShared(phs[k], phs[l])
    {
      LoadableAligned(f, phs[k], pages);
      LoadableAligned(f, phs[l], pages);
      ApartIsNoneShared(phs[k], phs[l]);
    }
  }

  ghost predicate AllLoadable(f: File, phs: seq<Phdr>, pages: PageMap) {
    && (forall k :: 0 <= k < |phs| && phs[k].typ == 1 ==> Loadable(f, phs[k], pages))
    && (forall k, l :: 0 <= k < l < |phs| && phs[k].typ == phs[l].typ == 1 ==> NoneShared(phs[k], phs[l]))
  }

  lemma WrittenBytes(f: File, p: Phdr, r: Load, typ: u32, j: nat)
    requires Placed(f, p, r, typ) && j < p.memsz
    ensures WrittenByte(f, p, j, r.mem)
  {
    hide Relocate, PageOf;
    assert r.mem[Relocate(p.vaddr) + j] == ImageByte(f, p, j);
  }

  lemma WrittenPages(f: File, h: Ehdr, phs: seq<Phdr>, typ: u32, mem: seq<u8>, pages: PageMap, q: nat)
    requires ElfHolds(f, h, phs) && Backed(mem, pages) && typ != EfiConventionalMemory && q in pages
    requires HeaderStatus(f).Success? && Header(f) == h && LoadElfResult(f, typ, mem, pages).status.Success?
    requires forall k :: 0 <= k < |phs| && phs[k].typ == 1 ==> Relocate(phs[k].vaddr) % 0x1000 == 0
    ensures var r := LoadElfResult(f, typ, mem, pages);
      q in r.pages && r.pages[q] == if Uncovered(phs, q) then pages[q] else typ
  {
    HeadersWritten(f, h, phs);
    hide ElfHolds, HeaderStatus, Header, Loaded, LiesIn, Segment, PageOf, Relocate, PhdrRead;
    var s := Load(mem, pages, 0, Success);
    StillFree(f, h, typ, h.phnum, s, q);
    LoadedExtends(f, h, typ, h.phnum, s);
    forall k | 0 <= k < |phs| ensures InSegment(f, h, k, q) <==> phs[k].typ == 1 && LiesIn(phs[k], q) {
      if phs[k].typ == 1 {
        CoveredPages(phs[k], q);
      }
    }
    if k :| 0 <= k < |phs| && phs[k].typ == 1 && LiesIn(phs[k], q) {
      assert InSegment(f, h, k, q);
      ImagePlaced(f, h, typ, k, h.phnum, s);
      TakenPage(f, phs[k], Loaded(f, h, typ, h.phnum, s), typ, q);
    }
  }

  lemma TakenPage(f: File, p: Phdr, r: Load, typ: u32, q: nat)
    requires Placed(f, p, r, typ) && PageOf(p, q)
    ensures Taken(r.pages, q, typ)
  {
  }

  lemma WrittenTop(f: File, h: Ehdr, phs: seq<Phdr>, top: nat)
    requires ElfHolds(f, h, phs) && LeastTop(f, h, h.phnum, top)
    ensures forall k :: 0 <= k < |phs| && phs[k].typ == 1 ==> Relocate(phs[k].vaddr) + phs[k].memsz <= top
    ensures top == 0 || exists k :: 0 <= k < |phs| && phs[k].typ == 1 && Relocate(phs[k].vaddr) + phs[k].memsz == top
  {
    HeadersWritten(f, h, phs);
    assert |phs| == h.phnum;
    hide Segment, PhdrRead, Relocate, ElfHolds, HeaderStatus, Header;
    forall k | 0 <= k < |phs| && phs[k].typ == 1 ensures SegmentEnd(phs[k]) <= top {
      assert Segment(f, h, k) == Some(phs[k]);
    }
    if top != 0 {
      var k :| 0 <= k < h.phnum && Segment(f, h, k).Some? && SegmentEnd(Segment(f, h, k).value) == top;
      assert Segment(f, h, k) == Some(phs[k]);
    }
  }

  lemma WrittenSegments(f: File, h: Ehdr, phs: seq<Phdr>, typ: u32, r: Load)
    requires ElfHolds(f, h, phs)
    requires forall k :: 0 <= k < h.phnum && Segment(f, h, k).Some? ==> Placed(f, Segment(f, h, k).value, r, typ)
    ensures forall k, j :: 0 <= k < |phs| && phs[k].typ == 1 && 0 <= j < phs[k].memsz ==>
      WrittenByte(f, phs[k], j, r.mem)
  {
    HeadersWritten(f, h, phs);
    assert |phs| == h.phnum;
    hide ElfHolds, HeaderStatus, Header, Segment, PhdrRead, Placed, WrittenByte;
    forall k, j | 0 <= k < |phs| && phs[k].typ == 1 && 0 <= j < phs[k].memsz ensures WrittenByte(f, phs[k], j, r.mem) {
      assert Segment(f, h, k) == Some(phs[k]);
      WrittenBytes(f, phs[k], r, typ, j);
    }
  }

  lemma WrittenImageHolds(f: File, h: Ehdr, phs: seq<Phdr>, typ: u32, mem: seq<u8>, pages: PageMap)
    requires ElfHolds(f, h, phs) && Backed(mem, pages) && typ != EfiConventionalMemory
    requires HeaderStatus(f).Success? && Header(f) == h && LoadElfResult(f, typ, mem, pages).status.Success?
    requires forall k :: 0 <= k < |phs| && phs[k].typ == 1 ==> Relocate(phs[k].vaddr) % 0x1000 == 0
    ensures WrittenImage(f, phs, typ, pages, LoadElfResult(f, typ, mem, pages))
  {
    hide ElfHolds, HeaderStatus, Header, LoadElfResult, WrittenByte, Uncovered, Segment, Placed, Relocate, Apart,
      LeastTop;
    LoadElfImage(f, typ, mem, pages);
    var r := LoadElfResult(f, typ, mem, pages);
    WrittenSegments(f, h, phs, typ, r);
    forall q | q in pages ensures q in r.pages && r.pages[q] == if Uncovered(phs, q) then pages[q] else typ {
      WrittenPages(f, h, phs, typ, mem, pages, q);
    }
    WrittenTop(f, h, phs, r.top);
  }

  /** The loader's fate for a written-out file, in terms of its headers and bytes: it succeeds if and only if every
      loadable segment can be loaded and no two share a page, and then the image is as written. */
  lemma LoadElfWritten(f: File, h: Ehdr, phs: seq<Phdr>, typ: u32, mem: seq<u8>, pages: PageMap)
    requires ElfHolds(f, h, phs) && Backed(mem, pages) && typ != EfiConventionalMemory
    ensures HeaderStatus(f).Success? && Header(f) == h
    ensures LoadElfResult(f, typ, mem, pages).status.Success? <==> AllLoadable(f, phs, pages)
    ensures AllLoadable(f, phs, pages) ==> WrittenImage(f, phs, typ, pages, LoadElfResult(f, typ, mem, pages))
  {
    HeadersWritten(f, h, phs);
    AllFine(f, h, phs, pages);
    assert |phs| == h.phnum;
    hide ElfHolds, HeaderStatus, Header, LoadElfResult, Fine, Loadable, WrittenImage, NoneShared, Segment, PhdrRead,
      Relocate;
    LoadElfSucceeds(f, typ, mem, pages);
    if AllLoadable(f, phs, pages) {
      forall k | 0 <= k < |phs| && phs[k].typ == 1 ensures Relocate(phs[k].vaddr) % 0x1000 == 0 {
        LoadableAligned(f, phs[k], pages);
      }
      WrittenImageHolds(f, h, phs, typ, mem, pages);
    }
  }
}
