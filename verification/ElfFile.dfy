/** A kernel file: exact reads, and the ELF-64 headers the loader reads from it. */
module ElfFile {
  import opened Bytes
  import opened Uefi

  /** A file on some medium. A read that starts at a position in `faults` breaks off with a device error after
      that many bytes. */
  datatype File = File(bytes: seq<u8>, faults: map<nat, nat>)

  /** The bytes that reached the buffer, and the status. */
  datatype Transfer = Transfer(data: seq<u8>, status: Status)

  /** EFI_FILE_PROTOCOL SetPosition and Read: reads stop at the end of the file, starting beyond it is an error,
      and position 2^64 - 1 stands for the end. */
  function Read(f: File, position: u64, size: u64): (t: Transfer)
    ensures |t.data| <= size && !t.status.Undefined?
  {
    var p := if position == TWO_64 - 1 then |f.bytes| else position;
    if p > |f.bytes| then Transfer([], DeviceError)
    else
      var n := if size <= |f.bytes| - p then size else |f.bytes| - p;
      if p in f.faults && f.faults[p] < n then Transfer(f.bytes[p..p + f.faults[p]], DeviceError)
      else Transfer(f.bytes[p..p + n], Success)
  }

  /** FileRead: anything less than the size asked for is an error. What was delivered is in the buffer even so. */
  function FileRead(f: File, position: u64, size: u64): (t: Transfer)
    ensures |t.data| <= size && !t.status.Undefined?
    ensures t.status.Success? ==> |t.data| == size
    ensures t.status.Success? && size > 0 ==>
      position + size <= |f.bytes| && t.data == f.bytes[position..position + size]
  {
    var t := Read(f, position, size);
    if t.status.Success? && |t.data| != size then t.(status := InvalidParameter) else t
  }

  /** The file holds the bytes from `a` to `a + n`, and no fault breaks a read of them. */
  predicate Unbroken(f: File, a: nat, n: nat) {
    a + n <= |f.bytes| && !(a in f.faults && f.faults[a] < n)
  }

  /** A read succeeds exactly when the file holds all the bytes and no fault breaks it; the position 2^64 - 1 is the end
      of the file, at which only nothing can be read. In any case what is delivered is what is in the file there. */
  lemma ReadExact(f: File, position: u64, size: u64)
    requires |f.bytes| < TWO_64
    ensures var t := FileRead(f, position, size);
      && (t.status.Success? <==> if position == TWO_64 - 1 then size == 0 else Unbroken(f, position, size))
      && (forall j :: 0 <= j < |t.data| ==> position + j < |f.bytes| && t.data[j] == f.bytes[position + j])
      && (position <= |f.bytes| && position !in f.faults ==> |t.data| == size || position + |t.data| == |f.bytes|)
      && (position < |f.bytes| < position + size && position !in f.faults ==> t.status == InvalidParameter)
    ensures position in f.faults && f.faults[position] < size && position + f.faults[position] < |f.bytes| ==>
      |FileRead(f, position, size).data| == f.faults[position] && FileRead(f, position, size).status == DeviceError
  {
  }

  const EHDR_SIZE: nat := 64
  const PHDR_SIZE: nat := 56
  const SHDR_SIZE: nat := 64
  const PT_LOAD: u32 := 1
  const EM_X86_64: u16 := 62

  datatype Ehdr = Ehdr(
    ident: seq<u8>, machine: u16, entry: u64, phoff: u64, shoff: u64,
    phentsize: u16, phnum: u16, shentsize: u16, shnum: u16, shstrndx: u16)

  datatype Phdr = Phdr(typ: u32, offset: u64, vaddr: u64, filesz: u64, memsz: u64)

  datatype Shdr = Shdr(name: u32, offset: u64, size: u64)

  function ParseEhdr(b: seq<u8>): (h: Ehdr)
    requires |b| == EHDR_SIZE
    ensures |h.ident| == 16
  {
    Ehdr(b[..16], U16(b, 18), U64(b, 24), U64(b, 32), U64(b, 40),
         U16(b, 54), U16(b, 56), U16(b, 58), U16(b, 60), U16(b, 62))
  }

  function ParsePhdr(b: seq<u8>): Phdr
    requires |b| == PHDR_SIZE
  {
    Phdr(U32(b, 0), U64(b, 8), U64(b, 16), U64(b, 32), U64(b, 40))
  }

  function ParseShdr(b: seq<u8>): Shdr
    requires |b| == SHDR_SIZE
  {
    Shdr(U32(b, 0), U64(b, 24), U64(b, 32))
  }

  /** ELF magic, little-endian, current version, x86-64. */
  predicate Acceptable(h: Ehdr)
    requires |h.ident| == 16
  {
    h.ident[..4] == [0x7f, 0x45, 0x4c, 0x46] && h.ident[5] == 1 && h.ident[6] == 1 && h.machine == EM_X86_64
  }

  /** Status of reading and checking the file header. */
  function HeaderStatus(f: File): Status {
    var t := FileRead(f, 0, EHDR_SIZE);
    if !t.status.Success? then t.status
    else if Acceptable(ParseEhdr(t.data)) then Success else InvalidParameter
  }

  function Header(f: File): Ehdr
    requires HeaderStatus(f).Success?
  {
    ParseEhdr(FileRead(f, 0, EHDR_SIZE).data)
  }

  /** Where table entry `i` lies, in 64-bit arithmetic. */
  function EntryOffset(table: u64, entrySize: u16, i: nat): u64 {
    (table + entrySize * i) % TWO_64
  }

  /** Reading program header `i`. */
  function PhdrRead(f: File, h: Ehdr, i: nat): Transfer {
    FileRead(f, EntryOffset(h.phoff, h.phentsize, i), PHDR_SIZE)
  }

  /** The segment program header `i` describes, when it can be read and is a loadable one. */
  function Segment(f: File, h: Ehdr, i: nat): Option<Phdr> {
    var t := PhdrRead(f, h, i);
    if t.status.Success? && ParsePhdr(t.data).typ == PT_LOAD then Some(ParsePhdr(t.data)) else None
  }

  /** Reading section header `i`. */
  function ShdrRead(f: File, h: Ehdr, i: nat): Transfer {
    FileRead(f, EntryOffset(h.shoff, h.shentsize, i), SHDR_SIZE)
  }

  // ---------------------------------------------------------------------------
  // Layout: the headers as the C structures lay them out
  // ---------------------------------------------------------------------------

  function EhdrBytes(h: Ehdr, typ: u16, version: u32, flags: u32, ehsize: u16): seq<u8> {
    h.ident + Bytes16(typ) + Bytes16(h.machine) + Bytes32(version) + Bytes64(h.entry) + Bytes64(h.phoff)
    + Bytes64(h.shoff) + Bytes32(flags) + Bytes16(ehsize) + Bytes16(h.phentsize) + Bytes16(h.phnum)
    + Bytes16(h.shentsize) + Bytes16(h.shnum) + Bytes16(h.shstrndx)
  }

  lemma EhdrRoundTrip(h: Ehdr, typ: u16, version: u32, flags: u32, ehsize: u16)
    requires |h.ident| == 16
    ensures |EhdrBytes(h, typ, version, flags, ehsize)| == EHDR_SIZE
    ensures ParseEhdr(EhdrBytes(h, typ, version, flags, ehsize)) == h
  {
    hide Digits, LittleEndian, Pow256;
    WordSizes();
    var b := EhdrBytes(h, typ, version, flags, ehsize);
    FieldIs(b, 18, h.machine, 2);
    FieldIs(b, 24, h.entry, 8);
    FieldIs(b, 32, h.phoff, 8);
    FieldIs(b, 40, h.shoff, 8);
    FieldIs(b, 54, h.phentsize, 2);
    FieldIs(b, 56, h.phnum, 2);
    FieldIs(b, 58, h.shentsize, 2);
    FieldIs(b, 60, h.shnum, 2);
    FieldIs(b, 62, h.shstrndx, 2);
  }

  function PhdrBytes(p: Phdr, flags: u32, paddr: u64, align: u64): seq<u8> {
    Bytes32(p.typ) + Bytes32(flags) + Bytes64(p.offset) + Bytes64(p.vaddr) + Bytes64(paddr)
    + Bytes64(p.filesz) + Bytes64(p.memsz) + Bytes64(align)
  }

  lemma PhdrRoundTrip(p: Phdr, flags: u32, paddr: u64, align: u64)
    ensures |PhdrBytes(p, flags, paddr, align)| == PHDR_SIZE
    ensures ParsePhdr(PhdrBytes(p, flags, paddr, align)) == p
  {
    hide Digits, LittleEndian, Pow256;
    WordSizes();
    var b := PhdrBytes(p, flags, paddr, align);
    FieldIs(b, 0, p.typ, 4);
    FieldIs(b, 8, p.offset, 8);
    FieldIs(b, 16, p.vaddr, 8);
    FieldIs(b, 32, p.filesz, 8);
    FieldIs(b, 40, p.memsz, 8);
  }

  function ShdrBytes(s: Shdr, typ: u32, flags: u64, address: u64, link: u32, info: u32, align: u64,
                     entsize: u64): seq<u8>
  {
    Bytes32(s.name) + Bytes32(typ) + Bytes64(flags) + Bytes64(address) + Bytes64(s.offset) + Bytes64(s.size)
    + Bytes32(link) + Bytes32(info) + Bytes64(align) + Bytes64(entsize)
  }

  lemma ShdrRoundTrip(s: Shdr, typ: u32, flags: u64, address: u64, link: u32, info: u32, align: u64, entsize: u64)
    ensures |ShdrBytes(s, typ, flags, address, link, info, align, entsize)| == SHDR_SIZE
    ensures ParseShdr(ShdrBytes(s, typ, flags, address, link, info, align, entsize)) == s
  {
    hide Digits, LittleEndian, Pow256;
    WordSizes();
    var b := ShdrBytes(s, typ, flags, address, link, info, align, entsize);
    FieldIs(b, 0, s.name, 4);
    FieldIs(b, 24, s.offset, 8);
    FieldIs(b, 32, s.size, 8);
  }

  // ---------------------------------------------------------------------------
  // Files whose headers are written out
  // ---------------------------------------------------------------------------

  /** `n` bytes at a place in the file, read without fault. */
  lemma ReadsSlice(f: File, position: nat, size: u64)
    requires |f.bytes| < TWO_64 && Unbroken(f, position, size)
    ensures FileRead(f, position, size) == Transfer(f.bytes[position..position + size], Success)
  {
    ReadExact(f, position, size);
  }

  /** The file begins with this header, whatever is in the fields that are not read. */
  ghost predicate HoldsEhdr(f: File, h: Ehdr) {
    |h.ident| == 16 && Unbroken(f, 0, 64) && exists typ: u16, version: u32, flags: u32, ehsize: u16 ::
      f.bytes[0..64] == EhdrBytes(h, typ, version, flags, ehsize)
  }

  /** The ELF magic, little-endian, version 1, for x86-64. */
  predicate ForX86(h: Ehdr)
    requires |h.ident| == 16
  {
    && h.ident[0] == 0x7f && h.ident[1] == 'E' as int && h.ident[2] == 'L' as int && h.ident[3] == 'F' as int
    && h.ident[5] == 1 && h.ident[6] == 1 && h.machine == 62
  }

  /** The header is accepted if and only if it is such a header; then it is the one that is written there. */
  lemma HeaderWritten(f: File, h: Ehdr)
    requires |f.bytes| < TWO_64 && HoldsEhdr(f, h)
    ensures HeaderStatus(f) == if ForX86(h) then Success else InvalidParameter
    ensures HeaderStatus(f).Success? ==> Header(f) == h
  {
    hide ParseEhdr, EhdrBytes, FileRead;
    ReadsSlice(f, 0, 64);
    var typ: u16, version: u32, flags: u32, ehsize: u16 :|
      f.bytes[0..64] == EhdrBytes(h, typ, version, flags, ehsize);
    EhdrRoundTrip(h, typ, version, flags, ehsize);
  }

  /** A file too short for a header, or broken there, is not accepted. */
  lemma HeaderMissing(f: File)
    requires |f.bytes| < TWO_64 && !Unbroken(f, 0, 64)
    ensures !HeaderStatus(f).Success?
  {
    ReadExact(f, 0, 64);
  }

  /** These are the bytes of the program header, whatever is in the fields that are not read. */
  ghost predicate IsPhdr(b: seq<u8>, p: Phdr) {
    exists flags: u32, paddr: u64, align: u64 :: b == PhdrBytes(p, flags, paddr, align)
  }

  lemma PhdrParsed(b: seq<u8>, p: Phdr)
    requires IsPhdr(b, p)
    ensures |b| == 56 && ParsePhdr(b) == p
  {
    hide ParsePhdr, PhdrBytes;
    forall flags: u32, paddr: u64, align: u64 | b == PhdrBytes(p, flags, paddr, align)
      ensures |b| == 56 && ParsePhdr(b) == p
    {
      PhdrRoundTrip(p, flags, paddr, align);
    }
  }

  /** The program header at `a` can be read and is this one. */
  ghost predicate HoldsPhdr(f: File, a: nat, p: Phdr) {
    Unbroken(f, a, 56) && IsPhdr(f.bytes[a..a + 56], p)
  }

  /** The segment of header `i` is the one that is written at the start of the table plus `i` times the entry size. */
  lemma SegmentWritten(f: File, h: Ehdr, i: nat, p: Phdr)
    requires |f.bytes| < TWO_64 && HoldsPhdr(f, h.phoff + h.phentsize * i, p)
    ensures PhdrRead(f, h, i).status.Success?
    ensures Segment(f, h, i) == if p.typ == 1 then Some(p) else None
  {
    var a := h.phoff + h.phentsize * i;
    hide Segment, PhdrRead, IsPhdr;
    HeldPhdr(f, a, p);
    hide HoldsPhdr;
    PhdrReadAt(f, h, i, a);
    SegmentRead(f, h, i, p, f.bytes[a..a + 56]);
  }

  lemma HeldPhdr(f: File, a: nat, p: Phdr)
    requires HoldsPhdr(f, a, p)
    ensures Unbroken(f, a, 56) && IsPhdr(f.bytes[a..a + 56], p)
  {
  }

  lemma PhdrReadAt(f: File, h: Ehdr, i: nat, a: nat)
    requires |f.bytes| < TWO_64 && a == h.phoff + h.phentsize * i && Unbroken(f, a, 56)
    ensures PhdrRead(f, h, i) == Transfer(f.bytes[a..a + 56], Success)
  {
    hide EntryOffset, FileRead;
    InFile(f, h.phoff, h.phentsize, i, a, 56);
  }

  lemma SegmentRead(f: File, h: Ehdr, i: nat, p: Phdr, b: seq<u8>)
    requires PhdrRead(f, h, i) == Transfer(b, Success) && IsPhdr(b, p)
    ensures Segment(f, h, i) == if p.typ == 1 then Some(p) else None
  {
    hide PhdrRead, IsPhdr, ParsePhdr;
    PhdrParsed(b, p);
  }

  lemma ShdrReadAt(f: File, h: Ehdr, i: nat, a: nat)
    requires |f.bytes| < TWO_64 && a == h.shoff + h.shentsize * i && Unbroken(f, a, 64)
    ensures ShdrRead(f, h, i) == Transfer(f.bytes[a..a + 64], Success)
  {
    hide EntryOffset, FileRead;
    InFile(f, h.shoff, h.shentsize, i, a, 64);
  }

  /** An entry that lies in the file is read from where it lies. */
  lemma InFile(f: File, table: u64, entrySize: u16, i: nat, a: nat, n: u64)
    requires |f.bytes| < TWO_64 && a == table + entrySize * i && Unbroken(f, a, n) && n > 0
    ensures EntryOffset(table, entrySize, i) == a && FileRead(f, a, n) == Transfer(f.bytes[a..a + n], Success)
  {
    hide FileRead;
    DivMod(a, TWO_64, 0, a);
    ReadsSlice(f, a, n);
  }

  /** These are the bytes of the section header, whatever is in the fields that are not read. */
  ghost predicate IsShdr(b: seq<u8>, s: Shdr) {
    exists typ: u32, flags: u64, address: u64, link: u32, info: u32, align: u64, entsize: u64 ::
      b == ShdrBytes(s, typ, flags, address, link, info, align, entsize)
  }

  lemma ShdrParsed(b: seq<u8>, s: Shdr)
    requires IsShdr(b, s)
    ensures |b| == 64 && ParseShdr(b) == s
  {
    hide ParseShdr, ShdrBytes;
    forall typ: u32, flags: u64, address: u64, link: u32, info: u32, align: u64, entsize: u64 |
      b == ShdrBytes(s, typ, flags, address, link, info, align, entsize)
      ensures |b| == 64 && ParseShdr(b) == s
    {
      ShdrRoundTrip(s, typ, flags, address, link, info, align, entsize);
    }
  }

  /** The section header at `a` can be read and is this one. */
  ghost predicate HoldsShdr(f: File, a: nat, s: Shdr) {
    Unbroken(f, a, 64) && IsShdr(f.bytes[a..a + 64], s)
  }

  lemma HeldShdr(f: File, a: nat, s: Shdr)
    requires HoldsShdr(f, a, s)
    ensures Unbroken(f, a, 64) && IsShdr(f.bytes[a..a + 64], s)
  {
  }

  lemma SectionRead(f: File, h: Ehdr, i: nat, s: Shdr, b: seq<u8>)
    requires ShdrRead(f, h, i) == Transfer(b, Success) && IsShdr(b, s)
    ensures ShdrRead(f, h, i).status.Success? && ParseShdr(ShdrRead(f, h, i).data) == s
  {
    hide ShdrRead, IsShdr, ParseShdr;
    ShdrParsed(b, s);
  }

  lemma SectionWritten(f: File, h: Ehdr, i: nat, s: Shdr)
    requires |f.bytes| < TWO_64 && HoldsShdr(f, h.shoff + h.shentsize * i, s)
    ensures ShdrRead(f, h, i).status.Success? && ParseShdr(ShdrRead(f, h, i).data) == s
  {
    var a := h.shoff + h.shentsize * i;
    hide IsShdr, ShdrRead, ParseShdr;
    HeldShdr(f, a, s);
    hide HoldsShdr;
    ShdrReadAt(f, h, i, a);
    SectionRead(f, h, i, s, f.bytes[a..a + 64]);
  }
}
