/** The conversion loop of LoadOrigamiKernel: the firmware's memory descriptors are rewritten, in the buffer
    they arrived in, as packed E820 entries. */
module MemoryMap {
  import opened Bytes
  import opened Uefi
  import opened E820

  /** sizeof(EFI_MEMORY_DESCRIPTOR); firmware may space descriptors further apart. */
  const DESCRIPTOR_SIZE: nat := 40
  /** sizeof(struct E820_ENTRY), packed. */
  const ENTRY_SIZE: nat := 20

  function DescriptorAt(m: seq<u8>, a: nat): Descriptor
    requires a + DESCRIPTOR_SIZE <= |m|
  {
    Descriptor(U32(m, a), U64(m, a + 8), U64(m, a + 24))
  }

  /** EFI_MEMORY_DESCRIPTOR as C lays it out: four bytes of padding follow the type. */
  function DescriptorBytes(d: Descriptor, padding: u32, virtualStart: u64, attribute: u64): seq<u8> {
    Bytes32(d.typ) + Bytes32(padding) + Bytes64(d.start) + Bytes64(virtualStart) + Bytes64(d.pages) + Bytes64(attribute)
  }

  lemma DescriptorRoundTrip(d: Descriptor, padding: u32, virtualStart: u64, attribute: u64)
    ensures |DescriptorBytes(d, padding, virtualStart, attribute)| == DESCRIPTOR_SIZE
    ensures DescriptorAt(DescriptorBytes(d, padding, virtualStart, attribute), 0) == d
  {
    hide Digits, LittleEndian, Pow256;
    WordSizes();
    var b := DescriptorBytes(d, padding, virtualStart, attribute);
    FieldIs(b, 0, d.typ, 4);
    FieldIs(b, 8, d.start, 8);
    FieldIs(b, 24, d.pages, 8);
  }

  /** How many descriptors a buffer holds; a remainder smaller than the stride is not read. */
  function Count(size: nat, stride: nat): nat
    requires stride > 0
  {
    size / stride
  }

  /** Where descriptor number `index` lies. */
  function Offset(stride: nat, index: nat): nat {
    stride * index
  }

  /** How far the last descriptor may reach beyond the size, when descriptors overlap. */
  function Overhang(stride: nat): nat {
    if stride < DESCRIPTOR_SIZE then DESCRIPTOR_SIZE - stride else 0
  }

  lemma OffsetFits(size: nat, stride: nat, i: nat)
    requires stride > 0 && i < Count(size, stride)
    ensures Offset(stride, i) + stride <= size
    ensures Offset(stride, i) + DESCRIPTOR_SIZE <= size + Overhang(stride)
  {
    MulMono(i + 1, size / stride, stride);
    Euclid(size, stride);
  }

  /** The entries that may exist when descriptor `i` is read end at or before it. */
  lemma WriterBehindReader(stride: nat, i: nat)
    requires stride >= ENTRY_SIZE
    ensures i * ENTRY_SIZE <= Offset(stride, i)
  {
    MulMono(ENTRY_SIZE, stride, i);
  }

  lemma CountFits(size: nat, stride: nat)
    requires stride >= ENTRY_SIZE
    ensures Count(size, stride) * ENTRY_SIZE <= size
  {
    WriterBehindReader(stride, size / stride);
    Euclid(size, stride);
  }

  /** The firmware's memory map: descriptors `stride` bytes apart in `size` bytes from `base` on. */
  function Reported(m: seq<u8>, base: nat, size: nat, stride: nat): (ds: seq<Descriptor>)
    requires stride > 0 && base + size + Overhang(stride) <= |m|
    ensures |ds| == Count(size, stride)
  {
    seq(Count(size, stride), i requires 0 <= i < Count(size, stride) =>
      OffsetFits(size, stride, i); DescriptorAt(m, base + Offset(stride, i)))
  }

  lemma SameDescriptor(m: seq<u8>, a: nat, r: seq<u8>, b: nat)
    requires a + DESCRIPTOR_SIZE <= |m| && b + DESCRIPTOR_SIZE <= |r|
    requires m[a..a + DESCRIPTOR_SIZE] == r[b..b + DESCRIPTOR_SIZE]
    ensures DescriptorAt(m, a) == DescriptorAt(r, b)
  {
    SameField(m, a, r, b, 0, 4);
    SameField(m, a, r, b, 8, 8);
    SameField(m, a, r, b, 24, 8);
  }

  lemma SubSlice(m: seq<u8>, a: nat, d: nat, k: nat, n: nat)
    requires a + d <= |m| && k + n <= d
    ensures m[a..a + d][k..k + n] == m[a + k..a + k + n]
  {
    var u := m[a..a + d];
    var v, w := u[k..k + n], m[a + k..a + k + n];
    forall q | 0 <= q < n ensures v[q] == w[q] {
      assert v[q] == u[k + q];
      assert u[k + q] == m[a + (k + q)];
    }
  }

  lemma SameField(m: seq<u8>, a: nat, r: seq<u8>, b: nat, k: nat, n: nat)
    requires a + DESCRIPTOR_SIZE <= |m| && b + DESCRIPTOR_SIZE <= |r| && k + n <= DESCRIPTOR_SIZE
    requires m[a..a + DESCRIPTOR_SIZE] == r[b..b + DESCRIPTOR_SIZE]
    ensures LittleEndian(m, a + k, n) == LittleEndian(r, b + k, n)
  {
    SubSlice(m, a, DESCRIPTOR_SIZE, k, n);
    SubSlice(r, b, DESCRIPTOR_SIZE, k, n);
    SameBytes(m, a + k, r, b + k, n);
  }

  /** The bytes of a descriptor, whatever is in the fields that are not read. */
  ghost predicate HoldsDescriptor(m: seq<u8>, a: nat, d: Descriptor) {
    a + DESCRIPTOR_SIZE <= |m| && exists padding: u32, virtualStart: u64, attribute: u64 ::
      m[a..a + DESCRIPTOR_SIZE] == DescriptorBytes(d, padding, virtualStart, attribute)
  }

  lemma HeldIsRead(m: seq<u8>, a: nat, d: Descriptor)
    requires HoldsDescriptor(m, a, d)
    ensures DescriptorAt(m, a) == d
  {
    hide DescriptorAt, DescriptorBytes;
    var padding: u32, virtualStart: u64, attribute: u64 :|
      m[a..a + DESCRIPTOR_SIZE] == DescriptorBytes(d, padding, virtualStart, attribute);
    var b := DescriptorBytes(d, padding, virtualStart, attribute);
    DescriptorRoundTrip(d, padding, virtualStart, attribute);
    assert b[0..0 + DESCRIPTOR_SIZE] == b;
    SameDescriptor(m, a, b, 0);
  }

  lemma Field32(m: seq<u8>, a: nat)
    requires a + 4 <= |m|
    ensures Bytes32(U32(m, a)) == m[a..a + 4]
  {
    DigitsOfField(m, a, 4);
  }

  lemma Field64(m: seq<u8>, a: nat)
    requires a + 8 <= |m|
    ensures Bytes64(U64(m, a)) == m[a..a + 8]
  {
    DigitsOfField(m, a, 8);
  }

  lemma SixFields(m: seq<u8>, a: nat)
    requires a + DESCRIPTOR_SIZE <= |m|
    ensures m[a..a + DESCRIPTOR_SIZE] ==
      m[a..a + 4] + m[a + 4..a + 8] + m[a + 8..a + 16] + m[a + 16..a + 24] + m[a + 24..a + 32] + m[a + 32..a + 40]
  {
  }

  /** Any 40 bytes are the bytes of the descriptor read from them. */
  lemma ReadIsHeld(m: seq<u8>, a: nat)
    requires a + DESCRIPTOR_SIZE <= |m|
    ensures HoldsDescriptor(m, a, DescriptorAt(m, a))
  {
    SixFields(m, a);
    hide U32, U64, Bytes32, Bytes64;
    Field32(m, a);
    Field32(m, a + 4);
    Field64(m, a + 8);
    Field64(m, a + 16);
    Field64(m, a + 24);
    Field64(m, a + 32);
    assert DescriptorBytes(DescriptorAt(m, a), U32(m, a + 4), U64(m, a + 16), U64(m, a + 32)) == m[a..a + 40];
  }

  /** A memory map written out: descriptor `i` at `stride * i`, and less than a stride left over at the end. */
  ghost predicate MapHolds(m: seq<u8>, base: nat, size: nat, stride: nat, ds: seq<Descriptor>) {
    && |ds| * stride <= size < (|ds| + 1) * stride && AllKnown(ds)
    && forall i :: 0 <= i < |ds| ==> HoldsDescriptor(m, base + stride * i, ds[i])
  }

  /** It is what is read. */
  lemma ReportedIs(m: seq<u8>, base: nat, size: nat, stride: nat, ds: seq<Descriptor>)
    requires stride > 0 && base + size + Overhang(stride) <= |m| && MapHolds(m, base, size, stride, ds)
    ensures Reported(m, base, size, stride) == ds
  {
    hide HoldsDescriptor, DescriptorAt;
    DivMod(size, stride, |ds|, size - |ds| * stride);
    forall i | 0 <= i < |ds| ensures Reported(m, base, size, stride)[i] == ds[i] {
      HeldIsRead(m, base + stride * i, ds[i]);
    }
  }

  lemma DescriptorIsHeld(m: seq<u8>, base: nat, size: nat, stride: nat, i: nat)
    requires stride > 0 && base + size + Overhang(stride) <= |m| && i < Count(size, stride)
    ensures HoldsDescriptor(m, base + stride * i, Reported(m, base, size, stride)[i])
  {
    hide HoldsDescriptor, DescriptorAt;
    OffsetFits(size, stride, i);
    ReadIsHeld(m, base + Offset(stride, i));
  }

  /** Every buffer holds a memory map. */
  lemma MapIsHeld(m: seq<u8>, base: nat, size: nat, stride: nat)
    requires stride > 0 && base + size + Overhang(stride) <= |m| && AllKnown(Reported(m, base, size, stride))
    ensures MapHolds(m, base, size, stride, Reported(m, base, size, stride))
  {
    Euclid(size, stride);
    hide HoldsDescriptor, Reported;
    forall i | 0 <= i < Count(size, stride)
      ensures HoldsDescriptor(m, base + stride * i, Reported(m, base, size, stride)[i])
    {
      DescriptorIsHeld(m, base, size, stride, i);
    }
    CountIs(m, base, size, stride);
  }

  lemma CountIs(m: seq<u8>, base: nat, size: nat, stride: nat)
    requires stride > 0 && base + size + Overhang(stride) <= |m|
    ensures |Reported(m, base, size, stride)| == size / stride
  {
  }

  function EntryAt(m: seq<u8>, a: nat): Range
    requires a + ENTRY_SIZE <= |m|
  {
    Range(U64(m, a), U64(m, a + 8), U32(m, a + 16))
  }

  /** The first `n` entries of the table at `base`, as the kernel reads them. */
  function Entries(m: seq<u8>, base: nat, n: nat): (rs: seq<Range>)
    requires base + n * ENTRY_SIZE <= |m|
    ensures |rs| == n
  {
    seq(n, i requires 0 <= i < n => EntryAt(m, base + i * ENTRY_SIZE))
  }

  /** struct E820_ENTRY as C lays it out, packed. */
  function EntryBytes(e: Range): (b: seq<u8>)
    ensures |b| == ENTRY_SIZE
  {
    Bytes64(e.start) + Bytes64(e.size) + Bytes32(e.typ)
  }

  /** The entries written out, one after another. */
  ghost predicate TableHolds(m: seq<u8>, base: nat, out: seq<Range>) {
    && base + 20 * |out| <= |m|
    && forall i :: 0 <= i < |out| ==> m[base + 20 * i..base + 20 * i + 20] == EntryBytes(out[i])
  }

  lemma EntryIsHeld(m: seq<u8>, a: nat)
    requires a + ENTRY_SIZE <= |m|
    ensures m[a..a + 20] == EntryBytes(EntryAt(m, a))
  {
    hide U32, U64, Bytes32, Bytes64;
    Field64(m, a);
    Field64(m, a + 8);
    Field32(m, a + 16);
    assert m[a..a + 20] == m[a..a + 8] + m[a + 8..a + 16] + m[a + 16..a + 20];
  }

  lemma TableIsHeld(m: seq<u8>, base: nat, out: seq<Range>)
    requires Table(m, base, out)
    ensures TableHolds(m, base, out)
  {
    hide EntryAt, EntryBytes;
    forall i | 0 <= i < |out| ensures m[base + 20 * i..base + 20 * i + 20] == EntryBytes(out[i]) {
      EntryIsHeld(m, base + 20 * i);
      assert Entries(m, base, |out|)[i] == EntryAt(m, base + i * ENTRY_SIZE);
    }
  }

  lemma EntrySame(m: seq<u8>, r: seq<u8>, a: nat)
    requires a + ENTRY_SIZE <= |m| && Same(m, r, a, a + ENTRY_SIZE)
    ensures EntryAt(m, a) == EntryAt(r, a)
  {
    SameWord(m, r, a, 8);
    SameWord(m, r, a + 8, 8);
    SameWord(m, r, a + 16, 4);
  }

  lemma EntriesSame(m: seq<u8>, r: seq<u8>, base: nat, n: nat)
    requires base + n * ENTRY_SIZE <= |m| && Same(m, r, base, base + n * ENTRY_SIZE)
    ensures Entries(m, base, n) == Entries(r, base, n)
  {
    forall i | 0 <= i < n ensures Entries(m, base, n)[i] == Entries(r, base, n)[i] {
      EntrySame(m, r, base + i * ENTRY_SIZE);
    }
  }

  /** The entries written so far are `out`. */
  ghost predicate Table(m: seq<u8>, base: nat, out: seq<Range>) {
    base + |out| * ENTRY_SIZE <= |m| && Entries(m, base, |out|) == out
  }

  /** `r` holds the entries `out`, and differs from `m` nowhere else. */
  ghost predicate Updates(m: seq<u8>, r: seq<u8>, base: nat, out: seq<Range>) {
    Table(r, base, out) && Same(m, r, 0, base) && Same(m, r, base + |out| * ENTRY_SIZE, |m|)
  }

  lemma ResizedEntry(m: seq<u8>, a: nat, size: u64)
    requires a + ENTRY_SIZE <= |m|
    ensures EntryAt(Write(m, a + 8, Bytes64(size)), a) == EntryAt(m, a).(size := size)
  {
    ReadBack64(m, a + 8, size);
    SameWord(m, Write(m, a + 8, Bytes64(size)), a, 8);
    SameWord(m, Write(m, a + 8, Bytes64(size)), a + 16, 4);
  }

  /** Overwriting the size of the last entry. */
  lemma EntryResized(m: seq<u8>, base: nat, out: seq<Range>, size: u64)
    requires Table(m, base, out) && out != []
    ensures Updates(m, Write(m, base + (|out| - 1) * ENTRY_SIZE + 8, Bytes64(size)), base,
                    Init(out) + [Last(out).(size := size)])
  {
    hide U64, U32, Bytes64;
    var last, n := base + (|out| - 1) * ENTRY_SIZE, |out|;
    var r := Write(m, last + 8, Bytes64(size));
    EntriesSame(m, r, base, n - 1);
    assert Init(Entries(m, base, n)) == Entries(m, base, n - 1);
    assert Init(Entries(r, base, n)) == Entries(r, base, n - 1);
    ResizedEntry(m, last, size);
  }

  function PutEntry(m: seq<u8>, a: nat, e: Range): (r: seq<u8>)
    requires a + ENTRY_SIZE <= |m|
    ensures Same(m, r, 0, a) && Same(m, r, a + ENTRY_SIZE, |m|)
  {
    Write(Write(Write(m, a, Bytes64(e.start)), a + 8, Bytes64(e.size)), a + 16, Bytes32(e.typ))
  }

  lemma EntryPut(m: seq<u8>, a: nat, e: Range)
    requires a + ENTRY_SIZE <= |m|
    ensures EntryAt(PutEntry(m, a, e), a) == e
  {
    var m1 := Write(m, a, Bytes64(e.start));
    var m2 := Write(m1, a + 8, Bytes64(e.size));
    var m3 := PutEntry(m, a, e);
    ReadBack64(m, a, e.start);
    ReadBack64(m1, a + 8, e.size);
    ReadBack32(m2, a + 16, e.typ);
    SameWord(m1, m3, a, 8);
    SameWord(m2, m3, a + 8, 8);
  }

  /** `r` is `m` with one more entry behind the table. */
  lemma TableGrows(m: seq<u8>, r: seq<u8>, base: nat, out: seq<Range>)
    requires Table(m, base, out) && base + (|out| + 1) * ENTRY_SIZE <= |r|
    requires Same(m, r, 0, base + |out| * ENTRY_SIZE) && Same(m, r, base + (|out| + 1) * ENTRY_SIZE, |m|)
    ensures Updates(m, r, base, out + [EntryAt(r, base + |out| * ENTRY_SIZE)])
  {
    EntriesSame(m, r, base, |out|);
    assert Init(Entries(r, base, |out| + 1)) == Entries(r, base, |out|);
  }

  lemma CoalescePrefix(rs: seq<Range>, i: nat)
    requires i < |rs|
    ensures Coalesce(rs[..i + 1]) == Append(Coalesce(rs[..i]), rs[i])
  {
    assert Init(rs[..i + 1]) == rs[..i];
  }

  /** A descriptor's fields are still what the firmware wrote, as long as the bytes they lie in are. */
  lemma DescriptorIntact(m: seq<u8>, r: seq<u8>, a: nat)
    requires a + DESCRIPTOR_SIZE <= |m| && Same(m, r, a, a + DESCRIPTOR_SIZE)
    ensures DescriptorAt(m, a) == DescriptorAt(r, a)
  {
    SameWord(m, r, a, 4);
    SameWord(m, r, a + 8, 8);
    SameWord(m, r, a + 24, 8);
  }

  /** struct ORIGAMI_STRUCT, the fields the memory map fills. */
  class Handoff {
    var memmap: u64
    var memmapEntries: u64

    constructor ()
      ensures memmapEntries == 0
    {
      memmap, memmapEntries := 0, 0;
    }
  }

  /** The three stores of a new entry. It may lie over the descriptor it is made from (the first one does), or over
      part of it: each field is read before the store that destroys it. */
  method PutDescriptor(ram: array<u8>, ghost e: Range, current: nat, descriptor: nat, typ: u32)
    requires current <= descriptor && descriptor + DESCRIPTOR_SIZE <= ram.Length
    requires e.start == U64(ram[..], descriptor + 8) && e.size == PagesToSize(U64(ram[..], descriptor + 24))
    requires e.typ == typ
    modifies ram
    ensures ram[..] == PutEntry(old(ram[..]), current, e)
  {
    ghost var m := ram[..];
    var start := U64(ram[..], descriptor + 8);
    Store(ram, current, Bytes64(start));
    assert U64(ram[..], descriptor + 24) == U64(m, descriptor + 24) by {
      SameWord(m, ram[..], descriptor + 24, 8);
    }
    var pages := U64(ram[..], descriptor + 24);
    Store(ram, current + 8, Bytes64(PagesToSize(pages)));
    Store(ram, current + 16, Bytes32(typ));
  }

  /** A descriptor whose first byte has changed has another type. */
  lemma TypeChanged(m: seq<u8>, r: seq<u8>, a: nat)
    requires |m| == |r| && a + DESCRIPTOR_SIZE <= |m| && m[a] != r[a]
    ensures DescriptorAt(m, a) != DescriptorAt(r, a)
  {
    hide U64;
    assert U32(m, a) == m[a] + 0x100 * LittleEndian(m, a + 1, 3);
    assert U32(r, a) == r[a] + 0x100 * LittleEndian(r, a + 1, 3);
  }

  /** Memory that is zero but for the first byte of the second descriptor. */
  function Spoiled(stride: nat): (m: seq<u8>)
    ensures |m| == stride + DESCRIPTOR_SIZE && forall k :: 0 <= k < |m| ==> m[k] == if k == stride then 1 else 0
  {
    Zeros(stride + DESCRIPTOR_SIZE)[stride := 1]
  }

  /** What the first descriptor says there, as far as it matters. */
  lemma SpoiledFirst(stride: nat)
    requires 0 < stride < ENTRY_SIZE
    ensures var d := DescriptorAt(Spoiled(stride), 0);
      && KnownType(d.typ) && d.pages == 0
      && (stride < 8 ==> d.start == 0) && (stride >= 16 ==> d.typ == EfiReservedMemoryType)
  {
    hide U64, Spoiled, LittleEndian;
    var m := Spoiled(stride);
    ZeroWord(m, 24);
    if stride < 8 {
      ZeroWord(m, 8);
      EvenType(m);
    } else {
      ZeroField(m, 0, 4);
    }
  }

  lemma EvenType(m: seq<u8>)
    requires |m| >= DESCRIPTOR_SIZE && m[0] == 0
    ensures KnownType(U32(m, 0))
  {
    assert U32(m, 0) == m[0] + 0x100 * LittleEndian(m, 1, 3);
  }

  /** A stride below 20 is too small: with these bytes, the first entry written changes the second descriptor. */
  lemma TwentyIsLeast(stride: nat)
    requires 0 < stride < ENTRY_SIZE
    ensures var m := Spoiled(stride);
      && KnownType(DescriptorAt(m, 0).typ)
      && DescriptorAt(PutEntry(m, 0, RangeOf(DescriptorAt(m, 0))), stride) != DescriptorAt(m, stride)
  {
    hide U64, U32, Spoiled, Digits;
    var m := Spoiled(stride);
    SpoiledFirst(stride);
    var e := RangeOf(DescriptorAt(m, 0));
    var r := PutEntry(m, 0, e);
    ZeroDigits(8);
    ReservedDigits();
    assert r[stride] == if stride < 8 then Bytes64(e.start)[stride] else if stride < 16 then Bytes64(e.size)[stride - 8]
                        else Bytes32(e.typ)[stride - 16];
    TypeChanged(r, m, stride);
  }

  lemma ReservedDigits()
    ensures forall k :: 0 <= k < 4 ==> Bytes32(RESERVED)[k] != 1
  {
    ZeroDigits(3);
  }

  /** The loop's test, on the bytes of the current entry and of the descriptor. */
  predicate JoinsAt(m: seq<u8>, current: nat, descriptor: nat, typ: u32)
    requires current + ENTRY_SIZE <= |m| && descriptor + DESCRIPTOR_SIZE <= |m|
  {
    U32(m, current + 16) == typ && Add64(U64(m, current), U64(m, current + 8)) == U64(m, descriptor + 8)
  }

  /** Where the writer and the reader stand before an iteration: `current` is the last of the entries `out`, and
      the descriptor is either the first, lying where the first entry goes, or beyond `current`. */
  ghost predicate Ready(m: seq<u8>, base: nat, out: seq<Range>, e: Range, current: nat, descriptor: nat) {
    && Table(m, base, out) && descriptor + DESCRIPTOR_SIZE <= |m|
    && KnownType(U32(m, descriptor)) && e.typ == TypeOf(U32(m, descriptor))
    && e.start == U64(m, descriptor + 8) && e.size == PagesToSize(U64(m, descriptor + 24))
    && if out == [] then current == descriptor == base
       else current == base + (|out| - 1) * ENTRY_SIZE && current + ENTRY_SIZE <= descriptor
  }

  lemma ExtendsLast(m: seq<u8>, base: nat, out: seq<Range>, e: Range, current: nat, descriptor: nat)
    requires Ready(m, base, out, e, current, descriptor)
    requires out != [] && JoinsAt(m, current, descriptor, e.typ)
    ensures var size := Add64(U64(m, current + 8), PagesToSize(U64(m, descriptor + 24)));
      Updates(m, Write(m, current + 8, Bytes64(size)), base, Append(out, e))
    ensures |Append(out, e)| == |out|
  {
    assert Last(out) == EntryAt(m, current);
    EntryResized(m, base, out, Extend(Last(out), e).size);
  }

  lemma AddsNew(m: seq<u8>, base: nat, out: seq<Range>, e: Range, current: nat, descriptor: nat)
    requires Ready(m, base, out, e, current, descriptor)
    requires out == [] || !JoinsAt(m, current, descriptor, e.typ)
    ensures var next := if out == [] then current else current + ENTRY_SIZE;
      Updates(m, PutEntry(m, next, e), base, Append(out, e))
    ensures |Append(out, e)| == |out| + 1
  {
    hide PutEntry;
    var next := if out == [] then current else current + ENTRY_SIZE;
    assert Append(out, e) == out + [e] by {
      assert out != [] ==> Last(out) == EntryAt(m, current);
    }
    EntryPut(m, next, e);
    TableGrows(m, PutEntry(m, next, e), base, out);
  }

  /** One iteration appends the descriptor's range to the entries. */
  method ConvertDescriptor(ram: array<u8>, ghost base: nat, ghost out: seq<Range>, ghost e: Range,
                           first: bool, current: nat, descriptor: nat)
    returns (next: nat, added: bool)
    requires first <==> out == []
    requires Ready(ram[..], base, out, e, current, descriptor)
    modifies ram
    ensures Updates(old(ram[..]), ram[..], base, Append(out, e))
    ensures |Append(out, e)| == |out| + (if added then 1 else 0) > 0
    ensures next == base + (|Append(out, e)| - 1) * ENTRY_SIZE
  {
    hide Append, PutEntry, Updates, Table, JoinsAt, Add64, PagesToSize, U64, U32, Write, Bytes64;
    ghost var m := ram[..];
    var typ := RESERVED;
    if U32(ram[..], descriptor) < EfiMaxMemoryType {
      typ := TYPE_TABLE[U32(ram[..], descriptor)];
    }
    assert typ == e.typ;
    if !first && JoinsAt(ram[..], current, descriptor, typ) {
      ExtendsLast(m, base, out, e, current, descriptor);
      var size := Add64(U64(ram[..], current + 8), PagesToSize(U64(ram[..], descriptor + 24)));
      next, added := current, false;
      Store(ram, current + 8, Bytes64(size));
    } else {
      AddsNew(m, base, out, e, current, descriptor);
      next, added := if first then current else current + ENTRY_SIZE, true;
      PutDescriptor(ram, e, next, descriptor, typ);
    }
  }

  /** Before iteration `index` its descriptor is intact and out of the writer's way. */
  lemma NextReady(m: seq<u8>, r: seq<u8>, base: nat, size: nat, stride: nat, index: nat, out: seq<Range>,
                  current: nat)
    requires stride >= ENTRY_SIZE && base + size + Overhang(stride) <= |m| && AllKnown(Reported(m, base, size, stride))
    requires index < Count(size, stride) && |out| <= index && (out == [] <==> index == 0)
    requires Updates(m, r, base, out)
    requires current == if index == 0 then base else base + (|out| - 1) * ENTRY_SIZE
    ensures Ready(r, base, out, Ranges(Reported(m, base, size, stride))[index], current, base + Offset(stride, index))
  {
    WriterBehindReader(stride, index);
    OffsetFits(size, stride, index);
    DescriptorIntact(m, r, base + Offset(stride, index));
  }

  lemma NothingYet(m: seq<u8>, base: nat, rs: seq<Range>)
    requires base <= |m|
    ensures Coalesce(rs[..0]) == [] && Updates(m, m, base, []) && rs[..|rs|] == rs
  {
  }

  lemma UpdatesTrans(m: seq<u8>, r: seq<u8>, s: seq<u8>, base: nat, out: seq<Range>, out': seq<Range>)
    requires Updates(m, r, base, out) && Updates(r, s, base, out') && |out| <= |out'|
    ensures Updates(m, s, base, out')
  {
  }

  /** The buffer's `mapSize` bytes of descriptors become the coalesced E820 table, which starts where they
      started; no other byte of memory changes. Firmware spaces descriptors by their size at least; half of that is
      enough. */
  method ConvertMemoryMap(ram: array<u8>, base: u64, mapSize: u64, stride: u64, handoff: Handoff)
    requires stride >= ENTRY_SIZE && base + mapSize + Overhang(stride) <= ram.Length < TWO_64
    requires AllKnown(Reported(ram[..], base, mapSize, stride))
    requires handoff.memmapEntries == 0
    modifies ram, handoff
    ensures handoff.memmap == base
    ensures var out := Coalesce(Ranges(Reported(old(ram[..]), base, mapSize, stride)));
      && handoff.memmapEntries == |out|
      && |out| * ENTRY_SIZE <= mapSize
      && Updates(old(ram[..]), ram[..], base, out)
    // In terms of bytes: whatever descriptors are written out in the buffer, their coalesced entries are, afterwards.
    ensures forall ds :: MapHolds(old(ram[..]), base, mapSize, stride, ds) ==>
      handoff.memmapEntries == |Coalesce(Ranges(ds))| && TableHolds(ram[..], base, Coalesce(Ranges(ds)))
  {
    hide Append, Coalesce, Reported, Ranges, Updates, Ready, Offset, Count;
    ghost var m := ram[..];
    ghost var rs := Ranges(Reported(m, base, mapSize, stride));
    ghost var out: seq<Range> := [];
    CountFits(mapSize, stride);
    NothingYet(m, base, rs);
    handoff.memmap := base;
    var current: nat := base;
    for index := 0 to Count(mapSize, stride)
      invariant out == Coalesce(rs[..index]) && |out| <= index && (out == [] <==> index == 0)
      invariant handoff.memmap == base && handoff.memmapEntries == |out|
      invariant current == if index == 0 then base else base + (|out| - 1) * ENTRY_SIZE
      invariant Updates(m, ram[..], base, out)
    {
      ghost var r := ram[..];
      NextReady(m, r, base, mapSize, stride, index, out, current);
      var added;
      current, added := ConvertDescriptor(ram, base, out, rs[index], index == 0, current, base + Offset(stride, index));
      ghost var s := ram[..];
      UpdatesTrans(m, r, s, base, out, Append(out, rs[index]));
      if added {
        handoff.memmapEntries := handoff.memmapEntries + 1;
      }
      assert ram[..] == s;
      CoalescePrefix(rs, index);
      out := Append(out, rs[index]);
    }
    hide Entries, MapHolds, TableHolds;
    BytesConverted(m, ram[..], base, mapSize, stride, out);
  }

  lemma BytesConverted(m: seq<u8>, r: seq<u8>, base: nat, size: nat, stride: nat, out: seq<Range>)
    requires stride > 0 && base + size + Overhang(stride) <= |m| && AllKnown(Reported(m, base, size, stride))
    requires out == Coalesce(Ranges(Reported(m, base, size, stride))) && Updates(m, r, base, out)
    ensures forall ds :: MapHolds(m, base, size, stride, ds) ==> Coalesce(Ranges(ds)) == out && TableHolds(r, base, out)
  {
    hide MapHolds, TableHolds, Entries, Reported, Coalesce;
    TableIsHeld(r, base, out);
    forall ds | MapHolds(m, base, size, stride, ds) ensures Reported(m, base, size, stride) == ds {
      ReportedIs(m, base, size, stride, ds);
    }
  }
}
