/** Four-level address translation (Intel SDM, volume 3A, section 4.5) and the two higher-half windows that
    LoadOrigamiKernel adds to the firmware's tables. */
module Paging {
  import opened Bytes
  import opened Uefi

  /** Where the first 512 GiB of the address space reappear. The first 2 GiB reappear at KERNEL. */
  const DIRECT: nat := 0xffff_8000_0000_0000
  /** Physical addresses are at most 52 bits wide. */
  const PHYSICAL_LIMIT: nat := 0x10_0000_0000_0000

  predicate Present(e: u64) {
    e % 2 == 1
  }

  predicate Large(e: u64) {
    e / 0x80 % 2 == 1
  }

  /** Bits 12 to 51 of an entry: the table it points to. */
  function Target(e: u64): nat {
    e / 0x1000 % 0x100_0000_0000 * 0x1000
  }

  /** The loader's mask 0x7ffffffffffff000 keeps bits 12 to 62. */
  function Masked(e: u64): nat {
    e / 0x1000 % 0x8_0000_0000_0000 * 0x1000
  }

  /** The mask finds the table exactly when the entry's bits 52 to 62 are clear. */
  lemma MaskExact(e: u64)
    ensures Masked(e) == Target(e) <==> e / 0x10_0000_0000_0000 % 0x800 == 0
  {
    var page := e / 0x1000 % 0x8_0000_0000_0000;
    assert e / 0x10_0000_0000_0000 == e / 0x1000 / 0x100_0000_0000;
    assert page / 0x100_0000_0000 == e / 0x10_0000_0000_0000 % 0x800;
    assert page % 0x100_0000_0000 == e / 0x1000 % 0x100_0000_0000;
  }

  /** Bytes mapped by one entry of a level-`level` table; a whole table maps 512 times as much. */
  function Span(level: nat): (s: nat)
    requires 1 <= level <= 5
    ensures s > 0
  {
    match level
    case 1 => 0x1000
    case 2 => 0x20_0000
    case 3 => 0x4000_0000
    case 4 => 0x80_0000_0000
    case _ => 0x1_0000_0000_0000
  }

  /** The entry a level-`level` table is indexed with for the low bits `x` of an address. */
  function Index(x: nat, level: nat): (i: nat)
    requires 1 <= level <= 4 && x < Span(level + 1)
    ensures i < 512
  {
    x / Span(level)
  }

  function Rest(x: nat, level: nat): (y: nat)
    requires 1 <= level <= 4
    ensures y < Span(level)
  {
    x % Span(level)
  }

  /** The page frame of a leaf entry: 4 KiB, 2 MiB or 1 GiB. */
  function Frame(e: u64, level: nat): nat {
    if level == 1 then e / 0x1000 % 0x100_0000_0000 * 0x1000
    else if level == 2 then e / 0x20_0000 % 0x8000_0000 * 0x20_0000
    else e / 0x4000_0000 % 0x40_0000 * 0x4000_0000
  }

  lemma Low52Small(e: u64)
    ensures e % PHYSICAL_LIMIT == e / 0x1000 % 0x100_0000_0000 * 0x1000 + e % 0x1000
  {
    var q := e / 0x1000;
    assert e == (q / 0x100_0000_0000 * 0x100_0000_0000 + q % 0x100_0000_0000) * 0x1000 + e % 0x1000;
    assert e == q / 0x100_0000_0000 * 0x10_0000_0000_0000 + (q % 0x100_0000_0000 * 0x1000 + e % 0x1000);
  }

  lemma Low52Medium(e: u64)
    ensures e % PHYSICAL_LIMIT == e / 0x20_0000 % 0x8000_0000 * 0x20_0000 + e % 0x20_0000
  {
    var q := e / 0x20_0000;
    assert e == (q / 0x8000_0000 * 0x8000_0000 + q % 0x8000_0000) * 0x20_0000 + e % 0x20_0000;
    assert e == q / 0x8000_0000 * 0x10_0000_0000_0000 + (q % 0x8000_0000 * 0x20_0000 + e % 0x20_0000);
  }

  lemma Low52Large(e: u64)
    ensures e % PHYSICAL_LIMIT == e / 0x4000_0000 % 0x40_0000 * 0x4000_0000 + e % 0x4000_0000
  {
    var q := e / 0x4000_0000;
    assert e == (q / 0x40_0000 * 0x40_0000 + q % 0x40_0000) * 0x4000_0000 + e % 0x4000_0000;
    assert e == q / 0x40_0000 * 0x10_0000_0000_0000 + (q % 0x40_0000 * 0x4000_0000 + e % 0x4000_0000);
  }

  /** The frame is the entry's address bits 12, 21 or 30 to 51: the low 52 bits, rounded down to the page size. */
  lemma FrameRoundsDown(e: u64, level: nat)
    requires 1 <= level <= 3
    ensures e % PHYSICAL_LIMIT == Frame(e, level) + e % Span(level)
  {
    if level == 1 {
      Low52Small(e);
    } else if level == 2 {
      Low52Medium(e);
    } else {
      Low52Large(e);
    }
  }

  /** Target and mask are the entry's low 52 and 63 bits, rounded down to a page. */
  lemma TargetRoundsDown(e: u64)
    ensures e % PHYSICAL_LIMIT == Target(e) + e % 0x1000
    ensures e % 0x8000_0000_0000_0000 == Masked(e) + e % 0x1000
  {
    Low52Small(e);
    var q := e / 0x1000;
    assert e == (q / 0x8_0000_0000_0000 * 0x8_0000_0000_0000 + q % 0x8_0000_0000_0000) * 0x1000 + e % 0x1000;
    DivMod(e, 0x8000_0000_0000_0000, q / 0x8_0000_0000_0000, q % 0x8_0000_0000_0000 * 0x1000 + e % 0x1000);
  }

  predicate Leaf(e: u64, level: nat) {
    level == 1 || (level < 4 && Large(e))
  }

  datatype Translation = Physical(address: nat) | NotPresent | BusError | NonCanonical

  /** The walk from a level-`level` table on, for the low bits `x` of the address that the table resolves. */
  function WalkFrom(m: seq<u8>, table: nat, level: nat, x: nat): Translation
    requires 1 <= level <= 4 && x < Span(level + 1)
    decreases level, 1, table
  {
    var a := table + 8 * Index(x, level);
    if a + 8 > |m| then BusError else FromEntry(m, U64(m, a), level, Rest(x, level))
  }

  function FromEntry(m: seq<u8>, e: u64, level: nat, y: nat): Translation
    requires 1 <= level <= 4 && y < Span(level)
    decreases level, 0, e
  {
    if !Present(e) then NotPresent
    else if Leaf(e, level) then Physical(Frame(e, level) + y)
    else WalkFrom(m, Target(e), level - 1, y)
  }

  predicate Canonical(va: u64) {
    va < 0x8000_0000_0000 || va >= DIRECT
  }

  /** The bits of an address that translation uses. */
  function Bits48(va: u64): (x: nat)
    ensures x < Span(5)
  {
    va % 0x1_0000_0000_0000
  }

  function Walk(m: seq<u8>, cr3: nat, va: u64): Translation {
    if Canonical(va) then WalkFrom(m, cr3, 4, Bits48(va)) else NonCanonical
  }

  // ---------------------------------------------------------------------------
  // What a walk finds, entry by entry
  // ---------------------------------------------------------------------------

  /** The entry holds the address `t` and the flags `g` below it; the bits above the address may be anything. */
  predicate Holds(e: u64, t: nat, g: nat) {
    t % 0x1000 == 0 && t < 0x10_0000_0000_0000 && g < 0x1000 && e % 0x10_0000_0000_0000 == t + g
  }

  /** Bit 0 is presence, bit 7 a large page, and the address is the target. */
  lemma EntryFields(e: u64, t: nat, g: nat)
    requires Holds(e, t, g)
    ensures Present(e) == (g % 2 == 1) && Large(e) == (g / 0x80 % 2 == 1) && Target(e) == t
  {
    var k, q := t / 0x1000, e / 0x10_0000_0000_0000;
    assert t == k * 0x1000 && e == q * 0x10_0000_0000_0000 + t + g;
    DivMod(e, 0x1000, q * 0x100_0000_0000 + k, g);
    DivMod(q * 0x100_0000_0000 + k, 0x100_0000_0000, q, k);
    DivMod(e, 2, q * 0x8_0000_0000_0000 + k * 0x800 + g / 2, g % 2);
    DivMod(e, 0x80, q * 0x2000_0000_0000 + k * 0x20 + g / 0x80, g % 0x80);
    DivMod(q * 0x2000_0000_0000 + k * 0x20 + g / 0x80, 2, q * 0x1000_0000_0000 + k * 0x10 + g / 0x80 / 2, g / 0x80 % 2);
  }

  /** A large page's frame is the address, aligned to the page. */
  lemma LargeFrame(e: u64, t: nat, g: nat, level: nat)
    requires Holds(e, t, g) && 2 <= level <= 3 && t % Span(level) == 0
    ensures Frame(e, level) == t
  {
    FrameRoundsDown(e, level);
    var s := Span(level);
    assert t == t / s * s;
    if level == 2 {
      DivMod(t + g, 0x20_0000, t / 0x20_0000, g);
      Aligned2(e);
    } else {
      DivMod(t + g, 0x4000_0000, t / 0x4000_0000, g);
      Aligned3(e);
    }
  }

  lemma Aligned2(e: u64)
    ensures e % 0x20_0000 == e % PHYSICAL_LIMIT % 0x20_0000
  {
    var q := e / PHYSICAL_LIMIT;
    var low := e % PHYSICAL_LIMIT;
    assert e == q * PHYSICAL_LIMIT + low;
    DivMod(e, 0x20_0000, q * 0x8000_0000 + low / 0x20_0000, low % 0x20_0000);
  }

  lemma Aligned3(e: u64)
    ensures e % 0x4000_0000 == e % PHYSICAL_LIMIT % 0x4000_0000
  {
    var q := e / PHYSICAL_LIMIT;
    var low := e % PHYSICAL_LIMIT;
    assert e == q * PHYSICAL_LIMIT + low;
    DivMod(e, 0x4000_0000, q * 0x40_0000 + low / 0x4000_0000, low % 0x4000_0000);
  }

  /** An address made of four table indices and an offset, its top bits copies of bit 47. */
  function Address(i4: nat, i3: nat, i2: nat, i1: nat, offset: nat): (va: u64)
    requires i4 < 512 && i3 < 512 && i2 < 512 && i1 < 512 && offset < 0x1000
  {
    (if i4 < 256 then 0 else 0xffff_0000_0000_0000)
    + i4 * 0x80_0000_0000 + i3 * 0x4000_0000 + i2 * 0x20_0000 + i1 * 0x1000 + offset
  }

  lemma AddressIndices(i4: nat, i3: nat, i2: nat, i1: nat, offset: nat)
    requires i4 < 512 && i3 < 512 && i2 < 512 && i1 < 512 && offset < 0x1000
    ensures var x1 := i1 * 0x1000 + offset; var x2 := i2 * 0x20_0000 + x1; var x3 := i3 * 0x4000_0000 + x2;
      && Canonical(Address(i4, i3, i2, i1, offset))
      && Bits48(Address(i4, i3, i2, i1, offset)) == i4 * 0x80_0000_0000 + x3
      && x1 < Span(2) && x2 < Span(3) && x3 < Span(4)
      && Index(i4 * 0x80_0000_0000 + x3, 4) == i4 && Rest(i4 * 0x80_0000_0000 + x3, 4) == x3
      && Index(x3, 3) == i3 && Rest(x3, 3) == x2 && Index(x2, 2) == i2 && Rest(x2, 2) == x1
      && Index(x1, 1) == i1 && Rest(x1, 1) == offset
  {
    var x1 := i1 * 0x1000 + offset;
    var x2 := i2 * 0x20_0000 + x1;
    var x3 := i3 * 0x4000_0000 + x2;
    var x4 := i4 * 0x80_0000_0000 + x3;
    DivMod(Address(i4, i3, i2, i1, offset), 0x1_0000_0000_0000, if i4 < 256 then 0 else 0xffff, x4);
    DivMod(x4, 0x80_0000_0000, i4, x3);
    DivMod(x3, 0x4000_0000, i3, x2);
    DivMod(x2, 0x20_0000, i2, x1);
    DivMod(x1, 0x1000, i1, offset);
  }

  /** Entry `i` of the table at `table` is in memory and holds this address and these flags. */
  predicate EntryIs(m: seq<u8>, table: nat, i: nat, t: nat, g: nat) {
    table + 8 * i + 8 <= |m| && Holds(U64(m, table + 8 * i), t, g)
  }

  /** Present, and not a large page. */
  predicate Leads(g: nat) {
    g % 2 == 1 && g / 0x80 % 2 == 0
  }

  /** One level of the walk: through an entry that leads to a table. */
  lemma WalkDown(m: seq<u8>, table: nat, level: nat, x: nat, i: nat, t: nat, g: nat)
    requires 2 <= level <= 4 && x < Span(level + 1) && Index(x, level) == i && EntryIs(m, table, i, t, g)
    requires g % 2 == 1 && (level == 4 || g / 0x80 % 2 == 0)
    ensures WalkFrom(m, table, level, x) == WalkFrom(m, t, level - 1, Rest(x, level))
  {
    EntryFields(U64(m, table + 8 * i), t, g);
    hide Present, Large, Target, U64, Index, Rest, WalkFrom;
    WalkOne(m, table, level, x);
  }

  lemma WalkOne(m: seq<u8>, table: nat, level: nat, x: nat)
    requires 1 <= level <= 4 && x < Span(level + 1) && table + 8 * Index(x, level) + 8 <= |m|
    ensures WalkFrom(m, table, level, x) == FromEntry(m, U64(m, table + 8 * Index(x, level)), level, Rest(x, level))
  {
  }

  /** The last level: at a page of the level's size. */
  lemma WalkEnds(m: seq<u8>, table: nat, level: nat, x: nat, i: nat, t: nat, g: nat)
    requires 1 <= level <= 3 && x < Span(level + 1) && Index(x, level) == i && EntryIs(m, table, i, t, g)
    requires g % 2 == 1 && (level > 1 ==> g / 0x80 % 2 == 1) && t % Span(level) == 0
    ensures WalkFrom(m, table, level, x) == Physical(t + Rest(x, level))
  {
    var e := U64(m, table + 8 * i);
    EntryFields(e, t, g);
    if level > 1 {
      LargeFrame(e, t, g, level);
    }
    assert Frame(e, level) == t;
    hide Present, Large, Target, U64, Index, Rest, WalkFrom, Frame;
    WalkOne(m, table, level, x);
  }

  /** An entry that is not present ends the walk. */
  lemma WalkStops(m: seq<u8>, table: nat, level: nat, x: nat, i: nat, t: nat, g: nat)
    requires 1 <= level <= 4 && x < Span(level + 1) && Index(x, level) == i && EntryIs(m, table, i, t, g) && g % 2 == 0
    ensures WalkFrom(m, table, level, x) == NotPresent
  {
    EntryFields(U64(m, table + 8 * i), t, g);
    hide Present, Large, Target, U64, Index, Rest, WalkFrom;
    WalkOne(m, table, level, x);
  }

  /** Through four entries to a byte of a 4 KiB page. */
  lemma WalkSmallPage(m: seq<u8>, cr3: nat, i4: nat, i3: nat, i2: nat, i1: nat, offset: nat,
                      t3: nat, t2: nat, t1: nat, page: nat, g4: nat, g3: nat, g2: nat, g1: nat)
    requires i4 < 512 && i3 < 512 && i2 < 512 && i1 < 512 && offset < 0x1000
    requires EntryIs(m, cr3, i4, t3, g4) && g4 % 2 == 1 && EntryIs(m, t3, i3, t2, g3) && Leads(g3)
    requires EntryIs(m, t2, i2, t1, g2) && Leads(g2) && EntryIs(m, t1, i1, page, g1) && g1 % 2 == 1
    ensures Walk(m, cr3, Address(i4, i3, i2, i1, offset)) == Physical(page + offset)
  {
    hide EntryIs, Index, Rest, WalkFrom, Address, Bits48, Canonical;
    AddressIndices(i4, i3, i2, i1, offset);
    var x1 := i1 * 0x1000 + offset;
    var x2 := i2 * 0x20_0000 + x1;
    var x3 := i3 * 0x4000_0000 + x2;
    WalkDown(m, cr3, 4, i4 * 0x80_0000_0000 + x3, i4, t3, g4);
    WalkDown(m, t3, 3, x3, i3, t2, g3);
    WalkDown(m, t2, 2, x2, i2, t1, g2);
    SmallAligned(m, t1, i1, page, g1);
    WalkEnds(m, t1, 1, x1, i1, page, g1);
  }

  lemma SmallAligned(m: seq<u8>, table: nat, i: nat, t: nat, g: nat)
    requires EntryIs(m, table, i, t, g)
    ensures t % 0x1000 == 0
  {
  }

  /** Through three entries to a byte of a 2 MiB page. */
  lemma WalkMediumPage(m: seq<u8>, cr3: nat, i4: nat, i3: nat, i2: nat, i1: nat, offset: nat,
                       t3: nat, t2: nat, page: nat, g4: nat, g3: nat, g2: nat)
    requires i4 < 512 && i3 < 512 && i2 < 512 && i1 < 512 && offset < 0x1000
    requires EntryIs(m, cr3, i4, t3, g4) && g4 % 2 == 1 && EntryIs(m, t3, i3, t2, g3) && Leads(g3)
    requires EntryIs(m, t2, i2, page, g2) && g2 % 2 == 1 && g2 / 0x80 % 2 == 1 && page % 0x20_0000 == 0
    ensures Walk(m, cr3, Address(i4, i3, i2, i1, offset)) == Physical(page + i1 * 0x1000 + offset)
  {
    hide EntryIs, Index, Rest, WalkFrom, Address, Bits48, Canonical;
    AddressIndices(i4, i3, i2, i1, offset);
    var x2 := i2 * 0x20_0000 + i1 * 0x1000 + offset;
    var x3 := i3 * 0x4000_0000 + x2;
    WalkDown(m, cr3, 4, i4 * 0x80_0000_0000 + x3, i4, t3, g4);
    WalkDown(m, t3, 3, x3, i3, t2, g3);
    WalkEnds(m, t2, 2, x2, i2, page, g2);
  }

  /** Through two entries to a byte of a 1 GiB page. */
  lemma WalkLargePage(m: seq<u8>, cr3: nat, i4: nat, i3: nat, i2: nat, i1: nat, offset: nat,
                      t3: nat, page: nat, g4: nat, g3: nat)
    requires i4 < 512 && i3 < 512 && i2 < 512 && i1 < 512 && offset < 0x1000
    requires EntryIs(m, cr3, i4, t3, g4) && g4 % 2 == 1
    requires EntryIs(m, t3, i3, page, g3) && g3 % 2 == 1 && g3 / 0x80 % 2 == 1 && page % 0x4000_0000 == 0
    ensures Walk(m, cr3, Address(i4, i3, i2, i1, offset)) == Physical(page + i2 * 0x20_0000 + i1 * 0x1000 + offset)
  {
    hide EntryIs, Index, Rest, WalkFrom, Address, Bits48, Canonical;
    AddressIndices(i4, i3, i2, i1, offset);
    var x3 := i3 * 0x4000_0000 + i2 * 0x20_0000 + i1 * 0x1000 + offset;
    WalkDown(m, cr3, 4, i4 * 0x80_0000_0000 + x3, i4, t3, g4);
    WalkEnds(m, t3, 3, x3, i3, page, g3);
  }

  /** The tables read on the way from an entry to the page. */
  function Tables(m: seq<u8>, e: u64, level: nat, y: nat): set<nat>
    requires 1 <= level <= 4 && y < Span(level)
    decreases level, e
  {
    if !Present(e) || Leaf(e, level) then {}
    else
      var a := Target(e) + 8 * Index(y, level - 1);
      {Target(e)} + if a + 8 > |m| then {} else Tables(m, U64(m, a), level - 1, Rest(y, level - 1))
  }

  /** A walk depends only on the tables it reads. */
  lemma {:induction false} WalkFrame(m: seq<u8>, r: seq<u8>, e: u64, level: nat, y: nat)
    requires 1 <= level <= 4 && y < Span(level) && |m| == |r|
    requires forall t :: t in Tables(m, e, level, y) ==> Same(m, r, t, t + PAGE)
    ensures FromEntry(m, e, level, y) == FromEntry(r, e, level, y)
    ensures Tables(m, e, level, y) == Tables(r, e, level, y)
    decreases level
  {
    hide Index, Rest, Target, Frame, Present;
    if Present(e) && !Leaf(e, level) {
      assert Target(e) in Tables(m, e, level, y);
      var a := Target(e) + 8 * Index(y, level - 1);
      if a + 8 <= |m| {
        SameWord(m, r, a, 8);
        assert U64(m, a) == U64(r, a);
        WalkFrame(m, r, U64(m, a), level - 1, Rest(y, level - 1));
      }
    }
  }

  // ---------------------------------------------------------------------------
  // The edits
  // ---------------------------------------------------------------------------

  function Put(m: seq<u8>, a: nat, v: u64): (r: seq<u8>)
    requires a + 8 <= |m|
    ensures |r| == |m| && U64(r, a) == v
    ensures Same(m, r, 0, a) && Same(m, r, a + 8, |m|)
  {
    ReadBack64(m, a, v);
    Write(m, a, Bytes64(v))
  }

  lemma Kept64(m: seq<u8>, r: seq<u8>, a: nat)
    requires a + 8 <= |m| && Same(m, r, a, a + 8)
    ensures U64(m, a) == U64(r, a)
  {
    SameWord(m, r, a, 8);
  }

  lemma PagesApart(a: nat, b: nat)
    requires a % PAGE == 0 && b % PAGE == 0 && a != b
    ensures a + PAGE <= b || b + PAGE <= a
  {
    var i, j := a / PAGE, b / PAGE;
    assert a == i * PAGE && b == j * PAGE;
    assert i < j ==> i + 1 <= j;
  }

  /** The tables the loader writes are pages of RAM. */
  predicate InMemory(m: seq<u8>, pml4: nat, pdpt: nat) {
    && |m| <= PHYSICAL_LIMIT && pml4 + PAGE <= |m| && pdpt + PAGE <= |m| && pml4 % PAGE == 0 && pdpt % PAGE == 0
  }

  /** Two different pages. */
  predicate TwoPages(m: seq<u8>, pml4: nat, pdpt: nat) {
    InMemory(m, pml4, pdpt) && (pml4 + PAGE <= pdpt || pdpt + PAGE <= pml4)
  }

  /** The bytes the edits write: the new table and two slots of the root. */
  predicate Written(pml4: nat, pdpt: nat, k: nat) {
    pdpt <= k < pdpt + PAGE || pml4 + 256 * 8 <= k < pml4 + 257 * 8 || pml4 + 511 * 8 <= k < pml4 + 512 * 8
  }

  /** Pml4[256] = Pml4[0]; a cleared table in Pml4[511], present and writable. */
  function Hooked(m: seq<u8>, pml4: nat, pdpt: nat): (r: seq<u8>)
    requires InMemory(m, pml4, pdpt)
    ensures |r| == |m|
  {
    Put(Write(Put(m, pml4 + 256 * 8, U64(m, pml4)), pdpt, Zeros(PAGE)), pml4 + 511 * 8, pdpt + 3)
  }

  lemma HookedWords(m: seq<u8>, pml4: nat, pdpt: nat)
    requires TwoPages(m, pml4, pdpt)
    ensures var r := Hooked(m, pml4, pdpt);
      && U64(r, pml4) == U64(m, pml4)
      && U64(r, pml4 + 256 * 8) == U64(m, pml4)
      && U64(r, pml4 + 511 * 8) == pdpt + 3
      && (forall k :: pdpt <= k < pdpt + PAGE ==> r[k] == 0)
      && (forall k: nat :: k < |m| && !Written(pml4, pdpt, k) ==> r[k] == m[k])
  {
    hide U64, Write, Put;
    var m1 := Put(m, pml4 + 256 * 8, U64(m, pml4));
    var r := Hooked(m, pml4, pdpt);
    Kept64(m, r, pml4);
    Kept64(m1, r, pml4 + 256 * 8);
  }

  /** The low table, as the loader finds it through the root after the first stores, is in RAM. */
  predicate Storable(m: seq<u8>, pml4: nat, pdpt: nat) {
    InMemory(m, pml4, pdpt) && Masked(U64(Hooked(m, pml4, pdpt), pml4)) + PAGE <= |m|
  }

  /** All the stores, in the source's order: the first two entries of the low table are read and become the last two
      of the new one. */
  function Edited(m: seq<u8>, pml4: nat, pdpt: nat): (r: seq<u8>)
    requires Storable(m, pml4, pdpt)
    ensures |r| == |m|
  {
    var m3 := Hooked(m, pml4, pdpt);
    var low := Masked(U64(m3, pml4));
    var m4 := Put(m3, pdpt + 510 * 8, U64(m3, low));
    Put(m4, pdpt + 511 * 8, U64(m4, low + 8))
  }

  /** The low table that the root leads to at the start is in RAM and is not the new table. */
  predicate Editable(m: seq<u8>, pml4: nat, pdpt: nat) {
    && TwoPages(m, pml4, pdpt)
    && Masked(U64(m, pml4)) + PAGE <= |m| && Masked(U64(m, pml4)) != pdpt
  }

  /** Although the low table is read after the first stores, the loader finds what was there before. */
  lemma LowTableIntact(m: seq<u8>, pml4: nat, pdpt: nat)
    requires Editable(m, pml4, pdpt)
    ensures Storable(m, pml4, pdpt)
    ensures var low := Masked(U64(m, pml4));
      Edited(m, pml4, pdpt) ==
        Put(Put(Hooked(m, pml4, pdpt), pdpt + 510 * 8, U64(m, low)), pdpt + 511 * 8, U64(m, low + 8))
  {
    hide U64, Masked, Hooked, Put;
    HookedWords(m, pml4, pdpt);
    var m3, low := Hooked(m, pml4, pdpt), Masked(U64(m, pml4));
    MaskedAligned(U64(m, pml4));
    PagesApart(low, pdpt);
    if low != pml4 {
      PagesApart(low, pml4);
    }
    Kept64(m, m3, low);
    Kept64(m, Put(m3, pdpt + 510 * 8, U64(m, low)), low + 8);
  }

  /** Entry `i` of the new table: zero, except that the last two are the first two of the low table. */
  predicate NewEntry(m: seq<u8>, r: seq<u8>, pml4: nat, pdpt: nat, i: nat)
    requires Editable(m, pml4, pdpt) && |m| == |r| && i < 512
  {
    U64(r, pdpt + 8 * i) == if i < 510 then 0 else U64(m, Masked(U64(m, pml4)) + 8 * (i - 510))
  }

  /** What the edits make of memory `m`: every word they write, and that they write nothing else. */
  ghost predicate EditedTo(m: seq<u8>, r: seq<u8>, pml4: nat, pdpt: nat) {
    && Editable(m, pml4, pdpt) && |m| == |r|
    && U64(r, pml4 + 256 * 8) == U64(m, pml4) && U64(r, pml4 + 511 * 8) == pdpt + 3
    && (forall i: nat :: i < 512 ==> NewEntry(m, r, pml4, pdpt, i))
    && (forall k: nat :: k < |m| && !Written(pml4, pdpt, k) ==> r[k] == m[k])
  }

  lemma EditedFrame(m: seq<u8>, pml4: nat, pdpt: nat)
    requires Editable(m, pml4, pdpt) && Storable(m, pml4, pdpt)
    ensures var r := Edited(m, pml4, pdpt); forall k: nat :: k < |m| && !Written(pml4, pdpt, k) ==> r[k] == m[k]
  {
    hide U64, Put, Masked, Hooked, Edited;
    HookedWords(m, pml4, pdpt);
    LowTableIntact(m, pml4, pdpt);
  }

  /** What the root holds afterwards in the two slots. */
  lemma EditedRoot(m: seq<u8>, pml4: nat, pdpt: nat)
    requires Editable(m, pml4, pdpt) && Storable(m, pml4, pdpt)
    ensures var r := Edited(m, pml4, pdpt);
      U64(r, pml4 + 256 * 8) == U64(m, pml4) && U64(r, pml4 + 511 * 8) == pdpt + 3
  {
    hide U64, Masked, Put, Hooked, Edited;
    HookedWords(m, pml4, pdpt);
    LowTableIntact(m, pml4, pdpt);
    Kept64(Hooked(m, pml4, pdpt), Edited(m, pml4, pdpt), pml4 + 256 * 8);
    Kept64(Hooked(m, pml4, pdpt), Edited(m, pml4, pdpt), pml4 + 511 * 8);
  }

  /** What the new table holds afterwards. */
  lemma EditedTable(m: seq<u8>, pml4: nat, pdpt: nat, i: nat)
    requires Editable(m, pml4, pdpt) && Storable(m, pml4, pdpt) && i < 512
    ensures NewEntry(m, Edited(m, pml4, pdpt), pml4, pdpt, i)
  {
    hide U64, Masked, Put, Hooked, Edited;
    HookedWords(m, pml4, pdpt);
    LowTableIntact(m, pml4, pdpt);
    var m3, low := Hooked(m, pml4, pdpt), Masked(U64(m, pml4));
    var m4 := Put(m3, pdpt + 510 * 8, U64(m, low));
    var r := Put(m4, pdpt + 511 * 8, U64(m, low + 8));
    if i < 510 {
      ZeroWord(r, pdpt + 8 * i);
    } else if i == 510 {
      Kept64(m4, r, pdpt + 510 * 8);
    }
  }

  /** The stores have exactly this effect. */
  lemma EditedEffect(m: seq<u8>, pml4: nat, pdpt: nat)
    requires Editable(m, pml4, pdpt)
    ensures Storable(m, pml4, pdpt) && EditedTo(m, Edited(m, pml4, pdpt), pml4, pdpt)
  {
    hide U64, Masked, Edited, Editable, Storable, Written, NewEntry;
    LowTableIntact(m, pml4, pdpt);
    EditedFrame(m, pml4, pdpt);
    EditedRoot(m, pml4, pdpt);
    forall i: nat | i < 512 ensures NewEntry(m, Edited(m, pml4, pdpt), pml4, pdpt, i) {
      EditedTable(m, pml4, pdpt, i);
    }
  }

  lemma MaskedAligned(e: u64)
    ensures Masked(e) % PAGE == 0 && Target(e) % PAGE == 0
  {
  }

  // ---------------------------------------------------------------------------
  // What each virtual address translates to afterwards
  // ---------------------------------------------------------------------------

  /** An address is its four table indices and the offset in its page, nine bits each and twelve. */
  lemma AddressDigits(va: u64)
    ensures var x4 := Bits48(va); var x3 := Rest(x4, 4); var x2 := Rest(x3, 3); var x1 := Rest(x2, 2);
      x4 == Index(x4, 4) * Span(4) + Index(x3, 3) * Span(3) + Index(x2, 2) * Span(2)
          + Index(x1, 1) * Span(1) + Rest(x1, 1)
  {
    var x4 := Bits48(va);
    var x3 := Rest(x4, 4);
    var x2 := Rest(x3, 3);
    var x1 := Rest(x2, 2);
    assert x4 == Index(x4, 4) * Span(4) + x3;
    assert x3 == Index(x3, 3) * Span(3) + x2;
    assert x2 == Index(x2, 2) * Span(2) + x1;
    assert x1 == Index(x1, 1) * Span(1) + Rest(x1, 1);
  }

  function RootIndex(va: u64): nat {
    Index(Bits48(va), 4)
  }

  function RootEntry(m: seq<u8>, pml4: nat, va: u64): u64
    requires pml4 + PAGE <= |m|
  {
    U64(m, pml4 + 8 * RootIndex(va))
  }

  /** The tables read below the root when translating `va`. */
  function LowerTables(m: seq<u8>, pml4: nat, va: u64): set<nat>
    requires pml4 + PAGE <= |m|
  {
    Tables(m, RootEntry(m, pml4, va), 4, Rest(Bits48(va), 4))
  }

  /** The new table is fresh for `va`, and the root is not one of its lower-level tables. */
  ghost predicate Clear(m: seq<u8>, pml4: nat, pdpt: nat, va: u64) {
    pml4 + PAGE <= |m| && pml4 !in LowerTables(m, pml4, va) && pdpt !in LowerTables(m, pml4, va)
  }

  lemma {:induction false} TablesAligned(m: seq<u8>, e: u64, level: nat, y: nat)
    requires 1 <= level <= 4 && y < Span(level)
    ensures forall t :: t in Tables(m, e, level, y) ==> t % PAGE == 0
    decreases level
  {
    hide Index, Rest, Target, U64, Present;
    if Present(e) && !Leaf(e, level) {
      MaskedAligned(e);
      var a := Target(e) + 8 * Index(y, level - 1);
      if a + 8 <= |m| {
        TablesAligned(m, U64(m, a), level - 1, Rest(y, level - 1));
      }
    }
  }

  lemma TableKept(m: seq<u8>, r: seq<u8>, pml4: nat, pdpt: nat, t: nat)
    requires EditedTo(m, r, pml4, pdpt) && t % PAGE == 0 && t != pml4 && t != pdpt
    ensures Same(m, r, t, t + PAGE)
  {
    hide Masked, U64, NewEntry;
    PagesApart(t, pml4);
    PagesApart(t, pdpt);
  }

  /** A walk that reads neither the root nor the new table is not affected. */
  lemma WalkKept(m: seq<u8>, r: seq<u8>, pml4: nat, pdpt: nat, e: u64, level: nat, y: nat)
    requires EditedTo(m, r, pml4, pdpt) && 1 <= level <= 4 && y < Span(level)
    requires pml4 !in Tables(m, e, level, y) && pdpt !in Tables(m, e, level, y)
    ensures FromEntry(r, e, level, y) == FromEntry(m, e, level, y)
    ensures Tables(r, e, level, y) == Tables(m, e, level, y)
  {
    hide Tables, FromEntry, Masked, U64, Same, NewEntry;
    TablesAligned(m, e, level, y);
    forall t | t in Tables(m, e, level, y) ensures Same(m, r, t, t + PAGE) {
      TableKept(m, r, pml4, pdpt, t);
    }
    WalkFrame(m, r, e, level, y);
  }

  lemma SlotKept(m: seq<u8>, r: seq<u8>, pml4: nat, pdpt: nat, i: nat)
    requires EditedTo(m, r, pml4, pdpt) && i < 512 && i != 256 && i != 511
    ensures U64(r, pml4 + 8 * i) == U64(m, pml4 + 8 * i)
  {
    hide U64, Masked, NewEntry;
    Kept64(m, r, pml4 + 8 * i);
  }

  /** Every address outside the two root slots translates exactly as before. */
  lemma ElsewhereUnchanged(m: seq<u8>, r: seq<u8>, pml4: nat, pdpt: nat, va: u64)
    requires EditedTo(m, r, pml4, pdpt) && Clear(m, pml4, pdpt, va)
    requires RootIndex(va) != 256 && RootIndex(va) != 511
    ensures Walk(r, pml4, va) == Walk(m, pml4, va)
    ensures LowerTables(r, pml4, va) == LowerTables(m, pml4, va)
  {
    hide Tables, FromEntry, Masked, U64, Index, Bits48, Rest, NewEntry, Written;
    SlotKept(m, r, pml4, pdpt, RootIndex(va));
    WalkKept(m, r, pml4, pdpt, RootEntry(m, pml4, va), 4, Rest(Bits48(va), 4));
  }

  lemma DirectBits(v: nat)
    requires v < 0x80_0000_0000
    ensures DIRECT + v < TWO_64 && Canonical(DIRECT + v) && Canonical(v)
    ensures RootIndex(DIRECT + v) == 256 && Rest(Bits48(DIRECT + v), 4) == v
    ensures RootIndex(v) == 0 && Rest(Bits48(v), 4) == v
  {
    DivMod(DIRECT + v, 0x1_0000_0000_0000, 0xffff, 0x8000_0000_0000 + v);
    DivMod(0x8000_0000_0000 + v, 0x80_0000_0000, 256, v);
    DivMod(v, 0x1_0000_0000_0000, 0, v);
    DivMod(v, 0x80_0000_0000, 0, v);
  }

  /** The window at 0xffff800000000000 shows the first 512 GiB, whatever they translate to. */
  lemma DirectWindow(m: seq<u8>, r: seq<u8>, pml4: nat, pdpt: nat, v: u64)
    requires EditedTo(m, r, pml4, pdpt) && v < 0x80_0000_0000 && Clear(m, pml4, pdpt, v)
    ensures DIRECT + v < TWO_64 && Walk(r, pml4, DIRECT + v) == Walk(m, pml4, v)
    ensures LowerTables(r, pml4, DIRECT + v) == LowerTables(m, pml4, v)
  {
    hide Tables, FromEntry, Masked, U64, Index, Bits48, Rest, NewEntry, Written;
    DirectBits(v);
    WalkKept(m, r, pml4, pdpt, U64(m, pml4), 4, v);
  }

  lemma KernelBits(v: nat)
    requires v < 0x8000_0000
    ensures KERNEL + v < TWO_64 && Canonical(KERNEL + v) && RootIndex(KERNEL + v) == 511
    ensures var y := Rest(Bits48(KERNEL + v), 4);
      Index(y, 3) == 510 + v / 0x4000_0000 && Rest(y, 3) == v % 0x4000_0000
    ensures Index(v, 3) == v / 0x4000_0000 < 2 && Rest(v, 3) == v % 0x4000_0000
  {
    DivMod(KERNEL + v, 0x1_0000_0000_0000, 0xffff, 0xffff_8000_0000 + v);
    DivMod(0xffff_8000_0000 + v, 0x80_0000_0000, 511, 0x7f_8000_0000 + v);
    DivMod(0x7f_8000_0000 + v, 0x4000_0000, 510 + v / 0x4000_0000, v % 0x4000_0000);
  }

  lemma NewTableEntry(pdpt: nat)
    requires pdpt % PAGE == 0 && pdpt < PHYSICAL_LIMIT
    ensures Present(pdpt + 3) && Target(pdpt + 3) == pdpt
  {
    var k := pdpt / PAGE;
    DivMod(pdpt + 3, 0x1000, k, 3);
    DivMod(pdpt + 3, 2, 0x800 * k + 1, 1);
    DivMod(k, 0x100_0000_0000, 0, k);
  }

  /** The walk through the new table, one level at a time. */
  lemma ThroughNewTable(m: seq<u8>, r: seq<u8>, pml4: nat, pdpt: nat, va: u64)
    requires EditedTo(m, r, pml4, pdpt) && Canonical(va) && RootIndex(va) == 511
    ensures var y := Rest(Bits48(va), 4);
      var e := U64(r, pdpt + 8 * Index(y, 3));
      && Walk(r, pml4, va) == FromEntry(r, e, 3, Rest(y, 3))
      && LowerTables(r, pml4, va) == {pdpt} + Tables(r, e, 3, Rest(y, 3))
  {
    hide Masked, U64, Index, Bits48, Rest, Target, Present, NewEntry, Written;
    NewTableEntry(pdpt);
    var y := Rest(Bits48(va), 4);
    assert Walk(r, pml4, va) == FromEntry(r, pdpt + 3, 4, y);
    assert FromEntry(r, pdpt + 3, 4, y) == WalkFrom(r, pdpt, 3, y);
  }

  /** Whatever the root's first entry is, the window at 0xffffffff80000000 shows what the first two entries of the
      table found by the loader's mask lead to. */
  lemma KernelWindowShows(m: seq<u8>, r: seq<u8>, pml4: nat, pdpt: nat, v: u64)
    requires EditedTo(m, r, pml4, pdpt) && v < 0x8000_0000
    requires var e := U64(m, Masked(U64(m, pml4)) + 8 * (v / 0x4000_0000));
      pml4 !in Tables(m, e, 3, v % 0x4000_0000) && pdpt !in Tables(m, e, 3, v % 0x4000_0000)
    ensures KERNEL + v < TWO_64
    ensures var e := U64(m, Masked(U64(m, pml4)) + 8 * (v / 0x4000_0000));
      && Walk(r, pml4, KERNEL + v) == FromEntry(m, e, 3, v % 0x4000_0000)
      && LowerTables(r, pml4, KERNEL + v) == {pdpt} + Tables(m, e, 3, v % 0x4000_0000)
  {
    hide Masked, U64, Index, Bits48, Rest, Target, Present, Walk, LowerTables, FromEntry, Tables, Written;
    KernelBits(v);
    ThroughNewTable(m, r, pml4, pdpt, KERNEL + v);
    assert NewEntry(m, r, pml4, pdpt, 510 + v / 0x4000_0000);
    WalkKept(m, r, pml4, pdpt, U64(m, Masked(U64(m, pml4)) + 8 * (v / 0x4000_0000)), 3, v % 0x4000_0000);
  }

  /** So the window shows the first 2 GiB, through leaves of any size, when that entry is present and has no bits
      above the physical address. */
  lemma KernelWindow(m: seq<u8>, r: seq<u8>, pml4: nat, pdpt: nat, v: u64)
    requires EditedTo(m, r, pml4, pdpt) && v < 0x8000_0000 && Clear(m, pml4, pdpt, v)
    requires Present(U64(m, pml4)) && Masked(U64(m, pml4)) == Target(U64(m, pml4))
    ensures KERNEL + v < TWO_64 && Walk(r, pml4, KERNEL + v) == Walk(m, pml4, v)
    ensures LowerTables(r, pml4, KERNEL + v) <= LowerTables(m, pml4, v) + {pdpt}
  {
    hide Masked, U64, Index, Bits48, Rest, Target, Present, NewEntry, Written;
    DirectBits(v);
    KernelBits(v);
    var e0 := U64(m, pml4);
    var e := U64(m, Target(e0) + 8 * Index(v, 3));
    assert Walk(m, pml4, v) == FromEntry(m, e0, 4, v) == FromEntry(m, e, 3, Rest(v, 3));
    assert LowerTables(m, pml4, v) == {Target(e0)} + Tables(m, e, 3, Rest(v, 3));
    KernelWindowShows(m, r, pml4, pdpt, v);
  }

  /** The rest of the top 512 GiB is unmapped. */
  lemma TopOtherwiseUnmapped(m: seq<u8>, r: seq<u8>, pml4: nat, pdpt: nat, va: u64)
    requires EditedTo(m, r, pml4, pdpt) && Canonical(va) && RootIndex(va) == 511 && va < KERNEL
    ensures Walk(r, pml4, va) == NotPresent && LowerTables(r, pml4, va) == {pdpt}
  {
    hide Masked, U64, Index, Bits48, Rest, Target, RootIndex, Editable, LowerTables, Walk, Written;
    TopBits(va);
    ThroughNewTable(m, r, pml4, pdpt, va);
    assert NewEntry(m, r, pml4, pdpt, Index(Rest(Bits48(va), 4), 3));
  }

  lemma TopBits(va: u64)
    requires Canonical(va) && RootIndex(va) == 511 && va < KERNEL
    ensures Index(Rest(Bits48(va), 4), 3) < 510
  {
    var y := Rest(Bits48(va), 4);
    assert Bits48(va) == 511 * 0x80_0000_0000 + y;
    assert va == va / 0x1_0000_0000_0000 * 0x1_0000_0000_0000 + Bits48(va);
    assert va / 0x1_0000_0000_0000 == 0xffff;
    assert y < 510 * 0x4000_0000;
  }

  /** A free page is neither of two pages the firmware owns. */
  lemma FreshPage(pages: PageMap, size: nat, a: nat, b: nat, page: u64)
    requires forall p :: p in pages ==> (p + 1) * PAGE <= size
    requires a % PAGE == 0 && b % PAGE == 0 && Owned(pages, a / PAGE) && Owned(pages, b / PAGE)
    requires CanClaim(pages, page, 1)
    ensures page % PAGE == 0 && a + PAGE <= size && b + PAGE <= size && page + PAGE <= size
    ensures page != b && (a + PAGE <= page || page + PAGE <= a)
  {
    assert Free(pages, page / PAGE);
  }

  /** The stores stay inside memory, even when there is no page for the new table and it goes to address 0. */
  lemma NullStorable(m: seq<u8>, pml4: nat)
    requires InMemory(m, pml4, 0) && Masked(U64(m, pml4)) + PAGE <= |m|
    ensures Storable(m, pml4, 0)
  {
    hide U64, Write, Put;
    if pml4 == 0 {
      ZeroWord(Hooked(m, 0, 0), 0);
    } else {
      HookedWords(m, pml4, 0);
    }
  }

  /** The last two stores: the low table's first entries, found through the root. */
  method CopyLowEntries(ram: array<u8>, ghost m: seq<u8>, pml4: nat, pdpt: nat)
    requires Storable(m, pml4, pdpt) && ram[..] == Hooked(m, pml4, pdpt)
    modifies ram
    ensures ram[..] == Edited(m, pml4, pdpt)
  {
    hide U64, Masked, Hooked, Write;
    var low := Masked(U64(ram[..], pml4));
    Store(ram, pdpt + 510 * 8, Bytes64(U64(ram[..], low)));
    Store(ram, pdpt + 511 * 8, Bytes64(U64(ram[..], low + 8)));
  }

  /** The loader's page-table edits. `cr3` is the root in use; the low table its first entry leads to is, like the
      root, owned by the firmware. When no page can be had the loader does not notice, and builds the new table at
      address 0. */
  method PrepareHigherHalf(fw: Firmware, cr3: u64) returns (pdpt: u64)
    requires fw.Valid() && fw.ram.Length <= PHYSICAL_LIMIT
    requires cr3 % PAGE == 0 && Owned(fw.pages, cr3 / PAGE)
    requires Owned(fw.pages, Masked(U64(fw.ram[..], cr3)) / PAGE)
    modifies fw`pages, fw.ram
    ensures fw.Valid()
    ensures Storable(old(fw.ram[..]), cr3, pdpt) && fw.ram[..] == Edited(old(fw.ram[..]), cr3, pdpt)
    ensures HasRun(old(fw.pages), 1) ==>
      && CanClaim(old(fw.pages), pdpt, 1)
      && fw.pages == Claim(old(fw.pages), pdpt / PAGE, 1, EfiReservedMemoryType)
      && EditedTo(old(fw.ram[..]), fw.ram[..], cr3, pdpt)
    ensures !HasRun(old(fw.pages), 1) ==> pdpt == 0 && fw.pages == old(fw.pages)
  {
    hide U64, Write, Masked, CanClaim, Edited, EditedTo, HasRun;
    var ram := fw.ram;
    ghost var m := ram[..];
    MaskedAligned(U64(m, cr3));
    assert m == old(fw.ram[..]);
    Store(ram, cr3 + 256 * 8, Bytes64(U64(ram[..], cr3)));
    var status;
    pdpt, status := fw.AllocateAny(EfiReservedMemoryType, 1);
    if status.Success? {
      FreshPage(old(fw.pages), ram.Length, cr3, Masked(U64(m, cr3)), pdpt);
      EditedEffect(m, cr3, pdpt);
    } else {
      NullStorable(m, cr3);
    }
    Store(ram, pdpt, Zeros(PAGE));
    Store(ram, cr3 + 511 * 8, Bytes64(pdpt + 3));
    assert ram[..] == Hooked(m, cr3, pdpt);
    CopyLowEntries(ram, m, cr3, pdpt);
  }
}
