/** The parts of the UEFI Specification (section 7.2) the loader relies on: status codes,
    4 KiB pages, memory types, memory descriptors and the page allocator. */
module Uefi {
  import opened Bytes

  const PAGE: nat := 0x1000
  /** The top 2 GiB of the address space, for which kernels are linked. */
  const KERNEL: nat := 0xffff_ffff_8000_0000

  datatype Option<+T> = None | Some(value: T)

  /** EFI_STATUS. Undefined is none of its values: it stands for a program that is about to write over memory that
      is not its own, of which nothing more can be said. */
  datatype Status = Success | InvalidParameter | NotFound | OutOfResources | DeviceError | BufferTooSmall | Undefined

  /** EFI_SIZE_TO_PAGES */
  function SizeToPages(size: u64): (n: nat)
    ensures (n - 1) * PAGE < size <= n * PAGE || n == size == 0
  {
    size / PAGE + if size % PAGE != 0 then 1 else 0
  }

  /** EFI_PAGES_TO_SIZE: a 64-bit shift, so the top 12 bits of the count are lost. */
  function PagesToSize(pages: u64): (size: u64)
    ensures pages < 0x10_0000_0000_0000 ==> size == pages * PAGE
  {
    pages % 0x10_0000_0000_0000 * PAGE
  }

  /** For any count, it is the product modulo 2^64. */
  lemma PagesModular(pages: u64)
    ensures PagesToSize(pages) == pages * PAGE % TWO_64
  {
    var q := pages / 0x10_0000_0000_0000;
    DivMod(pages * PAGE, TWO_64, q, PagesToSize(pages));
  }

  // EFI_MEMORY_TYPE
  const EfiReservedMemoryType: u32 := 0
  const EfiLoaderCode: u32 := 1
  const EfiLoaderData: u32 := 2
  const EfiBootServicesCode: u32 := 3
  const EfiBootServicesData: u32 := 4
  const EfiRuntimeServicesCode: u32 := 5
  const EfiRuntimeServicesData: u32 := 6
  const EfiConventionalMemory: u32 := 7
  const EfiUnusableMemory: u32 := 8
  const EfiACPIReclaimMemory: u32 := 9
  const EfiACPIMemoryNVS: u32 := 10
  const EfiMemoryMappedIO: u32 := 11
  const EfiMemoryMappedIOPortSpace: u32 := 12
  const EfiPalCode: u32 := 13
  const EfiPersistentMemory: u32 := 14
  const EfiMaxMemoryType: u32 := 15

  /** The fields of EFI_MEMORY_DESCRIPTOR the loader reads. */
  datatype Descriptor = Descriptor(typ: u32, start: u64, pages: u64)

  /** Page number to memory type, for every page backed by RAM. */
  type PageMap = map<nat, u32>

  predicate Free(pages: PageMap, p: nat) {
    p in pages && pages[p] == EfiConventionalMemory
  }

  /** The page belongs to someone, so the allocator will not hand it out. */
  predicate Owned(pages: PageMap, p: nat) {
    p in pages && pages[p] != EfiConventionalMemory
  }

  function Claim(pages: PageMap, first: nat, count: nat, typ: u32): (r: PageMap)
    ensures r.Keys == pages.Keys
    ensures forall p :: p in pages ==> r[p] == if first <= p < first + count then typ else pages[p]
  {
    map p | p in pages :: if first <= p < first + count then typ else pages[p]
  }

  /** Whether AllocatePages(AllocateAddress) can grant the request. */
  predicate CanClaim(pages: PageMap, address: u64, count: nat) {
    count > 0 && address % PAGE == 0 &&
    forall p :: address / PAGE <= p < address / PAGE + count ==> Free(pages, p)
  }

  lemma ClaimSparesOwned(pages: PageMap, address: u64, count: nat, typ: u32)
    requires CanClaim(pages, address, count)
    ensures var after := Claim(pages, address / PAGE, count, typ);
      forall p :: Owned(pages, p) ==> p in after && after[p] == pages[p]
  {
    forall p: nat | Owned(pages, p) ensures !(address / PAGE <= p < address / PAGE + count) {
      assert address / PAGE <= p < address / PAGE + count ==> Free(pages, p);
    }
  }

  /** There is a run of `count` free pages somewhere. */
  ghost predicate HasRun(pages: PageMap, count: nat) {
    exists address: u64 :: CanClaim(pages, address, count)
  }

  /** Who owns memory: the type of every page, the pages that are dealt out in pieces, as pool memory, and the bytes of
      the pieces that are in use. */
  datatype Owners = Owners(pages: PageMap, pool: set<nat>, live: set<nat>)

  /** Pool pages have an owner, the pool, and pieces lie in them. */
  ghost predicate PoolOwned(o: Owners) {
    (forall p :: p in o.pool ==> Owned(o.pages, p)) && (forall a :: a in o.live ==> a / PAGE in o.pool)
  }

  /** The byte may be handed out. */
  predicate Loose(o: Owners, a: nat) {
    Free(o.pages, a / PAGE) || (a / PAGE in o.pool && a !in o.live)
  }

  /** The page has an owner for as long as the owner likes. */
  predicate Fixed(o: Owners, p: nat) {
    Owned(o.pages, p) && p !in o.pool
  }

  predicate FixedAs(o: Owners, p: nat, typ: u32) {
    Fixed(o, p) && o.pages[p] == typ
  }

  /** The run of pages from `first` on becomes pool memory. */
  function WithPool(o: Owners, first: nat, count: nat, typ: u32): Owners {
    o.(pages := Claim(o.pages, first, count, typ), pool := o.pool + Interval(first, count))
  }

  /** The most pages the pool may claim for one piece: those the piece fills, and one for what the pool adds to it. */
  function MostPages(size: u64): nat {
    SizeToPages(size) + 1
  }

  /** The pool grows by a run of free pages, or not. */
  ghost predicate PoolGrows(o: Owners, after: Owners, typ: u32, size: u64) {
    after == o || exists address: u64, count: nat ::
      CanClaim(o.pages, address, count) && count <= MostPages(size) && after == WithPool(o, address / PAGE, count, typ)
  }

  /** A piece of pool memory comes into use. */
  ghost predicate PieceTaken(o: Owners, after: Owners, base: nat, size: nat) {
    && after == o.(live := o.live + Interval(base, size))
    && forall a: nat :: base <= a < base + size ==> a / PAGE in o.pool
  }

  /** What AllocatePool does to ownership: the pool may grow, and a piece may come into use. */
  ghost predicate PoolStep(o: Owners, after: Owners, typ: u32, size: u64) {
    after == o || exists grown: Owners, base: nat ::
      PoolGrows(o, grown, typ, size) && PieceTaken(grown, after, base, size)
  }

  lemma InRun(address: nat, size: u64, a: nat)
    requires address % PAGE == 0 && address <= a < address + SizeToPages(size) * PAGE
    ensures address / PAGE <= a / PAGE < address / PAGE + SizeToPages(size)
  {
  }

  /** A piece lies in its pages, in memory. */
  lemma PieceFits(pages: PageMap, base: u64, size: u64, limit: nat)
    requires CanClaim(pages, base, SizeToPages(size)) && forall p :: p in pages ==> (p + 1) * PAGE <= limit
    ensures base + size <= limit
    ensures forall a: nat :: base <= a < base + size ==>
      Free(pages, a / PAGE) && a / PAGE in Interval(base / PAGE, SizeToPages(size))
  {
    var last := base / PAGE + SizeToPages(size) - 1;
    assert Free(pages, last);
    forall a: nat | base <= a < base + size ensures base / PAGE <= a / PAGE < base / PAGE + SizeToPages(size) {
      InRun(base, size, a);
    }
  }

  /** What has an owner keeps it, and the pool keeps its pages and its pieces. */
  ghost predicate Keeps(o: Owners, after: Owners) {
    && after.pages.Keys == o.pages.Keys && o.pool <= after.pool && o.live <= after.live
    && forall p :: Fixed(o, p) ==> Fixed(after, p) && after.pages[p] == o.pages[p]
  }

  lemma PoolClaimKeeps(o: Owners, address: u64, count: nat, typ: u32)
    requires CanClaim(o.pages, address, count) && typ != EfiConventionalMemory
    requires PoolOwned(o)
    ensures var after := WithPool(o, address / PAGE, count, typ);
      Keeps(o, after) && PoolOwned(after)
  {
    ClaimSparesOwned(o.pages, address, count, typ);
    var first, after := address / PAGE, WithPool(o, address / PAGE, count, typ);
    forall p | p in Interval(first, count) ensures Free(o.pages, p) && Owned(after.pages, p) {
      assert Free(o.pages, p);
    }
  }

  lemma PoolStepKeeps(o: Owners, after: Owners, typ: u32, size: u64)
    requires PoolStep(o, after, typ, size) && typ != EfiConventionalMemory
    requires PoolOwned(o)
    ensures Keeps(o, after) && PoolOwned(after)
  {
    if after != o {
      var grown: Owners, base: nat :| PoolGrows(o, grown, typ, size) && PieceTaken(grown, after, base, size);
      PoolGrowsKeeps(o, grown, typ, size);
      PieceKeeps(o, grown, after, base, size);
    }
  }

  lemma PieceIsStep(o: Owners, grown: Owners, after: Owners, typ: u32, size: u64, base: u64)
    requires CanClaim(o.pages, base, SizeToPages(size)) && grown == WithPool(o, base / PAGE, SizeToPages(size), typ)
    requires after == grown.(live := grown.live + Interval(base, size))
    requires forall a: nat :: base <= a < base + size ==> a / PAGE in Interval(base / PAGE, SizeToPages(size))
    ensures PoolStep(o, after, typ, size)
  {
    hide CanClaim, Claim;
    assert PoolGrows(o, grown, typ, size);
    assert PieceTaken(grown, after, base, size);
  }

  lemma PoolGrowsKeeps(o: Owners, after: Owners, typ: u32, size: u64)
    requires PoolGrows(o, after, typ, size) && typ != EfiConventionalMemory
    requires PoolOwned(o)
    ensures Keeps(o, after) && PoolOwned(after)
  {
    hide CanClaim, WithPool, MostPages;
    if after != o {
      var address: u64, count: nat :|
        CanClaim(o.pages, address, count) && count <= MostPages(size) &&
        after == WithPool(o, address / PAGE, count, typ);
      PoolClaimKeeps(o, address, count, typ);
    }
  }

  lemma PieceKeeps(o: Owners, grown: Owners, after: Owners, base: nat, size: nat)
    requires Keeps(o, grown) && PoolOwned(grown) && PieceTaken(grown, after, base, size)
    ensures Keeps(o, after) && PoolOwned(after)
  {
  }

  function Interval(a: nat, n: nat): (s: set<nat>)
    ensures |s| == n && forall p :: p in s <==> a <= p < a + n
  {
    if n == 0 then {} else Interval(a, n - 1) + {a + n - 1}
  }

  /** Firmware boot services over a machine's RAM. */
  class Firmware {
    const ram: array<u8>
    var pages: PageMap
    var pool: set<nat>
    var live: set<nat>

    constructor (ram: array<u8>, owners: Owners)
      ensures this.ram == ram && Current() == owners
    {
      this.ram := ram;
      pages, pool, live := owners.pages, owners.pool, owners.live;
    }

    function Current(): Owners
      reads this
    {
      Owners(pages, pool, live)
    }

    ghost predicate Valid()
      reads this
    {
      && ram.Length < TWO_64 && (forall p :: p in pages ==> (p + 1) * PAGE <= ram.Length)
      && PoolOwned(Current())
    }

    /** AllocatePages(AllocateAddress): the very pages asked for, or nothing. */
    method AllocateAt(typ: u32, count: nat, address: u64) returns (status: Status)
      requires Valid()
      modifies this`pages
      ensures Valid()
      ensures status == if CanClaim(old(pages), address, count) then Success else NotFound
      ensures pages == if status.Success? then Claim(old(pages), address / PAGE, count, typ) else old(pages)
    {
      if CanClaim(pages, address, count) {
        ClaimSparesOwned(pages, address, count, typ);
        pages := Claim(pages, address / PAGE, count, typ);
        return Success;
      }
      return NotFound;
    }

    /** AllocatePages(AllocateAnyPages): some free run of pages, if there is one. Only the contract is relied on,
        so any placement policy will do. */
    method AllocateAny(typ: u32, count: nat) returns (address: u64, status: Status)
      requires Valid() && count > 0
      modifies this`pages
      ensures Valid()
      ensures status == if HasRun(old(pages), count) then Success else OutOfResources
      ensures status.Success? ==> CanClaim(old(pages), address, count)
      ensures pages == if status.Success? then Claim(old(pages), address / PAGE, count, typ) else old(pages)
      ensures !status.Success? ==> address == 0
    {
      forall a: u64 | CanClaim(pages, a, count) ensures a < ram.Length {
        assert Free(pages, a / PAGE);
      }
      var p := 0;
      while p * PAGE < ram.Length
        invariant pages == old(pages)
        invariant forall a: u64 :: CanClaim(pages, a, count) ==> p * PAGE <= a
      {
        if CanClaim(pages, p * PAGE, count) {
          ClaimSparesOwned(pages, p * PAGE, count, typ);
          pages := Claim(pages, p, count, typ);
          return p * PAGE, Success;
        }
        p := p + 1;
      }
      return 0, OutOfResources;
    }

    /** AllocatePool: a piece of pool memory, for which free pages may become pool pages. Only the contract is relied
        on; it leaves open where the piece lies, and whether one can be found when there is no run of free pages. */
    method AllocatePool(typ: u32, size: u64) returns (base: u64, status: Status)
      requires Valid() && size > 0 && typ != EfiConventionalMemory
      modifies this`pages, this`pool, this`live
      ensures Valid() && PoolStep(old(Current()), Current(), typ, size)
      ensures HasRun(old(pages), SizeToPages(size)) ==> status.Success?
      ensures status.Success? ==> base + size <= ram.Length
      ensures status.Success? ==> forall a: nat :: base <= a < base + size ==>
        Loose(old(Current()), a) && a in live
      ensures !status.Success? ==> status == OutOfResources && base == 0 && Current() == old(Current())
    {
      ghost var before := Current();
      var count := SizeToPages(size);
      base, status := AllocateAny(typ, count);
      if status.Success? {
        pool := pool + Interval(base / PAGE, count);
        ghost var grown := Current();
        live := live + Interval(base, size);
        PieceFits(before.pages, base, size, ram.Length);
        PieceIsStep(before, grown, Current(), typ, size, base);
        PoolStepKeeps(before, Current(), typ, size);
      }
    }
  }
}
