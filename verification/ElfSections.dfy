/** Finding a section by name and loading its bytes (LoadSection). */
module ElfSections {
  import opened Bytes
  import opened Uefi
  import opened ElfFile

  // ---------------------------------------------------------------------------
  // Names
  // ---------------------------------------------------------------------------

  predicate Terminated(t: seq<u8>) {
    t != [] && t[|t| - 1] == 0
  }

  /** AsciiStrCmp of the strings at `a` in `t` and at `b` in `s`: the difference at the first mismatch. */
  function Compare(t: seq<u8>, a: nat, s: seq<u8>, b: nat): int
    requires Terminated(t) && Terminated(s) && a < |t| && b < |s|
    decreases |t| - a
  {
    if t[a] != 0 && t[a] == s[b] then Compare(t, a + 1, s, b + 1) else t[a] as int - s[b] as int
  }

  /** The name stands at `a`, and a NUL after it. */
  predicate NameAt(t: seq<u8>, a: nat, name: seq<u8>) {
    a + |name| < |t| && t[a..a + |name|] == name && t[a + |name|] == 0
  }

  /** The strings compare equal exactly when what is left of the name stands in the table, ended by a NUL. */
  lemma {:induction false} CompareExact(t: seq<u8>, a: nat, name: seq<u8>, b: nat)
    requires Terminated(t) && a < |t| && 0 !in name && b <= |name|
    ensures Compare(t, a, name + [0], b) == 0 <==> NameAt(t, a, name[b..])
    decreases |name| - b
  {
    var rest := name[b..];
    if b < |name| {
      assert name[b] in name;
      if t[a] == name[b] {
        assert a + 1 < |t|;
        CompareExact(t, a + 1, name, b + 1);
        NameFrom(t, a, rest);
      } else {
        assert a + |rest| < |t| ==> t[a..a + |rest|][0] == t[a];
      }
    }
  }

  lemma NameFrom(t: seq<u8>, a: nat, name: seq<u8>)
    requires name != [] && a < |t| && t[a] == name[0]
    ensures NameAt(t, a, name) <==> NameAt(t, a + 1, name[1..])
  {
    if a + |name| < |t| {
      assert t[a..a + |name|] == [t[a]] + t[a + 1..a + |name|];
      assert name == [name[0]] + name[1..];
    }
  }

  // ---------------------------------------------------------------------------
  // Pool memory
  // ---------------------------------------------------------------------------

  /** Pool allocations by handle, and the handles that have been freed, in order. An allocation larger than
      `limit` fails. */
  class Pool {
    const limit: nat
    var buffers: map<nat, seq<u8>>
    var freed: seq<nat>
    var next: nat

    constructor (limit: nat)
      ensures Valid() && buffers == map[] && freed == []
    {
      this.limit := limit;
      buffers, freed, next := map[], [], 0;
    }

    ghost predicate Valid()
      reads this
    {
      forall b :: b in buffers || b in freed ==> b < next
    }

    method AllocatePool(size: u64) returns (handle: Option<nat>)
      requires Valid()
      modifies this
      ensures Valid() && freed == old(freed)
      ensures size > limit ==> handle == None && buffers == old(buffers) && next == old(next)
      ensures size <= limit ==>
        handle == Some(old(next)) && next == old(next) + 1 && buffers == old(buffers)[old(next) := Zeros(size)]
    {
      if size > limit {
        return None;
      }
      handle := Some(next);
      buffers := buffers[next := Zeros(size)];
      next := next + 1;
    }

    /** FreePool: only a live allocation can be freed, and handles are not used again. */
    method FreePool(handle: nat)
      requires Valid() && handle in buffers
      modifies this
      ensures Valid() && next == old(next)
      ensures buffers == old(buffers) - {handle} && freed == old(freed) + [handle]
    {
      buffers := buffers - {handle};
      freed := freed + [handle];
    }

    /** FileRead into an allocation. */
    method ReadFile(f: File, handle: nat, size: u64, offset: u64) returns (status: Status)
      requires Valid() && handle in buffers && |buffers[handle]| == size
      modifies this`buffers
      ensures Valid()
      ensures status == FileRead(f, offset, size).status
      ensures buffers == old(buffers)[handle := Write(old(buffers)[handle], 0, FileRead(f, offset, size).data)]
      ensures status.Success? ==> buffers[handle] == FileRead(f, offset, size).data
    {
      var t := FileRead(f, offset, size);
      buffers := buffers[handle := Write(buffers[handle], 0, t.data)];
      status := t.status;
    }
  }

  /** The out-parameters. */
  class SectionOut {
    var buffer: nat
    var size: u64

    constructor () {
      buffer, size := 0, 0;
    }
  }

  // ---------------------------------------------------------------------------
  // The lookup
  // ---------------------------------------------------------------------------

  /** Reading the section name table: its header, then its bytes. */
  function NamesRead(f: File, h: Ehdr): Transfer {
    var t := ShdrRead(f, h, h.shstrndx);
    if t.status.Success? then FileRead(f, ParseShdr(t.data).offset, ParseShdr(t.data).size) else t
  }

  function SectionAt(f: File, h: Ehdr, i: nat): Shdr
    requires ShdrRead(f, h, i).status.Success?
  {
    ParseShdr(ShdrRead(f, h, i).data)
  }

  /** Section `i` can be read and has this name: it stands in the name table, ended by a NUL. */
  predicate Named(f: File, h: Ehdr, i: nat, name: seq<u8>) {
    ShdrRead(f, h, i).status.Success? && NameAt(NamesRead(f, h).data, SectionAt(f, h, i).name, name)
  }

  /** The search reaches section `i`: all headers up to it can be read and none before it has the name. */
  ghost predicate Reached(f: File, h: Ehdr, i: nat, name: seq<u8>) {
    && i < h.shnum && ShdrRead(f, h, i).status.Success?
    && forall k :: 0 <= k < i ==> ShdrRead(f, h, k).status.Success? && !Named(f, h, k, name)
  }

  /** Section `i` is the first with this name; all headers up to it can be read. */
  ghost predicate FirstNamed(f: File, h: Ehdr, i: nat, name: seq<u8>) {
    Reached(f, h, i, name) && Named(f, h, i, name)
  }

  /** The names the search reads lie inside a terminated name table. */
  ghost predicate NamesWithin(f: File, h: Ehdr, name: seq<u8>) {
    forall i :: Reached(f, h, i, name) ==>
      Terminated(NamesRead(f, h).data) && SectionAt(f, h, i).name < |NamesRead(f, h).data|
  }

  /** What the loader does not check: that the product which locates the name table's header fits the C int it is
      computed in, and that the names it reads lie in the table. */
  ghost predicate NamesInTable(f: File, h: Ehdr, name: seq<u8>, limit: nat) {
    && h.shstrndx * h.shentsize < 0x8000_0000
    && (NamesReadable(f, h, limit) ==> NamesWithin(f, h, name))
  }

  /** The section's bytes can be allocated and read. */
  predicate Readable(f: File, s: Shdr, limit: nat) {
    s.size <= limit && FileRead(f, s.offset, s.size).status.Success?
  }

  /** The name table can be read, into an allocation. */
  predicate NamesReadable(f: File, h: Ehdr, limit: nat) {
    NamesAllocated(f, h, limit) && NamesRead(f, h).status.Success?
  }

  predicate NamesAllocated(f: File, h: Ehdr, limit: nat) {
    ShdrRead(f, h, h.shstrndx).status.Success? && SectionAt(f, h, h.shstrndx).size <= limit
  }

  /** The search loop. `found` is the index of the first section with the name, if no earlier header is unreadable. */
  method FindSection(f: File, h: Ehdr, names: seq<u8>, name: seq<u8>) returns (found: Option<nat>, status: Status)
    requires NamesRead(f, h).status.Success? && names == NamesRead(f, h).data && NamesWithin(f, h, name)
    requires 0 !in name
    ensures match found
      case Some(i) => status.Success? && FirstNamed(f, h, i, name)
      case None => !status.Success? && forall i :: !FirstNamed(f, h, i, name)
  {
    hide FileRead, EntryOffset, ParseShdr, NamesRead, NameAt;
    var i := 0;
    while i < h.shnum
      invariant i <= h.shnum
      invariant forall k :: 0 <= k < i ==> ShdrRead(f, h, k).status.Success? && !Named(f, h, k, name)
    {
      status := ShdrRead(f, h, i).status;
      if !status.Success? {
        return None, status;
      }
      assert Reached(f, h, i, name);
      assert name[0..] == name;
      CompareExact(names, SectionAt(f, h, i).name, name, 0);
      if Compare(names, SectionAt(f, h, i).name, name + [0], 0) == 0 {
        return Some(i), Success;
      }
      i := i + 1;
    }
    return None, InvalidParameter;
  }

  /** Section `i` is the one LoadSection delivers. */
  ghost predicate Delivers(f: File, h: Ehdr, i: nat, name: seq<u8>, limit: nat) {
    NamesReadable(f, h, limit) && FirstNamed(f, h, i, name) && Readable(f, SectionAt(f, h, i), limit)
  }

  /** At most one section is the first with a name. */
  lemma FirstIsOne(f: File, h: Ehdr, i: nat, name: seq<u8>)
    requires FirstNamed(f, h, i, name)
    ensures ShdrRead(f, h, i).status.Success? && forall k :: FirstNamed(f, h, k, name) ==> k == i
  {
  }

  /** Finding the section and loading its bytes, once the name table is in memory. */
  method LoadNamed(f: File, h: Ehdr, pool: Pool, names: seq<u8>, name: seq<u8>)
    returns (buffer: nat, section: Shdr, status: Status, ghost index: nat)
    requires pool.Valid() && 0 !in name
    requires NamesRead(f, h).status.Success? && names == NamesRead(f, h).data && NamesWithin(f, h, name)
    modifies pool
    ensures pool.Valid() && pool.freed == old(pool.freed)
    ensures forall b :: b in old(pool.buffers) ==> b in pool.buffers && pool.buffers[b] == old(pool.buffers)[b]
    ensures status.Success? <==> exists i :: FirstNamed(f, h, i, name) && Readable(f, SectionAt(f, h, i), pool.limit)
    ensures status.Success? ==>
      && FirstNamed(f, h, index, name) && Readable(f, section, pool.limit) && section == SectionAt(f, h, index)
      && buffer !in old(pool.buffers)
      && pool.buffers == old(pool.buffers)[buffer := FileRead(f, section.offset, section.size).data]
  {
    hide FileRead, EntryOffset, ParseShdr, NamesWithin, FirstNamed;
    buffer, section, index := 0, Shdr(0, 0, 0), 0;
    var found;
    found, status := FindSection(f, h, names, name);
    if found.None? {
      return;
    }
    index := found.value;
    FirstIsOne(f, h, index, name);
    section := SectionAt(f, h, found.value);
    var handle := pool.AllocatePool(section.size);
    if handle.None? {
      status := InvalidParameter;
      return;
    }
    buffer := handle.value;
    status := pool.ReadFile(f, buffer, section.size, section.offset);
  }

  /** The out-parameters name a new allocation that holds exactly the section's bytes; every other allocation is
      as before. */
  ghost predicate Delivered(s: Shdr, f: File, out: SectionOut, buffers: map<nat, seq<u8>>, before: map<nat, seq<u8>>)
    reads out
  {
    && out.size == s.size && out.buffer !in before
    && buffers == before[out.buffer := FileRead(f, s.offset, s.size).data]
  }

  /** Loading the section and setting the out-parameters, which is not done before nothing can fail any more. */
  method Deliver(f: File, h: Ehdr, pool: Pool, out: SectionOut, names: seq<u8>, name: seq<u8>) returns (status: Status)
    requires pool.Valid() && 0 !in name && NamesWithin(f, h, name)
    requires NamesReadable(f, h, pool.limit) && names == NamesRead(f, h).data
    modifies pool, out
    ensures pool.Valid() && pool.freed == old(pool.freed)
    ensures forall b :: b in old(pool.buffers) ==> b in pool.buffers && pool.buffers[b] == old(pool.buffers)[b]
    ensures status.Success? <==> exists i :: Delivers(f, h, i, name, pool.limit)
    ensures status.Success? ==> forall i :: Delivers(f, h, i, name, pool.limit) ==>
      Delivered(SectionAt(f, h, i), f, out, pool.buffers, old(pool.buffers))
    ensures !status.Success? ==> unchanged(out)
  {
    hide FileRead, EntryOffset, ParseShdr, NamesWithin, NamesReadable, FirstNamed, Readable, Write, Zeros;
    NamesFacts(f, h, pool.limit);
    var buffer, section;
    ghost var index;
    buffer, section, status, index := LoadNamed(f, h, pool, names, name);
    if status.Success? {
      out.buffer := buffer;
      out.size := section.size;
      FirstIsOne(f, h, index, name);
      assert Delivers(f, h, index, name, pool.limit);
    }
  }

  lemma NamesFacts(f: File, h: Ehdr, limit: nat)
    requires NamesReadable(f, h, limit)
    ensures NamesRead(f, h).status.Success?
  {
  }

  /** LoadSection, once the file header has been accepted. */
  method LoadWithHeader(f: File, h: Ehdr, pool: Pool, out: SectionOut, name: seq<u8>) returns (status: Status)
    requires pool.Valid() && 0 !in name && NamesInTable(f, h, name, pool.limit)
    modifies pool, out
    ensures pool.Valid()
    ensures status.Success? <==> exists i :: Delivers(f, h, i, name, pool.limit)
    ensures status.Success? ==> forall i :: Delivers(f, h, i, name, pool.limit) ==>
      Delivered(SectionAt(f, h, i), f, out, pool.buffers, old(pool.buffers))
    ensures !status.Success? ==> unchanged(out)
    ensures pool.freed == old(pool.freed) + if NamesAllocated(f, h, pool.limit) then [old(pool.next)] else []
    ensures old(pool.next) !in pool.buffers
  {
    hide FileRead, EntryOffset, ParseShdr, NamesWithin, FirstNamed, Readable, Write, Zeros;
    status := ShdrRead(f, h, h.shstrndx).status;
    if !status.Success? {
      return;
    }
    var table := SectionAt(f, h, h.shstrndx);
    var names := pool.AllocatePool(table.size);
    if names.None? {
      return InvalidParameter;
    }
    status := pool.ReadFile(f, names.value, table.size, table.offset);
    if status.Success? {
      status := Deliver(f, h, pool, out, pool.buffers[names.value], name);
    }
    pool.FreePool(names.value);
  }

  method LoadSection(f: File, pool: Pool, out: SectionOut, name: seq<u8>) returns (status: Status)
    requires pool.Valid() && 0 !in name
    requires HeaderStatus(f).Success? ==> NamesInTable(f, Header(f), name, pool.limit)
    modifies pool, out
    ensures pool.Valid()
    // It succeeds exactly when there is a section to deliver: the first one with the name.
    ensures status.Success? <==> HeaderStatus(f).Success? && exists i :: Delivers(f, Header(f), i, name, pool.limit)
    ensures status.Success? ==> forall i :: Delivers(f, Header(f), i, name, pool.limit) ==>
      Delivered(SectionAt(f, Header(f), i), f, out, pool.buffers, old(pool.buffers))
    ensures !status.Success? ==> unchanged(out)
    // The name table is freed once on every path that allocated it, and nothing else is freed.
    ensures pool.freed == old(pool.freed) +
      if HeaderStatus(f).Success? && NamesAllocated(f, Header(f), pool.limit) then [old(pool.next)] else []
    ensures old(pool.next) !in pool.buffers
  {
    status := HeaderStatus(f);
    if status.Success? {
      hide Delivers, Delivered, NamesAllocated, NamesInTable, HeaderStatus, Header;
      status := LoadWithHeader(f, Header(f), pool, out, name);
    }
  }

  // ---------------------------------------------------------------------------
  // Files that are written out
  // ---------------------------------------------------------------------------

  /** A file that has these section headers where its header says, one of them that of the name table. */
  ghost predicate SectionsHold(f: File, h: Ehdr, shs: seq<Shdr>) {
    && |f.bytes| < TWO_64 && |shs| == h.shnum && h.shstrndx < |shs|
    && forall i :: 0 <= i < |shs| ==> HoldsShdr(f, h.shoff + h.shentsize * i, shs[i])
  }

  /** The bytes of a section are in the file, to be read without fault, and are few enough to be allocated. */
  predicate Complete(f: File, s: Shdr, limit: nat) {
    s.size <= limit && Unbroken(f, s.offset, s.size)
  }

  lemma SectionsWritten(f: File, h: Ehdr, shs: seq<Shdr>)
    requires SectionsHold(f, h, shs)
    ensures forall i :: 0 <= i < |shs| ==> ShdrRead(f, h, i).status.Success? && SectionAt(f, h, i) == shs[i]
  {
    hide HoldsShdr, ShdrRead;
    forall i | 0 <= i < |shs| ensures ShdrRead(f, h, i).status.Success? && SectionAt(f, h, i) == shs[i] {
      SectionWritten(f, h, i, shs[i]);
    }
  }

  /** The name table's bytes. */
  function NameTable(f: File, h: Ehdr, shs: seq<Shdr>): seq<u8>
    requires h.shstrndx < |shs| && shs[h.shstrndx].offset + shs[h.shstrndx].size <= |f.bytes|
  {
    f.bytes[shs[h.shstrndx].offset..shs[h.shstrndx].offset + shs[h.shstrndx].size]
  }

  /** Section `i` is the first whose name stands in the table where its header says, ended by a NUL. */
  ghost predicate FirstWritten(names: seq<u8>, shs: seq<Shdr>, i: nat, name: seq<u8>) {
    i < |shs| && NameAt(names, shs[i].name, name) && forall k :: 0 <= k < i ==> !NameAt(names, shs[k].name, name)
  }

  lemma NamesAre(f: File, h: Ehdr, shs: seq<Shdr>, limit: nat)
    requires SectionsHold(f, h, shs) && Complete(f, shs[h.shstrndx], limit)
    ensures NamesRead(f, h) == Transfer(NameTable(f, h, shs), Success) && NamesAllocated(f, h, limit)
  {
    SectionsWritten(f, h, shs);
    hide HoldsShdr, ShdrRead, FileRead, ParseShdr;
    ReadsSlice(f, shs[h.shstrndx].offset, shs[h.shstrndx].size);
  }

  lemma NamedWritten(f: File, h: Ehdr, shs: seq<Shdr>, limit: nat, i: nat, name: seq<u8>)
    requires SectionsHold(f, h, shs) && Complete(f, shs[h.shstrndx], limit) && i < |shs|
    ensures ShdrRead(f, h, i).status.Success?
    ensures Named(f, h, i, name) <==> NameAt(NameTable(f, h, shs), shs[i].name, name)
  {
    SectionsWritten(f, h, shs);
    NamesAre(f, h, shs, limit);
    hide SectionsHold, ShdrRead, NamesRead, NameAt, ParseShdr;
  }

  /** A section of `limit` bytes at most that can be read: its bytes are there, or it is empty at the file's end. */
  predicate Fetchable(f: File, s: Shdr, limit: nat) {
    s.size <= limit && if s.offset == TWO_64 - 1 then s.size == 0 else Unbroken(f, s.offset, s.size)
  }

  lemma ReadableExactly(f: File, s: Shdr, limit: nat)
    requires |f.bytes| < TWO_64
    ensures Readable(f, s, limit) <==> Fetchable(f, s, limit)
    ensures Complete(f, s, limit) ==> FileRead(f, s.offset, s.size).data == f.bytes[s.offset..s.offset + s.size]
  {
    hide FileRead;
    ReadExact(f, s.offset, s.size);
    if Complete(f, s, limit) {
      ReadsSlice(f, s.offset, s.size);
    }
  }

  /** What LoadSection delivers from a written-out file: the first section with the name, if its bytes can be read. */
  lemma DeliversWritten(f: File, h: Ehdr, shs: seq<Shdr>, i: nat, name: seq<u8>, limit: nat)
    requires SectionsHold(f, h, shs) && Complete(f, shs[h.shstrndx], limit)
    ensures Delivers(f, h, i, name, limit) <==>
      FirstWritten(NameTable(f, h, shs), shs, i, name) && Fetchable(f, shs[i], limit)
  {
    NamesAre(f, h, shs, limit);
    assert |shs| == h.shnum && |f.bytes| < TWO_64;
    if i < |shs| {
      SectionsWritten(f, h, shs);
      ReadableExactly(f, shs[i], limit);
      forall k | 0 <= k <= i
        ensures Named(f, h, k, name) <==> NameAt(NameTable(f, h, shs), shs[k].name, name)
      {
        NamedWritten(f, h, shs, limit, k, name);
      }
      hide SectionsHold, ShdrRead, NamesRead, NameAt, ParseShdr, Readable, Fetchable, Named, NamesAllocated, NameTable;
    }
  }
}
