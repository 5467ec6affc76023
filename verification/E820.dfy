/** The E820 memory map handed to the kernel, as a fold over the firmware's descriptors
    (Origami.c, the conversion loop of LoadOrigamiKernel). */
module E820 {
  import opened Bytes
  import opened Uefi

  const RAM: u32 := 1
  const RESERVED: u32 := 2
  const ACPI: u32 := 3
  const NVS: u32 := 4
  const UNUSABLE: u32 := 5
  const RESERVED_KERN: u32 := 128

  /** Types the conversion table answers for: it has no element for EfiPersistentMemory. */
  predicate KnownType(t: u32): (known: bool)
    ensures known <==> t != 14
  {
    t != EfiPersistentMemory
  }

  /** EfiTypeToE820Type, in the order of the EFI memory types. */
  const TYPE_TABLE: seq<u32> := [
    RESERVED, RAM, RAM, RAM, RAM, RAM, RAM, RAM, UNUSABLE, ACPI, NVS, RESERVED, RESERVED_KERN, RESERVED]

  function TypeOf(t: u32): (e: u32)
    requires KnownType(t)
    ensures e == 1 <==> 1 <= t <= 7
    ensures e == 128 <==> t == 12
    ensures e == 5 <==> t == 8
    ensures e == 3 <==> t == 9
    ensures e == 4 <==> t == 10
    ensures e in {1, 2, 3, 4, 5, 128}
  {
    if t < EfiMaxMemoryType then TYPE_TABLE[t] else RESERVED
  }

  /** An E820 entry. */
  datatype Range = Range(start: u64, size: u64, typ: u32)

  function End(r: Range): u64 {
    Add64(r.start, r.size)
  }

  /** The loop's test for extending an entry, in 64-bit arithmetic. */
  predicate Joins(a: Range, b: Range) {
    a.typ == b.typ && End(a) == b.start
  }

  /** Same type, and the second starts where the first ends, modulo 2^64. */
  lemma JoinsIs(a: Range, b: Range)
    ensures Joins(a, b) <==> a.typ == b.typ && (a.start + a.size) % 0x1_0000_0000_0000_0000 == b.start
  {
    Modular(a.start, a.size);
  }

  /** Range number `x` is joined by its successor. */
  predicate JoinsNext(rs: seq<Range>, x: int) {
    0 <= x < |rs| - 1 && Joins(rs[x], rs[x + 1])
  }

  function Extend(a: Range, b: Range): Range {
    a.(size := Add64(a.size, b.size))
  }

  function Last<T>(s: seq<T>): T
    requires s != []
  {
    s[|s| - 1]
  }

  function Init<T>(s: seq<T>): seq<T>
    requires s != []
  {
    s[..|s| - 1]
  }

  /** One iteration of the loop. */
  function Append(out: seq<Range>, r: Range): seq<Range> {
    if out != [] && Joins(Last(out), r) then Init(out) + [Extend(Last(out), r)] else out + [r]
  }

  function Coalesce(rs: seq<Range>): seq<Range> {
    if rs == [] then [] else Append(Coalesce(Init(rs)), Last(rs))
  }

  /** Two neighbours join exactly when the fold extends: the end of the entry being built is
      always the end of the range read last. */
  lemma {:induction false} Local(rs: seq<Range>)
    requires rs != []
    ensures Coalesce(rs) != []
    ensures End(Last(Coalesce(rs))) == End(Last(rs)) && Last(Coalesce(rs)).typ == Last(rs).typ
  {
    var before := Coalesce(Init(rs));
    hide Joins, End, Extend, Coalesce;
    AppendLast(before, Last(rs));
    CoalesceStep(rs);
  }

  lemma CoalesceStep(rs: seq<Range>)
    requires rs != []
    ensures Coalesce(rs) == Append(Coalesce(Init(rs)), Last(rs))
  {
  }

  /** What is appended ends like the range that is appended, whether or not it extends the last entry. */
  lemma AppendLast(out: seq<Range>, r: Range)
    ensures Append(out, r) != [] && End(Last(Append(out, r))) == End(r) && Last(Append(out, r)).typ == r.typ
  {
  }

  function RangeOf(d: Descriptor): Range
    requires KnownType(d.typ)
  {
    Range(d.start, PagesToSize(d.pages), TypeOf(d.typ))
  }

  predicate AllKnown(ds: seq<Descriptor>) {
    forall i :: 0 <= i < |ds| ==> KnownType(ds[i].typ)
  }

  function Ranges(ds: seq<Descriptor>): (rs: seq<Range>)
    requires AllKnown(ds)
    ensures |rs| == |ds| && forall i :: 0 <= i < |ds| ==> rs[i] == RangeOf(ds[i])
  {
    seq(|ds|, i requires 0 <= i < |ds| => RangeOf(ds[i]))
  }

  // ---------------------------------------------------------------------------
  // Grouping: every entry merges a run of consecutive joining ranges, and no
  // other grouping has fewer.
  // ---------------------------------------------------------------------------

  predicate Run(g: seq<Range>) {
    g != [] && forall i :: 0 <= i < |g| - 1 ==> Joins(g[i], g[i + 1])
  }

  function Flatten(gs: seq<seq<Range>>): seq<Range> {
    if gs == [] then [] else Flatten(Init(gs)) + Last(gs)
  }

  ghost predicate Grouping(gs: seq<seq<Range>>, rs: seq<Range>) {
    Flatten(gs) == rs && forall i :: 0 <= i < |gs| ==> Run(gs[i])
  }

  function Total(g: seq<Range>): u64 {
    if g == [] then 0 else Add64(Total(Init(g)), Last(g).size)
  }

  function Merge(g: seq<Range>): Range
    requires Run(g)
  {
    Range(g[0].start, Total(g), g[0].typ)
  }

  /** The runs the fold merges: a range goes into the last run when it joins the range before it. */
  function AppendRun(gs: seq<seq<Range>>, r: Range): seq<seq<Range>> {
    if gs != [] && Last(gs) != [] && Joins(Last(Last(gs)), r) then Init(gs) + [Last(gs) + [r]] else gs + [[r]]
  }

  function Runs(rs: seq<Range>): seq<seq<Range>> {
    if rs == [] then [] else AppendRun(Runs(Init(rs)), Last(rs))
  }

  lemma FlattenSnoc(gs: seq<seq<Range>>, g: seq<Range>)
    ensures Flatten(gs + [g]) == Flatten(gs) + g
  {
    assert Init(gs + [g]) == gs;
  }

  lemma RunSnoc(g: seq<Range>, r: Range)
    ensures Run([r])
    ensures Run(g) ==> g != [] && (Joins(Last(g), r) ==> Run(g + [r]))
  {
  }

  lemma AppendRunGroups(gs: seq<seq<Range>>, rs: seq<Range>, r: Range)
    requires Grouping(gs, rs)
    ensures Grouping(AppendRun(gs, r), rs + [r])
    ensures Last(AppendRun(gs, r)) != [] && Last(Last(AppendRun(gs, r))) == r
  {
    hide Joins, Run;
    RunSnoc([], r);
    FlattenSnoc(gs, [r]);
    if gs != [] {
      RunSnoc(Last(gs), r);
      FlattenSnoc(Init(gs), Last(gs) + [r]);
      assert Flatten(gs) == Flatten(Init(gs)) + Last(gs);
    }
  }

  lemma {:induction false} RunsGroup(rs: seq<Range>)
    ensures Grouping(Runs(rs), rs)
    ensures rs != [] ==> Runs(rs) != [] && Last(Runs(rs)) != [] && Last(Last(Runs(rs))) == Last(rs)
  {
    if rs != [] {
      RunsGroup(Init(rs));
      AppendRunGroups(Runs(Init(rs)), Init(rs), Last(rs));
      assert rs == Init(rs) + [Last(rs)];
    }
  }

  lemma {:induction false} MergeEnd(g: seq<Range>)
    requires Run(g)
    ensures End(Merge(g)) == End(Last(g)) && Merge(g).typ == Last(g).typ
  {
    if |g| > 1 {
      assert Run(Init(g));
      MergeEnd(Init(g));
      assert Joins(g[|g| - 2], g[|g| - 1]);
    }
  }

  function MergeAll(gs: seq<seq<Range>>): (rs: seq<Range>)
    requires forall i :: 0 <= i < |gs| ==> Run(gs[i])
    ensures |rs| == |gs| && forall i :: 0 <= i < |gs| ==> rs[i] == Merge(gs[i])
  {
    if gs == [] then [] else MergeAll(Init(gs)) + [Merge(Last(gs))]
  }

  lemma MergeGrows(g: seq<Range>, r: Range)
    ensures Run([r]) && Merge([r]) == r
    ensures Run(g) && Joins(Last(g), r) ==> Run(g + [r]) && Merge(g + [r]) == Extend(Merge(g), r)
  {
    assert Init([r]) == [] && Init(g + [r]) == g;
    assert Total([r]) == r.size;
  }

  /** Adding a range to the runs and to their mergers is the same thing. */
  lemma AppendMerges(gs: seq<seq<Range>>, r: Range)
    requires forall i :: 0 <= i < |gs| ==> Run(gs[i])
    ensures forall i :: 0 <= i < |AppendRun(gs, r)| ==> Run(AppendRun(gs, r)[i])
    ensures MergeAll(AppendRun(gs, r)) == Append(MergeAll(gs), r)
  {
    if gs == [] {
      MergeGrows([], r);
    } else {
      MergeGrows(Last(gs), r);
      MergeEnd(Last(gs));
    }
  }

  /** Each output entry is the merger of a run of consecutive descriptors. */
  lemma {:induction false} CoalesceMergesRuns(rs: seq<Range>)
    ensures Grouping(Runs(rs), rs) && Coalesce(rs) == MergeAll(Runs(rs))
  {
    RunsGroup(rs);
    if rs != [] {
      CoalesceMergesRuns(Init(rs));
      AppendMerges(Runs(Init(rs)), Last(rs));
    }
  }

  /** No grouping of the ranges, in order, into joining runs has fewer groups than the output has entries. */
  lemma {:induction false} Minimal(gs: seq<seq<Range>>, rs: seq<Range>)
    requires Grouping(gs, rs)
    ensures |gs| >= |Coalesce(rs)|
  {
    CoalesceMergesRuns(rs);
    FewestRuns(gs, rs);
  }

  lemma {:induction false} FewestRuns(gs: seq<seq<Range>>, rs: seq<Range>)
    requires Grouping(gs, rs)
    ensures |gs| >= |Runs(rs)|
    decreases rs
  {
    if gs != [] {
      var g := Last(gs);
      assert rs == Flatten(Init(gs)) + g && Last(rs) == Last(g);
      if |g| == 1 {
        assert Flatten(Init(gs)) == Init(rs);
        FewestRuns(Init(gs), Init(rs));
      } else {
        var hs := Init(gs) + [Init(g)];
        FlattenSnoc(Init(gs), Init(g));
        assert Flatten(hs) == Init(rs);
        assert Joins(g[|g| - 2], g[|g| - 1]) && Last(Init(rs)) == g[|g| - 2];
        FewestRuns(hs, Init(rs));
        RunsGroup(Init(rs));
      }
    }
  }

  // ---------------------------------------------------------------------------
  // Canonical form
  // ---------------------------------------------------------------------------

  ghost predicate Canonical(rs: seq<Range>) {
    forall i :: 0 <= i < |rs| - 1 ==> !Joins(rs[i], rs[i + 1])
  }

  lemma {:induction false} CoalesceCanonical(rs: seq<Range>)
    ensures Canonical(Coalesce(rs))
  {
    if rs != [] {
      CoalesceCanonical(Init(rs));
      var out := Coalesce(Init(rs));
      if out != [] && Joins(Last(out), Last(rs)) && |out| > 1 {
        assert !Joins(out[|out| - 2], out[|out| - 1]);
      }
    }
  }

  /** In other words: no entry has the type of the one before it and starts where that ends. */
  lemma NoneAdjoin(rs: seq<Range>, i: nat)
    requires i + 1 < |Coalesce(rs)|
    ensures var a, b := Coalesce(rs)[i], Coalesce(rs)[i + 1];
      a.typ != b.typ || (a.start + a.size) % 0x1_0000_0000_0000_0000 != b.start
  {
    CoalesceCanonical(rs);
    JoinsIs(Coalesce(rs)[i], Coalesce(rs)[i + 1]);
  }

  lemma {:induction false} CanonicalFixed(rs: seq<Range>)
    requires Canonical(rs)
    ensures Coalesce(rs) == rs
  {
    if rs != [] {
      CanonicalFixed(Init(rs));
      if |rs| > 1 {
        assert !Joins(rs[|rs| - 2], rs[|rs| - 1]);
      }
    }
  }

  /** Coalescing its own output changes nothing. */
  lemma Idempotent(rs: seq<Range>)
    ensures Coalesce(Coalesce(rs)) == Coalesce(rs)
  {
    CoalesceCanonical(rs);
    CanonicalFixed(Coalesce(rs));
  }

  // ---------------------------------------------------------------------------
  // Coverage, conservation and order
  // ---------------------------------------------------------------------------

  predicate In(r: Range, a: nat) {
    r.start <= a < r.start + r.size
  }

  ghost predicate Covers(rs: seq<Range>, a: nat, t: u32) {
    exists i :: 0 <= i < |rs| && rs[i].typ == t && In(rs[i], a)
  }

  /** No range runs past the end of the 64-bit address space. */
  ghost predicate Proper(rs: seq<Range>) {
    forall i :: 0 <= i < |rs| ==> rs[i].start + rs[i].size <= TWO_64
  }

  function Sum(rs: seq<Range>): nat {
    if rs == [] then 0 else Sum(Init(rs)) + Last(rs).size
  }

  lemma CoversSplit(rs: seq<Range>, a: nat, t: u32)
    requires rs != []
    ensures Covers(rs, a, t) <==> Covers(Init(rs), a, t) || (Last(rs).typ == t && In(Last(rs), a))
  {
    if Covers(Init(rs), a, t) {
      var i :| 0 <= i < |Init(rs)| && Init(rs)[i].typ == t && In(Init(rs)[i], a);
      assert rs[i] == Init(rs)[i];
    }
    if Covers(rs, a, t) {
      var i :| 0 <= i < |rs| && rs[i].typ == t && In(rs[i], a);
      assert i < |rs| - 1 ==> Init(rs)[i] == rs[i];
    }
  }

  /** The run of ranges behind entry `o`: they join one another, and their neighbours on either side do not
      join them. The entry starts where the first starts and ends, modulo 2^64, where the last ends. */
  ghost predicate RunOf(rs: seq<Range>, o: nat, k: nat, m: nat)
    requires o < |Coalesce(rs)|
  {
    && k <= m < |rs|
    && Coalesce(rs)[o].start == rs[k].start && Coalesce(rs)[o].typ == rs[k].typ
    && End(Coalesce(rs)[o]) == End(rs[m])
    && (forall x :: k <= x < m ==> JoinsNext(rs, x))
    && !JoinsNext(rs, k - 1) && !JoinsNext(rs, m)
    && (m + 1 == |rs| <==> o + 1 == |Coalesce(rs)|)
  }

  lemma JoinsNextInit(rs: seq<Range>)
    requires rs != []
    ensures forall x :: JoinsNext(Init(rs), x) <==> x != |rs| - 2 && JoinsNext(rs, x)
  {
    assert forall x :: 0 <= x < |rs| - 1 ==> Init(rs)[x] == rs[x];
  }

  /** The fold extends its last entry exactly when the last two ranges join. */
  lemma LocalJoins(rs: seq<Range>)
    requires |rs| > 1
    ensures Coalesce(Init(rs)) != []
    ensures Joins(Last(Coalesce(Init(rs))), Last(rs)) <==> JoinsNext(rs, |rs| - 2)
  {
    Local(Init(rs));
  }

  /** The last range joins, and the run of the last entry grows by it. */
  lemma RunGrows(rs: seq<Range>, k: nat, m: nat)
    requires |rs| > 1 && JoinsNext(rs, |rs| - 2)
    requires var o := |Coalesce(Init(rs))| - 1; o >= 0 && RunOf(Init(rs), o, k, m)
    ensures |Coalesce(rs)| == |Coalesce(Init(rs))| && RunOf(rs, |Coalesce(rs)| - 1, k, |rs| - 1)
  {
    hide Joins, End, JoinsNext;
    LocalJoins(rs);
    JoinsNextInit(rs);
    Local(rs);
    NothingAfter(rs);
    assert !JoinsNext(Init(rs), k - 1);
  }

  lemma NothingAfter(rs: seq<Range>)
    ensures !JoinsNext(rs, |rs| - 1)
  {
  }

  /** The run of an entry that is not touched any more. */
  lemma RunStays(rs: seq<Range>, o: nat, k: nat, m: nat)
    requires |rs| > 1 && o < |Coalesce(Init(rs))| && RunOf(Init(rs), o, k, m)
    requires o + 1 < |Coalesce(Init(rs))| || !JoinsNext(rs, |rs| - 2)
    ensures o < |Coalesce(rs)| && RunOf(rs, o, k, m)
  {
    hide Joins, End, JoinsNext;
    LocalJoins(rs);
    JoinsNextInit(rs);
    assert Coalesce(rs)[o] == Coalesce(Init(rs))[o];
    assert !JoinsNext(Init(rs), k - 1) && !JoinsNext(Init(rs), m);
  }

  lemma EntryAdded(rs: seq<Range>)
    requires rs != [] && |Coalesce(Init(rs))| < |Coalesce(rs)|
    ensures Coalesce(rs) == Coalesce(Init(rs)) + [Last(rs)] && !JoinsNext(rs, |rs| - 2)
  {
    hide Joins, End;
    if |rs| > 1 {
      LocalJoins(rs);
    }
  }

  /** A new entry is the run of the last range alone. */
  lemma RunBegins(rs: seq<Range>)
    requires rs != [] && |Coalesce(Init(rs))| < |Coalesce(rs)|
    ensures RunOf(rs, |Coalesce(rs)| - 1, |rs| - 1, |rs| - 1)
  {
    hide Joins, End, JoinsNext, Coalesce;
    EntryAdded(rs);
    NothingAfter(rs);
  }

  lemma StepSize(rs: seq<Range>)
    requires rs != []
    ensures |Coalesce(Init(rs))| <= |Coalesce(rs)| <= |Coalesce(Init(rs))| + 1
    ensures Coalesce(Init(rs)) != [] ==> |rs| > 1
  {
    hide Joins;
  }

  lemma {:induction false} EntryRun(rs: seq<Range>, o: nat) returns (k: nat, m: nat)
    requires o < |Coalesce(rs)|
    ensures RunOf(rs, o, k, m)
  {
    assert rs != [];
    hide JoinsNext, RunOf, Coalesce;
    var before := Coalesce(Init(rs));
    StepSize(rs);
    if o < |before| {
      k, m := EntryRun(Init(rs), o);
      if o + 1 == |before| && JoinsNext(rs, |rs| - 2) {
        RunGrows(rs, k, m);
        m := |rs| - 1;
      } else {
        RunStays(rs, o, k, m);
      }
    } else {
      RunBegins(rs);
      k, m := |rs| - 1, |rs| - 1;
    }
  }

  /** A range that ends exactly at 2^64, followed by one of its type that starts at 0. */
  predicate Seam(rs: seq<Range>, x: int) {
    JoinsNext(rs, x) && rs[x].start + rs[x].size == TWO_64
  }

  /** Ranges i..j join one another and together are the whole 64-bit address space. */
  ghost predicate Whole(rs: seq<Range>, i: nat, j: nat) {
    && i < j < |rs| && rs[i].start == 0 && rs[j].start + rs[j].size == TWO_64
    && forall x :: i <= x < j ==> JoinsNext(rs, x)
  }

  /** No merge crosses 2^64, and none has a total of 2^64, which a 64-bit size cannot hold. */
  ghost predicate Fits(rs: seq<Range>) {
    && (forall x :: !Seam(rs, x))
    && (forall i, j :: !Whole(rs, i, j))
  }

  /** Ranges that all end below 2^64 fit. */
  lemma BelowTopFits(rs: seq<Range>)
    requires forall i :: 0 <= i < |rs| ==> rs[i].start + rs[i].size < TWO_64
    ensures Proper(rs) && Fits(rs)
  {
  }

  /** Where nothing wraps one step is exact: it either adds the range as it is, or moves the end of the last
      entry, which was where the range starts, to where the range ends. */
  lemma AppendExact(out: seq<Range>, r: Range)
    requires Proper(out) && r.start + r.size <= TWO_64
    requires out != [] && Joins(Last(out), r) ==>
      Last(out).start + Last(out).size < TWO_64 && (Last(out).start > 0 || r.start + r.size < TWO_64)
    ensures Proper(Append(out, r)) && Sum(Append(out, r)) == Sum(out) + r.size
    ensures Last(Append(out, r)).start + Last(Append(out, r)).size == r.start + r.size
    ensures forall a, t :: Covers(Append(out, r), a, t) <==> Covers(out, a, t) || (r.typ == t && In(r, a))
  {
    if out != [] && Joins(Last(out), r) {
      var e := Extend(Last(out), r);
      assert e.size == Last(out).size + r.size && Last(out).start + Last(out).size == r.start;
      SumSnoc(Init(out), e);
      forall a, t ensures Covers(Append(out, r), a, t) <==> Covers(out, a, t) || (r.typ == t && In(r, a)) {
        CoversSnoc(Init(out), e, a, t);
        CoversSplit(out, a, t);
      }
    } else {
      SumSnoc(out, r);
      forall a, t ensures Covers(Append(out, r), a, t) <==> Covers(out, a, t) || (r.typ == t && In(r, a)) {
        CoversSnoc(out, r, a, t);
      }
    }
  }

  lemma SumSnoc(rs: seq<Range>, r: Range)
    ensures Sum(rs + [r]) == Sum(rs) + r.size
  {
    assert Init(rs + [r]) == rs;
  }

  lemma CoversSnoc(rs: seq<Range>, r: Range, a: nat, t: u32)
    ensures Covers(rs + [r], a, t) <==> Covers(rs, a, t) || (r.typ == t && In(r, a))
  {
    CoversSplit(rs + [r], a, t);
    assert Init(rs + [r]) == rs;
  }

  ghost predicate SameCoverage(rs: seq<Range>, out: seq<Range>) {
    forall a, t :: Covers(out, a, t) <==> Covers(rs, a, t)
  }

  /** Where nothing wraps, entries stay proper, no byte is lost or gained, and the output covers an address
      with a type exactly when some range of that type covers it, whatever the order of the ranges. */
  lemma {:induction false} Exact(rs: seq<Range>)
    requires Proper(rs) && Fits(rs)
    ensures Proper(Coalesce(rs)) && Sum(Coalesce(rs)) == Sum(rs)
    ensures rs != [] ==> (var e := Last(Coalesce(rs)); e.start + e.size == Last(rs).start + Last(rs).size)
    ensures SameCoverage(rs, Coalesce(rs))
  {
    if rs != [] {
      FitsInit(rs);
      Exact(Init(rs));
      if |rs| > 1 {
        LastStepFits(rs);
      }
      AppendExact(Coalesce(Init(rs)), Last(rs));
      forall a, t ensures Covers(Coalesce(rs), a, t) <==> Covers(rs, a, t) {
        CoversSplit(rs, a, t);
      }
    }
  }

  lemma FitsInit(rs: seq<Range>)
    requires rs != [] && Fits(rs)
    ensures Fits(Init(rs))
  {
    JoinsNextInit(rs);
    forall x ensures !Seam(Init(rs), x) {
      assert !Seam(rs, x);
    }
    forall i, j ensures !Whole(Init(rs), i, j) {
      assert !Whole(rs, i, j);
    }
  }

  lemma LastStepFits(rs: seq<Range>)
    requires |rs| > 1 && Proper(rs) && Fits(rs)
    requires var e := Last(Coalesce(Init(rs))); e.start + e.size == Last(Init(rs)).start + Last(Init(rs)).size
    ensures var e, r := Last(Coalesce(Init(rs))), Last(rs);
      Joins(e, r) ==> e.start + e.size < TWO_64 && (e.start > 0 || r.start + r.size < TWO_64)
  {
    var out, r := Coalesce(Init(rs)), Last(rs);
    Local(Init(rs));
    if Joins(Last(out), r) {
      var k, m := EntryRun(Init(rs), |out| - 1);
      JoinsNextInit(rs);
      assert !Seam(rs, |rs| - 2);
      assert !Whole(rs, k, |rs| - 1);
    }
  }

  ghost predicate Disjoint(rs: seq<Range>) {
    forall i, j, a :: 0 <= i < j < |rs| ==> !(In(rs[i], a) && In(rs[j], a))
  }

  /** The only entry that can cover address 0 is the one whose run begins with the range at 0. */
  lemma EntryAtZero(rs: seq<Range>, z: nat, o: nat) returns (m: nat)
    requires Disjoint(rs) && forall i :: 0 <= i < |rs| ==> rs[i].size > 0
    requires z < |rs| && rs[z].start == 0
    requires o < |Coalesce(rs)| && In(Coalesce(rs)[o], 0)
    ensures RunOf(rs, o, z, m)
  {
    var k;
    k, m := EntryRun(rs, o);
    assert In(rs[k], 0) && In(rs[z], 0);
  }

  lemma SeamLosesZero(rs: seq<Range>, i: nat)
    requires Disjoint(rs) && forall x :: 0 <= x < |rs| ==> rs[x].size > 0
    requires Seam(rs, i)
    ensures Covers(rs, 0, rs[i + 1].typ) && !Covers(Coalesce(rs), 0, rs[i + 1].typ)
  {
    assert In(rs[i + 1], 0);
    if o: nat :| o < |Coalesce(rs)| && Coalesce(rs)[o].typ == rs[i + 1].typ && In(Coalesce(rs)[o], 0) {
      var m := EntryAtZero(rs, i + 1, o);
    }
  }

  /** A run that begins like the whole space stops with it: what follows 2^64 would be a seam. */
  lemma WholeRunEnds(rs: seq<Range>, o: nat, i: nat, j: nat, m: nat)
    requires forall x :: !Seam(rs, x)
    requires Whole(rs, i, j) && o < |Coalesce(rs)| && RunOf(rs, o, i, m)
    ensures m == j && Coalesce(rs)[o].size == 0
  {
    assert m < j ==> JoinsNext(rs, m);
    assert m > j ==> !Seam(rs, j) && JoinsNext(rs, j);
  }

  lemma WholeLosesZero(rs: seq<Range>, i: nat, j: nat)
    requires Disjoint(rs) && forall x :: 0 <= x < |rs| ==> rs[x].size > 0
    requires forall x :: !Seam(rs, x)
    requires Whole(rs, i, j)
    ensures Covers(rs, 0, rs[i].typ) && !Covers(Coalesce(rs), 0, rs[i].typ)
  {
    assert In(rs[i], 0);
    if o: nat :| o < |Coalesce(rs)| && Coalesce(rs)[o].typ == rs[i].typ && In(Coalesce(rs)[o], 0) {
      var m := EntryAtZero(rs, i, o);
      WholeRunEnds(rs, o, i, j, m);
    }
  }

  /** For disjoint non-empty ranges, in any order, coverage is preserved if and only if nothing wraps. */
  lemma CoverageExactlyWhenFits(rs: seq<Range>)
    requires Proper(rs) && Disjoint(rs) && forall i :: 0 <= i < |rs| ==> rs[i].size > 0
    ensures SameCoverage(rs, Coalesce(rs)) <==> Fits(rs)
  {
    if Fits(rs) {
      Exact(rs);
    } else if i: nat :| Seam(rs, i) {
      SeamLosesZero(rs, i);
    } else {
      var i, j :| Whole(rs, i, j);
      WholeLosesZero(rs, i, j);
    }
  }

  /** It can happen with a map the descriptor format admits: the whole address space as RAM, its upper half listed
      first, comes out as a single entry of size 0. */
  lemma WrapLosesMemory(upper: Range, lower: Range)
    requires upper == Range(0x8000_0000_0000_0000, 0x8000_0000_0000_0000, RAM)
    requires lower == Range(0, 0x8000_0000_0000_0000, RAM)
    ensures Proper([upper, lower]) && Disjoint([upper, lower]) && !Fits([upper, lower])
    ensures Coalesce([upper, lower]) == [Range(0x8000_0000_0000_0000, 0, RAM)]
    ensures !SameCoverage([upper, lower], Coalesce([upper, lower]))
  {
    assert Init([upper, lower]) == [upper] && Init([upper]) == [];
    assert Coalesce([upper]) == [upper];
    assert Seam([upper, lower], 0);
    CoverageExactlyWhenFits([upper, lower]);
  }

  ghost predicate Sorted(rs: seq<Range>) {
    forall i, j :: 0 <= i < j < |rs| ==> rs[i].start + rs[i].size <= rs[j].start
  }

  lemma AppendSorted(out: seq<Range>, r: Range)
    requires Proper(out) && Sorted(out)
    requires out != [] ==> Last(out).start + Last(out).size <= r.start
    ensures Sorted(Append(out, r))
  {
    var s := Append(out, r);
    forall i, j | 0 <= i < j < |s| ensures s[i].start + s[i].size <= s[j].start {
      assert s[i] == out[i];
      if j < |out| {
        assert s[j].start == out[j].start;
      }
    }
  }

  /** Ascending disjoint ranges give ascending disjoint entries. */
  lemma {:induction false} SortedKept(rs: seq<Range>)
    requires Proper(rs) && Sorted(rs) && Fits(rs)
    ensures Sorted(Coalesce(rs))
  {
    if rs != [] {
      FitsInit(rs);
      SortedKept(Init(rs));
      Exact(Init(rs));
      if |rs| > 1 {
        assert rs[|rs| - 2].start + rs[|rs| - 2].size <= Last(rs).start;
      }
      AppendSorted(Coalesce(Init(rs)), Last(rs));
    }
  }
}
