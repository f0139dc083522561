/**
 The enumerator of a whole address space (get_pages_ia32e): four nested scans over the tables
 that prepend every page they find. It is proved to list exactly what the walk translates.

 Positions are 48-bit linear addresses; the source's canonical_addr turns one into the
 64-bit address by copying bit 47 upwards.
 */
module PageList {
  import opened Common
  import opened Paging
  import opened AddressSpace
  import opened Vmi

  const LINEAR := 0x1_0000_0000_0000
  const HALF := 0x8000_0000_0000

  /** canonical_addr: bit 47 copied into the bits above it. */
  function CanonicalAddr(lin: nat): nat {
    if lin / HALF % 2 == 1 then lin % LINEAR + (WORD64 - LINEAR) else lin
  }

  /** One listed page: the fields of page_info_t that say what is mapped where. */
  datatype PageEntry = PageEntry(vaddr: nat, paddr: nat, size: nat)

  function Linear(va: nat): nat { va % LINEAR }

  /** An address space: the machine, where the tables live, the root table, and whether the
      enumerator counts transition entries of the two lower tables as present. */
  datatype Root = Root(m: Machine, sp: Space, lower: bool, pt: nat)

  ghost function LeafAt(r: Root, lin: nat): (l: Leaf)
    ensures l.Maps? ==> l.size in {SIZE_4KB, SIZE_2MB, SIZE_1GB}
  {
    DescentOf(SpaceFetch(r.m, r.sp), r.m.transitionPages, r.lower, r.pt, lin).leaf
  }

  /** `p` is a page of the address space: every address in it ends at the same entry, which
      maps `p.size` bytes starting at `p.paddr`. */
  ghost predicate Genuine(r: Root, p: PageEntry) {
    && p.size in {SIZE_4KB, SIZE_2MB, SIZE_1GB}
    && Canonical(p.vaddr) && Linear(p.vaddr) % p.size == 0
    && (forall lin :: Linear(p.vaddr) <= lin < Linear(p.vaddr) + p.size ==>
          LeafAt(r, lin) == LeafAt(r, Linear(p.vaddr)))
    && LeafAt(r, Linear(p.vaddr)).Maps? && LeafAt(r, Linear(p.vaddr)).size == p.size
    && p.paddr == PageBase(LeafAt(r, Linear(p.vaddr)).frame, p.size)
  }

  ghost predicate Before(p: PageEntry, lin: nat) { Linear(p.vaddr) + p.size <= lin }

  ghost predicate Holds(pages: seq<PageEntry>, lin: nat) {
    exists i :: 0 <= i < |pages| && Linear(pages[i].vaddr) <= lin < Linear(pages[i].vaddr) + pages[i].size
  }

  /** The list is right for all positions below `hi`: only genuine pages, in descending order
      and so disjoint, together holding every mapped position, and no walk failed. */
  ghost predicate Exact(r: Root, pages: seq<PageEntry>, hi: nat) {
    && (forall i :: 0 <= i < |pages| ==> Genuine(r, pages[i]) && Before(pages[i], hi))
    && (forall i, j :: 0 <= i < j < |pages| ==> Before(pages[j], Linear(pages[i].vaddr)))
    && (forall lin :: 0 <= lin < hi ==> !LeafAt(r, lin).Unreadable?)
    && (forall lin :: 0 <= lin < hi && LeafAt(r, lin).Maps? ==> Holds(pages, lin))
  }

  lemma ExactSkip(r: Root, pages: seq<PageEntry>, hi: nat, hi': nat)
    requires Exact(r, pages, hi) && hi <= hi'
    requires forall lin :: hi <= lin < hi' ==> LeafAt(r, lin) == NotPresent
    ensures Exact(r, pages, hi')
  {
    hide LeafAt, Genuine, Linear, Holds;
  }

  lemma ExactAdd(r: Root, pages: seq<PageEntry>, hi: nat, p: PageEntry)
    requires Exact(r, pages, hi) && Genuine(r, p) && Linear(p.vaddr) == hi
    ensures Exact(r, [p] + pages, hi + p.size)
  {
    hide LeafAt, Linear, Genuine;
    var pages' := [p] + pages;
    GenuineMaps(r, p);
    forall i | 0 <= i < |pages'| ensures Genuine(r, pages'[i]) && Before(pages'[i], hi + p.size) {
      assert i > 0 ==> pages'[i] == pages[i - 1];
    }
    forall i, j | 0 <= i < j < |pages'| ensures Before(pages'[j], Linear(pages'[i].vaddr)) {
      assert pages'[j] == pages[j - 1] && (i > 0 ==> pages'[i] == pages[i - 1]);
    }
    forall lin | 0 <= lin < hi + p.size && LeafAt(r, lin).Maps? ensures Holds(pages', lin) {
      HeldAfterAdd(p, pages, lin);
    }
  }

  lemma GenuineMaps(r: Root, p: PageEntry)
    requires Genuine(r, p)
    ensures forall lin :: Linear(p.vaddr) <= lin < Linear(p.vaddr) + p.size ==> LeafAt(r, lin).Maps?
  {
    hide LeafAt, Linear;
  }

  lemma HeldAfterAdd(p: PageEntry, pages: seq<PageEntry>, lin: nat)
    ensures Holds(pages, lin) ==> Holds([p] + pages, lin)
    ensures Linear(p.vaddr) <= lin < Linear(p.vaddr) + p.size ==> Holds([p] + pages, lin)
  {
    hide Linear;
    var pages' := [p] + pages;
    if Holds(pages, lin) {
      var i :| 0 <= i < |pages| && Linear(pages[i].vaddr) <= lin < Linear(pages[i].vaddr) + pages[i].size;
      assert pages'[i + 1] == pages[i];
    }
    assert pages'[0] == p;
  }

  // ---------------------------------------------------------------- positions and indices

  /** An address is canonical when its bits 47 to 63 are equal: it lies in the lowest or in the
      highest 2^47 addresses. */
  ghost predicate Canonical(va: nat) { va < HALF || WORD64 - HALF <= va < WORD64 }

  /** canonical_addr gives the canonical address with the same low 48 bits. */
  lemma CanonicalOfLinear(lin: nat)
    requires lin < LINEAR
    ensures Canonical(CanonicalAddr(lin)) && Linear(CanonicalAddr(lin)) == lin
  {
  }

  /** There is only one. */
  lemma CanonicalUnique(va: nat, wa: nat)
    requires Canonical(va) && Canonical(wa) && va % LINEAR == wa % LINEAR
    ensures va == wa
  {
  }

  /** `base` starts the k-th unit of a table that starts at `top`; the unit's index is k. */
  lemma IndexIn(top: nat, unit: nat, k: nat, lin: nat)
    requires unit in {SIZE_4KB, SIZE_2MB, SIZE_1GB, SIZE_512GB}
    requires top % (512 * unit) == 0 && k < 512
    requires top + k * unit <= lin < top + k * unit + unit
    ensures lin / unit % 512 == k
  {
    var q, b := top / (512 * unit), lin - top - k * unit;
    Regroup(q * 512, k, unit, b);
    Factor(q, 1, unit);
    DivUnique(q * 512 + k, unit, b);
    DivUnique(q, 512, k);
  }

  lemma DivByUnit(a: nat, unit: nat, b: nat)
    requires b < unit && unit in {SIZE_4KB, SIZE_2MB, SIZE_1GB, SIZE_512GB}
    ensures (a * unit + b) / unit == a && (a * unit + b) % unit == b
  {
  }

  // ---------------------------------------------------------------- what a table decides

  ghost predicate Unit(base: nat, k: nat, unit: nat, lin: nat) {
    base + k * unit <= lin < base + k * unit + unit
  }

  /** Positions of the 2MB from `base` are decided by the page table in frame `table`. */
  ghost predicate PtAt(r: Root, table: nat, base: nat) {
    forall lin :: Unit(base, 0, SIZE_2MB, lin) ==>
      LeafAt(r, lin) == DescendPt(SpaceFetch(r.m, r.sp), r.lower, table, IndicesOf(lin)).leaf
  }

  ghost predicate PdAt(r: Root, table: nat, base: nat) {
    forall lin :: Unit(base, 0, SIZE_1GB, lin) ==>
      LeafAt(r, lin) == DescendPd(SpaceFetch(r.m, r.sp), r.lower, table, IndicesOf(lin)).leaf
  }

  ghost predicate PdptAt(r: Root, table: nat, base: nat) {
    forall lin :: Unit(base, 0, SIZE_512GB, lin) ==>
      LeafAt(r, lin) == DescendPdpt(SpaceFetch(r.m, r.sp), r.m.transitionPages, r.lower, table, IndicesOf(lin)).leaf
  }

  /** Every position of the unit ends at `leaf`. */
  ghost predicate Uniform(r: Root, base: nat, k: nat, unit: nat, leaf: Leaf) {
    forall lin :: Unit(base, k, unit, lin) ==> LeafAt(r, lin) == leaf
  }

  lemma PtEntryDecides(r: Root, table: nat, base: nat, k: nat)
    requires PtAt(r, table, base) && base % SIZE_2MB == 0 && k < 512
    ensures match SpaceFetch(r.m, r.sp)(EntryLocation(table, k))
            case None => Uniform(r, base, k, SIZE_4KB, Unreadable)
            case Some(e) =>
              Uniform(r, base, k, SIZE_4KB, if Present(r.lower, e) then Maps(e.frame, SIZE_4KB) else NotPresent)
  {
    hide LeafAt, SpaceFetch;
    forall lin | Unit(base, k, SIZE_4KB, lin) ensures IndicesOf(lin).pt == k && Unit(base, 0, SIZE_2MB, lin) {
      IndexIn(base, SIZE_4KB, k, lin);
    }
  }

  lemma PdEntryDecides(r: Root, table: nat, base: nat, k: nat)
    requires PdAt(r, table, base) && base % SIZE_1GB == 0 && k < 512
    ensures match SpaceFetch(r.m, r.sp)(EntryLocation(table, k))
            case None => Uniform(r, base, k, SIZE_2MB, Unreadable)
            case Some(e) =>
              if !Present(r.lower, e) then Uniform(r, base, k, SIZE_2MB, NotPresent)
              else if e.large then Uniform(r, base, k, SIZE_2MB, Maps(e.frame, SIZE_2MB))
              else PtAt(r, e.frame, base + k * SIZE_2MB)
  {
    hide LeafAt, SpaceFetch, DescendPt;
    forall lin | Unit(base, k, SIZE_2MB, lin) ensures IndicesOf(lin).pd == k && Unit(base, 0, SIZE_1GB, lin) {
      IndexIn(base, SIZE_2MB, k, lin);
    }
  }

  lemma PdptEntryDecides(r: Root, table: nat, base: nat, k: nat)
    requires PdptAt(r, table, base) && base % SIZE_512GB == 0 && k < 512
    ensures match SpaceFetch(r.m, r.sp)(EntryLocation(table, k))
            case None => Uniform(r, base, k, SIZE_1GB, Unreadable)
            case Some(e) =>
              if !Present(r.m.transitionPages, e) then Uniform(r, base, k, SIZE_1GB, NotPresent)
              else if e.large then Uniform(r, base, k, SIZE_1GB, Maps(e.frame, SIZE_1GB))
              else PdAt(r, e.frame, base + k * SIZE_1GB)
  {
    hide LeafAt, SpaceFetch, DescendPd;
    forall lin | Unit(base, k, SIZE_1GB, lin) ensures IndicesOf(lin).pdpt == k && Unit(base, 0, SIZE_512GB, lin) {
      IndexIn(base, SIZE_1GB, k, lin);
    }
  }

  lemma Pml4EntryDecides(r: Root, k: nat)
    requires k < 512
    ensures match SpaceFetch(r.m, r.sp)(EntryLocation(FrameOf(r.pt), k))
            case None => Uniform(r, 0, k, SIZE_512GB, Unreadable)
            case Some(e) =>
              if !Present(r.m.transitionPages, e) then Uniform(r, 0, k, SIZE_512GB, NotPresent)
              else PdptAt(r, e.frame, k * SIZE_512GB)
  {
    hide SpaceFetch, DescendPdpt;
    forall lin | Unit(0, k, SIZE_512GB, lin) ensures IndicesOf(lin).pml4 == k {
      IndexIn(0, SIZE_512GB, k, lin);
    }
  }

  // ---------------------------------------------------------------- the scans

  function MakePage(lin: nat, frame: nat, size: nat): PageEntry
    requires size in {SIZE_4KB, SIZE_2MB, SIZE_1GB}
  {
    var va := CanonicalAddr(lin);
    PageEntry(va, PageBase(frame, size) + va % size, size)
  }

  lemma AlignedVa(lin: nat, size: nat)
    requires lin < LINEAR && size in {SIZE_4KB, SIZE_2MB, SIZE_1GB} && lin % size == 0
    ensures CanonicalAddr(lin) % size == 0
  {
    hide CanonicalAddr, Linear;
    CanonicalOfLinear(lin);
    IndicesOfLinear(CanonicalAddr(lin));
  }

  lemma MadeGenuine(r: Root, base: nat, k: nat, frame: nat, size: nat)
    requires size in {SIZE_4KB, SIZE_2MB, SIZE_1GB}
    requires base + k * size < LINEAR && (base + k * size) % size == 0
    requires Uniform(r, base, k, size, Maps(frame, size))
    ensures Genuine(r, MakePage(base + k * size, frame, size))
    ensures Linear(MakePage(base + k * size, frame, size).vaddr) == base + k * size
  {
    hide LeafAt, CanonicalAddr, Linear;
    CanonicalOfLinear(base + k * size);
    AlignedVa(base + k * size, size);
    assert Unit(base, k, size, base + k * size);
    forall lin | base + k * size <= lin < base + k * size + size ensures LeafAt(r, lin) == Maps(frame, size) {
      assert Unit(base, k, size, lin);
    }
  }

  lemma UnitAligned(base: nat, k: nat, unit: nat)
    requires unit in {SIZE_4KB, SIZE_2MB, SIZE_1GB, SIZE_512GB} && base % (512 * unit) == 0
    ensures (base + k * unit) % unit == 0
  {
    var q := base / (512 * unit);
    assert base + k * unit == (q * 512 + k) * unit + 0;
    DivByUnit(q * 512 + k, unit, 0);
  }

  lemma NextUnit(base: nat, k: nat, unit: nat)
    ensures base + k * unit + unit == base + (k + 1) * unit
  {
  }

  /** One unit of a scan that ends at a single leaf: skip it, or list it. */
  lemma UnitDone(r: Root, pages: seq<PageEntry>, base: nat, k: nat, unit: nat, leaf: Leaf)
    requires unit in {SIZE_4KB, SIZE_2MB, SIZE_1GB, SIZE_512GB} && base % (512 * unit) == 0
    requires base + k * unit < LINEAR
    requires Exact(r, pages, base + k * unit) && Uniform(r, base, k, unit, leaf)
    ensures leaf == NotPresent ==> Exact(r, pages, base + (k + 1) * unit)
    ensures leaf.Maps? && leaf.size == unit && unit != SIZE_512GB ==>
              Exact(r, [MakePage(base + k * unit, leaf.frame, unit)] + pages, base + (k + 1) * unit)
  {
    hide LeafAt, Exact, Genuine, MakePage;
    NextUnit(base, k, unit);
    if leaf == NotPresent {
      ExactSkip(r, pages, base + k * unit, base + (k + 1) * unit);
    } else if leaf.Maps? && leaf.size == unit && unit != SIZE_512GB {
      UnitAligned(base, k, unit);
      MadeGenuine(r, base, k, leaf.frame, unit);
      MadeSize(base + k * unit, leaf.frame, unit);
      ExactAdd(r, pages, base + k * unit, MakePage(base + k * unit, leaf.frame, unit));
    }
  }

  lemma MadeSize(lin: nat, frame: nat, size: nat)
    requires size in {SIZE_4KB, SIZE_2MB, SIZE_1GB}
    ensures MakePage(lin, frame, size).size == size
  {
  }

  lemma FirstFault(r: Root, base: nat, unit: nat)
    requires unit > 0 && Uniform(r, base, 0, unit, Unreadable)
    ensures LeafAt(r, base).Unreadable?
  {
    assert Unit(base, 0, unit, base);
  }

  /** How a scan of `[base, base + span)` ends: at the end of the span, or at a position whose
      walk needs a table that cannot be read. The list is right up to there. */
  ghost predicate Scanned(r: Root, pages: seq<PageEntry>, base: nat, span: nat, complete: bool, upTo: nat) {
    && Exact(r, pages, upTo)
    && (if complete then upTo == base + span
        else base <= upTo < base + span && LeafAt(r, upTo).Unreadable?)
  }

  /** The innermost loop: one page table. */
  method ScanPt(vmi: Instance, ghost r: Root, sp: Space, windows: bool, table: nat, base: nat, found: seq<PageEntry>)
    returns (pages: seq<PageEntry>, complete: bool, ghost upTo: nat)
    requires r.m == vmi.M() && r.sp == sp && r.lower == windows && vmi.Sound(AllBytes())
    requires table < 0x100_0000_0000 && base % SIZE_2MB == 0 && base + SIZE_2MB <= LINEAR
    requires Exact(r, found, base) && PtAt(r, table, base)
    modifies vmi`v2pCache
    ensures vmi.Sound(AllBytes())
    ensures Scanned(r, pages, base, SIZE_2MB, complete, upTo)
  {
    hide LeafAt, Exact, PtAt, Uniform, SpaceFetch, EntryLocation, CacheSound, AllBytes, MakePage;
    pages := found;
    var ok, entries := vmi.ReadTable(sp, table);
    if !ok {
      PtEntryDecides(r, table, base, 0);
      FirstFault(r, base, SIZE_4KB);
      return pages, false, base;
    }
    var k := 0;
    while k < 512
      invariant 0 <= k <= 512 && vmi.Sound(AllBytes())
      invariant Exact(r, pages, base + k * SIZE_4KB)
    {
      var e := entries[k];
      PtEntryDecides(r, table, base, k);
      if Present(windows, e) {
        UnitDone(r, pages, base, k, SIZE_4KB, Maps(e.frame, SIZE_4KB));
        pages := [MakePage(base + k * SIZE_4KB, e.frame, SIZE_4KB)] + pages;
      } else {
        UnitDone(r, pages, base, k, SIZE_4KB, NotPresent);
      }
      k := k + 1;
    }
    return pages, true, base + SIZE_2MB;
  }

  /** The loop over one page directory. */
  method ScanPd(vmi: Instance, ghost r: Root, sp: Space, windows: bool, table: nat, base: nat, found: seq<PageEntry>)
    returns (pages: seq<PageEntry>, complete: bool, ghost upTo: nat)
    requires r.m == vmi.M() && r.sp == sp && r.lower == windows && vmi.Sound(AllBytes())
    requires table < 0x100_0000_0000 && base % SIZE_1GB == 0 && base + SIZE_1GB <= LINEAR
    requires Exact(r, found, base) && PdAt(r, table, base)
    modifies vmi`v2pCache
    ensures vmi.Sound(AllBytes())
    ensures Scanned(r, pages, base, SIZE_1GB, complete, upTo)
  {
    hide LeafAt, Exact, PtAt, PdAt, Uniform, SpaceFetch, EntryLocation, CacheSound, AllBytes, MakePage;
    pages := found;
    var ok, entries := vmi.ReadTable(sp, table);
    if !ok {
      PdEntryDecides(r, table, base, 0);
      FirstFault(r, base, SIZE_2MB);
      return pages, false, base;
    }
    var k := 0;
    while k < 512
      invariant 0 <= k <= 512 && vmi.Sound(AllBytes())
      invariant Exact(r, pages, base + k * SIZE_2MB)
    {
      var e := entries[k];
      PdEntryDecides(r, table, base, k);
      if !Present(windows, e) {
        UnitDone(r, pages, base, k, SIZE_2MB, NotPresent);
      } else if e.large {
        UnitDone(r, pages, base, k, SIZE_2MB, Maps(e.frame, SIZE_2MB));
        pages := [MakePage(base + k * SIZE_2MB, e.frame, SIZE_2MB)] + pages;
      } else {
        UnitAligned(base, k, SIZE_2MB);
        var whole;
        pages, whole, upTo := ScanPt(vmi, r, sp, windows, e.frame, base + k * SIZE_2MB, pages);
        if !whole {
          return pages, false, upTo;
        }
      }
      k := k + 1;
    }
    return pages, true, base + SIZE_1GB;
  }

  /** The loop over one page-directory-pointer table. */
  method ScanPdpt(vmi: Instance, ghost r: Root, sp: Space, windows: bool, table: nat, base: nat, found: seq<PageEntry>)
    returns (pages: seq<PageEntry>, complete: bool, ghost upTo: nat)
    requires r.m == vmi.M() && r.sp == sp && r.lower == windows && vmi.Sound(AllBytes())
    requires table < 0x100_0000_0000 && base % SIZE_512GB == 0 && base + SIZE_512GB <= LINEAR
    requires Exact(r, found, base) && PdptAt(r, table, base)
    modifies vmi`v2pCache
    ensures vmi.Sound(AllBytes())
    ensures Scanned(r, pages, base, SIZE_512GB, complete, upTo)
  {
    hide LeafAt, Exact, PdAt, PdptAt, Uniform, SpaceFetch, EntryLocation, CacheSound, AllBytes, MakePage;
    pages := found;
    var ok, entries := vmi.ReadTable(sp, table);
    if !ok {
      PdptEntryDecides(r, table, base, 0);
      FirstFault(r, base, SIZE_1GB);
      return pages, false, base;
    }
    var k := 0;
    while k < 512
      invariant 0 <= k <= 512 && vmi.Sound(AllBytes())
      invariant Exact(r, pages, base + k * SIZE_1GB)
    {
      var e := entries[k];
      PdptEntryDecides(r, table, base, k);
      if !Present(vmi.transitionPages, e) {
        UnitDone(r, pages, base, k, SIZE_1GB, NotPresent);
      } else if e.large {
        UnitDone(r, pages, base, k, SIZE_1GB, Maps(e.frame, SIZE_1GB));
        pages := [MakePage(base + k * SIZE_1GB, e.frame, SIZE_1GB)] + pages;
      } else {
        UnitAligned(base, k, SIZE_1GB);
        var whole;
        pages, whole, upTo := ScanPd(vmi, r, sp, windows, e.frame, base + k * SIZE_1GB, pages);
        if !whole {
          return pages, false, upTo;
        }
      }
      k := k + 1;
    }
    return pages, true, base + SIZE_512GB;
  }

  /** get_pages_ia32e. A table that cannot be read ends the scan with what was found so far. */
  method GetPages(vmi: Instance, sp: Space, windows: bool, dtb: nat)
    returns (pages: seq<PageEntry>, complete: bool, ghost upTo: nat)
    requires vmi.Sound(AllBytes())
    modifies vmi`v2pCache
    ensures vmi.Sound(AllBytes())
    ensures Scanned(Root(vmi.M(), sp, windows, dtb), pages, 0, LINEAR, complete, upTo)
  {
    hide LeafAt, Exact, PdptAt, Uniform, SpaceFetch, EntryLocation, CacheSound, AllBytes, MakePage, FrameOf;
    ghost var r := Root(vmi.M(), sp, windows, dtb);
    pages := [];
    NothingYet(r);
    FrameBounded(dtb);
    var ok, entries := vmi.ReadTable(sp, FrameOf(dtb));
    if !ok {
      Pml4EntryDecides(r, 0);
      FirstFault(r, 0, SIZE_512GB);
      return pages, false, 0;
    }
    var k := 0;
    while k < 512
      invariant 0 <= k <= 512 && vmi.Sound(AllBytes()) && vmi.M() == r.m
      invariant Exact(r, pages, k * SIZE_512GB)
    {
      var e := entries[k];
      Pml4EntryDecides(r, k);
      if !Present(vmi.transitionPages, e) {
        UnitDone(r, pages, 0, k, SIZE_512GB, NotPresent);
      } else {
        UnitAligned(0, k, SIZE_512GB);
        var whole;
        pages, whole, upTo := ScanPdpt(vmi, r, sp, windows, e.frame, k * SIZE_512GB, pages);
        if !whole {
          return pages, false, upTo;
        }
      }
      k := k + 1;
    }
    return pages, true, LINEAR;
  }

  lemma NothingYet(r: Root)
    ensures Exact(r, [], 0)
  {
  }

  lemma FrameBounded(word: nat)
    ensures FrameOf(word) < 0x100_0000_0000
  {
  }

  // ---------------------------------------------------------------- the list against the walk

  /** Dropping the bits above 47 changes neither the index nor the offset of a unit. */
  lemma UnitOfLinear(va: nat, unit: nat, t: nat)
    requires unit in {SIZE_4KB, SIZE_2MB, SIZE_1GB, SIZE_512GB} && LINEAR == unit * 512 * t
    ensures va / unit % 512 == Linear(va) / unit % 512
    ensures va % unit == Linear(va) % unit
  {
    var q, lin := va / LINEAR, va % LINEAR;
    var c, b := lin / unit, lin % unit;
    Regroup(q * t * 512, c, unit, b);
    Factor(q, t, unit);
    DivByUnit(q * t * 512 + c, unit, b);
    DivByUnit(c, unit, b);
    Mod512(q * t, c);
  }

  lemma Regroup(n: nat, c: nat, unit: nat, b: nat)
    ensures (n + c) * unit + b == n * unit + (c * unit + b)
  {
  }

  lemma Factor(q: nat, t: nat, unit: nat)
    ensures q * t * 512 * unit == q * (unit * 512 * t)
  {
  }

  lemma Mod512(k: nat, c: nat)
    ensures (k * 512 + c) % 512 == c % 512
  {
  }

  lemma IndicesOfLinear(va: nat)
    ensures IndicesOf(Linear(va)) == IndicesOf(va)
    ensures forall size :: size in {SIZE_4KB, SIZE_2MB, SIZE_1GB} ==> Linear(va) % size == va % size
  {
    hide Linear;
    UnitOfLinear(va, SIZE_512GB, 1);
    UnitOfLinear(va, SIZE_1GB, 512);
    UnitOfLinear(va, SIZE_2MB, 0x4_0000);
    UnitOfLinear(va, SIZE_4KB, 0x800_0000);
  }

  /** The walk of the enumerated address space. */
  ghost function WalkOf(r: Root, va: nat): Option<Translation> {
    Walk(SpaceFetch(r.m, r.sp), r.m.transitionPages, r.lower, r.pt, va)
  }

  lemma WalkByLeaf(r: Root, va: nat)
    ensures WalkOf(r, va) == Place(LeafAt(r, Linear(va)), va)
  {
    hide Linear, Descend, Place, SpaceFetch, FrameOf;
    IndicesOfLinear(va);
  }

  /** When the lower tables are judged like the upper ones, that walk is v2p_ia32e. */
  lemma WalkOfIsV2p(r: Root, va: nat)
    requires r.lower == r.m.transitionPages
    ensures WalkOf(r, va) == SpaceWalk(r.m, r.sp, r.pt, va)
  {
  }

  lemma LinearBounded(va: nat)
    ensures Linear(va) < LINEAR
  {
  }

  ghost predicate InPage(p: PageEntry, va: nat) { p.vaddr <= va < p.vaddr + p.size }

  /** A page does not straddle the two canonical halves, so ranges can be compared linearly. */
  lemma InPageLinear(p: PageEntry, va: nat)
    requires Canonical(p.vaddr) && Canonical(va) && p.size in {SIZE_4KB, SIZE_2MB, SIZE_1GB}
    requires Linear(p.vaddr) % p.size == 0
    ensures InPage(p, va) <==> Linear(p.vaddr) <= Linear(va) < Linear(p.vaddr) + p.size
    ensures InPage(p, va) ==> va - p.vaddr == Linear(va) - Linear(p.vaddr)
  {
    hide Linear, Canonical;
    HalfOf(p.vaddr);
    HalfOf(va);
    if Linear(p.vaddr) < HALF {
      HalfAligned(Linear(p.vaddr), p.size);
    }
  }

  /** Which half a canonical address lies in, and how far its linear position is from it. */
  lemma HalfOf(va: nat)
    requires Canonical(va)
    ensures if va < HALF then Linear(va) == va
            else Linear(va) >= HALF && va - Linear(va) == WORD64 - LINEAR && va >= WORD64 - HALF
    ensures Linear(va) < LINEAR
  {
    if va >= HALF {
      DivUnique(0xFFFF, LINEAR, va - (WORD64 - LINEAR));
    }
  }

  lemma HalfAligned(a: nat, size: nat)
    requires size in {SIZE_4KB, SIZE_2MB, SIZE_1GB} && a % size == 0 && a < HALF
    ensures a + size <= HALF
  {
  }

  /** The listed ranges are pairwise disjoint and together are exactly the canonical addresses
      that translate; inside a listed page, the walk adds the offset to the listed frame. */
  lemma ListCoversTranslations(r: Root, pages: seq<PageEntry>, va: nat)
    requires Exact(r, pages, LINEAR) && Canonical(va)
    ensures WalkOf(r, va).Some? <==> exists i :: 0 <= i < |pages| && InPage(pages[i], va)
    ensures forall i, j :: 0 <= i < j < |pages| ==> !(InPage(pages[i], va) && InPage(pages[j], va))
    ensures forall i :: 0 <= i < |pages| && InPage(pages[i], va) ==>
              WalkOf(r, va) == Some(Translation(pages[i].paddr + (va - pages[i].vaddr), pages[i].size))
  {
    hide LeafAt, Linear, CanonicalAddr, PageBase, Genuine, WalkOf, Place;
    LinearBounded(va);
    WalkByLeaf(r, va);
    PlacedIffMapped(LeafAt(r, Linear(va)), va);
    forall i | 0 <= i < |pages|
      ensures InPage(pages[i], va) <==>
              Linear(pages[i].vaddr) <= Linear(va) < Linear(pages[i].vaddr) + pages[i].size
      ensures InPage(pages[i], va) ==>
                WalkOf(r, va) == Some(Translation(pages[i].paddr + (va - pages[i].vaddr), pages[i].size))
    {
      PageTranslates(r, pages[i], va);
    }
    if WalkOf(r, va).Some? {
      assert Holds(pages, Linear(va));
      var i :| 0 <= i < |pages| && Linear(pages[i].vaddr) <= Linear(va) < Linear(pages[i].vaddr) + pages[i].size;
      assert InPage(pages[i], va);
    }
  }

  lemma PageTranslates(r: Root, p: PageEntry, va: nat)
    requires Genuine(r, p) && Canonical(va)
    ensures InPage(p, va) <==> Linear(p.vaddr) <= Linear(va) < Linear(p.vaddr) + p.size
    ensures InPage(p, va) ==> WalkOf(r, va) == Some(Translation(p.paddr + (va - p.vaddr), p.size))
  {
    hide LeafAt, Linear, CanonicalAddr, PageBase, InPage, WalkOf;
    InPageLinear(p, va);
    if InPage(p, va) {
      WalkByLeaf(r, va);
      IndicesOfLinear(va);
      OffsetFromStart(Linear(p.vaddr), Linear(va), p.size);
    }
  }

  lemma OffsetFromStart(a: nat, b: nat, size: nat)
    requires size in {SIZE_4KB, SIZE_2MB, SIZE_1GB} && a % size == 0 && a <= b < a + size
    ensures b % size == b - a
  {
  }

  lemma PlacedIffMapped(leaf: Leaf, va: nat)
    requires leaf.Maps? ==> leaf.size in {SIZE_4KB, SIZE_2MB, SIZE_1GB}
    ensures Place(leaf, va).Some? <==> leaf.Maps?
  {
  }

  lemma SameStart(a: nat, b: nat, size: nat)
    requires size in {SIZE_4KB, SIZE_2MB, SIZE_1GB} && a % size == 0 && b % size == 0 && a <= b < a + size
    ensures a == b
  {
  }

  lemma GenuineAligned(r: Root, p: PageEntry)
    requires Genuine(r, p)
    ensures Canonical(p.vaddr)
    ensures p.size in {SIZE_4KB, SIZE_2MB, SIZE_1GB} && p.vaddr % p.size == 0 && InPage(p, p.vaddr)
  {
    hide LeafAt, Linear, CanonicalAddr, PageBase;
    IndicesOfLinear(p.vaddr);
  }

  /** A complete list holds a page exactly when the walk of its aligned canonical address finds
      that frame and that size. */
  lemma ListedIffWalked(r: Root, pages: seq<PageEntry>, p: PageEntry)
    requires Exact(r, pages, LINEAR)
    ensures p in pages <==>
            && Canonical(p.vaddr)
            && p.size in {SIZE_4KB, SIZE_2MB, SIZE_1GB} && p.vaddr % p.size == 0
            && WalkOf(r, p.vaddr) == Some(Translation(p.paddr, p.size))
  {
    hide Genuine, WalkOf, Canonical, Holds;
    if p in pages {
      GenuineAligned(r, p);
    }
    if Canonical(p.vaddr) {
      ListCoversTranslations(r, pages, p.vaddr);
    }
    if Canonical(p.vaddr) && p.size in {SIZE_4KB, SIZE_2MB, SIZE_1GB} && p.vaddr % p.size == 0
       && WalkOf(r, p.vaddr) == Some(Translation(p.paddr, p.size)) {
      var i :| 0 <= i < |pages| && InPage(pages[i], p.vaddr);
      GenuineAligned(r, pages[i]);
      SameStart(pages[i].vaddr, p.vaddr, p.size);
      assert pages[i] == p;
    }
  }

  // ---------------------------------------------------------------- flags that differ

  ghost predicate Listed(pages: seq<PageEntry>, va: nat) {
    exists i :: 0 <= i < |pages| && InPage(pages[i], va)
  }

  /** v2p_ia32e of an address of the enumerated address space. */
  ghost function V2pOf(r: Root, va: nat): Option<Translation> { SpaceWalk(r.m, r.sp, r.pt, va) }

  ghost predicate Rests(r: Root, va: nat) {
    RestsOnTransition(SpaceFetch(r.m, r.sp), r.m.transitionPages, r.pt, va)
  }

  /** The enumerated walk is v2p_ia32e's, unless the flags differ and the address rests on a
      transition entry of a lower table: then the one that counts such entries translates it,
      and the other does not. */
  lemma WalksDiffer(r: Root, va: nat)
    ensures WalkOf(r, va) == V2pOf(r, va) <==> r.lower == r.m.transitionPages || !Rests(r, va)
    ensures Rests(r, va) ==> (WalkOf(r, va).Some? <==> r.lower)
    ensures Rests(r, va) ==> (V2pOf(r, va).Some? <==> r.m.transitionPages)
  {
    hide Walk, RestsOnTransition, SpaceFetch;
    LowerFlagDecides(SpaceFetch(r.m, r.sp), r.m.transitionPages, r.pt, va);
  }

  /** Which addresses a complete list holds, in terms of v2p_ia32e: those it translates, except
      that addresses resting on a transition entry are listed by the enumerator's flag. */
  lemma ListAgainstV2p(r: Root, pages: seq<PageEntry>, va: nat)
    requires Exact(r, pages, LINEAR) && Canonical(va)
    ensures Listed(pages, va) <==> if Rests(r, va) then r.lower else V2pOf(r, va).Some?
    ensures r.lower == r.m.transitionPages || !Rests(r, va) ==> (Listed(pages, va) <==> V2pOf(r, va).Some?)
    ensures r.lower != r.m.transitionPages && Rests(r, va) ==> !(Listed(pages, va) <==> V2pOf(r, va).Some?)
  {
    hide WalkOf, V2pOf, Rests, Exact, Canonical;
    ListCoversTranslations(r, pages, va);
    WalksDiffer(r, va);
  }

  /** A complete list holds exactly the addresses that v2p_ia32e translates if and only if the
      flags agree or no canonical address rests on a transition entry of a lower table. */
  lemma ListIsV2pIff(r: Root, pages: seq<PageEntry>)
    requires Exact(r, pages, LINEAR)
    ensures (forall va :: Canonical(va) ==> (Listed(pages, va) <==> V2pOf(r, va).Some?)) <==>
            r.lower == r.m.transitionPages || forall va :: Canonical(va) ==> !Rests(r, va)
  {
    hide V2pOf, Rests, Exact, Canonical, Listed;
    forall va | Canonical(va)
      ensures (Listed(pages, va) <==> V2pOf(r, va).Some?) <==> r.lower == r.m.transitionPages || !Rests(r, va)
    {
      ListAgainstV2p(r, pages, va);
    }
  }

  /** One frame that serves as all four tables: entry 0 is present and leads back to the frame,
      entry 1 is a transition entry for it. */
  function FlagMemory(): PhysMem {
    map[0 := seq(PAGE, i => if i == 0 then 1 else if i == 9 then 8 else 0)]
  }

  /** The address with index 1 in the two lower tables. */
  const FLAG_VA := SIZE_2MB + SIZE_4KB

  lemma FlagBytes(k: nat)
    requires k < 512
    ensures FlagMemory()[0][8 * k..8 * k + 8] ==
            [if k == 0 then 1 else 0, if k == 1 then 8 else 0] + [0, 0, 0, 0, 0, 0]
  {
    var page := FlagMemory()[0];
    var s := page[8 * k..8 * k + 8];
    forall i | 0 <= i < 8 ensures s[i] == if 8 * k + i == 0 then 1 else if 8 * k + i == 9 then 8 else 0 {
      assert s[i] == page[8 * k + i];
    }
  }

  lemma FlagEntries(k: nat)
    requires k < 512
    ensures ReadEntry(FlagMemory(), 8 * k) == Some(Entry(k == 0, false, false, k == 1, 0))
  {
    hide FlagMemory, ReadEntry;
    FlagBytes(k);
    assert 0 in FlagMemory() by { OnlyFrame(); }
    SmallEntry(FlagMemory(), 0, 8 * k, if k == 0 then 1 else 0, if k == 1 then 8 else 0);
  }

  lemma OnlyFrame()
    ensures 0 in FlagMemory()
  {
  }

  /** In that memory every table can be read, and for both ways in which the flags can differ the
      enumerated walk and v2p_ia32e disagree about the address: the enumerator misses it or adds it. */
  lemma LowerFlagMatters(lower: bool)
    ensures var r := Root(Machine(FlagMemory(), !lower), Physical, lower, 0);
            && (forall lin :: !LeafAt(r, lin).Unreadable?)
            && Canonical(FLAG_VA) && Rests(r, FLAG_VA)
            && (WalkOf(r, FLAG_VA).Some? <==> lower) && (V2pOf(r, FLAG_VA).Some? <==> !lower)
  {
    hide WalkOf, V2pOf, LeafAt, FlagMemory, RestsOnTransition;
    var r := Root(Machine(FlagMemory(), !lower), Physical, lower, 0);
    FlagRests(!lower);
    WalksDiffer(r, FLAG_VA);
    forall lin ensures !LeafAt(r, lin).Unreadable? {
      FlagLeaf(lower, lin);
    }
  }

  lemma FlagLeaf(lower: bool, lin: nat)
    ensures !LeafAt(Root(Machine(FlagMemory(), !lower), Physical, lower, 0), lin).Unreadable?
  {
    hide FlagMemory, Descend;
    FlagReadable(!lower, lower, IndicesOf(lin));
  }

  lemma FlagRests(upper: bool)
    ensures RestsOnTransition(PhysFetch(FlagMemory()), upper, 0, FLAG_VA)
  {
    hide FlagMemory, ReadEntry;
    var f := PhysFetch(FlagMemory());
    FlagEntries(0);
    FlagEntries(1);
    var d := DescentOf(f, upper, true, 0, FLAG_VA);
    assert d.locations[2] == 8;
    assert f(d.locations[2]).Some? && TransitionOnly(f(d.locations[2]).value);
  }

  lemma FlagReadable(upper: bool, lower: bool, ix: Indices)
    requires ix.pml4 < 512 && ix.pdpt < 512 && ix.pd < 512 && ix.pt < 512
    ensures !Descend(PhysFetch(FlagMemory()), upper, lower, 0, ix).leaf.Unreadable?
  {
    hide FlagMemory, ReadEntry;
    FlagEntries(ix.pml4);
    FlagEntries(ix.pdpt);
    FlagEntries(ix.pd);
    FlagEntries(ix.pt);
  }
}
