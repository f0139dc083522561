/**
 IA-32e (4-level) address translation as a pure walk (lib/libvmi/libvmi/arch/amd64.c),
 following section 4.5 of the Intel SDM, Volume 3A.

 Addresses and table entries are 64-bit words written as natural numbers; the source's
 masks and shifts become division and remainder by powers of two, and an OR of disjoint
 bit fields becomes a sum.
 */
module Paging {
  import opened Common

  const PAGE := 4096
  const WORD64 := 0x1_0000_0000_0000_0000

  type Page = s: seq<Byte> | |s| == PAGE witness seq(PAGE, _ => 0)

  /** Physical memory by frame number. A frame that is absent cannot be mapped: reading it fails. */
  type PhysMem = map<nat, Page>

  const SIZE_4KB: nat := 0x1000
  const SIZE_2MB: nat := 0x20_0000
  const SIZE_1GB: nat := 0x4000_0000
  const SIZE_512GB: nat := 0x80_0000_0000

  // ---------------------------------------------------------------- bit fields

  /** The four 9-bit table indices of an address (bits 39-47, 30-38, 21-29, 12-20). */
  datatype Indices = Indices(pml4: nat, pdpt: nat, pd: nat, pt: nat)

  function IndicesOf(va: nat): Indices {
    Indices(va / SIZE_512GB % 512, va / SIZE_1GB % 512, va / SIZE_2MB % 512, va / SIZE_4KB % 512)
  }

  /** The fields of a table entry that translation looks at; `frame` is bits 12 to 51. */
  datatype Entry = Entry(present: bool, large: bool, prototype: bool, transition: bool, frame: nat)

  function FrameOf(word: nat): nat { word / SIZE_4KB % 0x100_0000_0000 }

  predicate Bit(word: nat, weight: nat)
    requires weight > 0
  {
    word / weight % 2 == 1
  }

  function Decode(word: nat): Entry {
    Entry(Bit(word, 1), Bit(word, 128), Bit(word, 1024), Bit(word, 2048), FrameOf(word))
  }

  function Flag(b: bool): nat { if b then 1 else 0 }

  /** The word that holds an entry: present in bit 0, large in bit 7, prototype in bit 10,
      transition in bit 11, the frame in bits 12 to 51; `a`, `b` and `c` fill the bits between. */
  function Encode(e: Entry, a: nat, b: nat, c: nat): nat {
    Flag(e.present) + 2 * a + 0x80 * Flag(e.large) + 0x100 * b +
    0x400 * Flag(e.prototype) + 0x800 * Flag(e.transition) + 0x1000 * e.frame + 0x10_0000_0000_0000 * c
  }

  /** A flag between higher and lower bits is what Bit reads. */
  lemma FlagAt(word: nat, weight: nat, above: nat, b: bool, below: nat)
    requires below < weight && word == (above * 2 + Flag(b)) * weight + below
    ensures Bit(word, weight) == b
  {
    DivUnique(above * 2 + Flag(b), weight, below);
    DivUnique(above, 2, Flag(b));
  }

  lemma FrameAt(word: nat, above: nat, frame: nat, below: nat)
    requires below < SIZE_4KB && frame < 0x100_0000_0000
    requires word == (above * 0x100_0000_0000 + frame) * SIZE_4KB + below
    ensures FrameOf(word) == frame
  {
    DivUnique(above * 0x100_0000_0000 + frame, SIZE_4KB, below);
    DivUnique(above, 0x100_0000_0000, frame);
  }

  /** Decoding recovers an entry from every word that holds it, whatever the other bits are. */
  lemma DecodeEncode(e: Entry, a: nat, b: nat, c: nat)
    requires e.frame < 0x100_0000_0000 && a < 64 && b < 4
    ensures Decode(Encode(e, a, b, c)) == e
  {
    hide Bit, FrameOf;
    var w := Encode(e, a, b, c);
    var above11 := c * 0x100_0000_0000 + e.frame;
    var above10 := above11 * 2 + Flag(e.transition);
    var above7 := (above10 * 2 + Flag(e.prototype)) * 4 + b;
    var above0 := (above7 * 2 + Flag(e.large)) * 64 + a;
    var below7 := Flag(e.present) + 2 * a;
    var below10 := below7 + 0x80 * Flag(e.large) + 0x100 * b;
    var below11 := below10 + 0x400 * Flag(e.prototype);
    FlagAt(w, 1, above0, e.present, 0);
    FlagAt(w, 0x80, above7, e.large, below7);
    FlagAt(w, 0x400, above10, e.prototype, below10);
    FlagAt(w, 0x800, above11, e.transition, below11);
    FrameAt(w, c, e.frame, below11 + 0x800 * Flag(e.transition));
  }

  lemma DecodeBounded(word: nat)
    ensures Decode(word).frame < 0x100_0000_0000
  {
  }

  /** ENTRY_PRESENT: the present bit, or a Windows transition entry that is not a prototype. */
  predicate Present(transitionPages: bool, e: Entry) {
    e.present || (transitionPages && e.transition && !e.prototype)
  }

  /** Where the page of the given size that holds frame `frame` starts: the frame number with
      the bits below the page size cleared. */
  function PageBase(frame: nat, size: nat): nat
    requires size in {SIZE_4KB, SIZE_2MB, SIZE_1GB}
  {
    if size == SIZE_4KB then frame * SIZE_4KB
    else if size == SIZE_2MB then frame / 512 * SIZE_2MB
    else frame / 0x4_0000 * SIZE_1GB
  }

  function EntryLocation(frame: nat, index: nat): nat { frame * SIZE_4KB + 8 * index }

  // ---------------------------------------------------------------- the walk

  /** Where the descent through the tables ends: at the entry that maps a page of `size`, at
      an entry that is not present, or at one that cannot be read. */
  datatype Leaf = Maps(frame: nat, size: nat) | NotPresent | Unreadable

  /** The leaf and the locations of the table entries fetched, in order. */
  datatype Descent = Descent(leaf: Leaf, locations: seq<nat>)

  /** How a walk reads a table entry: None when the entry cannot be read. */
  type Fetch = nat -> Option<Entry>

  function Below(location: nat, rest: Descent): Descent {
    Descent(rest.leaf, [location] + rest.locations)
  }

  function DescendPt(f: Fetch, lower: bool, table: nat, ix: Indices): Descent {
    var a := EntryLocation(table, ix.pt);
    match f(a)
    case None => Descent(Unreadable, [a])
    case Some(e) =>
      if !Present(lower, e) then Descent(NotPresent, [a])
      else Descent(Maps(e.frame, SIZE_4KB), [a])
  }

  function DescendPd(f: Fetch, lower: bool, table: nat, ix: Indices): Descent {
    var a := EntryLocation(table, ix.pd);
    match f(a)
    case None => Descent(Unreadable, [a])
    case Some(e) =>
      if !Present(lower, e) then Descent(NotPresent, [a])
      else if e.large then Descent(Maps(e.frame, SIZE_2MB), [a])
      else Below(a, DescendPt(f, lower, e.frame, ix))
  }

  function DescendPdpt(f: Fetch, upper: bool, lower: bool, table: nat, ix: Indices): Descent {
    var a := EntryLocation(table, ix.pdpt);
    match f(a)
    case None => Descent(Unreadable, [a])
    case Some(e) =>
      if !Present(upper, e) then Descent(NotPresent, [a])
      else if e.large then Descent(Maps(e.frame, SIZE_1GB), [a])
      else Below(a, DescendPd(f, lower, e.frame, ix))
  }

  /** The two flags say whether transition entries count as present in the two upper tables
      and in the two lower ones: the walk uses one flag for all four, the enumerator does not. */
  function Descend(f: Fetch, upper: bool, lower: bool, table: nat, ix: Indices): Descent {
    var a := EntryLocation(table, ix.pml4);
    match f(a)
    case None => Descent(Unreadable, [a])
    case Some(e) =>
      if !Present(upper, e) then Descent(NotPresent, [a])
      else Below(a, DescendPdpt(f, upper, lower, e.frame, ix))
  }

  lemma DescendSizes(f: Fetch, upper: bool, lower: bool, table: nat, ix: Indices)
    ensures var l := Descend(f, upper, lower, table, ix).leaf;
            l.Maps? ==> l.size in {SIZE_4KB, SIZE_2MB, SIZE_1GB}
  {
  }

  /** A successful translation: physical address and page size. */
  datatype Translation = Translation(paddr: nat, size: nat)

  function Place(leaf: Leaf, va: nat): Option<Translation>
    requires leaf.Maps? ==> leaf.size in {SIZE_4KB, SIZE_2MB, SIZE_1GB}
  {
    if leaf.Maps? then Some(Translation(PageBase(leaf.frame, leaf.size) + va % leaf.size, leaf.size))
    else None
  }

  function DescentOf(f: Fetch, upper: bool, lower: bool, pt: nat, va: nat): (d: Descent)
    ensures d.leaf.Maps? ==> d.leaf.size in {SIZE_4KB, SIZE_2MB, SIZE_1GB}
  {
    DescendSizes(f, upper, lower, FrameOf(pt), IndicesOf(va));
    Descend(f, upper, lower, FrameOf(pt), IndicesOf(va))
  }

  /** v2p_ia32e, when `upper == lower`. */
  function Walk(f: Fetch, upper: bool, lower: bool, pt: nat, va: nat): Option<Translation> {
    Place(DescentOf(f, upper, lower, pt, va).leaf, va)
  }

  // ---------------------------------------------------------------- what a walk depends on

  lemma SamePageIndices(va: nat, wa: nat)
    requires va / SIZE_4KB == wa / SIZE_4KB
    ensures IndicesOf(va) == IndicesOf(wa)
    ensures va % SIZE_2MB - wa % SIZE_2MB == va - wa
    ensures va % SIZE_1GB - wa % SIZE_1GB == va - wa
    ensures va % SIZE_4KB - wa % SIZE_4KB == va - wa
  {
    var p := va / SIZE_4KB;
    assert va / SIZE_2MB == p / 512 && wa / SIZE_2MB == p / 512;
    assert va / SIZE_1GB == p / 0x4_0000 && wa / SIZE_1GB == p / 0x4_0000;
    assert va / SIZE_512GB == p / 0x800_0000 && wa / SIZE_512GB == p / 0x800_0000;
  }

  /** A multiple of a multiple of 4KB does not change the offset in a 4KB page. */
  lemma SamePageOffset(q: nat, k: nat, r: nat)
    ensures (q * (k * PAGE) + r) % PAGE == r % PAGE
  {
    var n := q * k;
    assert q * (k * PAGE) == n * PAGE;
    DivUnique(n + r / PAGE, PAGE, r % PAGE);
  }

  /** Where an address lands inside a page of `size` bytes, a multiple of 4KB. */
  lemma OffsetInPage(k: nat, q: nat, size: nat, va: nat)
    requires size == k * PAGE && size > 0
    ensures (q * size + va % size) % size == va % size
    ensures (q * size + va % size) % PAGE == va % PAGE
  {
    var r := va % size;
    DivUnique(q, size, r);
    SamePageOffset(q, k, r);
    SamePageOffset(va / size, k, r);
    assert va == va / size * size + r;
  }

  lemma PlaceKeepsOffset(leaf: Leaf, va: nat)
    requires leaf.Maps? && leaf.size in {SIZE_4KB, SIZE_2MB, SIZE_1GB}
    ensures Place(leaf, va).value.paddr % leaf.size == va % leaf.size
    ensures Place(leaf, va).value.paddr % PAGE == va % PAGE
  {
    if leaf.size == SIZE_4KB {
      OffsetInPage(1, leaf.frame, SIZE_4KB, va);
    } else if leaf.size == SIZE_2MB {
      OffsetInPage(512, leaf.frame / 512, SIZE_2MB, va);
    } else {
      OffsetInPage(0x4_0000, leaf.frame / 0x4_0000, SIZE_1GB, va);
    }
  }

  /** A walk keeps the offset inside the page it finds, at all three sizes. */
  lemma WalkKeepsOffset(f: Fetch, upper: bool, lower: bool, pt: nat, va: nat)
    ensures var t := Walk(f, upper, lower, pt, va);
            t.Some? ==> t.value.size in {SIZE_4KB, SIZE_2MB, SIZE_1GB}
                        && t.value.paddr % t.value.size == va % t.value.size
                        && t.value.paddr % PAGE == va % PAGE
  {
    var leaf := DescentOf(f, upper, lower, pt, va).leaf;
    if leaf.Maps? {
      PlaceKeepsOffset(leaf, va);
    }
  }

  /** Two addresses of one 4KB page take the same path, and land at the same distance. */
  lemma WalkCommutesWithRounding(f: Fetch, upper: bool, lower: bool, pt: nat, va: nat, wa: nat)
    requires va / SIZE_4KB == wa / SIZE_4KB
    ensures DescentOf(f, upper, lower, pt, va) == DescentOf(f, upper, lower, pt, wa)
    ensures var r, s := Walk(f, upper, lower, pt, va), Walk(f, upper, lower, pt, wa);
            && (r.Some? <==> s.Some?)
            && (r.Some? ==> r.value.size == s.value.size
                            && r.value.paddr - s.value.paddr == va - wa)
  {
    SamePageIndices(va, wa);
  }

  /** A walk depends only on the entries at the locations it reports. */
  lemma WalkFrame(f: Fetch, g: Fetch, upper: bool, lower: bool, pt: nat, va: nat)
    requires forall a :: a in DescentOf(f, upper, lower, pt, va).locations ==> f(a) == g(a)
    ensures DescentOf(f, upper, lower, pt, va) == DescentOf(g, upper, lower, pt, va)
  {
  }

  /** An entry that counts as present only where transition entries do. */
  predicate TransitionOnly(e: Entry) { !e.present && e.transition && !e.prototype }

  /** The descent passes such an entry in one of the two lower tables. */
  ghost predicate PassesTransition(f: Fetch, d: Descent) {
    exists i :: 2 <= i < |d.locations| && f(d.locations[i]).Some? && TransitionOnly(f(d.locations[i]).value)
  }

  /** The translation rests on a transition entry of a lower table: it exists when such entries
      count as present, and uses one. */
  ghost predicate RestsOnTransition(f: Fetch, upper: bool, pt: nat, va: nat) {
    var d := DescentOf(f, upper, true, pt, va);
    d.leaf.Maps? && PassesTransition(f, d)
  }

  /** The flag for the lower tables matters for exactly the addresses that rest on such an entry:
      with it they translate, without it they do not. */
  lemma LowerFlagDecides(f: Fetch, upper: bool, pt: nat, va: nat)
    ensures Walk(f, upper, true, pt, va) == Walk(f, upper, false, pt, va) <==> !RestsOnTransition(f, upper, pt, va)
    ensures RestsOnTransition(f, upper, pt, va) ==>
              Walk(f, upper, true, pt, va).Some? && Walk(f, upper, false, pt, va).None?
  {
    hide IndicesOf, FrameOf, EntryLocation, PageBase;
    var table, ix := FrameOf(pt), IndicesOf(va);
    var a := EntryLocation(table, ix.pml4);
    if f(a).Some? && Present(upper, f(a).value) {
      var a1 := EntryLocation(f(a).value.frame, ix.pdpt);
      if f(a1).Some? && Present(upper, f(a1).value) && !f(a1).value.large {
        var t := f(a1).value.frame;
        LowerTables(f, t, ix);
        var d, d2 := DescentOf(f, upper, true, pt, va), DescendPd(f, true, t, ix);
        assert d.leaf == d2.leaf && d.locations == [a, a1] + d2.locations;
        assert forall i :: 0 <= i < |d2.locations| ==> d.locations[i + 2] == d2.locations[i];
        if LowerTransition(f, d2) {
          var i :| 0 <= i < |d2.locations| && f(d2.locations[i]).Some? && TransitionOnly(f(d2.locations[i]).value);
          assert d.locations[i + 2] == d2.locations[i];
        }
      }
    }
  }

  ghost predicate LowerTransition(f: Fetch, d: Descent) {
    exists i :: 0 <= i < |d.locations| && f(d.locations[i]).Some? && TransitionOnly(f(d.locations[i]).value)
  }

  lemma LowerTables(f: Fetch, table: nat, ix: Indices)
    ensures var d, e := DescendPd(f, true, table, ix), DescendPd(f, false, table, ix);
            && (d.leaf.Maps? && LowerTransition(f, d) ==> e.leaf == NotPresent)
            && (d.leaf.Maps? && !LowerTransition(f, d) ==> e.leaf == d.leaf)
            && (!d.leaf.Maps? ==> !e.leaf.Maps?)
  {
    hide EntryLocation;
    var d := DescendPd(f, true, table, ix);
    var a := EntryLocation(table, ix.pd);
    assert d.locations[0] == a;
    if f(a).Some? && Present(true, f(a).value) && !f(a).value.large {
      assert d.locations == [a, EntryLocation(f(a).value.frame, ix.pt)];
      assert d.locations[1] == EntryLocation(f(a).value.frame, ix.pt);
    }
  }

  ghost predicate Aligned52(a: nat) { a % 8 == 0 && a + 8 <= 0x10_0000_0000_0000 }

  lemma LocationBounded(frame: nat, index: nat)
    requires frame < 0x100_0000_0000 && index < 512
    ensures Aligned52(EntryLocation(frame, index))
  {
  }

  lemma DescendBounded(f: Fetch, upper: bool, lower: bool, table: nat, ix: Indices)
    requires forall a: nat :: f(a).Some? ==> f(a).value.frame < 0x100_0000_0000
    requires table < 0x100_0000_0000 && ix.pml4 < 512 && ix.pdpt < 512 && ix.pd < 512 && ix.pt < 512
    ensures var d := Descend(f, upper, lower, table, ix);
            && (d.leaf.Maps? ==> d.leaf.frame < 0x100_0000_0000)
            && (forall a :: a in d.locations ==> Aligned52(a))
  {
    forall frame: nat, index: nat | frame < 0x100_0000_0000 && index < 512
      ensures Aligned52(EntryLocation(frame, index))
    {
      LocationBounded(frame, index);
    }
  }

  lemma PageBaseBounded(frame: nat, size: nat)
    requires frame < 0x100_0000_0000 && size in {SIZE_4KB, SIZE_2MB, SIZE_1GB}
    ensures PageBase(frame, size) + size <= 0x10_0000_0000_0000
  {
  }

  /** Entries name 40-bit frames, so whatever a walk reads or finds lies below 2^52. */
  lemma WalkBounded(f: Fetch, upper: bool, lower: bool, pt: nat, va: nat)
    requires forall a: nat :: f(a).Some? ==> f(a).value.frame < 0x100_0000_0000
    ensures Walk(f, upper, lower, pt, va).Some? ==>
              Walk(f, upper, lower, pt, va).value.paddr < 0x10_0000_0000_0000
    ensures forall a :: a in DescentOf(f, upper, lower, pt, va).locations ==> Aligned52(a)
  {
    DescendBounded(f, upper, lower, FrameOf(pt), IndicesOf(va));
    var leaf := DescentOf(f, upper, lower, pt, va).leaf;
    if leaf.Maps? {
      PageBaseBounded(leaf.frame, leaf.size);
    }
  }
}
