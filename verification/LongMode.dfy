/**
 4-level paging as section 4.5 of the Intel SDM, Volume 3A, words it: over raw 64-bit words and the
 bytes that hold them, with each field named by its bits. The walk of `Paging` and the one- and
 two-stage translations of `AddressSpace` are proved to be this.
 */
module LongMode {
  import opened Common
  import opened Paging
  import opened AddressSpace

  // ---------------------------------------------------------------- the reference

  const TWO_12: nat := 0x1000
  const TWO_21: nat := 0x20_0000
  const TWO_30: nat := 0x4000_0000
  const TWO_39: nat := 0x80_0000_0000
  const TWO_48: nat := 0x1_0000_0000_0000
  const TWO_52: nat := 0x10_0000_0000_0000

  /** Bits n to 51 of a word, in place, where `low` is 2^n; the others are zero. */
  function UpTo51(word: nat, low: nat): nat
    requires low > 0
  {
    word % TWO_52 / low * low
  }

  /** Bit 0, or where transition entries count, bit 11 without bit 10. */
  predicate PresentWord(transitionPages: bool, word: nat) {
    word % 2 == 1 || (transitionPages && word / 0x400 % 4 == 2)
  }

  /** Bit 7. */
  predicate MapsPage(word: nat) { word / 0x80 % 2 == 1 }

  /** How a walk reads a word: None when it cannot be read. */
  type Words = nat -> Option<nat>

  /** The entry at `slot` of the table that `word` names, if it is present. */
  function Step(words: Words, tp: bool, word: nat, slot: nat): Option<nat> {
    match words(UpTo51(word, TWO_12) + 8 * slot)
    case None => None
    case Some(e) => if PresentWord(tp, e) then Some(e) else None
  }

  /** The page that `word` names, and the address in it. */
  function PageAt(word: nat, size: nat, va: nat): Option<Translation>
    requires size > 0
  {
    Some(Translation(UpTo51(word, size) + va % size, size))
  }

  function PtWalk(words: Words, tp: bool, pde: nat, va: nat): Option<Translation> {
    match Step(words, tp, pde, va % TWO_21 / TWO_12)
    case None => None
    case Some(pte) => PageAt(pte, TWO_12, va)
  }

  function PdWalk(words: Words, tp: bool, pdpte: nat, va: nat): Option<Translation> {
    match Step(words, tp, pdpte, va % TWO_30 / TWO_21)
    case None => None
    case Some(pde) => if MapsPage(pde) then PageAt(pde, TWO_21, va) else PtWalk(words, tp, pde, va)
  }

  function PdptWalk(words: Words, tp: bool, pml4e: nat, va: nat): Option<Translation> {
    match Step(words, tp, pml4e, va % TWO_39 / TWO_30)
    case None => None
    case Some(pdpte) => if MapsPage(pdpte) then PageAt(pdpte, TWO_30, va) else PdWalk(words, tp, pdpte, va)
  }

  function Reference(words: Words, tp: bool, cr3: nat, va: nat): Option<Translation> {
    match Step(words, tp, cr3, va % TWO_48 / TWO_39)
    case None => None
    case Some(pml4e) => PdptWalk(words, tp, pml4e, va)
  }

  /** The word at `a`, least significant byte first. */
  function WordAt(mem: PhysMem, a: nat): Option<nat> {
    if a / TWO_12 in mem && a % TWO_12 <= TWO_12 - 8 then
      var p, o := mem[a / TWO_12], a % TWO_12;
      Some(p[o] as int + 0x100 * p[o + 1] as int + 0x1_0000 * p[o + 2] as int + 0x100_0000 * p[o + 3] as int +
           0x1_0000_0000 * p[o + 4] as int + 0x100_0000_0000 * p[o + 5] as int +
           0x1_0000_0000_0000 * p[o + 6] as int + 0x100_0000_0000_0000 * p[o + 7] as int)
    else None
  }

  function PhysWords(mem: PhysMem): Words { (a: nat) => WordAt(mem, a) }

  /** A word of guest-physical memory is where the nested tables lead. */
  function NestedWord(m: Machine, npt: nat, a: nat): Option<nat> {
    match Reference(PhysWords(m.mem), m.transitionPages, npt, a)
    case None => None
    case Some(t) => WordAt(m.mem, t.paddr)
  }

  function SpaceWords(m: Machine, sp: Space): Words {
    if sp.Physical? then PhysWords(m.mem) else (a: nat) => NestedWord(m, sp.npt, a)
  }

  /** The physical address behind a virtual one, through both stages when there are two. */
  function ReferenceResolve(m: Machine, sp: Space, cr3: nat, va: nat): Option<nat> {
    match Reference(SpaceWords(m, sp), m.transitionPages, cr3, va)
    case None => None
    case Some(t) =>
      if sp.Physical? then Some(t.paddr)
      else
        match Reference(PhysWords(m.mem), m.transitionPages, sp.npt, t.paddr)
        case None => None
        case Some(u) => Some(u.paddr)
  }

  // ---------------------------------------------------------------- fields

  lemma FrameField(word: nat)
    ensures FrameOf(word) == word % TWO_52 / TWO_12
    ensures UpTo51(word, TWO_12) == FrameOf(word) * TWO_12
  {
    var q, r, low := word / TWO_12 / 0x100_0000_0000, FrameOf(word), word % TWO_12;
    assert word == (q * 0x100_0000_0000 + r) * TWO_12 + low;
    DivUnique(q, TWO_52, r * TWO_12 + low);
    DivUnique(r, TWO_12, low);
  }

  /** The page an entry names, by its bits, is the page the leaf names. */
  lemma BaseField(word: nat, size: nat)
    requires size in {SIZE_4KB, SIZE_2MB, SIZE_1GB}
    ensures UpTo51(word, size) == PageBase(FrameOf(word), size)
  {
    FrameField(word);
    var w := word % TWO_52;
    DivDiv(w, TWO_12, 0x200);
    DivDiv(w, TWO_12, 0x4_0000);
  }

  lemma PresentField(tp: bool, word: nat)
    ensures Present(tp, Decode(word)) <==> PresentWord(tp, word)
    ensures Decode(word).large <==> MapsPage(word)
  {
    var n := word / 0x400;
    DivDiv(word, 0x400, 2);
    assert n % 4 == 2 * (n / 2 % 2) + n % 2;
  }

  lemma ModDiv(va: nat, unit: nat)
    requires unit > 0
    ensures va % (unit * 512) / unit == va / unit % 512
  {
    var q, r, low := va / unit / 512, va / unit % 512, va % unit;
    DivParts(va, unit);
    assert va == (q * 512 + r) * unit + low;
    ThreeDigits(q, 512, r, unit, low);
    DivUnique(r, unit, low);
  }

  lemma IndexFields(va: nat)
    ensures IndicesOf(va) ==
            Indices(va % TWO_48 / TWO_39, va % TWO_39 / TWO_30, va % TWO_30 / TWO_21, va % TWO_21 / TWO_12)
  {
    ModDiv(va, TWO_39);
    ModDiv(va, TWO_30);
    ModDiv(va, TWO_21);
    ModDiv(va, TWO_12);
  }

  // ---------------------------------------------------------------- the walk is the reference

  /** `f` reads the words of `words`, decoded. */
  ghost predicate Decodes(f: Fetch, words: Words) {
    forall a :: f(a) == match words(a) case None => None case Some(w) => Some(Decode(w))
  }

  lemma StepDecodes(f: Fetch, words: Words, tp: bool, word: nat, slot: nat)
    requires Decodes(f, words)
    ensures var e := f(EntryLocation(FrameOf(word), slot));
            && (Step(words, tp, word, slot).None? <==> e.None? || !Present(tp, e.value))
            && (Step(words, tp, word, slot).Some? ==>
                  var w := Step(words, tp, word, slot).value;
                  e == Some(Decode(w)) && (e.value.large <==> MapsPage(w)) && e.value.frame == FrameOf(w))
  {
    hide FrameOf, UpTo51, PresentWord, MapsPage, Present, Bit;
    FrameField(word);
    var w := words(UpTo51(word, TWO_12) + 8 * slot);
    if w.Some? {
      PresentField(tp, w.value);
    }
  }

  lemma PtDecodes(f: Fetch, words: Words, tp: bool, pde: nat, va: nat)
    requires Decodes(f, words)
    ensures PtWalk(words, tp, pde, va) == Place(DescendPt(f, tp, FrameOf(pde), IndicesOf(va)).leaf, va)
  {
    hide FrameOf, UpTo51, Step, MapsPage, Present, Decode, IndicesOf, Decodes, EntryLocation, PageBase;
    IndexFields(va);
    StepDecodes(f, words, tp, pde, va % TWO_21 / TWO_12);
    var w := Step(words, tp, pde, va % TWO_21 / TWO_12);
    if w.Some? {
      BaseField(w.value, SIZE_4KB);
    }
  }

  lemma PdDecodes(f: Fetch, words: Words, tp: bool, pdpte: nat, va: nat)
    requires Decodes(f, words)
    ensures var l := DescendPd(f, tp, FrameOf(pdpte), IndicesOf(va)).leaf;
            && (l.Maps? ==> l.size in {SIZE_4KB, SIZE_2MB, SIZE_1GB})
            && PdWalk(words, tp, pdpte, va) == Place(l, va)
  {
    hide FrameOf, UpTo51, Step, MapsPage, Present, Decode, IndicesOf, Decodes, EntryLocation, PageBase, PtWalk;
    IndexFields(va);
    StepDecodes(f, words, tp, pdpte, va % TWO_30 / TWO_21);
    var w := Step(words, tp, pdpte, va % TWO_30 / TWO_21);
    if w.Some? {
      BaseField(w.value, SIZE_2MB);
      PtDecodes(f, words, tp, w.value, va);
    }
  }

  lemma PdptDecodes(f: Fetch, words: Words, tp: bool, pml4e: nat, va: nat)
    requires Decodes(f, words)
    ensures var l := DescendPdpt(f, tp, tp, FrameOf(pml4e), IndicesOf(va)).leaf;
            && (l.Maps? ==> l.size in {SIZE_4KB, SIZE_2MB, SIZE_1GB})
            && PdptWalk(words, tp, pml4e, va) == Place(l, va)
  {
    hide FrameOf, UpTo51, Step, MapsPage, Present, Decode, IndicesOf, Decodes, EntryLocation, PageBase, PdWalk,
         DescendPd;
    IndexFields(va);
    StepDecodes(f, words, tp, pml4e, va % TWO_39 / TWO_30);
    var w := Step(words, tp, pml4e, va % TWO_39 / TWO_30);
    if w.Some? {
      BaseField(w.value, SIZE_1GB);
      PdDecodes(f, words, tp, w.value, va);
    }
  }

  /** The walk over decoded entries is the reference over words. */
  lemma WalkIsReference(f: Fetch, words: Words, tp: bool, pt: nat, va: nat)
    requires Decodes(f, words)
    ensures Walk(f, tp, tp, pt, va) == Reference(words, tp, pt, va)
  {
    hide FrameOf, UpTo51, Step, MapsPage, Present, Decode, IndicesOf, Decodes, EntryLocation, PageBase, PdptWalk,
         DescendPdpt, Place;
    IndexFields(va);
    StepDecodes(f, words, tp, pt, va % TWO_48 / TWO_39);
    var w := Step(words, tp, pt, va % TWO_48 / TWO_39);
    if w.Some? {
      PdptDecodes(f, words, tp, w.value, va);
    } else {
      NothingPlaced(va);
    }
  }

  lemma NothingPlaced(va: nat)
    ensures Place(NotPresent, va) == None && Place(Unreadable, va) == None
  {
  }

  lemma WordBytes(s: seq<Byte>)
    requires |s| == 8
    ensures LittleEndian(s) ==
            s[0] as int + 0x100 * s[1] as int + 0x1_0000 * s[2] as int + 0x100_0000 * s[3] as int +
            0x1_0000_0000 * s[4] as int + 0x100_0000_0000 * s[5] as int +
            0x1_0000_0000_0000 * s[6] as int + 0x100_0000_0000_0000 * s[7] as int
  {
    Peel(s, 0);
    Peel(s, 1);
    Peel(s, 2);
    Peel(s, 3);
    Peel(s, 4);
    Peel(s, 5);
    Peel(s, 6);
    Peel(s, 7);
  }

  lemma Peel(s: seq<Byte>, k: nat)
    requires k < |s|
    ensures LittleEndian(s[k..]) == s[k] as int + 256 * LittleEndian(s[k + 1..])
    ensures LittleEndian(s[|s|..]) == 0 && s[0..] == s
  {
    assert s[k..][1..] == s[k + 1..];
  }

  lemma PhysDecodes(mem: PhysMem)
    ensures Decodes(PhysFetch(mem), PhysWords(mem))
  {
    hide Decode, LittleEndian;
    forall a: nat
      ensures ReadEntry(mem, a) == match WordAt(mem, a) case None => None case Some(w) => Some(Decode(w))
    {
      if a / PAGE in mem && a % PAGE + 8 <= PAGE {
        WordBytes(mem[a / PAGE][a % PAGE..a % PAGE + 8]);
      }
    }
  }

  lemma PhysWalkIsReference(m: Machine, pt: nat, va: nat)
    ensures PhysWalk(m, pt, va) == Reference(PhysWords(m.mem), m.transitionPages, pt, va)
  {
    hide Walk, Reference, PhysWords, PhysFetch;
    PhysDecodes(m.mem);
    WalkIsReference(PhysFetch(m.mem), PhysWords(m.mem), m.transitionPages, pt, va);
  }

  lemma SpaceDecodes(m: Machine, sp: Space)
    ensures Decodes(SpaceFetch(m, sp), SpaceWords(m, sp))
  {
    hide Decode, Reference, PhysWalk, PhysFetch, PhysWords, ReadEntry, WordAt;
    PhysDecodes(m.mem);
    if sp.Nested? {
      forall a: nat
        ensures NestedEntry(m, sp.npt, a) ==
                match NestedWord(m, sp.npt, a) case None => None case Some(w) => Some(Decode(w))
      {
        PhysWalkIsReference(m, sp.npt, a);
        DecodesAt(m.mem);
      }
    }
  }

  lemma DecodesAt(mem: PhysMem)
    ensures forall a: nat :: ReadEntry(mem, a) == match WordAt(mem, a) case None => None case Some(w) => Some(Decode(w))
  {
    hide Decode, ReadEntry, WordAt;
    PhysDecodes(mem);
    forall a: nat
      ensures ReadEntry(mem, a) == match WordAt(mem, a) case None => None case Some(w) => Some(Decode(w))
    {
      assert PhysFetch(mem)(a) == ReadEntry(mem, a) && PhysWords(mem)(a) == WordAt(mem, a);
    }
  }

  /** One- and two-stage translation are the reference, from the bytes of memory up. */
  lemma ResolveIsReference(m: Machine, sp: Space, pt: nat, va: nat)
    ensures Resolve(m, sp, pt, va) == ReferenceResolve(m, sp, pt, va)
    ensures SpaceWalk(m, sp, pt, va) == Reference(SpaceWords(m, sp), m.transitionPages, pt, va)
  {
    hide Walk, Reference, SpaceFetch, SpaceWords, PhysWords, PhysWalk, Decodes;
    SpaceDecodes(m, sp);
    WalkIsReference(SpaceFetch(m, sp), SpaceWords(m, sp), m.transitionPages, pt, va);
    var t := SpaceWalk(m, sp, pt, va);
    if sp.Nested? && t.Some? {
      PhysWalkIsReference(m, sp.npt, t.value.paddr);
    }
  }

  /** Which physical page a leaf names: the one that holds the frame in its entry. */
  lemma LeafNamesPage(leaf: Leaf, va: nat)
    requires leaf.Maps? && leaf.size in {SIZE_4KB, SIZE_2MB, SIZE_1GB}
    ensures Place(leaf, va).value.paddr / leaf.size == leaf.frame * SIZE_4KB / leaf.size
  {
    var f := leaf.frame;
    DivUnique(f, SIZE_4KB, va % SIZE_4KB);
    DivUnique(f / 0x200, SIZE_2MB, va % SIZE_2MB);
    DivUnique(f / 0x4_0000, SIZE_1GB, va % SIZE_1GB);
    DivDiv(f * SIZE_4KB, SIZE_4KB, 0x200);
    DivDiv(f * SIZE_4KB, SIZE_4KB, 0x4_0000);
  }
}
