/**
 Translation over a physical memory: the walk through tables held in physical frames, the
 two-stage walk whose guest tables are themselves reached through nested (EPT) tables, and
 the byte that an access through either of them reaches.
 */
module AddressSpace {
  import opened Common
  import opened Paging

  // ---------------------------------------------------------------- physical memory

  function PhysByte(mem: PhysMem, b: nat): Option<Byte> {
    if b / PAGE in mem then Some(mem[b / PAGE][b % PAGE]) else None
  }

  /** Little-endian value of a byte string. */
  function LittleEndian(s: seq<Byte>): nat {
    if s == [] then 0 else s[0] + 256 * LittleEndian(s[1..])
  }

  /** The eight bytes at `a`, which lie inside one frame when `a` is a multiple of eight. */
  function EntryBytes(mem: PhysMem, a: nat): (r: Option<seq<Byte>>)
    ensures r.Some? ==> |r.value| == 8
  {
    if a / PAGE in mem && a % PAGE + 8 <= PAGE then Some(mem[a / PAGE][a % PAGE..a % PAGE + 8])
    else None
  }

  function ReadEntry(mem: PhysMem, a: nat): Option<Entry> {
    match EntryBytes(mem, a)
    case None => None
    case Some(s) => Some(Decode(LittleEndian(s)))
  }

  lemma {:induction false} ZeroWord(s: seq<Byte>)
    requires forall k :: 0 <= k < |s| ==> s[k] == 0
    ensures LittleEndian(s) == 0
  {
    if s != [] {
      ZeroWord(s[1..]);
    }
  }

  /** The value of a word of which only the two low bytes are set. */
  function SmallWord(lo: Byte, hi: Byte): nat { lo as int + 256 * (hi as int) }

  lemma SmallEntry(mem: PhysMem, frame: nat, o: nat, lo: Byte, hi: Byte)
    requires frame in mem && o + 8 <= PAGE && mem[frame][o..o + 8] == [lo, hi] + [0, 0, 0, 0, 0, 0]
    ensures ReadEntry(mem, frame * PAGE + o) == Some(Decode(SmallWord(lo, hi)))
  {
    hide Decode, LittleEndian;
    DivModPage(frame, o);
    SmallBytes(lo, hi, [0, 0, 0, 0, 0, 0]);
  }

  lemma SmallBytes(lo: Byte, hi: Byte, zeros: seq<Byte>)
    requires forall k :: 0 <= k < |zeros| ==> zeros[k] == 0
    ensures LittleEndian([lo, hi] + zeros) == SmallWord(lo, hi)
  {
    var s := [lo, hi] + zeros;
    assert s[1..][1..] == zeros;
    ZeroWord(zeros);
  }

  // ---------------------------------------------------------------- spaces

  type NestedRoot = n: nat | n > 0 witness 1

  /** Where a page table lives: in physical memory, or in the guest-physical memory that the
      nested tables rooted at `npt` describe. */
  datatype Space = Physical | Nested(npt: NestedRoot)

  datatype Machine = Machine(mem: PhysMem, transitionPages: bool)

  function PhysFetch(mem: PhysMem): Fetch { (a: nat) => ReadEntry(mem, a) }

  /** v2p_ia32e without nesting; v2p_ept_4l is the same walk. */
  function PhysWalk(m: Machine, pt: nat, va: nat): Option<Translation> {
    Walk(PhysFetch(m.mem), m.transitionPages, m.transitionPages, pt, va)
  }

  /** A guest table entry is fetched at the physical address its guest address translates to. */
  function NestedEntry(m: Machine, npt: nat, a: nat): Option<Entry> {
    match PhysWalk(m, npt, a)
    case None => None
    case Some(t) => ReadEntry(m.mem, t.paddr)
  }

  function NestedFetch(m: Machine, npt: nat): Fetch { (a: nat) => NestedEntry(m, npt, a) }

  function SpaceFetch(m: Machine, sp: Space): Fetch {
    if sp.Physical? then PhysFetch(m.mem) else NestedFetch(m, sp.npt)
  }

  /** The walk of page table `pt` in space `sp`: to an address of that same space. */
  function SpaceWalk(m: Machine, sp: Space, pt: nat, va: nat): Option<Translation> {
    Walk(SpaceFetch(m, sp), m.transitionPages, m.transitionPages, pt, va)
  }

  /** The physical address of an address of space `sp`. */
  function ToPhysical(m: Machine, sp: Space, a: nat): Option<nat> {
    match sp
    case Physical => Some(a)
    case Nested(npt) =>
      match PhysWalk(m, npt, a)
      case None => None
      case Some(t) => Some(t.paddr)
  }

  /** The physical address that virtual address `va` of page table `pt` finally reaches. */
  function Resolve(m: Machine, sp: Space, pt: nat, va: nat): Option<nat> {
    match SpaceWalk(m, sp, pt, va)
    case None => None
    case Some(t) => ToPhysical(m, sp, t.paddr)
  }

  /** How an access names memory: through a page table of `sp`, or by an address of `sp`. */
  datatype View = Paged(sp: Space, pt: nat) | Flat(sp: Space)

  function HostAddress(m: Machine, v: View, va: nat): Option<nat> {
    match v
    case Paged(sp, pt) => Resolve(m, sp, pt, va)
    case Flat(sp) => ToPhysical(m, sp, va)
  }

  function ByteAt(m: Machine, v: View, va: nat): Option<Byte> {
    match HostAddress(m, v, va)
    case None => None
    case Some(b) => PhysByte(m.mem, b)
  }

  // ---------------------------------------------------------------- pages

  lemma ToPhysicalRounds(m: Machine, sp: Space, a: nat, b: nat)
    requires a / PAGE == b / PAGE
    ensures ToPhysical(m, sp, a).Some? <==> ToPhysical(m, sp, b).Some?
    ensures ToPhysical(m, sp, a).Some? ==>
              && ToPhysical(m, sp, a).value - ToPhysical(m, sp, b).value == a - b
              && ToPhysical(m, sp, a).value % PAGE == a % PAGE
  {
    if sp.Nested? {
      var f := PhysFetch(m.mem);
      WalkCommutesWithRounding(f, m.transitionPages, m.transitionPages, sp.npt, a, b);
      WalkKeepsOffset(f, m.transitionPages, m.transitionPages, sp.npt, a);
    }
  }

  lemma SamePage(p: nat, q: nat, a: nat, b: nat)
    requires a / PAGE == b / PAGE && p - q == a - b && p % PAGE == a % PAGE
    ensures p / PAGE == q / PAGE
  {
  }

  /** Resolving an address and resolving its page agree: same status, same offset. */
  lemma ResolveRounds(m: Machine, sp: Space, pt: nat, va: nat, wa: nat)
    requires va / PAGE == wa / PAGE
    ensures Resolve(m, sp, pt, va).Some? <==> Resolve(m, sp, pt, wa).Some?
    ensures Resolve(m, sp, pt, va).Some? ==>
              && Resolve(m, sp, pt, va).value - Resolve(m, sp, pt, wa).value == va - wa
              && Resolve(m, sp, pt, va).value % PAGE == va % PAGE
  {
    var f, tp := SpaceFetch(m, sp), m.transitionPages;
    WalkCommutesWithRounding(f, tp, tp, pt, va, wa);
    WalkKeepsOffset(f, tp, tp, pt, va);
    var s, t := Walk(f, tp, tp, pt, va), Walk(f, tp, tp, pt, wa);
    if s.Some? {
      SamePage(s.value.paddr, t.value.paddr, va, wa);
      ToPhysicalRounds(m, sp, s.value.paddr, t.value.paddr);
    }
  }

  lemma HostAddressRounds(m: Machine, v: View, va: nat, wa: nat)
    requires va / PAGE == wa / PAGE
    ensures HostAddress(m, v, va).Some? <==> HostAddress(m, v, wa).Some?
    ensures HostAddress(m, v, va).Some? ==>
              && HostAddress(m, v, va).value - HostAddress(m, v, wa).value == va - wa
              && HostAddress(m, v, va).value % PAGE == va % PAGE
  {
    match v
    case Paged(sp, pt) => ResolveRounds(m, sp, pt, va, wa);
    case Flat(sp) => ToPhysicalRounds(m, sp, va, wa);
  }

  // ---------------------------------------------------------------- what translation reads

  ghost predicate WordIn(tables: iset<nat>, a: nat) {
    forall b :: a <= b < a + 8 ==> b in tables
  }

  ghost function PhysDescent(m: Machine, pt: nat, va: nat): Descent {
    DescentOf(PhysFetch(m.mem), m.transitionPages, m.transitionPages, pt, va)
  }

  ghost predicate PhysCovered(m: Machine, tables: iset<nat>, pt: nat, va: nat) {
    forall a :: a in PhysDescent(m, pt, va).locations ==> WordIn(tables, a)
  }

  /** `tables` holds every physical byte read while turning address `a` of `sp` physical. */
  ghost predicate SpaceCovered(m: Machine, tables: iset<nat>, sp: Space, a: nat) {
    sp.Nested? ==> PhysCovered(m, tables, sp.npt, a)
  }

  /** `tables` holds every byte of the entry at address `a` of `sp`, and every byte read on
      the way to it. */
  ghost predicate EntryCovered(m: Machine, tables: iset<nat>, sp: Space, a: nat) {
    && SpaceCovered(m, tables, sp, a)
    && (ToPhysical(m, sp, a).Some? ==> WordIn(tables, ToPhysical(m, sp, a).value))
  }

  /** `tables` holds every physical byte read while resolving `va`: the guest's table entries,
      and the nested entries that lead to them and to the final address. */
  ghost predicate Covered(m: Machine, tables: iset<nat>, v: View, va: nat) {
    match v
    case Flat(sp) => SpaceCovered(m, tables, sp, va)
    case Paged(sp, pt) =>
      var tp := m.transitionPages;
      && (forall a :: a in DescentOf(SpaceFetch(m, sp), tp, tp, pt, va).locations ==>
            EntryCovered(m, tables, sp, a))
      && (SpaceWalk(m, sp, pt, va).Some? ==>
            SpaceCovered(m, tables, sp, SpaceWalk(m, sp, pt, va).value.paddr))
  }

  /** The two memories have the same frames and the same bytes at the addresses in `tables`. */
  ghost predicate AgreeOn(mem: PhysMem, mem': PhysMem, tables: iset<nat>) {
    && mem.Keys == mem'.Keys
    && forall b: nat :: b in tables ==> PhysByte(mem, b) == PhysByte(mem', b)
  }

  lemma EntryUnchanged(mem: PhysMem, mem': PhysMem, tables: iset<nat>, a: nat)
    requires AgreeOn(mem, mem', tables) && WordIn(tables, a)
    ensures ReadEntry(mem, a) == ReadEntry(mem', a)
  {
    if a / PAGE in mem && a % PAGE + 8 <= PAGE {
      var o := a % PAGE;
      var s, s' := mem[a / PAGE][o..o + 8], mem'[a / PAGE][o..o + 8];
      forall k | 0 <= k < 8 ensures s[k] == s'[k] {
        assert PhysByte(mem, a + k) == PhysByte(mem', a + k);
        assert (a + k) / PAGE == a / PAGE && (a + k) % PAGE == o + k;
      }
      assert s == s';
    }
  }

  lemma PhysUnchanged(m: Machine, m': Machine, tables: iset<nat>, pt: nat, va: nat)
    requires AgreeOn(m.mem, m'.mem, tables) && m.transitionPages == m'.transitionPages
    requires PhysCovered(m, tables, pt, va)
    ensures PhysDescent(m, pt, va) == PhysDescent(m', pt, va)
    ensures PhysWalk(m, pt, va) == PhysWalk(m', pt, va)
  {
    var f, f' := PhysFetch(m.mem), PhysFetch(m'.mem);
    forall a | a in PhysDescent(m, pt, va).locations ensures f(a) == f'(a) {
      EntryUnchanged(m.mem, m'.mem, tables, a);
    }
    WalkFrame(f, f', m.transitionPages, m.transitionPages, pt, va);
  }

  lemma SpaceUnchanged(m: Machine, m': Machine, tables: iset<nat>, sp: Space, a: nat)
    requires AgreeOn(m.mem, m'.mem, tables) && m.transitionPages == m'.transitionPages
    requires SpaceCovered(m, tables, sp, a)
    ensures SpaceCovered(m', tables, sp, a)
    ensures ToPhysical(m, sp, a) == ToPhysical(m', sp, a)
  {
    if sp.Nested? {
      PhysUnchanged(m, m', tables, sp.npt, a);
    }
  }

  lemma FetchUnchanged(m: Machine, m': Machine, tables: iset<nat>, sp: Space, a: nat)
    requires AgreeOn(m.mem, m'.mem, tables) && m.transitionPages == m'.transitionPages
    requires EntryCovered(m, tables, sp, a)
    ensures EntryCovered(m', tables, sp, a)
    ensures SpaceFetch(m, sp)(a) == SpaceFetch(m', sp)(a)
  {
    SpaceUnchanged(m, m', tables, sp, a);
    var b := ToPhysical(m, sp, a);
    if b.Some? {
      EntryUnchanged(m.mem, m'.mem, tables, b.value);
    }
  }

  /** Changing bytes outside `tables` changes no translation whose reads lie in `tables`. */
  lemma TranslationUnchanged(m: Machine, m': Machine, tables: iset<nat>, v: View, va: nat)
    requires AgreeOn(m.mem, m'.mem, tables) && m.transitionPages == m'.transitionPages
    requires Covered(m, tables, v, va)
    ensures Covered(m', tables, v, va)
    ensures HostAddress(m, v, va) == HostAddress(m', v, va)
  {
    match v
    case Flat(sp) => SpaceUnchanged(m, m', tables, sp, va);
    case Paged(sp, pt) =>
      var f, f', tp := SpaceFetch(m, sp), SpaceFetch(m', sp), m.transitionPages;
      forall a | a in DescentOf(f, tp, tp, pt, va).locations
        ensures f(a) == f'(a) && EntryCovered(m', tables, sp, a)
      {
        FetchUnchanged(m, m', tables, sp, a);
      }
      WalkFrame(f, f', tp, tp, pt, va);
      var t := SpaceWalk(m, sp, pt, va);
      if t.Some? {
        SpaceUnchanged(m, m', tables, sp, t.value.paddr);
      }
  }

  // ---------------------------------------------------------------- entries that keep their meaning

  /** Both memories hold the same decoded entry at `a`, whatever other bits of it changed. */
  ghost predicate SameEntry(m: Machine, m': Machine, a: nat) { ReadEntry(m.mem, a) == ReadEntry(m'.mem, a) }

  ghost predicate PhysKept(m: Machine, m': Machine, pt: nat, va: nat) {
    forall a :: a in PhysDescent(m, pt, va).locations ==> SameEntry(m, m', a)
  }

  ghost predicate SpaceKept(m: Machine, m': Machine, sp: Space, a: nat) {
    sp.Nested? ==> PhysKept(m, m', sp.npt, a)
  }

  ghost predicate EntryKept(m: Machine, m': Machine, sp: Space, a: nat) {
    && SpaceKept(m, m', sp, a)
    && (ToPhysical(m, sp, a).Some? ==> SameEntry(m, m', ToPhysical(m, sp, a).value))
  }

  /** Every entry read while resolving `va`, in the guest's tables and in the nested ones on the way
      to them and to the final address, still decodes to the same. */
  ghost predicate PathKept(m: Machine, m': Machine, sp: Space, pt: nat, va: nat) {
    var tp := m.transitionPages;
    && (forall a :: a in DescentOf(SpaceFetch(m, sp), tp, tp, pt, va).locations ==> EntryKept(m, m', sp, a))
    && (SpaceWalk(m, sp, pt, va).Some? ==> SpaceKept(m, m', sp, SpaceWalk(m, sp, pt, va).value.paddr))
  }

  lemma PhysKeptWalk(m: Machine, m': Machine, pt: nat, va: nat)
    requires m.transitionPages == m'.transitionPages && PhysKept(m, m', pt, va)
    ensures PhysWalk(m, pt, va) == PhysWalk(m', pt, va)
  {
    var f, f' := PhysFetch(m.mem), PhysFetch(m'.mem);
    forall a | a in PhysDescent(m, pt, va).locations ensures f(a) == f'(a) {
      assert SameEntry(m, m', a);
    }
    WalkFrame(f, f', m.transitionPages, m.transitionPages, pt, va);
  }

  lemma SpaceKeptAddress(m: Machine, m': Machine, sp: Space, a: nat)
    requires m.transitionPages == m'.transitionPages && SpaceKept(m, m', sp, a)
    ensures ToPhysical(m, sp, a) == ToPhysical(m', sp, a)
  {
    hide PhysWalk;
    if sp.Nested? {
      PhysKeptWalk(m, m', sp.npt, a);
    }
  }

  lemma EntryKeptFetch(m: Machine, m': Machine, sp: Space, a: nat)
    requires m.transitionPages == m'.transitionPages && EntryKept(m, m', sp, a)
    ensures SpaceFetch(m, sp)(a) == SpaceFetch(m', sp)(a)
  {
    hide PhysWalk, ReadEntry;
    SpaceKeptAddress(m, m', sp, a);
  }

  /** Then the address resolves as before. */
  lemma PathKeptResolves(m: Machine, m': Machine, sp: Space, pt: nat, va: nat)
    requires m.transitionPages == m'.transitionPages && PathKept(m, m', sp, pt, va)
    ensures Resolve(m, sp, pt, va) == Resolve(m', sp, pt, va)
  {
    hide SpaceFetch, EntryKept, SpaceKept, ToPhysical;
    var f, f', tp := SpaceFetch(m, sp), SpaceFetch(m', sp), m.transitionPages;
    forall a | a in DescentOf(f, tp, tp, pt, va).locations ensures f(a) == f'(a) {
      EntryKeptFetch(m, m', sp, a);
    }
    WalkFrame(f, f', tp, tp, pt, va);
    var t := SpaceWalk(m, sp, pt, va);
    if t.Some? {
      SpaceKeptAddress(m, m', sp, t.value.paddr);
    }
  }

  // ---------------------------------------------------------------- bounds and bytes

  lemma SpaceWalkBounded(m: Machine, sp: Space, pt: nat, va: nat)
    ensures SpaceWalk(m, sp, pt, va).Some? ==>
              SpaceWalk(m, sp, pt, va).value.paddr < 0x10_0000_0000_0000
    ensures Resolve(m, sp, pt, va).Some? ==> Resolve(m, sp, pt, va).value < 0x10_0000_0000_0000
    ensures forall a ::
              a in DescentOf(SpaceFetch(m, sp), m.transitionPages, m.transitionPages, pt, va).locations
              ==> Aligned52(a)
  {
    var tp := m.transitionPages;
    WalkBounded(SpaceFetch(m, sp), tp, tp, pt, va);
    var t := SpaceWalk(m, sp, pt, va);
    if sp.Nested? && t.Some? {
      WalkBounded(PhysFetch(m.mem), tp, tp, sp.npt, t.value.paddr);
    }
  }

  function SpaceBytes(m: Machine, sp: Space, a: nat): (r: Option<seq<Byte>>)
    ensures r.Some? ==> |r.value| == 8
  {
    match ToPhysical(m, sp, a)
    case None => None
    case Some(p) => EntryBytes(m.mem, p)
  }

  lemma Mod8(k: nat, r: nat)
    ensures (8 * k + r) % 8 == r % 8
  {
  }

  lemma DivModPage(q: nat, s: nat)
    requires s < PAGE
    ensures (q * PAGE + s) / PAGE == q && (q * PAGE + s) % PAGE == s
  {
  }

  lemma SameWordPage(a: nat, i: nat)
    requires a % 8 == 0 && i < 8
    ensures (a + i) / PAGE == a / PAGE && (a + i) % PAGE == a % PAGE + i && a % PAGE + 8 <= PAGE
  {
    var q, r := a / PAGE, a % PAGE;
    assert a == q * PAGE + r == 8 * (512 * q) + r;
    Mod8(512 * q, r);
    assert r + 8 <= PAGE;
    DivModPage(q, r + i);
  }

  lemma AlignedInPage(p: nat, a: nat)
    requires p % PAGE == a % PAGE && a % 8 == 0
    ensures p % 8 == 0
  {
    Mod8(512 * (a / PAGE), a % PAGE);
    Mod8(512 * (p / PAGE), p % PAGE);
  }

  /** Fetching the entry at `a` is reading its eight bytes. */
  lemma FetchIsEightBytes(m: Machine, sp: Space, a: nat, i: nat)
    requires a % 8 == 0 && i < 8
    ensures var s := SpaceBytes(m, sp, a);
            && SpaceFetch(m, sp)(a) == (if s.None? then None else Some(Decode(LittleEndian(s.value))))
            && ByteAt(m, Flat(sp), a + i) == if s.None? then None else Some(s.value[i])
  {
    hide Walk, Decode;
    SameWordPage(a, i);
    ToPhysicalRounds(m, sp, a + i, a);
    ToPhysicalRounds(m, sp, a, a);
    if ToPhysical(m, sp, a).Some? {
      AlignedInPage(ToPhysical(m, sp, a).value, a);
      SameWordPage(ToPhysical(m, sp, a).value, i);
    }
  }

  lemma CoveredFlat(m: Machine, tables: iset<nat>, npt: nat, a: nat)
    requires PhysCovered(m, tables, npt, a)
    ensures Covered(m, tables, Paged(Physical, npt), a)
  {
  }
}
