/**
 The introspection instance: its translation cache (lib/libvmi/libvmi/cache.c), the cached
 one- and two-stage lookups (accessors.c), and the paged read and write loops (read.c,
 write.c), which call one another.

 Every method takes a ghost set `tables` of physical byte addresses. `Sound(tables)` says
 that each cached page is what a fresh walk of the current memory gives, and that such a
 walk reads only bytes in `tables`. For callers that only read, `tables` may be every
 address; a write needs it to keep away from the bytes that translation depends on.
 */
module Vmi {
  import opened Common
  import opened Paging
  import opened AddressSpace

  /** The i-th address of a range: addr_t arithmetic wraps. */
  function Va(start: nat, i: nat): nat { (start + i) % WORD64 }

  /** It is the 64-bit address that many bytes on, modulo 2^64. */
  lemma VaWraps(start: nat, i: nat)
    ensures Va(start, i) < 0x1_0000_0000_0000_0000
    ensures start < WORD64 && i < WORD64 ==>
              Va(start, i) == start + i || Va(start, i) == start + i - 0x1_0000_0000_0000_0000
  {
  }

  /** The range's n-th address is its first, or starts a page. */
  ghost predicate PageBoundary(start: nat, n: nat) { n == 0 || Va(start, n) % PAGE == 0 }

  lemma StartsAtBoundary(start: nat)
    ensures PageBoundary(start, 0)
  {
  }

  type CacheKey = (nat, nat)
  type V2pCache = map<CacheKey, map<nat, nat>>

  /** Address spaces are keyed by page table and nested page table, zero meaning none. */
  function KeyOf(sp: Space, pt: nat): CacheKey { (pt, if sp.Physical? then 0 else sp.npt) }

  function SpaceOf(key: CacheKey): Space { if key.1 == 0 then Physical else Nested(key.1) }

  function PageOf(a: nat): nat { a / PAGE * PAGE }

  /** v2p_cache_get: a stored zero reads as a miss. */
  function CacheGet(cache: V2pCache, key: CacheKey, va: nat): Option<nat> {
    if key in cache && PageOf(va) in cache[key] && cache[key][PageOf(va)] != 0
    then Some(cache[key][PageOf(va)] + va % PAGE)
    else None
  }

  /** v2p_cache_set: with safety checks, a zero argument is not stored. */
  function CacheSet(cache: V2pCache, checks: bool, key: CacheKey, va: nat, pa: nat): V2pCache {
    if checks && (va == 0 || key.0 == 0 || pa == 0) then cache
    else
      var pages := if key in cache then cache[key] else map[];
      cache[key := pages[PageOf(va) := PageOf(pa)]]
  }

  /** v2p_cache_del, as its one caller calls it: an emptied address space is dropped. */
  function CacheDel(cache: V2pCache, key: CacheKey, va: nat): V2pCache {
    if key !in cache then cache
    else
      var pages := cache[key] - {PageOf(va)};
      if pages == map[] then cache - {key} else cache[key := pages]
  }

  /** The zero arguments that v2p_cache_set refuses, and the page whose stored zero reads as a miss. */
  predicate Cacheable(checks: bool, key: CacheKey, va: nat, pa: nat) {
    !(checks && (va == 0 || key.0 == 0 || pa == 0)) && PageOf(pa) != 0
  }

  /** Set and delete act on the one page named, seen through any later get. */
  lemma GetAfterSet(cache: V2pCache, checks: bool, key: CacheKey, va: nat, pa: nat)
    ensures Cacheable(checks, key, va, pa) && pa % PAGE == va % PAGE ==>
              CacheGet(CacheSet(cache, checks, key, va, pa), key, va) == Some(pa)
    ensures forall k, a: nat :: k != key || PageOf(a) != PageOf(va) ==>
              CacheGet(CacheSet(cache, checks, key, va, pa), k, a) == CacheGet(cache, k, a)
  {
    hide PageOf;
    PageOfPage(pa);
  }

  lemma GetAfterDel(cache: V2pCache, key: CacheKey, va: nat)
    ensures CacheGet(CacheDel(cache, key, va), key, va) == None
    ensures forall k, a: nat :: k != key || PageOf(a) != PageOf(va) ==>
              CacheGet(CacheDel(cache, key, va), k, a) == CacheGet(cache, k, a)
  {
    hide PageOf;
    var after := CacheDel(cache, key, va);
    forall k, a: nat | k != key || PageOf(a) != PageOf(va)
      ensures CacheGet(after, k, a) == CacheGet(cache, k, a)
    {
      if key in cache && k == key && PageOf(a) in cache[key] {
        assert PageOf(a) in cache[key] - {PageOf(va)};
      }
    }
  }

  ghost predicate EntrySound(m: Machine, tables: iset<nat>, key: CacheKey, page: nat, pa: nat) {
    && page % PAGE == 0
    && Resolve(m, SpaceOf(key), key.0, page) == Some(pa)
    && Covered(m, tables, Paged(SpaceOf(key), key.0), page)
  }

  ghost predicate CacheSound(m: Machine, tables: iset<nat>, cache: V2pCache) {
    forall key, page :: key in cache && page in cache[key] && cache[key][page] != 0 ==>
      EntrySound(m, tables, key, page, cache[key][page])
  }

  lemma CoveredRounds(m: Machine, tables: iset<nat>, sp: Space, pt: nat, va: nat, wa: nat)
    requires va / PAGE == wa / PAGE && Covered(m, tables, Paged(sp, pt), va)
    ensures Covered(m, tables, Paged(sp, pt), wa)
  {
    var f, tp := SpaceFetch(m, sp), m.transitionPages;
    WalkCommutesWithRounding(f, tp, tp, pt, va, wa);
    WalkKeepsOffset(f, tp, tp, pt, va);
    var s, t := Walk(f, tp, tp, pt, va), Walk(f, tp, tp, pt, wa);
    if s.Some? && sp.Nested? {
      SamePage(s.value.paddr, t.value.paddr, va, wa);
      WalkCommutesWithRounding(PhysFetch(m.mem), tp, tp, sp.npt, s.value.paddr, t.value.paddr);
    }
  }

  lemma EntryByteCovered(m: Machine, tables: iset<nat>, sp: Space, a: nat, i: nat)
    requires EntryCovered(m, tables, sp, a) && Aligned52(a) && i < 8
    ensures Va(a, i) == a + i && Covered(m, tables, Flat(sp), Va(a, i))
  {
    hide DescentOf, Walk;
    if sp.Nested? {
      SameWordPage(a, i);
      WalkCommutesWithRounding(PhysFetch(m.mem), m.transitionPages, m.transitionPages, sp.npt, a, a + i);
    }
  }

  lemma EntryBytesReachable(m: Machine, tables: iset<nat>, sp: Space, a: nat)
    requires EntryCovered(m, tables, sp, a) && Aligned52(a)
    ensures forall i :: 0 <= i < 8 ==> Covered(m, tables, Flat(sp), Va(a, i))
  {
    forall i | 0 <= i < 8 ensures Covered(m, tables, Flat(sp), Va(a, i)) {
      EntryByteCovered(m, tables, sp, a, i);
    }
  }

  lemma PageOfPage(a: nat)
    ensures PageOf(a) / PAGE == a / PAGE && PageOf(a) % PAGE == 0 && PageOf(a) + a % PAGE == a
  {
  }

  /** A hit in a sound cache is the answer of a fresh walk, at any offset of the page. */
  lemma HitIsResolution(m: Machine, tables: iset<nat>, cache: V2pCache, key: CacheKey, va: nat)
    requires CacheSound(m, tables, cache) && CacheGet(cache, key, va).Some?
    ensures CacheGet(cache, key, va) == Resolve(m, SpaceOf(key), key.0, va)
  {
    hide Resolve, PageOf, Covered;
    PageOfPage(va);
    assert EntrySound(m, tables, key, PageOf(va), cache[key][PageOf(va)]);
    ResolveRounds(m, SpaceOf(key), key.0, va, PageOf(va));
  }

  lemma SetKeepsSound(m: Machine, tables: iset<nat>, cache: V2pCache, checks: bool, key: CacheKey, va: nat, pa: nat)
    requires CacheSound(m, tables, cache)
    requires Resolve(m, SpaceOf(key), key.0, va) == Some(pa)
    requires Covered(m, tables, Paged(SpaceOf(key), key.0), va)
    ensures CacheSound(m, tables, CacheSet(cache, checks, key, va, pa))
  {
    hide Resolve, PageOf, Covered;
    PageOfPage(va);
    PageOfPage(pa);
    ResolveRounds(m, SpaceOf(key), key.0, va, PageOf(va));
    CoveredRounds(m, tables, SpaceOf(key), key.0, va, PageOf(va));
    assert EntrySound(m, tables, key, PageOf(va), PageOf(pa));
    var after := CacheSet(cache, checks, key, va, pa);
    forall k, page | k in after && page in after[k] && after[k][page] != 0
      ensures EntrySound(m, tables, k, page, after[k][page])
    {
      if after != cache && k == key && page == PageOf(va) {
      } else {
        assert k in cache && page in cache[k] && cache[k][page] == after[k][page];
      }
    }
  }

  lemma DelKeepsSound(m: Machine, tables: iset<nat>, cache: V2pCache, key: CacheKey, va: nat)
    requires CacheSound(m, tables, cache)
    ensures CacheSound(m, tables, CacheDel(cache, key, va))
  {
  }

  /** Bytes changed outside `tables` leave the cache sound. */
  lemma SoundUnchanged(m: Machine, m': Machine, tables: iset<nat>, cache: V2pCache)
    requires AgreeOn(m.mem, m'.mem, tables) && m.transitionPages == m'.transitionPages
    requires CacheSound(m, tables, cache)
    ensures CacheSound(m', tables, cache)
  {
    forall key, page | key in cache && page in cache[key] && cache[key][page] != 0
      ensures EntrySound(m', tables, key, page, cache[key][page])
    {
      assert EntrySound(m, tables, key, page, cache[key][page]);
      TranslationUnchanged(m, m', tables, Paged(SpaceOf(key), key.0), page);
    }
  }

  lemma VaInPage(start: nat, n: nat, k: nat)
    requires Va(start, n) % PAGE + k <= PAGE
    ensures Va(start, n) % PAGE + k < PAGE ==> Va(start, n + k) == Va(start, n) + k
    ensures Va(start, n) % PAGE + k == PAGE ==> Va(start, n + k) % PAGE == 0
  {
    var q := (start + n) / WORD64;
    assert start + n == q * WORD64 + Va(start, n);
  }

  lemma OffsetInRange(a: nat, k: nat)
    requires a % PAGE + k < PAGE
    ensures (a + k) / PAGE == a / PAGE && (a + k) % PAGE == a % PAGE + k
  {
  }

  /** Inside one page, the byte of the k-th next address is k bytes further in the frame. */
  lemma ChunkByte(m: Machine, v: View, start: nat, n: nat, k: nat)
    requires Va(start, n) % PAGE + k < PAGE
    ensures Va(start, n + k) == Va(start, n) + k
    ensures HostAddress(m, v, Va(start, n + k)).Some? <==> HostAddress(m, v, Va(start, n)).Some?
    ensures HostAddress(m, v, Va(start, n)).Some? ==>
              var p := HostAddress(m, v, Va(start, n)).value;
              && p % PAGE == Va(start, n) % PAGE
              && HostAddress(m, v, Va(start, n + k)) == Some(p + k)
              && (p + k) / PAGE == p / PAGE && (p + k) % PAGE == p % PAGE + k
  {
    hide HostAddress, Va;
    VaInPage(start, n, k);
    var a := Va(start, n);
    OffsetInRange(a, k);
    HostAddressRounds(m, v, a + k, a);
    HostAddressRounds(m, v, a, a);
    if HostAddress(m, v, a).Some? {
      OffsetInRange(HostAddress(m, v, a).value, k);
    }
  }

  lemma NoByte(m: Machine, v: View, va: nat)
    requires HostAddress(m, v, va).Some? ==> HostAddress(m, v, va).value / PAGE !in m.mem
    ensures ByteAt(m, v, va) == None
  {
  }

  /** What one turn of the read and write loops handles: `len` addresses of one page. */
  lemma Chunk(m: Machine, v: View, start: nat, n: nat, len: nat, p: nat)
    requires HostAddress(m, v, Va(start, n)) == Some(p) && p % PAGE + len <= PAGE
    ensures forall i :: n <= i < n + len ==> HostAddress(m, v, Va(start, i)) == Some(p + (i - n))
    ensures p / PAGE in m.mem ==> forall i :: n <= i < n + len ==>
              ByteAt(m, v, Va(start, i)) == Some(m.mem[p / PAGE][p % PAGE + (i - n)])
    ensures p % PAGE + len == PAGE ==> PageBoundary(start, n + len)
  {
    hide HostAddress;
    ChunkByte(m, v, start, n, 0);
    forall i | n <= i < n + len
      ensures HostAddress(m, v, Va(start, i)) == Some(p + (i - n))
      ensures p / PAGE in m.mem ==> ByteAt(m, v, Va(start, i)) == Some(m.mem[p / PAGE][p % PAGE + (i - n)])
    {
      ChunkByte(m, v, start, n, i - n);
    }
    VaInPage(start, n, len);
  }

  // ---------------------------------------------------------------- whole tables

  ghost predicate AnyByte(b: nat) { true }

  ghost function AllBytes(): iset<nat> { iset b: nat | AnyByte(b) }

  lemma CoveredByAll(m: Machine, v: View, va: nat)
    ensures Covered(m, AllBytes(), v, va)
  {
  }

  /** The i-th byte of a frame, at the address a page read computes for it. */
  lemma FrameVa(frame: nat, i: nat)
    requires frame < 0x100_0000_0000 && i < PAGE
    ensures Va(frame * PAGE, i) == frame * PAGE + i && Va(frame * PAGE, i) / PAGE == frame
  {
    DivModPage(frame, i);
  }

  lemma EntryVa(frame: nat, k: nat, i: nat)
    requires frame < 0x100_0000_0000 && k < 512 && i < 8
    ensures Va(frame * PAGE, 8 * k + i) == Va(EntryLocation(frame, k), i)
  {
  }

  lemma EntryFromBytes(m: Machine, sp: Space, a: nat, s: seq<Byte>)
    requires Aligned52(a) && |s| == 8
    requires forall i :: 0 <= i < 8 ==> ByteAt(m, Flat(sp), Va(a, i)) == Some(s[i])
    ensures SpaceFetch(m, sp)(a) == Some(Decode(LittleEndian(s)))
  {
    hide ByteAt, SpaceFetch, SpaceBytes, Decode, LittleEndian;
    FetchIsEightBytes(m, sp, a, 0);
    assert ByteAt(m, Flat(sp), Va(a, 0)) == Some(s[0]);
    forall i | 0 <= i < 8 ensures SpaceBytes(m, sp, a).value[i] == s[i] {
      FetchIsEightBytes(m, sp, a, i);
      assert ByteAt(m, Flat(sp), Va(a, i)) == Some(s[i]);
    }
    assert SpaceBytes(m, sp, a).value == s;
  }

  lemma NoEntryBytes(m: Machine, sp: Space, a: nat, n: nat)
    requires Aligned52(a) && n < 8 && ByteAt(m, Flat(sp), Va(a, n)) == None
    ensures SpaceFetch(m, sp)(a) == None
  {
    hide ByteAt, SpaceFetch, SpaceBytes, Decode, LittleEndian;
    FetchIsEightBytes(m, sp, a, n);
  }

  /** The k-th entry of a table read as one page is the entry a walk would fetch. */
  lemma TableEntryInPage(m: Machine, sp: Space, frame: nat, k: nat, bytes: seq<Byte>)
    requires frame < 0x100_0000_0000 && k < 512 && |bytes| == PAGE
    requires forall i :: 0 <= i < PAGE ==> ByteAt(m, Flat(sp), Va(frame * PAGE, i)) == Some(bytes[i])
    ensures SpaceFetch(m, sp)(EntryLocation(frame, k)) == Some(Decode(LittleEndian(bytes[8 * k..8 * k + 8])))
  {
    hide ByteAt, SpaceFetch, Decode, Va, LittleEndian, EntryLocation, Aligned52;
    var a, s := EntryLocation(frame, k), bytes[8 * k..8 * k + 8];
    LocationBounded(frame, k);
    forall i | 0 <= i < 8 ensures ByteAt(m, Flat(sp), Va(a, i)) == Some(s[i]) {
      EntryVa(frame, k, i);
      assert s[i] == bytes[8 * k + i];
    }
    EntryFromBytes(m, sp, a, s);
  }

  lemma TableUnreadable(m: Machine, sp: Space, frame: nat, k: nat, n: nat)
    requires frame < 0x100_0000_0000 && k < 512 && n < PAGE
    requires ByteAt(m, Flat(sp), Va(frame * PAGE, n)) == None
    ensures SpaceFetch(m, sp)(EntryLocation(frame, k)) == None
  {
    hide ByteAt, SpaceFetch, SpaceBytes, Va;
    LocationBounded(frame, k);
    FrameVa(frame, n);
    FrameVa(frame, 8 * k);
    FetchIsEightBytes(m, sp, EntryLocation(frame, k), 0);
    ByteOfPage(m, Flat(sp), Va(frame * PAGE, n), EntryLocation(frame, k));
  }

  /** Addresses of one page are all readable or all unreadable. */
  lemma ByteOfPage(m: Machine, v: View, va: nat, wa: nat)
    requires va / PAGE == wa / PAGE
    ensures ByteAt(m, v, va).None? <==> ByteAt(m, v, wa).None?
  {
    hide HostAddress;
    HostAddressRounds(m, v, va, wa);
    if HostAddress(m, v, va).Some? {
      SamePage(HostAddress(m, v, va).value, HostAddress(m, v, wa).value, va, wa);
    }
  }

  // ---------------------------------------------------------------- stores

  /** A store to the byte that `va` reaches would be accepted. */
  ghost predicate Storable(m: Machine, writable: set<nat>, v: View, va: nat) {
    var p := HostAddress(m, v, va);
    p.Some? && p.value / PAGE in m.mem && p.value / PAGE in writable
  }

  lemma ChunkStorable(m: Machine, writable: set<nat>, v: View, start: nat, n: nat, len: nat, p: nat)
    requires HostAddress(m, v, Va(start, n)) == Some(p) && p % PAGE + len <= PAGE
    requires p / PAGE in m.mem && p / PAGE in writable
    ensures forall i :: n <= i < n + len ==> Storable(m, writable, v, Va(start, i))
  {
    hide HostAddress;
    forall i | n <= i < n + len ensures Storable(m, writable, v, Va(start, i)) {
      ChunkByte(m, v, start, n, 0);
      ChunkByte(m, v, start, n, i - n);
    }
  }

  /** driver_write inside one frame. */
  function StoreBytes(mem: PhysMem, p: nat, data: seq<Byte>): PhysMem
    requires p / PAGE in mem && p % PAGE + |data| <= PAGE
  {
    var page, o := mem[p / PAGE], p % PAGE;
    mem[p / PAGE := page[..o] + data + page[o + |data|..]]
  }

  lemma StoredByte(mem: PhysMem, p: nat, data: seq<Byte>, b: nat)
    requires p / PAGE in mem && p % PAGE + |data| <= PAGE
    ensures PhysByte(StoreBytes(mem, p, data), b) ==
            if p <= b < p + |data| then Some(data[b - p]) else PhysByte(mem, b)
  {
    if p <= b < p + |data| {
      OffsetInRange(p, b - p);
    } else if b / PAGE == p / PAGE {
      assert b - b % PAGE == p - p % PAGE;
    }
  }

  /** No later address of the first `n` of the range reaches the byte that the i-th reaches. */
  ghost predicate LastTo(m: Machine, v: View, start: nat, n: nat, i: nat) {
    forall j :: i < j < n ==> HostAddress(m, v, Va(start, j)) != HostAddress(m, v, Va(start, i))
  }

  /** Physical addresses of a range are distinct unless it wraps around onto itself. */
  lemma PhysicalInjective(m: Machine, start: nat, n: nat, i: nat)
    requires i < n <= WORD64
    ensures LastTo(m, Flat(Physical), start, n, i)
  {
    forall j | i < j < n
      ensures HostAddress(m, Flat(Physical), Va(start, j)) != HostAddress(m, Flat(Physical), Va(start, i))
    {
      var d := (start + j) / WORD64 - (start + i) / WORD64;
      assert Va(start, j) - Va(start, i) == (j - i) - d * WORD64;
    }
  }

  /** `mem` is `m.mem` after the first `n` bytes of `data` went to where the range translates:
      nothing else changed, and the last store to a byte is the one that shows. */
  ghost predicate Stored(m: Machine, mem: PhysMem, v: View, start: nat, data: seq<Byte>, n: nat)
    requires n <= |data|
  {
    && mem.Keys == m.mem.Keys
    && (forall b: nat :: PhysByte(mem, b) != PhysByte(m.mem, b) ==>
          exists i :: 0 <= i < n && HostAddress(m, v, Va(start, i)) == Some(b))
    && (forall i :: 0 <= i < n ==> HostAddress(m, v, Va(start, i)).Some?)
    && (forall i :: 0 <= i < n && LastTo(m, v, start, n, i) ==>
          PhysByte(mem, HostAddress(m, v, Va(start, i)).value) == Some(data[i]))
  }

  lemma StoredNothing(m: Machine, v: View, start: nat, data: seq<Byte>)
    ensures Stored(m, m.mem, v, start, data, 0)
  {
  }

  /** No address of the range reaches a byte in `tables`. */
  ghost predicate KeepsClear(m: Machine, tables: iset<nat>, v: View, start: nat, n: nat) {
    forall i :: 0 <= i < n && HostAddress(m, v, Va(start, i)).Some? ==>
      HostAddress(m, v, Va(start, i)).value !in tables
  }

  /** Physical addresses need no translation; others keep theirs when no table byte changed. */
  lemma SameTranslation(m: Machine, m': Machine, tables: iset<nat>, v: View, va: nat)
    requires v != Flat(Physical) ==> AgreeOn(m.mem, m'.mem, tables) && m.transitionPages == m'.transitionPages
    requires Covered(m, tables, v, va)
    ensures Covered(m', tables, v, va)
    ensures HostAddress(m, v, va) == HostAddress(m', v, va)
  {
    if v != Flat(Physical) {
      hide Covered, HostAddress;
      TranslationUnchanged(m, m', tables, v, va);
    }
  }

  lemma StoredAgrees(m: Machine, mem: PhysMem, tables: iset<nat>, v: View, start: nat, data: seq<Byte>, n: nat)
    requires n <= |data| && Stored(m, mem, v, start, data, n) && KeepsClear(m, tables, v, start, |data|)
    ensures AgreeOn(m.mem, mem, tables)
  {
    hide HostAddress, PhysByte, Va;
  }

  lemma AgreeAgain(mem0: PhysMem, mem1: PhysMem, mem2: PhysMem, tables: iset<nat>)
    requires AgreeOn(mem0, mem1, tables) && AgreeOn(mem0, mem2, tables)
    ensures AgreeOn(mem1, mem2, tables)
  {
    hide PhysByte;
    forall b: nat | b in tables ensures PhysByte(mem1, b) == PhysByte(mem2, b) {
      assert PhysByte(mem0, b) == PhysByte(mem1, b);
    }
  }

  lemma NotOverwritten(m: Machine, v: View, start: nat, n: nat, len: nat, p: nat, i: nat)
    requires i < n && LastTo(m, v, start, n + len, i) && HostAddress(m, v, Va(start, i)).Some?
    requires forall j :: n <= j < n + len ==> HostAddress(m, v, Va(start, j)) == Some(p + (j - n))
    ensures LastTo(m, v, start, n, i)
    ensures !(p <= HostAddress(m, v, Va(start, i)).value < p + len)
  {
    hide HostAddress, Va;
    var b := HostAddress(m, v, Va(start, i)).value;
    var j: nat := if p <= b < p + len then n + (b - p) else i; // the store that would hide b
    assert i < j < n + len ==> HostAddress(m, v, Va(start, j)) != HostAddress(m, v, Va(start, i));
  }

  lemma StoredEarlier(m: Machine, mem: PhysMem, v: View, start: nat, data: seq<Byte>, n: nat, i: nat)
    requires i < n <= |data| && Stored(m, mem, v, start, data, n)
    ensures HostAddress(m, v, Va(start, i)).Some?
    ensures LastTo(m, v, start, n, i) ==> PhysByte(mem, HostAddress(m, v, Va(start, i)).value) == Some(data[i])
  {
    hide HostAddress, PhysByte, Va, LastTo;
  }

  lemma StoredLast(m: Machine, mem: PhysMem, mem': PhysMem, v: View, start: nat, data: seq<Byte>,
                   n: nat, len: nat, p: nat, i: nat)
    requires n + len <= |data| && Stored(m, mem, v, start, data, n)
    requires forall b: nat :: PhysByte(mem', b) ==
               if p <= b < p + len then Some(data[n + (b - p)]) else PhysByte(mem, b)
    requires forall j :: n <= j < n + len ==> HostAddress(m, v, Va(start, j)) == Some(p + (j - n))
    requires i < n + len && LastTo(m, v, start, n + len, i)
    ensures PhysByte(mem', HostAddress(m, v, Va(start, i)).value) == Some(data[i])
  {
    hide HostAddress, PhysByte, Va, LastTo, Stored;
    if i < n {
      StoredEarlier(m, mem, v, start, data, n, i);
      NotOverwritten(m, v, start, n, len, p, i);
    } else {
      assert HostAddress(m, v, Va(start, i)) == Some(p + (i - n));
    }
  }

  lemma StoredStep(m: Machine, mem: PhysMem, mem': PhysMem, v: View, start: nat, data: seq<Byte>,
                   n: nat, len: nat, p: nat)
    requires n + len <= |data| && Stored(m, mem, v, start, data, n)
    requires mem.Keys == mem'.Keys
    requires forall b: nat :: PhysByte(mem', b) ==
               if p <= b < p + len then Some(data[n + (b - p)]) else PhysByte(mem, b)
    requires forall i :: n <= i < n + len ==> HostAddress(m, v, Va(start, i)) == Some(p + (i - n))
    ensures Stored(m, mem', v, start, data, n + len)
  {
    hide HostAddress, PhysByte, Va;
    forall b: nat | PhysByte(mem', b) != PhysByte(m.mem, b)
      ensures exists i :: 0 <= i < n + len && HostAddress(m, v, Va(start, i)) == Some(b)
    {
      if p <= b < p + len {
        assert HostAddress(m, v, Va(start, n + (b - p))) == Some(b);
      } else {
        var i :| 0 <= i < n && HostAddress(m, v, Va(start, i)) == Some(b);
      }
    }
    forall i | 0 <= i < n + len && LastTo(m, v, start, n + len, i)
      ensures PhysByte(mem', HostAddress(m, v, Va(start, i)).value) == Some(data[i])
    {
      StoredLast(m, mem, mem', v, start, data, n, len, p, i);
    }
  }

  lemma StoredChunk(m: Machine, mem: PhysMem, v: View, start: nat, data: seq<Byte>, n: nat, len: nat, p: nat)
    requires n + len <= |data| && Stored(m, mem, v, start, data, n)
    requires p / PAGE in mem && p % PAGE + len <= PAGE
    requires forall i :: n <= i < n + len ==> HostAddress(m, v, Va(start, i)) == Some(p + (i - n))
    ensures StoreBytes(mem, p, data[n..n + len]).Keys == mem.Keys
    ensures Stored(m, StoreBytes(mem, p, data[n..n + len]), v, start, data, n + len)
  {
    hide HostAddress, Va, Stored, PhysByte;
    var mem' := StoreBytes(mem, p, data[n..n + len]);
    forall b: nat
      ensures PhysByte(mem', b) == if p <= b < p + len then Some(data[n + (b - p)]) else PhysByte(mem, b)
    {
      StoredByte(mem, p, data[n..n + len], b);
    }
    StoredStep(m, mem, mem', v, start, data, n, len, p);
  }

  lemma StoredShows(m: Machine, m': Machine, v: View, start: nat, data: seq<Byte>, i: nat)
    requires i < |data| && Stored(m, m'.mem, v, start, data, |data|) && LastTo(m, v, start, |data|, i)
    requires HostAddress(m, v, Va(start, i)) == HostAddress(m', v, Va(start, i))
    ensures ByteAt(m', v, Va(start, i)) == Some(data[i])
  {
    hide HostAddress, PhysByte, Va, LastTo;
  }

  lemma NotStorable(m: Machine, writable: set<nat>, v: View, va: nat)
    requires HostAddress(m, v, va).Some? ==>
               HostAddress(m, v, va).value / PAGE !in m.mem || HostAddress(m, v, va).value / PAGE !in writable
    ensures !Storable(m, writable, v, va)
  {
  }

  /** How deep the calls below an access through `v` nest. */
  function ReadRank(v: View): nat {
    match v
    case Flat(sp) => if sp.Physical? then 0 else 3
    case Paged(sp, _) => if sp.Physical? then 3 else 6
  }

  class Instance {
    var mem: PhysMem
    var v2pCache: V2pCache
    const transitionPages: bool
    const safetyChecks: bool
    const writable: set<nat>

    ghost function M(): Machine
      reads this`mem
    {
      Machine(mem, transitionPages)
    }

    ghost predicate Sound(tables: iset<nat>)
      reads this`mem, this`v2pCache
    {
      CacheSound(M(), tables, v2pCache)
    }

    constructor (mem: PhysMem, transitionPages: bool, safetyChecks: bool, writable: set<nat>)
      ensures this.mem == mem && v2pCache == map[]
      ensures this.transitionPages == transitionPages && this.safetyChecks == safetyChecks
      ensures this.writable == writable
    {
      this.mem, v2pCache := mem, map[];
      this.transitionPages, this.safetyChecks, this.writable := transitionPages, safetyChecks, writable;
    }

    /** vmi_read. The bytes delivered are those of the translated addresses; a failure stops at
        the start of the first page that does not translate or cannot be mapped. */
    method Read(v: View, start: nat, count: nat, buf: array<Byte>, ghost tables: iset<nat>)
      returns (ok: bool, bytesRead: nat)
      requires count <= buf.Length
      requires v != Flat(Physical) ==> Sound(tables)
      requires forall i :: 0 <= i < count ==> Covered(M(), tables, v, Va(start, i))
      modifies this`v2pCache, buf
      ensures v != Flat(Physical) ==> Sound(tables)
      ensures bytesRead <= count && (ok <==> bytesRead == count)
      ensures forall i :: 0 <= i < bytesRead ==> ByteAt(M(), v, Va(start, i)) == Some(buf[i])
      ensures forall i :: bytesRead <= i < buf.Length ==> buf[i] == old(buf[i])
      ensures !ok ==> ByteAt(M(), v, Va(start, bytesRead)) == None && PageBoundary(start, bytesRead)
      ensures v == Flat(Physical) ==> v2pCache == old(v2pCache)
      decreases ReadRank(v), 1
    {
      hide HostAddress, ByteAt, Covered, CacheSound, Va, PageBoundary;
      StartsAtBoundary(start);
      var left: nat := count;
      bytesRead := 0;
      while left > 0
        invariant left + bytesRead == count
        invariant v != Flat(Physical) ==> Sound(tables)
        invariant forall i :: 0 <= i < bytesRead ==> ByteAt(M(), v, Va(start, i)) == Some(buf[i])
        invariant forall i :: bytesRead <= i < buf.Length ==> buf[i] == old(buf[i])
        invariant left == 0 || PageBoundary(start, bytesRead)
        invariant v == Flat(Physical) ==> v2pCache == old(v2pCache)
      {
        var found, p := Locate(v, Va(start, bytesRead), tables);
        if !found {
          NoByte(M(), v, Va(start, bytesRead));
          return false, bytesRead;
        }
        var pfn, offset := p / PAGE, p % PAGE;
        if pfn !in mem {
          NoByte(M(), v, Va(start, bytesRead));
          return false, bytesRead;
        }
        var len := if offset + left > PAGE then PAGE - offset else left;
        forall i | bytesRead <= i < bytesRead + len {
          buf[i] := mem[pfn][offset + (i - bytesRead)];
        }
        Chunk(M(), v, start, bytesRead, len, p);
        left := left - len;
        bytesRead := bytesRead + len;
      }
      return true, bytesRead;
    }

    /** vmi_read on an instance with any sound cache: it succeeds exactly when every address of the
        range reaches a readable byte, and delivers those bytes. */
    method ReadRange(v: View, start: nat, count: nat, buf: array<Byte>) returns (ok: bool, bytesRead: nat)
      requires count <= buf.Length && Sound(AllBytes())
      modifies this`v2pCache, buf
      ensures Sound(AllBytes())
      ensures ok <==> forall i :: 0 <= i < count ==> ByteAt(M(), v, Va(start, i)).Some?
      ensures forall i :: 0 <= i < bytesRead <= count ==> ByteAt(M(), v, Va(start, i)) == Some(buf[i])
      ensures bytesRead <= count && (ok ==> bytesRead == count)
      ensures forall i :: bytesRead <= i < buf.Length ==> buf[i] == old(buf[i])
    {
      hide ByteAt, Covered, CacheSound, Va, PageBoundary, AllBytes;
      forall i | 0 <= i < count ensures Covered(M(), AllBytes(), v, Va(start, i)) {
        CoveredByAll(M(), v, Va(start, i));
      }
      ok, bytesRead := Read(v, start, count, buf, AllBytes());
    }

    /** The translation step that vmi_read and vmi_write share. */
    method Locate(v: View, addr: nat, ghost tables: iset<nat>) returns (found: bool, p: nat)
      requires Covered(M(), tables, v, addr) && (v != Flat(Physical) ==> Sound(tables))
      modifies this`v2pCache
      ensures v != Flat(Physical) ==> Sound(tables)
      ensures found <==> HostAddress(M(), v, addr).Some?
      ensures found ==> HostAddress(M(), v, addr) == Some(p)
      ensures v == Flat(Physical) ==> v2pCache == old(v2pCache)
      decreases ReadRank(v), 0
    {
      match v
      case Paged(sp, pt) =>
        var ok, paddr, naddr := NestedLookup(sp, pt, addr, tables);
        return ok, if sp.Nested? then naddr else paddr;
      case Flat(sp) =>
        if sp.Physical? {
          return true, addr;
        }
        CoveredFlat(M(), tables, sp.npt, addr);
        var ok, paddr, _ := NestedLookup(Physical, sp.npt, addr, tables);
        return ok, paddr;
    }

    /** vmi_read_64 of a table entry. */
    method ReadTableEntry(sp: Space, a: nat, ghost tables: iset<nat>) returns (e: Option<Entry>)
      requires Sound(tables) && EntryCovered(M(), tables, sp, a) && Aligned52(a)
      modifies this`v2pCache
      ensures Sound(tables)
      ensures e == SpaceFetch(M(), sp)(a)
      ensures sp.Physical? ==> v2pCache == old(v2pCache)
      decreases ReadRank(Flat(sp)), 2
    {
      var b := new Byte[8];
      hide ByteAt, Va, SpaceFetch, Covered, CacheSound, EntryCovered, Decode, LittleEndian, PageBoundary, Aligned52;
      EntryBytesReachable(M(), tables, sp, a);
      var ok, n := Read(Flat(sp), a, 8, b, tables);
      if !ok {
        NoEntryBytes(M(), sp, a, n);
        return None;
      }
      var s := b[..];
      EntryFromBytes(M(), sp, a, s);
      return Some(Decode(LittleEndian(s)));
    }

    /** v2p_ia32e: the descent, then, with nested tables, the translation of what it found. */
    method V2p(sp: Space, pt: nat, va: nat, ghost tables: iset<nat>)
      returns (ok: bool, paddr: nat, naddr: nat)
      requires Sound(tables) && Covered(M(), tables, Paged(sp, pt), va)
      modifies this`v2pCache
      ensures Sound(tables)
      ensures ok <==> Resolve(M(), sp, pt, va).Some?
      ensures ok ==> && SpaceWalk(M(), sp, pt, va).Some? && SpaceWalk(M(), sp, pt, va).value.paddr == paddr
                     && Resolve(M(), sp, pt, va) == Some(if sp.Physical? then paddr else naddr)
      ensures sp.Physical? ==> v2pCache == old(v2pCache)
      decreases if sp.Physical? then 1 else 4
    {
      hide CacheSound, CacheGet, DescentOf, EntryCovered, PhysFetch, NestedFetch, PhysCovered;
      paddr, naddr := 0, 0;
      var leaf := DescendTables(sp, pt, va, tables);
      if !leaf.Maps? {
        return false, paddr, naddr;
      }
      paddr := Place(leaf, va).value.paddr;
      if sp.Physical? {
        return true, paddr, naddr;
      }
      CoveredFlat(M(), tables, sp.npt, paddr);
      var found, q, _ := NestedLookup(Physical, sp.npt, paddr, tables);
      return found, paddr, q;
    }

    /** The four table reads of v2p_ia32e. */
    method DescendTables(sp: Space, pt: nat, va: nat, ghost tables: iset<nat>) returns (leaf: Leaf)
      requires Sound(tables) && Covered(M(), tables, Paged(sp, pt), va)
      modifies this`v2pCache
      ensures Sound(tables)
      ensures leaf == DescentOf(SpaceFetch(M(), sp), transitionPages, transitionPages, pt, va).leaf
      ensures sp.Physical? ==> v2pCache == old(v2pCache)
      decreases if sp.Physical? then 1 else 4, 0
    {
      hide SpaceFetch, EntryLocation, IndicesOf, FrameOf, CacheSound, EntryCovered, SpaceWalk, SpaceCovered, Aligned52;
      ghost var d := DescentOf(SpaceFetch(M(), sp), transitionPages, transitionPages, pt, va);
      SpaceWalkBounded(M(), sp, pt, va);
      var ix := IndicesOf(va);
      var a := EntryLocation(FrameOf(pt), ix.pml4);
      assert a in d.locations;
      var e := ReadTableEntry(sp, a, tables);
      if e.None? { return Unreadable; }
      if !Present(transitionPages, e.value) { return NotPresent; }

      a := EntryLocation(e.value.frame, ix.pdpt);
      assert a in d.locations;
      e := ReadTableEntry(sp, a, tables);
      if e.None? { return Unreadable; }
      if !Present(transitionPages, e.value) { return NotPresent; }
      if e.value.large { return Maps(e.value.frame, SIZE_1GB); }

      a := EntryLocation(e.value.frame, ix.pd);
      assert a in d.locations;
      e := ReadTableEntry(sp, a, tables);
      if e.None? { return Unreadable; }
      if !Present(transitionPages, e.value) { return NotPresent; }
      if e.value.large { return Maps(e.value.frame, SIZE_2MB); }

      a := EntryLocation(e.value.frame, ix.pt);
      assert a in d.locations;
      e := ReadTableEntry(sp, a, tables);
      if e.None? { return Unreadable; }
      if !Present(transitionPages, e.value) { return NotPresent; }
      return Maps(e.value.frame, SIZE_4KB);
    }

    /** vmi_read_8_pa, used to see whether a cached address can still be read. */
    method ProbePage(pa: nat, ghost tables: iset<nat>) returns (readable: bool)
      requires Sound(tables)
      modifies this`v2pCache
      ensures Sound(tables)
      ensures readable <==> Va(pa, 0) / PAGE in mem
      ensures v2pCache == old(v2pCache)
      decreases 0, 2
    {
      var one := new Byte[1];
      var ok, _ := Read(Flat(Physical), pa, 1, one, tables);
      assert ok ==> ByteAt(M(), Flat(Physical), Va(pa, 0)) == Some(one[0]);
      return ok;
    }

    /** vmi_nested_pagetable_lookup: through the cache, the hit being tried by reading a byte.
        On a nested hit the guest-physical address is not known and is reported as all ones. */
    method NestedLookup(sp: Space, pt: nat, va: nat, ghost tables: iset<nat>)
      returns (ok: bool, paddr: nat, naddr: nat)
      requires Sound(tables) && Covered(M(), tables, Paged(sp, pt), va)
      modifies this`v2pCache
      ensures Sound(tables)
      ensures ok <==> Resolve(M(), sp, pt, va).Some?
      ensures ok ==> Resolve(M(), sp, pt, va) == Some(if sp.Physical? then paddr else naddr)
      ensures ok && sp.Nested? ==>
                var hit := CacheGet(old(v2pCache), KeyOf(sp, pt), va);
                if hit.Some? && Va(hit.value, 0) / PAGE in mem then paddr == 0xFFFF_FFFF_FFFF_FFFF
                else SpaceWalk(M(), sp, pt, va).Some? && paddr == SpaceWalk(M(), sp, pt, va).value.paddr
      ensures var pa := if sp.Physical? then paddr else naddr;
              ok && Cacheable(safetyChecks, KeyOf(sp, pt), va, pa) ==>
                CacheGet(v2pCache, KeyOf(sp, pt), va) == Some(pa)
      decreases if sp.Physical? then 2 else 5
    {
      hide Resolve, SpaceWalk, Covered, CacheSound, CacheGet, CacheSet;
      ResolveRounds(M(), sp, pt, va, va);
      var key := KeyOf(sp, pt);
      var hit := CacheGet(v2pCache, key, va);
      if hit.Some? {
        HitIsResolution(M(), tables, v2pCache, key, va);
        var readable := ProbePage(hit.value, tables);
        if readable {
          if sp.Nested? {
            return true, WORD64 - 1, hit.value;
          }
          return true, hit.value, 0;
        }
      }
      ok, paddr, naddr := V2p(sp, pt, va, tables);
      if ok {
        var pa := if sp.Physical? then paddr else naddr;
        SetKeepsSound(M(), tables, v2pCache, safetyChecks, key, va, pa);
        GetAfterSet(v2pCache, safetyChecks, key, va, pa);
        v2pCache := CacheSet(v2pCache, safetyChecks, key, va, pa);
      }
    }

    /** vmi_pagetable_lookup_cache: as above without nesting, dropping an entry whose page has
        become unreadable. */
    method LookupCache(pt: nat, va: nat, ghost tables: iset<nat>) returns (ok: bool, paddr: nat)
      requires Sound(tables) && Covered(M(), tables, Paged(Physical, pt), va)
      modifies this`v2pCache
      ensures Sound(tables)
      ensures ok <==> Resolve(M(), Physical, pt, va).Some?
      ensures ok ==> Resolve(M(), Physical, pt, va) == Some(paddr)
      ensures ok && Cacheable(safetyChecks, KeyOf(Physical, pt), va, paddr) ==>
                CacheGet(v2pCache, KeyOf(Physical, pt), va) == Some(paddr)
      ensures forall k, a: nat :: k != KeyOf(Physical, pt) || PageOf(a) != PageOf(va) ==>
                CacheGet(v2pCache, k, a) == CacheGet(old(v2pCache), k, a)
    {
      hide Resolve, Covered, CacheSound, CacheGet, CacheSet, CacheDel;
      ResolveRounds(M(), Physical, pt, va, va);
      paddr := 0;
      var key := KeyOf(Physical, pt);
      var hit := CacheGet(v2pCache, key, va);
      if hit.Some? {
        HitIsResolution(M(), tables, v2pCache, key, va);
        paddr := hit.value;
        var readable := ProbePage(paddr, tables);
        if readable {
          return true, paddr;
        }
        DelKeepsSound(M(), tables, v2pCache, key, va);
        GetAfterDel(v2pCache, key, va);
        v2pCache := CacheDel(v2pCache, key, va);
      }
      var found, p, _ := V2p(Physical, pt, va, tables);
      ok := found;
      if ok {
        paddr := p;
        SetKeepsSound(M(), tables, v2pCache, safetyChecks, key, va, paddr);
        GetAfterSet(v2pCache, safetyChecks, key, va, paddr);
        v2pCache := CacheSet(v2pCache, safetyChecks, key, va, paddr);
      }
    }

    /** vmi_read of a whole table: its 512 entries, or failure when no entry of it can be read. */
    method ReadTable(sp: Space, frame: nat) returns (ok: bool, entries: seq<Entry>)
      requires Sound(AllBytes()) && frame < 0x100_0000_0000
      modifies this`v2pCache
      ensures Sound(AllBytes())
      ensures ok ==> |entries| == 512 && forall k :: 0 <= k < 512 ==> entries[k].frame < 0x100_0000_0000
      ensures forall k :: 0 <= k < 512 ==>
                SpaceFetch(M(), sp)(EntryLocation(frame, k)) == if ok then Some(entries[k]) else None
    {
      hide ByteAt, Covered, CacheSound, SpaceFetch, Decode, LittleEndian, Va, PageBoundary;
      forall i | 0 <= i < PAGE ensures Covered(M(), AllBytes(), Flat(sp), Va(frame * PAGE, i)) {
        CoveredByAll(M(), Flat(sp), Va(frame * PAGE, i));
      }
      var buf := new Byte[PAGE];
      var n;
      ok, n := Read(Flat(sp), frame * PAGE, PAGE, buf, AllBytes());
      var bytes := buf[..];
      forall k | 0 <= k < 512
        ensures SpaceFetch(M(), sp)(EntryLocation(frame, k)) ==
                if ok then Some(Decode(LittleEndian(bytes[8 * k..8 * k + 8]))) else None
      {
        if ok {
          TableEntryInPage(M(), sp, frame, k, bytes);
        } else {
          TableUnreadable(M(), sp, frame, k, n);
        }
      }
      entries := seq(512, k requires 0 <= k < 512 => Decode(LittleEndian(bytes[8 * k..8 * k + 8])));
      forall k | 0 <= k < 512 ensures entries[k].frame < 0x100_0000_0000 {
        DecodeBounded(LittleEndian(bytes[8 * k..8 * k + 8]));
      }
    }

    /** driver_write to one frame: refused, without effect, when the frame cannot be mapped
        for writing. */
    method DriverWrite(p: nat, data: seq<Byte>) returns (ok: bool)
      requires p % PAGE + |data| <= PAGE
      modifies this`mem
      ensures ok <==> p / PAGE in old(mem) && p / PAGE in writable
      ensures mem == if ok then StoreBytes(old(mem), p, data) else old(mem)
    {
      ok := p / PAGE in mem && p / PAGE in writable;
      if ok {
        mem := StoreBytes(mem, p, data);
      }
    }

    /** vmi_write: to physical addresses without condition, and through a translation to a range
        that holds none of the table bytes that translation depends on. */
    method Write(v: View, start: nat, data: seq<Byte>, ghost tables: iset<nat>)
      returns (ok: bool, written: nat)
      requires v != Flat(Physical) ==> Sound(tables)
      requires forall i :: 0 <= i < |data| ==> Covered(M(), tables, v, Va(start, i))
      requires v != Flat(Physical) ==> KeepsClear(M(), tables, v, start, |data|)
      modifies this`mem, this`v2pCache
      ensures v != Flat(Physical) ==> Sound(tables) && AgreeOn(old(mem), mem, tables)
      ensures v == Flat(Physical) ==> v2pCache == old(v2pCache)
      ensures written <= |data| && (ok <==> written == |data|)
      ensures Stored(old(M()), mem, v, start, data, written)
      ensures forall i :: 0 <= i < written ==> Storable(old(M()), writable, v, Va(start, i))
      ensures !ok ==> !Storable(old(M()), writable, v, Va(start, written)) && PageBoundary(start, written)
    {
      hide HostAddress, Covered, CacheSound, Stored, StoreBytes, Va, PageBoundary, Storable, AgreeOn, PhysByte,
           ByteAt, KeepsClear;
      ghost var m0 := M();
      var left: nat := |data|;
      written := 0;
      StartsAtBoundary(start);
      StoredNothing(m0, v, start, data);
      if v != Flat(Physical) {
        StoredAgrees(m0, mem, tables, v, start, data, 0);
      }
      while left > 0
        invariant left + written == |data|
        invariant v != Flat(Physical) ==> Sound(tables) && AgreeOn(m0.mem, mem, tables)
        invariant v == Flat(Physical) ==> v2pCache == old(v2pCache)
        invariant Stored(m0, mem, v, start, data, written) && mem.Keys == m0.mem.Keys
        invariant forall i :: 0 <= i < written ==> Storable(old(M()), writable, v, Va(start, i))
        invariant left == 0 || PageBoundary(start, written)
      {
        ghost var before := M();
        SameTranslation(m0, before, tables, v, Va(start, written));
        var found, p := Locate(v, Va(start, written), tables);
        if !found {
          NotStorable(m0, writable, v, Va(start, written));
          return false, written;
        }
        var offset := p % PAGE;
        var len := if offset + left > PAGE then PAGE - offset else left;
        var stored := DriverWrite(p, data[written..written + len]);
        if !stored {
          NotStorable(m0, writable, v, Va(start, written));
          return false, written;
        }
        Chunk(m0, v, start, written, len, p);
        ChunkStorable(m0, writable, v, start, written, len, p);
        StoredChunk(m0, before.mem, v, start, data, written, len, p);
        if v != Flat(Physical) {
          StoredAgrees(m0, mem, tables, v, start, data, written + len);
          AgreeAgain(m0.mem, before.mem, mem, tables);
          SoundUnchanged(before, M(), tables, v2pCache);
        }
        left := left - len;
        written := written + len;
      }
      return true, written;
    }

    /** What was written is what a read of the same range returns, when the range translates
        injectively. */
    method WriteThenRead(v: View, start: nat, data: seq<Byte>, ghost tables: iset<nat>)
      returns (ok: bool, readBack: seq<Byte>)
      requires v != Flat(Physical) ==> Sound(tables)
      requires forall i :: 0 <= i < |data| ==> Covered(M(), tables, v, Va(start, i))
      requires v != Flat(Physical) ==> KeepsClear(M(), tables, v, start, |data|)
      requires forall i :: 0 <= i < |data| ==> LastTo(M(), v, start, |data|, i)
      modifies this`mem, this`v2pCache
      ensures ok ==> readBack == data
      ensures ok <==> forall i :: 0 <= i < |data| ==> Storable(old(M()), writable, v, Va(start, i))
    {
      hide ByteAt, Covered, HostAddress, CacheSound, Stored, LastTo, Va, PageBoundary, AgreeOn, Storable, KeepsClear;
      ghost var m0 := M();
      var stored, n := Write(v, start, data, tables);
      if !stored {
        return false, [];
      }
      forall i | 0 <= i < |data|
        ensures Covered(M(), tables, v, Va(start, i))
        ensures ByteAt(M(), v, Va(start, i)) == Some(data[i])
      {
        SameTranslation(m0, M(), tables, v, Va(start, i));
        StoredShows(m0, M(), v, start, data, i);
      }
      var buf := new Byte[|data|];
      var _, got := Read(v, start, |data|, buf, tables);
      assert got == |data|;
      forall i | 0 <= i < |data| ensures buf[i] == data[i] {
        assert ByteAt(M(), v, Va(start, i)) == Some(buf[i]);
      }
      assert buf[..] == data;
      return true, buf[..];
    }
  }

  // ---------------------------------------------------------------- writes into live tables

  /** After any change of memory a sound cache is still sound exactly when the fresh walk of every
      cached page ends where it did before. */
  lemma SoundAfterChange(m: Machine, m': Machine, cache: V2pCache)
    requires CacheSound(m, AllBytes(), cache)
    ensures CacheSound(m', AllBytes(), cache) <==>
            forall key, page :: key in cache && page in cache[key] && cache[key][page] != 0 ==>
              Resolve(m', SpaceOf(key), key.0, page) == Resolve(m, SpaceOf(key), key.0, page)
  {
    hide Resolve, Covered, AllBytes;
    forall key, page | key in cache && page in cache[key] && cache[key][page] != 0
      ensures EntrySound(m', AllBytes(), key, page, cache[key][page]) <==>
              Resolve(m', SpaceOf(key), key.0, page) == Resolve(m, SpaceOf(key), key.0, page)
    {
      assert EntrySound(m, AllBytes(), key, page, cache[key][page]);
      CoveredByAll(m', Paged(SpaceOf(key), key.0), page);
    }
  }

  /** A change after which every entry on the path of every cached page still decodes to the same
      leaves the cache sound: a table may be written, as long as only bits that translation ignores
      change. */
  lemma SoundIfEntriesKept(m: Machine, m': Machine, cache: V2pCache)
    requires CacheSound(m, AllBytes(), cache) && m.transitionPages == m'.transitionPages
    requires forall key, page :: key in cache && page in cache[key] && cache[key][page] != 0 ==>
               PathKept(m, m', SpaceOf(key), key.0, page)
    ensures CacheSound(m', AllBytes(), cache)
  {
    hide Resolve, PathKept, CacheSound, AllBytes;
    forall key, page | key in cache && page in cache[key] && cache[key][page] != 0
      ensures Resolve(m', SpaceOf(key), key.0, page) == Resolve(m, SpaceOf(key), key.0, page)
    {
      PathKeptResolves(m, m', SpaceOf(key), key.0, page);
    }
    SoundAfterChange(m, m', cache);
  }

  /** What an entry's low byte decides: only its bits 0 and 7. */
  lemma DecodeLowByte(low: Byte, rest: nat)
    ensures Decode(low as int + 256 * rest) ==
            Entry(low % 2 == 1, low / 128 == 1, Bit(rest, 4), Bit(rest, 8), rest / 16 % 0x100_0000_0000)
  {
    hide FrameOf;
    var word: nat := low as int + 256 * rest;
    DivUnique(rest, 256, low);
    assert word / 1024 == rest / 4 && word / 2048 == rest / 8;
    FrameOfRest(word, rest);
    FlagAt(word, 1, low as int / 2 + 128 * rest, low % 2 == 1, 0);
    FlagAt(word, 128, rest, low / 128 == 1, low as int % 128);
  }

  lemma FrameOfRest(word: nat, rest: nat)
    requires word / 256 == rest
    ensures FrameOf(word) == rest / 16 % 0x100_0000_0000
  {
  }

  lemma LowByteIgnored(s: seq<Byte>, s': seq<Byte>)
    requires |s| == |s'| == 8 && s[1..] == s'[1..]
    requires s[0] % 2 == s'[0] % 2 && s[0] / 128 == s'[0] / 128
    ensures Decode(LittleEndian(s)) == Decode(LittleEndian(s'))
  {
    hide Decode;
    DecodeLowByte(s[0], LittleEndian(s[1..]));
    DecodeLowByte(s'[0], LittleEndian(s'[1..]));
  }

  lemma AlignedApart(a: nat, p: nat, k: nat)
    requires a % 8 == 0 && p % 8 == 0 && a != p && k < 8
    ensures a + k != p
  {
  }

  /** Storing `b` over the low byte of the entry at `p` leaves every entry's meaning when bits 0 and
      7 stay: the other bits, among them accessed and dirty, are not looked at. */
  lemma LowByteStored(m: Machine, m': Machine, p: nat, b: Byte, a: nat)
    requires p / PAGE in m.mem && p % PAGE + 1 <= PAGE && p % 8 == 0 && a % 8 == 0
    requires m'.mem == StoreBytes(m.mem, p, [b])
    requires m.mem[p / PAGE][p % PAGE] % 2 == b % 2 && m.mem[p / PAGE][p % PAGE] / 128 == b / 128
    ensures SameEntry(m, m', a)
  {
    hide Decode, LittleEndian;
    SameWordPage(a, 0);
    if a / PAGE in m.mem {
      var s, s' := EntryBytes(m.mem, a).value, EntryBytes(m'.mem, a).value;
      forall k | 0 <= k < 8 ensures s'[k] == if a + k == p then b else s[k] {
        SameWordPage(a, k);
        StoredByte(m.mem, p, [b], a + k);
      }
      if a == p {
        assert s[1..] == s'[1..];
        assert s[0] == m.mem[p / PAGE][p % PAGE] && s'[0] == b;
        LowByteIgnored(s, s');
      } else {
        forall k | 0 <= k < 8 ensures s'[k] == s[k] {
          AlignedApart(a, p, k);
        }
        assert s == s';
      }
    }
  }

  lemma AllEntriesKept(m: Machine, m': Machine, sp: Space, pt: nat, va: nat)
    requires forall a: nat :: a % 8 == 0 ==> SameEntry(m, m', a)
    ensures PathKept(m, m', sp, pt, va)
  {
    hide SameEntry, DescentOf, SpaceFetch, PhysFetch;
    var tp := m.transitionPages;
    SpaceWalkBounded(m, sp, pt, va);
    forall npt: nat, x: nat ensures PhysKept(m, m', npt, x) {
      SpaceWalkBounded(m, Physical, npt, x);
      PhysicalFetch(m);
    }
    forall a | a in DescentOf(SpaceFetch(m, sp), tp, tp, pt, va).locations ensures EntryKept(m, m', sp, a) {
      ToPhysicalRounds(m, sp, a, a);
      if ToPhysical(m, sp, a).Some? {
        AlignedInPage(ToPhysical(m, sp, a).value, a);
      }
    }
  }

  lemma PhysicalFetch(m: Machine)
    ensures SpaceFetch(m, Physical) == PhysFetch(m.mem)
  {
  }

  /** So a store that changes only such bits of a live entry keeps the cache sound. */
  lemma SoundAfterLowByte(m: Machine, m': Machine, p: nat, b: Byte, cache: V2pCache)
    requires CacheSound(m, AllBytes(), cache) && m.transitionPages == m'.transitionPages
    requires p / PAGE in m.mem && p % PAGE + 1 <= PAGE && p % 8 == 0
    requires m'.mem == StoreBytes(m.mem, p, [b])
    requires m.mem[p / PAGE][p % PAGE] % 2 == b % 2 && m.mem[p / PAGE][p % PAGE] / 128 == b / 128
    ensures CacheSound(m', AllBytes(), cache)
  {
    hide CacheSound, AllBytes, StoreBytes, SameEntry, PathKept;
    forall a: nat | a % 8 == 0 ensures SameEntry(m, m', a) {
      LowByteStored(m, m', p, b, a);
    }
    forall key, page | key in cache && page in cache[key] && cache[key][page] != 0
      ensures PathKept(m, m', SpaceOf(key), key.0, page)
    {
      AllEntriesKept(m, m', SpaceOf(key), key.0, page);
    }
    SoundIfEntriesKept(m, m', cache);
  }

  /** Frame 3 serves as all four tables: entry 0 leads back to it, entry 1 maps frame 5 as long as
      its present bit, in byte 8, is set. */
  function LiveTable(present: Byte): Page {
    seq(PAGE, i =>
      if i == 0 then 1 else if i == 1 then 0x30 else if i == 8 then present else if i == 9 then 0x50 else 0)
  }

  function LiveMemory(present: Byte): PhysMem {
    map[3 := LiveTable(present), 5 := seq(PAGE, _ => 0)]
  }

  lemma LiveBytes(present: Byte, k: nat)
    requires k < 2
    ensures LiveTable(present)[8 * k..8 * k + 8] ==
            [if k == 0 then 1 else present, if k == 0 then 0x30 else 0x50] + [0, 0, 0, 0, 0, 0]
  {
    var page := LiveTable(present);
    var s := page[8 * k..8 * k + 8];
    forall i | 0 <= i < 8 ensures s[i] == page[8 * k + i] {
    }
  }

  lemma LiveEntry(present: Byte, k: nat)
    requires k < 2 && present < 2
    ensures ReadEntry(LiveMemory(present), 0x3000 + 8 * k) ==
            Some(if k == 0 then Entry(true, false, false, false, 3) else Entry(present == 1, false, false, false, 5))
  {
    hide LiveTable, ReadEntry;
    LiveBytes(present, k);
    SmallEntry(LiveMemory(present), 3, 8 * k, if k == 0 then 1 else present, if k == 0 then 0x30 else 0x50);
  }

  lemma LiveWalk(present: Byte, tp: bool)
    requires present < 2
    ensures Resolve(Machine(LiveMemory(present), tp), Physical, 0x3000, 0x1000) ==
            if present == 1 then Some(0x5000) else None
  {
    hide LiveMemory, ReadEntry;
    LiveEntry(present, 0);
    LiveEntry(present, 1);
  }

  lemma LiveStore()
    ensures 3 in LiveMemory(1) && StoreBytes(LiveMemory(1), 0x3008, [0]) == LiveMemory(0)
  {
    var page := LiveTable(1);
    assert page[..8] + [0] + page[9..] == LiveTable(0);
  }

  /** A write of one byte into a live table leaves a translation in the cache that no walk gives
      any more. */
  lemma StaleAfterTableWrite(tp: bool)
    ensures 3 in LiveMemory(1)
    ensures var m := Machine(LiveMemory(1), tp);
            var m' := Machine(StoreBytes(LiveMemory(1), 0x3008, [0]), tp);
            var cache: V2pCache := map[(0x3000, 0) := map[0x1000 := 0x5000]];
            && CacheSound(m, AllBytes(), cache) && !CacheSound(m', AllBytes(), cache)
            && CacheGet(cache, (0x3000, 0), 0x1000) == Some(0x5000)
            && Resolve(m', Physical, 0x3000, 0x1000) == None
  {
    hide Resolve, Covered, AllBytes, LiveMemory, StoreBytes;
    LiveStore();
    LiveWalk(1, tp);
    LiveWalk(0, tp);
    var m := Machine(LiveMemory(1), tp);
    var m' := Machine(LiveMemory(0), tp);
    var cache: V2pCache := map[(0x3000, 0) := map[0x1000 := 0x5000]];
    CoveredByAll(m, Paged(Physical, 0x3000), 0x1000);
    assert EntrySound(m, AllBytes(), (0x3000, 0), 0x1000, 0x5000);
    assert !EntrySound(m', AllBytes(), (0x3000, 0), 0x1000, 0x5000);
    assert (0x3000, 0) in cache && 0x1000 in cache[(0x3000, 0)] && cache[(0x3000, 0)][0x1000] == 0x5000;
  }

  // ---------------------------------------------------------------- runs of lookups

  /** A translation request: through vmi_pagetable_lookup_cache, or vmi_nested_pagetable_lookup. */
  datatype Request = Plain(pt: nat, va: nat) | Staged(sp: Space, pt: nat, va: nat)

  ghost function FreshAnswer(m: Machine, r: Request): Option<nat> {
    match r
    case Plain(pt, va) => Resolve(m, Physical, pt, va)
    case Staged(sp, pt, va) => Resolve(m, sp, pt, va)
  }

  lemma EmptyIsSound(m: Machine, tables: iset<nat>)
    ensures CacheSound(m, tables, map[])
  {
  }

  method Answer(vmi: Instance, r: Request) returns (answer: Option<nat>)
    requires vmi.Sound(AllBytes())
    modifies vmi`v2pCache
    ensures vmi.Sound(AllBytes()) && answer == FreshAnswer(vmi.M(), r)
  {
    hide Resolve, Covered, CacheSound, AllBytes;
    match r
    case Plain(pt, va) =>
      CoveredByAll(vmi.M(), Paged(Physical, pt), va);
      var ok, paddr := vmi.LookupCache(pt, va, AllBytes());
      return if ok then Some(paddr) else None;
    case Staged(sp, pt, va) =>
      CoveredByAll(vmi.M(), Paged(sp, pt), va);
      var ok, paddr, naddr := vmi.NestedLookup(sp, pt, va, AllBytes());
      return if ok then Some(if sp.Physical? then paddr else naddr) else None;
  }

  /** Any run of requests against an instance whose cache starts empty is answered as if each
      had walked the tables anew. */
  method CachedRun(vmi: Instance, requests: seq<Request>) returns (answers: seq<Option<nat>>)
    requires vmi.v2pCache == map[]
    modifies vmi`v2pCache
    ensures |answers| == |requests|
    ensures forall i :: 0 <= i < |requests| ==> answers[i] == FreshAnswer(vmi.M(), requests[i])
  {
    hide FreshAnswer, CacheSound, AllBytes, Instance.M;
    EmptyIsSound(vmi.M(), AllBytes());
    answers := [];
    for i := 0 to |requests|
      invariant |answers| == i && vmi.Sound(AllBytes())
      invariant forall k :: 0 <= k < i ==> answers[k] == FreshAnswer(vmi.M(), requests[k])
    {
      var answer := Answer(vmi, requests[i]);
      answers := answers + [answer];
    }
  }
}
