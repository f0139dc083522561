/**
 The physical page cache (lib/libvmi/libvmi/driver/memory_cache.c, ENABLE_PAGE_CACHE): a hash
 table of mapped pages and a queue of their addresses, most recently refreshed first.

 A buffer obtained from get_data_callback is named by the order in which it was obtained; the
 history of fetches and releases is kept beside the cache.
 */
module MemoryCache {
  import opened Common

  /** memory_cache_entry; `data` is None when the callback returned NULL. */
  datatype Entry = Entry(data: Option<nat>, lastUpdated: nat, lastUsed: nat)

  type Table = map<nat, Entry>

  /** Whether create_new_entry accepts an address: unchecked for PV guests, else inside physical
      memory, or inside one range of the memory map when there is one. */
  datatype Bounds = Unchecked | Below(maxPhysical: nat) | Ranges(ranges: seq<(nat, nat)>)

  predicate InBounds(b: Bounds, paddr: nat, length: nat) {
    match b
    case Unchecked => true
    case Below(m) => paddr + length <= m
    case Ranges(rs) => exists i :: 0 <= i < |rs| && rs[i].0 <= paddr && paddr + length <= rs[i].1
  }

  ghost predicate Between(x: nat, lo: nat, hi: nat) { lo <= x < hi }

  /** Every byte of the page lies between `lo` and `hi`. */
  ghost predicate PageBetween(paddr: nat, length: nat, lo: nat, hi: nat) {
    forall x :: Between(x, paddr, paddr + length) ==> Between(x, lo, hi)
  }

  /** An address is accepted when no bound is checked, when every byte of its page lies below the
      limit, or when one range holds every byte of the page. */
  lemma InBoundsBytes(b: Bounds, paddr: nat, length: nat)
    requires length > 0
    ensures InBounds(b, paddr, length) <==>
            match b
            case Unchecked => true
            case Below(m) => PageBetween(paddr, length, 0, m)
            case Ranges(rs) => exists i :: 0 <= i < |rs| && PageBetween(paddr, length, rs[i].0, rs[i].1)
  {
    match b
    case Unchecked =>
    case Below(m) => PageEnds(paddr, length, 0, m);
    case Ranges(rs) =>
      forall i | 0 <= i < |rs|
        ensures PageBetween(paddr, length, rs[i].0, rs[i].1) <==> rs[i].0 <= paddr && paddr + length <= rs[i].1
      {
        PageEnds(paddr, length, rs[i].0, rs[i].1);
      }
  }

  lemma PageEnds(paddr: nat, length: nat, lo: nat, hi: nat)
    requires length > 0
    ensures PageBetween(paddr, length, lo, hi) <==> lo <= paddr && paddr + length <= hi
  {
    var last := paddr + length - 1;
    if PageBetween(paddr, length, lo, hi) {
      assert Between(paddr, paddr, paddr + length) ==> Between(paddr, lo, hi);
      assert Between(last, paddr, paddr + length) ==> Between(last, lo, hi);
    }
  }

  // ---------------------------------------------------------------- buffers held

  function BufferOf(t: Table, k: nat): multiset<nat> {
    if k in t && t[k].data.Some? then multiset{t[k].data.value} else multiset{}
  }

  /** The buffers held by the entries of the keys in `q`. */
  function Held(t: Table, q: seq<nat>): multiset<nat> {
    if q == [] then multiset{} else BufferOf(t, q[0]) + Held(t, q[1..])
  }

  lemma {:induction false} HeldSplit(t: Table, p: seq<nat>, q: seq<nat>)
    ensures Held(t, p + q) == Held(t, p) + Held(t, q)
  {
    if p == [] {
      assert p + q == q;
    } else {
      assert (p + q)[1..] == p[1..] + q;
      HeldSplit(t, p[1..], q);
    }
  }

  lemma {:induction false} HeldFrame(t: Table, t': Table, q: seq<nat>)
    requires forall k :: k in q ==> BufferOf(t, k) == BufferOf(t', k)
    ensures Held(t, q) == Held(t', q)
  {
    if q != [] {
      HeldFrame(t, t', q[1..]);
    }
  }

  lemma {:induction false} HeldOne(t: Table, q: seq<nat>, k: nat)
    requires k in q && k in t && t[k].data.Some?
    ensures t[k].data.value in Held(t, q)
  {
    if q[0] != k {
      HeldOne(t, q[1..], k);
    }
  }

  // ---------------------------------------------------------------- the invariant

  /** The cache, the time, and the history: when each buffer was fetched, and the releases. */
  datatype State = State(table: Table, lru: seq<nat>, clock: nat, fetched: seq<nat>, released: multiset<nat>)

  ghost predicate Distinct(q: seq<nat>) {
    forall i, j :: 0 <= i < j < |q| ==> q[i] != q[j]
  }

  /** The queue lists every key of the table once. */
  ghost predicate InStep(s: State) {
    && Distinct(s.lru)
    && (forall k :: k in s.lru <==> k in s.table)
  }

  /** The queue runs from the most to the least recently refreshed page. */
  ghost predicate NewestFirst(s: State) {
    forall i, j :: 0 <= i < j < |s.lru| && s.lru[i] in s.table && s.lru[j] in s.table ==>
      s.table[s.lru[i]].lastUpdated >= s.table[s.lru[j]].lastUpdated
  }

  /** An entry was refreshed in the past, and its buffer was fetched at that moment. */
  ghost predicate Dated(s: State, e: Entry) {
    && e.lastUpdated <= s.clock
    && (e.data.Some? ==> e.data.value < |s.fetched| && s.fetched[e.data.value] == e.lastUpdated)
  }

  ghost predicate AllDated(s: State) {
    forall k :: k in s.table ==> Dated(s, s.table[k])
  }

  /** Every buffer ever fetched is held by one entry or has been released, exactly once. */
  ghost predicate Accounted(s: State) {
    Held(s.table, s.lru) + s.released == UpTo(|s.fetched|)
  }

  ghost predicate Sound(s: State) {
    InStep(s) && NewestFirst(s) && AllDated(s) && Accounted(s)
  }

  /** A buffer has been released at most once, never while held, and is held once if not released. */
  ghost predicate Settled(s: State, id: nat) {
    && s.released[id] <= 1
    && ((exists k :: k in s.table && s.table[k].data == Some(id)) ==> s.released[id] == 0)
    && (s.released[id] == 0 ==> Held(s.table, s.lru)[id] == 1)
  }

  lemma ReleasedAtMostOnce(s: State, id: nat)
    requires Sound(s) && id < |s.fetched|
    ensures Settled(s, id)
  {
    UpToOnce(|s.fetched|, id);
    if exists k :: k in s.table && s.table[k].data == Some(id) {
      var k :| k in s.table && s.table[k].data == Some(id);
      HeldOne(s.table, s.lru, k);
    }
  }

  // ---------------------------------------------------------------- operations on the state

  /** Pop the tail of the queue and free its entry, which releases the buffer. */
  function PopTail(s: State): State
    requires s.lru != []
  {
    var k := s.lru[|s.lru| - 1];
    s.(table := s.table - {k}, lru := s.lru[..|s.lru| - 1], released := s.released + BufferOf(s.table, k))
  }

  /** clean_cache down to `n` pages. */
  function EvictTo(s: State, n: nat): State
    decreases |s.lru|
  {
    if |s.lru| <= n then s else EvictTo(PopTail(s), n)
  }

  lemma PopSound(s: State)
    requires s.lru != [] && Sound(s)
    ensures Sound(PopTail(s))
  {
    hide Sound;
    var n := |s.lru| - 1;
    TakeOutSound(s, n);
    assert PopTail(s).lru == TakeOut(s, n).lru;
  }

  lemma BuffersUnchanged(t: Table, t': Table, q: seq<nat>)
    requires forall k :: k in q ==> k in t && k in t' && t[k].data == t'[k].data
    ensures forall k :: k in q ==> BufferOf(t, k) == BufferOf(t', k)
  {
  }

  /** Eviction keeps the first `n` pages of the queue, unchanged, and every page it keeps was
      refreshed no earlier than every page it drops. */
  lemma {:induction false} EvictSound(s: State, n: nat)
    requires Sound(s)
    ensures Sound(EvictTo(s, n))
    ensures EvictTo(s, n).lru == s.lru[..if |s.lru| <= n then |s.lru| else n]
    ensures EvictTo(s, n).clock == s.clock && EvictTo(s, n).fetched == s.fetched
    ensures forall k :: k in EvictTo(s, n).table ==> k in s.table && EvictTo(s, n).table[k] == s.table[k]
    decreases |s.lru|
  {
    hide BufferOf, Sound;
    if |s.lru| > n {
      PopSound(s);
      EvictSound(PopTail(s), n);
    }
  }

  lemma EvictsOldest(s: State, n: nat, kept: nat, gone: nat)
    requires Sound(s) && kept in EvictTo(s, n).table && gone in s.table && gone !in EvictTo(s, n).table
    ensures kept in s.table && s.table[kept].lastUpdated >= s.table[gone].lastUpdated
  {
    hide EvictTo, AllDated, Accounted, Distinct, NewestFirst;
    EvictSound(s, n);
    var s' := EvictTo(s, n);
    assert kept in s'.lru && gone in s.lru;
    assert s.lru == s'.lru + s.lru[|s'.lru|..];
    NewerBefore(s, |s'.lru|, kept, gone);
  }

  lemma NewerBefore(s: State, m: nat, kept: nat, gone: nat)
    requires NewestFirst(s) && m <= |s.lru| && kept in s.table && gone in s.table
    requires kept in s.lru[..m] && gone in s.lru[m..]
    ensures s.table[kept].lastUpdated >= s.table[gone].lastUpdated
  {
    var i :| 0 <= i < m && s.lru[..m][i] == kept;
    var j :| 0 <= j < |s.lru| - m && s.lru[m..][j] == gone;
    assert s.lru[i] == kept && s.lru[m + j] == gone;
  }

  /** A new page at the head. */
  function Push(s: State, k: nat, now: nat, got: bool): State {
    var e := Entry(if got then Some(|s.fetched|) else None, now, now);
    State(s.table[k := e], [k] + s.lru, now, if got then s.fetched + [now] else s.fetched, s.released)
  }

  lemma PushSound(s: State, k: nat, now: nat, got: bool)
    requires Sound(s) && k !in s.table && s.clock <= now
    ensures Sound(Push(s, k, now, got))
  {
    hide InStep, NewestFirst, AllDated, Accounted, Push;
    PushInStep(s, k, now, got);
    PushOrdered(s, k, now, got);
    PushDated(s, k, now, got);
    PushAccounted(s, k, now, got);
  }

  lemma PushInStep(s: State, k: nat, now: nat, got: bool)
    requires InStep(s) && k !in s.table
    ensures InStep(Push(s, k, now, got))
  {
  }

  lemma PushOrdered(s: State, k: nat, now: nat, got: bool)
    requires InStep(s) && NewestFirst(s) && AllDated(s) && k !in s.table && s.clock <= now
    ensures NewestFirst(Push(s, k, now, got))
  {
    hide Distinct;
    var s' := Push(s, k, now, got);
    forall i | 0 <= i < |s.lru| ensures s.lru[i] in s.table && s.table[s.lru[i]].lastUpdated <= now {
      assert s.lru[i] in s.lru;
      assert Dated(s, s.table[s.lru[i]]);
    }
    forall i, j | 0 <= i < j < |s'.lru| && s'.lru[i] in s'.table && s'.lru[j] in s'.table
      ensures s'.table[s'.lru[i]].lastUpdated >= s'.table[s'.lru[j]].lastUpdated
    {
      assert s'.lru[j] == s.lru[j - 1] && (i > 0 ==> s'.lru[i] == s.lru[i - 1]);
    }
  }

  lemma PushDated(s: State, k: nat, now: nat, got: bool)
    requires AllDated(s) && s.clock <= now
    ensures AllDated(Push(s, k, now, got))
  {
    var s' := Push(s, k, now, got);
    forall x | x in s'.table ensures Dated(s', s'.table[x]) {
      if x != k {
        assert Dated(s, s.table[x]);
      }
    }
  }

  lemma PushAccounted(s: State, k: nat, now: nat, got: bool)
    requires InStep(s) && Accounted(s) && k !in s.table
    ensures Accounted(Push(s, k, now, got))
  {
    hide UpTo, Held, Distinct;
    var s' := Push(s, k, now, got);
    assert k !in s.lru;
    HeldFrame(s.table, s'.table, s.lru);
    HeldCons(s'.table, k, s.lru);
    UpToNext(|s.fetched|);
  }

  lemma HeldCons(t: Table, k: nat, q: seq<nat>)
    ensures Held(t, [k] + q) == BufferOf(t, k) + Held(t, q)
  {
    assert ([k] + q)[1..] == q;
  }

  /** The refresh of an expired entry: its buffer is released, a new one fetched, and the page
      moves to the head of the queue. */
  function Refresh(s: State, i: nat, now: nat, got: bool): State
    requires i < |s.lru| && s.lru[i] in s.table
  {
    var k := s.lru[i];
    var e := Entry(if got then Some(|s.fetched|) else None, now, now);
    State(s.table[k := e], [k] + s.lru[..i] + s.lru[i + 1..], now,
          if got then s.fetched + [now] else s.fetched, s.released + BufferOf(s.table, k))
  }

  /** Taking a page out of the queue, as the first half of a refresh does. */
  function TakeOut(s: State, i: nat): State
    requires i < |s.lru|
  {
    var k := s.lru[i];
    s.(table := s.table - {k}, lru := s.lru[..i] + s.lru[i + 1..], released := s.released + BufferOf(s.table, k))
  }

  lemma TakeOutInStep(s: State, i: nat)
    requires i < |s.lru| && InStep(s)
    ensures InStep(TakeOut(s, i))
  {
    hide BufferOf;
    var s' := TakeOut(s, i);
    forall x ensures x in s'.lru <==> x in s'.table {
      if x in s.lru {
        var j :| 0 <= j < |s.lru| && s.lru[j] == x;
        if j < i {
          assert s'.lru[j] == x;
        } else if j > i {
          assert s'.lru[j - 1] == x;
        }
      }
    }
  }

  lemma TakeOutOrdered(s: State, i: nat)
    requires i < |s.lru| && InStep(s) && NewestFirst(s)
    ensures NewestFirst(TakeOut(s, i))
  {
    hide BufferOf, Distinct;
    var s' := TakeOut(s, i);
    forall a, b | 0 <= a < b < |s'.lru| && s'.lru[a] in s'.table && s'.lru[b] in s'.table
      ensures s'.table[s'.lru[a]].lastUpdated >= s'.table[s'.lru[b]].lastUpdated
    {
      assert s'.lru[a] == s.lru[if a < i then a else a + 1];
      assert s'.lru[b] == s.lru[if b < i then b else b + 1];
    }
  }

  lemma TakeOutAccounted(s: State, i: nat)
    requires i < |s.lru| && InStep(s) && Accounted(s)
    ensures Accounted(TakeOut(s, i))
  {
    hide UpTo, Held, BufferOf;
    var s' := TakeOut(s, i);
    var k := s.lru[i];
    TakeOutInStep(s, i);
    assert s.lru == s.lru[..i] + ([k] + s.lru[i + 1..]);
    HeldSplit(s.table, s.lru[..i], [k] + s.lru[i + 1..]);
    HeldCons(s.table, k, s.lru[i + 1..]);
    HeldSplit(s.table, s.lru[..i], s.lru[i + 1..]);
    BuffersUnchanged(s.table, s'.table, s'.lru);
    HeldFrame(s.table, s'.table, s'.lru);
  }

  lemma TakeOutSound(s: State, i: nat)
    requires i < |s.lru| && Sound(s)
    ensures Sound(TakeOut(s, i)) && s.lru[i] !in TakeOut(s, i).table
  {
    hide InStep, NewestFirst, Accounted, BufferOf;
    TakeOutInStep(s, i);
    TakeOutOrdered(s, i);
    TakeOutAccounted(s, i);
    forall x | x in TakeOut(s, i).table ensures Dated(TakeOut(s, i), s.table[x]) {
      assert Dated(s, s.table[x]);
    }
  }

  lemma RefreshSound(s: State, i: nat, now: nat, got: bool)
    requires i < |s.lru| && Sound(s) && s.lru[i] in s.table && s.clock <= now
    ensures Sound(Refresh(s, i, now, got))
  {
    hide UpTo, Held, BufferOf, InStep, NewestFirst, AllDated, Accounted;
    TakeOutSound(s, i);
    PushSound(TakeOut(s, i), s.lru[i], now, got);
    var k := s.lru[i];
    var s' := Push(TakeOut(s, i), k, now, got);
    assert s'.table == Refresh(s, i, now, got).table;
    assert s'.lru == Refresh(s, i, now, got).lru;
  }

  /** Using an entry that is still fresh only notes the time. */
  function Touch(s: State, k: nat, now: nat): State
    requires k in s.table
  {
    s.(table := s.table[k := s.table[k].(lastUsed := now)], clock := now)
  }

  lemma TouchSound(s: State, k: nat, now: nat)
    requires Sound(s) && k in s.table && s.clock <= now
    ensures Sound(Touch(s, k, now))
  {
    hide UpTo, Held, BufferOf;
    var s' := Touch(s, k, now);
    BuffersUnchanged(s.table, s'.table, s.lru);
    HeldFrame(s.table, s'.table, s.lru);
    forall x | x in s'.table ensures Dated(s', s'.table[x]) {
      assert Dated(s, s.table[x]);
    }
  }

  /** What a hit does: an entry older than the age limit is refreshed, any other is touched. */
  ghost predicate Revalidated(s: State, s': State, k: nat, now: nat, age: nat)
    requires k in s.table
  {
    if age != 0 && now - s.table[k].lastUpdated > age
    then exists i, got :: 0 <= i < |s.lru| && s.lru[i] == k && s' == Refresh(s, i, now, got)
    else s' == Touch(s, k, now)
  }

  /** What a hit leaves. Within the age limit only the time of use changes; past it the old buffer is
      released, the page is fetched now and stands at the head; no other page is touched. */
  lemma RevalidatedEffect(s: State, s': State, k: nat, now: nat, age: nat)
    requires k in s.table && Revalidated(s, s', k, now, age)
    ensures s'.table.Keys == s.table.Keys && s'.table[k].lastUsed == now
    ensures forall x :: x in s.table && x != k ==> s'.table[x] == s.table[x]
    ensures age == 0 || now - s.table[k].lastUpdated <= age ==>
              && s'.lru == s.lru && s'.fetched == s.fetched && s'.released == s.released
              && s'.table[k].data == s.table[k].data && s'.table[k].lastUpdated == s.table[k].lastUpdated
    ensures age != 0 && now - s.table[k].lastUpdated > age ==>
              && s'.lru != [] && s'.lru[0] == k && multiset(s'.lru) == multiset(s.lru)
              && s'.table[k].lastUpdated == now && s'.released == s.released + BufferOf(s.table, k)
              && s'.fetched == s.fetched + (if s'.table[k].data.Some? then [now] else [])
  {
    hide BufferOf, Refresh, Touch;
    if age != 0 && now - s.table[k].lastUpdated > age {
      var i, got :| 0 <= i < |s.lru| && s.lru[i] == k && s' == Refresh(s, i, now, got);
      RefreshEffect(s, i, now, got);
    } else {
      TouchEffect(s, k, now);
    }
  }

  lemma RefreshEffect(s: State, i: nat, now: nat, got: bool)
    requires i < |s.lru| && s.lru[i] in s.table
    ensures var s', k := Refresh(s, i, now, got), s.lru[i];
            && s'.table.Keys == s.table.Keys && s'.table[k].lastUsed == s'.table[k].lastUpdated == now
            && (forall x :: x in s.table && x != k ==> s'.table[x] == s.table[x])
            && s'.lru != [] && s'.lru[0] == k && multiset(s'.lru) == multiset(s.lru)
            && s'.released == s.released + BufferOf(s.table, k)
            && s'.fetched == s.fetched + (if s'.table[k].data.Some? then [now] else [])
  {
    hide BufferOf;
    MovedToHead(s.lru, i);
  }

  lemma MovedToHead(q: seq<nat>, i: nat)
    requires i < |q|
    ensures multiset([q[i]] + q[..i] + q[i + 1..]) == multiset(q)
  {
    assert q == q[..i] + [q[i]] + q[i + 1..];
  }

  lemma TouchEffect(s: State, k: nat, now: nat)
    requires k in s.table
    ensures var s' := Touch(s, k, now);
            && s'.table.Keys == s.table.Keys && s'.table[k] == s.table[k].(lastUsed := now)
            && (forall x :: x in s.table && x != k ==> s'.table[x] == s.table[x])
            && s'.lru == s.lru && s'.fetched == s.fetched && s'.released == s.released
  {
  }

  lemma RefreshRevalidates(s: State, i: nat, now: nat, got: bool, age: nat)
    requires i < |s.lru| && s.lru[i] in s.table && age != 0 && now - s.table[s.lru[i]].lastUpdated > age
    ensures Revalidated(s, Refresh(s, i, now, got), s.lru[i], now, age)
  {
    hide Refresh;
  }

  lemma TouchRevalidates(s: State, k: nat, now: nat, age: nat)
    requires k in s.table && !(age != 0 && now - s.table[k].lastUpdated > age)
    ensures Revalidated(s, Touch(s, k, now), k, now, age)
  {
  }

  /** memory_cache_flush and memory_cache_destroy: every entry is freed. */
  function Flush(s: State): State {
    s.(table := map[], lru := [], released := s.released + Held(s.table, s.lru))
  }

  lemma InQueue(s: State, k: nat)
    requires Sound(s) && k in s.table
    ensures k in s.lru && Dated(s, s.table[k])
  {
  }

  lemma FlushSound(s: State)
    requires Sound(s)
    ensures Sound(Flush(s))
  {
  }

  class Cache {
    var table: Table
    var lru: seq<nat>
    var age: nat
    var sizeMax: nat
    const pageSize: nat
    const bounds: Bounds
    var buffers: nat              // buffers obtained so far
    ghost var clock: nat
    ghost var fetched: seq<nat>
    ghost var released: multiset<nat>

    ghost function View(): State
      reads this
    {
      State(table, lru, clock, fetched, released)
    }

    ghost predicate Valid()
      reads this
    {
      && Sound(View()) && buffers == |fetched| && pageSize > 0
      && (sizeMax >= 1 ==> |lru| <= sizeMax)
    }

    /** memory_cache_init */
    constructor (age: nat, sizeMax: nat, pageSize: nat, bounds: Bounds)
      requires pageSize > 0
      ensures Valid() && View() == State(map[], [], 0, [], multiset{})
      ensures this.age == age && this.sizeMax == sizeMax && this.pageSize == pageSize && this.bounds == bounds
    {
      table, lru, this.age, this.sizeMax := map[], [], age, sizeMax;
      this.pageSize, this.bounds, buffers := pageSize, bounds, 0;
      clock, fetched, released := 0, [], multiset{};
    }

    /** get_data_callback: a new buffer, or NULL. */
    method GetData(now: nat) returns (data: Option<nat>)
      requires buffers == |fetched|
      modifies this`buffers, this`fetched
      ensures buffers == |fetched|
      ensures data == None ==> fetched == old(fetched)
      ensures data.Some? ==> data == Some(|old(fetched)|) && fetched == old(fetched) + [now]
    {
      var got: bool := *;
      if !got {
        return None;
      }
      data := Some(buffers);
      buffers := buffers + 1;
      fetched := fetched + [now];
    }

    /** clean_cache: pop the tail until half of the limit is left. */
    method CleanCache()
      requires Valid()
      modifies this`table, this`lru, this`released
      ensures Valid()
      ensures View() == EvictTo(old(View()), sizeMax / 2)
      ensures |lru| <= sizeMax / 2
    {
      hide Sound, BufferOf;
      ghost var s := View();
      while |lru| > sizeMax / 2
        invariant Valid()
        invariant EvictTo(View(), sizeMax / 2) == EvictTo(s, sizeMax / 2)
      {
        PopSound(View());
        var k := lru[|lru| - 1];
        lru := lru[..|lru| - 1];
        released := released + BufferOf(table, k);
        table := table - {k};
      }
    }

    /** validate_and_return_data: an entry older than the age limit is fetched again and moves to
        the head; what is returned is never older than the limit. */
    method Validate(k: nat, now: nat) returns (data: Option<nat>)
      requires Valid() && k in table && clock <= now
      modifies this
      ensures Valid() && age == old(age) && sizeMax == old(sizeMax) && k in table
      ensures data == table[k].data && clock == now && old(fetched) <= fetched
      ensures Revalidated(old(View()), View(), k, now, age)
      ensures data.Some? ==> data.value < |fetched| && (age != 0 ==> now - fetched[data.value] <= age)
    {
      hide Sound, BufferOf, Revalidated;
      ghost var s := View();
      InQueue(s, k);
      if age != 0 && now - table[k].lastUpdated > age {
        var i := Find(lru, k);
        released := released + BufferOf(table, k);
        var d := GetData(now);
        table := table[k := Entry(d, now, now)];
        lru := [k] + lru[..i] + lru[i + 1..];
        clock := now;
        assert View() == Refresh(s, i, now, d.Some?);
        RefreshSound(s, i, now, d.Some?);
        RefreshRevalidates(s, i, now, d.Some?, age);
        return d;
      }
      TouchSound(s, k, now);
      TouchRevalidates(s, k, now, age);
      table := table[k := table[k].(lastUsed := now)];
      clock := now;
      return table[k].data;
    }

    /** memory_cache_insert */
    method Insert(paddr: nat, now: nat) returns (data: Option<nat>)
      requires Valid() && clock <= now
      modifies this
      ensures Valid() && age == old(age) && sizeMax == old(sizeMax) && old(fetched) <= fetched && clock <= now
      ensures paddr % pageSize != 0 ==> data == None && View() == old(View())
      ensures paddr % pageSize == 0 && paddr !in old(table) ==>
                var s := if |old(lru)| >= sizeMax then EvictTo(old(View()), sizeMax / 2) else old(View());
                if InBounds(bounds, paddr, pageSize)
                then && View() == Push(s, paddr, now, data.Some?)
                     && table[paddr] == Entry(data, now, now) && lru[0] == paddr
                else View() == s && data == None
      ensures paddr % pageSize == 0 && paddr in old(table) ==>
                && Revalidated(old(View()), View(), paddr, now, age)
                && paddr in table && data == table[paddr].data
      ensures data.Some? ==> data.value < |fetched| && (age != 0 ==> now - fetched[data.value] <= age)
    {
      hide Sound, BufferOf, Dated, EvictTo, Revalidated;
      if paddr % pageSize != 0 {
        return None;
      }
      if paddr in table {
        data := Validate(paddr, now);
        return;
      }
      ghost var s := View();
      EvictSound(s, sizeMax / 2);
      if |lru| >= sizeMax {
        CleanCache();
      }
      if !InBounds(bounds, paddr, pageSize) {
        return None;
      }
      ghost var s' := View();
      PushSound(s', paddr, now, true);
      PushSound(s', paddr, now, false);
      data := GetData(now);
      table := table[paddr := Entry(data, now, now)];
      lru := [paddr] + lru;
      clock := now;
      assert View() == Push(s', paddr, now, data.Some?);
    }

    /** memory_cache_flush */
    method FlushAll()
      requires Valid()
      modifies this`table, this`lru, this`released
      ensures Valid() && View() == Flush(old(View()))
    {
      hide BufferOf, UpTo;
      FlushSound(View());
      released := released + Held(table, lru);
      lru := [];
      table := map[];
    }

    /** memory_cache_destroy: afterwards every buffer ever obtained has been released once. */
    method Destroy()
      requires Valid()
      modifies this
      ensures Valid() && table == map[] && lru == [] && age == 0 && sizeMax == 0
      ensures released == UpTo(|fetched|) && fetched == old(fetched)
    {
      FlushAll();
      age, sizeMax := 0, 0;
    }
  }

  /** g_queue_find */
  method Find(q: seq<nat>, k: nat) returns (i: nat)
    requires k in q
    ensures i < |q| && q[i] == k && k !in q[..i]
  {
    i := 0;
    while q[i] != k
      invariant i < |q| && k !in q[..i]
      decreases |q| - i
    {
      assert k in q[i + 1..];
      i := i + 1;
    }
  }

  // ---------------------------------------------------------------- runs

  /** A request for a page some time after the last one, or a flush. */
  datatype Op = Request(paddr: nat, wait: nat) | FlushPages

  /** What a request was answered with, and when. */
  datatype Answer = Answer(data: Option<nat>, at: nat)

  /** The buffer returned was fetched no longer ago than the limit. */
  ghost predicate Recent(a: Answer, fetched: seq<nat>, age: nat) {
    a.data.Some? ==> a.data.value < |fetched| && (age != 0 ==> a.at - fetched[a.data.value] <= age)
  }

  /** Any run of requests and flushes on a new cache. */
  method Run(age: nat, sizeMax: nat, pageSize: nat, bounds: Bounds, ops: seq<Op>)
    returns (c: Cache, answers: seq<Answer>)
    requires pageSize > 0
    ensures fresh(c) && c.Valid() && c.age == age && c.sizeMax == sizeMax
    ensures InStep(c.View()) && NewestFirst(c.View()) && (sizeMax >= 1 ==> |c.lru| <= sizeMax)
    ensures forall i :: 0 <= i < |answers| ==> Recent(answers[i], c.fetched, age)
    ensures forall id :: 0 <= id < |c.fetched| ==> Settled(c.View(), id)
  {
    hide InStep, NewestFirst, AllDated, Accounted, Settled, Push, EvictTo, InBounds;
    c := new Cache(age, sizeMax, pageSize, bounds);
    answers := [];
    var now := 0;
    for i := 0 to |ops|
      invariant fresh(c) && c.Valid() && c.age == age && c.sizeMax == sizeMax && c.clock <= now
      invariant forall i :: 0 <= i < |answers| ==> Recent(answers[i], c.fetched, age)
    {
      match ops[i]
      case Request(paddr, wait) =>
        now := now + wait;
        var data := c.Insert(paddr, now);
        answers := answers + [Answer(data, now)];
      case FlushPages =>
        c.FlushAll();
    }
    forall id | 0 <= id < |c.fetched| ensures Settled(c.View(), id) {
      ReleasedAtMostOnce(c.View(), id);
    }
  }

  /** The same run followed by memory_cache_destroy: every buffer has been released once. */
  method Lifetime(age: nat, sizeMax: nat, pageSize: nat, bounds: Bounds, ops: seq<Op>) returns (c: Cache)
    requires pageSize > 0
    ensures c.table == map[] && c.lru == []
    ensures forall id :: 0 <= id < |c.fetched| ==> c.released[id] == 1
  {
    hide Sound, Settled, Recent;
    var answers;
    c, answers := Run(age, sizeMax, pageSize, bounds, ops);
    c.Destroy();
    forall id | 0 <= id < |c.fetched| ensures c.released[id] == 1 {
      UpToOnce(|c.fetched|, id);
    }
  }
}
