# LibVMI and the system-call analyser, modelled in Dafny

The project models the parts of the bundled LibVMI library and of the tracer and detector built on
it where state, arithmetic or recursion make correctness hard to see, and proves what they promise.
`dafny verify dfyconfig.toml` checks everything.

| module | what it models |
|---|---|
| `BoyerMoore` | the byte search: suffix table, strong good-suffix table, bad-character table, both searches |
| `Paging` | the IA-32e walk over table entries (section 4.5 of the Intel SDM, Volume 3A) |
| `LongMode` | 4-level paging as the SDM words it, over raw words and bytes, and the proof that the walks are this |
| `AddressSpace` | walks over physical memory, the two-stage (guest over EPT) walk, the byte an access reaches, and which bytes a translation depends on |
| `Vmi` | the instance: translation cache, cached lookups, and the read and write loops, mutually recursive as in the source |
| `PageList` | the enumerator of a whole address space |
| `StepEvents` | the single-step scheduler with callbacks that queue more steps |
| `MemEvents` | the registry of memory events against what the hypervisor traps |
| `MemoryCache` | the physical page cache |
| `Qcow2` | the qcow2 reader with compressed clusters and a backing chain |
| `Tracer` | the INT3/single-step protocol at the system-call entry |
| `Frames`, `Bosc`, `Pipeline` | frames between tracer and server, the bag-of-system-calls learner and detector, and the two put together |

Conventions. 64-bit addresses and table entries are natural numbers; masks and shifts are division
and remainder by powers of two, an OR of disjoint fields is a sum, and address arithmetic that wraps
is written with an explicit remainder. Physical memory maps frame numbers to 4096 bytes; an absent
frame is one that cannot be mapped. A driver call, a callback result or the clock is an arbitrary
value. A translation failure, an unreadable table, a refused request or a broken cluster is an
ordinary result, not a precondition. In `Vmi` the ghost set `tables` names the physical bytes that
translation may depend on; for reading it can be every address (`AllBytes`), and the requirement
about it is then always met (`CoveredByAll`).

Where the code departs from what its names or comments suggest, the model follows the code and the
departure is stated as a result:

- `vmi_step_event` accepts the id one past the last vCPU, for which no single-step event is ever
  registered (`UnsteppedOnlyPastLast`, `PastLastAccepted`).
- `step_and_reg_events` returns in the middle when a re-registration fails and loses the wrappers it
  holds; this is exactly when the counters stop matching the queue (`StepAndRegEvents`).
- The enumerator judges transition entries of the lower tables by the guest's operating system, the
  walk by a flag of the instance. They agree exactly when the two flags do or no address rests on
  such an entry, and otherwise differ on exactly the addresses that rest on one, both ways
  (`WalksDiffer`, `ListAgainstV2p`, `ListIsV2pIff`; a memory in `LowerFlagMatters`).
- A write into live page tables can leave stale translations in the cache (`StaleAfterTableWrite`).
  The cache stays sound when every entry on a cached path still decodes to the same, for example when
  only accessed and dirty bits change (`SoundIfEntriesKept`, `SoundAfterLowByte`).
- The qcow2 reader departs from the format in several ways, and `DiskByteAgrees` gives for every
  offset the exact condition under which it finds the disk's byte, `DoRead` for a whole request:
  - It drops the flag that makes a cluster read as zeroes and delivers what the cluster or a backing
    image holds (`ZeroFlagIgnored`); it takes reserved bits for part of the offset. `PlainIff` says
    exactly which entries it takes as prescribed.
  - It refuses a hole without a backing file, which reads as zeroes (`HoleRefused`), and goes on
    reading past the end of a smaller backing image (`PastSmallerBacking`).
  - It keeps the L1 index in 32 bits, refuses only an index greater than the table's size, and never
    looks at the size of the disk. Past the end of the table it therefore reads the word after it, or
    a wrapped entry, unless the low 32 bits of the index exceed the size (`L1EntryPrescribed`,
    `ServedOffTheDisk`).
  - A hole makes it ask the backing image for everything up to the end of the request, so a range
    whose every byte it can find is refused as a whole (`DefinedButRefused`).
- A request to clear an event that was queued without a free routine is not noticed, and a second
  one succeeds (`MemEvents.Registry.ClearEvent`).
- The tracer's exit leaves the breakpoint in place when the saved byte is zero or a single-step event
  is still pending, unless a write fails at the right moment (`Exit`, `Session`).
- The call that flushes a frame is itself not sent (`SendTrace`), so windows of the delivered trace
  straddle gaps. For a detector that holds the learner's table and a learner that spells names as
  they are sent, all windows were learned exactly when every window over a gap has the counts of a
  learned one (`DeliveredLearnedIff`; a trace where one does not in `LostCallMisleads`). The program
  pairs them otherwise: the trace file puts a blank before each name, so that a detector with the
  learner's table would know no call that is sent, and no window is then learned if the table lists
  every logged call (`DeliveredUnknown`, `StrangersLearned`, `NoStrangers`). And the server in
  analysis mode never loads the table: every full window has the key of its length alone, which a
  learner with a table never stored (`KeyWithoutTable`, `LearnedWithoutTable`). `Analyze` puts these
  together.
- The last window of a trace is not learned (`CreateLearningDb`). The detector's lookup does not
  fetch its rows: a full window is an anomaly exactly when the query raises, for want of a table or
  because the connection belongs to another thread, and normal otherwise, whatever the table holds
  (`AppendBosc`, `Replay`).

## Model

| member | source | states |
|---|---|---|
| `BoyerMoore.Search` | lib/libvmi/libvmi/strmatch.c:122-151 | the result is the least index at which the pattern occurs, or -1 exactly when it occurs nowhere |
| `BoyerMoore.ShiftSkipsNoMatch` | lib/libvmi/libvmi/strmatch.c:138-147 | every jump is between 1 and the pattern length and passes over no occurrence |
| `BoyerMoore.Searcher.constructor` | lib/libvmi/libvmi/strmatch.c:160-179 | the prepared object holds the pattern and correct tables for it |
| `BoyerMoore.Searcher.Search2` | lib/libvmi/libvmi/strmatch.c:195-219 | the prepared search meets the same specification |
| `BoyerMoore.PreparedSearchAgrees` | lib/libvmi/libvmi/strmatch.c:160-219 | preparing once and searching gives the one-shot answer |
| `BoyerMoore.FirstOccurrenceUnique` | lib/libvmi/libvmi/strmatch.c:121-122 | the specification determines the result |
| `BoyerMoore.Suffixes` | lib/libvmi/libvmi/strmatch.c:60-84 | every entry is exactly the longest common suffix length, with at most 2(m-1) character comparisons in all |
| `BoyerMoore.SuffixCopied` | lib/libvmi/libvmi/strmatch.c:71-72 | an entry inside the window with a short mirror value may be copied |
| `BoyerMoore.SuffixReused` | lib/libvmi/libvmi/strmatch.c:73-81 | otherwise comparison may resume at g because everything right of it is known to match |
| `BoyerMoore.BorderShifts` | lib/libvmi/libvmi/strmatch.c:97-109 | after the first two loops each entry is the least self-overlap shift beyond it |
| `BoyerMoore.PreBmGs` | lib/libvmi/libvmi/strmatch.c:86-115 | each entry is the least shift compatible with the matched suffix and the mismatch (strong good-suffix rule) |
| `BoyerMoore.GoodShiftViaSuffix` | lib/libvmi/libvmi/strmatch.c:101-112 | a shift is good exactly when the suffix table has the matching value |
| `BoyerMoore.GsEntryIsLeast` | lib/libvmi/libvmi/strmatch.c:110-112 | what the last loop leaves is the least good shift |
| `BoyerMoore.PreBmBc` | lib/libvmi/libvmi/strmatch.c:44-58 | each entry is the distance to the rightmost earlier occurrence of that byte |
| `Paging.WalkKeepsOffset` | lib/libvmi/libvmi/arch/amd64.c:139-155 | a walk keeps the offset inside the page found, at 4KB, 2MB and 1GB |
| `Paging.WalkCommutesWithRounding` | lib/libvmi/libvmi/arch/amd64.c:157-242 | addresses of one 4KB page take the same path, end alike and land at the same distance |
| `Paging.WalkFrame` | lib/libvmi/libvmi/arch/amd64.c:157-242 | a walk depends only on the entries at the locations it records |
| `Paging.WalkBounded` | lib/libvmi/libvmi/arch/amd64.c:36-155 | entry locations are aligned and everything lies below 2^52 |
| `Paging.DecodeEncode` | lib/libvmi/libvmi/x86.h:82-116 | an entry is recovered from every word that holds it: present, large, prototype, transition and frame in their bits, the others ignored |
| `LongMode.WalkIsReference` | lib/libvmi/libvmi/arch/amd64.c:36-242 | the walk over decoded entries is the one the SDM words over raw 64-bit words: indices, table addresses, presence, page size and page address named by their bits |
| `LongMode.ResolveIsReference` | lib/libvmi/libvmi/arch/amd64.c:157-242 | one- and two-stage translation are that reference from the bytes of memory up, guest entries being read where the nested tables lead |
| `LongMode.LeafNamesPage` | lib/libvmi/libvmi/arch/amd64.c:139-155 | the physical page found is the one of its size that holds the entry's frame, at 4KB, 2MB and 1GB |
| `LongMode.PresentField` | lib/libvmi/libvmi/x86.h:82-116 | an entry is present when bit 0 is set or, where transition entries count, bit 11 without bit 10; bit 7 marks a large page |
| `LongMode.WordBytes` | lib/libvmi/libvmi/read.c:383-390 | a word is its eight bytes, least significant first |
| `AddressSpace.ResolveRounds` | lib/libvmi/libvmi/cache.c:528-538 | one- and two-stage translation commutes with page rounding |
| `AddressSpace.FetchIsEightBytes` | lib/libvmi/libvmi/read.c:383-390 | fetching a table entry is reading its eight bytes through the space the table lives in |
| `AddressSpace.TranslationUnchanged` | lib/libvmi/libvmi/write.c:129-165 | changing bytes that a translation does not read leaves it and what it reads unchanged |
| `Vmi.HitIsResolution` | lib/libvmi/libvmi/cache.c:510-543 | a hit in a sound cache is what a fresh walk gives, at every offset of the page |
| `Vmi.SetKeepsSound` | lib/libvmi/libvmi/cache.c:545-592 | storing a walk's result by page keeps the cache sound, with and without safety checks |
| `Vmi.DelKeepsSound` | lib/libvmi/libvmi/cache.c:594-618 | deleting a page, and an emptied address space, keeps the cache sound |
| `Vmi.GetAfterSet` | lib/libvmi/libvmi/cache.c:510-592 | a cacheable address is found again after being stored, and no other page's answer changes |
| `Vmi.GetAfterDel` | lib/libvmi/libvmi/cache.c:594-618 | a deleted page is a miss, and no other page's answer changes |
| `Vmi.SoundUnchanged` | lib/libvmi/libvmi/cache.c:510-618 | a store outside the bytes cached translations depend on leaves the cache sound |
| `Vmi.Instance.DescendTables` | lib/libvmi/libvmi/arch/amd64.c:179-233 | the four cached table reads end where the pure walk ends |
| `Vmi.Instance.V2p` | lib/libvmi/libvmi/arch/amd64.c:157-242 | success and address are those of the two-stage walk, the final address being the nested walk of the guest walk's result; terminates by the nesting rank |
| `Vmi.Instance.ReadTableEntry` | lib/libvmi/libvmi/arch/amd64.c:43-60 | a guest table entry is fetched through the nested tables when there are any |
| `Vmi.Instance.NestedLookup` | lib/libvmi/libvmi/accessors.c:753-806 | through any sound cache the answer is the fresh two-stage walk's, the cache stays sound and holds what was found; the guest address is all ones on a usable nested hit and the guest walk's otherwise |
| `Vmi.Instance.ProbePage` | lib/libvmi/libvmi/accessors.c:779-781 | the probe of a cached address succeeds exactly when its frame can be mapped |
| `Vmi.Instance.LookupCache` | lib/libvmi/libvmi/accessors.c:815-865 | status and address equal a fresh walk's, whether the entry hits, misses or is dropped; what was found is then in the cache, and no other page's answer changed |
| `Vmi.CachedRun` | lib/libvmi/libvmi/accessors.c:753-865 | any run of one- and two-stage lookups from an empty cache is answered as by fresh walks |
| `Vmi.Instance.Locate` | lib/libvmi/libvmi/read.c:262-275 | the translation step of the read and write loops finds the host address of the view, or fails exactly when there is none |
| `Vmi.Instance.Read` | lib/libvmi/libvmi/read.c:259-307 | the delivered prefix is the bytes at the translated addresses, the rest of the buffer is untouched, and a failure stops at the first page that does not translate or map |
| `Vmi.Instance.ReadRange` | lib/libvmi/libvmi/read.c:259-307 | a read succeeds exactly when every address of the range reaches a readable byte |
| `Vmi.ChunkByte` | lib/libvmi/libvmi/read.c:277-294 | inside a page, consecutive addresses (with wrap-around) reach consecutive bytes of one frame |
| `Vmi.VaWraps` | lib/libvmi/libvmi/read.c:259-299 | addresses of a range wrap modulo 2^64 |
| `Vmi.Instance.Write` | lib/libvmi/libvmi/write.c:129-173 | only bytes the written prefix translates to change, the last store to each shows, and failure stops at the first page that refuses; a physical write needs no condition and leaves the cache alone, a translated one that keeps clear of its tables leaves all translations in place |
| `Vmi.Instance.WriteThenRead` | lib/libvmi/libvmi/write.c:129-173 | a range that translates injectively reads back what was written, exactly when every byte of it can be stored |
| `Vmi.PhysicalInjective` | lib/libvmi/libvmi/write.c:129-173 | a physical range is injective, so what was stored reads back, unless it is longer than the address space |
| `Vmi.Instance.DriverWrite` | lib/libvmi/libvmi/write.c:154-160 | a store changes one frame's bytes, or nothing |
| `Vmi.StoredStep` | lib/libvmi/libvmi/write.c:146-164 | one chunk extends what has been stored by its length |
| `Vmi.SoundAfterChange` | lib/libvmi/libvmi/write.c:129-173 | after any change of memory the cache is sound exactly when the fresh walk of every cached page ends where it did before |
| `AddressSpace.PathKeptResolves` | lib/libvmi/libvmi/arch/amd64.c:157-242 | an address resolves as before when every entry read for it, guest or nested, still decodes to the same |
| `Vmi.SoundIfEntriesKept` | lib/libvmi/libvmi/write.c:129-173 | a change after which every entry on the cached paths still decodes to the same keeps the cache sound |
| `Vmi.SoundAfterLowByte` | lib/libvmi/libvmi/write.c:129-173 | storing over the low byte of a live entry keeps the cache sound when bits 0 and 7 stay, whatever happens to accessed, dirty and the other bits |
| `Vmi.StaleAfterTableWrite` | lib/libvmi/libvmi/write.c:129-173 | one byte written into a live table: the cache still gives an address that no walk gives |
| `Vmi.Instance.ReadTable` | lib/libvmi/libvmi/arch/amd64.c:266-268 | a table read as one page gives the entries a walk would fetch one by one, or none of them can be fetched |
| `PageList.GetPages` | lib/libvmi/libvmi/arch/amd64.c:244-387 | the list is exact up to the end of the address space, or up to an address whose walk meets an unreadable table; its addresses are canonical |
| `PageList.ScanPdpt` | lib/libvmi/libvmi/arch/amd64.c:285-377 | the scan of one 512GB stretch keeps the list exact |
| `PageList.ScanPd` | lib/libvmi/libvmi/arch/amd64.c:317-376 | the scan of one 1GB stretch keeps the list exact |
| `PageList.ScanPt` | lib/libvmi/libvmi/arch/amd64.c:349-374 | the scan of one 2MB stretch keeps the list exact |
| `PageList.ListedIffWalked` | lib/libvmi/libvmi/arch/amd64.c:244-387 | a complete list holds (vaddr, paddr, size) exactly when vaddr is canonical and aligned and its walk finds that address and size |
| `PageList.ListCoversTranslations` | lib/libvmi/libvmi/arch/amd64.c:244-387 | listed ranges are pairwise disjoint, together are exactly the canonical addresses that translate, and give every address's translation |
| `PageList.WalkOfIsV2p` | lib/libvmi/libvmi/arch/amd64.c:322-353 | with the two transition flags equal, the enumerated walk is v2p_ia32e |
| `Paging.LowerFlagDecides` | lib/libvmi/libvmi/arch/amd64.c:322-353 | the flag for the lower tables changes a walk exactly for the addresses whose translation passes an entry there that is only in transition; with it they translate, without it not |
| `PageList.WalksDiffer` | lib/libvmi/libvmi/arch/amd64.c:322-353 | the enumerated walk is v2p_ia32e's exactly when the flags agree or the address does not rest on such an entry; else the one that counts them translates the address and the other does not |
| `PageList.ListAgainstV2p` | lib/libvmi/libvmi/arch/amd64.c:244-387 | a complete list holds the addresses v2p_ia32e translates, except that addresses resting on a transition entry are listed by the enumerator's own flag |
| `PageList.ListIsV2pIff` | lib/libvmi/libvmi/arch/amd64.c:244-387 | a complete list and v2p_ia32e cover the same canonical addresses exactly when the flags agree or no canonical address rests on such an entry |
| `PageList.LowerFlagMatters` | lib/libvmi/libvmi/arch/amd64.c:322-353 | a one-frame memory in which every table can be read and, for both ways the flags can differ, the enumerated walk and v2p_ia32e disagree about an address |
| `PageList.IndicesOfLinear` | lib/libvmi/libvmi/private.h:253-257 | sign extension changes neither indices nor offsets |
| `PageList.CanonicalOfLinear` | lib/libvmi/libvmi/private.h:253-257 | sign extension gives an address of the lowest or highest 2^47 with the same low 48 bits |
| `PageList.CanonicalUnique` | lib/libvmi/libvmi/private.h:253-257 | there is only one such address |
| `StepEvents.Scheduler.StepEvent` | lib/libvmi/libvmi/events.c:938-999 | the exact condition for a request to be granted; a granted one adds one wrapper with the requested vCPU, steps and action, one count, and the vCPU's event if needed; a refused one changes nothing |
| `StepEvents.Scheduler.StepAndRegEvents` | lib/libvmi/libvmi/events.c:233-290 | inside a callback the new state is exactly that of running the due wrappers oldest first, each issuing its own requests in the state the earlier ones left, with survivors in order before newly queued wrappers and the vCPU's event queued for clearing when nothing waits any more; the counters match the queue afterwards exactly when every due re-registration is answered yes |
| `StepEvents.Scheduler.FireDue` | lib/libvmi/libvmi/events.c:257-273 | a due wrapper's requests are issued, it runs once and is counted off unless its re-registration is refused, and the vCPU's event is dropped exactly when nothing waits for it |
| `StepEvents.Scheduler.RunCallback` | lib/libvmi/libvmi/events.c:258-259 | a callback's requests are issued in order, only add wrappers and keep the invariant |
| `StepEvents.Scheduler.ClearSingleStep` | lib/libvmi/libvmi/events.c:859-903 | clearing is queued inside a callback and refused the second time, done at once otherwise unless the driver refuses, and keeps the invariant |
| `StepEvents.Scheduler.ProcessClears` | lib/libvmi/libvmi/events.c:566-586 | draining the queue stops stepping exactly on the queued vCPUs for which the driver agrees; none of them has waiting wrappers |
| `StepEvents.FiresOnSchedule` | lib/libvmi/libvmi/events.c:249-279 | in every reachable state a granted request has been met, once, with its own action and at the event that many steps on, exactly when its vCPU has seen that event, and its wrapper is queued once until then |
| `StepEvents.Run` | lib/libvmi/libvmi/events.c:233-290 | over any run of requests, single-step events and drains from an empty scheduler, counters match the queue, every granted request is met once with its own action at its event, and every granted request came from outside or was issued by a callback that ran; the run ends early exactly when a refused re-registration has unbalanced the counters |
| `StepEvents.EnqueueConsistent` | lib/libvmi/libvmi/events.c:986-993 | queueing keeps counters, promises and identities consistent, also while the loop holds wrappers |
| `StepEvents.MidwayFire` | lib/libvmi/libvmi/events.c:257-273 | firing keeps the loop invariant |
| `StepEvents.MidwayKeep` | lib/libvmi/libvmi/events.c:274-276 | keeping a wrapper one step closer keeps the loop invariant |
| `StepEvents.MidwayEnd` | lib/libvmi/libvmi/events.c:283-287 | joining the remainder with what callbacks queued restores the invariant |
| `StepEvents.LostWrapper` | lib/libvmi/libvmi/events.c:261-263 | returning early leaves a counter above its queue |
| `StepEvents.UnsteppedOnlyPastLast` | lib/libvmi/libvmi/events.c:953-956 | every positive counter has a registered single-step event exactly when no step waits for the id one past the last vCPU |
| `StepEvents.PastLastAccepted` | lib/libvmi/libvmi/events.c:953-993 | on a one-vCPU machine a step for vCPU 1 is accepted and not registered |
| `MemEvents.RunConsistent` | lib/libvmi/libvmi/events.c:292-354 | after any run of registrations and clears with any driver failures the tables are exclusive and, without no-access events, the registered frames are the trapped frames |
| `MemEvents.FramesAreTraps` | lib/libvmi/libvmi/events.c:313-346 | registered and trapped frames coincide exactly when no registered event asks for no access |
| `MemEvents.ClearConsistent` | lib/libvmi/libvmi/events.c:541-564 | clearing keeps the registry in step exactly unless a trapped frame is cleared during shutdown |
| `MemEvents.RegisterConsistent` | lib/libvmi/libvmi/events.c:292-354 | registering keeps the registry in step, and a refusal changes nothing |
| `MemEvents.RegisterEffect` | lib/libvmi/libvmi/events.c:292-354 | an accepted frame event stands in the table as given and is trapped with its own access, an accepted generic event stands as given, and nothing else changes |
| `MemEvents.ClearEffect` | lib/libvmi/libvmi/events.c:541-564 | a clear the driver agrees to removes exactly the frame from table and traps, or exactly the access; during shutdown the tables stay |
| `MemEvents.RunRegistered` | lib/libvmi/libvmi/events.c:292-354 | after any run the event of a frame is that of the last successful registration on it, not cleared since, and the frame is trapped exactly with that event's access |
| `MemEvents.RegisterThenClear` | lib/libvmi/libvmi/events.c:292-354 | with a willing driver a registration is refused only for a malformed event or a handler in the way, and clearing it restores tables and traps exactly |
| `MemEvents.Registry.RegisterEvent` | lib/libvmi/libvmi/events.c:773-857 | for every driver answer the invariant is kept, and a successful registration leaves the event itself in the table and its own access trapped |
| `MemEvents.Registry.ClearEvent` | lib/libvmi/libvmi/events.c:859-936 | a clear inside a callback is queued, and refused only when one with a free routine is already queued; outside it is carried out |
| `MemEvents.Registry.ProcessClears` | lib/libvmi/libvmi/events.c:77-86 | draining empties the queue, and exactly the frames and accesses of the events the driver agrees to clear leave the tables |
| `MemoryCache.Cache.Insert` | lib/libvmi/libvmi/driver/memory_cache.c:181-215 | the new state for unaligned, hit, miss, full and out-of-range requests; the queue stays within the limit; nothing older than the age limit is returned |
| `MemoryCache.Cache.Validate` | lib/libvmi/libvmi/driver/memory_cache.c:81-103 | an entry over the age limit is released, fetched again and moved to the head, any other is only touched |
| `MemoryCache.RevalidatedEffect` | lib/libvmi/libvmi/driver/memory_cache.c:81-103 | within the age limit only the time of use changes; past it the old buffer is released and the page is fetched now and stands at the head; no other page is touched |
| `MemoryCache.InBoundsBytes` | lib/libvmi/libvmi/driver/memory_cache.c:105-148 | a page is accepted when no bound is checked, every byte of it lies below the limit, or one range of the memory map holds every byte |
| `MemoryCache.Cache.CleanCache` | lib/libvmi/libvmi/driver/memory_cache.c:68-79 | eviction down to half the limit keeps the invariant |
| `MemoryCache.EvictSound` | lib/libvmi/libvmi/driver/memory_cache.c:68-79 | eviction keeps the first pages of the queue, unchanged |
| `MemoryCache.EvictsOldest` | lib/libvmi/libvmi/driver/memory_cache.c:72-75 | every page kept was refreshed no earlier than every page dropped |
| `MemoryCache.RefreshSound` | lib/libvmi/libvmi/driver/memory_cache.c:88-100 | a refresh keeps queue, order, dates and the account of buffers |
| `MemoryCache.PushSound` | lib/libvmi/libvmi/driver/memory_cache.c:204-211 | a new page keeps them too |
| `MemoryCache.TakeOutSound` | lib/libvmi/libvmi/driver/memory_cache.c:95-99 | taking a page out of the middle of the queue keeps them too |
| `MemoryCache.ReleasedAtMostOnce` | lib/libvmi/libvmi/driver/memory_cache.c:56-66 | in every reachable state a buffer has been released at most once, never while held, and is held once if not released |
| `MemoryCache.Cache.FlushAll` | lib/libvmi/libvmi/driver/memory_cache.c:255-266 | a flush empties both structures and releases what was held |
| `MemoryCache.Cache.Destroy` | lib/libvmi/libvmi/driver/memory_cache.c:233-253 | after destroy every buffer ever obtained has been released exactly once |
| `MemoryCache.Run` | lib/libvmi/libvmi/driver/memory_cache.c:181-266 | over any run of requests and flushes on a new cache: queue and table in step and ordered, the size limit kept, every buffer released at most once and never while held, and every answer no older than the age limit |
| `MemoryCache.Lifetime` | lib/libvmi/libvmi/driver/memory_cache.c:181-266 | after any such run and destroy, every buffer ever obtained has been released exactly once |
| `Qcow2.DoRead` | lib/libvmi/libvmi/disk/vbd.c:263-282 | a read succeeds exactly when the chain can serve the range, nothing outside the range changing, and then the buffer holds the disk's bytes exactly when every offset is on the disk and in the L1 table, its entry has a meaning, and wherever the format prescribes a zero the lookups end at a zero, down the chain |
| `Qcow2.ReadChunk` | lib/libvmi/libvmi/disk/vbd.c:285-442 | a chunk succeeds exactly when its first address is served, reports its length and holds the bytes the lookups lead to |
| `Qcow2.ReadBacking` | lib/libvmi/libvmi/disk/vbd.c:320-330 | a hole needs the backing image to serve all that is left of the request |
| `Qcow2.CopyContent` | lib/libvmi/libvmi/disk/vbd.c:413-436 | the bytes copied are those of the standard or inflated cluster at that offset |
| `Qcow2.ChunkServes` | lib/libvmi/libvmi/disk/vbd.c:271-279 | a range is served exactly when its first chunk and the rest are |
| `Qcow2.ServedIsDefined` | lib/libvmi/libvmi/disk/vbd.c:320-330 | everything served is a byte the lookups lead to, and the disk's byte exactly under the same conditions |
| `Qcow2.DefinedButRefused` | lib/libvmi/libvmi/disk/vbd.c:325-329 | two images whose combined disk the reader finds byte by byte on a range that it refuses as a whole |
| `Qcow2.L1EntryPrescribed` | lib/libvmi/libvmi/disk/vbd.c:298-302 | the entry read is the prescribed one exactly when the index is in range or its low 32 bits exceed the table's size; else it is the word after the table or a wrapped entry |
| `Qcow2.L2TableAt` | lib/libvmi/libvmi/disk/vbd.c:315 | bits 9 to 55 of an L1 entry, whatever the others, say where its L2 table is |
| `Qcow2.L2EntryBytes` | lib/libvmi/libvmi/disk/vbd.c:332-345 | the L2 entry is the big-endian number in the eight bytes of the file at the table's offset and the cluster's slot |
| `Qcow2.StandardByte` | lib/libvmi/libvmi/disk/vbd.c:285-442 | from the bytes of the file: L1 entry, L2 entry and offset lead to the file's byte at the host cluster plus the offset in it |
| `Qcow2.CompressedByte` | lib/libvmi/libvmi/disk/vbd.c:285-442 | the same for a compressed cluster: the byte at that offset of what its sectors inflate to |
| `Qcow2.PrescribeStandard` | lib/libvmi/libvmi/disk/vbd_private.h:84-103 | the format's view of a standard entry put together from its fields |
| `Qcow2.DiskByteAgrees` | lib/libvmi/libvmi/disk/vbd.c:285-442 | at every offset: a byte the reader finds is the disk's exactly under those conditions, and where it finds none the disk has one exactly for a zero flag, a hole without backing, or a hole past the end of the backing image |
| `Qcow2.PlainPathAgrees` | lib/libvmi/libvmi/disk/vbd.c:285-442 | on a path of plain entries within disk, tables and backing sizes the reader finds the disk's byte |
| `Qcow2.PlainIff` | lib/libvmi/libvmi/disk/vbd.c:347-389 | the reader takes an L2 entry as the format prescribes exactly when it is compressed with an offset, or standard without zero flag and reserved bits |
| `Qcow2.ZeroFlagIgnored` | lib/libvmi/libvmi/disk/vbd.c:366-370 | an image whose zero-flagged cluster, with or without an offset, is served as sevens where the disk reads as zeroes |
| `Qcow2.PastSmallerBacking` | lib/libvmi/libvmi/disk/vbd.c:374-389 | a hole past the end of a smaller backing image is served from that image where the disk reads as zeroes |
| `Qcow2.HoleRefused` | lib/libvmi/libvmi/disk/vbd.c:320-324 | a hole without a backing file is refused where the disk reads as zeroes |
| `Qcow2.FilledFromDisk` | lib/libvmi/libvmi/disk/vbd.c:263-282 | a buffer filled by the reader holds the disk's bytes exactly when every offset of the range meets those conditions |
| `Qcow2.ServedOffTheDisk` | lib/libvmi/libvmi/disk/vbd.c:298-302 | an image that is served at an offset one entry past its table and at a wrapped one, where the disk has no byte |
| `Qcow2.PlaceOfCompressed` | lib/libvmi/libvmi/disk/vbd.c:347-365 | offset and sector count packed into a compressed cluster's entry are read back, with the length up to the end of the last sector |
| `Qcow2.PlaceOfStandard` | lib/libvmi/libvmi/disk/vbd.c:366-370 | a standard entry gives bits 1 to 61 as the offset, bit 0 being dropped |
| `Tracer.Tracer.constructor` | src/syscall-trace.c:283-304 | setup saves the byte, arms the breakpoint and starts counting at zero |
| `Tracer.Tracer.Guest` | src/syscall-trace.c:213-247 | outside a single step the guest cannot pass the entry without trapping |
| `Tracer.Tracer.BreakpointCb` | src/syscall-trace.c:213-247 | a foreign hit is reinjected; a hit is counted, the byte restored and stepping toggled, or the tracer is interrupted with the breakpoint in place; the invariant holds in each case |
| `Tracer.Tracer.SingleStepCb` | src/syscall-trace.c:249-268 | the breakpoint is put back and stepping toggled off, or the tracer is interrupted; the invariant holds in each case |
| `Tracer.TraceRun` | src/syscall-trace.c:213-268 | over any run and any write outcomes, up to the first write that fails, the byte is 0xcc exactly when not stepping, no entry is missed and each is counted once |
| `Tracer.Tracer.Exit` | src/syscall-trace.c:412-427 | for any outcomes of its writes, the exact condition under which the guest gets its byte back; every trapped entry has been counted |
| `Tracer.Session` | src/syscall-trace.c:283-427 | setup, any run with any write outcomes, and the exit: every entry counted, and the guest's byte back exactly under a condition on the last event and the two exit writes |
| `Frames.Sender.AppendSyscall` | src/client.h:78-90 | a name joins the buffer, or a full window is sent and the name is lost |
| `Frames.SendTrace` | src/client.h:78-90 | the k-th frame decodes to calls k(W+1) to k(W+1)+W-1 of the trace and stays within W(L+1)+1 characters |
| `Frames.DecodeJoined` | server/server.py:32-34 | stripping two characters and splitting recovers the joined names |
| `Bosc.Creator.CreateBosc` | server/BoSC.py:25-40 | the key is the text of the window's counts |
| `Bosc.SameBag` | server/BoSC.py:25-38 | two windows have equal bags exactly when every known call occurs equally often and the unknown ones are equally many |
| `Bosc.SameKey` | server/BoSC.py:25-40 | the same for the stored text, which is injective on bags |
| `Bosc.DecimalReads` | server/BoSC.py:40 | a number is written in decimal digits that read back as it, without leading zeros |
| `Bosc.TextOfThree` | server/BoSC.py:40 | the brackets, commas and blanks of a list as Python writes it |
| `Bosc.BagSum` | server/BoSC.py:25-38 | a bag sums to the length of its window |
| `Bosc.BagPermuted` | server/BoSC.py:25-38 | a bag does not depend on the order of the window |
| `Bosc.Creator.InsertIfNonexistent` | server/db_utils.py:31-41 | a key is added once |
| `Bosc.Creator.CreateLearningDb` | server/BoSC.py:55-68 | exactly the keys of the windows followed by another call are added, without duplicate rows |
| `Bosc.Creator.AppendBosc` | server/BoSC.py:42-53 | a full window is keyed and slides, a short one grows, and a full window is an anomaly exactly when the query raised, whatever the table holds |
| `Bosc.Replay` | server/BoSC.py:42-53 | replaying a trace from an empty window forms, one per call after the first W, the keys of its windows, all of them learned from it, and reports one anomaly per query that raised |
| `Bosc.KeyWithoutTable` | server/BoSC.py:25-40 | with an empty lookup table the key is the window's length alone |
| `Bosc.LearnedWithoutTable` | server/BoSC.py:55-68 | such a key was learned exactly when the learner had no table either and the trace was long enough |
| `Bosc.StrangersLearned` | server/BoSC.py:25-40 | a window of which the table knows no call has a learned key exactly when some learned window holds no known call either |
| `Bosc.NoStrangers` | server/analyse_trace.py:3-15 | with a table that lists every call of the learned trace there is no such window |
| `Pipeline.ServerFeed` | server/server.py:32-37 | the detector receives the trace with every (W+1)-th call missing and the unfinished run dropped |
| `Pipeline.DeliveredWindow` | src/client.h:78-90 | every window of what is delivered is the end of one run joined to the start of the next, across the lost call |
| `Pipeline.DeliveredLearnedIff` | server/BoSC.py:42-53 | for a learner that spells names as they are sent, all windows the detector forms from the delivered trace were learned exactly when every window over a gap has the known-call counts and the number of unknown calls of a learned window |
| `Pipeline.DeliveredUnknown` | src/syscall-trace.c:124-130 | names sent without the blank that the trace file puts before them are unknown to a table read from it |
| `Pipeline.Analyze` | server/server.py:32-40 | sent in frames, decoded and judged, for any learner: with one table and one spelling, the keys formed were all learned under exactly that condition; with the file's spelling, exactly when some learned window holds no known call, so never with a complete table; without a table never unless the learner had none; and the anomalies are the queries that raised |
| `Pipeline.LostCallMisleads` | server/server.py:32-37 | a learned trace of six calls whose delivery shows the detector a window that was not learned |

## Left out

- Vmi.Instance.Write: a write through a translation is stated for ranges that hold none of the bytes their own or cached translations depend on; a physical write is not restricted.
- Vmi.Instance.WriteThenRead: the same.
- Vmi.Instance.V2p: when the descent fails under nesting the source still looks up an uninitialised guest address and discards the answer; that lookup is not modelled.
- Vmi.Instance.NestedLookup: a nested root of zero is excluded, because the cache uses zero for "no nesting"; EPT as the page mode of a nested lookup is excluded, because the source then returns an uninitialised address.
- Vmi.Instance.Read: page tables are given directly (no process-id or kernel-symbol contexts), and the checks of the context record before the loop are not modelled.
- PageList.GetPages: the four nested loops are four methods, and the table locations stored in each listed record (one of which advances by 1 instead of 8) are not modelled.
- StepEvents.Scheduler.StepEvent: fewer than 32 vCPUs, the length of the counter array; with 32 the bound check lets an id through whose counter lies outside it.
- StepEvents.Scheduler.StepAndRegEvents: a re-registered event does not itself change the single-step tables, and user-defined single-step events are not modelled.
- MemEvents.Registry.ProcessClears: one view only; the deferred swap queue and vmi_set_mem_event are not modelled.
- MemoryCache.Cache.Insert: memory_cache_remove, which looks up the address of a local variable, and the single-page variant without the page cache.
- Qcow2.DoRead: opening an image, reading its header and resolving the backing file's path are taken as given, inflate is an arbitrary function, a backing file that is not qcow2 cannot be opened, and images with encryption or incompatible features are not modelled.
- Tracer.Tracer.constructor: an entry that is not itself an INT3.
- Tracer.TraceRun: one vCPU, and an entry that does not begin with an INT3 of its own.
- Bosc.Creator.CreateLearningDb: the lookup table is given; reading it and the trace from CSV files, and SQLite itself, are not modelled.
- Frames.SendTrace: one frame per receive; sockets are not modelled, and the buffer limit of 2048 bytes is met when W(L+1)+2 <= 2048.
- Legacy, PAE and ARM page walks, the pid, symbol and RVA caches, vmi_read_str, and register, interrupt and other event kinds: easier than what is modelled, or not doing what their names say.
- Hypervisor drivers, FUSE, the web interface, the configuration and JSON profile code, kernel-offset tools and examples: I/O or foreign code.
