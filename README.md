# Cache-hierarchy simulator, modelled in Dafny

The simulator runs a list of memory addresses through a hierarchy of cache
levels, then a RAM store, then Disk, and reports where each access was
served. This project models its engine:

- the nine eviction policies of `src/utils/policies.js`: LRU, FIFO,
  RandomPolicy, LFU, RAM, RR, MFU, LFRU and SecondChance. Each is a class
  with a fixed capacity, a membership probe `access` and a range insertion
  `addBlock`;
- the lookup/fill protocol of `handleFinish` in `src/App.js`:
  - policy-name dispatch;
  - block mapping;
  - the level-by-level probe;
  - the back-fill of every level and of RAM on a cache miss;
  - the integer counters `hits`, `levelHits`, `levelAccesses` and the
    `results` list;
- the address filter of `handleAddAddress` in `src/App.js`;
- the older `MemoryHierarchy` class of `src/utils/memory.js`:
  `createCaches`, the `hits`/`misses` counters and `accessMemory`.

JS `Map` and `Set` iterate in insertion order, and the victim rules depend
on that order. So every map or set is a `seq<int>` of keys in insertion
order (module `Ordered`), paired with a Dafny `map` for the values
(`JsMap`).

Each policy class is a Dafny class with the same fields. Its `AddBlock`
is proved equal to a fill function over the old state (`FillOldest`,
`FillQueue`, `RandomFill`, `LfuFill`, `MfuFill`, `LfruFill`, `RrFill`,
`SecondChanceFill`). The properties of each policy are proved about those
functions:
- the capacity bound;
- `end` resident after `addBlock(start, end)`;
- the victim rule;
- for LRU, FIFO and RAM, the exact resulting order.

The `Levels` module puts the nine classes behind one `Instance` type, the
interface `handleFinish` calls. The `Simulator` module models
`handleFinish`:
- `Probe` is the probe loop;
- `MissPath` is the back-fill;
- `Tally` is the counter loop;
- `Run` is the `forEach` over the addresses.

`HandleFinish` proves the following:
- the result list has one entry per address, in input order;
- `levelHits` and `levelAccesses` are exactly the tallies of the results
  (`Counters.LevelHits`, `Counters.LevelAccesses`). The lemmas in
  `Counters` then give `sum(levelHits) == addresses.length`,
  `levelAccesses[0] == addresses.length`, non-increasing accesses, and
  hits never above accesses;
- the first access is a miss;
- an access that lands in the block of the access just before it is
  served where that access left the block (`RepeatsServed`):
  - the same level, after a cache hit;
  - level 0, after a fill;
  - RAM, when there is no cache level.

The source's integer counters are JS numbers. They are modelled as
unbounded integers, which agree with them below 2^53.

A RAM hit charges `levelAccesses` all the way through the Disk entry, as
the code does at `src/App.js:159`: the loop bound is `cacheInstances.length + 1`
whenever no cache level hit. So RAM and Disk always show the same access
count (`Counters.RamAndDiskAccessesAgree`).

LFRU's `access` bumps the count but keeps the insertion timestamp; the
model does the same.

RR can hold more than its capacity: `addBlock` can re-add an address that
is already resident, which leaves a duplicate in `keys`, and a later
`delete` of that stale slot does nothing (`Policies.RrReaddOverflows`).
The model argues, but does not prove, that `handleFinish` cannot reach
this. `Simulator.Step` only fills a level when no address of the block is
resident at any level. `Policies.RrFillKeepsTight` proves that such a fill
keeps RR within capacity. The model does not carry that invariant through
`Simulator.Run`.

## Model

| member | source | states |
|---|---|---|
| Ordered.Range | src/utils/policies.js:19 | the fill loop `for (addr = start; addr <= end; addr++)` visits `end - start + 1` addresses, the `i`-th being `start + i` |
| Ordered.RangeMembers | src/utils/policies.js:19 | an address is visited by the fill loop exactly when `start <= x <= end` |
| Ordered.Remove | src/utils/policies.js:11 | `Map.delete`/`Set.delete`: the key leaves and every other key stays; on distinct keys the size drops by one exactly when the key was present |
| Ordered.RemoveKeepsOrder | src/utils/policies.js:11 | on distinct keys, deleting the key at position `i` cuts it out where it stands: the result is `s[..i] + s[i+1..]`, so every other key keeps its insertion order |
| Ordered.Insert | src/utils/policies.js:12 | `Map.set`/`Set.add`: a new key goes last, an existing key keeps its place, and the keys stay distinct |
| Ordered.JsMap.Set | src/utils/policies.js:84 | `map.set(k, v)` keeps the map well formed, updates the value and places the key as `Insert` does |
| Ordered.JsMap.Delete | src/utils/policies.js:102-103 | `map.delete(k)` removes the entry, shrinks the size by one when `k` was present and changes nothing otherwise |
| Ordered.EmptyMap | src/utils/policies.js:78-79 | `new Map()` is well formed and empty |
| Policies.EvictOldestThenAdd | src/utils/policies.js:20-24 | one LRU/RAM insertion keeps the keys distinct and within capacity and makes `addr` resident; below capacity nothing leaves; at capacity only the first key in map order can leave, and it leaves unless it is `addr` itself |
| Policies.EvictOldestWhenFull | src/utils/policies.js:20-24 | at capacity, inserting a new address drops the first key and appends the address |
| Policies.FillOldest | src/utils/policies.js:18-26 | `addBlock` of LRU and RAM keeps at most `size` distinct residents, leaves `end` resident, and admits nothing outside the old keys and `start..end` |
| Policies.FillOldestEvictsOldest | src/utils/policies.js:18-26 | filling a full store with a block of new addresses no longer than its capacity evicts exactly its oldest `end - start + 1` keys, in order, and appends the block (`Window`) |
| Policies.FillOldestBelowCapacity | src/utils/policies.js:18-26 | when the new block fits, nothing is evicted and the block is appended in order |
| Policies.Touch | src/utils/policies.js:9-16 | an LRU hit (`delete` then `set`) moves the address to the most-recent end and keeps the other keys in order; a miss changes nothing |
| Policies.LruSparesTouched | src/utils/policies.js:9-26 | in a full LRU of capacity at least 2, a key just hit survives the next insertion of a new address, and the oldest untouched key is evicted instead |
| Policies.LRU.constructor | src/utils/policies.js:4-7 | a new LRU is empty with the given capacity |
| Policies.LRU.Access | src/utils/policies.js:9-16 | answers residency and applies `Touch` to the key order |
| Policies.LRU.Admit | src/utils/policies.js:20-24 | one loop iteration evicts the oldest key when full and inserts the address, as `EvictOldestThenAdd` says |
| Policies.LRU.AddBlock | src/utils/policies.js:18-26 | the key order becomes `FillOldest` of the old one |
| Policies.RAM.constructor | src/utils/policies.js:113-116 | a new RAM store is empty with the given capacity |
| Policies.RAM.Access | src/utils/policies.js:118-120 | answers residency and changes nothing |
| Policies.RAM.Admit | src/utils/policies.js:124-127 | one loop iteration deletes the first-inserted member when full and adds the address, as `EvictOldestThenAdd` says |
| Policies.RAM.AddBlock | src/utils/policies.js:122-129 | the set becomes `FillOldest` of the old one: the earliest-inserted member leaves first, whatever was accessed |
| Policies.FifoPush | src/utils/policies.js:44-47 | one FIFO insertion appends the address; at capacity it removes exactly the queue head |
| Policies.FillQueue | src/utils/policies.js:42-49 | `addBlock` of FIFO keeps the queue within capacity, ends it with `end`, and admits nothing outside the old queue and `start..end` |
| Policies.FillQueueDropsOldest | src/utils/policies.js:42-49 | filling a full queue with a block no longer than the capacity drops exactly the oldest `end - start + 1` entries and appends the block (`Window`) |
| Policies.FillQueueBelowCapacity | src/utils/policies.js:42-49 | when the block fits, the queue is the old queue followed by the block |
| Policies.FifoEvictsFirstInserted | src/utils/policies.js:35-49 | after filling a FIFO of capacity `n` with `1..n`, inserting `n + 1` evicts `1`, the earliest insertion |
| Policies.FIFO.constructor | src/utils/policies.js:30-33 | a new FIFO has an empty queue and the given capacity |
| Policies.FIFO.Access | src/utils/policies.js:35-40 | answers residency (`queue.includes`) and changes nothing |
| Policies.FIFO.Admit | src/utils/policies.js:44-47 | one loop iteration shifts the queue when full and pushes the address, as `FifoPush` says |
| Policies.FIFO.AddBlock | src/utils/policies.js:42-49 | the queue becomes `FillQueue` of the old one |
| Policies.RandomAdd | src/utils/policies.js:63-71 | one Random insertion keeps the members distinct, within capacity and resident; at capacity exactly the member at the drawn index leaves |
| Policies.RandomFill | src/utils/policies.js:62-72 | `addBlock` of RandomPolicy under any sequence of draws keeps at most `size` distinct residents and leaves `end` resident |
| Policies.RandomFillPrefix | src/utils/policies.js:62-72 | a fill depends only on the draws made for its own addresses: later draws do not change it |
| Policies.RandomFillStep | src/utils/policies.js:62-72 | one more loop iteration is one more `RandomAdd` with one more draw |
| Policies.RandomPolicy.constructor | src/utils/policies.js:53-56 | a new RandomPolicy is empty with the given capacity |
| Policies.RandomPolicy.Access | src/utils/policies.js:58-60 | answers residency and changes nothing |
| Policies.RandomPolicy.Admit | src/utils/policies.js:64-70 | one loop iteration, under the draw it returns, deletes the drawn member when full and adds the address, as `RandomAdd` says |
| Policies.RandomPolicy.AdmitNext | src/utils/policies.js:63-71 | one more iteration extends the fill by one address and one draw |
| Policies.RandomPolicy.AddBlock | src/utils/policies.js:62-72 | the set becomes `RandomFill` of the old one under the draws it made, one per address |
| Policies.FirstMinIndex | src/utils/policies.js:95-100 | the scan with `count < minCount` selects a key with the least count, and the first such key in iteration order |
| Policies.FirstMaxIndex | src/utils/policies.js:179-184 | the scan with `count > maxCount` selects a key with the greatest count, and the first such key in iteration order |
| Policies.FirstLfruIndex | src/utils/policies.js:217-224 | the LFRU scan selects a key that no other key precedes in (count, timestamp) order, and the first such key |
| Policies.LeastUsed | src/utils/policies.js:92-104 | the LFU victim: none exactly when the map is empty, otherwise a resident key with the minimum count, and every key before it in map order has a strictly larger count (ties go to the first key, as the strict `<` of the scan makes them) |
| Policies.MostUsed | src/utils/policies.js:176-188 | the MFU victim: none exactly when the map is empty, otherwise a resident key with the maximum count, and every key before it in map order has a strictly smaller count (ties go to the first key, as the strict `>` of the scan makes them) |
| Policies.ScanLeastUsed | src/utils/policies.js:93-100 | the scan loop over `usageCount.entries()` returns exactly `LeastUsed` |
| Policies.ScanMostUsed | src/utils/policies.js:177-184 | the scan loop over `usageCount.entries()` returns exactly `MostUsed` |
| Policies.CountedAdd | src/utils/policies.js:101-107 | one LFU/MFU insertion sets the new count to 1, keeps every other count, stays within capacity, and at capacity removes exactly the victim |
| Policies.CountUse | src/utils/policies.js:82-88 | a hit adds exactly 1 to that address's count and changes no key; a miss changes nothing |
| Policies.LfuFill | src/utils/policies.js:90-109 | `addBlock` of LFU stays within capacity, keeps `cache` and `usageCount` on one key set, leaves `end` resident with count 1 |
| Policies.MfuFill | src/utils/policies.js:174-193 | `addBlock` of MFU stays within capacity and leaves `end` resident with count 1 |
| Policies.LFU.constructor | src/utils/policies.js:76-80 | a new LFU is empty with the given capacity |
| Policies.LFU.Access | src/utils/policies.js:82-88 | answers residency, keeps the resident keys, and applies `CountUse` to the counts |
| Policies.LFU.Admit | src/utils/policies.js:92-107 | one loop iteration removes the scan's least-used key when full and admits the address with count 1, as `CountedAdd` with `LeastUsed` says |
| Policies.LFU.AddBlock | src/utils/policies.js:90-109 | the counts become `LfuFill` of the old ones, with `cache` on the same keys |
| Policies.MFU.constructor | src/utils/policies.js:160-164 | a new MFU is empty with the given capacity |
| Policies.MFU.Access | src/utils/policies.js:166-172 | answers residency, keeps the resident keys, and applies `CountUse` to the counts |
| Policies.MFU.Admit | src/utils/policies.js:176-191 | one loop iteration removes the scan's most-used key when full and admits the address with count 1, as `CountedAdd` with `MostUsed` says |
| Policies.MFU.AddBlock | src/utils/policies.js:174-193 | the counts become `MfuFill` of the old ones, with `cache` on the same keys |
| Policies.LfruVictim | src/utils/policies.js:213-228 | the LFRU victim: none exactly when empty, otherwise a resident key with the least count, ties broken by the older timestamp; every key before it in map order ranks strictly after it, so a full tie goes to the first key the scan meets |
| Policies.ScanLfru | src/utils/policies.js:214-224 | the scan loop returns exactly `LfruVictim` |
| Policies.LfruAdd | src/utils/policies.js:225-231 | one LFRU insertion stamps the address with the reading and count 1, keeps every other entry, and at capacity removes exactly the given victim (the fill passes `LfruVictim`) |
| Policies.LfruFill | src/utils/policies.js:211-233 | `addBlock` of LFRU stays within capacity and leaves `end` resident, stamped with its own reading |
| Policies.LFRU.constructor | src/utils/policies.js:197-201 | a new LFRU is empty with the given capacity |
| Policies.LFRU.Access | src/utils/policies.js:203-209 | answers residency, bumps the count and leaves the timestamps alone |
| Policies.LFRU.Admit | src/utils/policies.js:213-231 | one loop iteration performs `LfruAdd` with the scan's `LfruVictim` on the fields |
| Policies.LFRU.AdmitNext | src/utils/policies.js:212-232 | one more iteration extends the fill by one address and one reading |
| Policies.LFRU.AddBlock | src/utils/policies.js:211-233 | the state becomes `LfruFill` of the old one under the given readings |
| Policies.RrAdd | src/utils/policies.js:146-154 | one RR insertion makes the address resident; below capacity nothing leaves, the address is pushed as a new slot and `index` stays; at capacity only the address in slot `index % size` can leave, that slot takes the address, the other slots are unchanged and `index` rises by one |
| Policies.RrFill | src/utils/policies.js:144-156 | `addBlock` of RR leaves `end` resident and admits nothing outside the old residents and `start..end` |
| Policies.RrAddKeepsTight | src/utils/policies.js:146-154 | inserting a non-resident address keeps `cache` and the `keys` slots holding the same addresses, with at most `size` slots, so RR stays within capacity |
| Policies.RrFillKeepsTight | src/utils/policies.js:144-156 | a fill of addresses none of which is resident keeps RR within capacity |
| Policies.RrFillStaysFull | src/utils/policies.js:144-156 | a full RR filled with non-resident addresses stays full, with `cache` and `keys` holding the same addresses |
| Policies.RrFillCycles | src/utils/policies.js:144-156 | filling a full RR with `k` non-resident addresses makes `k` replacements: `index` rises by `k`, the `t`-th address overwrites slot `(index + t) % size`, so the slots are overwritten in turn and the last `size` addresses stay in their slots; slots the cursor has not reached keep their addresses |
| Policies.RrReaddOverflows | src/utils/policies.js:146-154 | re-adding a resident address leaves a duplicate slot, and with capacity 2 the inserts 5, 5, 6, 7, 8 leave three residents |
| Policies.GrowWithDuplicate | src/utils/policies.js:146-154 | below capacity, re-adding 5 pushes a second slot for it |
| Policies.ReplaceFirstSlot | src/utils/policies.js:146-150 | at capacity, slot 0 is overwritten and its address deleted |
| Policies.ReplaceStaleSlot | src/utils/policies.js:146-150 | at capacity, overwriting a slot whose address already left deletes nothing, so the set grows |
| Policies.RR.constructor | src/utils/policies.js:133-138 | a new RR is empty, with no slots and `index == 0` |
| Policies.RR.Access | src/utils/policies.js:140-142 | answers residency and changes nothing |
| Policies.RR.Admit | src/utils/policies.js:146-154 | one loop iteration performs `RrAdd` on the fields |
| Policies.RR.AddBlock | src/utils/policies.js:144-156 | the state becomes `RrFill` of the old one |
| Policies.ClearBit | src/utils/policies.js:255-257 | requeueing a head with its bit set lowers the number of set bits by one, which is the eviction loop's measure |
| Policies.Reclaim | src/utils/policies.js:253-261 | the `while` eviction loop terminates and leaves fewer than `size` entries, exactly `size - 1` when it started full; it sets no bit |
| Policies.ClearBits | src/utils/policies.js:255-257 | clearing the bits of resident keys keeps the key order and the residents, clears exactly those keys' bits and leaves the other bits alone |
| Policies.ReclaimSparesReferenced | src/utils/policies.js:253-261 | at capacity, when the first `j` queue entries are resident and referenced and the next is resident and not, the loop requeues those `j` in order with their bits cleared and deletes the next one; the rest of the queue moves up unchanged |
| Policies.SecondChanceSparesReferenced | src/utils/policies.js:253-261 | with the head referenced and the next entry not, the loop clears and requeues the head and evicts the next entry |
| Policies.SecondChanceAdd | src/utils/policies.js:253-263 | one insertion admits the address with its bit clear and stays within capacity |
| Policies.SecondChanceFill | src/utils/policies.js:251-265 | `addBlock` of SecondChance stays within capacity and leaves `end` resident |
| Policies.SecondChance.constructor | src/utils/policies.js:237-241 | a new SecondChance is empty, with an empty queue |
| Policies.SecondChance.Access | src/utils/policies.js:243-249 | answers residency; a hit sets the address's bit and changes nothing else |
| Policies.SecondChance.MakeRoom | src/utils/policies.js:253-261 | the `while` loop performs `Reclaim` on the fields |
| Policies.SecondChance.Admit | src/utils/policies.js:253-263 | one outer iteration performs `SecondChanceAdd` on the fields |
| Policies.SecondChance.AddBlock | src/utils/policies.js:251-265 | the state becomes `SecondChanceFill` of the old one |
| Blocks.BlockStart | src/App.js:119 | `blockStart` is a multiple of `blockSize`, at most the address, and within `blockSize` of it |
| Blocks.BlockEnd | src/App.js:120 | `blockEnd` is at least the address, and the block spans exactly `blockSize` addresses |
| Blocks.BlockUnique | src/App.js:119-120 | the block is the only aligned window of `blockSize` addresses holding the address |
| Blocks.SameBlock | src/App.js:119-120 | every address of a block maps to that same block |
| Counters.LevelHits | src/App.js:110-147 | `levelHits` after the accesses: one entry per cache level plus RAM and Disk; entry `k` is `ServedAt(k)`, the accesses served at cache level `k`, the next entry the RAM hits and the last the misses served from Disk |
| Counters.Bump | src/App.js:159-161 | the inner loop increments exactly the entries `0..upTo` |
| Counters.LevelAccesses | src/App.js:111-161 | `levelAccesses` after the accesses: one entry per cache level plus RAM and Disk; entry `k` is `ReachedAt(k)`, the accesses whose probe reached slot `k`, that is every slot up to the hit level, or every slot through Disk when no cache level hit |
| Counters.HitCount | src/App.js:134-140 | `hits` never exceeds the number of accesses |
| Counters.HitsAddUp | src/App.js:133-147 | each access increments exactly one `levelHits` entry, so `sum(levelHits) == addresses.length` |
| Counters.FirstLevelSeesAll | src/App.js:159-161 | `levelAccesses[0] == addresses.length` |
| Counters.AccessesNonIncreasing | src/App.js:159-161 | `levelAccesses` is non-increasing by index |
| Counters.HitsWithinAccesses | src/App.js:133-161 | `levelHits[i] <= levelAccesses[i]` at every index |
| Counters.RamAndDiskAccessesAgree | src/App.js:137-161 | RAM and Disk always show the same access count, since a RAM hit is charged through Disk |
| Counters.DiskCountsMisses | src/App.js:145-146 | the Disk entry of `levelHits` is `total - hits`, the `misses` of line 165 |
| Counters.Record | src/App.js:133-161 | one more access increments its `levelHits` slot, bumps `levelAccesses` up to the level it reached, and adds one to `hits` unless it missed |
| Levels.Instance.Access | src/App.js:123 | `cacheInstance.access(addr)` on any policy answers residency, changes nothing on a miss, never changes what is resident, and leaves the level exactly in the state `Used` gives for the address (the hit's recency or count update) |
| Levels.Used | src/utils/policies.js:9-248 | what a hit on a resident address does to each policy's state: LRU moves it to the newest end (lines 10-12), LFU, MFU and LFRU add one to its count (lines 84, 168, 205), second chance sets its reference bit (line 245), FIFO, Random and RR keep their state; a non-resident address changes nothing, and no policy's residents change |
| Levels.Instance.Resides | src/App.js:123 | a well-formed level holds an address exactly when its snapshot lists it as resident, so `Used` of a non-resident address is the identity |
| Levels.FirstHeld | src/App.js:122-128 | the address the block loop stops at: the lowest address of the block that the level holds |
| Levels.Instance.AddBlock | src/App.js:153 | `cacheInstance.addBlock(start, end)` performs that policy's fill and leaves `end` resident |
| Levels.Instantiate | src/App.js:74-100 | each `new X(size)` yields a fresh, empty instance of that kind and capacity |
| Levels.FirstHolder | src/App.js:117-131 | the level the probe stops at: one holding an address of the block, with no level before it holding any |
| Levels.HolderAt | src/App.js:117-131 | the converse: a level holding the block with none before it is the level the probe stops at |
| Levels.Extend | src/App.js:76 | one `push(new X(size))` appends a fresh, empty instance and leaves the earlier ones as they were |
| Levels.KindOf | src/App.js:74-104 | a recognised policy name selects the kind whose `case` label it is |
| Levels.NamesSelectKinds | src/App.js:74-104 | every kind is selected by its own label and by no other name |
| Levels.LevelKinds | src/App.js:73-105 | the dispatch with a `break` after every case: no instances exactly when a level exists and the name is unknown, otherwise one instance of the named kind per level |
| Levels.CaseAsWritten | src/App.js:74-104 | one pass of the `switch` as written aborts exactly on an unknown name |
| Levels.InstancesAsWritten | src/App.js:73-105 | the loop as written aborts exactly when a level exists and the name is unknown |
| Levels.LfuDoublesInstances | src/App.js:84-88 | as written, "LFU" builds `2 * levels` instances, alternating LFU and RAM; every other name builds the one-per-level list |
| Levels.OneLfuLevel | src/App.js:84-88 | one "LFU" level yields an LFU and a RAM instance where one LFU was meant |
| Simulator.Repeat | src/App.js:153 | one clock reading per address of the block |
| Simulator.FollowHolder | src/App.js:117-156 | after an access to a block, the next access to the same block finds it first at the level `Repeated` names |
| Simulator.RepeatsSnoc | src/App.js:113-162 | appending a result that respects its predecessor keeps the whole list respecting `RepeatsServed` |
| Simulator.ProbeBlock | src/App.js:122-128 | probing one level answers true exactly when some address of the block is resident there; a miss leaves it unchanged, a hit leaves it as `Used` of the block's first held address (`FirstHeld`), and nothing becomes or stops being resident |
| Simulator.ProbeAt | src/App.js:117-128 | probing level `i` answers whether it holds an address of the block, touches no other level, and on a hit leaves level `i` as `Used` of the block's first held address |
| Simulator.Probe | src/App.js:117-131 | the probe loop stops at `FirstHolder`; levels other than the hit level are unchanged, the hit level is left as `Used` of the block's first held address, and no residency changes |
| Simulator.FillAt | src/App.js:148-154 | filling level `i` applies its policy's fill and touches no other level |
| Simulator.FillLevels | src/App.js:148-154 | on a miss, every cache level receives `addBlock(blockStart, blockEnd)` and ends up holding `blockEnd` |
| Simulator.AddToRam | src/App.js:155 | `ram.addBlock(address, address)` applies the RAM fill and touches no cache level |
| Simulator.MissPath | src/App.js:137-156 | on a cache miss, the RAM answer is taken before any fill; then every level is filled with the block, and RAM with the address on both the RAM-hit and RAM-miss paths |
| Simulator.Step | src/App.js:114-156 | one access: a cache hit at the first level holding the block, which is left as `Used` of the block's first held address while every other level and RAM stay as they were; otherwise RAM hit exactly when RAM held the address, with every level and RAM refilled; the block is left as `Served` describes, and an access following its predecessor into the same block is served where `Repeated` says |
| Simulator.BuildLevels | src/App.js:71-105 | the corrected dispatch: aborts exactly when `LevelKinds` does, otherwise one fresh, empty, separate instance per level of the named kind and the configured size |
| Simulator.Tally | src/App.js:136-161 | increments the access's `levelHits` slot and `levelAccesses` up to the level reached, and touches no level |
| Simulator.Account | src/App.js:133-161 | the counters go from the tallies of the earlier results to those with this access added |
| Simulator.Visit | src/App.js:113-162 | one iteration of the `forEach`: the first access to an all-empty hierarchy misses, the block is left `Served`, a follow-up access to the same block is served where `Repeated` says, and the counters stay the tallies of the results |
| Simulator.Append | src/App.js:113-162 | `Visit` with its result appended: the counters stay the tallies and follow-up accesses stay served where `Repeated` says, over the longer list |
| Simulator.Run | src/App.js:108-162 | the `forEach`: one result per address in input order, the counters and `hits` are exactly the tallies of the results, and every follow-up access into the same block is served where `Repeated` says |
| Simulator.HandleFinish | src/App.js:67-165 | returns early exactly when there is no configuration; aborts exactly on an unknown policy name with at least one level; otherwise the report is `Tallied`, its first access is a miss, and it satisfies `RepeatsServed` |
| AddressInput.InRange | src/App.js:54-57 | the filter keeps exactly the parsed numbers with `0 <= a < addressSize`, dropping `NaN`s, never lengthening the input |
| AddressInput.InRangeAppend | src/App.js:54-57 | the filter keeps input order: filtering a concatenation concatenates the filters |
| AddressInput.InRangeKeepsValid | src/App.js:54-57 | an input of in-range numbers passes through unchanged |
| AddressInput.AddAddresses | src/App.js:54-64 | the alert path happens exactly when no parsed number is in range and leaves the list unchanged; otherwise the old list is a prefix of the new one, followed by the filtered input, and a list of in-range addresses stays one |
| Memory.MemoryKindOf | src/utils/memory.js:31-46 | `createCaches` recognises exactly "LRU", "FIFO", "Random" and "LFU", each selecting its own class |
| Memory.OlderDriverKinds | src/utils/memory.js:31-46 | of the nine policy kinds, only those four are known to `createCaches` |
| Memory.CreateCaches | src/utils/memory.js:27-50 | throws "Unknown replacement policy" exactly when a level exists and the name is unknown; otherwise returns exactly `levels` fresh, empty, separate caches of the named kind and the given sizes |
| Memory.AccessAt | src/utils/memory.js:55-56 | asking cache `i` answers residency, leaves cache `i` as `Used` of the address, and touches no other cache |
| Memory.FirstHit | src/utils/memory.js:53-61 | the loop breaks at the first cache holding the address; only that cache changes, to `Used` of the address, and nothing becomes resident |
| Memory.MemoryHierarchy.constructor | src/utils/memory.js:18-22 | a fresh hierarchy holds the built caches with `hits == 0` and `misses == 0` |
| Memory.MemoryHierarchy.AccessMemory | src/utils/memory.js:52-65 | exactly one of `hits` and `misses` goes up by one, `hits` exactly when some cache holds the address; only the first such cache changes, to `Used` of the address, and no cache gains or loses an address |
| Memory.NewHierarchy | src/utils/memory.js:12-45 | construction fails exactly when `createCaches` throws; otherwise both counters start at zero over `levels` empty caches of the named kind, cache `i` with capacity `cacheSizes[i]` |

## Left out

- The floating-point statistics: AMAT, hit rate, miss rate and per-level hit rates (`src/App.js:166-197`). They are JS divisions that can be `NaN`. The integer counters they are computed from are modelled.
- `Math.random` in RandomPolicy: each draw is a ghost `pick`, and the victim is the member at `pick % size`. The model shows only that the victim was resident and is the only one to leave.
- `Date.now()` in LFRU: the readings are a `clock` parameter with one reading per inserted address.
- Simulator.HandleFinish: takes one clock reading per access, and gives every address of that access's block the same reading. The source reads the clock once per inserted address.
- `split` and `parseInt` in `handleAddAddress`: their output is the `parsed` parameter, with `None` for `NaN`.
- React state, rendering and `alert`: the alerts become the `None` and `Err` results.
- Every policy constructor requires `1 <= size`. The UI only offers positive sizes. With size 0, SecondChance's eviction loop never ends and RR computes `% 0`.
- Simulator.HandleFinish: requires `blockSize > 0` and every level size to be at least 1, for the same reason.
- Simulator.HandleFinish: runs the dispatch the code evidently intends, one instance per level of the chosen kind (`Levels.LevelKinds`, built by `Simulator.BuildLevels`). It does not run the as-written `"LFU"` fall-through of `src/App.js:84-88`, which `Levels.InstancesAsWritten` models separately (see Findings).
- Simulator.HandleFinish: allocates the RAM store and the two counter arrays before building the cache instances. The source builds the instances first. No result depends on the order.
- The UI's cap of three cache levels (`src/components/UserInput.js:24-27`) is not needed by any proof, so the model allows any number of levels.
- Memory.CreateCaches: requires `levels <= sizes.length`. The source would pass `undefined` as a capacity.
- Memory.NewHierarchy: keeps only the caches and the counters. The configuration fields and the display constants of the `MemoryHierarchy` constructor (`src/utils/memory.js:13-24`) are not kept, since `createCaches` and `accessMemory` never read them.
- The `level` field of each result (a level index, `"RAM"` or `"Disk"`) is the `Status` of the result.

## Findings

| source | as written | input that shows it | evidently intended | confidence | as-written member | corrected member |
|---|---|---|---|---|---|---|
| src/App.js:84-88 | the `"LFU"` case has no `break`, so it falls through into `"RAM"`: each level pushes an LFU and then a RAM instance, and instance `i` is no longer cache level `i` | `replacementPolicy == "LFU"` with one cache level gives the instances `[LFU, RAM]`. A hit in the RAM instance is then counted in `levelHits[1]`, the RAM slot. A miss increments `levelAccesses[3]`, past the end of the three-entry array | one LFU instance per level, as every other case does | high (not executed) | Levels.InstancesAsWritten (shown by Levels.LfuDoublesInstances and Levels.OneLfuLevel) | Levels.LevelKinds (built by Simulator.BuildLevels) |
