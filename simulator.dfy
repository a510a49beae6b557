/** `handleFinish`: one policy instance per cache level and a RAM store;
    every address is looked up level by level at block granularity, a
    cache miss fills every level with the block and RAM with the address,
    and each access is recorded in `results`, `levelHits` and
    `levelAccesses`. */
module Simulator {
  import opened Ordered
  import opened Wrappers
  import opened Policies
  import opened Levels
  import opened Blocks
  import opened Counters

  /** `mainMemorySize`: the capacity of the RAM store. */
  const MainMemorySize: int := 8192

  datatype CacheLevel = CacheLevel(size: int, hitTime: int)

  /** The configuration `handleSimulate` stores. */
  datatype Hierarchy = Hierarchy(cacheLevels: seq<CacheLevel>, replacementPolicy: string)

  /** Why `handleFinish` returned before simulating. */
  datatype Abort = NoHierarchy | InvalidPolicy

  /** The integer outcome of a run: `results`, `hits`, `misses`, `levelHits`, `levelAccesses`. */
  datatype Report = Report(results: seq<AccessResult>, hits: nat, misses: int, levelHits: seq<nat>, levelAccesses: seq<nat>)

  /** The report a run over `addresses` must produce, whatever was resident:
      one result per address in input order, and counters that are exactly
      the tallies of those results. */
  ghost predicate Tallied(r: Report, addresses: seq<int>, levels: nat)
  {
    && |r.results| == |addresses|
    && (forall i :: 0 <= i < |addresses| ==> r.results[i].address == addresses[i])
    && WithinLevels(Statuses(r.results), levels)
    && r.levelHits == LevelHits(Statuses(r.results), levels)
    && r.levelAccesses == LevelAccesses(Statuses(r.results), levels)
    && r.hits == HitCount(Statuses(r.results))
    && r.misses == |addresses| - r.hits
  }

  /** The same reading repeated: one `Date.now()` per address of a fill. */
  function Repeat(v: int, n: nat): (r: seq<int>)
    ensures |r| == n && forall i :: 0 <= i < n ==> r[i] == v
  {
    seq(n, _ => v)
  }

  /** Where an access to `address` that ended with `status` leaves its
      block: first held at the level that hit, or, after a fill, at the
      first level, with the address in RAM. */
  ghost predicate Served(levels: seq<Instance>, ram: RAM, address: int, status: Status, blockSize: int)
    requires blockSize > 0
    reads Objects(levels), ram
  {
    var holder := FirstHolder(levels, BlockStart(address, blockSize), BlockEnd(address, blockSize), 0);
    match status
    case CacheHit(level) => holder == level
    case _ => address in ram.cache && holder == (if |levels| > 0 then 0 else -1)
  }

  /** `address` falls in the block of `prev`, and, when there is no cache
      level to hold that block, is `prev` itself. */
  predicate Follows(prev: int, address: int, blockSize: int, levels: nat)
    requires blockSize > 0
  {
    BlockStart(prev, blockSize) == BlockStart(address, blockSize) && (levels > 0 || prev == address)
  }

  /** Where an access that follows one served with `status` is served: at
      the same level after a cache hit, which changed no residency; at the
      first level after a fill; in RAM when there is no cache level. */
  function Repeated(status: Status, levels: nat): Status
  {
    match status
    case CacheHit(level) => CacheHit(level)
    case _ => if levels > 0 then CacheHit(0) else RamHit
  }

  /** After an access served with `status`, a later access to the same
      block finds it first at the level `Repeated` names, and, with no cache
      level, finds the address itself in RAM. */
  lemma FollowHolder(levels: seq<Instance>, ram: RAM, prev: int, status: Status, address: int, blockSize: int)
    requires blockSize > 0
    requires Served(levels, ram, prev, status, blockSize) && Follows(prev, address, blockSize, |levels|)
    ensures var h := FirstHolder(levels, BlockStart(address, blockSize), BlockEnd(address, blockSize), 0);
            match Repeated(status, |levels|)
            case CacheHit(level) => h == level
            case _ => h == -1 && address in ram.cache
  {
    assert BlockEnd(prev, blockSize) == BlockEnd(address, blockSize);
  }

  /** Every access that follows its predecessor into the same block is
      served where `Repeated` says. */
  predicate RepeatsServed(results: seq<AccessResult>, blockSize: int, levels: nat)
    requires blockSize > 0
  {
    forall j, k :: 0 <= j && k == j + 1 < |results| && Follows(results[j].address, results[k].address, blockSize, levels) ==>
      results[k].status == Repeated(results[j].status, levels)
  }

  lemma RepeatsSnoc(results: seq<AccessResult>, r: AccessResult, blockSize: int, levels: nat)
    requires blockSize > 0 && RepeatsServed(results, blockSize, levels)
    requires |results| > 0 && Follows(results[|results| - 1].address, r.address, blockSize, levels) ==>
               r.status == Repeated(results[|results| - 1].status, levels)
    ensures RepeatsServed(results + [r], blockSize, levels)
  {
    var more := results + [r];
    forall j, k | 0 <= j && k == j + 1 < |more| && Follows(more[j].address, more[k].address, blockSize, levels)
      ensures more[k].status == Repeated(more[j].status, levels)
    {
      if k < |results| {
        assert more[k] == results[k] && more[j] == results[j];
      } else {
        assert more[k] == r && more[j] == results[|results| - 1];
      }
    }
  }

  /** The probe of one level: `access` each address of the block, stopping
      at the first hit. The misses before it change nothing, so the level's
      state is what accessing the block's first resident address makes it. */
  method ProbeBlock(inst: Instance, start: int, end: int) returns (hit: bool)
    requires inst.Valid()
    modifies inst.Obj()
    ensures inst.Valid()
    ensures hit <==> old(BlockHeld(inst, start, end))
    ensures !hit ==> inst.Snap() == old(inst.Snap())
    ensures hit ==> inst.Snap() == Used(old(inst.Snap()), old(FirstHeld(inst, start, end)))
    ensures forall x :: inst.Holds(x) == old(inst.Holds(x))
  {
    hit := false;
    var addr := start;
    while addr <= end
      invariant inst.Valid()
      invariant start <= addr && (addr <= end + 1 || addr == start)
      invariant inst.Snap() == old(inst.Snap())
      invariant forall x :: inst.Holds(x) == old(inst.Holds(x))
      invariant forall a :: start <= a < addr ==> !inst.Holds(a)
    {
      hit := inst.Access(addr);
      if hit {
        assert old(BlockHeld(inst, start, end));
        assert addr == old(FirstHeld(inst, start, end));
        return;
      }
      addr := addr + 1;
    }
  }

  /** The probe of level `i`; no other level is touched. */
  method ProbeAt(levels: seq<Instance>, i: int, start: int, end: int) returns (hit: bool)
    requires Separate(levels) && 0 <= i < |levels| && levels[i].Valid()
    modifies levels[i].Obj()
    ensures levels[i].Valid()
    ensures hit <==> old(BlockHeld(levels[i], start, end))
    ensures !hit ==> levels[i].Snap() == old(levels[i].Snap())
    ensures hit ==> levels[i].Snap() == Used(old(levels[i].Snap()), old(FirstHeld(levels[i], start, end)))
    ensures forall j, x :: 0 <= j < |levels| ==> levels[j].Holds(x) == old(levels[j].Holds(x))
    ensures forall j :: 0 <= j < |levels| && j != i ==>
              && levels[j].Snap() == old(levels[j].Snap())
              && (old(levels[j].Valid()) ==> levels[j].Valid())
  {
    hit := ProbeBlock(levels[i], start, end);
    forall j | 0 <= j < |levels| && j != i
      ensures levels[j].Snap() == old(levels[j].Snap())
      ensures old(levels[j].Valid()) ==> levels[j].Valid()
      ensures forall x :: levels[j].Holds(x) == old(levels[j].Holds(x))
    {
      assert levels[j].Obj() != levels[i].Obj();
      levels[j].Kept();
    }
  }

  /** The probe loop over the levels: the hit is recorded at the first level
      holding some address of the block, whose state becomes what accessing
      its first resident address of the block makes it; no level after it
      is probed, and no other level changes. */
  method Probe(levels: seq<Instance>, start: int, end: int) returns (hitLevel: int)
    requires Separate(levels) && AllValid(levels)
    modifies Objects(levels)
    ensures AllValid(levels)
    ensures hitLevel == old(FirstHolder(levels, start, end, 0))
    ensures forall i, x :: 0 <= i < |levels| ==> levels[i].Holds(x) == old(levels[i].Holds(x))
    ensures forall i :: 0 <= i < |levels| && i != hitLevel ==> levels[i].Snap() == old(levels[i].Snap())
    ensures hitLevel >= 0 ==>
              levels[hitLevel].Snap() == Used(old(levels[hitLevel].Snap()), old(FirstHeld(levels[hitLevel], start, end)))
  {
    hitLevel := -1;
    var i := 0;
    while i < |levels|
      invariant 0 <= i <= |levels|
      invariant AllValid(levels)
      invariant forall j :: 0 <= j < i ==> !old(BlockHeld(levels[j], start, end))
      invariant forall j, x :: 0 <= j < |levels| ==> levels[j].Holds(x) == old(levels[j].Holds(x))
      invariant forall j :: 0 <= j < |levels| ==> levels[j].Snap() == old(levels[j].Snap())
    {
      var hit := ProbeAt(levels, i, start, end);
      if hit {
        hitLevel := i;
        return;
      }
      i := i + 1;
    }
  }

  /** The fill of level `i`; no other level is touched. */
  method FillAt(levels: seq<Instance>, i: int, start: int, end: int, clock: seq<int>)
    requires Separate(levels) && 0 <= i < |levels| && levels[i].Valid() && |clock| == |Range(start, end)|
    modifies levels[i].Obj()
    ensures levels[i].Valid()
    ensures Refilled(old(levels[i].Snap()), levels[i].Snap(), levels[i].Capacity(), start, end, clock)
    ensures start <= end ==> levels[i].Holds(end)
    ensures forall j :: 0 <= j < |levels| && j != i ==>
              && levels[j].Snap() == old(levels[j].Snap())
              && (old(levels[j].Valid()) ==> levels[j].Valid())
              && (old(levels[j].Holds(end)) ==> levels[j].Holds(end))
  {
    levels[i].AddBlock(start, end, clock);
    forall j | 0 <= j < |levels| && j != i
      ensures levels[j].Snap() == old(levels[j].Snap())
      ensures old(levels[j].Valid()) ==> levels[j].Valid()
      ensures old(levels[j].Holds(end)) ==> levels[j].Holds(end)
    {
      assert levels[j].Obj() != levels[i].Obj();
      levels[j].Kept();
    }
  }

  /** The fill after a cache miss: every level receives `addBlock(start, end)`. */
  method FillLevels(levels: seq<Instance>, start: int, end: int, clock: seq<int>)
    requires Separate(levels) && AllValid(levels) && |clock| == |Range(start, end)|
    modifies Objects(levels)
    ensures AllValid(levels)
    ensures forall i :: 0 <= i < |levels| ==>
              Refilled(old(levels[i].Snap()), levels[i].Snap(), levels[i].Capacity(), start, end, clock)
    ensures start <= end ==> forall i :: 0 <= i < |levels| ==> levels[i].Holds(end)
  {
    var i := 0;
    while i < |levels|
      invariant 0 <= i <= |levels|
      invariant AllValid(levels)
      invariant forall j :: 0 <= j < i ==>
                  Refilled(old(levels[j].Snap()), levels[j].Snap(), levels[j].Capacity(), start, end, clock)
      invariant forall j :: i <= j < |levels| ==> levels[j].Snap() == old(levels[j].Snap())
      invariant start <= end ==> forall j :: 0 <= j < i ==> levels[j].Holds(end)
    {
      FillAt(levels, i, start, end, clock);
      i := i + 1;
    }
  }

  /** `ram.addBlock(address, address)`; no level is touched. */
  method AddToRam(levels: seq<Instance>, ram: RAM, address: int)
    requires ram !in Objects(levels) && ram.Valid()
    modifies ram
    ensures ram.Valid() && ram.cache == FillOldest(old(ram.cache), ram.size, address, address)
    ensures forall i :: 0 <= i < |levels| ==>
              && levels[i].Snap() == old(levels[i].Snap())
              && (old(levels[i].Valid()) ==> levels[i].Valid())
              && forall x :: levels[i].Holds(x) == old(levels[i].Holds(x))
  {
    ram.AddBlock(address, address);
    forall i | 0 <= i < |levels|
      ensures levels[i].Snap() == old(levels[i].Snap())
      ensures old(levels[i].Valid()) ==> levels[i].Valid()
      ensures forall x :: levels[i].Holds(x) == old(levels[i].Holds(x))
    {
      assert levels[i].Obj() in Objects(levels);
      levels[i].Kept();
    }
  }

  /** The miss path: RAM is probed for the address, every level is filled
      with the block, and RAM with the address. */
  method MissPath(levels: seq<Instance>, ram: RAM, address: int, start: int, end: int, clock: seq<int>)
    returns (hitInRam: bool)
    requires Separate(levels) && ram !in Objects(levels) && |clock| == |Range(start, end)|
    requires AllValid(levels) && ram.Valid()
    modifies Objects(levels), ram
    ensures AllValid(levels) && ram.Valid()
    ensures hitInRam <==> address in old(ram.cache)
    ensures ram.cache == FillOldest(old(ram.cache), ram.size, address, address)
    ensures forall i :: 0 <= i < |levels| ==>
              Refilled(old(levels[i].Snap()), levels[i].Snap(), levels[i].Capacity(), start, end, clock)
    ensures start <= end ==> forall i :: 0 <= i < |levels| ==> levels[i].Holds(end)
    ensures address in ram.cache
  {
    hitInRam := ram.Access(address);
    FillLevels(levels, start, end, clock);
    AddToRam(levels, ram, address);
  }

  /** One address of `addresses.forEach`. A cache hit touches neither the
      fills nor RAM; otherwise RAM is probed for the address, every level
      is filled with the block and RAM with the address. */
  method Step(levels: seq<Instance>, ram: RAM, address: int, blockSize: int, now: int,
              ghost prev: int, ghost prevStatus: Status)
    returns (status: Status)
    requires blockSize > 0 && Separate(levels) && ram !in Objects(levels)
    requires AllValid(levels) && ram.Valid()
    modifies Objects(levels), ram
    ensures AllValid(levels) && ram.Valid()
    ensures status.CacheHit? ==>
              && status.level < |levels|
              && old(BlockHeld(levels[status.level], BlockStart(address, blockSize), BlockEnd(address, blockSize)))
    ensures forall i :: 0 <= i < |levels| && (!status.CacheHit? || i < status.level) ==>
              !old(BlockHeld(levels[i], BlockStart(address, blockSize), BlockEnd(address, blockSize)))
    ensures status.CacheHit? ==>
              ram.cache == old(ram.cache) &&
              forall i, x :: 0 <= i < |levels| ==> levels[i].Holds(x) == old(levels[i].Holds(x))
    ensures status.CacheHit? ==>
              && levels[status.level].Snap()
                 == Used(old(levels[status.level].Snap()),
                         old(FirstHeld(levels[status.level], BlockStart(address, blockSize), BlockEnd(address, blockSize))))
              && forall i :: 0 <= i < |levels| && i != status.level ==> levels[i].Snap() == old(levels[i].Snap())
    ensures !status.CacheHit? ==> (status.RamHit? <==> address in old(ram.cache))
    ensures !status.CacheHit? ==>
              ram.cache == FillOldest(old(ram.cache), ram.size, address, address) &&
              forall i :: 0 <= i < |levels| ==>
                Refilled(old(levels[i].Snap()), levels[i].Snap(), levels[i].Capacity(),
                         BlockStart(address, blockSize), BlockEnd(address, blockSize), Repeat(now, blockSize))
    ensures Served(levels, ram, address, status, blockSize)
    ensures old(Served(levels, ram, prev, prevStatus, blockSize)) && Follows(prev, address, blockSize, |levels|) ==>
              status == Repeated(prevStatus, |levels|)
  {
    var blockStart := BlockStart(address, blockSize);
    var blockEnd := BlockEnd(address, blockSize);
    if Served(levels, ram, prev, prevStatus, blockSize) && Follows(prev, address, blockSize, |levels|) {
      FollowHolder(levels, ram, prev, prevStatus, address, blockSize);
    }
    var hitLevel := Probe(levels, blockStart, blockEnd);
    if hitLevel >= 0 {
      status := CacheHit(hitLevel);
      HolderAt(levels, blockStart, blockEnd, hitLevel);
      return;
    }
    label probed:
    var hitInRam := MissPath(levels, ram, address, blockStart, blockEnd, Repeat(now, blockSize));
    status := if hitInRam then RamHit else Miss;
    if |levels| > 0 {
      assert levels[0].Holds(blockEnd);
      HolderAt(levels, blockStart, blockEnd, 0);
    } else {
      HolderAt(levels, blockStart, blockEnd, -1);
    }
    forall i | 0 <= i < |levels|
      ensures Refilled(old(levels[i].Snap()), levels[i].Snap(), levels[i].Capacity(), blockStart, blockEnd, Repeat(now, blockSize))
    {
      assert old@probed(levels[i].Snap()) == old(levels[i].Snap());
    }
  }

  /** The `switch` inside the loop over `cacheLevels`, with the `"LFU"` case
      ending in a `break`: one fresh, empty instance per level, all of the
      named kind; `None` at the `default:` branch. */
  method BuildLevels(cacheLevels: seq<CacheLevel>, policy: string) returns (r: Option<seq<Instance>>)
    requires forall i :: 0 <= i < |cacheLevels| ==> cacheLevels[i].size >= 1
    ensures r.None? <==> LevelKinds(policy, |cacheLevels|).None?
    ensures r.Some? ==>
              && |r.value| == |cacheLevels|
              && Separate(r.value) && AllValid(r.value)
              && forall i :: 0 <= i < |cacheLevels| ==>
                   && fresh(r.value[i].Obj())
                   && r.value[i].Kind() == LevelKinds(policy, |cacheLevels|).value[i]
                   && r.value[i].Capacity() == cacheLevels[i].size
                   && forall a :: !r.value[i].Holds(a)
  {
    var levels: seq<Instance> := [];
    var i := 0;
    while i < |cacheLevels|
      invariant 0 <= i <= |cacheLevels| && |levels| == i
      invariant i > 0 ==> KindOf(policy).Some?
      invariant Separate(levels) && AllValid(levels)
      invariant forall j :: 0 <= j < i ==>
                  && fresh(levels[j].Obj())
                  && levels[j].Kind() == KindOf(policy).value
                  && levels[j].Capacity() == cacheLevels[j].size
                  && forall a :: !levels[j].Holds(a)
    {
      match KindOf(policy)
      case None =>
        return None;
      case Some(kind) =>
        levels := Extend(levels, kind, cacheLevels[i].size);
      i := i + 1;
    }
    return Some(levels);
  }

  /** The counters of one access: `levelHits` at the slot that served it,
      and the loop that adds one access to every `levelAccesses` entry up
      to the level that served it, or through Disk when no cache level did.
      The levels themselves are left alone. */
  method Tally(ghost levels: seq<Instance>, ghost ram: RAM, levelHits: array<nat>, levelAccesses: array<nat>,
               ghost address: int, ghost blockSize: int, status: Status, count: nat)
    requires count == |levels| && blockSize > 0 && ram !in Objects(levels)
    requires levelHits.Length == count + 2 && levelAccesses.Length == count + 2
    requires levelHits != levelAccesses
    requires levelHits !in Objects(levels) && levelAccesses !in Objects(levels) && AllValid(levels)
    requires status.CacheHit? ==> status.level < count
    modifies levelHits, levelAccesses
    ensures AllValid(levels)
    ensures old(Served(levels, ram, address, status, blockSize)) ==> Served(levels, ram, address, status, blockSize)
    ensures levelHits[..] == old(levelHits[..])[HitSlot(status, count) := old(levelHits[HitSlot(status, count)]) + 1]
    ensures levelAccesses[..] == Bump(old(levelAccesses[..]), ReachedSlot(status, count))
  {
    var slot := HitSlot(status, count);
    levelHits[slot] := levelHits[slot] + 1;
    ghost var counted := levelHits[..];
    var upTo := ReachedSlot(status, count);
    var i := 0;
    while i <= upTo
      invariant 0 <= i <= upTo + 1
      invariant levelHits[..] == counted
      invariant levelAccesses[..] == Bump(old(levelAccesses[..]), i - 1)
    {
      levelAccesses[i] := levelAccesses[i] + 1;
      i := i + 1;
    }
    ghost var start := BlockStart(address, blockSize);
    ghost var end := BlockEnd(address, blockSize);
    forall j | 0 <= j < |levels|
      ensures levels[j].Valid()
      ensures BlockHeld(levels[j], start, end) == old(BlockHeld(levels[j], start, end))
    {
      assert levels[j].Obj() in Objects(levels);
      levels[j].Kept();
    }
    HolderAt(levels, start, end, old(FirstHolder(levels, start, end, 0)));
  }

  /** Nothing is resident at any level or in RAM. */
  ghost predicate Empty(levels: seq<Instance>, ram: RAM)
    reads Objects(levels), ram
  {
    ram.cache == [] && forall j, a :: 0 <= j < |levels| ==> !levels[j].Holds(a)
  }

  /** The counting that follows one access: the counters go from the
      tallies of `done` to those of `done` and this access. */
  method Account(ghost levels: seq<Instance>, ghost ram: RAM, levelHits: array<nat>, levelAccesses: array<nat>,
                 ghost done: seq<AccessResult>, ghost address: int, ghost blockSize: int, status: Status, count: nat)
    requires count == |levels| && blockSize > 0 && ram !in Objects(levels)
    requires levelHits != levelAccesses
    requires levelHits !in Objects(levels) && levelAccesses !in Objects(levels) && AllValid(levels)
    requires status.CacheHit? ==> status.level < count
    requires WithinLevels(Statuses(done), count)
    requires levelHits[..] == LevelHits(Statuses(done), count)
    requires levelAccesses[..] == LevelAccesses(Statuses(done), count)
    modifies levelHits, levelAccesses
    ensures AllValid(levels)
    ensures old(Served(levels, ram, address, status, blockSize)) ==> Served(levels, ram, address, status, blockSize)
    ensures WithinLevels(Statuses(done + [AccessResult(address, status)]), count)
    ensures levelHits[..] == LevelHits(Statuses(done + [AccessResult(address, status)]), count)
    ensures levelAccesses[..] == LevelAccesses(Statuses(done + [AccessResult(address, status)]), count)
    ensures HitCount(Statuses(done + [AccessResult(address, status)]))
            == HitCount(Statuses(done)) + (if status.Miss? then 0 else 1)
  {
    ghost var before := Statuses(done);
    ResultsSnoc(done, AccessResult(address, status));
    Record(before, status, count);
    Tally(levels, ram, levelHits, levelAccesses, address, blockSize, status, count);
  }

  /** One call of the `addresses.forEach` callback: the probe, the fill
      on a miss, and the counters, which go on being the tallies of the
      results recorded so far (`done`) and this one. */
  method Visit(levels: seq<Instance>, ram: RAM, levelHits: array<nat>, levelAccesses: array<nat>,
               ghost done: seq<AccessResult>, address: int, blockSize: int, now: int)
    returns (status: Status)
    requires blockSize > 0 && Separate(levels) && AllValid(levels) && ram.Valid()
    requires ram !in Objects(levels) && levelHits !in Objects(levels) && levelAccesses !in Objects(levels)
    requires levelHits != levelAccesses
    requires |done| > 0 ==> Served(levels, ram, done[|done| - 1].address, done[|done| - 1].status, blockSize)
    requires WithinLevels(Statuses(done), |levels|)
    requires levelHits[..] == LevelHits(Statuses(done), |levels|)
    requires levelAccesses[..] == LevelAccesses(Statuses(done), |levels|)
    modifies Objects(levels), ram, levelHits, levelAccesses
    ensures AllValid(levels) && ram.Valid()
    ensures old(Empty(levels, ram)) ==> status == Miss
    ensures Served(levels, ram, address, status, blockSize)
    ensures |done| > 0 && Follows(done[|done| - 1].address, address, blockSize, |levels|) ==>
              status == Repeated(done[|done| - 1].status, |levels|)
    ensures WithinLevels(Statuses(done + [AccessResult(address, status)]), |levels|)
    ensures levelHits[..] == LevelHits(Statuses(done + [AccessResult(address, status)]), |levels|)
    ensures levelAccesses[..] == LevelAccesses(Statuses(done + [AccessResult(address, status)]), |levels|)
    ensures HitCount(Statuses(done + [AccessResult(address, status)]))
            == HitCount(Statuses(done)) + (if status.Miss? then 0 else 1)
  {
    ghost var prev := if |done| > 0 then done[|done| - 1] else AccessResult(address, Miss);
    status := Step(levels, ram, address, blockSize, now, prev.address, prev.status);
    Account(levels, ram, levelHits, levelAccesses, done, address, blockSize, status, |levels|);
  }

  /** `Visit` with its result appended to the results recorded so far. */
  method Append(levels: seq<Instance>, ram: RAM, levelHits: array<nat>, levelAccesses: array<nat>,
                done: seq<AccessResult>, address: int, blockSize: int, now: int)
    returns (status: Status, more: seq<AccessResult>)
    requires blockSize > 0 && Separate(levels) && AllValid(levels) && ram.Valid()
    requires ram !in Objects(levels) && levelHits !in Objects(levels) && levelAccesses !in Objects(levels)
    requires levelHits != levelAccesses
    requires |done| > 0 ==> Served(levels, ram, done[|done| - 1].address, done[|done| - 1].status, blockSize)
    requires WithinLevels(Statuses(done), |levels|)
    requires levelHits[..] == LevelHits(Statuses(done), |levels|)
    requires levelAccesses[..] == LevelAccesses(Statuses(done), |levels|)
    requires RepeatsServed(done, blockSize, |levels|)
    modifies Objects(levels), ram, levelHits, levelAccesses
    ensures more == done + [AccessResult(address, status)]
    ensures AllValid(levels) && ram.Valid()
    ensures old(Empty(levels, ram)) ==> status == Miss
    ensures Served(levels, ram, more[|done|].address, more[|done|].status, blockSize)
    ensures Addresses(more) == Addresses(done) + [address]
    ensures WithinLevels(Statuses(more), |levels|)
    ensures levelHits[..] == LevelHits(Statuses(more), |levels|)
    ensures levelAccesses[..] == LevelAccesses(Statuses(more), |levels|)
    ensures HitCount(Statuses(more)) == HitCount(Statuses(done)) + (if status.Miss? then 0 else 1)
    ensures RepeatsServed(more, blockSize, |levels|)
  {
    status := Visit(levels, ram, levelHits, levelAccesses, done, address, blockSize, now);
    ResultsSnoc(done, AccessResult(address, status));
    RepeatsSnoc(done, AccessResult(address, status), blockSize, |levels|);
    more := done + [AccessResult(address, status)];
  }

  /** The `addresses.forEach` loop: one result per address, in order, with
      the counters kept as the tallies of the results. */
  method Run(levels: seq<Instance>, ram: RAM, levelHits: array<nat>, levelAccesses: array<nat>,
             addresses: seq<int>, blockSize: int, clock: seq<int>)
    returns (results: seq<AccessResult>, hits: nat)
    requires blockSize > 0 && |clock| == |addresses|
    requires Separate(levels) && AllValid(levels) && ram.Valid()
    requires ram !in Objects(levels) && levelHits !in Objects(levels) && levelAccesses !in Objects(levels)
    requires levelHits != levelAccesses
    requires levelHits[..] == Zeros(|levels| + 2) && levelAccesses[..] == Zeros(|levels| + 2)
    modifies Objects(levels), ram, levelHits, levelAccesses
    ensures Addresses(results) == addresses
    ensures WithinLevels(Statuses(results), |levels|)
    ensures levelHits[..] == LevelHits(Statuses(results), |levels|)
    ensures levelAccesses[..] == LevelAccesses(Statuses(results), |levels|)
    ensures hits == HitCount(Statuses(results))
    ensures old(Empty(levels, ram)) && |addresses| > 0 ==> results[0].status == Miss
    ensures RepeatsServed(results, blockSize, |levels|)
  {
    hits := 0;
    results := [];
    var k := 0;
    while k < |addresses|
      invariant 0 <= k <= |addresses| && |results| == k
      invariant AllValid(levels) && ram.Valid()
      invariant Addresses(results) == addresses[..k]
      invariant WithinLevels(Statuses(results), |levels|)
      invariant levelHits[..] == LevelHits(Statuses(results), |levels|)
      invariant levelAccesses[..] == LevelAccesses(Statuses(results), |levels|)
      invariant hits == HitCount(Statuses(results))
      invariant k == 0 ==> Empty(levels, ram) == old(Empty(levels, ram))
      invariant k > 0 && old(Empty(levels, ram)) ==> results[0].status == Miss
      invariant k > 0 ==> Served(levels, ram, results[k - 1].address, results[k - 1].status, blockSize)
      invariant RepeatsServed(results, blockSize, |levels|)
    {
      var status;
      status, results := Append(levels, ram, levelHits, levelAccesses, results, addresses[k], blockSize, clock[k]);
      if !status.Miss? {
        hits := hits + 1;
      }
      TakeOneMore(addresses, k);
      k := k + 1;
    }
    assert addresses[..k] == addresses;
  }

  /** `handleFinish` over the integer outcome: nothing without a
      configuration, an error for an unknown policy name when there is a
      level, and otherwise one result per address whose counters are
      exactly the tallies of the results. Every level and RAM start empty,
      so the first access is a miss. `clock` holds the `Date.now()` reading
      taken during each access. */
  method HandleFinish(hierarchy: Option<Hierarchy>, addresses: seq<int>, blockSize: int, clock: seq<int>)
    returns (r: Result<Report, Abort>)
    requires blockSize > 0 && |clock| == |addresses|
    requires hierarchy.Some? ==>
               forall i :: 0 <= i < |hierarchy.value.cacheLevels| ==> hierarchy.value.cacheLevels[i].size >= 1
    ensures hierarchy.None? <==> r == Err(NoHierarchy)
    ensures hierarchy.Some? ==>
              (r == Err(InvalidPolicy) <==>
               LevelKinds(hierarchy.value.replacementPolicy, |hierarchy.value.cacheLevels|).None?)
    ensures r.Ok? ==> hierarchy.Some? && Tallied(r.value, addresses, |hierarchy.value.cacheLevels|)
    ensures r.Ok? && |addresses| > 0 ==> r.value.results[0].status == Miss
    ensures r.Ok? ==> hierarchy.Some? && RepeatsServed(r.value.results, blockSize, |hierarchy.value.cacheLevels|)
  {
    if hierarchy.None? {
      return Err(NoHierarchy);
    }
    var cacheLevels := hierarchy.value.cacheLevels;
    var L := |cacheLevels|;
    var ram := new RAM(MainMemorySize);
    var levelHits := new nat[L + 2](_ => 0);
    var levelAccesses := new nat[L + 2](_ => 0);
    var built := BuildLevels(cacheLevels, hierarchy.value.replacementPolicy);
    if built.None? {
      return Err(InvalidPolicy);
    }
    var levels := built.value;
    assert levelHits[..] == Zeros(L + 2) && levelAccesses[..] == Zeros(L + 2);
    assert Empty(levels, ram);
    var results, hits := Run(levels, ram, levelHits, levelAccesses, addresses, blockSize, clock);
    return Ok(Report(results, hits, |addresses| - hits, levelHits[..], levelAccesses[..]));
  }
}
