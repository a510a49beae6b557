/** The nine eviction policies of the simulator (`src/utils/policies.js`).
    Each is a class with a fixed capacity `size`, a membership probe
    `Access` and a fill `AddBlock(start, end)` that inserts the addresses
    `start..end` one at a time, evicting by the policy's rule whenever the
    store is full. Each class is proved against a pure function giving its
    state after one insert and after a whole fill; the victim rules and the
    capacity bounds are proved about those functions. */
module Policies {
  import opened Ordered
  import opened Wrappers

  /** The entry of a fill's per-address readings (`Date.now()` for LFRU,
      the `Math.random()` index for RandomPolicy) at offset `i`; the
      classes pass one entry per address, so `default` is never used by
      them. */
  function EntryAt<T>(s: seq<T>, i: int, default: T): T
  {
    if 0 <= i < |s| then s[i] else default
  }

  // ---------------------------------------------------------------------
  // Oldest-first eviction: LRU's and RAM's `addBlock`
  // ---------------------------------------------------------------------

  /** One pass of the fill loop of LRU and RAM: when the store is full its
      first key (the least recently used for LRU, the earliest inserted for
      RAM) is deleted; then `addr` is set, keeping its place if present. */
  function EvictOldestThenAdd(keys: seq<int>, size: int, addr: int): (r: seq<int>)
    requires Distinct(keys) && 1 <= size && |keys| <= size
    ensures Distinct(r) && |r| <= size && addr in r
    ensures forall x :: x in r ==> x in keys || x == addr
    ensures |keys| < size ==> forall x :: x in keys ==> x in r
    ensures |keys| == size ==> forall i :: 1 <= i < |keys| ==> keys[i] in r
    ensures |keys| == size ==> (keys[0] in r <==> keys[0] == addr)
  {
    if |keys| >= size then
      RemoveFirst(keys);
      Insert(Remove(keys, keys[0]), addr)
    else
      Insert(keys, addr)
  }

  /** `addBlock(start, end)` of LRU and RAM, address by address. */
  function FillOldest(keys: seq<int>, size: int, start: int, end: int): (r: seq<int>)
    requires Distinct(keys) && 1 <= size && |keys| <= size
    ensures Distinct(r) && |r| <= size
    ensures start <= end ==> end in r
    ensures forall x :: x in r ==> x in keys || start <= x <= end
    decreases end - start
  {
    if start > end then keys
    else EvictOldestThenAdd(FillOldest(keys, size, start, end - 1), size, end)
  }

  /** In a full store, a non-resident address replaces the oldest key. */
  lemma EvictOldestWhenFull(keys: seq<int>, size: int, addr: int)
    requires Distinct(keys) && 1 <= size && |keys| == size && addr !in keys
    ensures EvictOldestThenAdd(keys, size, addr) == keys[1..] + [addr]
  {
    RemoveFirst(keys);
    assert addr !in keys[1..];
  }

  /** A full store of `s` after taking the addresses `start..end` one by one:
      its `end - start + 1` oldest entries gone, the new addresses appended. */
  function Window(s: seq<int>, start: int, end: int): seq<int>
    requires start <= end + 1 && end - start + 1 <= |s|
  {
    s[end - start + 1..] + Range(start, end)
  }

  /** Dropping the head of a window and appending the next address slides
      the window by one. */
  lemma SlideWindow(s: seq<int>, start: int, end: int)
    requires start <= end && end - start + 1 <= |s|
    ensures |Window(s, start, end - 1)| == |s|
    ensures Window(s, start, end - 1)[1..] + [end] == Window(s, start, end)
  {
    var k := end - start + 1;
    var head, init := s[k - 1..], Range(start, end - 1);
    assert Window(s, start, end - 1) == head + init;
    assert (head + init)[1..] == head[1..] + init;
    assert head[1..] == s[k..];
    assert Range(start, end) == init + [end];
    assert (s[k..] + init) + [end] == s[k..] + (init + [end]);
  }

  /** Filling a full store with `k <= size` addresses none of which is
      resident evicts exactly the `k` oldest keys, in order. */
  lemma {:induction false} FillOldestEvictsOldest(keys: seq<int>, size: int, start: int, end: int)
    requires Distinct(keys) && 1 <= size && |keys| == size
    requires start <= end && end - start + 1 <= size
    requires forall x :: x in keys ==> x < start || end < x
    ensures FillOldest(keys, size, start, end) == Window(keys, start, end)
    decreases end - start
  {
    var before := FillOldest(keys, size, start, end - 1);
    if start < end {
      FillOldestEvictsOldest(keys, size, start, end - 1);
    } else {
      assert Window(keys, start, end - 1) == keys;
    }
    EvictOldestFromWindow(keys, size, start, end, before);
  }

  /** The step of `FillOldestEvictsOldest`: address `end` evicts the oldest
      key left in the window. */
  lemma EvictOldestFromWindow(keys: seq<int>, size: int, start: int, end: int, before: seq<int>)
    requires Distinct(keys) && 1 <= size && |keys| == size
    requires start <= end && end - start + 1 <= size
    requires forall x :: x in keys ==> x < start || end < x
    requires before == Window(keys, start, end - 1) && Distinct(before)
    ensures EvictOldestThenAdd(before, size, end) == Window(keys, start, end)
  {
    var tail := keys[end - start..];
    assert Window(keys, start, end - 1) == tail + Range(start, end - 1);
    assert end !in tail by {
      assert end !in keys;
      assert forall j :: 0 <= j < |tail| ==> tail[j] == keys[j + end - start];
    }
    RangeMembers(start, end - 1, end);
    SlideWindow(keys, start, end);
    EvictOldestWhenFull(Window(keys, start, end - 1), size, end);
  }

  /** Filling a store that has room for every address of a fresh range
      evicts nothing and appends the range. */
  lemma {:induction false} FillOldestBelowCapacity(keys: seq<int>, size: int, start: int, end: int)
    requires Distinct(keys) && 1 <= size && |keys| <= size
    requires |keys| + |Range(start, end)| <= size
    requires forall x :: x in keys ==> x < start || end < x
    ensures FillOldest(keys, size, start, end) == keys + Range(start, end)
    decreases end - start
  {
    if start <= end {
      FillOldestBelowCapacity(keys, size, start, end - 1);
      assert end !in keys + Range(start, end - 1);
    }
  }

  /** LRU's probe on a hit: the address moves to the most recent (last) position. */
  function Touch(keys: seq<int>, addr: int): (r: seq<int>)
    requires Distinct(keys)
    ensures Distinct(r) && |r| == |keys|
    ensures forall x :: x in r <==> x in keys
    ensures addr in keys ==> r[|r| - 1] == addr
    ensures addr in keys ==> r[..|r| - 1] == Remove(keys, addr)
    ensures addr !in keys ==> r == keys
  {
    if addr in keys then
      var rest := Remove(keys, addr);
      DistinctSnoc(rest, addr);
      rest + [addr]
    else keys
  }

  /** The LRU rule: in a full store, an address that was just probed
      survives the next insertion of a fresh address, and the victim is the
      first key other than the probed one. */
  lemma LruSparesTouched(keys: seq<int>, size: int, touched: int, incoming: int)
    requires Distinct(keys) && 2 <= size && |keys| == size
    requires touched in keys && incoming !in keys
    ensures var victim := if keys[0] == touched then keys[1] else keys[0];
            var r := EvictOldestThenAdd(Touch(keys, touched), size, incoming);
            touched in r && incoming in r && victim !in r
  {
    var t := Touch(keys, touched);
    var victim := if keys[0] == touched then keys[1] else keys[0];
    var rest := Remove(keys, touched);
    assert t == rest + [touched];
    if keys[0] == touched {
      RemoveFirst(keys);
      assert rest == keys[1..];
    } else {
      assert keys == [keys[0]] + keys[1..];
      DistinctCons(keys[0], keys[1..]);
      assert rest == [keys[0]] + Remove(keys[1..], touched);
    }
    assert t[0] == victim;
  }

  class LRU {
    const size: int
    /** Keys of the source's `cache` Map, least recently used first (its values are always `true`). */
    var cache: seq<int>

    ghost predicate Valid()
      reads this
    {
      1 <= size && Distinct(cache) && |cache| <= size
    }

    constructor (size: int)
      requires 1 <= size
      ensures Valid() && this.size == size && cache == []
    {
      this.size := size;
      cache := [];
    }

    method Access(address: int) returns (hit: bool)
      requires Valid()
      modifies this
      ensures Valid()
      ensures hit <==> address in old(cache)
      ensures cache == Touch(old(cache), address)
    {
      if address in cache {
        cache := Remove(cache, address);
        DistinctSnoc(cache, address);
        cache := cache + [address];
        return true;
      }
      return false;
    }

    /** One pass of the fill loop of `addBlock`. */
    method Admit(addr: int)
      requires Valid()
      modifies this
      ensures Valid()
      ensures cache == EvictOldestThenAdd(old(cache), size, addr)
    {
      if |cache| >= size {
        var firstKey := cache[0];
        cache := Remove(cache, firstKey);
      }
      cache := Insert(cache, addr);
    }

    method AddBlock(start: int, end: int)
      requires Valid()
      modifies this
      ensures Valid()
      ensures cache == FillOldest(old(cache), size, start, end)
    {
      var addr := start;
      while addr <= end
        invariant Valid()
        invariant start <= addr && (addr <= end + 1 || addr == start)
        invariant cache == FillOldest(old(cache), size, start, addr - 1)
      {
        Admit(addr);
        addr := addr + 1;
      }
    }
  }

  class RAM {
    const size: int
    /** Members of the source's `cache` Set, in insertion order. */
    var cache: seq<int>

    ghost predicate Valid()
      reads this
    {
      1 <= size && Distinct(cache) && |cache| <= size
    }

    constructor (size: int)
      requires 1 <= size
      ensures Valid() && this.size == size && cache == []
    {
      this.size := size;
      cache := [];
    }

    /** A pure membership test: nothing changes. */
    predicate Access(address: int): (hit: bool)
      reads this
      ensures hit <==> address in cache
    {
      address in cache
    }

    /** One pass of the fill loop of `addBlock`. */
    method Admit(addr: int)
      requires Valid()
      modifies this
      ensures Valid()
      ensures cache == EvictOldestThenAdd(old(cache), size, addr)
    {
      if |cache| >= size {
        cache := Remove(cache, cache[0]);
      }
      cache := Insert(cache, addr);
    }

    method AddBlock(start: int, end: int)
      requires Valid()
      modifies this
      ensures Valid()
      ensures cache == FillOldest(old(cache), size, start, end)
    {
      var addr := start;
      while addr <= end
        invariant Valid()
        invariant start <= addr && (addr <= end + 1 || addr == start)
        invariant cache == FillOldest(old(cache), size, start, addr - 1)
      {
        Admit(addr);
        addr := addr + 1;
      }
    }
  }

  // ---------------------------------------------------------------------
  // FIFO: an array used as a queue, duplicates allowed
  // ---------------------------------------------------------------------

  /** One pass of FIFO's fill loop: a full queue drops its head, then `addr`
      is pushed (even if it is already queued). */
  function FifoPush(queue: seq<int>, size: int, addr: int): (r: seq<int>)
    requires 1 <= size && |queue| <= size
    ensures 0 < |r| <= size && r[|r| - 1] == addr
    ensures forall x :: x in r ==> x in queue || x == addr
    ensures |queue| < size ==> multiset(r) == multiset(queue) + multiset{addr}
    ensures |queue| == size ==> multiset(r) == multiset(queue) - multiset{queue[0]} + multiset{addr}
  {
    if |queue| >= size then
      assert queue == [queue[0]] + queue[1..];
      queue[1..] + [addr]
    else queue + [addr]
  }

  /** FIFO's `addBlock(start, end)`. */
  function FillQueue(queue: seq<int>, size: int, start: int, end: int): (r: seq<int>)
    requires 1 <= size && |queue| <= size
    ensures |r| <= size
    ensures start <= end ==> |r| > 0 && r[|r| - 1] == end
    ensures forall x :: x in r ==> x in queue || start <= x <= end
    decreases end - start
  {
    if start > end then queue
    else FifoPush(FillQueue(queue, size, start, end - 1), size, end)
  }

  /** Filling a full queue with `k <= size` addresses drops its first `k`
      entries, whatever was probed in between. */
  lemma {:induction false} FillQueueDropsOldest(queue: seq<int>, size: int, start: int, end: int)
    requires 1 <= size && |queue| == size
    requires start <= end && end - start + 1 <= size
    ensures FillQueue(queue, size, start, end) == Window(queue, start, end)
    decreases end - start
  {
    if start < end {
      FillQueueDropsOldest(queue, size, start, end - 1);
    } else {
      assert Window(queue, start, end - 1) == queue;
    }
    SlideWindow(queue, start, end);
    FifoPushFull(Window(queue, start, end - 1), size, end);
  }

  /** A full queue drops its head and appends the new address. */
  lemma FifoPushFull(queue: seq<int>, size: int, addr: int)
    requires 1 <= size && |queue| == size
    ensures FifoPush(queue, size, addr) == queue[1..] + [addr]
  {
  }

  /** A queue with room for the whole range drops nothing. */
  lemma {:induction false} FillQueueBelowCapacity(queue: seq<int>, size: int, start: int, end: int)
    requires 1 <= size && |queue| + |Range(start, end)| <= size
    ensures FillQueue(queue, size, start, end) == queue + Range(start, end)
    decreases end - start
  {
    if start <= end {
      FillQueueBelowCapacity(queue, size, start, end - 1);
    }
  }

  /** Filling addresses `1..n` into an empty FIFO of size `n` and then
      address `n + 1` evicts address 1, and only it. */
  lemma FifoEvictsFirstInserted(n: int)
    requires 1 <= n
    ensures var q := FillQueue(FillQueue([], n, 1, n), n, n + 1, n + 1);
            q == Range(2, n + 1) && 1 !in q
  {
    var full := Range(1, n);
    FillQueueBelowCapacity([], n, 1, n);
    assert [] + full == full;
    FillQueueDropsOldest(full, n, n + 1, n + 1);
    ShiftedRange(n);
    RangeMembers(2, n + 1, 1);
  }

  /** Sliding the window over `1..n` by one address gives `2..n + 1`. */
  lemma ShiftedRange(n: int)
    requires 1 <= n
    ensures Window(Range(1, n), n + 1, n + 1) == Range(2, n + 1)
  {
    var full := Range(1, n);
    assert full[1..] == Range(2, n) by {
      forall i | 0 <= i < n - 1 ensures full[1..][i] == Range(2, n)[i] {}
    }
    assert Range(n + 1, n + 1) == [n + 1];
  }

  class FIFO {
    const size: int
    var queue: seq<int>

    ghost predicate Valid()
      reads this
    {
      1 <= size && |queue| <= size
    }

    constructor (size: int)
      requires 1 <= size
      ensures Valid() && this.size == size && queue == []
    {
      this.size := size;
      queue := [];
    }

    /** `queue.includes(address)`: nothing changes. */
    method Access(address: int) returns (hit: bool)
      ensures hit <==> address in queue
    {
      return address in queue;
    }

    /** One pass of the fill loop of `addBlock`. */
    method Admit(addr: int)
      requires Valid()
      modifies this
      ensures Valid()
      ensures queue == FifoPush(old(queue), size, addr)
    {
      if |queue| >= size {
        queue := queue[1..];
      }
      queue := queue + [addr];
    }

    method AddBlock(start: int, end: int)
      requires Valid()
      modifies this
      ensures Valid()
      ensures queue == FillQueue(old(queue), size, start, end)
    {
      var addr := start;
      while addr <= end
        invariant Valid()
        invariant start <= addr && (addr <= end + 1 || addr == start)
        invariant queue == FillQueue(old(queue), size, start, addr - 1)
      {
        Admit(addr);
        addr := addr + 1;
      }
    }
  }

  // ---------------------------------------------------------------------
  // RandomPolicy: a Set with a randomly chosen victim
  // ---------------------------------------------------------------------

  /** One pass of RandomPolicy's fill loop. `pick` stands for the index that
      `Math.floor(Math.random() * size)` produced. */
  function RandomAdd(members: seq<int>, size: int, pick: nat, addr: int): (r: seq<int>)
    requires Distinct(members) && 1 <= size && |members| <= size
    ensures Distinct(r) && |r| <= size && addr in r
    ensures forall x :: x in r ==> x in members || x == addr
    ensures |members| < size ==> forall x :: x in members ==> x in r
    ensures |members| == size ==>
              var victim := members[pick % |members|];
              forall x :: x in members ==> (x in r <==> x != victim || x == addr)
  {
    if |members| >= size then Insert(Remove(members, members[pick % |members|]), addr)
    else Insert(members, addr)
  }

  /** RandomPolicy's `addBlock(start, end)`, given the random index drawn
      for each address (ignored when the store is not full). */
  function RandomFill(members: seq<int>, size: int, picks: seq<nat>, start: int, end: int): (r: seq<int>)
    requires Distinct(members) && 1 <= size && |members| <= size
    ensures Distinct(r) && |r| <= size
    ensures start <= end ==> end in r
    ensures forall x :: x in r ==> x in members || start <= x <= end
    decreases end - start
  {
    if start > end then members
    else RandomAdd(RandomFill(members, size, picks, start, end - 1), size, EntryAt(picks, end - start, 0), end)
  }

  /** A fill only looks at the draws for its own addresses: later draws do not change it. */
  lemma {:induction false} RandomFillPrefix(members: seq<int>, size: int, picks: seq<nat>, more: seq<nat>, start: int, end: int)
    requires Distinct(members) && 1 <= size && |members| <= size
    requires end - start < |picks|
    ensures RandomFill(members, size, picks + more, start, end) == RandomFill(members, size, picks, start, end)
    decreases end - start
  {
    if start <= end {
      RandomFillPrefix(members, size, picks, more, start, end - 1);
      var pick := EntryAt(picks, end - start, 0);
      assert EntryAt(picks + more, end - start, 0) == pick by {
        assert (picks + more)[end - start] == picks[end - start];
      }
      calc {
        RandomFill(members, size, picks + more, start, end);
        RandomAdd(RandomFill(members, size, picks + more, start, end - 1), size, pick, end);
        RandomAdd(RandomFill(members, size, picks, start, end - 1), size, pick, end);
        RandomFill(members, size, picks, start, end);
      }
    }
  }

  /** One more loop iteration is one more `RandomAdd` with one more draw. */
  lemma RandomFillStep(members: seq<int>, size: int, picks: seq<nat>, pick: nat, start: int, end: int)
    requires Distinct(members) && 1 <= size && |members| <= size
    requires start <= end && |picks| == end - start
    ensures RandomFill(members, size, picks + [pick], start, end)
            == RandomAdd(RandomFill(members, size, picks, start, end - 1), size, pick, end)
  {
    RandomFillPrefix(members, size, picks, [pick], start, end - 1);
  }

  lemma SmallModulus(k: nat, n: nat)
    requires k < n
    ensures k % n == k
  {
  }

  class RandomPolicy {
    const size: int
    /** Members of the source's `cache` Set, in insertion order. */
    var cache: seq<int>

    ghost predicate Valid()
      reads this
    {
      1 <= size && Distinct(cache) && |cache| <= size
    }

    constructor (size: int)
      requires 1 <= size
      ensures Valid() && this.size == size && cache == []
    {
      this.size := size;
      cache := [];
    }

    /** `cache.has(address)`: nothing changes. */
    method Access(address: int) returns (hit: bool)
      ensures hit <==> address in cache
    {
      return address in cache;
    }

    /** The random draws are a nondeterministic choice of a resident index;
        `picks` records them. */
    /** One pass of the fill loop of `addBlock`; `pick` is the index
        `Math.random` chose, when it was called. */
    method Admit(addr: int) returns (ghost pick: nat)
      requires Valid()
      modifies this
      ensures Valid()
      ensures cache == RandomAdd(old(cache), size, pick, addr)
    {
      pick := 0;
      if |cache| >= size {
        var k :| 0 <= k < |cache|;
        var randomAddress := cache[k];
        cache := Remove(cache, randomAddress);
        pick := k;
        SmallModulus(k, |old(cache)|);
      }
      cache := Insert(cache, addr);
    }

    /** `Admit` seen as one more step of the fill that started from `initial`. */
    method AdmitNext(ghost initial: seq<int>, ghost picks: seq<nat>, start: int, addr: int) returns (ghost pick: nat)
      requires Valid() && Distinct(initial) && |initial| <= size
      requires start <= addr && |picks| == addr - start
      requires cache == RandomFill(initial, size, picks, start, addr - 1)
      modifies this
      ensures Valid()
      ensures cache == RandomFill(initial, size, picks + [pick], start, addr)
    {
      pick := Admit(addr);
      RandomFillStep(initial, size, picks, pick, start, addr);
    }

    method AddBlock(start: int, end: int) returns (ghost picks: seq<nat>)
      requires Valid()
      modifies this
      ensures Valid()
      ensures |picks| == |Range(start, end)|
      ensures cache == RandomFill(old(cache), size, picks, start, end)
    {
      ghost var initial := cache;
      picks := [];
      var addr := start;
      while addr <= end
        invariant Valid() && Distinct(initial) && |initial| <= size
        invariant start <= addr && (addr <= end + 1 || addr == start)
        invariant |picks| == addr - start
        invariant cache == RandomFill(initial, size, picks, start, addr - 1)
      {
        ghost var pick := AdmitNext(initial, picks, start, addr);
        picks := picks + [pick];
        addr := addr + 1;
      }
    }
  }

  // ---------------------------------------------------------------------
  // Counter-based eviction: LFU, MFU and LFRU keep `usageCount` beside `cache`
  // ---------------------------------------------------------------------

  /** Index of the first key with the smallest count: the key LFU's scan
      ends on, since it takes a new candidate only on a strictly smaller count. */
  function FirstMinIndex(keys: seq<int>, counts: map<int, int>): (i: nat)
    requires |keys| > 0 && forall j :: 0 <= j < |keys| ==> keys[j] in counts
    ensures i < |keys|
    ensures forall j :: 0 <= j < |keys| ==> counts[keys[i]] <= counts[keys[j]]
    ensures forall j :: 0 <= j < i ==> counts[keys[i]] < counts[keys[j]]
  {
    if |keys| == 1 then 0
    else
      var init := keys[..|keys| - 1];
      var j := FirstMinIndex(init, counts);
      assert forall m :: 0 <= m < |init| ==> init[m] == keys[m];
      if counts[keys[|keys| - 1]] < counts[keys[j]] then |keys| - 1 else j
  }

  /** Index of the first key with the largest count: MFU's scan. */
  function FirstMaxIndex(keys: seq<int>, counts: map<int, int>): (i: nat)
    requires |keys| > 0 && forall j :: 0 <= j < |keys| ==> keys[j] in counts
    ensures i < |keys|
    ensures forall j :: 0 <= j < |keys| ==> counts[keys[i]] >= counts[keys[j]]
    ensures forall j :: 0 <= j < i ==> counts[keys[i]] > counts[keys[j]]
  {
    if |keys| == 1 then 0
    else
      var init := keys[..|keys| - 1];
      var j := FirstMaxIndex(init, counts);
      assert forall m :: 0 <= m < |init| ==> init[m] == keys[m];
      if counts[keys[|keys| - 1]] > counts[keys[j]] then |keys| - 1 else j
  }

  /** LFRU's order on entries: fewer uses first, then the older timestamp. */
  predicate LfruBefore(count: int, stamp: int, count': int, stamp': int)
  {
    count < count' || (count == count' && stamp < stamp')
  }

  /** Index of the first key that is least in LFRU's order. */
  function FirstLfruIndex(keys: seq<int>, counts: map<int, int>, stamps: map<int, int>): (i: nat)
    requires |keys| > 0 && forall j :: 0 <= j < |keys| ==> keys[j] in counts && keys[j] in stamps
    ensures i < |keys|
    ensures forall j :: 0 <= j < |keys| ==>
              !LfruBefore(counts[keys[j]], stamps[keys[j]], counts[keys[i]], stamps[keys[i]])
    ensures forall j :: 0 <= j < i ==>
              LfruBefore(counts[keys[i]], stamps[keys[i]], counts[keys[j]], stamps[keys[j]])
  {
    if |keys| == 1 then 0
    else
      var init := keys[..|keys| - 1];
      var j := FirstLfruIndex(init, counts, stamps);
      assert forall m :: 0 <= m < |init| ==> init[m] == keys[m];
      var last := keys[|keys| - 1];
      if LfruBefore(counts[last], stamps[last], counts[keys[j]], stamps[keys[j]]) then |keys| - 1 else j
  }

  /** LFU's victim: `null` for an empty map, else the first least-used key. */
  function LeastUsed(usage: JsMap<int>): (v: Option<int>)
    requires usage.Valid()
    ensures v.None? <==> usage.Size() == 0
    ensures v.Some? ==> usage.Has(v.value) && forall k :: k in usage.vals ==> usage.vals[v.value] <= usage.vals[k]
    ensures v.Some? ==>
              exists i :: 0 <= i < |usage.keys| && usage.keys[i] == v.value &&
                forall j :: 0 <= j < i ==> usage.keys[j] in usage.vals && usage.vals[usage.keys[j]] > usage.vals[v.value]
  {
    if usage.Size() == 0 then None
    else
      KeysHaveCounts(usage);
      var i := FirstMinIndex(usage.keys, usage.vals);
      assert forall k :: k in usage.vals ==> exists j :: 0 <= j < |usage.keys| && usage.keys[j] == k;
      Some(usage.keys[i])
  }

  /** MFU's victim: `null` for an empty map, else the first most-used key. */
  function MostUsed(usage: JsMap<int>): (v: Option<int>)
    requires usage.Valid()
    ensures v.None? <==> usage.Size() == 0
    ensures v.Some? ==> usage.Has(v.value) && forall k :: k in usage.vals ==> usage.vals[v.value] >= usage.vals[k]
    ensures v.Some? ==>
              exists i :: 0 <= i < |usage.keys| && usage.keys[i] == v.value &&
                forall j :: 0 <= j < i ==> usage.keys[j] in usage.vals && usage.vals[usage.keys[j]] < usage.vals[v.value]
  {
    if usage.Size() == 0 then None
    else
      KeysHaveCounts(usage);
      var i := FirstMaxIndex(usage.keys, usage.vals);
      assert forall k :: k in usage.vals ==> exists j :: 0 <= j < |usage.keys| && usage.keys[j] == k;
      Some(usage.keys[i])
  }

  /** One pass of the fill loop of LFU and MFU: when full, `victim` goes
      from both maps; then `addr` is set with a fresh count of 1. */
  function CountedAdd(usage: JsMap<int>, size: int, victim: Option<int>, addr: int): (r: JsMap<int>)
    requires usage.Valid() && 1 <= size && usage.Size() <= size
    requires usage.Size() >= size ==> victim.Some? && usage.Has(victim.value)
    ensures r.Valid() && r.Size() <= size
    ensures r.Has(addr) && r.vals[addr] == 1
    ensures forall k :: k in r.vals && k != addr ==> k in usage.vals && r.vals[k] == usage.vals[k]
    ensures usage.Size() < size ==> forall k :: k in usage.vals ==> k in r.vals
    ensures usage.Size() == size ==>
              forall k :: k in usage.vals ==> (k in r.vals <==> k != victim.value || k == addr)
  {
    var kept := if usage.Size() >= size then usage.Delete(victim.value) else usage;
    kept.Set(addr, 1)
  }

  /** LFU's `addBlock(start, end)`. */
  function LfuFill(usage: JsMap<int>, size: int, start: int, end: int): (r: JsMap<int>)
    requires usage.Valid() && 1 <= size && usage.Size() <= size
    ensures r.Valid() && r.Size() <= size
    ensures start <= end ==> r.Has(end) && r.vals[end] == 1
    ensures forall k :: k in r.vals ==> k in usage.vals || start <= k <= end
    decreases end - start
  {
    if start > end then usage
    else
      var before := LfuFill(usage, size, start, end - 1);
      CountedAdd(before, size, LeastUsed(before), end)
  }

  /** MFU's `addBlock(start, end)`. */
  function MfuFill(usage: JsMap<int>, size: int, start: int, end: int): (r: JsMap<int>)
    requires usage.Valid() && 1 <= size && usage.Size() <= size
    ensures r.Valid() && r.Size() <= size
    ensures start <= end ==> r.Has(end) && r.vals[end] == 1
    ensures forall k :: k in r.vals ==> k in usage.vals || start <= k <= end
    decreases end - start
  {
    if start > end then usage
    else
      var before := MfuFill(usage, size, start, end - 1);
      CountedAdd(before, size, MostUsed(before), end)
  }

  /** The probe of LFU, MFU and LFRU on a hit: one more use, key order unchanged. */
  function CountUse(usage: JsMap<int>, addr: int): (r: JsMap<int>)
    requires usage.Valid()
    ensures r.Valid() && r.keys == usage.keys
    ensures usage.Has(addr) ==> r.vals == usage.vals[addr := usage.vals[addr] + 1]
    ensures !usage.Has(addr) ==> r == usage
  {
    if usage.Has(addr) then usage.Set(addr, usage.vals[addr] + 1) else usage
  }

  lemma KeysHaveCounts(usage: JsMap<int>)
    requires usage.Valid()
    ensures forall j :: 0 <= j < |usage.keys| ==> usage.keys[j] in usage.vals
  {
    forall j | 0 <= j < |usage.keys| ensures usage.keys[j] in usage.vals {
      assert usage.keys[j] in usage.keys;
    }
  }

  /** One step of LFU's scan: the candidate changes only on a strictly smaller count. */
  lemma MinScanStep(keys: seq<int>, counts: map<int, int>, i: nat)
    requires 0 < i < |keys| && forall j :: 0 <= j < |keys| ==> keys[j] in counts
    ensures var j := FirstMinIndex(keys[..i], counts);
            FirstMinIndex(keys[..i + 1], counts) == if counts[keys[i]] < counts[keys[j]] then i else j
  {
    assert keys[..i + 1][..i] == keys[..i];
  }

  /** One step of MFU's scan: the candidate changes only on a strictly larger count. */
  lemma MaxScanStep(keys: seq<int>, counts: map<int, int>, i: nat)
    requires 0 < i < |keys| && forall j :: 0 <= j < |keys| ==> keys[j] in counts
    ensures var j := FirstMaxIndex(keys[..i], counts);
            FirstMaxIndex(keys[..i + 1], counts) == if counts[keys[i]] > counts[keys[j]] then i else j
  {
    assert keys[..i + 1][..i] == keys[..i];
  }

  /** LFU's scan over `usageCount.entries()`, keeping the first key whose
      count is strictly below every earlier one. `None` is the source's `null`. */
  method ScanLeastUsed(usage: JsMap<int>) returns (victim: Option<int>)
    requires usage.Valid()
    ensures victim == LeastUsed(usage)
  {
    victim := None;
    var minCount := 0;
    var i := 0;
    KeysHaveCounts(usage);
    while i < |usage.keys|
      invariant 0 <= i <= |usage.keys|
      invariant forall j :: 0 <= j < |usage.keys| ==> usage.keys[j] in usage.vals
      invariant victim.None? <==> i == 0
      invariant i > 0 ==> victim == Some(usage.keys[FirstMinIndex(usage.keys[..i], usage.vals)])
      invariant victim.Some? ==> victim.value in usage.vals && minCount == usage.vals[victim.value]
    {
      var key := usage.keys[i];
      var count := usage.vals[key];
      if i > 0 { MinScanStep(usage.keys, usage.vals, i); }
      if victim.None? || count < minCount {
        minCount := count;
        victim := Some(key);
      }
      i := i + 1;
    }
    assert usage.keys[..i] == usage.keys;
  }

  /** MFU's scan: the first key whose count is strictly above every earlier one. */
  method ScanMostUsed(usage: JsMap<int>) returns (victim: Option<int>)
    requires usage.Valid()
    ensures victim == MostUsed(usage)
  {
    victim := None;
    var maxCount := 0;
    var i := 0;
    KeysHaveCounts(usage);
    while i < |usage.keys|
      invariant 0 <= i <= |usage.keys|
      invariant forall j :: 0 <= j < |usage.keys| ==> usage.keys[j] in usage.vals
      invariant victim.None? <==> i == 0
      invariant i > 0 ==> victim == Some(usage.keys[FirstMaxIndex(usage.keys[..i], usage.vals)])
      invariant victim.Some? ==> victim.value in usage.vals && maxCount == usage.vals[victim.value]
    {
      var key := usage.keys[i];
      var count := usage.vals[key];
      if i > 0 { MaxScanStep(usage.keys, usage.vals, i); }
      if victim.None? || count > maxCount {
        maxCount := count;
        victim := Some(key);
      }
      i := i + 1;
    }
    assert usage.keys[..i] == usage.keys;
  }

  class LFU {
    const size: int
    /** Keys of the source's `cache` Map (its values are always `true`). */
    var cache: seq<int>
    var usageCount: JsMap<int>

    /** `cache` and `usageCount` are set and deleted together, so they hold
        the same keys in the same order. */
    ghost predicate Valid()
      reads this
    {
      1 <= size && usageCount.Valid() && usageCount.Size() <= size && cache == usageCount.keys
    }

    constructor (size: int)
      requires 1 <= size
      ensures Valid() && this.size == size && cache == []
    {
      this.size := size;
      cache := [];
      usageCount := EmptyMap();
    }

    method Access(address: int) returns (hit: bool)
      requires Valid()
      modifies this
      ensures Valid()
      ensures hit <==> address in old(cache)
      ensures cache == old(cache) && usageCount == CountUse(old(usageCount), address)
    {
      if address in cache {
        usageCount := usageCount.Set(address, usageCount.vals[address] + 1);
        return true;
      }
      return false;
    }

    /** One pass of the fill loop of `addBlock`. */
    method Admit(addr: int)
      requires Valid()
      modifies this
      ensures Valid()
      ensures usageCount == CountedAdd(old(usageCount), size, LeastUsed(old(usageCount)), addr)
    {
      var lfuKey: Option<int> := None;
      if |cache| >= size {
        lfuKey := ScanLeastUsed(usageCount);
        if lfuKey.Some? {
          cache := Remove(cache, lfuKey.value);
          usageCount := usageCount.Delete(lfuKey.value);
        }
      }
      cache := Insert(cache, addr);
      usageCount := usageCount.Set(addr, 1);
    }

    method AddBlock(start: int, end: int)
      requires Valid()
      modifies this
      ensures Valid()
      ensures usageCount == LfuFill(old(usageCount), size, start, end)
    {
      var addr := start;
      while addr <= end
        invariant Valid()
        invariant start <= addr && (addr <= end + 1 || addr == start)
        invariant usageCount == LfuFill(old(usageCount), size, start, addr - 1)
      {
        Admit(addr);
        addr := addr + 1;
      }
    }
  }

  class MFU {
    const size: int
    /** Keys of the source's `cache` Map (its values are always `true`). */
    var cache: seq<int>
    var usageCount: JsMap<int>

    ghost predicate Valid()
      reads this
    {
      1 <= size && usageCount.Valid() && usageCount.Size() <= size && cache == usageCount.keys
    }

    constructor (size: int)
      requires 1 <= size
      ensures Valid() && this.size == size && cache == []
    {
      this.size := size;
      cache := [];
      usageCount := EmptyMap();
    }

    method Access(address: int) returns (hit: bool)
      requires Valid()
      modifies this
      ensures Valid()
      ensures hit <==> address in old(cache)
      ensures cache == old(cache) && usageCount == CountUse(old(usageCount), address)
    {
      if address in cache {
        usageCount := usageCount.Set(address, usageCount.vals[address] + 1);
        return true;
      }
      return false;
    }

    /** One pass of the fill loop of `addBlock`. */
    method Admit(addr: int)
      requires Valid()
      modifies this
      ensures Valid()
      ensures usageCount == CountedAdd(old(usageCount), size, MostUsed(old(usageCount)), addr)
    {
      var mfuKey: Option<int> := None;
      if |cache| >= size {
        mfuKey := ScanMostUsed(usageCount);
        if mfuKey.Some? {
          cache := Remove(cache, mfuKey.value);
          usageCount := usageCount.Delete(mfuKey.value);
        }
      }
      cache := Insert(cache, addr);
      usageCount := usageCount.Set(addr, 1);
    }

    method AddBlock(start: int, end: int)
      requires Valid()
      modifies this
      ensures Valid()
      ensures usageCount == MfuFill(old(usageCount), size, start, end)
    {
      var addr := start;
      while addr <= end
        invariant Valid()
        invariant start <= addr && (addr <= end + 1 || addr == start)
        invariant usageCount == MfuFill(old(usageCount), size, start, addr - 1)
      {
        Admit(addr);
        addr := addr + 1;
      }
    }
  }

  /** LFRU keeps two maps over the same keys: the time each block came in
      (the source's `cache`) and how often it has been used (`usageCount`). */
  datatype LfruState = LfruState(stamps: JsMap<int>, counts: JsMap<int>)
  {
    ghost predicate Valid()
    {
      stamps.Valid() && counts.Valid() && stamps.keys == counts.keys
    }
  }

  /** LFRU's victim: `null` for an empty map, else the first entry with the
      fewest uses and, among those, the oldest timestamp. */
  function LfruVictim(st: LfruState): (v: Option<int>)
    requires st.Valid()
    ensures v.None? <==> st.counts.Size() == 0
    ensures v.Some? ==> st.counts.Has(v.value) && st.stamps.Has(v.value)
    ensures v.Some? ==> forall k :: k in st.counts.vals ==>
              !LfruBefore(st.counts.vals[k], st.stamps.vals[k], st.counts.vals[v.value], st.stamps.vals[v.value])
    ensures v.Some? ==>
              exists i :: 0 <= i < |st.counts.keys| && st.counts.keys[i] == v.value &&
                forall j :: 0 <= j < i ==>
                  var k := st.counts.keys[j];
                  k in st.counts.vals && k in st.stamps.vals &&
                  LfruBefore(st.counts.vals[v.value], st.stamps.vals[v.value], st.counts.vals[k], st.stamps.vals[k])
  {
    if st.counts.Size() == 0 then None
    else
      KeysHaveCounts(st.counts);
      KeysHaveCounts(st.stamps);
      var i := FirstLfruIndex(st.counts.keys, st.counts.vals, st.stamps.vals);
      assert forall k :: k in st.counts.vals ==> exists j :: 0 <= j < |st.counts.keys| && st.counts.keys[j] == k;
      Some(st.counts.keys[i])
  }

  /** One pass of LFRU's fill loop: when full, `victim` leaves both maps;
      then `addr` comes in stamped `now` with one use. */
  function LfruAdd(st: LfruState, size: int, victim: Option<int>, addr: int, now: int): (r: LfruState)
    requires st.Valid() && 1 <= size && st.counts.Size() <= size
    requires st.counts.Size() >= size ==> victim.Some? && st.counts.Has(victim.value)
    ensures r.Valid() && r.counts.Size() <= size
    ensures r.counts.Has(addr) && r.counts.vals[addr] == 1
    ensures r.stamps.Has(addr) && r.stamps.vals[addr] == now
    ensures forall k :: k in r.counts.vals && k != addr ==>
              k in st.counts.vals && r.counts.vals[k] == st.counts.vals[k] && r.stamps.vals[k] == st.stamps.vals[k]
    ensures st.counts.Size() < size ==> forall k :: k in st.counts.vals ==> k in r.counts.vals
    ensures st.counts.Size() == size ==>
              forall k :: k in st.counts.vals ==> (k in r.counts.vals <==> k != victim.value || k == addr)
  {
    var kept :=
      if st.counts.Size() >= size then LfruState(st.stamps.Delete(victim.value), st.counts.Delete(victim.value))
      else st;
    LfruState(kept.stamps.Set(addr, now), kept.counts.Set(addr, 1))
  }

  /** LFRU's `addBlock(start, end)`; `clock[a - start]` is the `Date.now()`
      reading taken when address `a` goes in. */
  function LfruFill(st: LfruState, size: int, start: int, end: int, clock: seq<int>): (r: LfruState)
    requires st.Valid() && 1 <= size && st.counts.Size() <= size
    ensures r.Valid() && r.counts.Size() <= size
    ensures start <= end ==> r.counts.Has(end) && r.stamps.vals[end] == EntryAt(clock, end - start, 0)
    ensures forall k :: k in r.counts.vals ==> k in st.counts.vals || start <= k <= end
    decreases end - start
  {
    if start > end then st
    else
      var before := LfruFill(st, size, start, end - 1, clock);
      LfruAdd(before, size, LfruVictim(before), end, EntryAt(clock, end - start, 0))
  }

  /** One step of LFRU's scan: the candidate changes only on an entry strictly before it. */
  lemma LfruScanStep(keys: seq<int>, counts: map<int, int>, stamps: map<int, int>, i: nat)
    requires 0 < i < |keys| && forall j :: 0 <= j < |keys| ==> keys[j] in counts && keys[j] in stamps
    ensures var j := FirstLfruIndex(keys[..i], counts, stamps);
            FirstLfruIndex(keys[..i + 1], counts, stamps)
            == if LfruBefore(counts[keys[i]], stamps[keys[i]], counts[keys[j]], stamps[keys[j]]) then i else j
  {
    assert keys[..i + 1][..i] == keys[..i];
  }

  /** LFRU's scan over `usageCount.entries()`, reading each timestamp from `cache`. */
  method ScanLfru(st: LfruState) returns (victim: Option<int>)
    requires st.Valid()
    ensures victim == LfruVictim(st)
  {
    var keys, counts, stamps := st.counts.keys, st.counts.vals, st.stamps.vals;
    KeysHaveCounts(st.counts);
    KeysHaveCounts(st.stamps);
    victim := None;
    var minCount := 0;
    var minTimestamp := 0;
    var i := 0;
    while i < |keys|
      invariant 0 <= i <= |keys|
      invariant victim.None? <==> i == 0
      invariant i > 0 ==> victim == Some(keys[FirstLfruIndex(keys[..i], counts, stamps)])
      invariant victim.Some? ==> victim.value in counts && victim.value in stamps
                                 && minCount == counts[victim.value] && minTimestamp == stamps[victim.value]
    {
      var key := keys[i];
      var count := counts[key];
      var timestamp := stamps[key];
      if i > 0 { LfruScanStep(keys, counts, stamps, i); }
      if victim.None? || LfruBefore(count, timestamp, minCount, minTimestamp) {
        minCount := count;
        minTimestamp := timestamp;
        victim := Some(key);
      }
      i := i + 1;
    }
    assert keys[..i] == keys;
  }

  class LFRU {
    const size: int
    /** The source's `cache`: each block's insertion timestamp. */
    var cache: JsMap<int>
    var usageCount: JsMap<int>

    ghost predicate Valid()
      reads this
    {
      1 <= size && LfruState(cache, usageCount).Valid() && usageCount.Size() <= size
    }

    constructor (size: int)
      requires 1 <= size
      ensures Valid() && this.size == size && cache.Size() == 0
    {
      this.size := size;
      cache := EmptyMap();
      usageCount := EmptyMap();
    }

    /** A hit adds a use; the timestamp is left as it was. */
    method Access(address: int) returns (hit: bool)
      requires Valid()
      modifies this
      ensures Valid()
      ensures hit <==> old(cache).Has(address)
      ensures cache == old(cache) && usageCount == CountUse(old(usageCount), address)
    {
      if cache.Has(address) {
        usageCount := usageCount.Set(address, usageCount.vals[address] + 1);
        return true;
      }
      return false;
    }

    /** One pass of the fill loop of `addBlock`. */
    method Admit(addr: int, now: int)
      requires Valid()
      modifies this
      ensures Valid()
      ensures var before := LfruState(old(cache), old(usageCount));
              LfruState(cache, usageCount) == LfruAdd(before, size, LfruVictim(before), addr, now)
    {
      if usageCount.Size() >= size {
        var lfruKey := ScanLfru(LfruState(cache, usageCount));
        if lfruKey.Some? {
          cache := cache.Delete(lfruKey.value);
          usageCount := usageCount.Delete(lfruKey.value);
        }
      }
      cache := cache.Set(addr, now);
      usageCount := usageCount.Set(addr, 1);
    }

    /** The fill loop's pass for `addr`, stamped with its own clock reading. */
    method AdmitNext(ghost initial: LfruState, start: int, addr: int, clock: seq<int>)
      requires Valid() && initial.Valid() && initial.counts.Size() <= size
      requires start <= addr && addr - start < |clock|
      requires LfruState(cache, usageCount) == LfruFill(initial, size, start, addr - 1, clock)
      modifies this
      ensures Valid()
      ensures LfruState(cache, usageCount) == LfruFill(initial, size, start, addr, clock)
    {
      Admit(addr, clock[addr - start]);
    }

    method AddBlock(start: int, end: int, clock: seq<int>)
      requires Valid()
      requires |clock| == |Range(start, end)|
      modifies this
      ensures Valid()
      ensures LfruState(cache, usageCount) == LfruFill(LfruState(old(cache), old(usageCount)), size, start, end, clock)
    {
      ghost var initial := LfruState(cache, usageCount);
      var addr := start;
      while addr <= end
        invariant start <= addr && (addr <= end + 1 || addr == start)
        invariant LfruState(cache, usageCount) == LfruFill(initial, size, start, addr - 1, clock)
      {
        AdmitNext(initial, start, addr, clock);
        addr := addr + 1;
      }
    }
  }

  // ---------------------------------------------------------------------
  // Round robin: a slot array overwritten in turn
  // ---------------------------------------------------------------------

  /** The source's RR state: the `cache` Set, the `keys` slot array and the
      `index` of replacements made so far. */
  datatype RoundRobin = RoundRobin(members: seq<int>, slots: seq<int>, index: nat)
  {
    /** Every member occupies a slot of its own, so the slot array is never
        shorter than the set and `keys[index % size]` always exists once
        the set is full. */
    ghost predicate Valid()
    {
      Distinct(members) && multiset(members) <= multiset(slots)
    }
  }

  lemma SubMultisetShorter(a: seq<int>, b: seq<int>)
    requires multiset(a) <= multiset(b)
    ensures |a| <= |b|
  {
    var extra := multiset(b) - multiset(a);
    assert multiset(b) == multiset(a) + extra;
    assert |multiset(b)| == |multiset(a)| + |extra|;
  }

  /** Overwriting the slot of `victim` with `addr` keeps every member in a slot. */
  lemma ReplaceKeepsSlots(members: seq<int>, slots: seq<int>, i: nat, addr: int)
    requires Distinct(members) && multiset(members) <= multiset(slots) && i < |slots|
    ensures multiset(Insert(Remove(members, slots[i]), addr)) <= multiset(slots[i := addr])
  {
    var victim := slots[i];
    assert multiset(slots[i := addr]) == multiset(slots) - multiset{victim} + multiset{addr};
    var rest := Remove(members, victim);
    assert multiset(rest) <= multiset(slots) - multiset{victim};
  }

  /** One pass of RR's fill loop. */
  function RrAdd(st: RoundRobin, size: int, addr: int): (r: RoundRobin)
    requires st.Valid() && 1 <= size
    ensures r.Valid()
    ensures addr in r.members
    ensures forall k :: k in r.members ==> k in st.members || k == addr
    ensures |st.members| < size ==> forall k :: k in st.members ==> k in r.members
    ensures |st.members| >= size ==>
              && st.index % size < |st.slots|
              && forall k :: k in st.members ==> (k in r.members <==> k != st.slots[st.index % size] || k == addr)
    ensures |st.members| >= size ==>
              && st.index % size < |st.slots|
              && r.index == st.index + 1 && r.slots == st.slots[st.index % size := addr]
    ensures |st.members| < size ==> r.index == st.index && r.slots == st.slots + [addr]
  {
    if |st.members| >= size then
      SubMultisetShorter(st.members, st.slots);
      var slot := st.index % size;
      ReplaceKeepsSlots(st.members, st.slots, slot, addr);
      RoundRobin(Insert(Remove(st.members, st.slots[slot]), addr), st.slots[slot := addr], st.index + 1)
    else
      RoundRobin(Insert(st.members, addr), st.slots + [addr], st.index)
  }

  /** RR's `addBlock(start, end)`. */
  function RrFill(st: RoundRobin, size: int, start: int, end: int): (r: RoundRobin)
    requires st.Valid() && 1 <= size
    ensures r.Valid()
    ensures start <= end ==> end in r.members
    ensures forall k :: k in r.members ==> k in st.members || start <= k <= end
    decreases end - start
  {
    if start > end then st else RrAdd(RrFill(st, size, start, end - 1), size, end)
  }

  /** The set and the slot array hold the same addresses and the slot array
      has at most `size` entries: what RR keeps while every added address
      is new to it. */
  ghost predicate Tight(st: RoundRobin, size: int)
  {
    st.Valid() && multiset(st.members) == multiset(st.slots) && |st.slots| <= size
  }

  /** The slot the `t`-th replacement after `index` overwrites. */
  function Cursor(index: int, size: int, t: int): int
    requires 1 <= size
  {
    (index + t) % size
  }

  /** `%` is the remainder of the one division with that remainder. */
  lemma ModOf(a: int, n: int, q: int, r: int)
    requires 0 <= r < n && a == q * n + r
    ensures a % n == r
  {
    var d := q - a / n;
    assert d * n == a % n - r;
    MultipleBound(d, n);
  }

  /** A non-zero multiple of `n` is at least `n` away from zero. */
  lemma MultipleBound(d: int, n: int)
    requires 1 <= n
    ensures d >= 1 ==> d * n >= n
    ensures d <= -1 ==> d * n <= -n
  {
    if d >= 1 {
      assert (d - 1) * n >= 0;
    } else if d <= -1 {
      assert (-d - 1) * n >= 0;
    }
  }

  /** Fewer than `size` replacements apart, the cursor is at different slots. */
  lemma CursorsDiffer(index: int, size: int, t: int, u: int)
    requires 1 <= size && 0 <= t < u && u - t < size
    ensures Cursor(index, size, t) != Cursor(index, size, u)
  {
    var x := index + t;
    var q, r := x / size, x % size;
    if r + (u - t) < size {
      ModOf(index + u, size, q, r + (u - t));
    } else {
      ModOf(index + u, size, q + 1, r + (u - t) - size);
    }
  }

  /** Slot `j` is first reached by the `((j - index) % size)`-th replacement. */
  lemma CursorOffset(index: int, size: int, j: int, u: int)
    requires 1 <= size && 0 <= u && (j - index) % size > u
    ensures j != Cursor(index, size, u)
  {
    if j == Cursor(index, size, u) {
      var q := (index + u) / size;
      ModOf(j - index, size, -q, u);
      assert false;
    }
  }

  /** Adding an address that is not resident keeps RR tight, and so within capacity. */
  lemma RrAddKeepsTight(st: RoundRobin, size: int, addr: int)
    requires 1 <= size && Tight(st, size) && addr !in st.members
    ensures Tight(RrAdd(st, size, addr), size)
    ensures |RrAdd(st, size, addr).members| <= size
  {
    var r := RrAdd(st, size, addr);
    if |st.members| >= size {
      var victim := st.slots[st.index % size];
      assert victim in multiset(st.members);
      assert multiset(r.slots) == multiset(st.slots) - multiset{victim} + multiset{addr};
    }
    SubMultisetShorter(r.members, r.slots);
  }

  /** Filling addresses none of which is resident keeps RR tight and within capacity. */
  lemma {:induction false} RrFillKeepsTight(st: RoundRobin, size: int, start: int, end: int)
    requires 1 <= size && Tight(st, size)
    requires forall x :: start <= x <= end ==> x !in st.members
    ensures Tight(RrFill(st, size, start, end), size)
    ensures |RrFill(st, size, start, end).members| <= size
    decreases end - start
  {
    if start <= end {
      RrFillKeepsTight(st, size, start, end - 1);
      RrAddKeepsTight(RrFill(st, size, start, end - 1), size, end);
    } else {
      SubMultisetShorter(st.members, st.slots);
    }
  }

  /** One pass over a full, tight RR: the slot under the cursor takes the new
      address and the cursor moves on. */
  lemma RrAddFull(st: RoundRobin, size: int, addr: int)
    requires 1 <= size && Tight(st, size) && |st.members| == size && addr !in st.members
    ensures var r := RrAdd(st, size, addr);
            && Tight(r, size) && |r.members| == size && |r.slots| == size
            && r.index == st.index + 1 && r.slots == st.slots[st.index % size := addr]
  {
    assert |multiset(st.members)| == |multiset(st.slots)|;
    RrAddKeepsTight(st, size, addr);
    var r := RrAdd(st, size, addr);
    assert |multiset(r.members)| == |multiset(r.slots)|;
  }

  /** How many addresses the fill loop visits. */
  function Passes(start: int, end: int): nat
  {
    if start <= end then end - start + 1 else 0
  }

  /** After `k` passes from `st` that put `start`, `start + 1`, ... in turn,
      the last `size` of them sit at the cursor positions they were written
      to, and the slots the cursor has not reached are unchanged. */
  ghost predicate Cycled(st: RoundRobin, r: RoundRobin, size: int, start: int, k: int)
    requires 1 <= size
  {
    && |st.slots| == size && |r.slots| == size && r.index == st.index + k
    && (forall t :: 0 <= t < k && k - t <= size ==> r.slots[Cursor(st.index, size, t)] == start + t)
    && (forall j :: 0 <= j < size && (j - st.index) % size >= k ==> r.slots[j] == st.slots[j])
  }

  /** `Cycled` extends by one pass that writes `start + k` under the cursor. */
  lemma CycledStep(st: RoundRobin, before: RoundRobin, r: RoundRobin, size: int, start: int, k: int, k': int, addr: int)
    requires 1 <= size && 0 <= k && Cycled(st, before, size, start, k) && addr == start + k && k' == k + 1
    requires r.index == before.index + 1 && r.slots == before.slots[before.index % size := addr]
    ensures Cycled(st, r, size, start, k')
  {
    assert before.index % size == Cursor(st.index, size, k);
    forall t | 0 <= t < k + 1 && k + 1 - t <= size
      ensures r.slots[Cursor(st.index, size, t)] == start + t
    {
      if t < k {
        CursorsDiffer(st.index, size, t, k);
      }
    }
    forall j | 0 <= j < size && (j - st.index) % size >= k + 1
      ensures r.slots[j] == st.slots[j]
    {
      CursorOffset(st.index, size, j, k);
    }
  }

  /** A full RR filled with non-resident addresses replaces on every pass:
      `index` rises by one per address, the `t`-th address overwrites slot
      `(index + t) % size`, so the slots are overwritten in turn, the last
      `size` addresses sit in their slots, and the slots the cursor has not
      reached keep their addresses. */
  lemma {:induction false} RrFillCycles(st: RoundRobin, size: int, start: int, end: int)
    requires 1 <= size && Tight(st, size) && |st.members| == size
    requires forall x :: start <= x <= end ==> x !in st.members
    ensures Cycled(st, RrFill(st, size, start, end), size, start, Passes(start, end))
    decreases end - start
  {
    if start <= end {
      RrFillCycles(st, size, start, end - 1);
      RrFillReplaces(st, size, start, end);
      CycledStep(st, RrFill(st, size, start, end - 1), RrFill(st, size, start, end), size, start,
                 Passes(start, end - 1), Passes(start, end), end);
    } else {
      assert |multiset(st.members)| == |multiset(st.slots)|;
    }
  }

  /** Each pass of a fill of a full RR with non-resident addresses replaces
      the slot under the cursor. */
  lemma RrFillReplaces(st: RoundRobin, size: int, start: int, end: int)
    requires 1 <= size && Tight(st, size) && |st.members| == size && start <= end
    requires forall x :: start <= x <= end ==> x !in st.members
    ensures var before := RrFill(st, size, start, end - 1);
            var r := RrFill(st, size, start, end);
            r.index == before.index + 1 && r.slots == before.slots[before.index % size := end]
  {
    RrFillStaysFull(st, size, start, end - 1);
    var before := RrFill(st, size, start, end - 1);
    assert end !in before.members;
    RrAddFull(before, size, end);
  }

  /** A full RR filled with non-resident addresses stays full and tight. */
  lemma {:induction false} RrFillStaysFull(st: RoundRobin, size: int, start: int, end: int)
    requires 1 <= size && Tight(st, size) && |st.members| == size
    requires forall x :: start <= x <= end ==> x !in st.members
    ensures var r := RrFill(st, size, start, end);
            Tight(r, size) && |r.members| == size
    decreases end - start
  {
    if start <= end {
      RrFillStaysFull(st, size, start, end - 1);
      var before := RrFill(st, size, start, end - 1);
      assert end !in before.members;
      RrAddFull(before, size, end);
    }
  }

  /** Adding a resident address again pushes a duplicate slot, and a later
      replacement of that stale slot leaves the set one member over capacity. */
  lemma RrReaddOverflows()
    ensures var st := RrAdd(RrAdd(RrAdd(RrAdd(RrAdd(RoundRobin([], [], 0), 2, 5), 2, 5), 2, 6), 2, 7), 2, 8);
            st.members == [6, 7, 8] && |st.members| > 2
  {
    GrowWithDuplicate();
    ReplaceFirstSlot();
    ReplaceStaleSlot();
  }

  /** Below capacity every add pushes a slot, even for an address already in the set. */
  lemma GrowWithDuplicate()
    ensures RrAdd(RrAdd(RrAdd(RoundRobin([], [], 0), 2, 5), 2, 5), 2, 6) == RoundRobin([5, 6], [5, 5, 6], 0)
  {
    FirstAdd();
    DuplicateAdd();
    SecondMember();
  }

  lemma FirstAdd()
    ensures RrAdd(RoundRobin([], [], 0), 2, 5) == RoundRobin([5], [5], 0)
  {
    assert Insert([], 5) == [5];
  }

  lemma DuplicateAdd()
    ensures RoundRobin([5], [5], 0).Valid()
    ensures RrAdd(RoundRobin([5], [5], 0), 2, 5) == RoundRobin([5], [5, 5], 0)
  {
    assert Insert([5], 5) == [5];
  }

  lemma SecondMember()
    ensures RoundRobin([5], [5, 5], 0).Valid()
    ensures RrAdd(RoundRobin([5], [5, 5], 0), 2, 6) == RoundRobin([5, 6], [5, 5, 6], 0)
  {
    assert multiset([5]) <= multiset([5, 5]);
    assert Insert([5], 6) == [5, 6];
  }

  /** The first replacement overwrites slot 0, evicting 5. */
  lemma ReplaceFirstSlot()
    ensures RrAdd(RoundRobin([5, 6], [5, 5, 6], 0), 2, 7) == RoundRobin([6, 7], [7, 5, 6], 1)
  {
    FirstSlotFacts();
  }

  lemma FirstSlotFacts()
    ensures RoundRobin([5, 6], [5, 5, 6], 0).Valid() && 0 % 2 == 0
    ensures Insert(Remove([5, 6], 5), 7) == [6, 7] && [5, 5, 6][0 := 7] == [7, 5, 6]
  {
    FirstSlotValid();
    DropFive();
    assert 7 !in [6] && [6] + [7] == [6, 7];
  }

  lemma DropFive()
    ensures Remove([5, 6], 5) == [6]
  {
    RemoveFirst([5, 6]);
    assert [5, 6][1..] == [6];
  }

  lemma FirstSlotValid()
    ensures RoundRobin([5, 6], [5, 5, 6], 0).Valid()
  {
    assert multiset([5, 6]) <= multiset([5, 5, 6]);
  }

  lemma StaleSlotValid()
    ensures RoundRobin([6, 7], [7, 5, 6], 1).Valid()
  {
    assert multiset([6, 7]) <= multiset([7, 5, 6]);
  }

  /** The second overwrites slot 1, whose 5 is no longer a member: nothing leaves. */
  lemma ReplaceStaleSlot()
    ensures RrAdd(RoundRobin([6, 7], [7, 5, 6], 1), 2, 8) == RoundRobin([6, 7, 8], [7, 8, 6], 2)
  {
    StaleSlotFacts();
  }

  lemma StaleSlotFacts()
    ensures RoundRobin([6, 7], [7, 5, 6], 1).Valid() && 1 % 2 == 1
    ensures Insert(Remove([6, 7], 5), 8) == [6, 7, 8] && [7, 5, 6][1 := 8] == [7, 8, 6]
  {
    StaleSlotValid();
    assert 5 !in [6, 7];
    assert 8 !in [6, 7] && [6, 7] + [8] == [6, 7, 8];
  }


  class RR {
    const size: int
    /** Members of the source's `cache` Set, in insertion order. */
    var cache: seq<int>
    var keys: seq<int>
    var index: nat

    ghost predicate Valid()
      reads this
    {
      1 <= size && RoundRobin(cache, keys, index).Valid()
    }

    constructor (size: int)
      requires 1 <= size
      ensures Valid() && this.size == size && cache == [] && keys == [] && index == 0
    {
      this.size := size;
      cache := [];
      keys := [];
      index := 0;
    }

    /** `cache.has(address)`: nothing changes. */
    method Access(address: int) returns (hit: bool)
      requires Valid()
      ensures hit <==> address in cache
    {
      hit := address in cache;
    }

    /** One pass of the fill loop of `addBlock`. */
    method Admit(addr: int)
      requires Valid()
      modifies this
      ensures Valid()
      ensures RoundRobin(cache, keys, index) == RrAdd(RoundRobin(old(cache), old(keys), old(index)), size, addr)
    {
      ghost var expected := RrAdd(RoundRobin(cache, keys, index), size, addr);
      if |cache| >= size {
        SubMultisetShorter(cache, keys);
        var replaceIndex := index % size;
        assert expected.slots == keys[replaceIndex := addr];
        cache := Remove(cache, keys[replaceIndex]);
        keys := keys[replaceIndex := addr];
        index := index + 1;
      } else {
        keys := keys + [addr];
      }
      cache := Insert(cache, addr);
      assert RoundRobin(cache, keys, index) == expected;
    }

    method AddBlock(start: int, end: int)
      requires Valid()
      modifies this
      ensures Valid()
      ensures RoundRobin(cache, keys, index) == RrFill(RoundRobin(old(cache), old(keys), old(index)), size, start, end)
    {
      ghost var initial := RoundRobin(cache, keys, index);
      var addr := start;
      while addr <= end
        invariant Valid()
        invariant start <= addr && (addr <= end + 1 || addr == start)
        invariant RoundRobin(cache, keys, index) == RrFill(initial, size, start, addr - 1)
      {
        Admit(addr);
        addr := addr + 1;
      }
    }
  }

  // ---------------------------------------------------------------------
  // Second chance: a FIFO queue whose referenced entries are requeued once
  // ---------------------------------------------------------------------

  /** The source's second-chance state: the `cache` Map from address to its
      referenced bit, and the `queue` of addresses in arrival order. */
  datatype SecondChanceState = SecondChanceState(bits: JsMap<bool>, queue: seq<int>)
  {
    /** Every resident address waits somewhere in the queue. */
    ghost predicate Valid()
    {
      bits.Valid() && forall k :: k in bits.vals ==> k in queue
    }
  }

  /** How many of `keys` have their referenced bit set. */
  function Referenced(keys: seq<int>, bits: map<int, bool>): nat
  {
    if keys == [] then 0
    else (if keys[0] in bits && bits[keys[0]] then 1 else 0) + Referenced(keys[1..], bits)
  }

  /** Clearing one set bit lowers the count by one. */
  lemma {:induction false} ClearBit(keys: seq<int>, bits: map<int, bool>, k: int)
    requires Distinct(keys) && k in keys && k in bits && bits[k]
    ensures Referenced(keys, bits[k := false]) == Referenced(keys, bits) - 1
  {
    assert keys == [keys[0]] + keys[1..];
    DistinctCons(keys[0], keys[1..]);
    if keys[0] == k {
      Untouched(keys[1..], bits, k, false);
    } else {
      ClearBit(keys[1..], bits, k);
    }
  }

  /** Changing the bit of an address outside `keys` does not change the count. */
  lemma {:induction false} Untouched(keys: seq<int>, bits: map<int, bool>, k: int, b: bool)
    requires k !in keys
    ensures Referenced(keys, bits[k := b]) == Referenced(keys, bits)
  {
    if keys != [] {
      Untouched(keys[1..], bits, k, b);
    }
  }

  /** Deleting an entry never raises the count. */
  lemma {:induction false} DropEntry(keys: seq<int>, bits: map<int, bool>, k: int)
    ensures Referenced(Remove(keys, k), bits - {k}) <= Referenced(keys, bits)
  {
    if keys != [] {
      DropEntry(keys[1..], bits, k);
      if keys[0] != k {
        assert Remove(keys, k) == [keys[0]] + Remove(keys[1..], k);
        assert ([keys[0]] + Remove(keys[1..], k))[1..] == Remove(keys[1..], k);
      }
    }
  }

  /** A store holding an address has a queue to take a victim from. */
  lemma NonEmptyQueue(st: SecondChanceState)
    requires st.Valid() && st.bits.Size() > 0
    ensures |st.queue| > 0
  {
    var k := st.bits.keys[0];
    assert k in st.bits.keys;
    assert k in st.queue;
  }

  /** The `while (cache.size >= size)` loop of second chance: the head of the
      queue leaves it; if referenced it loses its bit and goes to the back,
      otherwise it is deleted. */
  function Reclaim(st: SecondChanceState, size: int): (r: SecondChanceState)
    requires st.Valid() && 1 <= size
    ensures r.Valid() && r.bits.Size() < size
    ensures st.bits.Size() < size ==> r == st
    ensures st.bits.Size() >= size ==> r.bits.Size() == size - 1
    ensures forall k :: k in r.bits.vals ==> k in st.bits.vals && (r.bits.vals[k] ==> st.bits.vals[k])
    decreases |st.queue| + Referenced(st.bits.keys, st.bits.vals)
  {
    if st.bits.Size() < size then st
    else
      NonEmptyQueue(st);
      var first := st.queue[0];
      if st.bits.Has(first) && st.bits.vals[first] then
        var next := SecondChanceState(st.bits.Set(first, false), st.queue[1..] + [first]);
        ClearBit(st.bits.keys, st.bits.vals, first);
        Reclaim(next, size)
      else
        var next := SecondChanceState(st.bits.Delete(first), st.queue[1..]);
        DropEntry(st.bits.keys, st.bits.vals, first);
        Reclaim(next, size)
  }

  /** One pass of second chance's fill loop: make room, then `addr` joins
      the back of the queue with its bit clear. */
  function SecondChanceAdd(st: SecondChanceState, size: int, addr: int): (r: SecondChanceState)
    requires st.Valid() && 1 <= size
    ensures r.Valid() && r.bits.Size() <= size
    ensures r.bits.Has(addr) && !r.bits.vals[addr]
    ensures forall k :: k in r.bits.vals && k != addr ==> k in st.bits.vals && (r.bits.vals[k] ==> st.bits.vals[k])
    ensures st.bits.Size() < size ==> forall k :: k in st.bits.vals ==> k in r.bits.vals
  {
    var room := Reclaim(st, size);
    SecondChanceState(room.bits.Set(addr, false), room.queue + [addr])
  }

  /** Second chance's `addBlock(start, end)`. */
  function SecondChanceFill(st: SecondChanceState, size: int, start: int, end: int): (r: SecondChanceState)
    requires st.Valid() && 1 <= size
    ensures r.Valid()
    ensures st.bits.Size() <= size ==> r.bits.Size() <= size
    ensures start <= end ==> r.bits.Has(end)
    ensures forall k :: k in r.bits.vals ==> k in st.bits.vals || start <= k <= end
    decreases end - start
  {
    if start > end then st else SecondChanceAdd(SecondChanceFill(st, size, start, end - 1), size, end)
  }

  /** Clears the referenced bit of each of `keys` in turn, as the reclaim
      loop does to the entries it requeues. */
  function ClearBits(bits: JsMap<bool>, keys: seq<int>): (r: JsMap<bool>)
    requires bits.Valid()
    ensures r.Valid()
    ensures (forall k :: k in keys ==> k in bits.vals) ==>
              && r.keys == bits.keys
              && (forall k :: k in r.vals <==> k in bits.vals)
              && (forall k :: k in r.vals ==> r.vals[k] == (k !in keys && bits.vals[k]))
    decreases |keys|
  {
    if keys == [] then bits
    else
      assert forall k :: k in keys[1..] ==> k in keys;
      ClearBits(bits.Set(keys[0], false), keys[1..])
  }

  /** The general victim rule at capacity: when the first `j` entries of the
      queue are resident and referenced and the next one is resident and not,
      reclaiming requeues those `j` in their order with their bits cleared
      and deletes the next one, whatever the other entries are. */
  lemma {:induction false} ReclaimSparesReferenced(st: SecondChanceState, size: int, j: int)
    requires st.Valid() && 1 <= size && st.bits.Size() == size
    requires 0 <= j < |st.queue| && Distinct(st.queue[..j + 1])
    requires forall t :: 0 <= t < j ==> st.bits.Has(st.queue[t]) && st.bits.vals[st.queue[t]]
    requires st.bits.Has(st.queue[j]) && !st.bits.vals[st.queue[j]]
    ensures Reclaim(st, size)
            == SecondChanceState(ClearBits(st.bits, st.queue[..j]).Delete(st.queue[j]), st.queue[j + 1..] + st.queue[..j])
    decreases j
  {
    var q := st.queue;
    if j == 0 {
      assert q[..0] == [] && q[1..] + q[..0] == q[1..];
      var next := SecondChanceState(st.bits.Delete(q[0]), q[1..]);
      assert next.bits.Size() == size - 1;
    } else {
      var next := SecondChanceState(st.bits.Set(q[0], false), q[1..] + [q[0]]);
      var nq := next.queue;
      RequeueHead(q, j);
      assert next.bits.keys == st.bits.keys;
      forall t | 0 <= t < j - 1
        ensures next.bits.Has(nq[t]) && next.bits.vals[nq[t]]
      {
        assert nq[t] == q[t + 1];
      }
      assert Reclaim(st, size) == Reclaim(next, size);
      ReclaimSparesReferenced(next, size, j - 1);
      assert ClearBits(st.bits, q[..j]) == ClearBits(next.bits, nq[..j - 1]);
    }
  }

  /** Requeueing the head of `q` shifts the first `j + 1` entries by one. */
  lemma RequeueHead(q: seq<int>, j: int)
    requires 0 < j < |q| && Distinct(q[..j + 1])
    ensures var nq := q[1..] + [q[0]];
            && Distinct(nq[..j]) && nq[j - 1] == q[j]
            && (forall t :: 0 <= t < j - 1 ==> nq[t] == q[t + 1])
            && (forall t :: 0 < t <= j ==> q[t] != q[0])
            && q[..j][0] == q[0] && q[..j][1..] == nq[..j - 1]
            && nq[j..] + nq[..j - 1] == q[j + 1..] + q[..j]
  {
    var nq := q[1..] + [q[0]];
    assert nq[..j] == q[1..j + 1] == q[..j + 1][1..];
    assert q[..j + 1] == [q[0]] + q[1..j + 1];
    DistinctCons(q[0], q[1..j + 1]);
    forall t | 0 < t <= j
      ensures q[t] != q[0]
    {
      assert q[t] == q[1..j + 1][t - 1];
    }
    assert nq[j..] == q[j + 1..] + [q[0]] && nq[..j - 1] == q[1..j];
    assert q[..j] == [q[0]] + q[1..j];
  }

  /** A full store whose oldest entry was referenced and whose next was not
      evicts the next one and requeues the oldest with its bit cleared. */
  lemma SecondChanceSparesReferenced(st: SecondChanceState, size: int)
    requires st.Valid() && 1 <= size && st.bits.Size() == size
    requires |st.queue| >= 2 && st.queue[0] != st.queue[1]
    requires st.bits.Has(st.queue[0]) && st.bits.vals[st.queue[0]]
    requires st.bits.Has(st.queue[1]) && !st.bits.vals[st.queue[1]]
    ensures Reclaim(st, size)
            == SecondChanceState(st.bits.Set(st.queue[0], false).Delete(st.queue[1]), st.queue[2..] + [st.queue[0]])
  {
    var q := st.queue;
    var next := SecondChanceState(st.bits.Set(q[0], false), q[1..] + [q[0]]);
    assert next.queue[0] == q[1] && next.queue[1..] == q[2..] + [q[0]];
    assert next.bits.Size() == size;
  }

  class SecondChance {
    const size: int
    /** The source's `cache`: each resident address and its referenced bit. */
    var cache: JsMap<bool>
    var queue: seq<int>

    ghost predicate Valid()
      reads this
    {
      1 <= size && SecondChanceState(cache, queue).Valid() && cache.Size() <= size
    }

    constructor (size: int)
      requires 1 <= size
      ensures Valid() && this.size == size && cache.Size() == 0 && queue == []
    {
      this.size := size;
      cache := EmptyMap();
      queue := [];
    }

    /** A hit sets the referenced bit. */
    method Access(address: int) returns (hit: bool)
      requires Valid()
      modifies this
      ensures Valid()
      ensures hit <==> old(cache).Has(address)
      ensures queue == old(queue) && cache.keys == old(cache.keys)
      ensures cache.vals == if hit then old(cache.vals)[address := true] else old(cache.vals)
    {
      if cache.Has(address) {
        cache := cache.Set(address, true);
        return true;
      }
      return false;
    }

    /** The inner `while` loop of `addBlock`. */
    method MakeRoom()
      requires SecondChanceState(cache, queue).Valid() && 1 <= size
      modifies this
      ensures SecondChanceState(cache, queue) == Reclaim(SecondChanceState(old(cache), old(queue)), size)
    {
      while cache.Size() >= size
        invariant SecondChanceState(cache, queue).Valid()
        invariant Reclaim(SecondChanceState(cache, queue), size)
                  == Reclaim(SecondChanceState(old(cache), old(queue)), size)
        decreases |queue| + Referenced(cache.keys, cache.vals)
      {
        NonEmptyQueue(SecondChanceState(cache, queue));
        var first := queue[0];
        queue := queue[1..];
        if cache.Has(first) && cache.vals[first] {
          ClearBit(cache.keys, cache.vals, first);
          cache := cache.Set(first, false);
          queue := queue + [first];
        } else {
          DropEntry(cache.keys, cache.vals, first);
          cache := cache.Delete(first);
        }
      }
    }

    /** One iteration of `addBlock`'s outer loop. */
    method Admit(addr: int)
      requires Valid()
      modifies this
      ensures Valid()
      ensures SecondChanceState(cache, queue) == SecondChanceAdd(SecondChanceState(old(cache), old(queue)), size, addr)
    {
      MakeRoom();
      cache := cache.Set(addr, false);
      queue := queue + [addr];
    }

    method AddBlock(start: int, end: int)
      requires Valid()
      modifies this
      ensures Valid()
      ensures SecondChanceState(cache, queue) == SecondChanceFill(SecondChanceState(old(cache), old(queue)), size, start, end)
    {
      ghost var initial := SecondChanceState(cache, queue);
      var addr := start;
      while addr <= end
        invariant Valid()
        invariant start <= addr && (addr <= end + 1 || addr == start)
        invariant SecondChanceState(cache, queue) == SecondChanceFill(initial, size, start, addr - 1)
      {
        Admit(addr);
        addr := addr + 1;
      }
    }
  }
}
