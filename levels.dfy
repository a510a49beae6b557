/** One level of the simulated hierarchy: an instance of whichever policy
    class the configuration names, behind the `access`/`addBlock`
    interface the simulator calls, and the dispatch from policy names. */
module Levels {
  import opened Ordered
  import opened Wrappers
  import opened Policies

  datatype Kind = LruKind | FifoKind | RandomKind | LfuKind | RamKind | RrKind | MfuKind | LfruKind | SecondChanceKind

  /** The state each policy's fill function acts on. */
  datatype Snapshot =
    | LruSnap(keys: seq<int>)
    | FifoSnap(queue: seq<int>)
    | RandomSnap(members: seq<int>)
    | LfuSnap(usage: JsMap<int>)
    | RamSnap(keys: seq<int>)
    | RrSnap(rr: RoundRobin)
    | MfuSnap(usage: JsMap<int>)
    | LfruSnap(lfru: LfruState)
    | SecondChanceSnap(sc: SecondChanceState)

  /** `after` is what `addBlock(start, end)` makes of `before` under the
      policy's rule; for Random, under some sequence of draws. */
  ghost predicate Refilled(before: Snapshot, after: Snapshot, size: int, start: int, end: int, clock: seq<int>)
  {
    1 <= size &&
    match before
    case LruSnap(keys) =>
      Distinct(keys) && |keys| <= size && after == LruSnap(FillOldest(keys, size, start, end))
    case FifoSnap(queue) =>
      |queue| <= size && after == FifoSnap(FillQueue(queue, size, start, end))
    case RandomSnap(members) =>
      Distinct(members) && |members| <= size &&
      exists picks: seq<nat> :: |picks| == |Range(start, end)| &&
        after == RandomSnap(RandomFill(members, size, picks, start, end))
    case LfuSnap(usage) =>
      usage.Valid() && usage.Size() <= size && after == LfuSnap(LfuFill(usage, size, start, end))
    case RamSnap(keys) =>
      Distinct(keys) && |keys| <= size && after == RamSnap(FillOldest(keys, size, start, end))
    case RrSnap(rr) =>
      rr.Valid() && after == RrSnap(RrFill(rr, size, start, end))
    case MfuSnap(usage) =>
      usage.Valid() && usage.Size() <= size && after == MfuSnap(MfuFill(usage, size, start, end))
    case LfruSnap(st) =>
      st.Valid() && st.counts.Size() <= size && |clock| == |Range(start, end)| &&
      after == LfruSnap(LfruFill(st, size, start, end, clock))
    case SecondChanceSnap(st) =>
      st.Valid() && after == SecondChanceSnap(SecondChanceFill(st, size, start, end))
  }

  /** Whether `a` is resident in a level whose state is `s`. */
  predicate Resident(s: Snapshot, a: int)
  {
    match s
    case LruSnap(keys) => a in keys
    case FifoSnap(queue) => a in queue
    case RandomSnap(members) => a in members
    case LfuSnap(usage) => usage.Has(a)
    case RamSnap(keys) => a in keys
    case RrSnap(rr) => a in rr.members
    case MfuSnap(usage) => usage.Has(a)
    case LfruSnap(st) => st.stamps.Has(a)
    case SecondChanceSnap(st) => st.bits.Has(a)
  }

  /** What `access(a)` does to a level's state: LRU moves `a` to the most
      recent end, LFU, MFU and LFRU add one to its count, second chance sets
      its bit, and FIFO, Random, RAM and RR keep no bookkeeping. (`Touch` and
      `CountUse` are defined on well-formed states, which every valid level
      has; any other state is left as it is.) */
  ghost function Used(s: Snapshot, a: int): (r: Snapshot)
    ensures !Resident(s, a) ==> r == s
    ensures forall x :: Resident(r, x) <==> Resident(s, x)
  {
    match s
    case LruSnap(keys) => if Distinct(keys) then LruSnap(Touch(keys, a)) else s
    case LfuSnap(usage) => if usage.Valid() then LfuSnap(CountUse(usage, a)) else s
    case MfuSnap(usage) => if usage.Valid() then MfuSnap(CountUse(usage, a)) else s
    case LfruSnap(st) =>
      if st.Valid() then
        assert st.counts.Has(a) ==> a in st.counts.keys;
        LfruSnap(LfruState(st.stamps, CountUse(st.counts, a)))
      else s
    case SecondChanceSnap(st) =>
      if st.bits.Has(a)
      then SecondChanceSnap(SecondChanceState(JsMap(st.bits.keys, st.bits.vals[a := true]), st.queue))
      else s
    case _ => s
  }

  /** A policy instance; every variant wraps an object of one policy class. */
  datatype Instance =
    | LruLevel(lru: LRU)
    | FifoLevel(fifo: FIFO)
    | RandomLevel(random: RandomPolicy)
    | LfuLevel(lfu: LFU)
    | RamLevel(ram: RAM)
    | RrLevel(rr: RR)
    | MfuLevel(mfu: MFU)
    | LfruLevel(lfru: LFRU)
    | SecondChanceLevel(sc: SecondChance)
  {
    function Obj(): object
    {
      match this
      case LruLevel(c) => c
      case FifoLevel(c) => c
      case RandomLevel(c) => c
      case LfuLevel(c) => c
      case RamLevel(c) => c
      case RrLevel(c) => c
      case MfuLevel(c) => c
      case LfruLevel(c) => c
      case SecondChanceLevel(c) => c
    }

    function Kind(): Kind
    {
      match this
      case LruLevel(_) => LruKind
      case FifoLevel(_) => FifoKind
      case RandomLevel(_) => RandomKind
      case LfuLevel(_) => LfuKind
      case RamLevel(_) => RamKind
      case RrLevel(_) => RrKind
      case MfuLevel(_) => MfuKind
      case LfruLevel(_) => LfruKind
      case SecondChanceLevel(_) => SecondChanceKind
    }

    function Capacity(): int
    {
      match this
      case LruLevel(c) => c.size
      case FifoLevel(c) => c.size
      case RandomLevel(c) => c.size
      case LfuLevel(c) => c.size
      case RamLevel(c) => c.size
      case RrLevel(c) => c.size
      case MfuLevel(c) => c.size
      case LfruLevel(c) => c.size
      case SecondChanceLevel(c) => c.size
    }

    ghost predicate Valid()
      reads Obj()
    {
      match this
      case LruLevel(c) => c.Valid()
      case FifoLevel(c) => c.Valid()
      case RandomLevel(c) => c.Valid()
      case LfuLevel(c) => c.Valid()
      case RamLevel(c) => c.Valid()
      case RrLevel(c) => c.Valid()
      case MfuLevel(c) => c.Valid()
      case LfruLevel(c) => c.Valid()
      case SecondChanceLevel(c) => c.Valid()
    }

    /** Whether `a` is resident: what the instance's `access(a)` answers. */
    predicate Holds(a: int)
      reads Obj()
    {
      match this
      case LruLevel(c) => a in c.cache
      case FifoLevel(c) => a in c.queue
      case RandomLevel(c) => a in c.cache
      case LfuLevel(c) => a in c.cache
      case RamLevel(c) => a in c.cache
      case RrLevel(c) => a in c.cache
      case MfuLevel(c) => a in c.cache
      case LfruLevel(c) => c.cache.Has(a)
      case SecondChanceLevel(c) => c.cache.Has(a)
    }

    ghost function Snap(): Snapshot
      reads Obj()
    {
      match this
      case LruLevel(c) => LruSnap(c.cache)
      case FifoLevel(c) => FifoSnap(c.queue)
      case RandomLevel(c) => RandomSnap(c.cache)
      case LfuLevel(c) => LfuSnap(c.usageCount)
      case RamLevel(c) => RamSnap(c.cache)
      case RrLevel(c) => RrSnap(RoundRobin(c.cache, c.keys, c.index))
      case MfuLevel(c) => MfuSnap(c.usageCount)
      case LfruLevel(c) => LfruSnap(LfruState(c.cache, c.usageCount))
      case SecondChanceLevel(c) => SecondChanceSnap(SecondChanceState(c.cache, c.queue))
    }

    /** What `access` answers is residency in the level's state, so `Used`
        changes nothing on a miss. */
    lemma Resides(a: int)
      requires Valid()
      ensures Holds(a) <==> Resident(Snap(), a)
      ensures !Holds(a) ==> Used(Snap(), a) == Snap()
    {
      match this
      case LfuLevel(c) => assert a in c.usageCount.keys <==> a in c.usageCount.vals;
      case MfuLevel(c) => assert a in c.usageCount.keys <==> a in c.usageCount.vals;
      case _ =>
    }

    /** A step that leaves this instance's object alone leaves its state alone. */
    twostate lemma Kept()
      requires unchanged(Obj())
      ensures Snap() == old(Snap())
      ensures old(Valid()) ==> Valid()
      ensures forall x :: Holds(x) == old(Holds(x))
    {
    }

    /** `access(a)`: the answer is residency; a miss changes nothing, and a
        hit changes the policy's bookkeeping as `Used` says, never what is
        resident. */
    method Access(a: int) returns (hit: bool)
      requires Valid()
      modifies Obj()
      ensures Valid()
      ensures hit <==> old(Holds(a))
      ensures !hit ==> Snap() == old(Snap())
      ensures Snap() == Used(old(Snap()), a)
      ensures forall x :: Holds(x) == old(Holds(x))
    {
      match this
      case LruLevel(c) => hit := c.Access(a);
      case FifoLevel(c) => hit := c.Access(a);
      case RandomLevel(c) => hit := c.Access(a);
      case LfuLevel(c) => hit := c.Access(a);
      case RamLevel(c) => hit := c.Access(a);
      case RrLevel(c) => hit := c.Access(a);
      case MfuLevel(c) => hit := c.Access(a);
      case LfruLevel(c) => hit := c.Access(a);
      case SecondChanceLevel(c) =>
        hit := c.Access(a);
        forall x ensures c.cache.Has(x) == old(c.cache.Has(x)) {
          assert x in c.cache.keys <==> x in old(c.cache.keys);
        }
    }

    /** `addBlock(start, end)`; `clock` holds the reading LFRU stamps each address with. */
    method AddBlock(start: int, end: int, clock: seq<int>)
      requires Valid() && |clock| == |Range(start, end)|
      modifies Obj()
      ensures Valid()
      ensures Refilled(old(Snap()), Snap(), Capacity(), start, end, clock)
      ensures start <= end ==> Holds(end)
    {
      match this
      case LruLevel(c) => c.AddBlock(start, end);
      case FifoLevel(c) => c.AddBlock(start, end);
      case RandomLevel(c) => ghost var picks := c.AddBlock(start, end);
      case LfuLevel(c) => c.AddBlock(start, end);
      case RamLevel(c) => c.AddBlock(start, end);
      case RrLevel(c) => c.AddBlock(start, end);
      case MfuLevel(c) => c.AddBlock(start, end);
      case LfruLevel(c) => c.AddBlock(start, end, clock);
      case SecondChanceLevel(c) => c.AddBlock(start, end);
    }
  }

  /** `new LRU(size)`, `new FIFO(size)`, ... by kind. */
  method Instantiate(kind: Kind, size: int) returns (inst: Instance)
    requires 1 <= size
    ensures inst.Valid() && fresh(inst.Obj())
    ensures inst.Kind() == kind && inst.Capacity() == size
    ensures forall a :: !inst.Holds(a)
  {
    match kind
    case LruKind => var c := new LRU(size); inst := LruLevel(c);
    case FifoKind => var c := new FIFO(size); inst := FifoLevel(c);
    case RandomKind => var c := new RandomPolicy(size); inst := RandomLevel(c);
    case LfuKind => var c := new LFU(size); inst := LfuLevel(c);
    case RamKind => var c := new RAM(size); inst := RamLevel(c);
    case RrKind => var c := new RR(size); inst := RrLevel(c);
    case MfuKind => var c := new MFU(size); inst := MfuLevel(c);
    case LfruKind => var c := new LFRU(size); inst := LfruLevel(c);
    case SecondChanceKind => var c := new SecondChance(size); inst := SecondChanceLevel(c);
  }

  /** The objects behind a list of levels. */
  function Objects(levels: seq<Instance>): set<object>
  {
    set i | 0 <= i < |levels| :: levels[i].Obj()
  }

  /** No two levels share an object. */
  ghost predicate Separate(levels: seq<Instance>)
  {
    forall i, j :: 0 <= i < |levels| && 0 <= j < |levels| && i != j ==> levels[i].Obj() != levels[j].Obj()
  }

  ghost predicate AllValid(levels: seq<Instance>)
    reads Objects(levels)
  {
    forall i :: 0 <= i < |levels| ==> levels[i].Valid()
  }

  /** Some address of the block `start..end` is resident at `inst`. */
  ghost predicate BlockHeld(inst: Instance, start: int, end: int)
    reads inst.Obj()
  {
    exists a :: start <= a <= end && inst.Holds(a)
  }

  /** The first address of the block `start..end` resident at `inst`: the
      one whose `access` answers yes when the block is probed in order. */
  ghost function FirstHeld(inst: Instance, start: int, end: int): (a: int)
    requires BlockHeld(inst, start, end)
    reads inst.Obj()
    ensures start <= a <= end && inst.Holds(a)
    ensures forall x :: start <= x < a ==> !inst.Holds(x)
    decreases end - start
  {
    if inst.Holds(start) then start
    else
      var w :| start <= w <= end && inst.Holds(w);
      assert start + 1 <= w;
      FirstHeld(inst, start + 1, end)
  }

  /** The first level, from `from` on, holding some address of the block
      `start..end`, or -1 when none does. */
  ghost function FirstHolder(levels: seq<Instance>, start: int, end: int, from: nat): (r: int)
    reads Objects(levels)
    decreases |levels| - from
    ensures r == -1 || from <= r < |levels|
    ensures r >= 0 ==> BlockHeld(levels[r], start, end)
    ensures forall i :: from <= i < |levels| && (r < 0 || i < r) ==> !BlockHeld(levels[i], start, end)
  {
    if from >= |levels| then -1
    else if BlockHeld(levels[from], start, end) then from
    else FirstHolder(levels, start, end, from + 1)
  }

  /** The converse of `FirstHolder`'s contract: the level holding the block
      with none before it is the first holder. */
  lemma HolderAt(levels: seq<Instance>, start: int, end: int, level: int)
    requires -1 <= level < |levels|
    requires level >= 0 ==> BlockHeld(levels[level], start, end)
    requires forall i :: 0 <= i < |levels| && (level < 0 || i < level) ==> !BlockHeld(levels[i], start, end)
    ensures FirstHolder(levels, start, end, 0) == level
  {
  }

  /** One `push` of a new instance: the levels built so far
      keep their state. */
  method Extend(levels: seq<Instance>, kind: Kind, size: int) returns (more: seq<Instance>)
    requires 1 <= size && Separate(levels) && AllValid(levels)
    ensures |more| == |levels| + 1 && more[..|levels|] == levels
    ensures Separate(more) && AllValid(more)
    ensures fresh(more[|levels|].Obj())
    ensures more[|levels|].Kind() == kind && more[|levels|].Capacity() == size
    ensures forall a :: !more[|levels|].Holds(a)
    ensures forall j, a :: 0 <= j < |levels| ==> levels[j].Holds(a) == old(levels[j].Holds(a))
  {
    var inst := Instantiate(kind, size);
    forall j | 0 <= j < |levels|
      ensures levels[j].Valid()
      ensures forall a :: levels[j].Holds(a) == old(levels[j].Holds(a))
      ensures levels[j].Obj() != inst.Obj()
    {
      levels[j].Kept();
    }
    more := levels + [inst];
  }

  /** The `case` label under which `handleFinish` builds each kind. */
  function Name(kind: Kind): string
  {
    match kind
    case LruKind => "LRU"
    case FifoKind => "FIFO"
    case RandomKind => "Random"
    case LfuKind => "LFU"
    case RamKind => "RAM"
    case RrKind => "RR"
    case MfuKind => "MFU"
    case LfruKind => "LFRU"
    case SecondChanceKind => "Second Chance"
  }

  /** The policy a name selects; `None` is the `default:` branch. */
  function KindOf(policy: string): (k: Option<Kind>)
    ensures k.Some? ==> Name(k.value) == policy
  {
    if policy == "LRU" then Some(LruKind)
    else if policy == "FIFO" then Some(FifoKind)
    else if policy == "Random" then Some(RandomKind)
    else if policy == "LFU" then Some(LfuKind)
    else if policy == "RAM" then Some(RamKind)
    else if policy == "RR" then Some(RrKind)
    else if policy == "MFU" then Some(MfuKind)
    else if policy == "LFRU" then Some(LfruKind)
    else if policy == "Second Chance" then Some(SecondChanceKind)
    else None
  }

  /** Every kind is reachable by its own name, and by no other. */
  lemma NamesSelectKinds(kind: Kind, policy: string)
    ensures KindOf(Name(kind)) == Some(kind)
    ensures KindOf(policy) == Some(kind) <==> policy == Name(kind)
  {
  }

  /** The corrected dispatch: one instance per level, all of the named
      kind; `None` when a level exists and the name is unknown. */
  function LevelKinds(policy: string, levels: nat): (r: Option<seq<Kind>>)
    ensures r.None? <==> levels > 0 && KindOf(policy).None?
    ensures r.Some? ==> |r.value| == levels && forall i :: 0 <= i < levels ==> r.value[i] == KindOf(policy).value
  {
    if levels == 0 then Some([])
    else match KindOf(policy)
      case None => None
      case Some(kind) => Some(seq(levels, _ => kind))
  }

  /** The instances one pass of the `switch` in `handleFinish` pushes, as
      written: the `"LFU"` case has no `break`, so it falls through into
      `"RAM"` and pushes an LFU and then a RAM instance. */
  function CaseAsWritten(policy: string): (r: Option<seq<Kind>>)
    ensures r.None? <==> KindOf(policy).None?
  {
    match KindOf(policy)
    case None => None
    case Some(LfuKind) => Some([LfuKind, RamKind])
    case Some(kind) => Some([kind])
  }

  /** The instance list the loop over `cacheLevels` builds as written. */
  function InstancesAsWritten(policy: string, levels: nat): (r: Option<seq<Kind>>)
    ensures r.None? <==> levels > 0 && KindOf(policy).None?
  {
    if levels == 0 then Some([])
    else match InstancesAsWritten(policy, levels - 1)
      case None => None
      case Some(prev) =>
        match CaseAsWritten(policy)
        case None => None
        case Some(ks) => Some(prev + ks)
  }

  /** As written, "LFU" builds two instances per level, a RAM after every
      LFU, so instance `i` is no longer level `i`; every other name builds
      one per level, as the corrected dispatch does. */
  lemma {:induction false} LfuDoublesInstances(policy: string, levels: nat)
    ensures policy == "LFU" ==>
              InstancesAsWritten(policy, levels).Some? &&
              |InstancesAsWritten(policy, levels).value| == 2 * levels &&
              forall i :: 0 <= i < levels ==>
                InstancesAsWritten(policy, levels).value[2 * i] == LfuKind &&
                InstancesAsWritten(policy, levels).value[2 * i + 1] == RamKind
    ensures policy != "LFU" ==> InstancesAsWritten(policy, levels) == LevelKinds(policy, levels)
  {
    if levels > 0 {
      LfuDoublesInstances(policy, levels - 1);
      if policy == "LFU" {
        var prev := InstancesAsWritten(policy, levels - 1).value;
        var r := InstancesAsWritten(policy, levels).value;
        assert r == prev + [LfuKind, RamKind];
        forall i | 0 <= i < levels
          ensures r[2 * i] == LfuKind && r[2 * i + 1] == RamKind
        {
          if i < levels - 1 {
            assert r[2 * i] == prev[2 * i] && r[2 * i + 1] == prev[2 * i + 1];
          }
        }
      } else if KindOf(policy).Some? {
        assert LevelKinds(policy, levels).value == LevelKinds(policy, levels - 1).value + [KindOf(policy).value];
      }
    }
  }

  /** The smallest witness: one "LFU" level yields an LFU and a RAM instance. */
  lemma OneLfuLevel()
    ensures InstancesAsWritten("LFU", 1) == Some([LfuKind, RamKind])
    ensures LevelKinds("LFU", 1) == Some([LfuKind])
  {
    assert "LFU"[1] != "LRU"[1];
    assert KindOf("LFU") == Some(LfuKind);
    assert InstancesAsWritten("LFU", 0) == Some([]);
    assert CaseAsWritten("LFU") == Some([LfuKind, RamKind]);
    assert [] + [LfuKind, RamKind] == [LfuKind, RamKind];
    assert seq(1, _ => LfuKind) == [LfuKind];
  }
}
