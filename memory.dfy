/** `MemoryHierarchy`: the older driver, holding one cache per level and
    two counters, `hits` and `misses`, that `accessMemory` advances. */
module Memory {
  import opened Wrappers
  import opened Levels

  /** The message `createCaches` throws on an unknown policy name. */
  const UnknownPolicy: string := "Unknown replacement policy"

  /** The `switch` of `createCaches`: only four of the policy classes are
      known here; `None` is the `default:` branch. */
  function MemoryKindOf(policy: string): (k: Option<Kind>)
    ensures k.Some? <==> policy == "LRU" || policy == "FIFO" || policy == "Random" || policy == "LFU"
    ensures k.Some? ==> Name(k.value) == policy && KindOf(policy) == k
    ensures k.Some? ==> k.value in {LruKind, FifoKind, RandomKind, LfuKind}
  {
    if policy == "LRU" then Some(LruKind)
    else if policy == "FIFO" then Some(FifoKind)
    else if policy == "Random" then Some(RandomKind)
    else if policy == "LFU" then Some(LfuKind)
    else None
  }

  /** Of the policy names `handleFinish` knows, `createCaches` knows exactly
      the four of the original classes. */
  lemma OlderDriverKinds(kind: Kind)
    ensures MemoryKindOf(Name(kind)).Some? <==> kind in {LruKind, FifoKind, RandomKind, LfuKind}
    ensures MemoryKindOf(Name(kind)).Some? ==> MemoryKindOf(Name(kind)).value == kind
  {
    NamesSelectKinds(kind, Name(kind));
  }

  /** `createCaches(levels, sizes, policy)`: one fresh, empty cache per level,
      all of the named kind. The name is only looked at inside the loop, so
      an unknown name throws only when there is a level. */
  method CreateCaches(levels: int, sizes: seq<int>, policy: string) returns (r: Result<seq<Instance>, string>)
    requires levels <= |sizes| && forall i :: 0 <= i < levels ==> sizes[i] >= 1
    ensures r.Err? <==> levels > 0 && MemoryKindOf(policy).None?
    ensures r.Err? ==> r.error == UnknownPolicy
    ensures r.Ok? ==>
              && |r.value| == (if levels > 0 then levels else 0)
              && Separate(r.value) && AllValid(r.value)
              && forall i :: 0 <= i < |r.value| ==>
                   && fresh(r.value[i].Obj())
                   && r.value[i].Kind() == MemoryKindOf(policy).value
                   && r.value[i].Capacity() == sizes[i]
                   && forall a :: !r.value[i].Holds(a)
  {
    var caches: seq<Instance> := [];
    var i := 0;
    while i < levels
      invariant 0 <= i <= (if levels > 0 then levels else 0) && |caches| == i
      invariant i > 0 ==> MemoryKindOf(policy).Some?
      invariant Separate(caches) && AllValid(caches)
      invariant forall j :: 0 <= j < i ==>
                  && fresh(caches[j].Obj())
                  && caches[j].Kind() == MemoryKindOf(policy).value
                  && caches[j].Capacity() == sizes[j]
                  && forall a :: !caches[j].Holds(a)
    {
      match MemoryKindOf(policy)
      case None =>
        return Err(UnknownPolicy);
      case Some(kind) =>
        caches := Extend(caches, kind, sizes[i]);
      i := i + 1;
    }
    return Ok(caches);
  }

  /** The probe of cache `i` for `address`: its state becomes what `Used`
      says, which a miss leaves as it was; no other cache is touched. */
  method AccessAt(caches: seq<Instance>, i: int, address: int) returns (hit: bool)
    requires Separate(caches) && 0 <= i < |caches| && caches[i].Valid()
    modifies caches[i].Obj()
    ensures caches[i].Valid()
    ensures hit <==> old(caches[i].Holds(address))
    ensures !hit ==> caches[i].Snap() == old(caches[i].Snap())
    ensures caches[i].Snap() == Used(old(caches[i].Snap()), address)
    ensures forall j, x :: 0 <= j < |caches| ==> caches[j].Holds(x) == old(caches[j].Holds(x))
    ensures forall j :: 0 <= j < |caches| && j != i ==>
              && caches[j].Snap() == old(caches[j].Snap())
              && (old(caches[j].Valid()) ==> caches[j].Valid())
  {
    hit := caches[i].Access(address);
    forall j | 0 <= j < |caches| && j != i
      ensures caches[j].Snap() == old(caches[j].Snap())
      ensures old(caches[j].Valid()) ==> caches[j].Valid()
      ensures forall x :: caches[j].Holds(x) == old(caches[j].Holds(x))
    {
      assert caches[j].Obj() != caches[i].Obj();
      caches[j].Kept();
    }
  }

  /** The loop of `accessMemory`: the caches are asked in order and the loop
      breaks at the first that answers yes. Only that cache's bookkeeping
      changes, as `Used` says, and nothing becomes resident. */
  method FirstHit(caches: seq<Instance>, address: int) returns (hit: bool)
    requires Separate(caches) && AllValid(caches)
    modifies Objects(caches)
    ensures AllValid(caches)
    ensures hit <==> old(FirstHolder(caches, address, address, 0)) >= 0
    ensures forall i, x :: 0 <= i < |caches| ==> caches[i].Holds(x) == old(caches[i].Holds(x))
    ensures forall i :: 0 <= i < |caches| && i != old(FirstHolder(caches, address, address, 0)) ==>
              caches[i].Snap() == old(caches[i].Snap())
    ensures forall i :: 0 <= i < |caches| && i == old(FirstHolder(caches, address, address, 0)) ==>
              caches[i].Snap() == Used(old(caches[i].Snap()), address)
  {
    hit := false;
    var i := 0;
    while i < |caches|
      invariant 0 <= i <= |caches|
      invariant AllValid(caches)
      invariant forall j :: 0 <= j < i ==> !old(caches[j].Holds(address))
      invariant forall j, x :: 0 <= j < |caches| ==> caches[j].Holds(x) == old(caches[j].Holds(x))
      invariant forall j :: 0 <= j < |caches| ==> caches[j].Snap() == old(caches[j].Snap())
    {
      hit := AccessAt(caches, i, address);
      if hit {
        ghost var first := old(FirstHolder(caches, address, address, 0));
        assert first == i by {
          assert old(BlockHeld(caches[i], address, address));
        }
        return;
      }
      i := i + 1;
    }
  }

  class MemoryHierarchy {
    var caches: seq<Instance>
    var hits: nat
    var misses: nat

    ghost predicate Valid()
      reads this, Objects(caches)
    {
      Separate(caches) && AllValid(caches) && this !in Objects(caches)
    }

    /** The counter part of the constructor; the caches are the ones
        `createCaches` built. */
    constructor (built: seq<Instance>)
      requires Separate(built) && AllValid(built)
      ensures Valid()
      ensures caches == built && hits == 0 && misses == 0
    {
      caches := built;
      hits := 0;
      misses := 0;
    }

    /** `accessMemory(address)`: exactly one of `hits` and `misses` goes up
        by one, `hits` exactly when some cache holds the address; only the
        first cache holding it updates its bookkeeping, as `Used` says, and
        no cache gains or loses an address. */
    method AccessMemory(address: int)
      requires Valid()
      modifies this, Objects(caches)
      ensures Valid() && caches == old(caches)
      ensures hits + misses == old(hits + misses) + 1
      ensures hits == old(hits) + 1 <==> old(FirstHolder(caches, address, address, 0)) >= 0
      ensures forall i, x :: 0 <= i < |caches| ==> caches[i].Holds(x) == old(caches[i].Holds(x))
      ensures forall i :: 0 <= i < |caches| && i != old(FirstHolder(caches, address, address, 0)) ==>
                caches[i].Snap() == old(caches[i].Snap())
      ensures forall i :: 0 <= i < |caches| && i == old(FirstHolder(caches, address, address, 0)) ==>
                caches[i].Snap() == Used(old(caches[i].Snap()), address)
    {
      var hit := FirstHit(caches, address);
      if hit {
        hits := hits + 1;
      } else {
        misses := misses + 1;
      }
    }
  }

  /** `new MemoryHierarchy(config)`: the constructor throws when
      `createCaches` does, and otherwise starts both counters at zero. */
  method NewHierarchy(levels: int, cacheSizes: seq<int>, policy: string) returns (r: Result<MemoryHierarchy, string>)
    requires levels <= |cacheSizes| && forall i :: 0 <= i < levels ==> cacheSizes[i] >= 1
    ensures r.Err? <==> levels > 0 && MemoryKindOf(policy).None?
    ensures r.Ok? ==>
              && fresh(r.value) && r.value.Valid()
              && r.value.hits == 0 && r.value.misses == 0
              && |r.value.caches| == (if levels > 0 then levels else 0)
              && forall i :: 0 <= i < |r.value.caches| ==>
                   && r.value.caches[i].Kind() == MemoryKindOf(policy).value
                   && r.value.caches[i].Capacity() == cacheSizes[i]
                   && forall a :: !r.value.caches[i].Holds(a)
  {
    var built := CreateCaches(levels, cacheSizes, policy);
    if built.Err? {
      return Err(built.error);
    }
    var h := new MemoryHierarchy(built.value);
    return Ok(h);
  }
}
