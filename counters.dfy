/** The per-access results and the integer counters of `handleFinish`:
    `levelHits` and `levelAccesses` have one entry per cache level, then one
    for RAM and one for Disk. */
module Counters {

  /** Where an access was served: a cache level, RAM, or Disk (a miss). */
  datatype Status = CacheHit(level: nat) | RamHit | Miss

  /** One entry of `results`: `{ address, status, level }`. */
  datatype AccessResult = AccessResult(address: int, status: Status)

  function Statuses(results: seq<AccessResult>): (s: seq<Status>)
    ensures |s| == |results|
    ensures forall i :: 0 <= i < |s| ==> s[i] == results[i].status
  {
    seq(|results|, i requires 0 <= i < |results| => results[i].status)
  }

  function Addresses(results: seq<AccessResult>): (s: seq<int>)
    ensures |s| == |results|
    ensures forall i :: 0 <= i < |s| ==> s[i] == results[i].address
  {
    seq(|results|, i requires 0 <= i < |results| => results[i].address)
  }

  /** Every cache hit names one of the `levels` cache levels. */
  predicate WithinLevels(s: seq<Status>, levels: nat)
  {
    forall i :: 0 <= i < |s| ==> (s[i].CacheHit? ==> s[i].level < levels)
  }

  /** The `levelHits` entry an access increments: its cache level, RAM
      after the last cache level, Disk after RAM. */
  function HitSlot(st: Status, levels: nat): nat
  {
    match st
    case CacheHit(level) => level
    case RamHit => levels
    case Miss => levels + 1
  }

  /** The last `levelAccesses` entry an access increments: up to the level
      that hit, or through Disk whenever no cache level hit, RAM hits
      included. */
  function ReachedSlot(st: Status, levels: nat): nat
  {
    match st
    case CacheHit(level) => level
    case _ => levels + 1
  }

  function Zeros(n: nat): (r: seq<nat>)
    ensures |r| == n && forall i :: 0 <= i < n ==> r[i] == 0
  {
    seq(n, _ => 0)
  }

  /** How many of the accesses `s` are served at slot `k` (a cache level,
      RAM or Disk). */
  function ServedAt(s: seq<Status>, levels: nat, k: nat): nat
  {
    if s == [] then 0
    else ServedAt(s[..|s| - 1], levels, k) + (if HitSlot(s[|s| - 1], levels) == k then 1 else 0)
  }

  /** How many of the accesses `s` reach slot `k` on their way down. */
  function ReachedAt(s: seq<Status>, levels: nat, k: nat): nat
  {
    if s == [] then 0
    else ReachedAt(s[..|s| - 1], levels, k) + (if k <= ReachedSlot(s[|s| - 1], levels) then 1 else 0)
  }

  /** `levelHits` after the accesses `s`: entry `k` tallies the accesses
      served at slot `k`. */
  function LevelHits(s: seq<Status>, levels: nat): (r: seq<nat>)
    requires WithinLevels(s, levels)
    ensures |r| == levels + 2
    ensures forall k :: 0 <= k < levels + 2 ==> r[k] == ServedAt(s, levels, k)
  {
    if s == [] then Zeros(levels + 2)
    else
      var prev := LevelHits(s[..|s| - 1], levels);
      var k := HitSlot(s[|s| - 1], levels);
      prev[k := prev[k] + 1]
  }

  /** The inner loop of an access over `levelAccesses`: entries `0..upTo` go up by one. */
  function Bump(c: seq<nat>, upTo: int): (r: seq<nat>)
    ensures |r| == |c|
    ensures forall j :: 0 <= j < |c| ==> r[j] == if j <= upTo then c[j] + 1 else c[j]
  {
    seq(|c|, j requires 0 <= j < |c| => if j <= upTo then c[j] + 1 else c[j])
  }

  /** `levelAccesses` after the accesses `s`: entry `k` tallies the accesses
      that reached slot `k`. */
  function LevelAccesses(s: seq<Status>, levels: nat): (r: seq<nat>)
    requires WithinLevels(s, levels)
    ensures |r| == levels + 2
    ensures forall k :: 0 <= k < levels + 2 ==> r[k] == ReachedAt(s, levels, k)
  {
    if s == [] then Zeros(levels + 2)
    else Bump(LevelAccesses(s[..|s| - 1], levels), ReachedSlot(s[|s| - 1], levels))
  }

  /** `hits`: accesses served by a cache level or by RAM. */
  function HitCount(s: seq<Status>): (n: nat)
    ensures n <= |s|
  {
    if s == [] then 0 else HitCount(s[..|s| - 1]) + (if s[|s| - 1].Miss? then 0 else 1)
  }

  function Sum(c: seq<nat>): nat
  {
    if c == [] then 0 else c[0] + Sum(c[1..])
  }

  lemma {:induction false} SumIncrement(c: seq<nat>, k: nat)
    requires k < |c|
    ensures Sum(c[k := c[k] + 1]) == Sum(c) + 1
  {
    if k > 0 {
      SumIncrement(c[1..], k - 1);
      assert c[k := c[k] + 1][1..] == c[1..][k - 1 := c[k] + 1];
    }
  }

  lemma {:induction false} SumZeros(n: nat)
    ensures Sum(Zeros(n)) == 0
  {
    if n > 0 {
      SumZeros(n - 1);
      assert Zeros(n)[1..] == Zeros(n - 1);
    }
  }

  lemma PrefixWithinLevels(s: seq<Status>, levels: nat)
    requires WithinLevels(s, levels) && s != []
    ensures WithinLevels(s[..|s| - 1], levels)
    ensures s[|s| - 1].CacheHit? ==> s[|s| - 1].level < levels
  {
  }

  /** Each access increments exactly one `levelHits` entry, so they add up
      to the number of accesses. */
  lemma {:induction false} HitsAddUp(s: seq<Status>, levels: nat)
    requires WithinLevels(s, levels)
    ensures Sum(LevelHits(s, levels)) == |s|
  {
    if s == [] {
      SumZeros(levels + 2);
    } else {
      PrefixWithinLevels(s, levels);
      HitsAddUp(s[..|s| - 1], levels);
      SumIncrement(LevelHits(s[..|s| - 1], levels), HitSlot(s[|s| - 1], levels));
    }
  }

  /** Every access reaches the first level. */
  lemma {:induction false} FirstLevelSeesAll(s: seq<Status>, levels: nat)
    requires WithinLevels(s, levels)
    ensures LevelAccesses(s, levels)[0] == |s|
  {
    if s != [] {
      PrefixWithinLevels(s, levels);
      FirstLevelSeesAll(s[..|s| - 1], levels);
    }
  }

  /** An access that reaches a level reached every level before it. */
  lemma {:induction false} AccessesNonIncreasing(s: seq<Status>, levels: nat)
    requires WithinLevels(s, levels)
    ensures forall i, j :: 0 <= i <= j < levels + 2 ==>
              LevelAccesses(s, levels)[j] <= LevelAccesses(s, levels)[i]
  {
    if s != [] {
      PrefixWithinLevels(s, levels);
      AccessesNonIncreasing(s[..|s| - 1], levels);
    }
  }

  /** A level never counts more hits than accesses. */
  lemma {:induction false} HitsWithinAccesses(s: seq<Status>, levels: nat)
    requires WithinLevels(s, levels)
    ensures forall i :: 0 <= i < levels + 2 ==> LevelHits(s, levels)[i] <= LevelAccesses(s, levels)[i]
  {
    if s != [] {
      PrefixWithinLevels(s, levels);
      HitsWithinAccesses(s[..|s| - 1], levels);
    }
  }

  /** A RAM hit is charged an access at Disk too, so RAM and Disk always
      show the same number of accesses. */
  lemma {:induction false} RamAndDiskAccessesAgree(s: seq<Status>, levels: nat)
    requires WithinLevels(s, levels)
    ensures LevelAccesses(s, levels)[levels] == LevelAccesses(s, levels)[levels + 1]
  {
    if s != [] {
      PrefixWithinLevels(s, levels);
      RamAndDiskAccessesAgree(s[..|s| - 1], levels);
    }
  }

  /** The Disk entry of `levelHits` counts the misses: `total - hits`. */
  lemma {:induction false} DiskCountsMisses(s: seq<Status>, levels: nat)
    requires WithinLevels(s, levels)
    ensures LevelHits(s, levels)[levels + 1] == |s| - HitCount(s)
  {
    if s != [] {
      PrefixWithinLevels(s, levels);
      DiskCountsMisses(s[..|s| - 1], levels);
    }
  }

  /** What recording one more access does to the counters. */
  lemma Record(s: seq<Status>, st: Status, levels: nat)
    requires WithinLevels(s, levels) && (st.CacheHit? ==> st.level < levels)
    ensures WithinLevels(s + [st], levels)
    ensures LevelHits(s + [st], levels)
            == LevelHits(s, levels)[HitSlot(st, levels) := LevelHits(s, levels)[HitSlot(st, levels)] + 1]
    ensures LevelAccesses(s + [st], levels) == Bump(LevelAccesses(s, levels), ReachedSlot(st, levels))
    ensures HitCount(s + [st]) == HitCount(s) + (if st.Miss? then 0 else 1)
  {
    assert (s + [st])[..|s|] == s;
  }

  lemma ResultsSnoc(results: seq<AccessResult>, r: AccessResult)
    ensures Statuses(results + [r]) == Statuses(results) + [r.status]
    ensures Addresses(results + [r]) == Addresses(results) + [r.address]
  {
  }
}
