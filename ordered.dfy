/** JavaScript `Map` and `Set` as the eviction policies use them: iteration
    order is insertion order, deleting a key keeps the order of the others,
    and setting an existing key keeps its position. */
module Ordered {

  /** No key occurs twice: the keys of a JS `Map` or the members of a JS `Set`. */
  predicate Distinct(s: seq<int>)
  {
    forall i, j :: 0 <= i < j < |s| ==> s[i] != s[j]
  }

  /** The addresses `start`, `start + 1`, ..., `end` in the order a fill loop visits them. */
  function Range(start: int, end: int): (r: seq<int>)
    ensures |r| == if start <= end then end - start + 1 else 0
    ensures forall i :: 0 <= i < |r| ==> r[i] == start + i
    decreases end - start
  {
    if start > end then [] else Range(start, end - 1) + [end]
  }

  lemma {:induction false} RangeMembers(start: int, end: int, x: int)
    ensures x in Range(start, end) <==> start <= x <= end
  {
    if start <= x <= end {
      assert Range(start, end)[x - start] == x;
    }
  }

  /** `Map.delete` / `Set.delete`: every occurrence of `x` goes, the rest keep their order. */
  function Remove(s: seq<int>, x: int): (r: seq<int>)
    ensures forall y :: y in r <==> y in s && y != x
    ensures x !in s ==> r == s
    ensures |r| <= |s|
    ensures Distinct(s) ==> Distinct(r)
    ensures Distinct(s) && x in s ==> |r| == |s| - 1
    ensures Distinct(s) && x in s ==> multiset(r) == multiset(s) - multiset{x}
  {
    if s == [] then []
    else if s[0] == x then
      assert s == [s[0]] + s[1..];
      DistinctCons(s[0], s[1..]);
      Remove(s[1..], x)
    else
      var rest := Remove(s[1..], x);
      assert s == [s[0]] + s[1..];
      DistinctCons(s[0], s[1..]);
      DistinctCons(s[0], rest);
      assert multiset(s) == multiset{s[0]} + multiset(s[1..]);
      [s[0]] + rest
  }

  /** Deleting a key from a Set cuts it out where it stands and leaves the
      other keys in their insertion order. */
  lemma {:induction false} RemoveKeepsOrder(s: seq<int>, i: int)
    requires Distinct(s) && 0 <= i < |s|
    ensures Remove(s, s[i]) == s[..i] + s[i + 1..]
  {
    assert s == [s[0]] + s[1..];
    DistinctCons(s[0], s[1..]);
    if i > 0 {
      assert s[0] != s[i];
      RemoveKeepsOrder(s[1..], i - 1);
      CutAfterHead(s, i);
    }
  }

  /** Cutting out position `i > 0` is cutting out position `i - 1` of the tail. */
  lemma CutAfterHead(s: seq<int>, i: int)
    requires 0 < i < |s|
    ensures s[..i] + s[i + 1..] == [s[0]] + (s[1..][..i - 1] + s[1..][i..])
  {
    assert s[1..][..i - 1] == s[1..i] && s[1..][i..] == s[i + 1..];
    assert s[..i] == [s[0]] + s[1..i];
  }

  lemma DistinctCons(x: int, s: seq<int>)
    ensures Distinct([x] + s) <==> x !in s && Distinct(s)
  {
    var t := [x] + s;
    if x !in s && Distinct(s) {
      forall i, j | 0 <= i < j < |t| ensures t[i] != t[j] {
        if i > 0 { assert t[i] == s[i - 1] && t[j] == s[j - 1]; }
        else { assert t[j] == s[j - 1]; }
      }
    }
    if Distinct(t) {
      forall i, j | 0 <= i < j < |s| ensures s[i] != s[j] {
        assert s[i] == t[i + 1] && s[j] == t[j + 1];
      }
      forall k | 0 <= k < |s| ensures s[k] != x {
        assert t[0] == x && t[k + 1] == s[k];
        assert t[0] != t[k + 1];
      }
    }
  }

  lemma DistinctSnoc(s: seq<int>, x: int)
    requires x !in s
    ensures Distinct(s) ==> Distinct(s + [x])
  {
    var t := s + [x];
    if Distinct(s) {
    forall i, j | 0 <= i < j < |t| ensures t[i] != t[j] {
      if j == |s| { assert t[i] == s[i]; } else { assert t[i] == s[i] && t[j] == s[j]; }
    }
    }
  }

  /** `Map.set` / `Set.add` as seen by the key order: a new key goes last,
      an existing key keeps its place. */
  function Insert(s: seq<int>, x: int): (r: seq<int>)
    ensures forall y :: y in r <==> y in s || y == x
    ensures x in s ==> r == s
    ensures x !in s ==> r == s + [x]
    ensures Distinct(s) ==> Distinct(r)
  {
    if x in s then s
    else
      DistinctSnoc(s, x);
      s + [x]
  }

  /** Deleting the first key of a map without duplicates drops the head. */
  lemma RemoveFirst(s: seq<int>)
    requires Distinct(s) && |s| > 0
    ensures Remove(s, s[0]) == s[1..]
  {
    assert s == [s[0]] + s[1..];
    DistinctCons(s[0], s[1..]);
  }

  lemma TakeOneMore(s: seq<int>, i: nat)
    requires i < |s|
    ensures s[..i + 1] == s[..i] + [s[i]]
  {
  }

  /** A JS `Map` from addresses to `V`: its keys in insertion order and its entries. */
  datatype JsMap<V> = JsMap(keys: seq<int>, vals: map<int, V>)
  {
    ghost predicate Valid()
    {
      Distinct(keys) && forall k :: k in keys <==> k in vals
    }

    /** `map.size` */
    function Size(): nat
    {
      |keys|
    }

    /** `map.has(k)` */
    predicate Has(k: int)
    {
      k in vals
    }

    /** `map.set(k, v)`: the value changes, the key keeps its place or goes last. */
    function Set(k: int, v: V): (r: JsMap<V>)
      requires Valid()
      ensures r.Valid()
      ensures r.keys == Insert(keys, k)
      ensures r.vals == vals[k := v]
    {
      JsMap(Insert(keys, k), vals[k := v])
    }

    /** `map.delete(k)`: the entry goes, the other keys keep their order. */
    function Delete(k: int): (r: JsMap<V>)
      requires Valid()
      ensures r.Valid()
      ensures r.keys == Remove(keys, k)
      ensures r.vals == vals - {k}
      ensures Has(k) ==> r.Size() == Size() - 1
      ensures !Has(k) ==> r == this
    {
      JsMap(Remove(keys, k), vals - {k})
    }
  }

  /** `new Map()` */
  function EmptyMap<V>(): (m: JsMap<V>)
    ensures m.Valid() && m.Size() == 0
  {
    JsMap([], map[])
  }
}
