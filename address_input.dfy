/** `handleAddAddress`: the comma-separated input is split and parsed, the
    parsed numbers outside `0 .. addressSize - 1` (and the `NaN`s) are
    dropped, and what is left is appended to the address list, unless
    nothing is left, in which case the list stays as it was. */
module AddressInput {
  import opened Wrappers

  /** Every address lies in `0 .. addressSize - 1`. */
  predicate AllInRange(addresses: seq<int>, addressSize: int)
  {
    forall i :: 0 <= i < |addresses| ==> 0 <= addresses[i] < addressSize
  }

  /** The `filter` step over the parsed entries, `None` standing for `NaN`:
      the numbers in range, in input order. */
  function InRange(parsed: seq<Option<int>>, addressSize: int): (r: seq<int>)
    ensures |r| <= |parsed|
    ensures AllInRange(r, addressSize)
    ensures forall x :: x in r <==> Some(x) in parsed && 0 <= x < addressSize
  {
    if parsed == [] then []
    else
      var rest := InRange(parsed[1..], addressSize);
      assert parsed == [parsed[0]] + parsed[1..];
      match parsed[0]
      case Some(x) => if 0 <= x < addressSize then [x] + rest else rest
      case None => rest
  }

  /** Filtering keeps input order: the filter of two inputs one after the
      other is the two filters one after the other. */
  lemma {:induction false} InRangeAppend(a: seq<Option<int>>, b: seq<Option<int>>, addressSize: int)
    ensures InRange(a + b, addressSize) == InRange(a, addressSize) + InRange(b, addressSize)
  {
    if a == [] {
      assert a + b == b;
    } else {
      assert (a + b)[1..] == a[1..] + b;
      InRangeAppend(a[1..], b, addressSize);
    }
  }

  /** An input whose entries all parse to in-range numbers passes unchanged. */
  lemma {:induction false} InRangeKeepsValid(parsed: seq<Option<int>>, addressSize: int)
    requires forall i :: 0 <= i < |parsed| ==> parsed[i].Some? && 0 <= parsed[i].value < addressSize
    ensures |InRange(parsed, addressSize)| == |parsed|
    ensures forall i :: 0 <= i < |parsed| ==> InRange(parsed, addressSize)[i] == parsed[i].value
  {
    if parsed != [] {
      var rest := parsed[1..];
      InRangeKeepsValid(rest, addressSize);
      assert InRange(parsed, addressSize) == [parsed[0].value] + InRange(rest, addressSize);
    }
  }

  /** `handleAddAddress` on the current list: `None` is the alert, which
      leaves the list as it was; otherwise the list grows by the filtered
      input at its end, and a list of in-range addresses stays one. */
  function AddAddresses(addresses: seq<int>, parsed: seq<Option<int>>, addressSize: int): (r: Option<seq<int>>)
    ensures r.None? <==> forall x :: Some(x) in parsed ==> !(0 <= x < addressSize)
    ensures r.Some? ==>
              && |addresses| < |r.value| <= |addresses| + |parsed|
              && r.value[..|addresses|] == addresses
              && r.value[|addresses|..] == InRange(parsed, addressSize)
    ensures r.Some? && AllInRange(addresses, addressSize) ==> AllInRange(r.value, addressSize)
  {
    var added := InRange(parsed, addressSize);
    if |added| == 0 then None
    else
      assert added[0] in added;
      Some(addresses + added)
  }
}
