/**
 * The prime table of `primes.py`: a lower-bound binary search over an
 * ascending list of unique integers, and the random pick of a table entry
 * between optional bounds.
 */
module Primes {
  import opened Wrappers

  /** The table's items are unique and in ascending order. */
  predicate StrictlySorted(a: seq<int>) {
    forall i, j :: 0 <= i < j < |a| ==> a[i] < a[j]
  }

  /** `q` lies in the half-open range given by the optional bounds. */
  predicate InRange(q: int, minimum: Option<int>, maximum: Option<int>) {
    (minimum.None? || minimum.value <= q) && (maximum.None? || q < maximum.value)
  }

  /**
   * `_bin_search(array, value)`: the index of the first item no less than
   * `value`. On an empty list the read of `array[m]` after the loop raises.
   */
  method BinSearch(items: seq<int>, value: int) returns (res: Result<nat>)
    requires StrictlySorted(items)
    ensures res.Raised? <==> |items| == 0
    ensures res.Raised? ==> res.error == IndexError
    ensures res.Ok? ==> res.value <= |items|
    ensures res.Ok? ==> forall j :: 0 <= j < res.value ==> items[j] < value
    ensures res.Ok? ==> forall j :: res.value <= j < |items| ==> value <= items[j]
    ensures res.Ok? && value in items ==> res.value < |items| && items[res.value] == value
  {
    var l, r := 0, |items|;
    var m := l;
    while l < r
      invariant 0 <= l <= r <= |items|
      invariant forall j :: 0 <= j < l ==> items[j] < value
      invariant forall j :: r <= j < |items| ==> value < items[j]
      invariant m == r || m + 1 == l || (l == 0 && m == 0)
      invariant |items| > 0 ==> m < |items|
      decreases r - l
    {
      m := (l + r) / 2;
      var mVal := items[m];
      if mVal == value {
        return Ok(m);
      }
      if mVal > value {
        r := m;
      } else {
        l := m + 1;
      }
    }
    if |items| == 0 {
      return Raised(IndexError);
    }
    if items[m] < value {
      m := m + 1;
    }
    return Ok(m);
  }

  /** `RandomPrimeNumberGenerator`: the table of primes it was built from. */
  datatype RandomPrimeNumberGenerator = RandomPrimeNumberGenerator(primes: seq<int>)

  /**
   * `RandomPrimeNumberGenerator.__call__(minimum, maximum)`: a table entry
   * in `[minimum, maximum)`. The index drawn by `random.randrange(l, r)` is an
   * arbitrary one in range; an empty range raises `ValueError`, and a bound
   * given for an empty table makes the search raise `IndexError`.
   */
  method Call(gen: RandomPrimeNumberGenerator, minimum: Option<int>, maximum: Option<int>)
    returns (res: Result<int>)
    requires StrictlySorted(gen.primes)
    ensures res.Ok? ==> res.value in gen.primes && InRange(res.value, minimum, maximum)
    ensures res.Ok? <==> exists j :: 0 <= j < |gen.primes| && InRange(gen.primes[j], minimum, maximum)
    ensures res.Raised? ==>
      res.error == (if |gen.primes| == 0 && (minimum.Some? || maximum.Some?) then IndexError else ValueError)
  {
    var primes := gen.primes;
    var l: nat, r: nat;
    if minimum.None? {
      l := 0;
    } else {
      var found := BinSearch(primes, minimum.value);
      if found.Raised? {
        return Raised(found.error);
      }
      l := found.value;
    }
    if maximum.None? {
      r := |primes|;
    } else {
      var found := BinSearch(primes, maximum.value);
      if found.Raised? {
        return Raised(found.error);
      }
      r := found.value;
    }
    if l >= r {
      return Raised(ValueError);
    }
    var k :| l <= k < r;
    return Ok(primes[k]);
  }
}
