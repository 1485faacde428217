/** Binary search over indexed, sorted items against an implicit target
    (region "Binary" of Search.cs). */
module BinarySearch {
  import opened Wrappers
  import opened Compare

  /** The argument exceptions the public entry point throws before any work. */
  datatype ArgumentError =
    | GetIsNull                        // ArgumentNullException for `get`
    | CompareIsNull                    // ArgumentNullException for `compare`
    | LengthNotPositive(length: int)   // ArgumentOutOfRangeException for `length`

  /** The items read through `get` at positions [index, index + length) are
      sorted with respect to the sought value: reading them in order, `compare`
      yields some Less results, then some Equal ones, then some Greater ones. */
  ghost predicate Sorted<T>(get: int -> T, compare: T -> CompareResult, index: int, length: int)
  {
    forall i, j :: index <= i <= j < index + length ==> Rank(compare(get(i))) <= Rank(compare(get(j)))
  }

  /** `p` is where the sought value would be inserted among the positions
      [index, index + length): every item before it compares Less and every
      item from it onward compares Greater. */
  ghost predicate InsertionPoint<T>(get: int -> T, compare: T -> CompareResult, index: int, length: int, p: int)
  {
    && index <= p <= index + length
    && (forall i :: index <= i < p ==> compare(get(i)) == Less)
    && (forall i :: p <= i < index + length ==> compare(get(i)) == Greater)
  }

  /** The internal halving loop over [index, index + length). It returns the
      position of an item that compares Equal, or `~low` (written -low - 1)
      for the insertion point `low`. `probes` lists the positions read, in
      order; each lies inside the range. The sign of the result tells the two
      answers apart for a non-negative `index`, which is the only one the
      public entry point passes. */
  method BinaryRange<T>(get: int -> T, index: int, length: int, compare: T -> CompareResult)
    returns (r: int, ghost probes: seq<int>)
    requires 0 <= index
    ensures forall k :: 0 <= k < |probes| ==> index <= probes[k] < index + length
    ensures r >= 0 ==> index <= r < index + length && compare(get(r)) == Equal
    ensures r < 0 ==> -r - 1 == index || index <= -r - 1 <= index + length
    ensures length <= 0 ==> r == -index - 1 && probes == []
    ensures r < 0 && 0 <= length && Sorted(get, compare, index, length) ==> InsertionPoint(get, compare, index, length, -r - 1)
  {
    var low := index;
    var hi := index + length - 1;
    probes := [];
    while low <= hi
      invariant index <= low && hi < index + length
      invariant length >= 0 ==> low <= hi + 1
      invariant length < 0 ==> low == index
      invariant forall k :: 0 <= k < |probes| ==> index <= probes[k] < index + length
      invariant length <= 0 ==> probes == []
      invariant Sorted(get, compare, index, length) ==> forall i :: index <= i < low ==> compare(get(i)) == Less
      invariant Sorted(get, compare, index, length) ==> forall i :: hi < i < index + length ==> compare(get(i)) == Greater
      decreases hi - low
    {
      // `hi - low >> 1` shifts a non-negative difference, which is halving.
      var median := low + (hi - low) / 2;
      probes := probes + [median];
      var compareResult := compare(get(median));
      match compareResult
      case Less =>
        low := median + 1;
      case Greater =>
        hi := median - 1;
      case Equal =>
        return median, probes;
    }
    return -low - 1, probes;
  }

  /** The public entry point: reject a null `get`, then a null `compare`, then
      a non-positive `length`, each before any item is read; otherwise search
      [0, length). A found position lies in [0, length) and compares Equal;
      otherwise, over sorted items, the complement of the result is the
      insertion point. Every result lies in [-length - 1, length), so it fits
      the source's 32-bit `int` whenever `length` does. */
  method Binary<T>(get: Option<int -> T>, length: int, compare: Option<T -> CompareResult>)
    returns (r: Result<int, ArgumentError>, ghost probes: seq<int>)
    ensures get.None? ==> r == Failure(GetIsNull)
    ensures get.Some? && compare.None? ==> r == Failure(CompareIsNull)
    ensures get.Some? && compare.Some? && length <= 0 ==> r == Failure(LengthNotPositive(length))
    ensures r.Failure? ==> probes == []
    ensures r.Success? <==> get.Some? && compare.Some? && length > 0
    ensures r.Success? ==> -length - 1 <= r.value < length
    ensures r.Success? ==> forall k :: 0 <= k < |probes| ==> 0 <= probes[k] < length
    ensures r.Success? && r.value >= 0 ==> compare.value(get.value(r.value)) == Equal
    ensures r.Success? && r.value < 0 && Sorted(get.value, compare.value, 0, length) ==>
      InsertionPoint(get.value, compare.value, 0, length, -r.value - 1)
    ensures r.Success? && Sorted(get.value, compare.value, 0, length) ==>
      (r.value >= 0 <==> exists i :: 0 <= i < length && compare.value(get.value(i)) == Equal)
  {
    probes := [];
    if get.None? {
      return Failure(GetIsNull), probes;
    }
    if compare.None? {
      return Failure(CompareIsNull), probes;
    }
    if length <= 0 {
      return Failure(LengthNotPositive(length)), probes;
    }
    var found;
    found, probes := BinaryRange(get.value, 0, length, compare.value);
    r := Success(found);
  }

  /** The `items` are sorted with respect to the sought value:
      Less results, then Equal ones, then Greater ones. */
  ghost predicate SortedItems<T>(items: seq<T>, compare: T -> CompareResult)
  {
    forall i, j :: 0 <= i <= j < |items| ==> Rank(compare(items[i])) <= Rank(compare(items[j]))
  }

  /** The array overload: search all of `items`, reading them by position,
      through the entry point above. An empty array fails the length check
      before any item is read. A found position holds an item that compares
      Equal; over sorted items, the result is non-negative exactly when some
      item compares Equal, and otherwise its complement is the insertion
      point. */
  method BinaryArray<T(0)>(items: seq<T>, compare: Option<T -> CompareResult>)
    returns (r: Result<int, ArgumentError>)
    ensures compare.None? ==> r == Failure(CompareIsNull)
    ensures compare.Some? && items == [] ==> r == Failure(LengthNotPositive(0))
    ensures r.Success? <==> compare.Some? && items != []
    ensures r.Success? ==> -|items| - 1 <= r.value < |items|
    ensures r.Success? && r.value >= 0 ==> compare.value(items[r.value]) == Equal
    ensures r.Success? && SortedItems(items, compare.value) ==>
      (r.value >= 0 <==> exists i :: 0 <= i < |items| && compare.value(items[i]) == Equal)
    ensures r.Success? && r.value < 0 && SortedItems(items, compare.value) ==>
      && (forall i :: 0 <= i < -r.value - 1 ==> compare.value(items[i]) == Less)
      && (forall i :: -r.value - 1 <= i < |items| ==> compare.value(items[i]) == Greater)
  {
    var outside: T := *;
    var get := (i: int) => if 0 <= i < |items| then items[i] else outside;
    ghost var probes;
    r, probes := Binary(Some(get), |items|, compare);
    assert forall i :: 0 <= i < |items| ==> get(i) == items[i];
    if r.Success? && SortedItems(items, compare.value) {
      assert Sorted(get, compare.value, 0, |items|);
      if r.value < 0 {
        assert InsertionPoint(get, compare.value, 0, |items|, -r.value - 1);
      }
    }
  }
}
