/**
 * srcs/iterator.hpp: reverse_iterator and distance.
 *
 * An iterator is modelled by its position: the index, in the sequence it
 * traverses, of the element it designates (the sequence's length for the
 * past-the-end position).  `++` and `--` step that index by one.
 */
module Iterator {

  /** distance for random-access iterators: the difference of the positions. */
  function Distance(first: int, last: int): (d: int)
    ensures first + d == last
  {
    last - first
  }

  /**
   * distance for the other iterators: counts the `++` steps from `first` to
   * `last`.  `last` must be reachable from `first`.
   */
  method CountingDistance(first: int, last: int) returns (diff: int)
    requires first <= last
    ensures diff == Distance(first, last)
  {
    var it := first;
    diff := 0;
    while it != last
      invariant first <= it <= last
      invariant diff == it - first
      decreases last - it
    {
      it := it + 1;
      diff := diff + 1;
    }
  }

  /**
   * reverse_iterator over a bidirectional or random-access iterator whose
   * position is `base`: it designates the element just before `base`.
   */
  class ReverseIterator {
    var base: int

    constructor (it: int)
      ensures base == it
    {
      base := it;
    }

    /** operator*: the element just before the base position. */
    function Deref<T>(s: seq<T>): (r: T)
      reads this
      requires 0 < base <= |s|
      ensures r == Index(s, 0)
    {
      s[base - 1]
    }

    /** operator[](n): `base()[-n - 1]`. */
    function Index<T>(s: seq<T>, n: int): (r: T)
      reads this
      requires 0 <= base - n - 1 < |s|
      ensures 0 < Plus(n) <= |s| && r == s[Plus(n) - 1]
    {
      s[base - n - 1]
    }

    /** operator+(n) and operator-(n): the base of the resulting reverse iterator. */
    function Plus(n: int): (b: int)
      reads this
      ensures b == Minus(-n)
    {
      base - n
    }

    function Minus(n: int): (b: int)
      reads this
      ensures b - base == n
    {
      base + n
    }

    /** operator++: the base moves back one position. */
    method Increment()
      modifies this
      ensures base == old(base) - 1
    {
      base := base - 1;
    }

    /** operator++(int): returns the base it had before moving. */
    method PostIncrement() returns (prev: int)
      modifies this
      ensures prev == old(base) && base == old(base) - 1
    {
      prev := base;
      Increment();
    }

    /** operator--: the base moves forward one position. */
    method Decrement()
      modifies this
      ensures base == old(base) + 1
    {
      base := base + 1;
    }

    method PostDecrement() returns (prev: int)
      modifies this
      ensures prev == old(base) && base == old(base) + 1
    {
      prev := base;
      Decrement();
    }

    /** operator+=(n) and operator-=(n). */
    method AddAssign(n: int)
      modifies this
      ensures base == old(base) - n
    {
      base := base - n;
    }

    method SubAssign(n: int)
      modifies this
      ensures base == old(base) + n
    {
      base := base + n;
    }
  }

  /** The non-member operators compare and subtract the bases the other way round. */
  function Difference(lhs: ReverseIterator, rhs: ReverseIterator): (d: int)
    reads lhs, rhs
    ensures rhs.Plus(d) == lhs.base
  {
    rhs.base - lhs.base
  }

  predicate Equal(lhs: ReverseIterator, rhs: ReverseIterator)
    reads lhs, rhs
    ensures Equal(lhs, rhs) <==> Difference(lhs, rhs) == 0
  {
    lhs.base == rhs.base
  }

  predicate NotEqual(lhs: ReverseIterator, rhs: ReverseIterator)
    reads lhs, rhs
    ensures NotEqual(lhs, rhs) <==> !Equal(lhs, rhs)
  {
    lhs.base != rhs.base
  }

  predicate Less(lhs: ReverseIterator, rhs: ReverseIterator)
    reads lhs, rhs
    ensures Less(lhs, rhs) <==> Difference(lhs, rhs) < 0
  {
    lhs.base > rhs.base
  }

  predicate Greater(lhs: ReverseIterator, rhs: ReverseIterator)
    reads lhs, rhs
    ensures Greater(lhs, rhs) <==> Less(rhs, lhs)
  {
    lhs.base < rhs.base
  }

  predicate LessEq(lhs: ReverseIterator, rhs: ReverseIterator)
    reads lhs, rhs
    ensures LessEq(lhs, rhs) <==> Less(lhs, rhs) || Equal(lhs, rhs)
  {
    lhs.base >= rhs.base
  }

  predicate GreaterEq(lhs: ReverseIterator, rhs: ReverseIterator)
    reads lhs, rhs
    ensures GreaterEq(lhs, rhs) <==> !Less(lhs, rhs)
  {
    lhs.base <= rhs.base
  }

  /** The non-member operator+(n, x): the base of `x + n`. */
  function PlusLeft(n: int, x: ReverseIterator): (b: int)
    reads x
    ensures b - x.base == -n
  {
    x.Plus(n)
  }

  /**
   * Walking a reverse iterator visits the sequence backwards: the element it
   * designates after `k` increments from rbegin() (base |s|) is the k-th
   * element of the reversed sequence, and r[n] is what r + n designates.
   */
  lemma ReverseTraversal<T>(r: ReverseIterator, s: seq<T>, k: nat, n: int)
    requires r.base == |s| - k && k < |s|
    requires 0 <= k + n < |s|
    ensures r.Deref(s) == s[|s| - 1 - k]
    ensures r.Index(s, n) == s[|s| - 1 - (k + n)]
    ensures 0 < r.Plus(n) <= |s| && r.Index(s, n) == s[r.Plus(n) - 1]
  {
  }

  /**
   * The reverse iterators are totally ordered: of `<`, `==` and `>` exactly
   * one holds, and `<` is transitive.
   */
  lemma ReverseOrder(a: ReverseIterator, b: ReverseIterator, c: ReverseIterator)
    ensures Less(a, b) || Equal(a, b) || Greater(a, b)
    ensures !(Less(a, b) && Equal(a, b)) && !(Less(a, b) && Greater(a, b)) && !(Equal(a, b) && Greater(a, b))
    ensures Less(a, b) && Less(b, c) ==> Less(a, c)
  {
  }

  /** `n + x` designates what `x[n]` designates, `n` places further along the reversed sequence. */
  lemma PlusFromLeft<T>(n: int, x: ReverseIterator, s: seq<T>)
    requires 0 <= x.base - n - 1 < |s|
    ensures 0 < PlusLeft(n, x) <= |s| && x.Index(s, n) == s[PlusLeft(n, x) - 1]
    ensures PlusLeft(n, x) == x.base - n
  {
  }
}
