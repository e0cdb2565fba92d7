/**
 * srcs/iterators/vector_iterator.hpp: the random-access iterator of vector.
 *
 * The iterator wraps a pointer into the vector's buffer; it is modelled by
 * the pointer's offset `p` from the start of the buffer.
 */
module VectorIter {

  class VectorIterator {
    var p: int

    constructor (p: int)
      ensures this.p == p
    {
      this.p := p;
    }

    /** base(). */
    function Base(): (b: int)
      reads this
      ensures b == p
    {
      p
    }

    /** operator*: the element at the pointer. */
    function Deref<T>(buf: seq<T>): (r: T)
      reads this
      requires 0 <= p < |buf|
      ensures r == buf[Base()]
    {
      buf[p]
    }

    /** operator+(n) and operator-(n): the offset of the resulting iterator. */
    function Plus(n: int): (q: int)
      reads this
      ensures q - p == n
    {
      p + n
    }

    function Minus(n: int): (q: int)
      reads this
      ensures q == Plus(-n)
    {
      p - n
    }

    /** operator[](n) is `*(*this + n)`. */
    function Index<T>(buf: seq<T>, n: int): (r: T)
      reads this
      requires 0 <= p + n < |buf|
      ensures r == buf[p + n]
    {
      buf[Plus(n)]
    }

    method Increment()
      modifies this
      ensures p == old(p) + 1
    {
      p := p + 1;
    }

    /** operator++(int): returns a copy taken before the move. */
    method PostIncrement() returns (prev: int)
      modifies this
      ensures prev == old(p) && p == old(p) + 1
    {
      prev := p;
      p := p + 1;
    }

    method Decrement()
      modifies this
      ensures p == old(p) - 1
    {
      p := p - 1;
    }

    method PostDecrement() returns (prev: int)
      modifies this
      ensures prev == old(p) && p == old(p) - 1
    {
      prev := p;
      p := p - 1;
    }

    /** operator+=(n) and operator-=(n) return a copy of the moved iterator. */
    method AddAssign(n: int) returns (r: int)
      modifies this
      ensures p == old(p) + n && r == p
    {
      p := p + n;
      r := p;
    }

    method SubAssign(n: int) returns (r: int)
      modifies this
      ensures p == old(p) - n && r == p
    {
      p := p - n;
      r := p;
    }
  }

  /** The non-member `lhs - rhs`. */
  function Difference(lhs: VectorIterator, rhs: VectorIterator): (d: int)
    reads lhs, rhs
    ensures rhs.Plus(d) == lhs.p
  {
    lhs.p - rhs.p
  }

  /** `n + it` is `it + n`. */
  function PlusLeft(n: int, it: VectorIterator): (q: int)
    reads it
    ensures q - it.p == n
  {
    it.Plus(n)
  }

  predicate Equal(lhs: VectorIterator, rhs: VectorIterator)
    reads lhs, rhs
    ensures Equal(lhs, rhs) <==> Difference(lhs, rhs) == 0
  {
    lhs.p == rhs.p
  }

  predicate NotEqual(lhs: VectorIterator, rhs: VectorIterator)
    reads lhs, rhs
    ensures NotEqual(lhs, rhs) <==> !Equal(lhs, rhs)
  {
    lhs.p != rhs.p
  }

  /** operator> compares the pointers; the other orders go through it as the source writes them. */
  predicate Greater(lhs: VectorIterator, rhs: VectorIterator)
    reads lhs, rhs
    ensures Greater(lhs, rhs) <==> Difference(lhs, rhs) > 0
  {
    lhs.p > rhs.p
  }

  predicate Less(lhs: VectorIterator, rhs: VectorIterator)
    reads lhs, rhs
    ensures Less(lhs, rhs) <==> lhs.p < rhs.p
  {
    Greater(rhs, lhs)
  }

  predicate LessEq(lhs: VectorIterator, rhs: VectorIterator)
    reads lhs, rhs
    ensures LessEq(lhs, rhs) <==> lhs.p <= rhs.p
  {
    !Greater(lhs, rhs)
  }

  predicate GreaterEq(lhs: VectorIterator, rhs: VectorIterator)
    reads lhs, rhs
    ensures GreaterEq(lhs, rhs) <==> lhs.p >= rhs.p
  {
    !Greater(rhs, lhs)
  }

  /** Offsets and differences agree: `(it + n) - it == n`, and `it[n] == *(it + n)`. */
  lemma ArithmeticAgrees<T>(it: VectorIterator, jt: VectorIterator, n: int, buf: seq<T>)
    requires jt.p == it.Plus(n)
    ensures Difference(jt, it) == n
    ensures PlusLeft(n, it) == it.Plus(n) && it.Minus(n) == it.Plus(-n)
    ensures 0 <= it.p + n < |buf| ==> it.Index(buf, n) == jt.Deref(buf)
  {
  }

  /**
   * The iterators are totally ordered by position: of `<`, `==` and `>`
   * exactly one holds, `<` is transitive, and `<=` is `<` or `==`.
   */
  lemma OrderIsPositionOrder(a: VectorIterator, b: VectorIterator, c: VectorIterator)
    ensures Less(a, b) || Equal(a, b) || Greater(a, b)
    ensures !(Less(a, b) && Equal(a, b)) && !(Less(a, b) && Greater(a, b)) && !(Equal(a, b) && Greater(a, b))
    ensures Less(a, b) && Less(b, c) ==> Less(a, c)
    ensures LessEq(a, b) <==> Less(a, b) || Equal(a, b)
  {
  }
}
