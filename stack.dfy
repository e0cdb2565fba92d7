/**
 * srcs/stack.hpp: the LIFO adapter over ft::vector.
 *
 * The top of the stack is the back of the underlying vector `c`.
 */
module Stack {
  import V = Vector

  class Stack<T(0)> {
    var c: V.Vector<T>

    ghost predicate Valid()
      reads this, c
    {
      c.Valid()
    }

    /** The elements, bottom first. */
    ghost function Contents(): seq<T>
      reads this, c, c.data
      requires Valid()
    {
      c.Contents()
    }

    /** stack(ctnr): `c` is copy-constructed from `ctnr`. */
    constructor (ctnr: V.Vector<T>)
      requires ctnr.Valid()
      ensures Valid() && Contents() == ctnr.Contents()
      ensures fresh(c) && fresh(c.data)
    {
      c := new V.Vector.Copy(ctnr);
    }

    function Empty(): (r: bool)
      reads this, c, c.data
      requires Valid()
      ensures r <==> Size() == 0
      ensures r <==> Contents() == []
    {
      c.Empty()
    }

    function Size(): (r: nat)
      reads this, c, c.data
      ensures Valid() ==> r == |Contents()|
    {
      c.Size()
    }

    /** top() is c.back(). */
    function Top(): (r: T)
      reads this, c, c.data
      requires Valid() && c.size > 0
      ensures r == Contents()[|Contents()| - 1]
    {
      c.Back()
    }

    /** push(val) is c.push_back(val). */
    method Push(val: T)
      requires Valid() && c.size + 1 <= V.MaxSize
      modifies c, c.data
      ensures Valid() && Contents() == old(Contents()) + [val]
      ensures Top() == val && Size() == old(Size()) + 1
      ensures fresh(c.data) || c.data == old(c.data)
    {
      c.PushBack(val);
    }

    /** pop() is c.pop_back(). */
    method Pop()
      requires Valid() && c.size > 0
      modifies c, c.data
      ensures Valid() && Contents() == old(Contents())[..|old(Contents())| - 1]
      ensures c.data == old(c.data)
    {
      c.PopBack();
    }
  }

  /** The comparisons are those of the underlying vectors. */
  method Equal<T(0,==)>(lhs: Stack<T>, rhs: Stack<T>) returns (r: bool)
    requires lhs.Valid() && rhs.Valid()
    ensures r <==> lhs.Contents() == rhs.Contents()
  {
    r := V.Equal(lhs.c, rhs.c);
  }

  method NotEqual<T(0,==)>(lhs: Stack<T>, rhs: Stack<T>) returns (r: bool)
    requires lhs.Valid() && rhs.Valid()
    ensures r <==> lhs.Contents() != rhs.Contents()
  {
    r := V.NotEqual(lhs.c, rhs.c);
  }

  method Less<T(0,==)>(less: (T, T) -> bool, lhs: Stack<T>, rhs: Stack<T>) returns (r: bool)
    requires lhs.Valid() && rhs.Valid()
    ensures r <==> V.LexLess(less, lhs.Contents(), rhs.Contents())
  {
    r := V.Less(less, lhs.c, rhs.c);
  }

  method LessEq<T(0,==)>(less: (T, T) -> bool, lhs: Stack<T>, rhs: Stack<T>) returns (r: bool)
    requires lhs.Valid() && rhs.Valid()
    ensures r <==> !V.LexLess(less, rhs.Contents(), lhs.Contents())
  {
    r := V.LessEq(less, lhs.c, rhs.c);
  }

  method Greater<T(0,==)>(less: (T, T) -> bool, lhs: Stack<T>, rhs: Stack<T>) returns (r: bool)
    requires lhs.Valid() && rhs.Valid()
    ensures r <==> V.LexLess(less, rhs.Contents(), lhs.Contents())
  {
    r := V.Greater(less, lhs.c, rhs.c);
  }

  method GreaterEq<T(0,==)>(less: (T, T) -> bool, lhs: Stack<T>, rhs: Stack<T>) returns (r: bool)
    requires lhs.Valid() && rhs.Valid()
    ensures r <==> !V.LexLess(less, lhs.Contents(), rhs.Contents())
  {
    r := V.GreaterEq(less, lhs.c, rhs.c);
  }

  /** Pushing 4, 8, 15, 16, 23, 42 gives six elements; one pop leaves 23 on top. */
  method PushPopScenario() returns (sizeAfterPushes: nat, topAfterPop: int)
    ensures sizeAfterPushes == 6 && topAfterPop == 23
  {
    var empty := new V.Vector<int>();
    var s := new Stack(empty);
    s.Push(4);
    s.Push(8);
    s.Push(15);
    s.Push(16);
    s.Push(23);
    s.Push(42);
    sizeAfterPushes := s.Size();
    s.Pop();
    topAfterPop := s.Top();
  }
}
