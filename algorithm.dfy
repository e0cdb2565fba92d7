/**
 * srcs/algorithm.hpp: swap, max and min.
 *
 * The element type's `operator<` is the comparator `less`; `a > b` is
 * `less(b, a)`, as for the built-in types.
 */
module Algorithm {
  import opened Ordering

  /** swap(a, b): through a temporary, each reference receives the other's value. */
  method Swap<T>(a: T, b: T) returns (a': T, b': T)
    ensures a' == b && b' == a
  {
    var tmp := a;
    a' := b;
    b' := tmp;
  }

  /** max(a, b) returns `a` only when `a > b`; on a tie it returns `b`. */
  function Max<T>(less: (T, T) -> bool, a: T, b: T): (r: T)
    ensures r == a || r == b
  {
    if less(b, a) then a else b
  }

  /** min(a, b) returns `a` only when `a < b`; on a tie it returns `b`. */
  function Min<T>(less: (T, T) -> bool, a: T, b: T): (r: T)
    ensures r == a || r == b
  {
    if less(a, b) then a else b
  }

  /** No argument exceeds the result of max; of two equivalent arguments it returns `b`. */
  lemma MaxBounds<T(!new)>(less: (T, T) -> bool, a: T, b: T)
    requires StrictWeakOrder(less)
    ensures !less(Max(less, a, b), a) && !less(Max(less, a, b), b)
    ensures Equivalent(less, a, b) ==> Max(less, a, b) == b
    ensures Max(less, a, b) == a <==> less(b, a) || a == b
  {
  }

  /** The result of min exceeds neither argument; of two equivalent arguments it returns `b`. */
  lemma MinBounds<T(!new)>(less: (T, T) -> bool, a: T, b: T)
    requires StrictWeakOrder(less)
    ensures !less(a, Min(less, a, b)) && !less(b, Min(less, a, b))
    ensures Equivalent(less, a, b) ==> Min(less, a, b) == b
    ensures Min(less, a, b) == a <==> less(a, b) || a == b
  {
  }
}
