/**
 * srcs/utility.hpp: ft::pair and its comparisons.
 *
 * A pair is a value with two fields.  Its comparisons use the components'
 * `==` and `operator<`; the latter are the parameters `lessA` and `lessB`.
 */
module Utility {
  import opened Ordering

  datatype Pair<A, B> = Pair(first: A, second: B)

  /** make_pair(x, y). */
  function MakePair<A, B>(x: A, y: B): (p: Pair<A, B>)
    ensures p.first == x && p.second == y
  {
    Pair(x, y)
  }

  /** operator==: both components are equal. */
  predicate Eq<A(==), B(==)>(lhs: Pair<A, B>, rhs: Pair<A, B>)
    ensures Eq(lhs, rhs) <==> lhs == rhs
  {
    lhs.first == rhs.first && lhs.second == rhs.second
  }

  /** operator!=. */
  predicate Ne<A(==), B(==)>(lhs: Pair<A, B>, rhs: Pair<A, B>)
    ensures Ne(lhs, rhs) <==> lhs != rhs
  {
    !Eq(lhs, rhs)
  }

  /** operator<: the firsts decide; when neither first is less, the seconds do. */
  predicate Lt<A, B>(lessA: (A, A) -> bool, lessB: (B, B) -> bool, lhs: Pair<A, B>, rhs: Pair<A, B>)
    ensures lessA(lhs.first, rhs.first) ==> Lt(lessA, lessB, lhs, rhs)
    ensures Equivalent(lessA, lhs.first, rhs.first) ==> (Lt(lessA, lessB, lhs, rhs) <==> lessB(lhs.second, rhs.second))
    ensures lessA(rhs.first, lhs.first) && !lessA(lhs.first, rhs.first) ==> !Lt(lessA, lessB, lhs, rhs)
  {
    lessA(lhs.first, rhs.first) || (!lessA(rhs.first, lhs.first) && lessB(lhs.second, rhs.second))
  }

  /** operator<=, operator> and operator>=, derived from operator< as the source writes them. */
  predicate Le<A, B>(lessA: (A, A) -> bool, lessB: (B, B) -> bool, lhs: Pair<A, B>, rhs: Pair<A, B>)
    ensures Le(lessA, lessB, lhs, rhs) <==> !Gt(lessA, lessB, lhs, rhs)
  {
    !Lt(lessA, lessB, rhs, lhs)
  }

  predicate Gt<A, B>(lessA: (A, A) -> bool, lessB: (B, B) -> bool, lhs: Pair<A, B>, rhs: Pair<A, B>)
    ensures lessA(rhs.first, lhs.first) ==> Gt(lessA, lessB, lhs, rhs)
    ensures Equivalent(lessA, lhs.first, rhs.first) ==> (Gt(lessA, lessB, lhs, rhs) <==> lessB(rhs.second, lhs.second))
  {
    Lt(lessA, lessB, rhs, lhs)
  }

  predicate Ge<A, B>(lessA: (A, A) -> bool, lessB: (B, B) -> bool, lhs: Pair<A, B>, rhs: Pair<A, B>)
    ensures Ge(lessA, lessB, lhs, rhs) <==> Le(lessA, lessB, rhs, lhs)
  {
    !Lt(lessA, lessB, lhs, rhs)
  }

  /** The comparator on pairs that operator< defines. */
  function PairLess<A, B>(lessA: (A, A) -> bool, lessB: (B, B) -> bool): (Pair<A, B>, Pair<A, B>) -> bool {
    (p: Pair<A, B>, q: Pair<A, B>) => Lt(lessA, lessB, p, q)
  }

  /** Two pairs are equivalent under operator< exactly when both components are. */
  lemma PairEquivalent<A, B>(lessA: (A, A) -> bool, lessB: (B, B) -> bool, p: Pair<A, B>, q: Pair<A, B>)
    ensures Equivalent(PairLess(lessA, lessB), p, q)
      <==> Equivalent(lessA, p.first, q.first) && Equivalent(lessB, p.second, q.second)
  {
  }

  /**
   * operator< is lexicographic: when the components' orders are strict weak
   * orders, so is the order on pairs.
   */
  lemma LexicographicStrictWeakOrder<A(!new), B(!new)>(lessA: (A, A) -> bool, lessB: (B, B) -> bool)
    requires StrictWeakOrder(lessA) && StrictWeakOrder(lessB)
    ensures StrictWeakOrder(PairLess(lessA, lessB))
  {
    var lt := PairLess(lessA, lessB);
    forall p, q, r | lt(p, q) && lt(q, r) ensures lt(p, r) {
      LexTransitive(lessA, lessB, p, q, r);
    }
    forall p, q, r | Equivalent(lt, p, q) && Equivalent(lt, q, r) ensures Equivalent(lt, p, r) {
      PairEquivalent(lessA, lessB, p, q);
      PairEquivalent(lessA, lessB, q, r);
      PairEquivalent(lessA, lessB, p, r);
    }
  }

  lemma LexTransitive<A(!new), B(!new)>(lessA: (A, A) -> bool, lessB: (B, B) -> bool, p: Pair<A, B>, q: Pair<A, B>, r: Pair<A, B>)
    requires StrictWeakOrder(lessA) && StrictWeakOrder(lessB)
    requires Lt(lessA, lessB, p, q) && Lt(lessA, lessB, q, r)
    ensures Lt(lessA, lessB, p, r)
  {
    var a, b, c := p.first, q.first, r.first;
    if lessA(a, b) && !lessA(b, c) {
      assert Equivalent(lessA, c, b);
      assert lessA(c, a) ==> lessA(c, b);
      assert Equivalent(lessA, a, c) ==> Equivalent(lessA, a, b);
    } else if !lessA(a, b) && lessA(b, c) {
      assert Equivalent(lessA, b, a);
      assert lessA(c, a) ==> lessA(b, a);
      assert Equivalent(lessA, a, c) ==> Equivalent(lessA, b, c);
    } else if !lessA(a, b) {
      assert Equivalent(lessA, a, b) && Equivalent(lessA, b, c);
    }
  }

  /** The derived operators relate to operator< and equivalence as expected of a total preorder. */
  lemma DerivedComparisons<A(!new), B(!new)>(lessA: (A, A) -> bool, lessB: (B, B) -> bool, p: Pair<A, B>, q: Pair<A, B>)
    requires StrictWeakOrder(lessA) && StrictWeakOrder(lessB)
    ensures Le(lessA, lessB, p, q) <==> Lt(lessA, lessB, p, q) || Equivalent(PairLess(lessA, lessB), p, q)
    ensures Gt(lessA, lessB, p, q) <==> Lt(lessA, lessB, q, p)
    ensures Ge(lessA, lessB, p, q) <==> Gt(lessA, lessB, p, q) || Equivalent(PairLess(lessA, lessB), p, q)
    ensures !(Lt(lessA, lessB, p, q) && Lt(lessA, lessB, q, p))
  {
    LexicographicStrictWeakOrder(lessA, lessB);
  }
}
