/**
 * srcs/map.hpp: ft::map, an ordered associative container of (key, mapped
 * value) pairs with unique keys, held in a red-black tree.
 *
 * The tree orders pairs by `value_compare`, which compares keys alone.  Key
 * lookups hand the tree a dummy pair made of the key and `mapped_type()`,
 * the value-initialised mapped value, here the constant `dflt`.  Every
 * operation forwards to the tree; the contracts restate the tree's results
 * in terms of the keys.
 */
module Map {
  import opened Wrappers
  import opened Ordering
  import opened Utility
  import opened RbShape
  import opened RedBlackTree
  import RbTreeIterator

  /** map::value_compare: pairs ordered by their keys alone. */
  function ValueCompare<K(!new), V(!new)>(comp: (K, K) -> bool): (vc: (Pair<K, V>, Pair<K, V>) -> bool)
    ensures forall x: Pair<K, V>, y: Pair<K, V> :: vc(x, y) == comp(x.first, y.first)
  {
    (x: Pair<K, V>, y: Pair<K, V>) => comp(x.first, y.first)
  }

  /** The keys of a sequence of pairs, in order. */
  function Keys<K, V>(s: seq<Pair<K, V>>): (ks: seq<K>)
    ensures |ks| == |s| && forall i :: 0 <= i < |s| ==> ks[i] == s[i].first
  {
    seq(|s|, i requires 0 <= i < |s| => s[i].first)
  }

  /**
   * value_compare inherits a strict weak order from the key comparator, and
   * two pairs are equivalent under it exactly when their keys are.
   */
  lemma ValueCompareOrder<K(!new), V(!new)>(comp: (K, K) -> bool)
    requires StrictWeakOrder(comp)
    ensures StrictWeakOrder(ValueCompare<K, V>(comp))
    ensures forall x: Pair<K, V>, y: Pair<K, V> ::
      Equivalent(ValueCompare(comp), x, y) <==> Equivalent(comp, x.first, y.first)
  {
    var vc := ValueCompare<K, V>(comp);
    forall a: Pair<K, V> ensures !vc(a, a) {
      assert !comp(a.first, a.first);
    }
    forall x: Pair<K, V>, y: Pair<K, V> ensures Equivalent(vc, x, y) <==> Equivalent(comp, x.first, y.first) {
      assert vc(x, y) == comp(x.first, y.first) && vc(y, x) == comp(y.first, x.first);
    }
    forall a: Pair<K, V>, b: Pair<K, V>, c: Pair<K, V> | vc(a, b) && vc(b, c) ensures vc(a, c) {
      assert comp(a.first, b.first) && comp(b.first, c.first);
    }
    forall a: Pair<K, V>, b: Pair<K, V>, c: Pair<K, V> | Equivalent(vc, a, b) && Equivalent(vc, b, c)
      ensures Equivalent(vc, a, c)
    {
      assert Equivalent(comp, a.first, b.first) && Equivalent(comp, b.first, c.first);
    }
  }

  /**
   * Searching a sequence of pairs for the dummy pair (k, d) is searching its
   * keys for `k`: the same bounds and the same presence test, whatever `d` is.
   */
  lemma ByKey<K(!new), V(!new)>(comp: (K, K) -> bool, s: seq<Pair<K, V>>, k: K, d: V)
    ensures LowerIndex(ValueCompare(comp), s, Pair(k, d)) == LowerIndex(comp, Keys(s), k)
    ensures UpperIndex(ValueCompare(comp), s, Pair(k, d)) == UpperIndex(comp, Keys(s), k)
    ensures HasEquivalent(ValueCompare(comp), s, Pair(k, d)) <==> HasEquivalent(comp, Keys(s), k)
  {
    var vc, p, ks := ValueCompare<K, V>(comp), Pair(k, d), Keys(s);
    LowerIndexUnique(comp, ks, k, LowerIndex(vc, s, p));
    UpperIndexUnique(comp, ks, k, UpperIndex(vc, s, p));
    if HasEquivalent(vc, s, p) {
      var i :| 0 <= i < |s| && Equivalent(vc, s[i], p);
      assert Equivalent(comp, ks[i], k);
    }
    if HasEquivalent(comp, ks, k) {
      var i :| 0 <= i < |ks| && Equivalent(comp, ks[i], k);
      assert Equivalent(vc, s[i], p);
    }
  }

  /** A sequence of pairs is strictly sorted under value_compare exactly when its keys are. */
  lemma SortedByKey<K(!new), V(!new)>(comp: (K, K) -> bool, s: seq<Pair<K, V>>)
    ensures StrictlySorted(ValueCompare(comp), s) <==> StrictlySorted(comp, Keys(s))
  {
  }

  /**
   * The pairs after `m[k] = x`: the pair with key `k` gets the mapped value
   * `x`, or the pair (k, x) goes in at `k`'s place when no key is equivalent.
   */
  ghost function Assigned<K, V>(comp: (K, K) -> bool, s: seq<Pair<K, V>>, k: K, x: V): seq<Pair<K, V>> {
    var i := LowerIndex(comp, Keys(s), k);
    if i < |s| && Equivalent(comp, s[i].first, k) then s[i := Pair(s[i].first, x)]
    else s[..i] + [Pair(k, x)] + s[i..]
  }

  /**
   * On strictly increasing keys, `m[k] = x` leaves every key in place and
   * changes only the mapped value of `k` when `k` is present, and inserts
   * (k, x) at `k`'s place when it is absent; afterwards the keys are still
   * strictly increasing and `k` maps to `x`.
   */
  lemma AssignedFacts<K(!new), V(!new)>(comp: (K, K) -> bool, s: seq<Pair<K, V>>, k: K, x: V)
    requires StrictWeakOrder(comp) && StrictlySorted(comp, Keys(s))
    ensures var i := LowerIndex(comp, Keys(s), k); var a := Assigned(comp, s, k, x);
      && (HasEquivalent(comp, Keys(s), k) ==> Keys(a) == Keys(s) && a == s[i := Pair(s[i].first, x)])
      && (!HasEquivalent(comp, Keys(s), k) ==> a == s[..i] + [Pair(k, x)] + s[i..])
      && StrictlySorted(comp, Keys(a))
      && i < |a| && Equivalent(comp, a[i].first, k) && a[i].second == x
  {
    var ks, i := Keys(s), LowerIndex(comp, Keys(s), k);
    BoundsOfStrictlySorted(comp, ks, k);
    if HasEquivalent(comp, ks, k) {
      KeysUpdated(s, i, Pair(s[i].first, x));
    } else {
      InsertAtLowerIndex(comp, ks, k);
      KeysInserted(s, i, Pair(k, x));
    }
  }

  /** Changing the mapped value of one pair keeps the keys. */
  lemma KeysUpdated<K, V>(s: seq<Pair<K, V>>, i: nat, p: Pair<K, V>)
    requires i < |s| && p.first == s[i].first
    ensures Keys(s[i := p]) == Keys(s)
  {
    assert forall j :: 0 <= j < |s| ==> Keys(s[i := p])[j] == Keys(s)[j];
  }

  /** Putting a pair in at `i` puts its key in at `i`. */
  lemma KeysInserted<K, V>(s: seq<Pair<K, V>>, i: nat, p: Pair<K, V>)
    requires i <= |s|
    ensures Keys(s[..i] + [p] + s[i..]) == Keys(s)[..i] + [p.first] + Keys(s)[i..]
  {
    var l, r := Keys(s[..i] + [p] + s[i..]), Keys(s)[..i] + [p.first] + Keys(s)[i..];
    assert |l| == |r|;
    forall j | 0 <= j < |l| ensures l[j] == r[j] {
      if j < i {
      } else if j == i {
      } else {
        assert l[j] == s[j - 1].first;
      }
    }
  }

  /** What operator[] leaves (`s1`), with `x` written at `k`'s position, is Assigned. */
  lemma AssignedAfterIndex<K(!new), V(!new)>(comp: (K, K) -> bool, s0: seq<Pair<K, V>>, s1: seq<Pair<K, V>>, k: K, x: V, d: V)
    requires StrictWeakOrder(comp) && StrictlySorted(comp, Keys(s0))
    requires HasEquivalent(comp, Keys(s0), k) ==> s1 == s0
    requires !HasEquivalent(comp, Keys(s0), k) ==> var i := LowerIndex(comp, Keys(s0), k);
      s1 == s0[..i] + [Pair(k, d)] + s0[i..]
    ensures var i := LowerIndex(comp, Keys(s0), k);
      i < |s1| && s1[i := Pair(s1[i].first, x)] == Assigned(comp, s0, k, x)
  {
    BoundsOfStrictlySorted(comp, Keys(s0), k);
    var i := LowerIndex(comp, Keys(s0), k);
    if !HasEquivalent(comp, Keys(s0), k) {
      UpdateInserted(s0, i, Pair(k, d), Pair(k, x));
    }
  }

  /** Overwriting an element just put in at `i` is putting the new one in instead. */
  lemma UpdateInserted<T>(s: seq<T>, i: nat, a: T, b: T)
    requires i <= |s|
    ensures (s[..i] + [a] + s[i..])[i] == a
    ensures (s[..i] + [a] + s[i..])[i := b] == s[..i] + [b] + s[i..]
  {
    var l, r := (s[..i] + [a] + s[i..])[i := b], s[..i] + [b] + s[i..];
    assert |l| == |r|;
    forall j | 0 <= j < |l| ensures l[j] == r[j] {
    }
  }

  /** The int comparator `operator<` of the scenarios below. */
  function IntLess(a: int, b: int): bool { a < b }

  /** The char comparator `operator<` of the scenarios below. */
  function CharLess(a: char, b: char): bool { a < b }

  /** Inserting one more element is inserting it into what the others left. */
  lemma InsertedAllSnoc<T>(less: (T, T) -> bool, s: seq<T>, vs: seq<T>, v: T)
    ensures InsertedAll(less, s, vs + [v]) == Inserted(less, InsertedAll(less, s, vs), v)
  {
    assert (vs + [v])[..|vs + [v]| - 1] == vs;
  }

  /** Inserted, once the lower bound `k` is known. */
  lemma InsertedAt<T>(less: (T, T) -> bool, s: seq<T>, v: T, k: nat)
    requires k <= |s| && forall i :: 0 <= i < k ==> less(s[i], v)
    requires k < |s| ==> !less(s[k], v)
    ensures Inserted(less, s, v) == if k < |s| && Equivalent(less, s[k], v) then s else s[..k] + [v] + s[k..]
  {
    LowerIndexUnique(less, s, v, k);
  }

  /** One insert of InsertScenario, once the lower bound `k` of the new key is known. */
  lemma InsertStep<V(!new)>(vs: seq<Pair<int, V>>, v: Pair<int, V>, before: seq<Pair<int, V>>, k: nat, after: seq<Pair<int, V>>)
    requires InsertedAll(ValueCompare(IntLess), [], vs) == before
    requires k <= |before| && forall i :: 0 <= i < k ==> before[i].first < v.first
    requires k < |before| ==> v.first <= before[k].first
    requires k < |before| && before[k].first == v.first ==> after == before
    requires !(k < |before| && before[k].first == v.first) ==> after == before[..k] + [v] + before[k..]
    ensures InsertedAll(ValueCompare(IntLess), [], vs + [v]) == after
  {
    var vc := ValueCompare<int, V>(IntLess);
    forall x: Pair<int, V>, y: Pair<int, V> ensures vc(x, y) == (x.first < y.first) {
      assert vc(x, y) == IntLess(x.first, y.first);
    }
    InsertedAllSnoc(vc, [], vs, v);
    InsertedAt(vc, before, v, k);
  }

  /** The first three inserts of InsertScenario: 42, then 5, then 5 again. */
  lemma FirstThreeInserted<V(!new)>(a: V, b: V, c: V)
    ensures InsertedAll(ValueCompare(IntLess), [], [Pair(42, a), Pair(5, b), Pair(5, c)]) == [Pair(5, b), Pair(42, a)]
  {
    var vc := ValueCompare<int, V>(IntLess);
    var p0, p1, p2 := Pair(42, a), Pair(5, b), Pair(5, c);
    assert InsertedAll(vc, [], [p0]) == [p0] by {
      assert [] + [p0] == [p0];
      InsertStep([], p0, [], 0, [p0]);
    }
    assert InsertedAll(vc, [], [p0, p1]) == [p1, p0] by {
      assert [p0] + [p1] == [p0, p1] && [p0][..0] + [p1] + [p0][0..] == [p1, p0];
      InsertStep([p0], p1, [p0], 0, [p1, p0]);
    }
    assert [p0, p1] + [p2] == [p0, p1, p2];
    InsertStep([p0, p1], p2, [p1, p0], 0, [p1, p0]);
  }

  /** The first four inserts of InsertScenario: then 16. */
  lemma FirstFourInserted<V(!new)>(a: V, b: V, c: V, d: V)
    ensures InsertedAll(ValueCompare(IntLess), [], [Pair(42, a), Pair(5, b), Pair(5, c), Pair(16, d)])
         == [Pair(5, b), Pair(16, d), Pair(42, a)]
  {
    var p0, p1, p2, p3 := Pair(42, a), Pair(5, b), Pair(5, c), Pair(16, d);
    FirstThreeInserted(a, b, c);
    assert [p0, p1, p2] + [p3] == [p0, p1, p2, p3] && [p1, p0][..1] + [p3] + [p1, p0][1..] == [p1, p3, p0];
    InsertStep([p0, p1, p2], p3, [p1, p0], 1, [p1, p3, p0]);
  }

  /** The first five inserts of InsertScenario: then 8. */
  lemma FirstFiveInserted<V(!new)>(a: V, b: V, c: V, d: V, e: V)
    ensures InsertedAll(ValueCompare(IntLess), [], [Pair(42, a), Pair(5, b), Pair(5, c), Pair(16, d), Pair(8, e)])
         == [Pair(5, b), Pair(8, e), Pair(16, d), Pair(42, a)]
  {
    var p0, p1, p2, p3, p4 := Pair(42, a), Pair(5, b), Pair(5, c), Pair(16, d), Pair(8, e);
    FirstFourInserted(a, b, c, d);
    assert [p0, p1, p2, p3] + [p4] == [p0, p1, p2, p3, p4] && [p1, p3, p0][..1] + [p4] + [p1, p3, p0][1..] == [p1, p4, p3, p0];
    InsertStep([p0, p1, p2, p3], p4, [p1, p3, p0], 1, [p1, p4, p3, p0]);
  }

  /**
   * Inserting the pairs with keys 42, 5, 5, 16, 8, 42 (and any mapped
   * values) into an empty map keeps the first pair of each key, in
   * increasing key order.
   */
  lemma InsertScenario<V(!new)>(a: V, b: V, c: V, d: V, e: V, f: V)
    ensures InsertedAll(ValueCompare(IntLess), [], [Pair(42, a), Pair(5, b), Pair(5, c), Pair(16, d), Pair(8, e), Pair(42, f)])
         == [Pair(5, b), Pair(8, e), Pair(16, d), Pair(42, a)]
  {
    var p0, p1, p2, p3, p4, p5 := Pair(42, a), Pair(5, b), Pair(5, c), Pair(16, d), Pair(8, e), Pair(42, f);
    FirstFiveInserted(a, b, c, d, e);
    assert [p0, p1, p2, p3, p4] + [p5] == [p0, p1, p2, p3, p4, p5];
    InsertStep([p0, p1, p2, p3, p4], p5, [p1, p4, p3, p0], 3, [p1, p4, p3, p0]);
  }

  /**
   * On the keys b, d, f, g, j: lower_bound('e') and lower_bound('f') are f,
   * lower_bound('k') is end, upper_bound('d') is f and upper_bound('j') is end.
   */
  lemma BoundsScenario()
    ensures var ks := ['b', 'd', 'f', 'g', 'j'];
      && LowerIndex(CharLess, ks, 'e') == 2 && LowerIndex(CharLess, ks, 'f') == 2 && LowerIndex(CharLess, ks, 'k') == |ks|
      && UpperIndex(CharLess, ks, 'd') == 2 && UpperIndex(CharLess, ks, 'j') == |ks|
  {
    var ks := ['b', 'd', 'f', 'g', 'j'];
    LowerIndexUnique(CharLess, ks, 'e', 2);
    LowerIndexUnique(CharLess, ks, 'f', 2);
    LowerIndexUnique(CharLess, ks, 'k', 5);
    UpperIndexUnique(CharLess, ks, 'd', 2);
    UpperIndexUnique(CharLess, ks, 'j', 5);
  }

  /** The tree's erase of the dummy pair (k, d), restated on keys. */
  lemma ErasedByKey<K(!new), V(!new)>(comp: (K, K) -> bool, s0: seq<Pair<K, V>>, s1: seq<Pair<K, V>>, k: K, d: V, n: nat)
    requires n <= 1 && (n == 1 <==> HasEquivalent(ValueCompare(comp), s0, Pair(k, d)))
    requires n == 0 ==> s1 == s0
    requires n == 1 ==> var i := LowerIndex(ValueCompare(comp), s0, Pair(k, d));
      && i < |s0| && Equivalent(ValueCompare(comp), s0[i], Pair(k, d))
      && s1 == s0[..i] + s0[i + 1..]
    requires !HasEquivalent(ValueCompare(comp), s1, Pair(k, d))
    ensures n == 1 <==> HasEquivalent(comp, Keys(s0), k)
    ensures n == 1 ==> var i := LowerIndex(comp, Keys(s0), k);
      && i < |s0| && Equivalent(comp, s0[i].first, k)
      && s1 == s0[..i] + s0[i + 1..]
    ensures !HasEquivalent(comp, Keys(s1), k)
  {
    ByKey(comp, s0, k, d);
    ByKey(comp, s1, k, d);
    if n == 1 {
      var i := LowerIndex(comp, Keys(s0), k);
      assert Equivalent(ValueCompare(comp), s0[i], Pair(k, d));
    }
  }

  class Map<K(!new), V(!new)> {
    /** The red-black tree of pairs the map holds by value. */
    const tree: RBTree<Pair<K, V>>
    /** The key comparator, the `_comp` inside the tree's value_compare. */
    var comp: (K, K) -> bool
    /** mapped_type(), the mapped value of the dummy pairs and of operator[]'s new entries. */
    const dflt: V

    ghost function Repr(): set<object>
      reads this, tree
    {
      {tree} + tree.Repr()
    }

    ghost predicate Valid()
      reads this, tree, tree.Repr()
    {
      tree.Valid() && StrictWeakOrder(comp) && tree.less == ValueCompare(comp)
    }

    /** The pairs in key order. */
    ghost function Items(): seq<Pair<K, V>>
      reads this, tree
    {
      tree.Contents()
    }

    /** The keys in order. */
    ghost function KeySeq(): seq<K>
      reads this, tree
    {
      Keys(tree.Contents())
    }

    /** The keys of a valid map are strictly increasing under the key comparator: no key twice. */
    lemma KeysStrictlySorted()
      requires Valid()
      ensures StrictlySorted(comp, KeySeq())
    {
      SortedByKey(comp, Items());
    }

    /** The empty container constructor. */
    constructor (comp: (K, K) -> bool, dflt: V)
      requires StrictWeakOrder(comp)
      ensures Valid() && Items() == [] && this.comp == comp && this.dflt == dflt
      ensures fresh(Repr())
    {
      ValueCompareOrder<K, V>(comp);
      this.comp := comp;
      this.dflt := dflt;
      tree := new RBTree(ValueCompare(comp));
    }

    /** The range constructor: an empty map, then insert(first, last) of the pairs `vs`. */
    constructor FromRange(comp: (K, K) -> bool, dflt: V, vs: seq<Pair<K, V>>)
      requires StrictWeakOrder(comp)
      ensures Valid() && Items() == InsertedAll(ValueCompare(comp), [], vs) && this.comp == comp
      ensures fresh(Repr())
    {
      ValueCompareOrder<K, V>(comp);
      this.comp := comp;
      this.dflt := dflt;
      tree := new RBTree(ValueCompare(comp));
      new;
      tree.InsertRange(vs);
    }

    /** The copy constructor: the tree is copied. */
    constructor Copy(src: Map<K, V>)
      requires src.Valid()
      ensures Valid() && Items() == src.Items() && comp == src.comp && dflt == src.dflt
      ensures fresh(Repr())
    {
      comp := src.comp;
      dflt := src.dflt;
      tree := new RBTree.Copy(src.tree);
    }

    /** operator=: unless `other` is this map, its tree is assigned to this one. */
    method Assign(other: Map<K, V>)
      requires Valid() && other.Valid()
      modifies this, tree, tree.end
      ensures Valid() && Items() == old(other.Items()) && comp == old(other.comp)
    {
      if this == other {
        return;
      }
      tree.Assign(other.tree);
      comp := other.comp;
    }

    /** empty(). */
    function Empty(): (b: bool)
      requires Valid()
      reads this, tree, tree.Repr()
      ensures b <==> Items() == []
    {
      tree.Empty()
    }

    /** size(). */
    function Size(): (n: nat)
      requires Valid()
      reads this, tree, tree.Repr()
      ensures n == |Items()|
    {
      tree.Size()
    }

    /** value_comp(): the tree's comparator, which orders pairs by key alone. */
    function ValueComp(): (vc: (Pair<K, V>, Pair<K, V>) -> bool)
      requires Valid()
      reads this, tree, tree.Repr()
      ensures forall x, y :: vc(x, y) == comp(x.first, y.first)
    {
      tree.less
    }

    /**
     * insert(val): a pair whose key is present leaves the map as it was, so
     * the stored mapped value stays, and is answered with `false`; otherwise
     * the pair goes in at its key's place and `true` is returned.  Either way
     * `r` is the node holding the key.
     */
    method Insert(p: Pair<K, V>) returns (r: RBNode<Pair<K, V>>, inserted: bool)
      requires Valid()
      modifies tree, tree.Repr()
      ensures Valid()
      ensures inserted <==> !HasEquivalent(comp, old(KeySeq()), p.first)
      ensures !inserted ==> Items() == old(Items())
      ensures inserted ==> var i := LowerIndex(comp, old(KeySeq()), p.first);
        Items() == old(Items())[..i] + [p] + old(Items())[i..]
      ensures var i := LowerIndex(comp, old(KeySeq()), p.first);
        && i < |Items()| && r == tree.At(i) && r.value == Some(Items()[i])
        && Equivalent(comp, Items()[i].first, p.first)
      ensures r in old(tree.Repr()) || fresh(r)
    {
      ByKey(comp, Items(), p.first, p.second);
      r, inserted := tree.Insert(p);
      tree.ValueAt(LowerIndex(comp, old(KeySeq()), p.first), tree.end);
    }

    /** insert(position, val): the hint is ignored. */
    method InsertHint(position: RBNode?<Pair<K, V>>, p: Pair<K, V>) returns (r: RBNode<Pair<K, V>>)
      requires Valid()
      modifies tree, tree.Repr()
      ensures Valid() && Items() == Inserted(ValueCompare(comp), old(Items()), p)
      ensures r == tree.At(LowerIndex(comp, old(KeySeq()), p.first))
    {
      ByKey(comp, Items(), p.first, p.second);
      r := tree.InsertHint(position, p);
    }

    /** insert(first, last): the pairs `vs` are inserted one after the other. */
    method InsertRange(vs: seq<Pair<K, V>>)
      requires Valid()
      modifies tree, tree.Repr()
      ensures Valid() && Items() == InsertedAll(ValueCompare(comp), old(Items()), vs)
    {
      tree.InsertRange(vs);
    }

    /**
     * operator[](k): insert(make_pair(k, mapped_type())).  A present key keeps
     * its pair; an absent one gets a new pair with the mapped value `dflt`.
     * The result is the node whose mapped value the returned reference names.
     */
    method Index(k: K) returns (r: RBNode<Pair<K, V>>)
      requires Valid()
      modifies tree, tree.Repr()
      ensures Valid()
      ensures HasEquivalent(comp, old(KeySeq()), k) ==> Items() == old(Items())
      ensures !HasEquivalent(comp, old(KeySeq()), k) ==> var i := LowerIndex(comp, old(KeySeq()), k);
        Items() == old(Items())[..i] + [Pair(k, dflt)] + old(Items())[i..]
      ensures var i := LowerIndex(comp, old(KeySeq()), k);
        && i < |Items()| && r == tree.At(i) && r.value == Some(Items()[i])
        && Equivalent(comp, Items()[i].first, k)
        && Items()[i].second == if HasEquivalent(comp, old(KeySeq()), k) then old(Items())[i].second else dflt
      ensures r in old(tree.Repr()) || fresh(r)
    {
      ghost var s0 := Items();
      var inserted;
      r, inserted := Insert(Pair(k, dflt));
      tree.ValueAt(LowerIndex(comp, Keys(s0), k), tree.end);
      if HasEquivalent(comp, Keys(s0), k) {
        ByKey(comp, s0, k, dflt);
        BoundsOfStrictlySorted(tree.less, s0, Pair(k, dflt));
      }
    }

    /**
     * `m[k] = x`: operator[](k), then `x` is written through the reference.
     * The result is Assigned: a present key gets the mapped value `x`, an
     * absent one is inserted with it.
     */
    method IndexAssign(k: K, x: V)
      requires Valid()
      modifies tree, tree.Repr()
      ensures Valid() && Items() == Assigned(comp, old(Items()), k, x)
    {
      KeysStrictlySorted();
      ghost var s0 := Items();
      ghost var i := LowerIndex(comp, Keys(s0), k);
      var r := Index(k);
      ghost var s1 := Items();
      SetMapped(r, i, x);
      AssignedAfterIndex(comp, s0, s1, k, x, dflt);
    }

    /**
     * `it->second = x` for the node `r` at position `i`: the pair keeps its
     * key and takes the mapped value `x`.
     */
    method SetMapped(r: RBNode<Pair<K, V>>, ghost i: nat, x: V)
      requires Valid() && i < |Items()| && r == tree.At(i)
      modifies tree, r
      ensures Valid() && Items() == old(Items())[i := Pair(old(Items())[i].first, x)]
    {
      tree.ValueAt(i, tree.end);
      var w := Pair(r.value.value.first, x);
      tree.Store(r, i, w);
    }

    /** erase(position): the pair at position `i`, held by `z`, is removed. */
    method EraseAt(z: RBNode<Pair<K, V>>, ghost i: nat)
      requires Valid() && i < |Items()| && z == tree.At(i)
      modifies tree, tree.Repr()
      ensures Valid() && Items() == old(Items())[..i] + old(Items())[i + 1..]
    {
      tree.Erase(z, i);
    }

    /**
     * erase(k): erase(make_pair(k, mapped_type())) on the tree.  The pair
     * with key `k` goes and 1 is returned, or 0 when the key is absent and
     * nothing changes.  Afterwards the key is absent.
     */
    method Erase(k: K) returns (n: nat)
      requires Valid()
      modifies tree, tree.Repr()
      ensures Valid()
      ensures n <= 1 && (n == 1 <==> HasEquivalent(comp, old(KeySeq()), k))
      ensures n == 0 ==> Items() == old(Items())
      ensures n == 1 ==> var i := LowerIndex(comp, old(KeySeq()), k);
        && i < |old(Items())| && Equivalent(comp, old(Items())[i].first, k)
        && Items() == old(Items())[..i] + old(Items())[i + 1..]
      ensures !HasEquivalent(comp, KeySeq(), k)
    {
      ghost var s0 := Items();
      n := tree.EraseValue(Pair(k, dflt));
      ErasedByKey(comp, s0, Items(), k, dflt, n);
    }

    /** erase(first, last): the pairs from position `i` up to position `j` are removed. */
    method EraseRange(first: RbTreeIterator.TreeIterator<Pair<K, V>>, last: RbTreeIterator.TreeIterator<Pair<K, V>>, ghost i: nat, ghost j: nat)
      requires Valid() && i <= j <= |Items()| && first.node == tree.At(i) && last.node == tree.At(j)
      modifies tree, tree.Repr()
      ensures Valid() && Items() == old(Items())[..i] + old(Items())[j..]
    {
      RbTreeIterator.EraseRange(tree, first, last, i, j);
    }

    /** swap(x): the two maps exchange their trees' contents and their comparators. */
    method Swap(x: Map<K, V>)
      requires Valid() && x.Valid()
      modifies this, x, tree, x.tree
      ensures Valid() && x.Valid()
      ensures Items() == old(x.Items()) && x.Items() == old(Items())
      ensures comp == old(x.comp) && x.comp == old(comp)
    {
      comp, x.comp := x.comp, comp;
      tree.Swap(x.tree);
    }

    /** clear(): the map is emptied. */
    method Clear()
      requires Valid()
      modifies tree
      ensures Valid() && Items() == [] && Size() == 0
    {
      tree.Clear();
    }

    /**
     * find(k): the node of the pair with key `k`, at the key's position, or
     * the sentinel when the key is absent.
     */
    function Find(k: K): (r: RBNode<Pair<K, V>>)
      requires Valid()
      reads this, tree, tree.Repr()
      ensures r == tree.end <==> !HasEquivalent(comp, KeySeq(), k)
      ensures r != tree.end ==> var i := LowerIndex(comp, KeySeq(), k);
        && i < |Items()| && r == tree.At(i) && r.value == Some(Items()[i])
        && Equivalent(comp, Items()[i].first, k)
    {
      ByKey(comp, Items(), k, dflt);
      tree.Find(Pair(k, dflt))
    }

    /** count(k): 1 when the key is present, 0 otherwise. */
    function Count(k: K): (n: nat)
      requires Valid()
      reads this, tree, tree.Repr()
      ensures n <= 1 && (n == 1 <==> HasEquivalent(comp, KeySeq(), k))
    {
      ByKey(comp, Items(), k, dflt);
      tree.Count(Pair(k, dflt))
    }

    /** lower_bound(k): the node of the first pair whose key is not less than `k`, or the sentinel. */
    function LowerBound(k: K): (r: RBNode<Pair<K, V>>)
      requires Valid()
      reads this, tree, tree.Repr()
      ensures var i := LowerIndex(comp, KeySeq(), k);
        && (r == tree.end <==> i == |Items()|)
        && r == tree.At(i)
        && (r != tree.end ==> r.value == Some(Items()[i]) && !comp(Items()[i].first, k))
    {
      ByKey(comp, Items(), k, dflt);
      NodeSeqLength(tree.tree);
      tree.LowerBound(Pair(k, dflt))
    }

    /** upper_bound(k): the node of the first pair whose key is greater than `k`, or the sentinel. */
    function UpperBound(k: K): (r: RBNode<Pair<K, V>>)
      requires Valid()
      reads this, tree, tree.Repr()
      ensures var i := UpperIndex(comp, KeySeq(), k);
        && (r == tree.end <==> i == |Items()|)
        && r == tree.At(i)
        && (r != tree.end ==> r.value == Some(Items()[i]) && comp(k, Items()[i].first))
    {
      ByKey(comp, Items(), k, dflt);
      NodeSeqLength(tree.tree);
      tree.UpperBound(Pair(k, dflt))
    }

    /**
     * equal_range(k): (lower_bound(k), upper_bound(k)), an empty range when
     * the key is absent and exactly the pair with key `k` otherwise.
     */
    function EqualRange(k: K): (r: Pair<RBNode<Pair<K, V>>, RBNode<Pair<K, V>>>)
      requires Valid()
      reads this, tree, tree.Repr()
      ensures r.first == LowerBound(k) && r.second == UpperBound(k)
      ensures !HasEquivalent(comp, KeySeq(), k) ==> r.first == r.second
      ensures HasEquivalent(comp, KeySeq(), k) ==>
        r.first == Find(k) && UpperIndex(comp, KeySeq(), k) == LowerIndex(comp, KeySeq(), k) + 1
    {
      ByKey(comp, Items(), k, dflt);
      tree.EqualRange(Pair(k, dflt))
    }
  }
}
