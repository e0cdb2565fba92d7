/**
 * Comparators and sorted sequences.
 *
 * The containers are parameterised by a comparator `less` (ft::less forwards
 * to the element type's `operator<`).  The tree and the sort require the
 * comparator to be a strict weak order; equivalence is "neither is less".
 */
module Ordering {

  /** `a` and `b` are equivalent under `less`: neither orders before the other. */
  predicate Equivalent<T>(less: (T, T) -> bool, a: T, b: T) {
    !less(a, b) && !less(b, a)
  }

  /** Irreflexive, transitive, and equivalence is transitive. */
  ghost predicate StrictWeakOrder<T(!new)>(less: (T, T) -> bool) {
    && (forall a :: !less(a, a))
    && (forall a, b, c :: less(a, b) && less(b, c) ==> less(a, c))
    && (forall a, b, c :: Equivalent(less, a, b) && Equivalent(less, b, c) ==> Equivalent(less, a, c))
  }

  /** Every element orders strictly before every later one (no two equivalent). */
  ghost predicate StrictlySorted<T>(less: (T, T) -> bool, s: seq<T>) {
    forall i, j :: 0 <= i < j < |s| ==> less(s[i], s[j])
  }

  /** No element orders strictly before an earlier one. */
  ghost predicate Sorted<T>(less: (T, T) -> bool, s: seq<T>) {
    forall i, j :: 0 <= i < j < |s| ==> !less(s[j], s[i])
  }

  /** Some element of `s` is equivalent to `v`. */
  ghost predicate HasEquivalent<T>(less: (T, T) -> bool, s: seq<T>, v: T) {
    exists i :: 0 <= i < |s| && Equivalent(less, s[i], v)
  }

  /** Index of the first element of `s` that is not less than `v` (|s| if none). */
  function LowerIndex<T>(less: (T, T) -> bool, s: seq<T>, v: T): (k: nat)
    ensures k <= |s|
    ensures forall i :: 0 <= i < k ==> less(s[i], v)
    ensures k < |s| ==> !less(s[k], v)
  {
    if s == [] then 0 else if less(s[0], v) then 1 + LowerIndex(less, s[1..], v) else 0
  }

  /** Index of the first element of `s` that `v` is less than (|s| if none). */
  function UpperIndex<T>(less: (T, T) -> bool, s: seq<T>, v: T): (k: nat)
    ensures k <= |s|
    ensures forall i :: 0 <= i < k ==> !less(v, s[i])
    ensures k < |s| ==> less(v, s[k])
  {
    if s == [] then 0 else if !less(v, s[0]) then 1 + UpperIndex(less, s[1..], v) else 0
  }

  /** The first-not-less index is determined by the two properties that define it. */
  lemma LowerIndexUnique<T>(less: (T, T) -> bool, s: seq<T>, v: T, k: nat)
    requires k <= |s|
    requires forall i :: 0 <= i < k ==> less(s[i], v)
    requires k < |s| ==> !less(s[k], v)
    ensures k == LowerIndex(less, s, v)
  {
    var r := LowerIndex(less, s, v);
    if r < k { assert false; }
    if k < r { assert false; }
  }

  /** The first-greater index is determined by the two properties that define it. */
  lemma UpperIndexUnique<T>(less: (T, T) -> bool, s: seq<T>, v: T, k: nat)
    requires k <= |s|
    requires forall i :: 0 <= i < k ==> !less(v, s[i])
    requires k < |s| ==> less(v, s[k])
    ensures k == UpperIndex(less, s, v)
  {
    var r := UpperIndex(less, s, v);
    if r < k { assert false; }
    if k < r { assert false; }
  }

  /**
   * In a strictly sorted sequence an element equivalent to `v` exists iff the
   * first-not-less element is one, and the first-greater index is one past it
   * exactly in that case.
   */
  lemma BoundsOfStrictlySorted<T(!new)>(less: (T, T) -> bool, s: seq<T>, v: T)
    requires StrictWeakOrder(less)
    requires StrictlySorted(less, s)
    ensures var lo := LowerIndex(less, s, v);
      && (HasEquivalent(less, s, v) <==> lo < |s| && Equivalent(less, s[lo], v))
      && UpperIndex(less, s, v) == if HasEquivalent(less, s, v) then lo + 1 else lo
  {
    if HasEquivalent(less, s, v) {
      var i :| 0 <= i < |s| && Equivalent(less, s[i], v);
      BoundsAroundEquivalent(less, s, v, i);
    } else {
      BoundsWithoutEquivalent(less, s, v);
    }
  }

  /** With `s[i]` equivalent to `v`, the lower bound is `i` and the upper bound `i + 1`. */
  lemma BoundsAroundEquivalent<T(!new)>(less: (T, T) -> bool, s: seq<T>, v: T, i: nat)
    requires StrictWeakOrder(less) && StrictlySorted(less, s)
    requires i < |s| && Equivalent(less, s[i], v)
    ensures LowerIndex(less, s, v) == i && UpperIndex(less, s, v) == i + 1
  {
    forall j | 0 <= j < i ensures less(s[j], v) {
      LessThanEquivalent(less, s[j], s[i], v);
    }
    LowerIndexUnique(less, s, v, i);
    forall j | 0 <= j < i + 1 ensures !less(v, s[j]) {
      if j < i {
        assert less(s[j], v);
      }
    }
    if i + 1 < |s| {
      GreaterThanEquivalent(less, s[i + 1], s[i], v);
    }
    UpperIndexUnique(less, s, v, i + 1);
  }

  /** What orders before one of two equivalent elements orders before the other. */
  lemma LessThanEquivalent<T(!new)>(less: (T, T) -> bool, a: T, b: T, v: T)
    requires StrictWeakOrder(less) && less(a, b) && Equivalent(less, b, v)
    ensures less(a, v)
  {
    assert less(v, a) && less(a, b) ==> less(v, b);
    assert Equivalent(less, a, v) && Equivalent(less, v, b) ==> Equivalent(less, a, b);
  }

  /** What orders after one of two equivalent elements orders after the other. */
  lemma GreaterThanEquivalent<T(!new)>(less: (T, T) -> bool, a: T, b: T, v: T)
    requires StrictWeakOrder(less) && less(b, a) && Equivalent(less, b, v)
    ensures less(v, a)
  {
    assert less(b, a) && less(a, v) ==> less(b, v);
    assert Equivalent(less, a, v) && Equivalent(less, v, b) ==> Equivalent(less, a, b);
  }

  /** With nothing equivalent to `v`, the lower and upper bounds coincide. */
  lemma BoundsWithoutEquivalent<T(!new)>(less: (T, T) -> bool, s: seq<T>, v: T)
    requires StrictWeakOrder(less) && StrictlySorted(less, s)
    requires !HasEquivalent(less, s, v)
    ensures UpperIndex(less, s, v) == LowerIndex(less, s, v)
  {
    var lo := LowerIndex(less, s, v);
    if lo < |s| {
      assert !Equivalent(less, s[lo], v);
      assert less(v, s[lo]);
    }
    forall j | 0 <= j < lo ensures !less(v, s[j]) {
      assert less(s[j], v);
    }
    UpperIndexUnique(less, s, v, lo);
  }

  /** Inserting `v` at its lower bound keeps a strictly sorted sequence strictly sorted. */
  lemma InsertAtLowerIndex<T(!new)>(less: (T, T) -> bool, s: seq<T>, v: T)
    requires StrictWeakOrder(less)
    requires StrictlySorted(less, s)
    requires !HasEquivalent(less, s, v)
    ensures var k := LowerIndex(less, s, v);
      StrictlySorted(less, s[..k] + [v] + s[k..])
  {
    var k := LowerIndex(less, s, v);
    var t := s[..k] + [v] + s[k..];
    if k < |s| {
      assert !Equivalent(less, s[k], v);
    }
    forall i, j | 0 <= i < j < |t| ensures less(t[i], t[j]) {
      if j < k {
        assert t[i] == s[i] && t[j] == s[j];
      } else if j == k {
        assert t[i] == s[i];
      } else if i < k {
        assert t[i] == s[i] && t[j] == s[j - 1];
        assert less(s[i], v);
        assert less(v, s[k]);
        if j - 1 > k { assert less(s[k], s[j - 1]); }
      } else if i == k {
        assert t[j] == s[j - 1];
        if j - 1 > k { assert less(s[k], s[j - 1]); }
      } else {
        assert t[i] == s[i - 1] && t[j] == s[j - 1];
      }
    }
  }

  /** Removing one element keeps a strictly sorted sequence strictly sorted. */
  lemma RemoveKeepsStrictlySorted<T>(less: (T, T) -> bool, s: seq<T>, k: nat)
    requires k < |s|
    requires StrictlySorted(less, s)
    ensures StrictlySorted(less, s[..k] + s[k + 1..])
  {
    var t := s[..k] + s[k + 1..];
    forall i, j | 0 <= i < j < |t| ensures less(t[i], t[j]) {
      var i' := if i < k then i else i + 1;
      var j' := if j < k then j else j + 1;
      assert t[i] == s[i'] && t[j] == s[j'];
    }
  }

  /** Two elements equivalent to the same `v` do not order one before the other. */
  lemma EquivalentsUnordered<T(!new)>(less: (T, T) -> bool, a: T, b: T, v: T)
    requires StrictWeakOrder(less)
    ensures Equivalent(less, a, v) && Equivalent(less, b, v) ==> !less(a, b)
  {
    if Equivalent(less, a, v) && Equivalent(less, b, v) {
      assert Equivalent(less, v, b);
    }
  }

  /**
   * Removing the element at the lower bound of `v`, when it is equivalent to
   * `v`, leaves no element equivalent to `v`.
   */
  lemma RemoveEquivalent<T(!new)>(less: (T, T) -> bool, s: seq<T>, v: T)
    requires StrictWeakOrder(less)
    requires StrictlySorted(less, s)
    requires HasEquivalent(less, s, v)
    ensures var k := LowerIndex(less, s, v);
      && k < |s| && Equivalent(less, s[k], v)
      && !HasEquivalent(less, s[..k] + s[k + 1..], v)
  {
    BoundsOfStrictlySorted(less, s, v);
    RemoveOnlyEquivalent(less, s, LowerIndex(less, s, v), v);
  }

  /** In a strictly sorted sequence, an element equivalent to `v` is the only one. */
  lemma RemoveOnlyEquivalent<T(!new)>(less: (T, T) -> bool, s: seq<T>, k: nat, v: T)
    requires StrictWeakOrder(less)
    requires StrictlySorted(less, s)
    requires k < |s| && Equivalent(less, s[k], v)
    ensures !HasEquivalent(less, s[..k] + s[k + 1..], v)
  {
    var t := s[..k] + s[k + 1..];
    forall i | 0 <= i < |t| ensures !Equivalent(less, t[i], v) {
      if i < k {
        assert t[i] == s[i] && less(s[i], s[k]);
        EquivalentsUnordered(less, s[i], s[k], v);
      } else {
        assert t[i] == s[i + 1] && less(s[k], s[i + 1]);
        EquivalentsUnordered(less, s[k], s[i + 1], v);
      }
    }
  }

  /**
   * A descent step to the right: when `x` orders before `v`, so does every
   * element up to and including `x`.
   */
  lemma DescendRight<T(!new)>(less: (T, T) -> bool, b: seq<T>, l: seq<T>, x: T, r: seq<T>, a: seq<T>, v: T)
    requires StrictWeakOrder(less)
    requires StrictlySorted(less, b + (l + [x] + r) + a)
    requires forall i :: 0 <= i < |b| ==> less(b[i], v)
    requires less(x, v)
    ensures forall i :: 0 <= i < |b + l + [x]| ==> less((b + l + [x])[i], v)
  {
    var s := b + (l + [x] + r) + a;
    forall i | 0 <= i < |b + l + [x]| ensures less((b + l + [x])[i], v) {
      if |b| <= i < |b| + |l| {
        assert s[i] == (b + l + [x])[i] && s[|b| + |l|] == x;
        assert less(s[i], x);
      }
    }
  }

  /** A descent step to the left: when `v` orders before `x`, it orders before `x` and everything after. */
  lemma DescendLeft<T(!new)>(less: (T, T) -> bool, b: seq<T>, l: seq<T>, x: T, r: seq<T>, a: seq<T>, v: T)
    requires StrictWeakOrder(less)
    requires StrictlySorted(less, b + (l + [x] + r) + a)
    requires forall i :: 0 <= i < |a| ==> less(v, a[i])
    requires less(v, x)
    ensures forall i :: 0 <= i < |[x] + r + a| ==> less(v, ([x] + r + a)[i])
  {
    var s := b + (l + [x] + r) + a;
    var k := |b| + |l|;
    forall i | 0 <= i < |[x] + r + a| ensures less(v, ([x] + r + a)[i]) {
      if 0 < i <= |r| {
        assert s[k + i] == ([x] + r + a)[i] && s[k] == x;
        assert less(x, s[k + i]);
      }
    }
  }

  /**
   * Where the descent falls off the tree, `v` is not equivalent to any
   * element and its lower bound is the length of the part before it.
   */
  lemma SplitAt<T(!new)>(less: (T, T) -> bool, b: seq<T>, a: seq<T>, v: T)
    requires StrictWeakOrder(less)
    requires forall i :: 0 <= i < |b| ==> less(b[i], v)
    requires forall i :: 0 <= i < |a| ==> less(v, a[i])
    ensures LowerIndex(less, b + a, v) == |b|
    ensures !HasEquivalent(less, b + a, v)
    ensures (b + a)[..|b|] == b && (b + a)[|b|..] == a
  {
    var s := b + a;
    if |a| > 0 {
      assert s[|b|] == a[0];
      assert less(v, a[0]);
      assert less(a[0], v) ==> less(v, v);
    }
    LowerIndexUnique(less, s, v, |b|);
    forall i | 0 <= i < |s| ensures !Equivalent(less, s[i], v) {
      if i < |b| {
        assert s[i] == b[i];
      } else {
        assert s[i] == a[i - |b|];
      }
    }
  }

  /** An element equivalent to `v`, found between the parts before and after it, is at `v`'s lower bound. */
  lemma FoundAt<T(!new)>(less: (T, T) -> bool, b: seq<T>, l: seq<T>, x: T, r: seq<T>, a: seq<T>, v: T)
    requires StrictWeakOrder(less)
    requires StrictlySorted(less, b + (l + [x] + r) + a)
    requires Equivalent(less, x, v)
    ensures HasEquivalent(less, b + (l + [x] + r) + a, v)
    ensures LowerIndex(less, b + (l + [x] + r) + a, v) == |b| + |l|
  {
    var s := b + (l + [x] + r) + a;
    var k := |b| + |l|;
    assert s[k] == x;
    forall i | 0 <= i < k ensures less(s[i], v) {
      assert less(s[i], x);
      assert less(v, s[i]) ==> less(v, x);
      assert Equivalent(less, v, x);
      assert Equivalent(less, s[i], v) ==> Equivalent(less, s[i], x);
    }
    LowerIndexUnique(less, s, v, k);
  }

  /** Both sides of an element of a strictly sorted sequence are strictly sorted. */
  lemma SortedParts<T>(less: (T, T) -> bool, l: seq<T>, x: T, r: seq<T>)
    requires StrictlySorted(less, l + [x] + r)
    ensures StrictlySorted(less, l) && StrictlySorted(less, r)
  {
    var s := l + [x] + r;
    forall i, j | 0 <= i < j < |r| ensures less(r[i], r[j]) {
      assert r[i] == s[|l| + 1 + i] && r[j] == s[|l| + 1 + j];
    }
    forall i, j | 0 <= i < j < |l| ensures less(l[i], l[j]) {
      assert l[i] == s[i] && l[j] == s[j];
    }
  }

  /**
   * The lower bound of `v` in `l + [x] + r`: past `x` into `r` when `x`
   * orders before `v`, and within `l` (possibly at `x`) otherwise.
   */
  lemma LowerSplit<T(!new)>(less: (T, T) -> bool, l: seq<T>, x: T, r: seq<T>, v: T)
    requires StrictWeakOrder(less)
    requires StrictlySorted(less, l + [x] + r)
    ensures less(x, v) ==> LowerIndex(less, l + [x] + r, v) == |l| + 1 + LowerIndex(less, r, v)
    ensures !less(x, v) ==> LowerIndex(less, l + [x] + r, v) == LowerIndex(less, l, v)
  {
    var s := l + [x] + r;
    if less(x, v) {
      var k := |l| + 1 + LowerIndex(less, r, v);
      forall i | 0 <= i < k ensures less(s[i], v) {
        if i < |l| {
          assert s[i] == l[i] && s[|l|] == x;
          assert less(s[i], x);
        } else if i > |l| {
          assert s[i] == r[i - |l| - 1];
        }
      }
      if k < |s| {
        assert s[k] == r[k - |l| - 1];
      }
      LowerIndexUnique(less, s, v, k);
    } else {
      var k := LowerIndex(less, l, v);
      forall i | 0 <= i < k ensures less(s[i], v) {
        assert s[i] == l[i];
      }
      assert s[k] == if k < |l| then l[k] else x;
      LowerIndexUnique(less, s, v, k);
    }
  }

  /**
   * The upper bound of `v` in `l + [x] + r`: past `x` into `r` when `v`
   * does not order before `x`, and within `l` (possibly at `x`) otherwise.
   */
  lemma UpperSplit<T(!new)>(less: (T, T) -> bool, l: seq<T>, x: T, r: seq<T>, v: T)
    requires StrictWeakOrder(less)
    requires StrictlySorted(less, l + [x] + r)
    ensures !less(v, x) ==> UpperIndex(less, l + [x] + r, v) == |l| + 1 + UpperIndex(less, r, v)
    ensures less(v, x) ==> UpperIndex(less, l + [x] + r, v) == UpperIndex(less, l, v)
  {
    var s := l + [x] + r;
    if !less(v, x) {
      var k := |l| + 1 + UpperIndex(less, r, v);
      forall i | 0 <= i < k ensures !less(v, s[i]) {
        if i < |l| {
          assert s[i] == l[i] && s[|l|] == x;
          assert less(s[i], x);
          assert less(v, s[i]) ==> less(v, x);
        } else if i > |l| {
          assert s[i] == r[i - |l| - 1];
        }
      }
      if k < |s| {
        assert s[k] == r[k - |l| - 1];
      }
      UpperIndexUnique(less, s, v, k);
    } else {
      var k := UpperIndex(less, l, v);
      forall i | 0 <= i < k ensures !less(v, s[i]) {
        assert s[i] == l[i];
      }
      assert s[k] == if k < |l| then l[k] else x;
      UpperIndexUnique(less, s, v, k);
    }
  }

  /**
   * Whether `l + [x] + r` holds an element equivalent to `v` is decided in
   * `r` when `x` orders before `v`, in `l` when `v` orders before `x`, and
   * by `x` itself otherwise.
   */
  lemma EquivalentSplit<T(!new)>(less: (T, T) -> bool, l: seq<T>, x: T, r: seq<T>, v: T)
    requires StrictWeakOrder(less)
    requires StrictlySorted(less, l + [x] + r)
    ensures less(x, v) ==> (HasEquivalent(less, l + [x] + r, v) <==> HasEquivalent(less, r, v))
    ensures less(v, x) ==> (HasEquivalent(less, l + [x] + r, v) <==> HasEquivalent(less, l, v))
    ensures Equivalent(less, x, v) ==> HasEquivalent(less, l + [x] + r, v)
  {
    var s := l + [x] + r;
    assert s[|l|] == x;
    if less(x, v) {
      forall i | 0 <= i <= |l| ensures less(s[i], v) {
        if i < |l| {
          assert less(s[i], x);
        }
      }
      if HasEquivalent(less, r, v) {
        var j :| 0 <= j < |r| && Equivalent(less, r[j], v);
        assert s[|l| + 1 + j] == r[j];
      }
      if HasEquivalent(less, s, v) {
        var j :| 0 <= j < |s| && Equivalent(less, s[j], v);
        assert j > |l|;
        assert s[j] == r[j - |l| - 1];
      }
    } else if less(v, x) {
      forall i | |l| <= i < |s| ensures less(v, s[i]) {
        if i > |l| {
          assert less(x, s[i]);
        }
      }
      if HasEquivalent(less, l, v) {
        var j :| 0 <= j < |l| && Equivalent(less, l[j], v);
        assert s[j] == l[j];
      }
      if HasEquivalent(less, s, v) {
        var j :| 0 <= j < |s| && Equivalent(less, s[j], v);
        assert j < |l|;
        assert s[j] == l[j];
      }
    }
  }

  /** Replacing an element by an equivalent one keeps a strictly sorted sequence strictly sorted. */
  lemma ReplaceEquivalentKeepsSorted<T(!new)>(less: (T, T) -> bool, s: seq<T>, k: nat, w: T)
    requires StrictWeakOrder(less) && StrictlySorted(less, s)
    requires k < |s| && Equivalent(less, s[k], w)
    ensures StrictlySorted(less, s[k := w])
  {
    var t := s[k := w];
    forall i, j | 0 <= i < j < |t| ensures less(t[i], t[j]) {
      if i == k {
        GreaterThanEquivalent(less, s[j], s[k], w);
      } else if j == k {
        LessThanEquivalent(less, s[i], s[k], w);
      }
    }
  }

  /**
   * What a unique-element insert of `v` leaves: `s` itself when the element
   * at `v`'s lower bound is equivalent to `v`, otherwise `s` with `v` placed
   * at its lower bound.
   */
  function Inserted<T>(less: (T, T) -> bool, s: seq<T>, v: T): seq<T> {
    var k := LowerIndex(less, s, v);
    if k < |s| && Equivalent(less, s[k], v) then s else s[..k] + [v] + s[k..]
  }

  /** The elements of `vs` inserted one after the other, first to last. */
  function InsertedAll<T>(less: (T, T) -> bool, s: seq<T>, vs: seq<T>): seq<T>
    decreases |vs|
  {
    if vs == [] then s else Inserted(less, InsertedAll(less, s, vs[..|vs| - 1]), vs[|vs| - 1])
  }

  /**
   * On a strictly sorted sequence the insert keeps `s` when an equivalent
   * element is present and places `v` at its lower bound otherwise; the
   * result is strictly sorted, holds an element equivalent to `v` and keeps
   * every element of `s`.
   */
  lemma InsertedFacts<T(!new)>(less: (T, T) -> bool, s: seq<T>, v: T)
    requires StrictWeakOrder(less) && StrictlySorted(less, s)
    ensures HasEquivalent(less, s, v) ==> Inserted(less, s, v) == s
    ensures !HasEquivalent(less, s, v) ==> var k := LowerIndex(less, s, v);
      Inserted(less, s, v) == s[..k] + [v] + s[k..]
    ensures StrictlySorted(less, Inserted(less, s, v)) && HasEquivalent(less, Inserted(less, s, v), v)
    ensures forall x :: x in s ==> x in Inserted(less, s, v)
  {
    BoundsOfStrictlySorted(less, s, v);
    var k := LowerIndex(less, s, v);
    if !HasEquivalent(less, s, v) {
      InsertAtLowerIndex(less, s, v);
      var t := s[..k] + [v] + s[k..];
      assert t[k] == v;
      forall x | x in s ensures x in t {
        var i :| 0 <= i < |s| && s[i] == x;
        if i < k {
          assert t[i] == x;
        } else {
          assert t[i + 1] == x;
        }
      }
    }
  }

  /**
   * Inserting a sequence of elements into a strictly sorted sequence keeps
   * it strictly sorted, keeps every element already there, and leaves an
   * element equivalent to each inserted one.
   */
  lemma {:induction false} InsertedAllFacts<T(!new)>(less: (T, T) -> bool, s: seq<T>, vs: seq<T>)
    requires StrictWeakOrder(less) && StrictlySorted(less, s)
    ensures StrictlySorted(less, InsertedAll(less, s, vs))
    ensures forall x :: x in s ==> x in InsertedAll(less, s, vs)
    ensures forall v :: v in vs ==> HasEquivalent(less, InsertedAll(less, s, vs), v)
    decreases |vs|
  {
    if vs != [] {
      var init, last := vs[..|vs| - 1], vs[|vs| - 1];
      InsertedAllFacts(less, s, init);
      var r0 := InsertedAll(less, s, init);
      InsertedFacts(less, r0, last);
      var r := Inserted(less, r0, last);
      assert vs == init + [last];
      forall v | v in vs ensures HasEquivalent(less, r, v) {
        if v != last {
          assert v in init;
          var i :| 0 <= i < |r0| && Equivalent(less, r0[i], v);
          assert r0[i] in r;
          var j :| 0 <= j < |r| && r[j] == r0[i];
        }
      }
    }
  }
}
