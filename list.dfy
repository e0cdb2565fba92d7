/**
 * srcs/list.hpp: ft::list, a circular doubly linked list with a sentinel.
 *
 * The sentinel `last` is the past-the-end node: its `next` is the first
 * element and its `prev` the last one, and it links to itself when the
 * list is empty.  The ghost sequence `ring` lists the sentinel followed by
 * the element nodes in order, `links` records their links and `contents`
 * their values; `At(k)` is the node at position `k`, the sentinel standing
 * at position |contents|.
 */
module List {
  import opened Wrappers
  import opened Ordering
  import Vector

  /**
   * ListNode: a value and the two links.  The sentinel's value is `None`,
   * where the source constructs a default `T()` in it.
   */
  class ListNode<T> {
    const value: Option<T>
    var next: ListNode?<T>
    var prev: ListNode?<T>

    /** _createNode: a node holding `v`, with null links. */
    constructor (v: Option<T>)
      ensures value == v && next == null && prev == null
    {
      value, next, prev := v, null, null;
    }
  }

  /** The two links of a node, as recorded beside the heap. */
  datatype Link<T> = Link(next: ListNode?<T>, prev: ListNode?<T>)

  /** No node occurs twice. */
  ghost predicate Distinct<X>(s: seq<X>) {
    forall i, j :: 0 <= i < |s| && 0 <= j < |s| && i != j ==> Apart(s, i, j)
  }

  /** The elements at positions `i` and `j` differ. */
  ghost predicate Apart<X>(s: seq<X>, i: nat, j: nat)
    requires i < |s| && j < |s|
  {
    s[i] != s[j]
  }

  /** The position after `i` on a ring of `n` positions. */
  function Succ(n: nat, i: nat): nat {
    if i + 1 < n then i + 1 else 0
  }

  /** The position before `i` on a ring of `n` positions. */
  function Pred(n: nat, i: nat): nat {
    if 0 < i then i - 1 else if n == 0 then 0 else n - 1
  }

  /** In `links`, the node at position `i` of `ring` links forward to the next one and back to the previous one. */
  ghost predicate LinkedAt<T>(ring: seq<ListNode<T>>, links: map<ListNode<T>, Link<T>>, i: nat)
    requires i < |ring|
  {
    && ring[i] in links
    && links[ring[i]].next == ring[Succ(|ring|, i)]
    && links[ring[i]].prev == ring[Pred(|ring|, i)]
  }

  /** Every node of `ring` is linked to its neighbours, circularly. */
  ghost predicate Ring<T>(ring: seq<ListNode<T>>, links: map<ListNode<T>, Link<T>>) {
    forall i :: 0 <= i < |ring| ==> LinkedAt(ring, links, i)
  }

  /** The recorded links of `x`, or none when `x` has no record. */
  ghost function LinkOf<T>(links: map<ListNode<T>, Link<T>>, x: ListNode<T>): Link<T> {
    if x in links then links[x] else Link(null, null)
  }

  /** Inserting a new element after position `k` keeps a sequence free of repetitions. */
  lemma InsertedDistinct<X>(s: seq<X>, k: nat, n: X)
    requires Distinct(s) && n !in s && k < |s|
    ensures Distinct(s[..k + 1] + [n] + s[k + 1..])
  {
    var r := s[..k + 1] + [n] + s[k + 1..];
    forall i, j | 0 <= i < |r| && 0 <= j < |r| && i != j ensures Apart(r, i, j) {
      var i', j' := if i <= k then i else i - 1, if j <= k then j else j - 1;
      if i != k + 1 && j != k + 1 {
        assert r[i] == s[i'] && r[j] == s[j'] && Apart(s, i', j');
      }
    }
  }

  /**
   * _insertNodeBefore(q, n) on the record, where `p` is the node before
   * `q`: `n` links to both, `p` forward to `n` and `q` back to `n`.
   */
  ghost function LinkBetween<T>(links: map<ListNode<T>, Link<T>>, p: ListNode<T>, q: ListNode<T>, n: ListNode<T>): map<ListNode<T>, Link<T>> {
    var l1 := links[n := Link(q, p)];
    var l2 := l1[p := Link(n, LinkOf(l1, p).prev)];
    l2[q := Link(LinkOf(l2, q).next, n)]
  }
  /** After `n` goes in after position `k` of the ring, the node at position `i` of the new ring is linked to its neighbours. */
  ghost predicate InsertedLinkedAt<T>(ring: seq<ListNode<T>>, links: map<ListNode<T>, Link<T>>, k: nat, n: ListNode<T>, i: nat)
    requires k < |ring| && i <= |ring|
  {
    var r := ring[..k + 1] + [n] + ring[k + 1..];
    LinkedAt(r, LinkBetween(links, ring[k], ring[Succ(|ring|, k)], n), i)
  }

  /** The inserted node links to its neighbours. */
  lemma RingInsertNew<T>(ring: seq<ListNode<T>>, links: map<ListNode<T>, Link<T>>, k: nat, n: ListNode<T>)
    requires Ring(ring, links) && Distinct(ring) && n !in ring && k < |ring|
    ensures InsertedLinkedAt(ring, links, k, n, k + 1)
  {
    var p, q := ring[k], ring[Succ(|ring|, k)];
    var l3 := LinkBetween(links, p, q, n);
    var r := ring[..k + 1] + [n] + ring[k + 1..];
    assert r[k + 1] == n && l3[n] == Link(q, p);
    if k + 1 < |ring| {
      assert r[k + 2] == ring[k + 1];
    } else {
      assert r[0] == ring[0];
    }
    assert r[k] == p;
  }

  /** The node before the inserted one links forward to it. */
  lemma RingInsertPrev<T>(ring: seq<ListNode<T>>, links: map<ListNode<T>, Link<T>>, k: nat, n: ListNode<T>)
    requires Ring(ring, links) && Distinct(ring) && n !in ring && k < |ring|
    ensures InsertedLinkedAt(ring, links, k, n, k)
  {
    var m := |ring|;
    var p, q := ring[k], ring[Succ(m, k)];
    var l3 := LinkBetween(links, p, q, n);
    var r := ring[..k + 1] + [n] + ring[k + 1..];
    assert r[k] == p && r[k + 1] == n;
    if m == 1 {
      assert l3[p] == Link(n, n);
    } else {
      assert LinkedAt(ring, links, k);
      assert Apart(ring, k, Succ(m, k));
      assert p != q && l3[p] == Link(n, links[p].prev);
      if k > 0 {
        assert r[k - 1] == ring[k - 1];
      } else {
        assert r[m] == ring[m - 1];
      }
    }
  }

  /** A node before position `k` keeps its links. */
  lemma RingInsertBefore<T>(ring: seq<ListNode<T>>, links: map<ListNode<T>, Link<T>>, k: nat, n: ListNode<T>, i: nat)
    requires Ring(ring, links) && Distinct(ring) && n !in ring && k < |ring| && i < k
    ensures InsertedLinkedAt(ring, links, k, n, i)
  {
    var m := |ring|;
    var p, q := ring[k], ring[Succ(m, k)];
    var r := ring[..k + 1] + [n] + ring[k + 1..];
    assert LinkedAt(ring, links, i) && Apart(ring, i, k);
    assert r[i] == ring[i] && r[i + 1] == ring[i + 1] && ring[i] != p && ring[i] != n;
    if i > 0 {
      assert r[i - 1] == ring[i - 1];
      assert Apart(ring, i, Succ(m, k));
    } else if m > k + 1 {
      assert r[m] == ring[m - 1];
      assert Apart(ring, i, Succ(m, k));
    } else {
      assert r[m] == n && ring[0] == q;
    }
  }

  /** A node after the inserted one keeps its links, except the next one's back link. */
  lemma RingInsertAfter<T>(ring: seq<ListNode<T>>, links: map<ListNode<T>, Link<T>>, k: nat, n: ListNode<T>, i: nat)
    requires Ring(ring, links) && Distinct(ring) && n !in ring && k + 1 < i <= |ring|
    ensures InsertedLinkedAt(ring, links, k, n, i)
  {
    var m := |ring|;
    var p, q := ring[k], ring[Succ(m, k)];
    var r := ring[..k + 1] + [n] + ring[k + 1..];
    assert LinkedAt(ring, links, i - 1) && Apart(ring, i - 1, k);
    assert r[i] == ring[i - 1] && ring[i - 1] != p && ring[i - 1] != n;
    if i + 1 < |r| {
      assert r[i + 1] == ring[i];
    } else {
      assert r[0] == ring[0];
    }
    if i - 1 > k + 1 {
      assert r[i - 1] == ring[i - 2];
      assert Apart(ring, i - 1, Succ(m, k));
    } else {
      assert r[i - 1] == n && ring[i - 1] == q;
    }
  }

  /**
   * _insertNodeBefore on the record: `n` goes in after position `k` of the
   * ring, between `p` and its successor `q`, and the ring stays linked.
   */
  lemma RingInsert<T>(ring: seq<ListNode<T>>, links: map<ListNode<T>, Link<T>>, k: nat, n: ListNode<T>)
    requires Ring(ring, links) && Distinct(ring) && n !in ring && k < |ring|
    ensures var r := ring[..k + 1] + [n] + ring[k + 1..];
      Ring(r, LinkBetween(links, ring[k], ring[Succ(|ring|, k)], n)) && Distinct(r)
  {
    var r := ring[..k + 1] + [n] + ring[k + 1..];
    forall i | 0 <= i < |r| ensures LinkedAt(r, LinkBetween(links, ring[k], ring[Succ(|ring|, k)], n), i) {
      if i < k {
        RingInsertBefore(ring, links, k, n, i);
      } else if i == k {
        RingInsertPrev(ring, links, k, n);
      } else if i == k + 1 {
        RingInsertNew(ring, links, k, n);
      } else {
        RingInsertAfter(ring, links, k, n, i);
      }
      assert InsertedLinkedAt(ring, links, k, n, i);
    }
    InsertedDistinct(ring, k, n);
  }

  /** Removing one element keeps a sequence free of repetitions. */
  lemma RemovedDistinct<X>(s: seq<X>, e: nat)
    requires Distinct(s) && e < |s|
    ensures Distinct(s[..e] + s[e + 1..])
  {
    var r := s[..e] + s[e + 1..];
    forall i, j | 0 <= i < |r| && 0 <= j < |r| && i != j ensures Apart(r, i, j) {
      var i', j' := if i < e then i else i + 1, if j < e then j else j + 1;
      assert r[i] == s[i'] && r[j] == s[j'] && Apart(s, i', j');
    }
  }

  /**
   * The relinking of erase(position) on the record: `p`, the node before
   * the erased one, links forward to `q`, the node after it, and `q` back
   * to `p`.
   */
  ghost function LinkOut<T>(links: map<ListNode<T>, Link<T>>, p: ListNode<T>, q: ListNode<T>): map<ListNode<T>, Link<T>> {
    var l1 := links[p := Link(q, LinkOf(links, p).prev)];
    l1[q := Link(LinkOf(l1, q).next, p)]
  }
  /** After the removal of the node at position `e`, the node at position `i` of the new ring is linked to its neighbours. */
  lemma RingRemoveAt<T>(ring: seq<ListNode<T>>, links: map<ListNode<T>, Link<T>>, e: nat, i: nat)
    requires Ring(ring, links) && Distinct(ring) && 0 < e < |ring|
    requires i + 1 < |ring|
    ensures var p, q := ring[e - 1], ring[Succ(|ring|, e)];
      var l := LinkOut(links, p, q);
      var r := ring[..e] + ring[e + 1..];
      LinkedAt(r, l, i)
  {
    var m, k, qi := |ring|, e - 1, Succ(|ring|, e);
    var p, q := ring[k], ring[qi];
    var l := LinkOut(links, p, q);
    var r := ring[..e] + ring[e + 1..];
    var qi' := if qi == 0 then 0 else e;
    assert r[qi'] == q;
    var j := if i < e then i else i + 1;
    assert r[i] == ring[j];
    if i == k {
      assert LinkedAt(ring, links, k);
      if m == 2 {
        assert p == q && l[p] == Link(p, p);
      } else {
        assert Apart(ring, k, qi);
        assert l[p] == Link(q, links[p].prev);
        if k > 0 {
          assert r[k - 1] == ring[k - 1];
        } else {
          assert r[m - 2] == ring[m - 1];
        }
      }
    } else if i == qi' {
      assert LinkedAt(ring, links, qi) && Apart(ring, k, qi);
      assert l[q] == Link(links[q].next, p);
      if qi != 0 {
        if e + 2 < m {
          assert r[e + 1] == ring[e + 2];
        } else {
          assert r[0] == ring[0];
        }
      } else {
        assert r[1] == ring[1];
      }
    } else {
      assert LinkedAt(ring, links, j) && Apart(ring, j, k) && Apart(ring, j, qi);
      assert l[r[i]] == links[ring[j]];
      if i + 1 < |r| {
        assert r[i + 1] == ring[if i + 1 < e then i + 1 else i + 2];
      } else {
        assert r[0] == ring[0];
      }
      if 0 < i {
        assert r[i - 1] == ring[if i - 1 < e then i - 1 else i];
      } else {
        assert r[|r| - 1] == ring[m - 1];
      }
    }
  }

  /**
   * The relinking of erase on the record: the node at position `e` leaves
   * the ring, and the ring stays linked.
   */
  lemma RingRemove<T>(ring: seq<ListNode<T>>, links: map<ListNode<T>, Link<T>>, e: nat)
    requires Ring(ring, links) && Distinct(ring) && 0 < e < |ring|
    ensures var r := ring[..e] + ring[e + 1..];
      Ring(r, LinkOut(links, ring[e - 1], ring[Succ(|ring|, e)])) && Distinct(r)
  {
    var r, l := ring[..e] + ring[e + 1..], LinkOut(links, ring[e - 1], ring[Succ(|ring|, e)]);
    forall i | 0 <= i < |r| ensures LinkedAt(r, l, i) {
      RingRemoveAt(ring, links, e, i);
    }
    RemovedDistinct(ring, e);
  }

  /** The heap links of `n` are those recorded in `links`. */
  ghost predicate Mirrored<T>(n: ListNode<T>, links: map<ListNode<T>, Link<T>>)
    reads n
  {
    n in links && n.next == links[n].next && n.prev == links[n].prev
  }

  /** The heap links of every node of `ring` are those recorded in `links`. */
  ghost predicate MirrorsAll<T>(ring: seq<ListNode<T>>, links: map<ListNode<T>, Link<T>>)
    reads set n | n in ring
  {
    forall i {:trigger Mirrored(ring[i], links)} :: 0 <= i < |ring| ==> Mirrored(ring[i], links)
  }

  /** After the sentinel, the nodes of `ring` hold `contents` in order. */
  ghost predicate Holding<T>(ring: seq<ListNode<T>>, contents: seq<T>) {
    && |contents| + 1 == |ring|
    && (forall i {:trigger ring[i].value} :: 0 < i < |ring| ==> ring[i].value == Some(contents[i - 1]))
  }

  /** The ghost description of a list whose sentinel is `last`, apart from the heap. */
  ghost predicate Shaped<T>(last: ListNode<T>, ring: seq<ListNode<T>>, links: map<ListNode<T>, Link<T>>, contents: seq<T>) {
    && 0 < |ring| && ring[0] == last && last.value == None
    && Distinct(ring) && Ring(ring, links) && Holding(ring, contents)
  }

  /** A new node holding `v` after position `k` of the ring puts `v` at position `k` of the contents. */
  lemma HoldingInsert<T>(ring: seq<ListNode<T>>, contents: seq<T>, k: nat, n: ListNode<T>, v: T)
    requires Holding(ring, contents) && k <= |contents| && n.value == Some(v)
    ensures Holding(ring[..k + 1] + [n] + ring[k + 1..], contents[..k] + [v] + contents[k..])
  {
    var r, c := ring[..k + 1] + [n] + ring[k + 1..], contents[..k] + [v] + contents[k..];
    forall i | 0 < i < |r| ensures r[i].value == Some(c[i - 1]) {
      if i <= k {
        assert r[i] == ring[i] && c[i - 1] == contents[i - 1];
      } else if i > k + 1 {
        assert r[i] == ring[i - 1] && c[i - 1] == contents[i - 2];
      }
    }
  }

  /**
   * The heap side of _insertNodeBefore: once `n` is linked between the
   * node at position `k` and its successor, and every other node of the
   * ring still has its recorded links, the heap mirrors the record of the
   * extended ring.
   */
  lemma LinkMirrors<T>(ring: seq<ListNode<T>>, links: map<ListNode<T>, Link<T>>, k: nat, n: ListNode<T>)
    requires Ring(ring, links) && Distinct(ring) && n !in ring && k < |ring|
    requires n.next == ring[Succ(|ring|, k)] && n.prev == ring[k]
    requires ring[k].next == n && ring[Succ(|ring|, k)].prev == n
    requires ring[k] != ring[Succ(|ring|, k)] ==>
      ring[k].prev == LinkOf(links, ring[k]).prev && ring[Succ(|ring|, k)].next == LinkOf(links, ring[Succ(|ring|, k)]).next
    requires forall i :: 0 <= i < |ring| && ring[i] != ring[k] && ring[i] != ring[Succ(|ring|, k)] ==> Mirrored(ring[i], links)
    ensures MirrorsAll(ring[..k + 1] + [n] + ring[k + 1..], LinkBetween(links, ring[k], ring[Succ(|ring|, k)], n))
  {
    var p, q := ring[k], ring[Succ(|ring|, k)];
    var r, l := ring[..k + 1] + [n] + ring[k + 1..], LinkBetween(links, p, q, n);
    forall i | 0 <= i < |r| ensures Mirrored(r[i], l) {
      var j := if i <= k then i else i - 1;
      if i == k + 1 {
        assert r[i] == n;
      } else if j == k {
        assert r[i] == p;
        assert p != q ==> l[p] == Link(n, LinkOf(links, p).prev);
        assert p == q ==> l[p] == Link(n, n);
      } else if j == Succ(|ring|, k) {
        assert r[i] == q;
        assert p != q ==> l[q] == Link(LinkOf(links, q).next, n);
      } else {
        assert r[i] == ring[j] && Apart(ring, j, k) && Apart(ring, j, Succ(|ring|, k)) && LinkedAt(ring, links, j);
        assert l[ring[j]] == links[ring[j]];
      }
    }
  }

  /**
   * _insertNodeBefore(node, newNode): `newNode` is linked in between `node`
   * and the node before it; no other link changes.
   */
  method InsertNodeBefore<T>(node: ListNode<T>, newNode: ListNode<T>)
    requires node.prev != null && newNode != node && newNode != node.prev
    modifies node, node.prev, newNode
    ensures newNode.next == node && newNode.prev == old(node.prev)
    ensures old(node.prev).next == newNode && node.prev == newNode
    ensures old(node.prev) != node ==> old(node.prev).prev == old(node.prev.prev) && node.next == old(node.next)
  {
    var prev := node.prev;
    prev.next := newNode;
    newNode.prev := prev;
    newNode.next := node;
    node.prev := newNode;
  }

  /**
   * The heap side of erase: once the nodes on either side of the node at
   * position `e` are linked to each other, and every other node of the ring
   * still has its recorded links, the heap mirrors the record of the
   * shortened ring.
   */
  lemma UnlinkMirrors<T>(ring: seq<ListNode<T>>, links: map<ListNode<T>, Link<T>>, e: nat)
    requires Ring(ring, links) && Distinct(ring) && 0 < e < |ring|
    requires ring[e - 1].next == ring[Succ(|ring|, e)] && ring[Succ(|ring|, e)].prev == ring[e - 1]
    requires ring[e - 1] != ring[Succ(|ring|, e)] ==>
      ring[e - 1].prev == LinkOf(links, ring[e - 1]).prev && ring[Succ(|ring|, e)].next == LinkOf(links, ring[Succ(|ring|, e)]).next
    requires forall i :: 0 <= i < |ring| && ring[i] != ring[e - 1] && ring[i] != ring[Succ(|ring|, e)] ==> Mirrored(ring[i], links)
    ensures MirrorsAll(ring[..e] + ring[e + 1..], LinkOut(links, ring[e - 1], ring[Succ(|ring|, e)]))
  {
    var m, k, qi := |ring|, e - 1, Succ(|ring|, e);
    var p, q := ring[k], ring[qi];
    var r, l := ring[..e] + ring[e + 1..], LinkOut(links, p, q);
    forall i | 0 <= i < |r| ensures Mirrored(r[i], l) {
      var j := if i < e then i else i + 1;
      assert r[i] == ring[j];
      if j == k {
        assert p != q ==> l[p] == Link(q, LinkOf(links, p).prev);
      } else if j == qi {
        assert l[q] == Link(if p == q then q else LinkOf(links, q).next, p);
      } else {
        assert Apart(ring, j, k) && Apart(ring, j, qi) && LinkedAt(ring, links, j);
        assert l[ring[j]] == links[ring[j]];
      }
    }
  }

  /** Removing the node at position `e` of the ring removes the value at position `e - 1` of the contents. */
  lemma HoldingRemove<T>(ring: seq<ListNode<T>>, contents: seq<T>, e: nat)
    requires Holding(ring, contents) && 0 < e < |ring|
    ensures Holding(ring[..e] + ring[e + 1..], contents[..e - 1] + contents[e..])
  {
    var r, c := ring[..e] + ring[e + 1..], contents[..e - 1] + contents[e..];
    forall i | 0 < i < |r| ensures r[i].value == Some(c[i - 1]) {
      if i < e {
        assert r[i] == ring[i] && c[i - 1] == contents[i - 1];
      } else {
        assert r[i] == ring[i + 1] && c[i - 1] == contents[i];
      }
    }
  }

  /**
   * The relinking of erase(position): the nodes on either side of `node`
   * are linked to each other; `node` itself keeps its links.
   */
  method UnlinkNode<T>(node: ListNode<T>)
    requires node.prev != null && node.next != null
    modifies node.prev, node.next
    ensures old(node.prev).next == old(node.next) && old(node.next).prev == old(node.prev)
    ensures old(node.prev) != old(node.next) ==>
      old(node.prev).prev == old(node.prev.prev) && old(node.next).next == old(node.next.next)
  {
    var prev, next := node.prev, node.next;
    prev.next := next;
    next.prev := prev;
  }

  /** `n` copies of `v`. */
  function Repeat<T>(v: T, n: nat): (r: seq<T>)
    ensures |r| == n && forall i :: 0 <= i < n ==> r[i] == v
  {
    seq(n, _ => v)
  }

  /** One more value put in before position `k + i`, after `i` values already put in before position `k`. */
  lemma InsertedOneMore<T>(c: seq<T>, k: nat, vs: seq<T>, i: nat)
    requires k <= |c| && i < |vs|
    ensures var d := c[..k] + vs[..i] + c[k..];
      d[..k + i] + [vs[i]] + d[k + i..] == c[..k] + vs[..i + 1] + c[k..]
  {
    var d := c[..k] + vs[..i] + c[k..];
    assert d[..k + i] == c[..k] + vs[..i];
    assert d[k + i..] == c[k..];
    assert vs[..i + 1] == vs[..i] + [vs[i]];
  }

  /** One more value erased at position `i`, after `t` values already erased there. */
  lemma ErasedOneMore<T>(c: seq<T>, i: nat, t: nat)
    requires i + t < |c|
    ensures var d := c[..i] + c[i + t..];
      d[..i] + d[i + 1..] == c[..i] + c[i + t + 1..]
  {
    var d := c[..i] + c[i + t..];
    assert d[..i] == c[..i];
    assert d[i + 1..] == c[i + t + 1..];
  }

  /** The node at position `k` in a list whose sentinel and element nodes are `ring`. */
  function Position<T>(ring: seq<ListNode<T>>, k: nat): ListNode<T>
    requires 0 < |ring|
  {
    if k + 1 < |ring| then ring[k + 1] else ring[0]
  }

  /** Once the node at ring position `e` is removed, every later position holds the node that followed it. */
  lemma PositionRemoved<T>(ring: seq<ListNode<T>>, e: nat, a: nat)
    requires 0 < e <= a < |ring|
    ensures Position(ring[..e] + ring[e + 1..], a - 1) == Position(ring, a)
  {
  }

  /** The values of `s` that `pred` does not select, in order: what remove_if(pred) leaves. */
  function Kept<T>(pred: T -> bool, s: seq<T>): seq<T>
    decreases |s|
  {
    if s == [] then [] else Kept(pred, s[..|s| - 1]) + (if pred(s[|s| - 1]) then [] else [s[|s| - 1]])
  }

  /** remove_if keeps exactly the values `pred` does not select. */
  lemma {:induction false} KeptSpec<T>(pred: T -> bool, s: seq<T>)
    ensures forall x :: x in Kept(pred, s) <==> x in s && !pred(x)
    ensures |Kept(pred, s)| <= |s|
    ensures (forall x :: x in s ==> !pred(x)) ==> Kept(pred, s) == s
    decreases |s|
  {
    if s != [] {
      var s' := s[..|s| - 1];
      KeptSpec(pred, s');
      assert s == s' + [s[|s| - 1]];
    }
  }

  /** Equality of values, the comparison unique() uses. */
  predicate Same<T(==)>(a: T, b: T) {
    a == b
  }

  /**
   * What unique(same) leaves: the first value, then every value that
   * `same` does not match with the last value kept before it.
   */
  function Uniq<T>(same: (T, T) -> bool, s: seq<T>): (r: seq<T>)
    ensures |r| <= |s|
    ensures s != [] ==> r != [] && r[0] == s[0]
    decreases |s|
  {
    if |s| <= 1 then s
    else
      var u := Uniq(same, s[..|s| - 1]);
      if same(s[|s| - 1], u[|u| - 1]) then u else u + [s[|s| - 1]]
  }

  /** No value unique(same) keeps is matched by `same` with the one kept before it. */
  lemma {:induction false} UniqAdjacent<T>(same: (T, T) -> bool, s: seq<T>)
    ensures forall i :: 0 < i < |Uniq(same, s)| ==> !same(Uniq(same, s)[i], Uniq(same, s)[i - 1])
    decreases |s|
  {
    if |s| > 1 {
      UniqAdjacent(same, s[..|s| - 1]);
    }
  }

  /** unique() keeps one value of every run of equal values: no value is lost, none repeats its neighbour. */
  lemma {:induction false} UniqSameValues<T>(s: seq<T>)
    ensures forall x :: x in Uniq(Same, s) <==> x in s
    ensures forall i :: 0 < i < |Uniq(Same, s)| ==> Uniq(Same, s)[i] != Uniq(Same, s)[i - 1]
    decreases |s|
  {
    UniqAdjacent(Same, s);
    if |s| > 1 {
      var s' := s[..|s| - 1];
      UniqSameValues(s');
      assert s == s' + [s[|s| - 1]];
    }
  }

  /**
   * The state of remove_if(pred) after it has visited the first `t` values
   * of `c0`: the list holds what they leave, followed by the values not yet
   * visited, and the walk is at position `i`, the first of those.
   */
  ghost predicate KeptWalk<T>(pred: T -> bool, c0: seq<T>, t: nat, i: nat, c: seq<T>) {
    t <= |c0| && i == |Kept(pred, c0[..t])| && c == Kept(pred, c0[..t]) + c0[t..]
  }

  /** Erasing the value at the walk's position when `pred` selects it, and stepping over it otherwise, visits one more value. */
  lemma KeptStep<T>(pred: T -> bool, c0: seq<T>, t: nat, i: nat, c: seq<T>, c': seq<T>)
    requires KeptWalk(pred, c0, t, i, c) && i < |c|
    requires pred(c[i]) ==> c' == c[..i] + c[i + 1..]
    requires !pred(c[i]) ==> c' == c
    ensures KeptWalk(pred, c0, t + 1, if pred(c[i]) then i else i + 1, c')
  {
    assert c0[..t + 1][..t] == c0[..t];
    assert c[i..] == c0[t..] == [c0[t]] + c0[t + 1..];
  }

  /** When the walk reaches the end, the list holds what remove_if(pred) leaves. */
  lemma KeptDone<T>(pred: T -> bool, c0: seq<T>, t: nat, i: nat, c: seq<T>)
    requires KeptWalk(pred, c0, t, i, c) && i == |c|
    ensures c == Kept(pred, c0)
  {
    assert c0[..t] == c0;
  }

  /**
   * The state of unique(same) after it has visited the first `t` values of
   * a non-empty `c0`, the first of which it never visits.
   */
  ghost predicate UniqWalk<T>(same: (T, T) -> bool, c0: seq<T>, t: nat, i: nat, c: seq<T>) {
    1 <= t <= |c0| && i == |Uniq(same, c0[..t])| && c == Uniq(same, c0[..t]) + c0[t..]
  }

  /** Erasing the value at the walk's position when `same` matches it with the one before, and stepping over it otherwise, visits one more value. */
  lemma UniqStep<T>(same: (T, T) -> bool, c0: seq<T>, t: nat, i: nat, c: seq<T>, c': seq<T>)
    requires UniqWalk(same, c0, t, i, c) && i < |c|
    requires same(c[i], c[i - 1]) ==> c' == c[..i] + c[i + 1..]
    requires !same(c[i], c[i - 1]) ==> c' == c
    ensures UniqWalk(same, c0, t + 1, if same(c[i], c[i - 1]) then i else i + 1, c')
  {
    assert c0[..t + 1][..t] == c0[..t];
    assert c[i..] == c0[t..] == [c0[t]] + c0[t + 1..];
  }

  /** When the walk reaches the end, the list holds what unique(same) leaves. */
  lemma UniqDone<T>(same: (T, T) -> bool, c0: seq<T>, t: nat, i: nat, c: seq<T>)
    requires UniqWalk(same, c0, t, i, c) && i == |c|
    ensures c == Uniq(same, c0)
  {
    assert c0[..t] == c0;
  }

  /** The values of `s` in the opposite order. */
  function Backwards<X>(s: seq<X>): (r: seq<X>)
    ensures |r| == |s| && forall i :: 0 <= i < |s| ==> r[i] == s[|s| - 1 - i]
    decreases |s|
  {
    if s == [] then [] else Backwards(s[1..]) + [s[0]]
  }

  /** Reversing twice gives the values back. */
  lemma BackwardsTwice<X>(s: seq<X>)
    ensures Backwards(Backwards(s)) == s
  {
  }

  /** The ring of the reversed list: the sentinel stays first and the element nodes come in the opposite order. */
  ghost function Reversed<X>(ring: seq<X>): (r: seq<X>)
    requires 0 < |ring|
  {
    [ring[0]] + Backwards(ring[1..])
  }

  /** The record with every node's two links exchanged. */
  ghost function Swapped<T>(links: map<ListNode<T>, Link<T>>): map<ListNode<T>, Link<T>> {
    map n | n in links :: Link(links[n].prev, links[n].next)
  }

  /** Where the node at position `i` of the reversed ring was. */
  lemma ReversedAt<X>(ring: seq<X>, i: nat)
    requires i < |ring|
    ensures Reversed(ring)[i] == ring[if i == 0 then 0 else |ring| - i]
  {
  }

  /** The reversed ring has the same nodes. */
  lemma ReversedMembers<X>(ring: seq<X>)
    requires 0 < |ring|
    ensures forall n :: n in Reversed(ring) <==> n in ring
  {
    var m := |ring|;
    forall n | n in ring ensures n in Reversed(ring) {
      var x :| 0 <= x < m && ring[x] == n;
      ReversedAt(ring, if x == 0 then 0 else m - x);
    }
    forall n | n in Reversed(ring) ensures n in ring {
      var i :| 0 <= i < m && Reversed(ring)[i] == n;
      ReversedAt(ring, i);
    }
  }

  /** A ring with every link exchanged is the reversed ring. */
  lemma RingReversed<T>(ring: seq<ListNode<T>>, links: map<ListNode<T>, Link<T>>)
    requires 0 < |ring| && Ring(ring, links) && Distinct(ring)
    ensures Ring(Reversed(ring), Swapped(links)) && Distinct(Reversed(ring))
  {
    var m, r, l := |ring|, Reversed(ring), Swapped(links);
    forall i | 0 <= i < m ensures LinkedAt(r, l, i) {
      var x := if i == 0 then 0 else m - i;
      ReversedAt(ring, i);
      ReversedAt(ring, Succ(m, i));
      ReversedAt(ring, Pred(m, i));
      assert LinkedAt(ring, links, x);
    }
    forall i, j | 0 <= i < m && 0 <= j < m && i != j ensures Apart(r, i, j) {
      ReversedAt(ring, i);
      ReversedAt(ring, j);
      assert Apart(ring, if i == 0 then 0 else m - i, if j == 0 then 0 else m - j);
    }
  }

  /** The reversed ring holds the values in the opposite order. */
  lemma HoldingReversed<T>(ring: seq<ListNode<T>>, contents: seq<T>)
    requires 0 < |ring| && Holding(ring, contents)
    ensures Holding(Reversed(ring), Backwards(contents))
  {
    var r, c := Reversed(ring), Backwards(contents);
    forall i | 0 < i < |r| ensures r[i].value == Some(c[i - 1]) {
      ReversedAt(ring, i);
    }
  }

  /** The heap of a node whose two links are those of the record exchanged. */
  ghost predicate Flipped<T>(n: ListNode<T>, links: map<ListNode<T>, Link<T>>)
    reads n
  {
    n in links && n.next == links[n].prev && n.prev == links[n].next
  }

  /** When every node of the ring is flipped, the heap mirrors the exchanged record along the reversed ring. */
  lemma FlippedMirrors<T>(ring: seq<ListNode<T>>, links: map<ListNode<T>, Link<T>>)
    requires 0 < |ring| && forall x {:trigger Flipped(ring[x], links)} :: 0 <= x < |ring| ==> Flipped(ring[x], links)
    ensures MirrorsAll(Reversed(ring), Swapped(links))
  {
    var r, m := Reversed(ring), |ring|;
    forall i | 0 <= i < m ensures Mirrored(r[i], Swapped(links)) {
      ReversedAt(ring, i);
      assert Flipped(ring[if i == 0 then 0 else m - i], links);
    }
  }

  /** The exchange of reverse(): the two links of `node` trade places. */
  method SwapLinks<T>(node: ListNode<T>)
    modifies node
    ensures node.next == old(node.prev) && node.prev == old(node.next)
  {
    var tmp := node.next;
    node.next := node.prev;
    node.prev := tmp;
  }

  /**
   * What merge(src, comp) leaves in this list: the values of `a` in order,
   * with each value of `b` placed before the first value of `a` that it
   * goes before under `comp`, and the rest of `b` at the end.
   */
  function Merged<T>(comp: (T, T) -> bool, a: seq<T>, b: seq<T>): seq<T>
    decreases |a| + |b|
  {
    if b == [] then a
    else if a == [] then b
    else if comp(b[0], a[0]) then [b[0]] + Merged(comp, a, b[1..])
    else [a[0]] + Merged(comp, a[1..], b)
  }

  /** merge loses no value and adds none: the result is a permutation of both lists together. */
  lemma {:induction false} MergedPermutation<T>(comp: (T, T) -> bool, a: seq<T>, b: seq<T>)
    ensures multiset(Merged(comp, a, b)) == multiset(a) + multiset(b)
    ensures |Merged(comp, a, b)| == |a| + |b|
    decreases |a| + |b|
  {
    if b != [] && a != [] {
      if comp(b[0], a[0]) {
        MergedPermutation(comp, a, b[1..]);
        MultisetHead(b);
      } else {
        MergedPermutation(comp, a[1..], b);
        MultisetHead(a);
      }
    }
  }

  /** A non-empty sequence holds its first value and the values of its tail. */
  lemma MultisetHead<T>(s: seq<T>)
    requires s != []
    ensures multiset(s) == multiset{s[0]} + multiset(s[1..])
  {
    assert s == [s[0]] + s[1..];
  }

  /** In a strict weak order, a value that is not before `y` while `y` is not before `z` is not before `z` either. */
  lemma NotBeforeTransitive<T(!new)>(comp: (T, T) -> bool, x: T, y: T, z: T)
    requires StrictWeakOrder(comp) && !comp(y, x) && !comp(z, y)
    ensures !comp(z, x)
  {
    if !comp(x, y) && !comp(y, z) {
      assert Equivalent(comp, x, y) && Equivalent(comp, y, z);
    }
  }

  /** A sorted sequence with `h` in front stays sorted exactly when no value of it goes before `h`. */
  lemma SortedCons<T>(comp: (T, T) -> bool, h: T, s: seq<T>)
    ensures Sorted(comp, [h] + s) <==> Sorted(comp, s) && forall x :: x in s ==> !comp(x, h)
  {
    var t := [h] + s;
    if Sorted(comp, s) && forall x :: x in s ==> !comp(x, h) {
      forall i, j | 0 <= i < j < |t| ensures !comp(t[j], t[i]) {
        if i > 0 {
          assert t[i] == s[i - 1] && t[j] == s[j - 1];
        } else {
          assert t[j] == s[j - 1];
        }
      }
    }
    if Sorted(comp, t) {
      forall i, j | 0 <= i < j < |s| ensures !comp(s[j], s[i]) {
        assert s[i] == t[i + 1] && s[j] == t[j + 1];
      }
      forall x | x in s ensures !comp(x, h) {
        var i :| 0 <= i < |s| && s[i] == x;
        assert t[i + 1] == x && t[0] == h;
      }
    }
  }

  /** Merging two sorted lists under a strict weak order gives a sorted list. */
  lemma {:induction false} MergedSorted<T(!new)>(comp: (T, T) -> bool, a: seq<T>, b: seq<T>)
    requires StrictWeakOrder(comp) && Sorted(comp, a) && Sorted(comp, b)
    ensures Sorted(comp, Merged(comp, a, b))
    decreases |a| + |b|
  {
    if b != [] && a != [] {
      SortedCons(comp, a[0], a[1..]);
      SortedCons(comp, b[0], b[1..]);
      assert a == [a[0]] + a[1..] && b == [b[0]] + b[1..];
      if comp(b[0], a[0]) {
        var m := Merged(comp, a, b[1..]);
        MergedSorted(comp, a, b[1..]);
        MergedPermutation(comp, a, b[1..]);
        forall x | x in m ensures !comp(x, b[0]) {
          assert x in multiset(m);
        }
        SortedCons(comp, b[0], m);
      } else {
        var m := Merged(comp, a[1..], b);
        MergedSorted(comp, a[1..], b);
        MergedPermutation(comp, a[1..], b);
        forall x | x in m ensures !comp(x, a[0]) {
          assert x in multiset(m);
          if x in b && x != b[0] {
            assert x in b[1..];
            NotBeforeTransitive(comp, a[0], b[0], x);
          }
        }
        SortedCons(comp, a[0], m);
      }
    }
  }

  /** What sort(comp) leaves: the first (n + 1) / 2 values and the rest, each sorted, then merged. */
  function MergeSort<T>(comp: (T, T) -> bool, s: seq<T>): seq<T>
    decreases |s|
  {
    if |s| <= 1 then s
    else
      var h := (|s| + 1) / 2;
      Merged(comp, MergeSort(comp, s[..h]), MergeSort(comp, s[h..]))
  }

  /** MergeSort of two or more values merges the sorted halves. */
  lemma MergeSortHalves<T>(comp: (T, T) -> bool, s: seq<T>, h: nat, a: seq<T>, b: seq<T>)
    requires 2 <= |s| && h == (|s| + 1) / 2 && a == MergeSort(comp, s[..h]) && b == MergeSort(comp, s[h..])
    ensures MergeSort(comp, s) == Merged(comp, a, b)
  {
  }

  /** sort loses no value and adds none. */
  lemma {:induction false} MergeSortPermutation<T>(comp: (T, T) -> bool, s: seq<T>)
    ensures multiset(MergeSort(comp, s)) == multiset(s)
    decreases |s|
  {
    if 1 < |s| {
      var h := (|s| + 1) / 2;
      var x, y := MergeSort(comp, s[..h]), MergeSort(comp, s[h..]);
      MergeSortPermutation(comp, s[..h]);
      MergeSortPermutation(comp, s[h..]);
      MergedPermutation(comp, x, y);
      MultisetHalves(s, h);
    }
  }

  /** A sequence holds the values of its two halves together. */
  lemma MultisetHalves<T>(s: seq<T>, h: nat)
    requires h <= |s|
    ensures multiset(s) == multiset(s[..h]) + multiset(s[h..])
  {
    assert s == s[..h] + s[h..];
  }

  /** Under a strict weak order, sort leaves the values in order. */
  lemma {:induction false} MergeSortSorted<T(!new)>(comp: (T, T) -> bool, s: seq<T>)
    requires StrictWeakOrder(comp)
    ensures Sorted(comp, MergeSort(comp, s))
    decreases |s|
  {
    if 1 < |s| {
      var h := (|s| + 1) / 2;
      MergeSortSorted(comp, s[..h]);
      MergeSortSorted(comp, s[h..]);
      MergedSorted(comp, MergeSort(comp, s[..h]), MergeSort(comp, s[h..]));
    }
  }

  /**
   * The state of merge after it has passed the first `ia` values of `a`
   * and moved the first `j` values of `b`: the list holds `pfx`, the part
   * of the result built so far, and then the values of `a` not yet passed;
   * merging what is left completes the result.
   */
  ghost predicate MergeWalk<T>(comp: (T, T) -> bool, a: seq<T>, b: seq<T>, ia: nat, j: nat, pfx: seq<T>, c: seq<T>) {
    ia <= |a| && j <= |b| && c == pfx + a[ia..] && pfx + Merged(comp, a[ia..], b[j..]) == Merged(comp, a, b)
  }

  /** Moving the next value of `b` in before the walk's position. */
  lemma MergeTake<T>(comp: (T, T) -> bool, a: seq<T>, b: seq<T>, ia: nat, j: nat, pfx: seq<T>, c: seq<T>, c': seq<T>)
    requires MergeWalk(comp, a, b, ia, j, pfx, c) && j < |b|
    requires ia == |a| || comp(b[j], a[ia])
    requires c' == c[..|pfx|] + [b[j]] + c[|pfx|..]
    ensures MergeWalk(comp, a, b, ia, j + 1, pfx + [b[j]], c')
  {
    var x, y := a[ia..], b[j..];
    MergedFront(comp, x, y);
    assert y[1..] == b[j + 1..];
    assert c[..|pfx|] == pfx && c[|pfx|..] == x;
    assert pfx + [b[j]] + Merged(comp, x, y[1..]) == pfx + ([b[j]] + Merged(comp, x, y[1..]));
  }

  /** A value of `b` that goes before the first value of `a`, or meets no value of `a`, comes first in the merge. */
  lemma MergedFront<T>(comp: (T, T) -> bool, a: seq<T>, b: seq<T>)
    requires b != [] && (a == [] || comp(b[0], a[0]))
    ensures Merged(comp, a, b) == [b[0]] + Merged(comp, a, b[1..])
  {
    if a == [] {
      assert b == [b[0]] + b[1..];
    }
  }

  /** Stepping over the next value of `a`. */
  lemma MergeSkip<T>(comp: (T, T) -> bool, a: seq<T>, b: seq<T>, ia: nat, j: nat, pfx: seq<T>, c: seq<T>)
    requires MergeWalk(comp, a, b, ia, j, pfx, c) && j < |b| && ia < |a| && !comp(b[j], a[ia])
    ensures MergeWalk(comp, a, b, ia + 1, j, pfx + [a[ia]], c)
  {
    var x, y, v := a[ia..], b[j..], a[ia];
    var m := Merged(comp, a[ia + 1..], y);
    assert Merged(comp, x, y) == [v] + m by {
      assert x[1..] == a[ia + 1..];
    }
    assert (pfx + [v]) + m == pfx + ([v] + m);
    assert c == (pfx + [v]) + a[ia + 1..] by {
      assert x == [v] + a[ia + 1..];
    }
  }

  /** When `b` is used up, the list holds the merged values. */
  lemma MergeDone<T>(comp: (T, T) -> bool, a: seq<T>, b: seq<T>, ia: nat, j: nat, pfx: seq<T>, c: seq<T>)
    requires MergeWalk(comp, a, b, ia, j, pfx, c) && j == |b|
    ensures c == Merged(comp, a, b)
  {
  }

  /** In `links`, `y` comes right after `x`. */
  ghost predicate Joined<T>(links: map<ListNode<T>, Link<T>>, x: ListNode<T>, y: ListNode<T>) {
    x in links && y in links && links[x].next == y && links[y].prev == x
  }

  /** In `links`, every node of `s` but the last is followed by the next one of `s`. */
  ghost predicate Chained<T>(links: map<ListNode<T>, Link<T>>, s: seq<ListNode<T>>) {
    forall i {:trigger Joined(links, s[i], s[i + 1])} :: 0 <= i < |s| - 1 ==> Joined(links, s[i], s[i + 1])
  }

  /** A ring is a chain whose last node is followed by its first. */
  lemma RingChained<T>(r: seq<ListNode<T>>, l: map<ListNode<T>, Link<T>>)
    requires 0 < |r|
    ensures Ring(r, l) <==> Chained(l, r) && Joined(l, r[|r| - 1], r[0])
  {
    var n := |r|;
    if Ring(r, l) {
      forall i | 0 <= i < n - 1 ensures Joined(l, r[i], r[i + 1]) {
        assert LinkedAt(r, l, i) && LinkedAt(r, l, i + 1);
      }
      assert LinkedAt(r, l, n - 1) && LinkedAt(r, l, 0);
    }
    if Chained(l, r) && Joined(l, r[n - 1], r[0]) {
      forall i | 0 <= i < n ensures LinkedAt(r, l, i) {
        if i < n - 1 {
          assert Joined(l, r[i], r[i + 1]);
        }
        if 0 < i {
          var j := i - 1;
          assert Joined(l, r[j], r[j + 1]) && r[j + 1] == r[i];
        }
      }
    }
  }

  /** Two chains, the last node of the first followed by the first of the second, make one chain. */
  lemma ChainedJoin<T>(l: map<ListNode<T>, Link<T>>, x: seq<ListNode<T>>, y: seq<ListNode<T>>)
    requires 0 < |x| && 0 < |y| && Chained(l, x) && Chained(l, y) && Joined(l, x[|x| - 1], y[0])
    ensures Chained(l, x + y)
  {
    var z := x + y;
    forall i | 0 <= i < |z| - 1 ensures Joined(l, z[i], z[i + 1]) {
      if i < |x| - 1 {
        assert z[i] == x[i] && z[i + 1] == x[i + 1] && Joined(l, x[i], x[i + 1]);
      } else if i == |x| - 1 {
        assert z[i + 1] == y[0];
      } else {
        var j := i - |x|;
        assert z[i] == y[j] && z[i + 1] == y[j + 1] && Joined(l, y[j], y[j + 1]);
      }
    }
  }

  /** The record of this list with the run `run` of nodes taken over from another list, whose record is `slinks`. */
  ghost function Graft<T>(links: map<ListNode<T>, Link<T>>, slinks: map<ListNode<T>, Link<T>>, run: seq<ListNode<T>>): map<ListNode<T>, Link<T>> {
    links + map n | n in slinks && n in run :: slinks[n]
  }

  /**
   * The relinking of splice on the record: `p`, the node before the
   * position, links forward to `f`, the first node moved, and `g`, the last
   * one moved, forward to `q`, the node at the position; each back again.
   */
  ghost function SpliceIn<T>(l: map<ListNode<T>, Link<T>>, p: ListNode<T>, q: ListNode<T>, f: ListNode<T>, g: ListNode<T>): map<ListNode<T>, Link<T>> {
    var l1 := l[p := Link(f, LinkOf(l, p).prev)];
    var l2 := l1[f := Link(LinkOf(l1, f).next, p)];
    var l3 := l2[g := Link(q, LinkOf(l2, g).prev)];
    l3[q := Link(LinkOf(l3, q).next, g)]
  }

  /** Two rings sharing no node. */
  ghost predicate Apart2<X>(r: seq<X>, s: seq<X>) {
    forall n :: n in r ==> n !in s
  }

  /** The nodes of `s` from position `a + 1` to `b`, put in after position `k` of `r`, repeat no node. */
  lemma SplicedDistinct<X>(r: seq<X>, s: seq<X>, k: nat, a: nat, b: nat)
    requires Distinct(r) && Distinct(s) && Apart2(r, s) && k < |r| && a < b < |s|
    ensures Distinct(r[..k + 1] + s[a + 1..b + 1] + r[k + 1..])
  {
    var z, w := r[..k + 1] + s[a + 1..b + 1] + r[k + 1..], b - a;
    forall i, j | 0 <= i < |z| && 0 <= j < |z| && i != j ensures Apart(z, i, j) {
      var i', j' := if i <= k then i else i - w, if j <= k then j else j - w;
      if k < i <= k + w && k < j <= k + w {
        assert z[i] == s[a + i - k] && z[j] == s[a + j - k] && Apart(s, a + i - k, a + j - k);
      } else if k < i <= k + w {
        assert z[i] == s[a + i - k] && z[j] == r[j'] && r[j'] in r;
      } else if k < j <= k + w {
        assert z[j] == s[a + j - k] && z[i] == r[i'] && r[i'] in r;
      } else {
        assert z[i] == r[i'] && z[j] == r[j'] && Apart(r, i', j');
      }
    }
  }

  /** The nodes of `s` without those from position `a + 1` to `b` repeat no node. */
  lemma SplicedOutDistinct<X>(s: seq<X>, a: nat, b: nat)
    requires Distinct(s) && a < b < |s|
    ensures Distinct(s[..a + 1] + s[b + 1..])
  {
    var z, w := s[..a + 1] + s[b + 1..], b - a;
    forall i, j | 0 <= i < |z| && 0 <= j < |z| && i != j ensures Apart(z, i, j) {
      var i', j' := if i <= a then i else i + w, if j <= a then j else j + w;
      assert z[i] == s[i'] && z[j] == s[j'] && Apart(s, i', j');
    }
  }

  /**
   * What `l`, the record of splice, says of the nodes of this ring `R` and
   * of the run `S[a + 1..b + 1]`: only `p`, the node before the position,
   * links forward anew and only `q`, the node at the position, back; in
   * the run only `g`, its last node, links forward anew and only `f`, its
   * first, back.
   */
  ghost predicate SpliceRecord<T>(R: seq<ListNode<T>>, L: map<ListNode<T>, Link<T>>, S: seq<ListNode<T>>, SL: map<ListNode<T>, Link<T>>,
                                  k: nat, a: nat, b: nat, l: map<ListNode<T>, Link<T>>)
    requires k < |R| && a < b < |S|
  {
    var p, q, f, g := R[k], R[Succ(|R|, k)], S[a + 1], S[b];
    && (forall n :: n in R ==> n in l && n in L && (n != p ==> l[n].next == L[n].next) && (n != q ==> l[n].prev == L[n].prev))
    && (forall n :: n in S[a + 1..b + 1] ==> n in l && n in SL && (n != g ==> l[n].next == SL[n].next) && (n != f ==> l[n].prev == SL[n].prev))
    && Joined(l, p, f) && Joined(l, g, q)
  }

  /** The four relinkings of splice change nothing but the links they name. */
  lemma SpliceInFacts<T>(G: map<ListNode<T>, Link<T>>, p: ListNode<T>, q: ListNode<T>, f: ListNode<T>, g: ListNode<T>)
    requires p in G && q in G && f in G && g in G && p != f && p != g && q != f && q != g
    ensures var l := SpliceIn(G, p, q, f, g);
      && (forall n :: n in l <==> n in G)
      && (forall n :: n in G && n != p && n != q && n != f && n != g ==> l[n] == G[n])
      && l[p].next == f && l[f].prev == p && l[g].next == q && l[q].prev == g
      && (p != q ==> l[p].prev == G[p].prev && l[q].next == G[q].next)
      && (f != g ==> l[f].next == G[f].next && l[g].prev == G[g].prev)
  {
    var l1 := G[p := Link(f, LinkOf(G, p).prev)];
    var l2 := l1[f := Link(LinkOf(l1, f).next, p)];
    var l3 := l2[g := Link(q, LinkOf(l2, g).prev)];
    var l4 := l3[q := Link(LinkOf(l3, q).next, g)];
    assert l4 == SpliceIn(G, p, q, f, g);
    assert l3[g].next == q && l2[f].prev == p && l1[p].next == f;
  }

  /** What the grafted record holds: the links of this ring for its nodes, those of the other ring for the run. */
  lemma GraftAt<T>(R: seq<ListNode<T>>, L: map<ListNode<T>, Link<T>>, S: seq<ListNode<T>>, SL: map<ListNode<T>, Link<T>>, a: nat, b: nat)
    requires Ring(R, L) && Ring(S, SL) && Apart2(R, S) && a < b < |S|
    ensures var G := Graft(L, SL, S[a + 1..b + 1]);
      && (forall n :: n in R ==> n in L && n in G && n !in S[a + 1..b + 1] && G[n] == L[n])
      && (forall n :: n in S[a + 1..b + 1] ==> n in SL && n in G && G[n] == SL[n])
  {
    var M := S[a + 1..b + 1];
    var G := Graft(L, SL, M);
    forall n | n in R ensures n in L && n !in M && G[n] == L[n] {
      var i :| 0 <= i < |R| && R[i] == n;
      assert LinkedAt(R, L, i);
    }
    forall n | n in M ensures n in SL && G[n] == SL[n] {
      var i :| a + 1 <= i <= b && S[i] == n;
      assert LinkedAt(S, SL, i);
    }
  }

  /** The grafted and relinked record is the record of splice. */
  lemma SpliceInAt<T>(R: seq<ListNode<T>>, L: map<ListNode<T>, Link<T>>, S: seq<ListNode<T>>, SL: map<ListNode<T>, Link<T>>, k: nat, a: nat, b: nat)
    requires Ring(R, L) && Ring(S, SL) && Apart2(R, S) && k < |R| && a < b < |S|
    ensures SpliceRecord(R, L, S, SL, k, a, b, SpliceIn(Graft(L, SL, S[a + 1..b + 1]), R[k], R[Succ(|R|, k)], S[a + 1], S[b]))
  {
    var M := S[a + 1..b + 1];
    var p, q, f, g := R[k], R[Succ(|R|, k)], S[a + 1], S[b];
    var G := Graft(L, SL, M);
    GraftAt(R, L, S, SL, a, b);
    assert p in R && q in R && f in M && g in M;
    SpliceInFacts(G, p, q, f, g);
    var l := SpliceIn(G, p, q, f, g);
    forall n | n in R ensures n in l && n in L && (n != p ==> l[n].next == L[n].next) && (n != q ==> l[n].prev == L[n].prev) {
      assert n != f && n != g;
    }
    forall n | n in M ensures n in l && n in SL && (n != g ==> l[n].next == SL[n].next) && (n != f ==> l[n].prev == SL[n].prev) {
      assert n != p && n != q;
    }
    assert Joined(l, p, f) && Joined(l, g, q);
    assert SpliceRecord(R, L, S, SL, k, a, b, l);
  }

  /** Under the record of splice, the nodes of this ring up to position `k` still form a chain. */
  lemma SpliceChainHead<T>(R: seq<ListNode<T>>, L: map<ListNode<T>, Link<T>>, S: seq<ListNode<T>>, SL: map<ListNode<T>, Link<T>>,
                           k: nat, a: nat, b: nat, l: map<ListNode<T>, Link<T>>)
    requires Chained(L, R) && Distinct(R) && k < |R| && a < b < |S| && SpliceRecord(R, L, S, SL, k, a, b, l)
    ensures Chained(l, R[..k + 1])
  {
    var X := R[..k + 1];
    forall i | 0 <= i < |X| - 1 ensures Joined(l, X[i], X[i + 1]) {
      assert Joined(L, R[i], R[i + 1]) && Apart(R, i, k) && Apart(R, i + 1, Succ(|R|, k));
    }
  }

  /** Under the record of splice, the moved run still forms a chain. */
  lemma SpliceChainRun<T>(R: seq<ListNode<T>>, L: map<ListNode<T>, Link<T>>, S: seq<ListNode<T>>, SL: map<ListNode<T>, Link<T>>,
                          k: nat, a: nat, b: nat, l: map<ListNode<T>, Link<T>>)
    requires Chained(SL, S) && Distinct(S) && k < |R| && a < b < |S| && SpliceRecord(R, L, S, SL, k, a, b, l)
    ensures Chained(l, S[a + 1..b + 1])
  {
    var M := S[a + 1..b + 1];
    forall i | 0 <= i < |M| - 1 ensures Joined(l, M[i], M[i + 1]) {
      var j := a + 1 + i;
      assert M[i] == S[j] && M[i + 1] == S[j + 1];
      assert Joined(SL, S[j], S[j + 1]) && Apart(S, j, b) && Apart(S, j + 1, a + 1);
    }
  }

  /** Under the record of splice, the nodes of this ring after position `k` still form a chain, closed back to the sentinel. */
  lemma SpliceChainTail<T>(R: seq<ListNode<T>>, L: map<ListNode<T>, Link<T>>, S: seq<ListNode<T>>, SL: map<ListNode<T>, Link<T>>,
                           k: nat, a: nat, b: nat, l: map<ListNode<T>, Link<T>>)
    requires k + 1 < |R| && a < b < |S| && Chained(L, R) && Joined(L, R[|R| - 1], R[0]) && Distinct(R) && SpliceRecord(R, L, S, SL, k, a, b, l)
    ensures Chained(l, R[k + 1..]) && Joined(l, R[|R| - 1], R[0])
  {
    var Y := R[k + 1..];
    forall i | 0 <= i < |Y| - 1 ensures Joined(l, Y[i], Y[i + 1]) {
      var j := k + 1 + i;
      assert Y[i] == R[j] && Y[i + 1] == R[j + 1];
      assert Joined(L, R[j], R[j + 1]) && Apart(R, j, k) && Apart(R, j + 1, k + 1);
    }
    assert Apart(R, |R| - 1, k) && Apart(R, 0, k + 1);
  }

  /**
   * splice on the record of this list: the nodes of `S` from position
   * `a + 1` to `b` go in after position `k` of the ring, and the ring stays
   * linked.
   */
  lemma RingSpliceIn<T>(R: seq<ListNode<T>>, L: map<ListNode<T>, Link<T>>, S: seq<ListNode<T>>, SL: map<ListNode<T>, Link<T>>, k: nat, a: nat, b: nat)
    requires Ring(R, L) && Distinct(R) && Ring(S, SL) && Distinct(S) && Apart2(R, S) && k < |R| && a < b < |S|
    ensures var M := S[a + 1..b + 1];
      var l := SpliceIn(Graft(L, SL, M), R[k], R[Succ(|R|, k)], S[a + 1], S[b]);
      Ring(R[..k + 1] + M + R[k + 1..], l) && Distinct(R[..k + 1] + M + R[k + 1..])
  {
    var m, M := |R|, S[a + 1..b + 1];
    var X, Y := R[..k + 1], R[k + 1..];
    var p, q, f, g := R[k], R[Succ(m, k)], S[a + 1], S[b];
    var l := SpliceIn(Graft(L, SL, M), p, q, f, g);
    SpliceInAt(R, L, S, SL, k, a, b);
    RingChained(R, L);
    RingChained(S, SL);
    SpliceChainHead(R, L, S, SL, k, a, b, l);
    SpliceChainRun(R, L, S, SL, k, a, b, l);
    ChainedJoin(l, X, M);
    var XM := X + M;
    assert XM[|XM| - 1] == g;
    if k + 1 < m {
      SpliceChainTail(R, L, S, SL, k, a, b, l);
      ChainedJoin(l, XM, Y);
      assert XM + Y == X + M + Y;
    } else {
      assert X + M + Y == XM && R[0] == q;
    }
    RingChained(X + M + Y, l);
    SplicedDistinct(R, S, k, a, b);
  }

  /**
   * splice on the record of the list the nodes come from: the nodes from
   * position `a + 1` to `b` leave the ring, the node before them links
   * forward to the one after them and back, and the ring stays linked.
   */
  lemma RingSpliceOut<T>(S: seq<ListNode<T>>, SL: map<ListNode<T>, Link<T>>, a: nat, b: nat)
    requires Ring(S, SL) && Distinct(S) && a < b < |S|
    ensures var sl := LinkOut(SL, S[a], S[Succ(|S|, b)]);
      Ring(S[..a + 1] + S[b + 1..], sl) && Distinct(S[..a + 1] + S[b + 1..])
  {
    var s := |S|;
    var U, V := S[..a + 1], S[b + 1..];
    var sp, sn := S[a], S[Succ(s, b)];
    var sl := LinkOut(SL, sp, sn);
    RingChained(S, SL);
    assert LinkedAt(S, SL, a) && LinkedAt(S, SL, Succ(s, b));
    forall i | 0 <= i < |U| - 1 ensures Joined(sl, U[i], U[i + 1]) {
      assert Joined(SL, S[i], S[i + 1]) && Apart(S, i, a) && Apart(S, i + 1, Succ(s, b));
    }
    if b + 1 < s {
      forall i | 0 <= i < |V| - 1 ensures Joined(sl, V[i], V[i + 1]) {
        var j := b + 1 + i;
        assert V[i] == S[j] && V[i + 1] == S[j + 1];
        assert Joined(SL, S[j], S[j + 1]) && Apart(S, j, a) && Apart(S, j + 1, b + 1);
      }
      ChainedJoin(sl, U, V);
      assert Joined(SL, S[s - 1], S[0]) && Apart(S, s - 1, a) && Apart(S, 0, b + 1);
    } else {
      assert U + V == U && S[0] == sn;
    }
    RingChained(U + V, sl);
    SplicedOutDistinct(S, a, b);
  }

  /** The values of the moved nodes go in after position `k` of the contents. */
  lemma HoldingSpliceIn<T>(R: seq<ListNode<T>>, C: seq<T>, S: seq<ListNode<T>>, B: seq<T>, k: nat, a: nat, b: nat)
    requires Holding(R, C) && Holding(S, B) && k <= |C| && a < b <= |B|
    ensures Holding(R[..k + 1] + S[a + 1..b + 1] + R[k + 1..], C[..k] + B[a..b] + C[k..])
  {
    var z, c, w := R[..k + 1] + S[a + 1..b + 1] + R[k + 1..], C[..k] + B[a..b] + C[k..], b - a;
    forall i | 0 < i < |z| ensures z[i].value == Some(c[i - 1]) {
      if i <= k {
        assert z[i] == R[i] && c[i - 1] == C[i - 1];
      } else if i <= k + w {
        assert z[i] == S[a + i - k] && c[i - 1] == B[a + i - k - 1];
      } else {
        assert z[i] == R[i - w] && c[i - 1] == C[i - w - 1];
      }
    }
  }

  /** The values of the moved nodes leave the contents of the list they come from. */
  lemma HoldingSpliceOut<T>(S: seq<ListNode<T>>, B: seq<T>, a: nat, b: nat)
    requires Holding(S, B) && a < b <= |B|
    ensures Holding(S[..a + 1] + S[b + 1..], B[..a] + B[b..])
  {
    var z, c, w := S[..a + 1] + S[b + 1..], B[..a] + B[b..], b - a;
    forall i | 0 < i < |z| ensures z[i].value == Some(c[i - 1]) {
      if i <= a {
        assert z[i] == S[i] && c[i - 1] == B[i - 1];
      } else {
        assert z[i] == S[i + w] && c[i - 1] == B[i + w - 1];
      }
    }
  }

  /** Where the nodes of the two rings of splice come from: no node is made, lost, or left in both. */
  lemma SplicedMembers<X>(R: seq<X>, S: seq<X>, k: nat, a: nat, b: nat)
    requires Distinct(S) && Apart2(R, S) && k < |R| && a < b < |S|
    ensures var R', S' := R[..k + 1] + S[a + 1..b + 1] + R[k + 1..], S[..a + 1] + S[b + 1..];
      && (forall n :: n in R' <==> n in R || n in S[a + 1..b + 1])
      && (forall n :: n in S' ==> n in S && n !in S[a + 1..b + 1])
      && Apart2(R', S')
      && (forall n :: n in R' || n in S' <==> n in R || n in S)
  {
    var M, R', S' := S[a + 1..b + 1], R[..k + 1] + S[a + 1..b + 1] + R[k + 1..], S[..a + 1] + S[b + 1..];
    assert R == R[..k + 1] + R[k + 1..];
    assert S == S[..a + 1] + M + S[b + 1..];
    forall n | n in S' ensures n !in M {
      var i :| 0 <= i < |S'| && S'[i] == n;
      var i' := if i <= a then i else i + (b - a);
      assert S'[i] == S[i'];
      forall j | a + 1 <= j <= b ensures S[j] != n {
        assert Apart(S, i', j);
      }
    }
  }

  /**
   * The footprints of the two lists after splice: disjoint, together the
   * nodes the two had before, and no node the run leaves behind is in the
   * receiving ring or at an end of the run.
   */
  lemma SplicedFootprints<X>(R: seq<X>, S: seq<X>, k: nat, a: nat, b: nat)
    requires Distinct(S) && Apart2(R, S) && k < |R| && a < b < |S|
    ensures var R', S' := R[..k + 1] + S[a + 1..b + 1] + R[k + 1..], S[..a + 1] + S[b + 1..];
      && (set n | n in R') !! (set n | n in S')
      && (set n | n in R') + (set n | n in S') == (set n | n in R) + (set n | n in S)
      && (forall i | 0 <= i < |S'| :: S'[i] !in R && S'[i] != S[a + 1] && S'[i] != S[b])
  {
    var M, R', S' := S[a + 1..b + 1], R[..k + 1] + S[a + 1..b + 1] + R[k + 1..], S[..a + 1] + S[b + 1..];
    SplicedMembers(R, S, k, a, b);
    assert M[0] == S[a + 1] && M[b - a - 1] == S[b];
    forall i | 0 <= i < |S'| ensures S'[i] !in R && S'[i] != S[a + 1] && S'[i] != S[b] {
      assert S'[i] in S';
    }
  }

  /**
   * The heap side of splice on the receiving list: once `p` and `q` are
   * linked to the run from `f` to `g`, and every other node of the new ring
   * `r` has the links the grafted record `G` gives it, the heap mirrors the
   * record of splice.
   */
  lemma SpliceMirrors<T>(r: seq<ListNode<T>>, G: map<ListNode<T>, Link<T>>, p: ListNode<T>, q: ListNode<T>, f: ListNode<T>, g: ListNode<T>)
    requires p in G && q in G && f in G && g in G && p != f && p != g && q != f && q != g
    requires forall n :: n in r && n != p && n != q && n != f && n != g ==> Mirrored(n, G)
    requires p.next == f && f.prev == p && g.next == q && q.prev == g
    requires p != q ==> p.prev == G[p].prev && q.next == G[q].next
    requires f != g ==> f.next == G[f].next && g.prev == G[g].prev
    ensures MirrorsAll(r, SpliceIn(G, p, q, f, g))
  {
    var l := SpliceIn(G, p, q, f, g);
    SpliceInFacts(G, p, q, f, g);
    forall i | 0 <= i < |r| ensures Mirrored(r[i], l) {
      var n := r[i];
      if n != p && n != q && n != f && n != g {
        assert Mirrored(n, G);
      }
    }
  }

  /**
   * The heap side of splice on the list the run leaves: once `sp` and `sn`
   * are linked to each other, and every other node of the new ring `r` has
   * its recorded links, the heap mirrors the record with the run cut out.
   */
  lemma SpliceOutMirrors<T>(r: seq<ListNode<T>>, SL: map<ListNode<T>, Link<T>>, sp: ListNode<T>, sn: ListNode<T>)
    requires sp in SL && sn in SL
    requires forall n :: n in r && n != sp && n != sn ==> Mirrored(n, SL)
    requires sp.next == sn && sn.prev == sp
    requires sp != sn ==> sp.prev == SL[sp].prev && sn.next == SL[sn].next
    ensures MirrorsAll(r, LinkOut(SL, sp, sn))
  {
    var l := LinkOut(SL, sp, sn);
    forall i | 0 <= i < |r| ensures Mirrored(r[i], l) {
      var n := r[i];
      if n != sp && n != sn {
        assert Mirrored(n, SL);
      }
    }
  }

  /**
   * The six link writes of splice(position, src, first, last) as written,
   * applied in the source's order to a record of links; every pointer is
   * read before the first write.  Nothing guards the empty range
   * (`first == last`).
   */
  ghost function SpliceLinksAsWritten<T>(L: map<ListNode<T>, Link<T>>, position: ListNode<T>, first: ListNode<T>, last: ListNode<T>): map<ListNode<T>, Link<T>>
    requires LinkOf(L, first).prev != null && LinkOf(L, position).prev != null && LinkOf(L, last).prev != null
  {
    var srcPrev, srcNext := LinkOf(L, first).prev, last;
    var thisPrev, thisNext := LinkOf(L, position).prev, position;
    var firstNode, lastNode := first, LinkOf(L, last).prev;
    var l1 := L[srcPrev := Link(srcNext, LinkOf(L, srcPrev).prev)];
    var l2 := l1[srcNext := Link(LinkOf(l1, srcNext).next, srcPrev)];
    var l3 := l2[thisPrev := Link(firstNode, LinkOf(l2, thisPrev).prev)];
    var l4 := l3[firstNode := Link(LinkOf(l3, firstNode).next, thisPrev)];
    var l5 := l4[thisNext := Link(LinkOf(l4, thisNext).next, lastNode)];
    l5[lastNode := Link(thisNext, LinkOf(l5, lastNode).prev)]
  }

  /**
   * splice(position, src) as written, with an empty `src` spliced into an
   * empty list: `first` and `last` are both `src`'s sentinel `e2`, and the
   * writes link `e2` in after this list's sentinel `e1`.  This list's ring
   * becomes [e1, e2]: begin() is `src`'s sentinel and its successor is
   * end(), so the list has one element, the value of `src`'s sentinel.  In
   * the source that value is the default `T()` of _createEndNode; with a
   * sentinel holding some `d` the list holds exactly [d], and with the
   * model's value-less sentinel no contents describe it.  `src`'s ring now
   * runs through this list's sentinel, no longer closing on itself.
   */
  lemma SpliceEmptyAsWritten<T>(e1: ListNode<T>, e2: ListNode<T>)
    requires e1 != e2
    ensures var r := SpliceLinksAsWritten(map[e1 := Link(e1, e1), e2 := Link(e2, e2)], e1, e2, e2);
      && Ring([e1, e2], r) && !Ring([e2], r)
      && r[e1].next == e2 && r[e2].next == e1 && r[e2].prev == e1
    ensures e2.value.Some? ==> Holding([e1, e2], [e2.value.value])
    ensures e2.value == None ==> forall c: seq<T> :: !Holding([e1, e2], c)
  {
    var r := SpliceLinksAsWritten(map[e1 := Link(e1, e1), e2 := Link(e2, e2)], e1, e2, e2);
    assert r[e1] == Link(e2, e2) && r[e2] == Link(e1, e1);
    assert LinkedAt([e1, e2], r, 0) && LinkedAt([e1, e2], r, 1);
    assert !LinkedAt([e2], r, 0);
    if e2.value == None {
      forall c: seq<T> ensures !Holding([e1, e2], c) {
        if |c| + 1 == 2 {
          assert [e1, e2][1].value != Some(c[0]);
        }
      }
    }
  }

  /**
   * The two link writes of splice on the list the run leaves: `sp` and
   * `sn`, on either side of the run, are linked to each other.  Given that
   * the heap mirrored `G` along the new ring `r`, it then mirrors the record
   * with the run cut out.
   */
  method DetachLinks<T>(sp: ListNode<T>, sn: ListNode<T>, ghost r: seq<ListNode<T>>, ghost G: map<ListNode<T>, Link<T>>)
    requires sp in r && sn in r
    requires forall n :: n in r ==> Mirrored(n, G)
    modifies sp, sn
    ensures sp.next == sn && sn.prev == sp
    ensures MirrorsAll(r, LinkOut(G, sp, sn))
  {
    assert Mirrored(sp, G) && Mirrored(sn, G);
    sp.next := sn;
    sn.prev := sp;
    SpliceOutMirrors(r, G, sp, sn);
  }

  /**
   * The four link writes of splice on the receiving list: the run from `f`
   * to `g` is linked in between `p` and `q`.  Given that the heap mirrored
   * `G` along the new ring `r`, it then mirrors the record of splice.
   */
  method AttachLinks<T>(p: ListNode<T>, q: ListNode<T>, f: ListNode<T>, g: ListNode<T>, ghost r: seq<ListNode<T>>, ghost G: map<ListNode<T>, Link<T>>)
    requires p != f && p != g && q != f && q != g
    requires p in r && q in r && f in r && g in r
    requires forall n :: n in r ==> Mirrored(n, G)
    modifies p, q, f, g
    ensures p.next == f && f.prev == p && q.prev == g && g.next == q
    ensures MirrorsAll(r, SpliceIn(G, p, q, f, g))
  {
    assert Mirrored(p, G) && Mirrored(q, G) && Mirrored(f, G) && Mirrored(g, G);
    p.next := f;
    f.prev := p;
    q.prev := g;
    g.next := q;
    SpliceMirrors(r, G, p, q, f, g);
  }

  /**
   * The two nodes around the run cut out of `S` at positions `a` and `b`
   * stay in the new ring, and the nodes of the run are neither of them.
   */
  lemma DetachNodes<X>(S: seq<X>, a: nat, b: nat)
    requires Distinct(S) && a < b < |S|
    ensures var S', sp, sn := S[..a + 1] + S[b + 1..], S[a], S[Succ(|S|, b)];
      && sp in S' && sn in S' && (forall n :: n in S' ==> n in S)
      && (forall i | a + 1 <= i <= b :: S[i] != sp && S[i] != sn)
  {
    var S', bn := S[..a + 1] + S[b + 1..], Succ(|S|, b);
    assert S'[a] == S[a];
    assert S[bn] in S' by {
      if bn == 0 { assert S'[0] == S[bn]; } else { assert S'[a + 1] == S[bn]; }
    }
    forall n | n in S' ensures n in S {
      var i :| 0 <= i < |S'| && S'[i] == n;
      assert S'[i] == S[if i <= a then i else i + (b - a)];
    }
    forall i | a + 1 <= i <= b ensures S[i] != S[a] && S[i] != S[bn] {
      assert Apart(S, i, a) && Apart(S, i, bn);
    }
  }

  /**
   * The nodes `p` and `q` around position `k` of `R`, and the ends `f` and
   * `g` of the run of `S` from position `a + 1` to `b`, are distinct and all
   * in the new ring.
   */
  lemma AttachNodes<X>(R: seq<X>, S: seq<X>, k: nat, a: nat, b: nat)
    requires Distinct(S) && Apart2(R, S) && k < |R| && a < b < |S|
    ensures var R', p, q, f, g := R[..k + 1] + S[a + 1..b + 1] + R[k + 1..], R[k], R[Succ(|R|, k)], S[a + 1], S[b];
      && p != f && p != g && q != f && q != g
      && p in R' && q in R' && f in R' && g in R'
      && (forall n :: n in R' <==> n in R || n in S[a + 1..b + 1])
  {
    var M := S[a + 1..b + 1];
    SplicedMembers(R, S, k, a, b);
    assert M[0] == S[a + 1] && M[b - a - 1] == S[b];
    assert R[k] in R && R[Succ(|R|, k)] in R && S[a + 1] in S && S[b] in S;
  }

  /**
   * Before splice relinks anything, the heap mirrors the grafted record
   * along the new receiving ring: the receiving list's own nodes keep its
   * record and the run's nodes the record of the list they come from.
   */
  lemma GraftMirrors<T>(R: seq<ListNode<T>>, L: map<ListNode<T>, Link<T>>, S: seq<ListNode<T>>, SL: map<ListNode<T>, Link<T>>, k: nat, a: nat, b: nat)
    requires Ring(R, L) && Ring(S, SL) && MirrorsAll(R, L) && Distinct(S) && Apart2(R, S) && k < |R| && a < b < |S|
    requires forall i | a + 1 <= i <= b :: Mirrored(S[i], SL)
    ensures var M := S[a + 1..b + 1];
      forall n :: n in R[..k + 1] + M + R[k + 1..] ==> Mirrored(n, Graft(L, SL, M))
  {
    var M := S[a + 1..b + 1];
    var G := Graft(L, SL, M);
    SplicedMembers(R, S, k, a, b);
    GraftAt(R, L, S, SL, a, b);
    forall n | n in R || n in M ensures Mirrored(n, G) {
      if n in R {
        var i :| 0 <= i < |R| && R[i] == n;
        assert Mirrored(R[i], L);
      } else {
        var i :| a + 1 <= i <= b && S[i] == n;
        assert Mirrored(S[i], SL);
      }
    }
  }

  /**
   * The node at position `m` of the ring `src` of the list merge takes
   * from: it is not yet in this list's ring and still links forward to its
   * successor in `src`.
   */
  ghost predicate PendingAt<T>(src: seq<ListNode<T>>, m: nat, ring: seq<ListNode<T>>)
    requires m < |src|
    reads src[m]
  {
    src[m] !in ring && src[m].next == Position(src, m)
  }

  /** Every node of `src` after position `j` is pending. */
  ghost predicate Pending<T>(src: seq<ListNode<T>>, j: nat, ring: seq<ListNode<T>>)
    reads set n | n in src
  {
    forall m {:trigger PendingAt(src, m, ring)} :: j < m < |src| ==> PendingAt(src, m, ring)
  }

  class List<T(==, !new)> {
    /** The sentinel, `_last` in the source. */
    var last: ListNode<T>
    /** The sentinel followed by the element nodes in order. */
    ghost var ring: seq<ListNode<T>>
    /** The links of the ring's nodes. */
    ghost var links: map<ListNode<T>, Link<T>>
    ghost var contents: seq<T>

    ghost function Repr(): set<object>
      reads this
    {
      set n | n in ring
    }

    /** The node at position `k`: the k-th element node, or the sentinel at position |contents|. */
    ghost function At(k: nat): ListNode<T>
      reads this
      requires 0 < |ring|
    {
      Position(ring, k)
    }

    /** The heap links of the ring's nodes are those recorded. */
    ghost predicate Mirrors()
      reads this, Repr()
    {
      MirrorsAll(ring, links)
    }

    ghost predicate Valid()
      reads this, Repr()
    {
      Shaped(last, ring, links, contents) && Mirrors()
    }

    /** The default constructor: _createEndNode, a sentinel linked to itself. */
    constructor ()
      ensures Valid() && contents == [] && fresh(Repr())
    {
      var e := new ListNode(None);
      e.next, e.prev := e, e;
      last := e;
      ring, contents := [e], [];
      links := map[e := Link(e, e)];
    }

    /** The fill constructor: an empty list, then insert(end(), n, val). */
    constructor Fill(n: nat, v: T)
      ensures Valid() && contents == Repeat(v, n) && fresh(Repr())
    {
      var e := new ListNode(None);
      e.next, e.prev := e, e;
      last := e;
      ring, contents := [e], [];
      links := map[e := Link(e, e)];
      new;
      InsertFill(last, 0, n, v);
    }

    /** The range constructor: an empty list, then insert(end(), first, last) of the values `vs`. */
    constructor FromRange(vs: seq<T>)
      ensures Valid() && contents == vs && fresh(Repr())
    {
      var e := new ListNode(None);
      e.next, e.prev := e, e;
      last := e;
      ring, contents := [e], [];
      links := map[e := Link(e, e)];
      new;
      InsertRange(last, 0, vs);
    }

    /**
     * insert(position, val): a new node goes in just before `position`, the
     * node at position `k`, and is returned; every other node keeps its
     * place relative to the rest.
     */
    method Insert(position: ListNode<T>, ghost k: nat, v: T) returns (r: ListNode<T>)
      requires Valid() && k <= |contents| && position == At(k)
      modifies this, Repr()
      ensures Valid() && last == old(last) && fresh(r) && fresh(Repr() - old(Repr()))
      ensures ring == old(ring)[..k + 1] + [r] + old(ring)[k + 1..]
      ensures contents == old(contents)[..k] + [v] + old(contents)[k..]
      ensures r == At(k) && position == At(k + 1)
    {
      r := new ListNode(Some(v));
      LinkBefore(position, k, r, v);
    }

    /**
     * The relinking of insert(position, val) and _insertNodeBefore: `n`,
     * holding `v`, goes in between `position`, the node at position `k`,
     * and the node before it.
     */
    method LinkBefore(position: ListNode<T>, ghost k: nat, n: ListNode<T>, ghost v: T)
      requires Valid() && k <= |contents| && position == At(k)
      requires n !in ring && n.value == Some(v)
      modifies this, Repr(), n
      ensures Valid() && last == old(last)
      ensures ring == old(ring)[..k + 1] + [n] + old(ring)[k + 1..]
      ensures contents == old(contents)[..k] + [v] + old(contents)[k..]
      ensures n == At(k) && position == At(k + 1)
    {
      ghost var R, C, L := ring, contents, links;
      var p := position.prev;
      ghost var q := Succ(|R|, k);
      assert position == R[q] && Mirrored(position, L) && LinkedAt(R, L, q);
      assert p == R[k] && Mirrored(p, L);
      ghost var R', L', C' := R[..k + 1] + [n] + R[k + 1..], LinkBetween(L, p, position, n), C[..k] + [v] + C[k..];
      RingInsert(R, L, k, n);
      HoldingInsert(R, C, k, n, v);
      InsertNodeBefore(position, n);
      ring, links, contents := R', L', C';
      forall i | 0 <= i < |R| && R[i] != p && R[i] != position ensures Mirrored(R[i], L) {
        assert old(Mirrored(R[i], L));
      }
      LinkMirrors(R, L, k, n);
    }

    /**
     * erase(position): the element at position `k`, held by `position`,
     * leaves the list, and the node that followed it is returned.
     */
    method Erase(position: ListNode<T>, ghost k: nat) returns (r: ListNode<T>)
      requires Valid() && k < |contents| && position == At(k)
      modifies this, Repr()
      ensures Valid() && last == old(last)
      ensures ring == old(ring)[..k + 1] + old(ring)[k + 2..] && Repr() <= old(Repr())
      ensures contents == old(contents)[..k] + old(contents)[k + 1..]
      ensures r == At(k)
    {
      ghost var R, C, L := ring, contents, links;
      ghost var e, qi := k + 1, Succ(|R|, k + 1);
      assert position == R[e] && Mirrored(position, L) && LinkedAt(R, L, e);
      assert Mirrored(R[k], L) && Mirrored(R[qi], L);
      r := position.next;
      ghost var R', L', C' := R[..e] + R[e + 1..], LinkOut(L, R[k], R[qi]), C[..k] + C[k + 1..];
      RingRemove(R, L, e);
      HoldingRemove(R, C, e);
      UnlinkNode(position);
      ring, links, contents := R', L', C';
      forall i | 0 <= i < |R| && R[i] != R[k] && R[i] != R[qi] ensures Mirrored(R[i], L) {
        assert old(Mirrored(R[i], L));
      }
      UnlinkMirrors(R, L, e);
    }

    /** The node at position `k` links forward to the one at position `k + 1` and back to the one at `k - 1`, circularly. */
    lemma AtLinks(k: nat)
      requires Valid() && k <= |contents|
      ensures At(k).next == At(if k < |contents| then k + 1 else 0)
      ensures At(k).prev == At(if 0 < k then k - 1 else |contents|)
    {
      var i := Succ(|ring|, k);
      assert At(k) == ring[i] && Mirrored(ring[i], links) && LinkedAt(ring, links, i);
    }

    /** Different positions hold different nodes. */
    lemma AtInjective(a: nat, b: nat)
      requires Valid() && a <= |contents| && b <= |contents|
      ensures At(a) == At(b) <==> a == b
    {
      if a != b {
        assert Apart(ring, Succ(|ring|, a), Succ(|ring|, b));
      }
    }

    /** The node at position `k` is the sentinel exactly at the end, and holds the `k`-th value before it. */
    lemma AtValue(k: nat)
      requires Valid() && k <= |contents|
      ensures At(k) == last <==> k == |contents|
      ensures k < |contents| ==> At(k).value == Some(contents[k])
    {
      AtInjective(k, |contents|);
      if k < |contents| {
        assert At(k) == ring[k + 1];
      }
    }

    /** begin(): the node of the first element, the sentinel when the list is empty. */
    function Begin(): (r: ListNode<T>)
      requires Valid()
      reads this, Repr()
      ensures r == At(0)
    {
      AtLinks(|contents|);
      last.next
    }

    /** end(): the sentinel, at position |contents|. */
    function End(): (r: ListNode<T>)
      requires Valid()
      reads this, Repr()
      ensures r == At(|contents|)
    {
      last
    }

    /** empty(): the sentinel links to itself exactly when there is no element. */
    function Empty(): (b: bool)
      requires Valid()
      reads this, Repr()
      ensures b <==> contents == []
    {
      AtLinks(|contents|);
      AtInjective(0, |contents|);
      last.next == last
    }

    /** front(): the first element. */
    function Front(): (r: T)
      requires Valid() && contents != []
      reads this, Repr()
      ensures r == contents[0]
    {
      AtLinks(|contents|);
      last.next.value.value
    }

    /** back(): the last element. */
    function Back(): (r: T)
      requires Valid() && contents != []
      reads this, Repr()
      ensures r == contents[|contents| - 1]
    {
      AtLinks(|contents|);
      last.prev.value.value
    }

    /** size(): the nodes from the first one up to the sentinel are counted. */
    method Size() returns (size: nat)
      requires Valid()
      ensures size == |contents|
    {
      size := 0;
      var node := last.next;
      AtLinks(|contents|);
      while node != last
        invariant size <= |contents| && node == At(size)
        decreases |contents| - size
      {
        AtInjective(size, |contents|);
        AtLinks(size);
        size := size + 1;
        node := node.next;
      }
      AtInjective(size, |contents|);
    }

    /** clear(): the sentinel links to itself again; the nodes are released. */
    method Clear()
      requires last.value == None
      modifies this, last
      ensures Valid() && last == old(last) && contents == [] && ring == [last]
    {
      last.next, last.prev := last, last;
      ring, links, contents := [last], map[last := Link(last, last)], [];
      assert Distinct(ring) && Ring(ring, links) && Holding(ring, contents) && MirrorsAll(ring, links);
    }

    /** swap(src): the two lists exchange their sentinels, and so their elements. */
    method Swap(src: List<T>)
      requires Valid() && src.Valid()
      modifies this, src
      ensures Valid() && src.Valid()
      ensures last == old(src.last) && src.last == old(last)
      ensures contents == old(src.contents) && src.contents == old(contents)
      ensures ring == old(src.ring) && src.ring == old(ring)
    {
      var tmp := last;
      ghost var r, l, c := ring, links, contents;
      last, ring, links, contents := src.last, src.ring, src.links, src.contents;
      src.last, src.ring, src.links, src.contents := tmp, r, l, c;
    }

    /** push_front(val): `v` goes in before the first element. */
    method PushFront(v: T)
      requires Valid()
      modifies this, Repr()
      ensures Valid() && last == old(last) && fresh(Repr() - old(Repr()))
      ensures contents == [v] + old(contents)
    {
      var position := Begin();
      var r := Insert(position, 0, v);
    }

    /** push_back(val): `v` goes in before the sentinel. */
    method PushBack(v: T)
      requires Valid()
      modifies this, Repr()
      ensures Valid() && last == old(last) && fresh(Repr() - old(Repr()))
      ensures contents == old(contents) + [v]
    {
      var r := Insert(last, |contents|, v);
    }

    /** pop_front(): the first element is erased. */
    method PopFront()
      requires Valid() && contents != []
      modifies this, Repr()
      ensures Valid() && last == old(last) && Repr() <= old(Repr())
      ensures contents == old(contents)[1..]
    {
      var position := Begin();
      var r := Erase(position, 0);
    }

    /** pop_back(): the node before the sentinel is erased. */
    method PopBack()
      requires Valid() && contents != []
      modifies this, Repr()
      ensures Valid() && last == old(last) && Repr() <= old(Repr())
      ensures contents == old(contents)[..|old(contents)| - 1]
    {
      AtLinks(|contents|);
      var position := last.prev;
      var r := Erase(position, |contents| - 1);
    }

    /** insert(position, n, val): `n` copies of `v` go in, one at a time, before `position`, the node at position `k`. */
    method InsertFill(position: ListNode<T>, ghost k: nat, n: nat, v: T)
      requires Valid() && k <= |contents| && position == At(k)
      modifies this, Repr()
      ensures Valid() && last == old(last) && fresh(Repr() - old(Repr()))
      ensures contents == old(contents)[..k] + Repeat(v, n) + old(contents)[k..]
      ensures position == At(k + n)
    {
      ghost var C := contents;
      var i := 0;
      while i < n
        invariant i <= n && Valid() && last == old(last) && fresh(Repr() - old(Repr()))
        invariant contents == C[..k] + Repeat(v, n)[..i] + C[k..] && position == At(k + i)
      {
        var r := Insert(position, k + i, v);
        InsertedOneMore(C, k, Repeat(v, n), i);
        assert Repeat(v, n)[..i + 1] == Repeat(v, i + 1);
        i := i + 1;
      }
    }

    /** insert(position, first, last): the values `vs` go in, in order, before `position`, the node at position `k`. */
    method InsertRange(position: ListNode<T>, ghost k: nat, vs: seq<T>)
      requires Valid() && k <= |contents| && position == At(k)
      modifies this, Repr()
      ensures Valid() && last == old(last) && fresh(Repr() - old(Repr()))
      ensures contents == old(contents)[..k] + vs + old(contents)[k..]
      ensures position == At(k + |vs|)
    {
      ghost var C := contents;
      var i := 0;
      while i < |vs|
        invariant i <= |vs| && Valid() && last == old(last) && fresh(Repr() - old(Repr()))
        invariant contents == C[..k] + vs[..i] + C[k..] && position == At(k + i)
      {
        var r := Insert(position, k + i, vs[i]);
        InsertedOneMore(C, k, vs, i);
        i := i + 1;
      }
    }

    /**
     * erase(first, last): the elements from position `i`, held by `first`,
     * up to position `j`, held by `stop`, are erased one at a time; `stop`
     * is returned.
     */
    method EraseRange(first: ListNode<T>, ghost i: nat, stop: ListNode<T>, ghost j: nat) returns (r: ListNode<T>)
      requires Valid() && i <= j <= |contents| && first == At(i) && stop == At(j)
      modifies this, Repr()
      ensures Valid() && last == old(last) && Repr() <= old(Repr())
      ensures contents == old(contents)[..i] + old(contents)[j..]
      ensures r == stop && r == At(i)
    {
      ghost var C := contents;
      ghost var t := 0;
      var it := first;
      while it != stop
        invariant t <= j - i && Valid() && last == old(last) && Repr() <= old(Repr())
        invariant contents == C[..i] + C[i + t..] && it == At(i) && stop == At(j - t)
        decreases j - i - t
      {
        AtInjective(i, j - t);
        ghost var R := ring;
        it := Erase(it, i);
        ErasedOneMore(C, i, t);
        PositionRemoved(R, i + 1, j - t);
        assert ring == R[..i + 1] + R[i + 2..];
        assert stop == Position(R, j - t);
        assert stop == Position(ring, j - t - 1);
        t := t + 1;
      }
      AtInjective(i, j - t);
      assert t == j - i;
      r := it;
    }

    /** resize(n, val): the list is cut down to `n` elements from the back, or filled up with copies of `v`. */
    method Resize(n: nat, v: T)
      requires Valid()
      modifies this, Repr()
      ensures Valid() && last == old(last)
      ensures contents == if n <= |old(contents)| then old(contents)[..n] else old(contents) + Repeat(v, n - |old(contents)|)
    {
      ghost var C := contents;
      var s := Size();
      if n < s {
        var i := 0;
        while i < s - n
          invariant i <= s - n && Valid() && last == old(last) && Repr() <= old(Repr())
          invariant contents == C[..s - i]
        {
          PopBack();
          i := i + 1;
        }
      } else if n > s {
        InsertFill(last, s, n - s, v);
      }
    }

    /** assign(n, val): the list is cleared, then filled with `n` copies of `v`. */
    method AssignFill(n: nat, v: T)
      requires Valid()
      modifies this, Repr()
      ensures Valid() && last == old(last) && contents == Repeat(v, n)
    {
      Clear();
      InsertFill(last, 0, n, v);
    }

    /** assign(first, last): the list is cleared, then holds the values `vs`. */
    method AssignRange(vs: seq<T>)
      requires Valid()
      modifies this, Repr()
      ensures Valid() && last == old(last) && contents == vs
    {
      Clear();
      InsertRange(last, 0, vs);
    }

    /**
     * insert(position, first, last) over the nodes of another list `x`: the
     * values from its position `a`, held by `first`, up to its position `b`,
     * held by `stop`, go in, in order, before `position`, the node at
     * position `k`.
     */
    method InsertFrom(position: ListNode<T>, ghost k: nat, x: List<T>, first: ListNode<T>, ghost a: nat, stop: ListNode<T>, ghost b: nat)
      requires Valid() && k <= |contents| && position == At(k)
      requires x.Valid() && x != this && Repr() !! x.Repr()
      requires a <= b <= |x.contents| && first == x.At(a) && stop == x.At(b)
      modifies this, Repr()
      ensures Valid() && last == old(last) && fresh(Repr() - old(Repr())) && Repr() !! x.Repr()
      ensures contents == old(contents)[..k] + x.contents[a..b] + old(contents)[k..]
      ensures position == At(k + (b - a))
    {
      ghost var C, X := contents, x.contents[a..b];
      var node := first;
      ghost var i := 0;
      while node != stop
        invariant i <= b - a && Valid() && last == old(last) && fresh(Repr() - old(Repr())) && Repr() !! x.Repr()
        invariant x.Valid() && x.contents == old(x.contents) && node == x.At(a + i)
        invariant contents == C[..k] + X[..i] + C[k..] && position == At(k + i)
        decreases b - a - i
      {
        x.AtInjective(a + i, b);
        assert X[i] == x.contents[a + i];
        node := InsertCopy(position, k + i, x, node, a + i);
        InsertedOneMore(C, k, X, i);
        i := i + 1;
      }
      x.AtInjective(a + i, b);
      assert X[..i] == X;
    }

    /** The step of InsertFrom: the value of `node`, at position `j` of `x`, goes in before `position`. */
    method InsertCopy(position: ListNode<T>, ghost k: nat, x: List<T>, node: ListNode<T>, ghost j: nat) returns (next: ListNode<T>)
      requires Valid() && k <= |contents| && position == At(k)
      requires x.Valid() && x != this && Repr() !! x.Repr() && j < |x.contents| && node == x.At(j)
      modifies this, Repr()
      ensures Valid() && last == old(last) && fresh(Repr() - old(Repr())) && Repr() !! x.Repr()
      ensures contents == old(contents)[..k] + [x.contents[j]] + old(contents)[k..] && position == At(k + 1)
      ensures next == x.At(j + 1)
    {
      x.AtLinks(j);
      assert node == x.ring[j + 1];
      var r := Insert(position, k, node.value.value);
      next := node.next;
    }

    /** The copy constructor: an empty list, then insert(end(), x.begin(), x.end()). */
    constructor Copy(x: List<T>)
      requires x.Valid()
      ensures Valid() && contents == x.contents && fresh(Repr())
    {
      var e := new ListNode(None);
      e.next, e.prev := e, e;
      last := e;
      ring, contents := [e], [];
      links := map[e := Link(e, e)];
      new;
      var first := x.Begin();
      InsertFrom(last, 0, x, first, 0, x.last, |x.contents|);
    }

    /**
     * operator=: unless `other` is this list, the list is cleared and then
     * receives the values of `other`.
     */
    method Assign(other: List<T>)
      requires Valid() && other.Valid() && (other == this || Repr() !! other.Repr())
      modifies this, Repr()
      ensures Valid() && last == old(last) && contents == old(other.contents)
    {
      if this == other {
        return;
      }
      Clear();
      var first := other.Begin();
      InsertFrom(last, 0, other, first, 0, other.last, |other.contents|);
    }

    /**
     * The step of the walks of remove_if and unique: the node at position
     * `i` is erased when `drop` holds and stepped over otherwise; either way
     * the walk goes on from the node that followed it.
     */
    method EraseOrSkip(it: ListNode<T>, ghost i: nat, drop: bool) returns (r: ListNode<T>)
      requires Valid() && i < |contents| && it == At(i)
      modifies this, Repr()
      ensures Valid() && last == old(last) && Repr() <= old(Repr())
      ensures drop ==> contents == old(contents)[..i] + old(contents)[i + 1..] && r == At(i)
      ensures !drop ==> contents == old(contents) && r == At(i + 1)
    {
      if drop {
        r := Erase(it, i);
      } else {
        AtLinks(i);
        r := it.next;
      }
    }

    /**
     * remove_if(pred): the nodes are visited in order and those whose value
     * `pred` selects are erased.
     */
    method RemoveIf(pred: T -> bool)
      requires Valid()
      modifies this, Repr()
      ensures Valid() && last == old(last) && Repr() <= old(Repr())
      ensures contents == Kept(pred, old(contents))
    {
      ghost var C := contents;
      ghost var t, i := 0, 0;
      var it := Begin();
      while it != last
        invariant Valid() && last == old(last) && Repr() <= old(Repr())
        invariant KeptWalk(pred, C, t, i, contents) && it == At(i)
        decreases |C| - t
      {
        AtInjective(i, |contents|);
        assert it == ring[i + 1];
        ghost var c := contents;
        var drop := pred(it.value.value);
        it := EraseOrSkip(it, i, drop);
        KeptStep(pred, C, t, i, c, contents);
        i := if drop then i else i + 1;
        t := t + 1;
      }
      AtInjective(i, |contents|);
      KeptDone(pred, C, t, i, contents);
    }

    /** remove(val): remove_if with the test `x == val`. */
    method Remove(v: T)
      requires Valid()
      modifies this, Repr()
      ensures Valid() && last == old(last) && Repr() <= old(Repr())
      ensures contents == Kept(x => x == v, old(contents))
    {
      RemoveIf(x => x == v);
    }

    /**
     * unique(same): from the second node on, a node whose value `same`
     * matches with the value of the node before it is erased.
     */
    method UniqueBy(same: (T, T) -> bool)
      requires Valid()
      modifies this, Repr()
      ensures Valid() && last == old(last) && Repr() <= old(Repr())
      ensures contents == Uniq(same, old(contents))
    {
      ghost var C := contents;
      ghost var t, i := 1, 1;
      var it := Begin();
      AtLinks(0);
      AtLinks(|contents|);
      it := it.next;
      while it != last
        invariant Valid() && last == old(last) && Repr() <= old(Repr())
        invariant C == [] ==> it == last && contents == []
        invariant C != [] ==> UniqWalk(same, C, t, i, contents) && it == At(i)
        decreases |C| - t
      {
        AtInjective(i, |contents|);
        AtLinks(i);
        assert it == ring[i + 1] && it.prev == ring[i];
        ghost var c := contents;
        var drop := same(it.value.value, it.prev.value.value);
        it := EraseOrSkip(it, i, drop);
        UniqStep(same, C, t, i, c, contents);
        i := if drop then i else i + 1;
        t := t + 1;
      }
      if C != [] {
        AtInjective(i, |contents|);
        UniqDone(same, C, t, i, contents);
      }
    }

    /** unique(): unique with equality. */
    method Unique()
      requires Valid()
      modifies this, Repr()
      ensures Valid() && last == old(last) && Repr() <= old(Repr())
      ensures contents == Uniq(Same, old(contents))
    {
      UniqueBy(Same);
    }

    /** The loop of reverse(): every element node, from the first on, has its two links exchanged. */
    method FlipElements()
      requires Valid()
      modifies Repr()
      ensures forall x {:trigger Flipped(ring[x], links)} :: 0 < x < |ring| ==> Flipped(ring[x], links)
      ensures Mirrored(ring[0], links)
    {
      ghost var R, L := ring, links;
      ghost var m := |R|;
      var node := Begin();
      ghost var t := 0;
      assert 1 < m ==> Apart(R, 0, 1);
      while node != last
        modifies Repr()
        invariant t < m && node == Position(R, t)
        invariant t + 1 < m <==> node != last
        invariant forall x {:trigger Flipped(R[x], L)} :: 0 < x <= t ==> Flipped(R[x], L)
        invariant forall x {:trigger Mirrored(R[x], L)} :: t < x < m ==> Mirrored(R[x], L)
        invariant Mirrored(R[0], L)
        decreases m - t
      {
        assert node == R[t + 1] && Mirrored(R[t + 1], L) && LinkedAt(R, L, t + 1);
        label step:
        var next := node.next;
        SwapLinks(node);
        forall x | t + 1 < x < m ensures Mirrored(R[x], L) {
          assert Apart(R, x, t + 1) && old@step(Mirrored(R[x], L));
        }
        forall x | 0 < x <= t ensures Flipped(R[x], L) {
          assert Apart(R, x, t + 1) && old@step(Flipped(R[x], L));
        }
        assert Apart(R, 0, t + 1) && Flipped(R[t + 1], L);
        assert t + 2 < m ==> Apart(R, 0, t + 2);
        node := next;
        t := t + 1;
      }
    }

    /**
     * reverse(): every element node, from the first on, and then the
     * sentinel has its two links exchanged.
     */
    method Reverse()
      requires Valid()
      modifies this, Repr()
      ensures Valid() && last == old(last) && Repr() == old(Repr())
      ensures ring == Reversed(old(ring)) && contents == Backwards(old(contents))
    {
      ghost var R, L, C := ring, links, contents;
      ghost var m := |R|;
      FlipElements();
      label done:
      SwapLinks(last);
      forall x | 0 < x < m ensures Flipped(R[x], L) {
        assert Apart(R, x, 0) && old@done(Flipped(R[x], L));
      }
      ring, links, contents := Reversed(R), Swapped(L), Backwards(C);
      RingReversed(R, L);
      HoldingReversed(R, C);
      FlippedMirrors(R, L);
      ReversedMembers(R);
    }

    /**
     * merge(src, comp): the nodes of `src` are moved, in order, each before
     * the first node of this list whose value it goes before under `comp`,
     * or before the sentinel; `src` is left empty.
     */
    method Merge(src: List<T>, comp: (T, T) -> bool)
      requires Valid() && src.Valid() && src != this && Repr() !! src.Repr()
      modifies this, Repr(), src, src.Repr()
      ensures Valid() && last == old(last) && Repr() <= old(Repr()) + old(src.Repr())
      ensures contents == Merged(comp, old(contents), old(src.contents))
      ensures src.Valid() && src.last == old(src.last) && src.contents == [] && Repr() !! src.Repr()
    {
      ghost var A, B, S := contents, src.contents, src.ring;
      var e := src.last;
      var node1 := Begin();
      var node2 := src.Begin();
      ghost var ia: nat, j: nat, pfx: seq<T> := 0, 0, [];
      forall m | 0 < m < |S| ensures PendingAt(S, m, ring) {
        assert S[m] in src.Repr() && Mirrored(S[m], src.links) && LinkedAt(S, src.links, m);
      }
      assert S[0] in src.Repr();
      while node2 != e
        invariant Valid() && last == old(last) && Repr() <= old(Repr()) + old(src.Repr())
        invariant src.ring == S && src.last == e && e == S[0] && Holding(S, B) && Distinct(S)
        invariant MergeWalk(comp, A, B, ia, j, pfx, contents) && node1 == At(|pfx|)
        invariant node2 == Position(S, j) && Pending(S, j, ring) && S[0] !in ring
        decreases |A| - ia + |B| - j
      {
        node1, node2, ia, j, pfx := MergeStep(e, comp, A, B, S, ia, j, pfx, node1, node2);
      }
      assert j == |B|;
      MergeDone(comp, A, B, ia, j, pfx, contents);
      src.Clear();
    }

    /**
     * splice(position, src, first, last): the nodes of `src` from its
     * position `a`, held by `first`, up to its position `b`, held by `stop`,
     * are relinked, in order, in before `position`, the node at position
     * `k`; no node is made or freed.
     */
    method Splice(position: ListNode<T>, ghost k: nat, src: List<T>, first: ListNode<T>, ghost a: nat, stop: ListNode<T>, ghost b: nat)
      requires Valid() && src.Valid() && src != this && Repr() !! src.Repr()
      requires k <= |contents| && position == At(k)
      requires a <= b <= |src.contents| && first == src.At(a) && stop == src.At(b)
      modifies this, Repr(), src, src.Repr()
      ensures Valid() && src.Valid() && last == old(last) && src.last == old(src.last) && Repr() !! src.Repr()
      ensures contents == old(contents)[..k] + old(src.contents)[a..b] + old(contents)[k..]
      ensures src.contents == old(src.contents)[..a] + old(src.contents)[b..]
      ensures Repr() + src.Repr() == old(Repr() + src.Repr())
    {
      src.AtInjective(a, b);
      if first == stop {
        assert contents == contents[..k] + src.contents[a..b] + contents[k..];
        assert src.contents == src.contents[..a] + src.contents[b..];
        return;
      }
      SpliceRun(position, k, src, first, a, stop, b);
    }

    /** splice(position, src): every node of `src` moves in before `position`. */
    method SpliceAll(position: ListNode<T>, ghost k: nat, src: List<T>)
      requires Valid() && src.Valid() && src != this && Repr() !! src.Repr()
      requires k <= |contents| && position == At(k)
      modifies this, Repr(), src, src.Repr()
      ensures Valid() && src.Valid() && last == old(last) && src.last == old(src.last) && Repr() !! src.Repr()
      ensures contents == old(contents)[..k] + old(src.contents) + old(contents)[k..]
      ensures src.contents == []
      ensures Repr() + src.Repr() == old(Repr() + src.Repr())
    {
      ghost var B := src.contents;
      Splice(position, k, src, src.Begin(), 0, src.End(), |B|);
      assert B[0..|B|] == B;
    }

    /** splice(position, src, i): the single node `i`, at position `a` of `src`, moves in before `position`. */
    method SpliceOne(position: ListNode<T>, ghost k: nat, src: List<T>, i: ListNode<T>, ghost a: nat)
      requires Valid() && src.Valid() && src != this && Repr() !! src.Repr()
      requires k <= |contents| && position == At(k)
      requires a < |src.contents| && i == src.At(a)
      modifies this, Repr(), src, src.Repr()
      ensures Valid() && src.Valid() && last == old(last) && src.last == old(src.last) && Repr() !! src.Repr()
      ensures contents == old(contents)[..k] + [old(src.contents)[a]] + old(contents)[k..]
      ensures src.contents == old(src.contents)[..a] + old(src.contents)[a + 1..]
      ensures Repr() + src.Repr() == old(Repr() + src.Repr())
    {
      ghost var B := src.contents;
      src.AtLinks(a);
      var next := i.next;
      Splice(position, k, src, i, a, next, a + 1);
      assert B[a..a + 1] == [B[a]];
    }

    /**
     * The walk of _split: `fast` walks two nodes for each node `slow`
     * walks; once `fast` or the node after it ends the list, `slow` steps
     * once more, to the node at position (n + 1) / 2.
     */
    method Middle() returns (slow: ListNode<T>)
      requires Valid() && 2 <= |contents|
      ensures slow == At((|contents| + 1) / 2)
    {
      ghost var n := |contents|;
      AtLinks(0);
      AtLinks(1);
      var fast := Begin();
      slow := Begin();
      var fastNext := fast.next;
      var fastNext2 := fastNext.next;
      ghost var t: nat := 0;
      while fastNext != last && fastNext2 != last
        invariant 2 * t + 1 <= n
        invariant fast == At(2 * t) && slow == At(t) && fastNext == At(2 * t + 1)
        invariant fastNext2 == At(if 2 * t + 1 < n then 2 * t + 2 else 0)
        decreases n - 2 * t
      {
        AtValue(2 * t + 1);
        AtValue(2 * t + 2);
        AtLinks(2 * t);
        AtLinks(2 * t + 1);
        AtLinks(2 * t + 2);
        AtLinks(t);
        fast := fast.next;
        fast := fast.next;
        fastNext := fast.next;
        AtLinks(2 * t + 3);
        fastNext2 := fastNext.next;
        slow := slow.next;
        t := t + 1;
      }
      AtValue(2 * t + 1);
      if 2 * t + 1 < n {
        AtValue(2 * t + 2);
      }
      AtLinks(t);
      slow := slow.next;
    }

    /**
     * _split: the nodes from the middle, position (n + 1) / 2, to the end
     * are spliced into a new list; the first half keeps (n + 1) / 2 values.
     */
    method Split() returns (second: List<T>)
      requires Valid() && 2 <= |contents|
      modifies this, Repr()
      ensures Valid() && last == old(last) && second.Valid() && fresh(second) && fresh(second.last)
      ensures var h := (|old(contents)| + 1) / 2;
        contents == old(contents)[..h] && second.contents == old(contents)[h..]
      ensures Repr() !! second.Repr() && Repr() + second.Repr() == old(Repr()) + {second.last}
    {
      ghost var C, n := contents, |contents|;
      ghost var h := (n + 1) / 2;
      var slow := Middle();
      second := new List();
      assert second.last in second.Repr();
      second.Splice(second.End(), 0, this, slow, h, End(), n);
      assert C[h..n] == C[h..] && C[..h] + C[n..] == C[..h];
    }

    /**
     * sort(comp): a list of fewer than two values is left as it is;
     * otherwise it is split, both halves are sorted, and the second is
     * merged into the first.
     */
    method Sort(comp: (T, T) -> bool)
      requires Valid()
      modifies this, Repr()
      ensures Valid() && last == old(last) && Repr() <= old(Repr())
      ensures contents == MergeSort(comp, old(contents))
      decreases |contents|
    {
      AtValue(0);
      if Begin() == End() {
        return;
      }
      AtLinks(0);
      AtValue(1);
      if Begin().next == End() {
        return;
      }
      ghost var C, h := contents, (|contents| + 1) / 2;
      var second := Split();
      ghost var C1, C2 := contents, second.contents;
      Sort(comp);
      ghost var A := contents;
      second.Sort(comp);
      ghost var e, B := second.last, second.contents;
      assert A == contents;
      Merge(second, comp);
      assert e in second.Repr();
      MergeSortHalves(comp, C, h, A, B);
    }

    /**
     * The first half of splice, on the list the run leaves: the nodes at
     * positions `a` and `b` of the ring, on either side of the run, are
     * linked to each other.  The nodes of the run keep their links.
     */
    method Detach(first: ListNode<T>, ghost a: nat, stop: ListNode<T>, ghost b: nat)
      requires Valid() && a < b <= |contents| && first == At(a) && stop == At(b)
      modifies this, Repr()
      ensures Valid() && last == old(last)
      ensures ring == old(ring)[..a + 1] + old(ring)[b + 1..]
      ensures contents == old(contents)[..a] + old(contents)[b..]
      ensures forall i | a + 1 <= i <= b :: Mirrored(old(ring)[i], old(links))
    {
      ghost var S, SL, B := ring, links, contents;
      ghost var bn := Succ(|S|, b);
      assert first == S[a + 1] && Mirrored(S[a + 1], SL) && LinkedAt(S, SL, a + 1);
      assert stop == S[bn];
      var sp, sn := first.prev, stop;
      ghost var S', SL' := S[..a + 1] + S[b + 1..], LinkOut(SL, S[a], S[bn]);
      RingSpliceOut(S, SL, a, b);
      HoldingSpliceOut(S, B, a, b);
      DetachNodes(S, a, b);
      forall n | n in S' ensures Mirrored(n, SL) {
        var i :| 0 <= i < |S| && S[i] == n;
        assert Mirrored(S[i], SL);
      }
      DetachLinks(sp, sn, S', SL);
      label relinked:
      ring, links, contents := S', SL', B[..a] + B[b..];
      forall i | 0 <= i < |S'| ensures Mirrored(S'[i], SL') {
        assert old@relinked(Mirrored(S'[i], SL'));
      }
      forall i | a + 1 <= i <= b ensures Mirrored(S[i], SL) {
        assert old(Mirrored(S[i], SL));
      }
    }

    /**
     * The second half of splice, on the receiving list: the run of `S`
     * from position `a + 1` to `b`, whose ends are `f` and `g` and whose
     * nodes still have the links `SL` records, is linked in before
     * `position`, the node at position `k`.
     */
    method Attach(position: ListNode<T>, ghost k: nat, f: ListNode<T>, g: ListNode<T>,
                  ghost S: seq<ListNode<T>>, ghost SL: map<ListNode<T>, Link<T>>, ghost B: seq<T>, ghost a: nat, ghost b: nat)
      requires Valid() && k <= |contents| && position == At(k)
      requires a < b < |S| && Shaped(S[0], S, SL, B) && Apart2(ring, S)
      requires f == S[a + 1] && g == S[b]
      requires forall i | a + 1 <= i <= b :: Mirrored(S[i], SL)
      modifies this, Repr(), f, g
      ensures Valid() && last == old(last)
      ensures ring == old(ring)[..k + 1] + S[a + 1..b + 1] + old(ring)[k + 1..]
      ensures contents == old(contents)[..k] + B[a..b] + old(contents)[k..]
    {
      ghost var R, L, C := ring, links, contents;
      ghost var kq := Succ(|R|, k);
      assert position == R[kq] && Mirrored(R[kq], L) && LinkedAt(R, L, kq);
      var p, q := position.prev, position;
      ghost var M := S[a + 1..b + 1];
      ghost var R', G := R[..k + 1] + M + R[k + 1..], Graft(L, SL, M);
      ghost var G', C' := SpliceIn(G, R[k], R[kq], f, g), C[..k] + B[a..b] + C[k..];
      assert Shaped(last, R', G', C') by {
        RingSpliceIn(R, L, S, SL, k, a, b);
        HoldingSpliceIn(R, C, S, B, k, a, b);
        assert R'[0] == R[0];
      }
      AttachNodes(R, S, k, a, b);
      GraftMirrors(R, L, S, SL, k, a, b);
      AttachLinks(p, q, f, g, R', G);
      Install(R', G', C');
    }

    /** The ghost record of a list whose nodes are already linked along `r`. */
    method Install(ghost r: seq<ListNode<T>>, ghost l: map<ListNode<T>, Link<T>>, ghost c: seq<T>)
      requires Shaped(last, r, l, c) && MirrorsAll(r, l)
      modifies this
      ensures Valid() && last == old(last)
      ensures ring == r && links == l && contents == c
    {
      ring, links, contents := r, l, c;
    }

    /** splice of a run of at least one node: the two halves, as the source orders its six link writes. */
    method SpliceRun(position: ListNode<T>, ghost k: nat, src: List<T>, first: ListNode<T>, ghost a: nat, stop: ListNode<T>, ghost b: nat)
      requires Valid() && src.Valid() && src != this && Repr() !! src.Repr()
      requires k <= |contents| && position == At(k)
      requires a < b <= |src.contents| && first == src.At(a) && stop == src.At(b)
      modifies this, Repr(), src, src.Repr()
      ensures Valid() && src.Valid() && last == old(last) && src.last == old(src.last) && Repr() !! src.Repr()
      ensures contents == old(contents)[..k] + old(src.contents)[a..b] + old(contents)[k..]
      ensures src.contents == old(src.contents)[..a] + old(src.contents)[b..]
      ensures Repr() + src.Repr() == old(Repr() + src.Repr())
    {
      ghost var R, S, SL, B := ring, src.ring, src.links, src.contents;
      ghost var bn := Succ(|S|, b);
      forall n | n in R ensures n !in S {
        assert n in Repr();
      }
      assert stop == S[bn] && Mirrored(S[bn], SL) && LinkedAt(S, SL, bn);
      var lastNode := stop.prev;
      assert first == S[a + 1] && lastNode == S[b];
      SplicedFootprints(R, S, k, a, b);
      src.Detach(first, a, stop, b);
      ghost var S', SL', B' := src.ring, src.links, src.contents;
      assert Shaped(src.last, S', SL', B');
      label detached:
      Attach(position, k, first, lastNode, S, SL, B, a, b);
      forall i | 0 <= i < |S'| ensures Mirrored(S'[i], SL') {
        assert old@detached(Mirrored(S'[i], SL'));
      }
      ghost var R' := R[..k + 1] + S[a + 1..b + 1] + R[k + 1..];
      assert Repr() == set n | n in R';
      assert src.Repr() == set n | n in S';
    }

    /**
     * One pass of the loop of merge: the node `node2` of `src`, whose ring is
     * `S`, is moved before `node1` when `node1` is the sentinel or its value
     * goes before that of `node1`; otherwise `node1` steps forward.
     */
    method MergeStep(e: ListNode<T>, comp: (T, T) -> bool, ghost A: seq<T>, ghost B: seq<T>, ghost S: seq<ListNode<T>>,
                     ghost ia: nat, ghost j: nat, ghost pfx: seq<T>, node1: ListNode<T>, node2: ListNode<T>)
      returns (n1: ListNode<T>, n2: ListNode<T>, ghost ia': nat, ghost j': nat, ghost pfx': seq<T>)
      requires Valid() && 0 < |S| && e == S[0] && Holding(S, B) && Distinct(S)
      requires MergeWalk(comp, A, B, ia, j, pfx, contents) && node1 == At(|pfx|)
      requires node2 == Position(S, j) && Pending(S, j, ring) && S[0] !in ring && node2 != e
      modifies this, Repr(), node2
      ensures Valid() && last == old(last) && Repr() <= old(Repr()) + {node2}
      ensures MergeWalk(comp, A, B, ia', j', pfx', contents) && n1 == At(|pfx'|)
      ensures n2 == Position(S, j') && Pending(S, j', ring) && S[0] !in ring
      ensures |A| - ia' + |B| - j' < |A| - ia + |B| - j
    {
      assert j + 1 < |S| && node2 == S[j + 1];
      assert PendingAt(S, j + 1, ring);
      AtValue(|pfx|);
      if node1 == last || comp(node2.value.value, node1.value.value) {
        n2 := node2.next;
        ghost var c := contents;
        label before:
        LinkBefore(node1, |pfx|, node2, B[j]);
        MergeTake(comp, A, B, ia, j, pfx, c, contents);
        forall m | j + 1 < m < |S| ensures PendingAt(S, m, ring) {
          assert Apart(S, m, j + 1) && old@before(PendingAt(S, m, ring));
        }
        assert Apart(S, 0, j + 1);
        n1, ia', j', pfx' := node1, ia, j + 1, pfx + [B[j]];
      } else {
        AtLinks(|pfx|);
        MergeSkip(comp, A, B, ia, j, pfx, contents);
        n1, n2, ia', j', pfx' := node1.next, node2, ia + 1, j, pfx + [A[ia]];
      }
    }
  }

  /** operator==: both lists are walked while the values agree; then both walks must be at their ends. */
  method Equal<T(==, !new)>(lhs: List<T>, rhs: List<T>) returns (r: bool)
    requires lhs.Valid() && rhs.Valid()
    ensures r <==> lhs.contents == rhs.contents
  {
    var it1, it2 := lhs.Begin(), rhs.Begin();
    ghost var i := 0;
    lhs.AtValue(0);
    rhs.AtValue(0);
    while it1 != lhs.last && it2 != rhs.last && it1.value.value == it2.value.value
      invariant i <= |lhs.contents| && i <= |rhs.contents| && it1 == lhs.At(i) && it2 == rhs.At(i)
      invariant lhs.contents[..i] == rhs.contents[..i]
      invariant (it1 == lhs.last <==> i == |lhs.contents|) && (it2 == rhs.last <==> i == |rhs.contents|)
      invariant i < |lhs.contents| ==> it1.value == Some(lhs.contents[i])
      invariant i < |rhs.contents| ==> it2.value == Some(rhs.contents[i])
      decreases |lhs.contents| - i
    {
      lhs.AtLinks(i);
      rhs.AtLinks(i);
      assert lhs.contents[..i + 1] == lhs.contents[..i] + [lhs.contents[i]];
      assert rhs.contents[..i + 1] == rhs.contents[..i] + [rhs.contents[i]];
      it1, it2 := it1.next, it2.next;
      i := i + 1;
      lhs.AtValue(i);
      rhs.AtValue(i);
    }
    r := it1 == lhs.last && it2 == rhs.last;
    if !r && i < |lhs.contents| && i < |rhs.contents| {
      assert lhs.contents[i] != rhs.contents[i];
    }
  }

  /**
   * operator<: both lists are walked while the values agree; less when the
   * left one ran out first, or when its first differing value is less.
   */
  method Less<T(==, !new)>(less: (T, T) -> bool, lhs: List<T>, rhs: List<T>) returns (r: bool)
    requires lhs.Valid() && rhs.Valid()
    ensures r <==> Vector.LexLess(less, lhs.contents, rhs.contents)
  {
    ghost var s, t := lhs.contents, rhs.contents;
    var it1, it2 := lhs.Begin(), rhs.Begin();
    ghost var i := 0;
    lhs.AtValue(0);
    rhs.AtValue(0);
    while it1 != lhs.last && it2 != rhs.last && it1.value.value == it2.value.value
      invariant i <= |s| && i <= |t| && it1 == lhs.At(i) && it2 == rhs.At(i)
      invariant Vector.LexLess(less, s, t) == Vector.LexLess(less, s[i..], t[i..])
      invariant (it1 == lhs.last <==> i == |s|) && (it2 == rhs.last <==> i == |t|)
      invariant i < |s| ==> it1.value == Some(s[i])
      invariant i < |t| ==> it2.value == Some(t[i])
      decreases |s| - i
    {
      lhs.AtLinks(i);
      rhs.AtLinks(i);
      assert s[i..][1..] == s[i + 1..] && t[i..][1..] == t[i + 1..];
      it1, it2 := it1.next, it2.next;
      i := i + 1;
      lhs.AtValue(i);
      rhs.AtValue(i);
    }
    r := (it1 == lhs.last && it2 != rhs.last)
      || (it1 != lhs.last && it2 != rhs.last && less(it1.value.value, it2.value.value));
  }

  /** operator!=, operator<=, operator> and operator>=, derived as the source writes them. */
  method NotEqual<T(==, !new)>(lhs: List<T>, rhs: List<T>) returns (r: bool)
    requires lhs.Valid() && rhs.Valid()
    ensures r <==> lhs.contents != rhs.contents
  {
    var eq := Equal(lhs, rhs);
    r := !eq;
  }

  method LessEq<T(==, !new)>(less: (T, T) -> bool, lhs: List<T>, rhs: List<T>) returns (r: bool)
    requires lhs.Valid() && rhs.Valid()
    ensures r <==> !Vector.LexLess(less, rhs.contents, lhs.contents)
  {
    var gt := Less(less, rhs, lhs);
    r := !gt;
  }

  method Greater<T(==, !new)>(less: (T, T) -> bool, lhs: List<T>, rhs: List<T>) returns (r: bool)
    requires lhs.Valid() && rhs.Valid()
    ensures r <==> Vector.LexLess(less, rhs.contents, lhs.contents)
  {
    r := Less(less, rhs, lhs);
  }

  method GreaterEq<T(==, !new)>(less: (T, T) -> bool, lhs: List<T>, rhs: List<T>) returns (r: bool)
    requires lhs.Valid() && rhs.Valid()
    ensures r <==> !Vector.LexLess(less, lhs.contents, rhs.contents)
  {
    var lt := Less(less, lhs, rhs);
    r := !lt;
  }

  /** The non-member swap(x, y): x.swap(y). */
  method SwapLists<T(==, !new)>(x: List<T>, y: List<T>)
    requires x.Valid() && y.Valid()
    modifies x, y
    ensures x.Valid() && y.Valid()
    ensures x.contents == old(y.contents) && y.contents == old(x.contents)
  {
    x.Swap(y);
  }
}
