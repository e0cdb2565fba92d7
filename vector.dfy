/**
 * srcs/vector.hpp: the dynamic array.
 *
 * The vector owns a buffer `data` of `capacity` slots whose first `size`
 * slots hold the elements.  Growth goes through _realloc, which only ever
 * enlarges the buffer and copies the elements across.  Iterators are the
 * offsets of their pointers from the start of the buffer (see VectorIter).
 */
module Vector {
  import opened Wrappers
  import opened Algorithm

  /** max_size(): std::allocator<T>::max_size() for a four-byte T on a 64-bit target. */
  const MaxSize: nat := 0x3FFF_FFFF_FFFF_FFFF

  /** Capacity requested by a one-element insert that does not fit: max(min(2 * cap, max_size), 1). */
  function GrowOne(cap: nat): (c: nat)
    ensures 1 <= c <= MaxSize
    ensures cap <= MaxSize ==> cap <= c
  {
    Max<nat>((a, b) => a < b, Min<nat>((a, b) => a < b, cap * 2, MaxSize), 1)
  }

  /** Capacity requested by an insert of `n` elements that do not fit: max(min(2 * cap, max_size), size + n). */
  function GrowMany(cap: nat, size: nat, n: nat): (c: nat)
    ensures size + n <= c
    ensures cap <= MaxSize && size + n <= MaxSize ==> cap <= c <= MaxSize
  {
    Max<nat>((a, b) => a < b, Min<nat>((a, b) => a < b, cap * 2, MaxSize), size + n)
  }

  /** The growth policy gives room for the new elements and never exceeds max_size. */
  lemma GrowthFits(cap: nat, size: nat, n: nat)
    requires size <= cap <= MaxSize && size + n <= MaxSize
    ensures n == 1 ==> size + 1 <= GrowOne(cap) <= MaxSize
    ensures size + n <= GrowMany(cap, size, n) <= MaxSize
    ensures 0 < cap ==> GrowOne(cap) == if 2 * cap <= MaxSize then 2 * cap else MaxSize
  {
  }

  /** Lexicographic order on sequences, as vector's operator< computes it. */
  ghost predicate LexLess<T>(less: (T, T) -> bool, s: seq<T>, t: seq<T>)
    decreases |s|
  {
    if s == [] then t != []
    else if t == [] then false
    else if s[0] == t[0] then LexLess(less, s[1..], t[1..])
    else less(s[0], t[0])
  }

  /** A proper prefix is less, and a sequence is never less than itself. */
  lemma {:induction false} LexLessPrefix<T>(less: (T, T) -> bool, s: seq<T>, t: seq<T>)
    requires forall a :: !less(a, a)
    ensures |s| < |t| && s == t[..|s|] ==> LexLess(less, s, t)
    ensures !LexLess(less, s, s)
    decreases |s|
  {
    if s != [] {
      LexLessPrefix(less, s[1..], if t == [] then [] else t[1..]);
      if |s| < |t| && s == t[..|s|] {
        assert s[1..] == t[1..][..|s[1..]|];
      }
    }
  }

  /** The fields operator= works on: the real length of the buffer, the recorded capacity, the elements. */
  datatype Buffer<T> = Buffer(slots: nat, capacity: nat, elems: seq<T>)

  /**
   * operator= as written: clear(), then `_capacity = other._capacity` with
   * the buffer kept, then insert(begin(), other.begin(), other.end()), whose
   * growth test reads the copied capacity.
   */
  function AssignAsWritten<T>(dst: Buffer<T>, other: Buffer<T>): (r: Buffer<T>)
    ensures r.elems == other.elems && other.capacity <= r.capacity
    ensures |other.elems| <= other.capacity ==> r.slots == dst.slots && r.capacity == other.capacity
  {
    var recorded := dst.(capacity := other.capacity, elems := []);
    var n := |other.elems|;
    if n > recorded.capacity then
      var c := GrowMany(recorded.capacity, 0, n);
      Buffer(c, c, other.elems)
    else
      recorded.(elems := other.elems)
  }

  /**
   * Assigning a vector of capacity 4 holding 3 elements to one whose buffer
   * has a single slot records capacity 4, skips the reallocation, and
   * constructs 3 elements in a 1-slot buffer.
   */
  lemma AssignAsWrittenOverflows()
    ensures var r := AssignAsWritten(Buffer(1, 1, [7]), Buffer(4, 4, [1, 2, 3]));
      r.capacity == 4 && r.slots == 1 && |r.elems| == 3 > r.slots
  {
  }

  class Vector<T(0)> {
    var data: array<T>
    var capacity: nat
    var size: nat

    ghost predicate Valid()
      reads this
    {
      data.Length == capacity && size <= capacity <= MaxSize
    }

    /** The elements, in order. */
    ghost function Contents(): seq<T>
      reads this, data
      requires Valid()
    {
      data[..size]
    }

    /** vector(): nothing allocated. */
    constructor ()
      ensures Valid() && Contents() == [] && capacity == 0
      ensures fresh(data)
    {
      data := new T[0];
      capacity := 0;
      size := 0;
    }

    /** vector(n, val): a buffer of exactly `n` slots, filled by insert(begin(), n, val). */
    constructor Fill(n: nat, val: T)
      requires n <= MaxSize
      ensures Valid() && Contents() == seq(n, _ => val) && capacity == n
      ensures fresh(data)
    {
      data := new T[n];
      capacity := n;
      size := 0;
      new;
      InsertFill(0, n, val);
    }

    /** vector(first, last): nothing allocated, then insert(begin(), first, last); `src` is the range's elements. */
    constructor FromRange(src: seq<T>)
      requires |src| <= MaxSize
      ensures Valid() && Contents() == src && capacity == |src|
      ensures fresh(data)
    {
      data := new T[0];
      capacity := 0;
      size := 0;
      new;
      InsertRange(0, src);
    }

    /** vector(src): a buffer of src's capacity, filled by insert(begin(), src.begin(), src.end()). */
    constructor Copy(src: Vector<T>)
      requires src.Valid()
      ensures Valid() && Contents() == old(src.Contents()) && capacity == src.capacity
      ensures fresh(data)
    {
      data := new T[src.capacity];
      capacity := src.capacity;
      size := 0;
      new;
      InsertRange(0, src.data[..src.size]);
    }

    /** _realloc(n): a buffer of `n` slots when `n` exceeds the capacity, elements copied across. */
    method Realloc(n: nat)
      requires Valid() && n <= MaxSize
      modifies this
      ensures Valid() && Contents() == old(Contents()) && size == old(size)
      ensures capacity == if n <= old(capacity) then old(capacity) else n
      ensures n <= old(capacity) ==> data == old(data)
      ensures n > old(capacity) ==> fresh(data)
    {
      if n <= capacity {
        return;
      }
      var newData := new T[n];
      var i := 0;
      while i < size
        invariant 0 <= i <= size
        invariant newData[..i] == data[..i]
        modifies newData
      {
        newData[i] := data[i];
        i := i + 1;
      }
      assert newData[..size] == data[..size];
      data := newData;
      capacity := n;
    }

    /** begin(): the offset of the first slot. */
    function Begin(): (b: nat)
      reads this
      ensures b == 0
    {
      0
    }

    /** end(): the offset just past the last element. */
    function End(): (e: nat)
      reads this, data
      ensures Valid() ==> e == |Contents()| && e <= data.Length
    {
      size
    }

    /** size(): the number of elements. */
    function Size(): (n: nat)
      reads this, data
      ensures Valid() ==> n == |Contents()|
    {
      size
    }

    /** capacity(): the number of slots of the buffer. */
    function Capacity(): (c: nat)
      reads this
      ensures Valid() ==> size <= c <= MaxSize && c == data.Length
    {
      capacity
    }

    function Empty(): (r: bool)
      reads this, data
      requires Valid()
      ensures r <==> Contents() == []
    {
      size == 0
    }

    /** operator[](n): no bounds check, so the caller keeps `n` below the size. */
    function Get(n: nat): (r: T)
      reads this, data
      requires Valid() && n < size
      ensures r == Contents()[n]
    {
      data[n]
    }

    /** at(n): out_of_range when `n` is not below the size. */
    function At(n: nat): (r: Result<T>)
      reads this, data
      requires Valid()
      ensures r.Err? <==> n >= |Contents()|
      ensures r.Err? ==> r.error == OutOfRange
      ensures r.Ok? ==> r.value == Contents()[n]
    {
      if n >= size then Err(OutOfRange) else Ok(Get(n))
    }

    function Front(): (r: T)
      reads this, data
      requires Valid() && size > 0
      ensures r == Contents()[0]
    {
      data[0]
    }

    function Back(): (r: T)
      reads this, data
      requires Valid() && size > 0
      ensures r == Contents()[|Contents()| - 1]
    {
      data[size - 1]
    }

    /** reserve(n): reallocates only when `n` exceeds the capacity. */
    method Reserve(n: nat)
      requires Valid() && n <= MaxSize
      modifies this
      ensures Valid() && Contents() == old(Contents())
      ensures capacity == if n > old(capacity) then n else old(capacity)
      ensures n <= old(capacity) ==> data == old(data)
      ensures n > old(capacity) ==> fresh(data)
    {
      if n > capacity {
        Realloc(n);
      }
    }

    /** resize(n, val): truncates, or pads with `val`; the buffer grows to exactly `n` when `n` exceeds it. */
    method Resize(n: nat, val: T)
      requires Valid() && n <= MaxSize
      modifies this, data
      ensures Valid()
      ensures Contents() == if n <= old(size) then old(Contents())[..n]
                            else old(Contents()) + seq(n - old(size), _ => val)
      ensures capacity == if n > old(capacity) then n else old(capacity)
      ensures fresh(data) || data == old(data)
    {
      if n > capacity {
        Realloc(n);
      }
      ghost var s := data[..size];
      var i := size;
      while i < n
        invariant size <= i <= n || (n < size && i == size)
        invariant data[..size] == s
        invariant forall j :: size <= j < i ==> data[j] == val
        modifies data
      {
        data[i] := val;
        i := i + 1;
      }
      size := n;
    }

    /** insert(position, val): shifts [position, size) up one slot and writes `val` at `position`. */
    method Insert(position: nat, val: T) returns (r: nat)
      requires Valid() && position <= size && size + 1 <= MaxSize
      modifies this, data
      ensures Valid() && r == position
      ensures Contents() == old(Contents())[..position] + [val] + old(Contents())[position..]
      ensures capacity == if old(size) + 1 > old(capacity) then GrowOne(old(capacity)) else old(capacity)
      ensures fresh(data) || data == old(data)
    {
      var offset := position;
      if size + 1 > capacity {
        GrowthFits(capacity, size, 1);
        Realloc(GrowOne(capacity));
      }
      Place(offset, [val]);
      r := offset;
    }

    /**
     * The shift loop of the inserts: moves [position, size) up by `n` slots,
     * from the last element down.
     */
    method ShiftUp(position: nat, n: nat)
      requires Valid() && position <= size && size + n <= capacity
      modifies data
      ensures forall j :: 0 <= j < position ==> data[j] == old(data[j])
      ensures forall j :: position + n <= j < size + n ==> data[j] == old(data[j - n])
    {
      var it: int := size as int - 1;
      while it >= position as int
        invariant position as int - 1 <= it < size as int
        invariant forall j :: 0 <= j <= it ==> data[j] == old(data[j])
        invariant forall j :: it + 1 + n <= j < size + n ==> data[j] == old(data[j - n])
      {
        data[it + n] := data[it];
        it := it - 1;
      }
    }

    /** insert(position, n, val): shifts [position, size) up `n` slots and fills the gap with `val`. */
    method InsertFill(position: nat, n: nat, val: T)
      requires Valid() && position <= size && size + n <= MaxSize
      modifies this, data
      ensures Valid()
      ensures Contents() == old(Contents())[..position] + seq(n, _ => val) + old(Contents())[position..]
      ensures capacity == if old(size) + n > old(capacity) then GrowMany(old(capacity), old(size), n) else old(capacity)
      ensures fresh(data) || data == old(data)
    {
      InsertRange(position, seq(n, _ => val));
    }

    /** insert(position, first, last): as above with the range's elements; `n` is distance(first, last). */
    method InsertRange(position: nat, src: seq<T>)
      requires Valid() && position <= size && size + |src| <= MaxSize
      modifies this, data
      ensures Valid()
      ensures Contents() == old(Contents())[..position] + src + old(Contents())[position..]
      ensures capacity == if old(size) + |src| > old(capacity) then GrowMany(old(capacity), old(size), |src|) else old(capacity)
      ensures fresh(data) || data == old(data)
    {
      var offset := position;
      var n := |src|;
      if size + n > capacity {
        GrowthFits(capacity, size, n);
        Realloc(GrowMany(capacity, size, n));
      }
      Place(offset, src);
    }

    /** The rest of the inserts, once the buffer has room: shift the tail up, construct the new elements. */
    method Place(offset: nat, src: seq<T>)
      requires Valid() && offset <= size && size + |src| <= capacity
      modifies this, data
      ensures Valid() && data == old(data) && capacity == old(capacity)
      ensures Contents() == old(Contents())[..offset] + src + old(Contents())[offset..]
    {
      var n := |src|;
      ghost var s := data[..size];
      ShiftUp(offset, n);
      CopyIn(offset, src);
      size := size + n;
      ghost var target := s[..offset] + src + s[offset..];
      forall j | 0 <= j < size ensures data[j] == target[j] {
        if j < offset {
          assert target[j] == s[j];
        } else if j < offset + n {
          assert target[j] == src[j - offset];
        } else {
          assert target[j] == s[j - n];
        }
      }
      assert data[..size] == target;
    }

    /** The construct loop of the inserts: writes `src` into the slots from `position` on. */
    method CopyIn(position: nat, src: seq<T>)
      requires Valid() && position + |src| <= capacity
      modifies data
      ensures forall j :: 0 <= j < data.Length && !(position <= j < position + |src|) ==> data[j] == old(data[j])
      ensures forall j :: position <= j < position + |src| ==> data[j] == src[j - position]
    {
      var it := position;
      while it < position + |src|
        invariant position <= it <= position + |src|
        invariant forall j :: 0 <= j < data.Length && !(position <= j < it) ==> data[j] == old(data[j])
        invariant forall j :: position <= j < it ==> data[j] == src[j - position]
      {
        data[it] := src[it - position];
        it := it + 1;
      }
    }

    /** erase(position): shifts the later elements down one slot. */
    method Erase(position: nat) returns (r: nat)
      requires Valid() && position < size
      modifies this, data
      ensures Valid() && r == position && data == old(data) && capacity == old(capacity)
      ensures Contents() == old(Contents())[..position] + old(Contents())[position + 1..]
    {
      ShiftDown(position, position + 1);
      size := size - 1;
      r := position;
    }

    /** erase(first, last): shifts [last, size) down to `first`; `n` is distance(first, last). */
    method EraseRange(first: nat, last: nat) returns (r: nat)
      requires Valid() && first <= last <= size
      modifies this, data
      ensures Valid() && r == first && data == old(data) && capacity == old(capacity)
      ensures Contents() == old(Contents())[..first] + old(Contents())[last..]
    {
      var n := last - first;
      ShiftDown(first, last);
      size := size - n;
      r := first;
    }

    /** The shift loop of the erases: moves [last, size) down to `first`, from the first element up. */
    method ShiftDown(first: nat, last: nat)
      requires Valid() && first <= last <= size
      modifies data
      ensures forall j :: 0 <= j < first ==> data[j] == old(data[j])
      ensures forall j :: first <= j < size - (last - first) ==> data[j] == old(data[j + (last - first)])
    {
      var n := last - first;
      var it := last;
      while it < size
        invariant last <= it <= size
        invariant forall j :: 0 <= j < first ==> data[j] == old(data[j])
        invariant forall j :: first <= j < it - n ==> data[j] == old(data[j + n])
        invariant forall j :: it <= j < size ==> data[j] == old(data[j])
      {
        data[it - n] := data[it];
        it := it + 1;
      }
    }

    /** push_back(val) is insert(end(), val). */
    method PushBack(val: T)
      requires Valid() && size + 1 <= MaxSize
      modifies this, data
      ensures Valid() && Contents() == old(Contents()) + [val]
      ensures capacity == if old(size) + 1 > old(capacity) then GrowOne(old(capacity)) else old(capacity)
      ensures fresh(data) || data == old(data)
    {
      var _ := Insert(size, val);
    }

    /** pop_back() is erase(end() - 1). */
    method PopBack()
      requires Valid() && size > 0
      modifies this, data
      ensures Valid() && Contents() == old(Contents())[..old(size) - 1]
      ensures data == old(data) && capacity == old(capacity)
    {
      var _ := Erase(size - 1);
    }

    /** clear() is erase(begin(), end()): the buffer is kept. */
    method Clear()
      requires Valid()
      modifies this, data
      ensures Valid() && Contents() == [] && data == old(data) && capacity == old(capacity)
    {
      var _ := EraseRange(0, size);
    }

    /** assign(n, val): clear, then insert(begin(), n, val). */
    method AssignFill(n: nat, val: T)
      requires Valid() && n <= MaxSize
      modifies this, data
      ensures Valid() && Contents() == seq(n, _ => val)
      ensures capacity == if n > old(capacity) then GrowMany(old(capacity), 0, n) else old(capacity)
      ensures fresh(data) || data == old(data)
    {
      Clear();
      InsertFill(0, n, val);
    }

    /** assign(first, last): clear, then insert(begin(), first, last). */
    method AssignRange(src: seq<T>)
      requires Valid() && |src| <= MaxSize
      modifies this, data
      ensures Valid() && Contents() == src
      ensures capacity == if |src| > old(capacity) then GrowMany(old(capacity), 0, |src|) else old(capacity)
      ensures fresh(data) || data == old(data)
    {
      Clear();
      InsertRange(0, src);
    }

    /**
     * operator=, with the capacity defect mended: the buffer is grown to
     * other's capacity (reserve) rather than only recording that capacity.
     */
    method Assign(other: Vector<T>)
      requires Valid() && other.Valid()
      modifies this, data
      ensures Valid() && Contents() == old(other.Contents())
      ensures other != this ==> capacity == if other.capacity > old(capacity) then other.capacity else old(capacity)
      ensures other == this ==> capacity == old(capacity)
    {
      if other == this {
        return;
      }
      var src := other.data[..other.size];
      Clear();
      Reserve(other.capacity);
      InsertRange(0, src);
    }

    /** swap(src): exchanges buffers, capacities and sizes. */
    method Swap(src: Vector<T>)
      requires Valid() && src.Valid()
      modifies this, src
      ensures Valid() && src.Valid()
      ensures data == old(src.data) && capacity == old(src.capacity) && size == old(src.size)
      ensures src.data == old(data) && src.capacity == old(capacity) && src.size == old(size)
    {
      var capacityTmp, sizeTmp, dataTmp := capacity, size, data;
      capacity, size, data := src.capacity, src.size, src.data;
      src.capacity, src.size, src.data := capacityTmp, sizeTmp, dataTmp;
    }
  }

  /** operator==: walks both vectors while the elements agree, then both must be at their ends. */
  method Equal<T(0,==)>(lhs: Vector<T>, rhs: Vector<T>) returns (r: bool)
    requires lhs.Valid() && rhs.Valid()
    ensures r <==> lhs.Contents() == rhs.Contents()
  {
    var it1, it2 := 0, 0;
    while it1 != lhs.size && it2 != rhs.size && lhs.data[it1] == rhs.data[it2]
      invariant it1 == it2 && it1 <= lhs.size && it2 <= rhs.size
      invariant lhs.data[..it1] == rhs.data[..it2]
      decreases lhs.size - it1
    {
      it1, it2 := it1 + 1, it2 + 1;
    }
    r := it1 == lhs.size && it2 == rhs.size;
    if !r {
      if it1 < lhs.size && it2 < rhs.size {
        assert lhs.Contents()[it1] != rhs.Contents()[it2];
      } else {
        assert |lhs.Contents()| != |rhs.Contents()|;
      }
    }
  }

  /**
   * operator<: walks both vectors while the elements agree; less when this
   * one ran out first, or when the first differing element is less.
   */
  method Less<T(0,==)>(less: (T, T) -> bool, lhs: Vector<T>, rhs: Vector<T>) returns (r: bool)
    requires lhs.Valid() && rhs.Valid()
    ensures r <==> LexLess(less, lhs.Contents(), rhs.Contents())
  {
    var it1, it2 := 0, 0;
    ghost var s, t := lhs.Contents(), rhs.Contents();
    while it1 != lhs.size && it2 != rhs.size && lhs.data[it1] == rhs.data[it2]
      invariant it1 == it2 && it1 <= lhs.size && it2 <= rhs.size
      invariant LexLess(less, s, t) == LexLess(less, s[it1..], t[it2..])
      decreases lhs.size - it1
    {
      assert s[it1..][1..] == s[it1 + 1..] && t[it2..][1..] == t[it2 + 1..];
      it1, it2 := it1 + 1, it2 + 1;
    }
    r := (it1 == lhs.size && it2 != rhs.size)
      || (it1 != lhs.size && it2 != rhs.size && less(lhs.data[it1], rhs.data[it2]));
  }

  /** operator!=, operator<=, operator> and operator>=, derived as the source writes them. */
  method NotEqual<T(0,==)>(lhs: Vector<T>, rhs: Vector<T>) returns (r: bool)
    requires lhs.Valid() && rhs.Valid()
    ensures r <==> lhs.Contents() != rhs.Contents()
  {
    var eq := Equal(lhs, rhs);
    r := !eq;
  }

  method LessEq<T(0,==)>(less: (T, T) -> bool, lhs: Vector<T>, rhs: Vector<T>) returns (r: bool)
    requires lhs.Valid() && rhs.Valid()
    ensures r <==> !LexLess(less, rhs.Contents(), lhs.Contents())
  {
    var gt := Less(less, rhs, lhs);
    r := !gt;
  }

  method Greater<T(0,==)>(less: (T, T) -> bool, lhs: Vector<T>, rhs: Vector<T>) returns (r: bool)
    requires lhs.Valid() && rhs.Valid()
    ensures r <==> LexLess(less, rhs.Contents(), lhs.Contents())
  {
    r := Less(less, rhs, lhs);
  }

  method GreaterEq<T(0,==)>(less: (T, T) -> bool, lhs: Vector<T>, rhs: Vector<T>) returns (r: bool)
    requires lhs.Valid() && rhs.Valid()
    ensures r <==> !LexLess(less, lhs.Contents(), rhs.Contents())
  {
    var lt := Less(less, lhs, rhs);
    r := !lt;
  }

  /** reserve(5) on an empty vector gives capacity 5, and a later reserve(3) leaves it at 5. */
  method ReserveScenario() returns (afterFive: nat, afterThree: nat)
    ensures afterFive == 5 && afterThree == 5
  {
    var v := new Vector<int>();
    v.Reserve(5);
    afterFive := v.capacity;
    v.Reserve(3);
    afterThree := v.capacity;
  }
}
