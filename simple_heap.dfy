/** The bounded binary min-heap used to sort lines in memory.

    The repository keeps three copies of it (`org.dpinol.data.SimpleHeap`,
    `org.dpinol.SimpleHeap` and `com.company.SimpleHeap`); their `add`, `poll`
    and sift-down loops are the same statements, so one class models all
    three.  Elements are compared with `cmp`, the element type's
    `compareTo`. */
module SimpleHeaps {
  import opened Bytes
  import opened Wrappers

  /** `(pos - 1) >>> 1`: the parent slot of a non-root slot. */
  function Parent(pos: nat): nat
    requires pos > 0
  {
    (pos - 1) / 2
  }

  /** Every slot is no smaller than its parent. */
  ghost predicate HeapOrdered<E>(h: seq<E>, cmp: (E, E) -> int)
  {
    forall c {:trigger Parent(c)} :: 0 < c < |h| ==> cmp(h[Parent(c)], h[c]) <= 0
  }

  /** Heap order on every edge except the one into slot `k`, where sift-up
      has its hole. */
  ghost predicate OrderedExceptInto<E>(h: seq<E>, cmp: (E, E) -> int, k: nat)
  {
    forall c {:trigger Parent(c)} :: 0 < c < |h| && c != k ==> cmp(h[Parent(c)], h[c]) <= 0
  }

  /** Heap order on every edge except those out of slot `k`, where sift-down
      has its hole. */
  ghost predicate OrderedExceptFrom<E>(h: seq<E>, cmp: (E, E) -> int, k: nat)
  {
    forall c {:trigger Parent(c)} :: 0 < c < |h| && Parent(c) != k ==> cmp(h[Parent(c)], h[c]) <= 0
  }

  /** The parent of the hole is no larger than the hole's children, so the
      hole can be filled from either side. */
  ghost predicate Bridged<E>(h: seq<E>, cmp: (E, E) -> int, k: nat)
  {
    0 < k < |h| ==> forall c :: 0 < c < |h| && Parent(c) == k ==> cmp(h[Parent(k)], h[c]) <= 0
  }

  /** The root of a heap-ordered sequence is no larger than any slot. */
  lemma {:induction false} RootBelow<E(!new)>(h: seq<E>, cmp: (E, E) -> int, i: nat)
    requires IsComparator(cmp) && HeapOrdered(h, cmp) && i < |h|
    ensures cmp(h[0], h[i]) <= 0
    decreases i
  {
    if i == 0 {
      ComparatorReflexive(cmp, h[0]);
    } else {
      RootBelow(h, cmp, Parent(i));
      assert NotAfter(cmp, h[0], h[Parent(i)]) && NotAfter(cmp, h[Parent(i)], h[i]);
    }
  }

  /** The root of a heap-ordered sequence is a minimum of its elements. */
  lemma RootIsMinimum<E(!new)>(h: seq<E>, cmp: (E, E) -> int)
    requires IsComparator(cmp) && HeapOrdered(h, cmp) && h != []
    ensures forall x :: x in h ==> cmp(h[0], x) <= 0
  {
    forall x | x in h ensures cmp(h[0], x) <= 0 {
      var i :| 0 <= i < |h| && h[i] == x;
      RootBelow(h, cmp, i);
    }
  }

  /** One round of sift-up: the parent's element moves into the hole and the
      hole moves to the parent, because the item is smaller than it. */
  lemma SiftUpStep<E(!new)>(h: seq<E>, cmp: (E, E) -> int, k: nat, item: E)
    requires IsComparator(cmp) && 0 < k < |h| && h[k] == item
    requires OrderedExceptInto(h, cmp, k) && Bridged(h, cmp, k)
    requires cmp(item, h[Parent(k)]) < 0
    ensures var h' := Swapped(h, k, Parent(k));
      OrderedExceptInto(h', cmp, Parent(k)) && Bridged(h', cmp, Parent(k))
  {
    var p := Parent(k);
    var e := h[p];
    var h' := Swapped(h, k, p);
    forall c | 0 < c < |h'| && c != p ensures cmp(h'[Parent(c)], h'[c]) <= 0 {
      if c == k {
        assert cmp(e, item) > 0;
      } else if Parent(c) == k {
        assert h'[c] == h[c];
      } else if Parent(c) == p {
        assert NotAfter(cmp, item, e) && NotAfter(cmp, e, h[c]);
      }
    }
    if 0 < p {
      forall c | 0 < c < |h'| && Parent(c) == p ensures cmp(h'[Parent(p)], h'[c]) <= 0 {
        assert cmp(h[Parent(p)], e) <= 0;
        if c != k {
          assert NotAfter(cmp, h[Parent(p)], e) && NotAfter(cmp, e, h[c]);
        }
      }
    }
  }

  /** Sift-up stops when the item is not smaller than its parent; the hole
      then closes. */
  lemma SiftUpDone<E(!new)>(h: seq<E>, cmp: (E, E) -> int, k: nat)
    requires IsComparator(cmp) && k < |h|
    requires OrderedExceptInto(h, cmp, k)
    requires k > 0 ==> cmp(h[k], h[Parent(k)]) >= 0
    ensures HeapOrdered(h, cmp)
  {
    if k > 0 {
      assert cmp(h[Parent(k)], h[k]) <= 0;
    }
  }

  /** The child `pushDown` descends to: the right one only when the left one
      is strictly greater. */
  function ChosenChild<E>(h: seq<E>, cmp: (E, E) -> int, k: nat): (child: nat)
    requires 2 * k + 1 < |h|
    ensures 0 < child < |h| && Parent(child) == k
  {
    if 2 * k + 2 < |h| && cmp(h[2 * k + 1], h[2 * k + 2]) > 0 then 2 * k + 2 else 2 * k + 1
  }

  /** The chosen child is no larger than either child. */
  lemma ChosenChildIsSmaller<E(!new)>(h: seq<E>, cmp: (E, E) -> int, k: nat)
    requires IsComparator(cmp) && 2 * k + 1 < |h|
    ensures forall c :: 0 < c < |h| && Parent(c) == k ==> cmp(h[ChosenChild(h, cmp, k)], h[c]) <= 0
  {
    var child := ChosenChild(h, cmp, k);
    forall c | 0 < c < |h| && Parent(c) == k ensures cmp(h[child], h[c]) <= 0 {
      assert c == 2 * k + 1 || c == 2 * k + 2;
      if c == child {
        ComparatorReflexive(cmp, h[c]);
      }
    }
  }

  /** One round of sift-down: the smaller child moves into the hole and the
      hole moves to that child, because the item is larger than it. */
  lemma SiftDownStep<E(!new)>(h: seq<E>, cmp: (E, E) -> int, k: nat, x: E)
    requires IsComparator(cmp) && 2 * k + 1 < |h| && h[k] == x
    requires OrderedExceptFrom(h, cmp, k) && Bridged(h, cmp, k)
    requires cmp(x, h[ChosenChild(h, cmp, k)]) > 0
    ensures var child := ChosenChild(h, cmp, k);
      var h' := Swapped(h, k, child);
      OrderedExceptFrom(h', cmp, child) && Bridged(h', cmp, child)
  {
    var child := ChosenChild(h, cmp, k);
    ChosenChildIsSmaller(h, cmp, k);
    var c0 := h[child];
    var h' := Swapped(h, k, child);
    forall c | 0 < c < |h'| && Parent(c) != child ensures cmp(h'[Parent(c)], h'[c]) <= 0 {
      if c == k {
        assert cmp(h[Parent(k)], c0) <= 0;
      } else if c == child {
        assert cmp(c0, x) < 0;
      } else if Parent(c) == k {
        assert cmp(c0, h[c]) <= 0;
      }
    }
    forall c | 0 < c < |h'| && Parent(c) == child ensures cmp(h'[Parent(child)], h'[c]) <= 0 {
      assert cmp(c0, h[c]) <= 0;
    }
  }

  /** Sift-down stops when the item is no larger than the smaller child, or
      when the hole has no children; the hole then closes. */
  lemma SiftDownDone<E(!new)>(h: seq<E>, cmp: (E, E) -> int, k: nat)
    requires IsComparator(cmp) && k < |h|
    requires OrderedExceptFrom(h, cmp, k)
    requires 2 * k + 1 < |h| ==> cmp(h[k], h[ChosenChild(h, cmp, k)]) <= 0
    ensures HeapOrdered(h, cmp)
  {
    if 2 * k + 1 < |h| {
      var child := ChosenChild(h, cmp, k);
      ChosenChildIsSmaller(h, cmp, k);
      forall c | 0 < c < |h| && Parent(c) == k ensures cmp(h[k], h[c]) <= 0 {
        assert NotAfter(cmp, h[k], h[child]) && NotAfter(cmp, h[child], h[c]);
      }
    } else {
      forall c | 0 < c < |h| ensures Parent(c) != k {
      }
    }
  }

  /** `getParentPos` of `com.company.SimpleHeap`: the root has no parent. */
  function GetParentPos(pos: int): (r: Result<int>)
    ensures pos <= 0 <==> r == Failure(IllegalStateException)
    ensures r.Success? ==> 0 <= r.value < pos && (pos == 2 * r.value + 1 || pos == 2 * r.value + 2)
  {
    if pos <= 0 then Failure(IllegalStateException) else Success((pos - 1) / 2)
  }

  /** Java's `Integer.compareTo`. */
  function IntCompare(a: int, b: int): int
  {
    if a < b then -1 else if a == b then 0 else 1
  }

  lemma IntCompareIsComparator()
    ensures IsComparator(IntCompare)
  {
  }

  /** The slots of an array of `capacity` slots holding `h` in its first
      `|h|` slots and null in the rest. */
  function Filled<E>(h: seq<E>, capacity: nat): (a: seq<Option<E>>)
    requires |h| <= capacity
    ensures |a| == capacity
  {
    seq(capacity, i requires 0 <= i < capacity => if i < |h| then Some(h[i]) else None)
  }

  /** `h` with the elements at `i` and `j` exchanged. */
  function Swapped<E>(h: seq<E>, i: nat, j: nat): (r: seq<E>)
    requires i < |h| && j < |h|
    ensures |r| == |h| && r[i] == h[j] && r[j] == h[i]
    ensures forall k :: 0 <= k < |h| && k != i && k != j ==> r[k] == h[k]
    ensures multiset(r) == multiset(h)
  {
    h[i := h[j]][j := h[i]]
  }

  /** A slot other than the hole holds the element `h` puts there. */
  lemma FilledSlot<E>(a: seq<Option<E>>, h: seq<E>, capacity: nat, hole: nat, x: E, i: nat)
    requires |h| <= capacity && |a| == capacity && hole < capacity && i < |h| && i != hole
    requires a[hole := Some(x)] == Filled(h, capacity)
    ensures a[i] == Some(h[i])
  {
    assert a[hole := Some(x)][i] == a[i];
  }

  /** Moving the element at `other` into the hole at `hole`, where the array
      holds a stale value, is one array write; the hole moves to `other`. */
  lemma FilledSwap<E>(a: seq<Option<E>>, h: seq<E>, capacity: nat, hole: nat, other: nat)
    requires |h| <= capacity && hole < |h| && other < |h| && hole != other
    requires |a| == capacity && a[hole := Some(h[hole])] == Filled(h, capacity)
    ensures a[hole := Some(h[other])][other := Some(h[hole])] == Filled(Swapped(h, hole, other), capacity)
  {
    var a' := a[hole := Some(h[other])][other := Some(h[hole])];
    var f := Filled(Swapped(h, hole, other), capacity);
    forall i | 0 <= i < capacity ensures a'[i] == f[i] {
      if i != hole && i != other {
        assert a[hole := Some(h[hole])][i] == a[i];
      }
    }
  }

  class SimpleHeap<E(!new)> {
    const capacity: nat
    const data: array<Option<E>>
    const cmp: (E, E) -> int
    var size: nat
    /** The elements in slots `0 .. size`, in slot order. */
    ghost var elems: seq<E>

    ghost predicate Valid()
      reads this, data
    {
      && data.Length == capacity
      && size <= capacity
      && |elems| == size
      && data[..] == Filled(elems, capacity)
      && IsComparator(cmp)
      && HeapOrdered(elems, cmp)
    }

    constructor(capacity: nat, cmp: (E, E) -> int)
      requires IsComparator(cmp)
      ensures Valid() && fresh(data)
      ensures this.capacity == capacity && this.cmp == cmp && elems == []
    {
      this.capacity := capacity;
      this.cmp := cmp;
      var slots := new Option<E>[capacity](_ => None);
      assert slots[..] == Filled([], capacity);
      data := slots;
      size := 0;
      elems := [];
    }

    function Size(): (n: nat)
      requires Valid()
      reads this, data
      ensures n == |elems| && n <= capacity
    {
      size
    }

    function IsEmpty(): (b: bool)
      requires Valid()
      reads this, data
      ensures b <==> elems == []
    {
      size == 0
    }

    function IsFull(): (b: bool)
      requires Valid()
      reads this, data
      ensures b <==> |elems| == capacity
    {
      capacity == size
    }

    /** The write of one sift round: the element at `other` moves into the
        hole at `hole`, and the hole moves to `other`. */
    method Fill(hole: nat, other: nat, ghost g: seq<E>, ghost x: E)
      requires data.Length == capacity && |g| <= capacity && hole < |g| && other < |g| && hole != other
      requires g[hole] == x && data[..][hole := Some(x)] == Filled(g, capacity)
      modifies data
      ensures data[..][other := Some(x)] == Filled(Swapped(g, hole, other), capacity)
    {
      FilledSlot(data[..], g, capacity, hole, x, other);
      ghost var before := data[..];
      data[hole] := data[other];
      assert data[..] == before[hole := Some(g[other])];
      FilledSwap(before, g, capacity, hole, other);
    }

    /** `add`: refuses when full, otherwise sifts the item up from the first
        free slot. */
    method Add(item: E) returns (outcome: Outcome)
      requires Valid()
      modifies this, data
      ensures Valid()
      ensures outcome == Threw(IllegalStateException) <==> old(size) >= capacity
      ensures outcome == Completed <==> old(size) < capacity
      ensures outcome.Threw? ==> unchanged(this) && unchanged(data)
      ensures outcome == Completed ==> size == old(size) + 1 && multiset(elems) == multiset(old(elems)) + multiset{item}
    {
      if size >= capacity {
        return Threw(IllegalStateException);
      }
      var k := size;
      ghost var h := elems + [item];
      assert data[..][k := Some(item)] == Filled(h, capacity);
      while k > 0
        invariant k <= size && |h| == size + 1 && h[k] == item
        invariant data[..][k := Some(item)] == Filled(h, capacity)
        invariant multiset(h) == multiset(elems) + multiset{item}
        invariant OrderedExceptInto(h, cmp, k) && Bridged(h, cmp, k)
        modifies data
      {
        var parent := Parent(k);
        FilledSlot(data[..], h, capacity, k, item, parent);
        var e := data[parent].value;
        if cmp(item, e) >= 0 {
          SiftUpDone(h, cmp, k);
          break;
        }
        Fill(k, parent, h, item);
        SiftUpStep(h, cmp, k, item);
        h := Swapped(h, k, parent);
        k := parent;
      }
      SiftUpDone(h, cmp, k);
      ghost var before := data[..];
      data[k] := Some(item);
      assert data[..] == before[k := Some(item)];
      elems := h;
      size := size + 1;
      return Completed;
    }

    /** `poll`: takes the root out, moves the last element into its place
        and sifts it down; `None` (Java's null) when empty. */
    method Poll() returns (r: Option<E>)
      requires Valid()
      modifies this, data
      ensures Valid()
      ensures r == None <==> old(size) == 0
      ensures r == None ==> unchanged(this) && unchanged(data)
      ensures r.Some? ==> size == old(size) - 1 && data[size] == None
      ensures r.Some? ==> r.value in old(elems) && forall x :: x in old(elems) ==> cmp(r.value, x) <= 0
      ensures r.Some? ==> multiset(elems) == multiset(old(elems)) - multiset{r.value}
    {
      if size == 0 {
        return None;
      }
      RootIsMinimum(elems, cmp);
      size := size - 1;
      var s := size;
      assert data[..][0] == data[0] && data[..][s] == data[s];
      var top := data[0].value;
      var last := data[s].value;
      ghost var before := data[..];
      data[s] := None;
      assert data[..] == before[s := None];
      assert elems == elems[..s] + [last];
      if s != 0 {
        var h := elems[..s][0 := last];
        assert OrderedExceptFrom(h, cmp, 0) by {
          forall c | 0 < c < |h| && Parent(c) != 0 ensures cmp(h[Parent(c)], h[c]) <= 0 {
            assert h[Parent(c)] == elems[Parent(c)] && h[c] == elems[c];
          }
        }
        assert data[..][0 := Some(last)] == Filled(h, capacity);
        PushDown(last, h);
      } else {
        elems := [];
        assert data[..] == Filled(elems, capacity);
      }
      return Some(top);
    }

    /** The child `pushDown` compares `x` with: the left one, or the right
        one when it exists and the left one is strictly greater. */
    method SmallerChild(k: nat, ghost g: seq<E>, ghost x: E) returns (child: nat, c: E)
      requires data.Length == capacity && |g| == size <= capacity && 2 * k + 1 < size
      requires data[..][k := Some(x)] == Filled(g, capacity)
      ensures child == ChosenChild(g, cmp, k) && c == g[child]
    {
      child := 2 * k + 1;
      FilledSlot(data[..], g, capacity, k, x, child);
      c := data[child].value;
      var right := child + 1;
      if right < size {
        FilledSlot(data[..], g, capacity, k, x, right);
        var r := data[right].value;
        if cmp(c, r) > 0 {
          child := right;
          c := r;
        }
      }
    }

    /** `pushDown` (`moveDown` in the other two copies): sifts `x` down from
        the root, moving to the right child only when the left one is
        strictly greater, and stopping as soon as `x` is no larger than the
        chosen child. */
    method PushDown(x: E, ghost h: seq<E>)
      requires data.Length == capacity && 0 < size < capacity && |h| == size
      requires IsComparator(cmp) && h[0] == x
      requires data[..][0 := Some(x)] == Filled(h, capacity)
      requires OrderedExceptFrom(h, cmp, 0)
      modifies this`elems, data
      ensures Valid() && multiset(elems) == multiset(h)
    {
      var k := 0;
      var half := size / 2;
      ghost var g := h;
      while k < half
        invariant k < size && |g| == size && g[k] == x
        invariant data[..][k := Some(x)] == Filled(g, capacity)
        invariant multiset(g) == multiset(h)
        invariant OrderedExceptFrom(g, cmp, k) && Bridged(g, cmp, k)
        modifies data
      {
        var child, c := SmallerChild(k, g, x);
        if cmp(x, c) <= 0 {
          SiftDownDone(g, cmp, k);
          break;
        }
        Fill(k, child, g, x);
        SiftDownStep(g, cmp, k, x);
        g := Swapped(g, k, child);
        k := child;
      }
      if k >= half {
        SiftDownDone(g, cmp, k);
      }
      ghost var before := data[..];
      data[k] := Some(x);
      assert data[..] == before[k := Some(x)];
      elems := g;
    }
  }

  /** Adding `0 .. n-1` in any order and then polling `n` times yields
      `0, 1, ..., n-1`: the increasing, decreasing and shuffled cases of the
      heap's unit tests at once. */
  method DrainInOrder(xs: seq<int>) returns (polled: seq<int>)
    requires multiset(xs) == multiset(Ascending(0, |xs|))
    ensures polled == Ascending(0, |xs|)
  {
    var heap := AddAll(xs);
    polled := PollAll(heap);
  }

  /** A fresh heap of capacity `|xs|` after adding every element of `xs`. */
  method AddAll(xs: seq<int>) returns (heap: SimpleHeap<int>)
    ensures fresh(heap) && fresh(heap.data) && heap.Valid()
    ensures heap.cmp == IntCompare && multiset(heap.elems) == multiset(xs)
  {
    IntCompareIsComparator();
    heap := new SimpleHeap<int>(|xs|, IntCompare);
    var i := 0;
    while i < |xs|
      invariant 0 <= i <= |xs| && heap.Valid() && fresh(heap.data)
      invariant heap.capacity == |xs| && heap.cmp == IntCompare
      invariant |heap.elems| == i && multiset(heap.elems) == multiset(xs[..i])
    {
      assert xs[..i + 1] == xs[..i] + [xs[i]];
      var outcome := heap.Add(xs[i]);
      i := i + 1;
    }
    assert xs[..i] == xs;
  }

  /** Polling a heap holding `0 .. n-1` until it is empty. */
  method PollAll(heap: SimpleHeap<int>) returns (polled: seq<int>)
    requires heap.Valid() && heap.cmp == IntCompare
    requires multiset(heap.elems) == multiset(Ascending(0, |heap.elems|))
    modifies heap, heap.data
    ensures polled == Ascending(0, |old(heap.elems)|)
  {
    var n := heap.Size();
    var lo := 0;
    polled := [];
    while lo < n
      invariant 0 <= lo <= n && heap.Valid() && heap.cmp == IntCompare
      invariant polled == Ascending(0, lo)
      invariant |heap.elems| == n - lo && multiset(heap.elems) == multiset(Ascending(lo, n))
    {
      ghost var before := heap.elems;
      var r := heap.Poll();
      var m := r.value;
      PollFromRange(before, heap.elems, lo, n, m, heap.cmp);
      polled := polled + [m];
      AscendingExtend(0, lo);
      lo := lo + 1;
    }
  }

  /** The integers `lo, lo+1, ..., hi-1`. */
  function Ascending(lo: int, hi: int): (r: seq<int>)
    ensures |r| == if lo <= hi then hi - lo else 0
    ensures forall k :: 0 <= k < |r| ==> r[k] == lo + k
    decreases hi - lo
  {
    if lo >= hi then [] else [lo] + Ascending(lo + 1, hi)
  }

  lemma AscendingSplit(lo: int, hi: int)
    requires lo < hi
    ensures Ascending(lo, hi) == [lo] + Ascending(lo + 1, hi)
  {
  }

  lemma AscendingExtend(lo: int, hi: int)
    requires lo <= hi
    ensures Ascending(lo, hi + 1) == Ascending(lo, hi) + [hi]
  {
  }

  /** Polling a heap that holds `lo .. hi-1` yields `lo` and leaves
      `lo+1 .. hi-1`. */
  lemma PollFromRange(before: seq<int>, after: seq<int>, lo: int, hi: int, m: int, cmp: (int, int) -> int)
    requires lo < hi && multiset(before) == multiset(Ascending(lo, hi))
    requires cmp == IntCompare
    requires m in before && forall x :: x in before ==> cmp(m, x) <= 0
    requires multiset(after) == multiset(before) - multiset{m}
    ensures m == lo && multiset(after) == multiset(Ascending(lo + 1, hi))
  {
    AscendingSplit(lo, hi);
    assert lo in multiset(before);
    assert m in multiset(Ascending(lo, hi));
    AscendingMember(lo, hi, m);
    assert IntCompare(m, lo) <= 0;
  }

  lemma AscendingMember(lo: int, hi: int, m: int)
    requires m in multiset(Ascending(lo, hi))
    ensures lo <= m < hi
  {
    var r := Ascending(lo, hi);
    assert m in r;
    var k :| 0 <= k < |r| && r[k] == m;
  }
}
