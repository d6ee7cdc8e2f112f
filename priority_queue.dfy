/** `java.util.PriorityQueue`, the library queue behind the `com.company`
    run builder and merger.  Only its contract is modelled: it holds a
    multiset of elements, and `poll` removes and returns one least element
    (which of several equal ones it picks is left open). */
module PriorityQueues {
  import opened Bytes
  import opened Wrappers

  /** `x` is in `m` and no element of `m` is ordered before it. */
  predicate IsLeast<E>(x: E, m: multiset<E>, cmp: (E, E) -> int)
  {
    x in m && forall y :: y in m ==> cmp(x, y) <= 0
  }

  /** Adding `y` to a multiset with least element `z`: the smaller of the
      two is least in the result. */
  lemma LeastOfInsert<E(!new)>(y: E, z: E, rest: multiset<E>, cmp: (E, E) -> int)
    requires IsComparator(cmp) && IsLeast(z, rest, cmp)
    ensures IsLeast(if cmp(y, z) <= 0 then y else z, rest + multiset{y}, cmp)
  {
    var m := rest + multiset{y};
    ComparatorReflexive(cmp, y);
    if cmp(y, z) <= 0 {
      forall w | w in m ensures cmp(y, w) <= 0 {
        if w != y {
          assert NotAfter(cmp, y, z) && NotAfter(cmp, z, w);
        }
      }
    } else {
      assert cmp(z, y) < 0;
    }
  }

  /** Under the `Comparable` contract every non-empty multiset has a least
      element. */
  lemma {:induction false} LeastExists<E(!new)>(m: multiset<E>, cmp: (E, E) -> int)
    requires IsComparator(cmp) && m != multiset{}
    ensures exists x :: IsLeast(x, m, cmp)
    decreases |m|
  {
    var y :| y in m;
    var rest := m - multiset{y};
    assert m == rest + multiset{y};
    if rest == multiset{} {
      ComparatorReflexive(cmp, y);
      assert IsLeast(y, m, cmp);
    } else {
      LeastExists(rest, cmp);
      var z :| IsLeast(z, rest, cmp);
      LeastOfInsert(y, z, rest, cmp);
    }
  }

  class PriorityQueue<E(==,!new)> {
    const cmp: (E, E) -> int
    var contents: multiset<E>

    constructor(cmp: (E, E) -> int)
      ensures this.cmp == cmp && contents == multiset{}
    {
      this.cmp := cmp;
      contents := multiset{};
    }

    function Size(): nat
      reads this
    {
      |contents|
    }

    function IsEmpty(): bool
      reads this
    {
      Size() == 0
    }

    method Add(x: E)
      modifies this
      ensures contents == old(contents) + multiset{x}
    {
      contents := contents + multiset{x};
    }

    /** Removes and returns a least element; `None` (null) when empty. */
    method Poll() returns (r: Option<E>)
      requires IsComparator(cmp)
      modifies this
      ensures r == None <==> old(contents) == multiset{}
      ensures r == None ==> contents == old(contents)
      ensures r.Some? ==> IsLeast(r.value, old(contents), cmp)
      ensures r.Some? ==> contents == old(contents) - multiset{r.value}
    {
      if contents == multiset{} {
        return None;
      }
      LeastExists(contents, cmp);
      var x :| IsLeast(x, contents, cmp);
      contents := contents - multiset{x};
      return Some(x);
    }
  }
}
