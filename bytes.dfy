/** Bytes of a text line and the orders the sorter puts on them.

    A line is a sequence of bytes; the sorter decodes it to a Java `String`
    and compares with `String.compareTo`.  With one byte per character the
    characters of the decoded line are its bytes, so `JavaCompare` below is
    `String.compareTo` on the line's bytes. */
module Bytes {

  type byte = b: int | 0 <= b < 256

  /** The line separator, one byte: '\n'. */
  const NEWLINE: byte := 10

  function Min(x: int, y: int): int
  {
    if x <= y then x else y
  }

  function Sign(x: int): int
  {
    if x < 0 then -1 else if x > 0 then 1 else 0
  }

  /** `String.compareTo`: the difference of the first pair of characters that
      differ, or else the difference of the lengths. */
  function JavaCompare(a: seq<byte>, b: seq<byte>): int
  {
    if a == [] || b == [] then |a| - |b|
    else if a[0] != b[0] then a[0] - b[0]
    else JavaCompare(a[1..], b[1..])
  }

  /** The concatenation of a sequence of chunks. */
  function Flatten(chunks: seq<seq<byte>>): seq<byte>
  {
    if chunks == [] then [] else chunks[0] + Flatten(chunks[1..])
  }

  /** `a` is ordered no later than `b`. */
  ghost predicate NotAfter<E>(cmp: (E, E) -> int, a: E, b: E)
  {
    cmp(a, b) <= 0
  }

  /** The contract of Java's `Comparable.compareTo`: the sign flips when the
      operands are swapped, and "not after" is transitive.  Together these
      make `NotAfter` a total preorder.  Transitivity is stated on `NotAfter`
      so that a proof uses it only where it names the steps of the chain. */
  ghost predicate IsComparator<E(!new)>(cmp: (E, E) -> int)
  {
    && (forall a, b :: cmp(a, b) > 0 <==> cmp(b, a) < 0)
    && (forall a, b, c {:trigger NotAfter(cmp, a, b), NotAfter(cmp, b, c)} ::
          NotAfter(cmp, a, b) && NotAfter(cmp, b, c) ==> NotAfter(cmp, a, c))
  }

  /** Under the `Comparable` contract every element compares equal to
      itself. */
  lemma ComparatorReflexive<E(!new)>(cmp: (E, E) -> int, x: E)
    requires IsComparator(cmp)
    ensures cmp(x, x) == 0
  {
    assert cmp(x, x) > 0 <==> cmp(x, x) < 0;
  }

  /** `s` is in ascending order under `cmp`. */
  ghost predicate Sorted<E>(s: seq<E>, cmp: (E, E) -> int)
  {
    forall i, j :: 0 <= i < j < |s| ==> cmp(s[i], s[j]) <= 0
  }

  lemma {:induction false} FlattenAppend(xs: seq<seq<byte>>, ys: seq<seq<byte>>)
    ensures Flatten(xs + ys) == Flatten(xs) + Flatten(ys)
  {
    if xs != [] {
      calc {
        Flatten(xs + ys);
        { assert (xs + ys)[1..] == xs[1..] + ys; }
        xs[0] + Flatten(xs[1..] + ys);
        { FlattenAppend(xs[1..], ys); }
        xs[0] + (Flatten(xs[1..]) + Flatten(ys));
      }
    } else {
      assert xs + ys == ys;
    }
  }

  /** Swapping the operands negates the result. */
  lemma {:induction false} JavaCompareAntisymmetric(a: seq<byte>, b: seq<byte>)
    ensures JavaCompare(b, a) == -JavaCompare(a, b)
  {
    if a != [] && b != [] && a[0] == b[0] {
      JavaCompareAntisymmetric(a[1..], b[1..]);
    }
  }

  /** The result is zero exactly for equal byte sequences. */
  lemma {:induction false} JavaCompareZeroIffEqual(a: seq<byte>, b: seq<byte>)
    ensures JavaCompare(a, b) == 0 <==> a == b
  {
    if a != [] && b != [] && a[0] == b[0] {
      JavaCompareZeroIffEqual(a[1..], b[1..]);
      assert a == [a[0]] + a[1..] && b == [b[0]] + b[1..];
    } else if a != [] && b != [] {
      assert a[0] != b[0];
    }
  }

  lemma {:induction false} JavaCompareTransitive(a: seq<byte>, b: seq<byte>, c: seq<byte>)
    requires JavaCompare(a, b) <= 0 && JavaCompare(b, c) <= 0
    ensures JavaCompare(a, c) <= 0
  {
    if a != [] && b != [] && c != [] && a[0] == b[0] == c[0] {
      JavaCompareTransitive(a[1..], b[1..], c[1..]);
    }
  }

  /** `String.compareTo` meets the `Comparable` contract. */
  lemma JavaCompareIsComparator()
    ensures IsComparator(JavaCompare)
  {
    forall a, b ensures JavaCompare(a, b) > 0 <==> JavaCompare(b, a) < 0 {
      JavaCompareAntisymmetric(a, b);
    }
    forall a, b, c | NotAfter(JavaCompare, a, b) && NotAfter(JavaCompare, b, c)
      ensures NotAfter(JavaCompare, a, c)
    {
      JavaCompareTransitive(a, b, c);
    }
  }

  /** A common prefix does not change the comparison. */
  lemma {:induction false} JavaCompareCommonPrefix(p: seq<byte>, x: seq<byte>, y: seq<byte>)
    ensures JavaCompare(p + x, p + y) == JavaCompare(x, y)
  {
    if p != [] {
      assert (p + x)[1..] == p[1..] + x && (p + y)[1..] == p[1..] + y;
      JavaCompareCommonPrefix(p[1..], x, y);
    } else {
      assert p + x == x && p + y == y;
    }
  }

  /** Once two sequences differ, appending bytes keeps the sign of the
      comparison, provided nothing is appended to the one that is a proper
      prefix of the other. */
  lemma {:induction false} JavaCompareExtend(a: seq<byte>, b: seq<byte>, x: seq<byte>, y: seq<byte>)
    requires JavaCompare(a, b) != 0
    requires |a| < |b| ==> x == []
    requires |b| < |a| ==> y == []
    ensures Sign(JavaCompare(a + x, b + y)) == Sign(JavaCompare(a, b))
  {
    if a == [] {
      assert a + x == [];
    } else if b == [] {
      assert b + y == [];
    } else if a[0] != b[0] {
      assert (a + x)[0] == a[0] && (b + y)[0] == b[0];
    } else {
      assert (a + x)[1..] == a[1..] + x && (b + y)[1..] == b[1..] + y;
      JavaCompareExtend(a[1..], b[1..], x, y);
    }
  }
}
