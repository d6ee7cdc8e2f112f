/** `org.dpinol.ParallelFilesMerger`: merges sorted files by splitting them
    into at most three segments of neighbouring files, merging each segment
    into a queue of its own, and merging the queues into the output.

    Only the sequential rules are modelled: the checks of the constructor,
    the number of segments, the partition of the input files into
    segments, when all input mergers are done, and the output side's
    supplier, which polls a segment's queue and reports the end of the
    stream.  The thread pool and the input mergers themselves are the
    environment: what they do while the supplier waits is given to it as a
    sequence of `Event`s.  Lines are of any type `E`. */
module ParallelFilesMergers {
  import opened Bytes
  import opened Wrappers

  /** `MAX_NUM_MERGERS`. */
  const MAX_NUM_MERGERS: nat := 3

  /** `numSegments`: one segment per file, up to three. */
  function NumSegments(numInputs: nat): (k: nat)
    ensures k <= MAX_NUM_MERGERS && k <= numInputs
    ensures numInputs > 0 ==> k > 0
    ensures k == MAX_NUM_MERGERS || k == numInputs
  {
    Min(MAX_NUM_MERGERS, numInputs)
  }

  /** The end of segment `s` of `k` over `n` files: `(s + 1) * n / k`,
      rounded down. */
  function Boundary(s: nat, n: nat, k: nat): nat
    requires k > 0
  {
    (s + 1) * n / k
  }

  /** The files `[first, next)` handed to one input merger (`subList`). */
  datatype Segment = Segment(first: nat, next: nat)

  /** The partition `createInputMergers` builds: segment `j` runs from the
      end of segment `j - 1` (or 0) to `Boundary(j)`. */
  function Partition(n: nat, k: nat): seq<Segment>
    requires k > 0
  {
    seq(k, j requires 0 <= j < k => Segment(if j == 0 then 0 else Boundary(j - 1, n, k), Boundary(j, n, k)))
  }

  /** The indices `lo, lo + 1, ..., hi - 1`. */
  function Range(lo: nat, hi: nat): seq<nat>
  {
    if hi <= lo then [] else seq(hi - lo, i requires 0 <= i < hi - lo => lo + i)
  }

  /** The file indices of the segments, in order. */
  function Indices(segments: seq<Segment>): seq<nat>
  {
    if segments == [] then []
    else Indices(segments[..|segments| - 1]) + Range(segments[|segments| - 1].first, segments[|segments| - 1].next)
  }

  /** The quotient is the one `q` with `y == q * k + r` and `0 <= r < k`. */
  lemma DivUnique(y: int, k: int, q: int, r: int)
    requires k > 0 && 0 <= r < k && y == q * k + r
    ensures y / k == q
  {
    var q', r' := y / k, y % k;
    assert y == q' * k + r';
    assert (q' - q) * k == r - r';
    if q' > q {
      MulAtLeast(q' - q, k);
    } else if q' < q {
      MulAtLeast(q - q', k);
    }
  }

  lemma MulAtLeast(a: int, k: int)
    requires a >= 1 && k > 0
    ensures a * k >= k
  {
    assert a * k == (a - 1) * k + k;
  }

  /** Adding `k` to the numerator adds one to the quotient. */
  lemma DivStep(x: nat, k: nat)
    requires k > 0
    ensures (x + k) / k == x / k + 1
  {
    var q, r := x / k, x % k;
    assert x == q * k + r;
    assert x + k == (q + 1) * k + r;
    DivUnique(x + k, k, q + 1, r);
  }

  /** With no more segments than files, every segment gets at least one
      file. */
  lemma {:induction false} BoundaryGrows(s: nat, n: nat, k: nat)
    requires 0 < k <= n
    ensures Boundary(s, n, k) < Boundary(s + 1, n, k)
  {
    var x := (s + 1) * n;
    assert (s + 2) * n == x + n;
    assert x + k <= x + n;
    DivStep(x, k);
    DivMonotone(x + k, x + n, k);
  }

  lemma DivMonotone(x: nat, y: nat, k: nat)
    requires k > 0 && x <= y
    ensures x / k <= y / k
  {
    var p, q := x / k, y / k;
    assert x == p * k + x % k;
    assert y == q * k + y % k;
    if p > q {
      MulAtLeast(p - q, k);
    }
  }

  /** The last segment ends at the last file. */
  lemma LastBoundary(n: nat, k: nat)
    requires k > 0
    ensures Boundary(k - 1, n, k) == n
  {
    DivUnique(k * n, k, n, 0);
  }

  /** The two branches of the loop body agree: when `segmentIndex` is the
      last index of the suppliers, the formula gives `numInputs` too. */
  lemma LastSupplierBoundary(s: nat, n: nat)
    requires 0 < n && s < NumSegments(n) && s == n - 1
    ensures Boundary(s, n, NumSegments(n)) == n
  {
    LastBoundary(n, NumSegments(n));
  }

  /** The partition is what `createInputMergers` promises: each segment is
      non-empty, they follow each other with no gap and no overlap, and
      together they are the files `0 .. n - 1`, each exactly once and in
      order. */
  lemma PartitionCovers(n: nat, k: nat)
    requires 0 < k <= n
    ensures forall j :: 0 <= j < k ==> Partition(n, k)[j].first < Partition(n, k)[j].next
    ensures forall j :: 0 < j < k ==> Partition(n, k)[j].first == Partition(n, k)[j - 1].next
    ensures Indices(Partition(n, k)) == Range(0, n)
  {
    var p := Partition(n, k);
    forall j | 0 <= j < k ensures p[j].first < p[j].next {
      if j > 0 {
        BoundaryGrows(j - 1, n, k);
      } else {
        assert Boundary(0, n, k) >= 1 by {
          DivMonotone(k, n, k);
          assert k / k == 1;
        }
      }
    }
    PrefixIndices(n, k, k);
    assert p[..k] == p;
    LastBoundary(n, k);
  }

  /** The first `m` segments cover the files up to the end of segment
      `m - 1`. */
  lemma {:induction false} PrefixIndices(n: nat, k: nat, m: nat)
    requires 0 < k <= n && 0 < m <= k
    requires forall j :: 0 <= j < k ==> Partition(n, k)[j].first < Partition(n, k)[j].next
    ensures Indices(Partition(n, k)[..m]) == Range(0, Boundary(m - 1, n, k))
  {
    var p := Partition(n, k);
    assert p[..m][..m - 1] == p[..m - 1];
    if m == 1 {
      assert Indices(p[..0]) == [];
    } else {
      PrefixIndices(n, k, m - 1);
      RangeJoin(0, Boundary(m - 2, n, k), Boundary(m - 1, n, k));
    }
  }

  lemma RangeJoin(lo: nat, mid: nat, hi: nat)
    requires lo <= mid <= hi
    ensures Range(lo, mid) + Range(mid, hi) == Range(lo, hi)
  {
  }

  /** Adding `n` to the numerator adds `n / k` or `n / k + 1` to the
      quotient. */
  lemma DivOfSum(a: nat, n: nat, k: nat)
    requires k > 0
    ensures n / k <= (a + n) / k - a / k <= n / k + 1
  {
    var qa, ra := a / k, a % k;
    var qn, rn := n / k, n % k;
    assert a == qa * k + ra;
    assert n == qn * k + rn;
    assert a + n == (qa + qn) * k + (ra + rn);
    if ra + rn < k {
      DivUnique(a + n, k, qa + qn, ra + rn);
    } else {
      assert a + n == (qa + qn + 1) * k + (ra + rn - k);
      DivUnique(a + n, k, qa + qn + 1, ra + rn - k);
    }
  }

  /** Segments of "approx the same number of files": each holds `n / k`
      or `n / k + 1` of them. */
  lemma SegmentsBalanced(n: nat, k: nat, j: nat)
    requires 0 < k && j < k
    ensures n / k <= Partition(n, k)[j].next - Partition(n, k)[j].first <= n / k + 1
  {
    if j == 0 {
      DivOfSum(0, n, k);
    } else {
      assert (j + 1) * n == j * n + n;
      DivOfSum(j * n, n, k);
    }
  }

  /** The constructor's checks: `IllegalArgumentException` for an empty
      list of files or for any file of length 0. */
  function CheckInputs(fileLengths: seq<nat>): (o: Outcome)
    ensures o == Completed <==> |fileLengths| > 0 && forall i :: 0 <= i < |fileLengths| ==> fileLengths[i] > 0
    ensures o != Completed ==> o == Threw(IllegalArgumentException)
  {
    if |fileLengths| == 0 then Threw(IllegalArgumentException)
    else if exists i :: 0 <= i < |fileLengths| && fileLengths[i] == 0 then Threw(IllegalArgumentException)
    else Completed
  }

  /** What the input mergers do while the output side waits on a queue:
      push a line into the queue being polled, finish one input merger
      (`numInputMergersFinished.addAndGet(1)`), or nothing that concerns
      this queue. */
  datatype Event<E> = Arrive(line: E) | Finish | Idle

  function Arrivals<E>(events: seq<Event<E>>): seq<E>
  {
    if events == [] then []
    else Arrivals(events[..|events| - 1]) + (if events[|events| - 1].Arrive? then [events[|events| - 1].line] else [])
  }

  function Finishes<E>(events: seq<Event<E>>): nat
  {
    if events == [] then 0 else Finishes(events[..|events| - 1]) + (if events[|events| - 1].Finish? then 1 else 0)
  }

  class ParallelFilesMerger<E> {
    const numInputs: nat
    const numSegments: nat
    /** One queue per input file (only the first `numSegments` are used). */
    var queues: seq<seq<E>>
    /** `numInputMergersFinished`. */
    var finished: nat

    /** The state right after the checks: one empty queue per file. */
    constructor(qs: seq<seq<E>>)
      requires forall i :: 0 <= i < |qs| ==> qs[i] == []
      ensures numInputs == |qs| && numSegments == NumSegments(|qs|)
      ensures queues == qs && finished == 0
    {
      numInputs := |qs|;
      numSegments := NumSegments(|qs|);
      queues := qs;
      finished := 0;
    }

    /** `new ParallelFilesMerger(inputFiles, ...)`, given the files'
        lengths: throws `IllegalArgumentException` when there are no files
        or when it meets a file of length 0, and otherwise creates one
        queue per file and up to three segments. */
    static method Create(fileLengths: seq<nat>) returns (r: Result<ParallelFilesMerger<E>>)
      ensures r.Failure? <==> CheckInputs(fileLengths) != Completed
      ensures r.Failure? ==> r.error == IllegalArgumentException
      ensures r.Success? ==> fresh(r.value) && r.value.finished == 0
      ensures r.Success? ==> r.value.numInputs == |fileLengths| && r.value.numSegments == NumSegments(|fileLengths|)
      ensures r.Success? ==> 1 <= r.value.numSegments <= MAX_NUM_MERGERS
      ensures r.Success? ==> |r.value.queues| == |fileLengths| && forall i :: 0 <= i < |fileLengths| ==> r.value.queues[i] == []
    {
      if |fileLengths| == 0 {
        return Failure(IllegalArgumentException);
      }
      var qs: seq<seq<E>> := [];
      var i := 0;
      while i < |fileLengths|
        invariant 0 <= i <= |fileLengths| && |qs| == i
        invariant forall j :: 0 <= j < i ==> qs[j] == [] && fileLengths[j] > 0
      {
        if fileLengths[i] == 0 {
          return Failure(IllegalArgumentException);
        }
        qs := qs + [[]];
        i := i + 1;
      }
      var m := new ParallelFilesMerger(qs);
      return Success(m);
    }

    /** `isAllInputsRead`: every input merger has finished, one per
        segment. */
    predicate IsAllInputsRead()
      reads this
      ensures IsAllInputsRead() <==> finished == numSegments
    {
      finished == numSegments
    }

    /** The end of an input merger's task
        (`numInputMergersFinished.addAndGet(1)`): one more merger has
        finished, and all inputs are read exactly when it was the last of
        the segments' mergers still running. */
    method FinishInputMerger()
      requires finished < numSegments
      modifies this`finished
      ensures finished == old(finished) + 1 <= numSegments
      ensures IsAllInputsRead() <==> old(finished) == numSegments - 1
      ensures !old(IsAllInputsRead())
    {
      finished := finished + 1;
    }

    /** `createInputMergers`: the loop that cuts the files into segments,
        moving `firstIndex` along. */
    method CreateInputMergers() returns (segments: seq<Segment>)
      requires 0 < numSegments <= numInputs
      ensures segments == Partition(numInputs, numSegments)
    {
      var firstIndex := 0;
      segments := [];
      var segmentIndex := 0;
      while segmentIndex < numSegments
        invariant 0 <= segmentIndex <= numSegments && |segments| == segmentIndex
        invariant firstIndex == if segmentIndex == 0 then 0 else Boundary(segmentIndex - 1, numInputs, numSegments)
        invariant segments == Partition(numInputs, numSegments)[..segmentIndex]
      {
        var nextFirstIndex;
        if segmentIndex == numInputs - 1 {
          nextFirstIndex := numInputs;
          LastBoundary(numInputs, numSegments);
          assert numSegments == numInputs;
        } else {
          nextFirstIndex := (segmentIndex + 1) * numInputs / numSegments;
        }
        segments := segments + [Segment(firstIndex, nextFirstIndex)];
        firstIndex := nextFirstIndex;
        segmentIndex := segmentIndex + 1;
      }
    }

    /** The output side's supplier for segment `s`: while not all inputs
        are read or the queue holds lines, poll the queue; a poll returns
        the head if there is one, otherwise it waits, during which the
        input mergers do `events[used]`, and returns what arrived, if
        anything.  It returns null only once every input merger has
        finished and the queue is empty. */
    method NextOutputLine(s: nat, events: seq<Event<E>>) returns (r: Option<E>, used: nat)
      requires s < numSegments <= |queues| && finished <= numSegments
      requires finished + Finishes(events) == numSegments
      modifies this`queues, this`finished
      ensures used <= |events| && |queues| == old(|queues|)
      ensures finished == old(finished) + Finishes(events[..used])
      ensures forall i :: 0 <= i < |queues| && i != s ==> queues[i] == old(queues[i])
      ensures r.None? ==> IsAllInputsRead() && queues[s] == [] && old(queues[s]) == [] && Arrivals(events[..used]) == []
      ensures r.Some? ==> old(queues[s]) + Arrivals(events[..used]) == [r.value] + queues[s]
    {
      used := 0;
      while !(IsAllInputsRead() && queues[s] == [])
        invariant used <= |events| && |queues| == old(|queues|)
        invariant finished == old(finished) + Finishes(events[..used]) <= numSegments
        invariant finished + Finishes(events[used..]) == numSegments
        invariant forall i :: 0 <= i < |queues| && i != s ==> queues[i] == old(queues[i])
        invariant queues[s] == old(queues[s]) + Arrivals(events[..used])
        decreases |events| - used
      {
        if queues[s] != [] {
          r := Some(queues[s][0]);
          queues := queues[s := queues[s][1..]];
          return;
        }
        FinishesSplit(events, used);
        var e := events[used];
        assert events[..used + 1][..used] == events[..used];
        if e.Arrive? {
          queues := queues[s := queues[s] + [e.line]];
        } else if e.Finish? {
          finished := finished + 1;
        }
        used := used + 1;
        if queues[s] != [] {
          r := Some(queues[s][0]);
          queues := queues[s := queues[s][1..]];
          return;
        }
      }
      r := None;
    }
  }

  /** The finishes still to come are those of the next event and the rest. */
  lemma FinishesSplit<E>(events: seq<Event<E>>, i: nat)
    requires i < |events|
    ensures Finishes(events[..i + 1]) == Finishes(events[..i]) + (if events[i].Finish? then 1 else 0)
    ensures Finishes(events[i..]) == (if events[i].Finish? then 1 else 0) + Finishes(events[i + 1 ..])
  {
    assert events[..i + 1][..i] == events[..i];
    FinishesAppend(events[i..]);
  }

  lemma {:induction false} FinishesAppend<E>(tail: seq<Event<E>>)
    requires tail != []
    ensures Finishes(tail) == (if tail[0].Finish? then 1 else 0) + Finishes(tail[1..])
    decreases |tail|
  {
    if |tail| > 1 {
      var init := tail[..|tail| - 1];
      assert init[0] == tail[0];
      assert init[1..] == tail[1..][..|tail[1..]| - 1];
      FinishesAppend(init);
    } else {
      assert tail[1..] == [];
      assert tail[..0] == [];
    }
  }
}
