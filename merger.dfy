/** The k-way merger of `com.company`: one line reader per non-empty sorted
    run file, a priority queue holding the current line of each reader, and
    a loop that writes the least line and replaces it with the next line of
    the same reader.

    A reader is modelled by the lines it hands out before its first null,
    with a cursor (`read`) counting how many it has handed out; writing a
    line is modelled by appending it to `out`.  The lines are of any type
    ordered by a comparator `cmp` (for `BigLine` that is `compareTo`). */
module Mergers {
  import opened Bytes
  import opened Wrappers
  import opened PriorityQueues
  import FileLines
  import BigLines
  import BigLineReaders

  /** `LineWithOrigin`: a line and the index of the reader it came from. */
  datatype Entry<E> = Entry(line: E, readerIndex: nat)

  /** `LineWithOrigin.compareTo`: the lines alone decide; `readerIndex`
      does not break ties. */
  function EntryCmp<E>(cmp: (E, E) -> int): (Entry<E>, Entry<E>) -> int
  {
    (a: Entry<E>, b: Entry<E>) => cmp(a.line, b.line)
  }

  /** Ordering entries by their lines meets the `Comparable` contract when
      the line order does. */
  lemma EntryCmpIsComparator<E(!new)>(cmp: (E, E) -> int)
    requires IsComparator(cmp)
    ensures IsComparator(EntryCmp(cmp))
    ensures forall a: Entry<E>, b: Entry<E> :: EntryCmp(cmp)(a, b) == cmp(a.line, b.line)
  {
    var ec := EntryCmp(cmp);
    forall a: Entry<E>, b: Entry<E> ensures ec(a, b) > 0 <==> ec(b, a) < 0 {
      assert cmp(a.line, b.line) > 0 <==> cmp(b.line, a.line) < 0;
    }
    forall a: Entry<E>, b: Entry<E>, c: Entry<E> | NotAfter(ec, a, b) && NotAfter(ec, b, c)
      ensures NotAfter(ec, a, c)
    {
      assert NotAfter(cmp, a.line, b.line) && NotAfter(cmp, b.line, c.line);
    }
  }

  /** The constructor's loop: a reader is opened for each input file of
      non-zero length, in the order of the inputs.  The result holds the
      indices of the files opened. */
  method OpenReaders(lengths: seq<nat>) returns (readers: seq<nat>)
    ensures forall i :: i in readers <==> 0 <= i < |lengths| && lengths[i] > 0
    ensures forall a, b :: 0 <= a < b < |readers| ==> readers[a] < readers[b]
  {
    readers := [];
    var k := 0;
    while k < |lengths|
      invariant 0 <= k <= |lengths|
      invariant forall i :: i in readers <==> 0 <= i < k && lengths[i] > 0
      invariant forall a, b :: 0 <= a < b < |readers| ==> readers[a] < readers[b]
      invariant forall a :: 0 <= a < |readers| ==> readers[a] < k
    {
      if lengths[k] > 0 {
        readers := readers + [k];
      }
      k := k + 1;
    }
  }

  /** `getBigLine` of a reader that has handed out `read` of its `lines`:
      the next one, or null (`None`) once they are all out. */
  function ReadLine<E>(lines: seq<E>, read: nat): (r: Option<E>)
    ensures r.Some? <==> read < |lines|
    ensures r.Some? ==> r.value == lines[read]
  {
    if read < |lines| then Some(lines[read]) else None
  }

  /** `written[i]` counts the lines of reader `i` already written; it is
      never more than the reader has. */
  ghost predicate Counts<E>(sources: seq<seq<E>>, written: seq<nat>)
  {
    |written| == |sources| && forall i :: 0 <= i < |sources| ==> written[i] <= |sources[i]|
  }

  /** No reader among the first `n` is drained. */
  ghost predicate NoneDrained<E>(sources: seq<seq<E>>, written: seq<nat>, n: nat)
    requires n <= |sources| == |written|
  {
    forall i :: 0 <= i < n ==> written[i] < |sources[i]|
  }

  /** The queue holds, once each, the head of every reader among the first
      `n` that is not drained -- its first line not yet written -- and
      nothing else. */
  ghost predicate FrontIs<E>(q: multiset<Entry<E>>, sources: seq<seq<E>>, written: seq<nat>, n: nat)
    requires n <= |sources| == |written|
  {
    && (forall e :: e in q ==>
          && e.readerIndex < n && written[e.readerIndex] < |sources[e.readerIndex]|
          && e.line == sources[e.readerIndex][written[e.readerIndex]] && q[e] == 1)
    && (forall i {:trigger Entry(sources[i][written[i]], i)} ::
          0 <= i < n && written[i] < |sources[i]| ==> Entry(sources[i][written[i]], i) in q)
  }

  /** The lines of the first `n` readers written so far. */
  ghost function Written<E>(sources: seq<seq<E>>, written: seq<nat>, n: nat): multiset<E>
    requires n <= |sources| == |written|
  {
    if n == 0 then multiset{}
    else Written(sources, written, n - 1) + multiset(sources[n - 1][..Min(written[n - 1], |sources[n - 1]|)])
  }

  /** The number of lines of the first `n` readers not yet written. */
  ghost function Waiting<E>(sources: seq<seq<E>>, written: seq<nat>, n: nat): nat
    requires n <= |sources| == |written|
  {
    if n == 0 then 0
    else Waiting(sources, written, n - 1) + (|sources[n - 1]| - Min(written[n - 1], |sources[n - 1]|))
  }

  /** All lines of the first `n` readers. */
  ghost function Total<E>(sources: seq<seq<E>>, n: nat): multiset<E>
    requires n <= |sources|
  {
    if n == 0 then multiset{} else Total(sources, n - 1) + multiset(sources[n - 1])
  }

  /** `Written` of the first `m` readers looks only at those readers'
      counts. */
  lemma {:induction false} AgreeWritten<E>(sources: seq<seq<E>>, c: seq<nat>, d: seq<nat>, m: nat)
    requires m <= |sources| == |c| == |d|
    requires forall i :: 0 <= i < m ==> c[i] == d[i]
    ensures Written(sources, c, m) == Written(sources, d, m)
  {
    if m > 0 {
      AgreeWritten(sources, c, d, m - 1);
      assert c[m - 1] == d[m - 1];
    }
  }

  /** So does `Waiting`. */
  lemma {:induction false} AgreeWaiting<E>(sources: seq<seq<E>>, c: seq<nat>, d: seq<nat>, m: nat)
    requires m <= |sources| == |c| == |d|
    requires forall i :: 0 <= i < m ==> c[i] == d[i]
    ensures Waiting(sources, c, m) == Waiting(sources, d, m)
  {
    if m > 0 {
      AgreeWaiting(sources, c, d, m - 1);
      assert c[m - 1] == d[m - 1];
    }
  }

  /** An entry of the queue is the head of a reader that is not drained. */
  lemma FrontHead<E>(q: multiset<Entry<E>>, sources: seq<seq<E>>, written: seq<nat>, e: Entry<E>)
    requires |sources| == |written| && FrontIs(q, sources, written, |sources|) && e in q
    ensures e.readerIndex < |sources| && written[e.readerIndex] < |sources[e.readerIndex]|
    ensures e.line == sources[e.readerIndex][written[e.readerIndex]]
  {
  }

  /** The head of a reader that is not drained is in the queue. */
  lemma HeadInFront<E>(q: multiset<Entry<E>>, sources: seq<seq<E>>, written: seq<nat>, i: nat)
    requires |sources| == |written| && FrontIs(q, sources, written, |sources|)
    requires i < |sources| && written[i] < |sources[i]|
    ensures Entry(sources[i][written[i]], i) in q
  {
  }

  /** With an empty queue every reader is drained. */
  lemma EmptyFrontDrained<E>(sources: seq<seq<E>>, written: seq<nat>)
    requires Counts(sources, written) && FrontIs(multiset{}, sources, written, |sources|)
    ensures forall i :: 0 <= i < |sources| ==> written[i] == |sources[i]|
  {
    forall i: nat | i < |sources| ensures written[i] == |sources[i]| {
      if written[i] < |sources[i]| {
        HeadInFront(multiset{}, sources, written, i);
        assert false;
      }
    }
  }

  /** The next line of reader `j`, if it has one, as a queue entry. */
  ghost function Pushed<E>(sources: seq<seq<E>>, next: seq<nat>, j: nat): multiset<Entry<E>>
    requires j < |sources| == |next|
  {
    if next[j] < |sources[j]| then multiset{Entry(sources[j][next[j]], j)} else multiset{}
  }

  /** Writing the head `e` of reader `j` takes it out of the queue; the
      reader's next line, if it has one, takes its place. */
  lemma FrontStep<E>(q: multiset<Entry<E>>, sources: seq<seq<E>>, written: seq<nat>, e: Entry<E>,
                     next: seq<nat>, q': multiset<Entry<E>>)
    requires |sources| == |written| && FrontIs(q, sources, written, |sources|) && e in q
    requires e.readerIndex < |sources| && next == written[e.readerIndex := written[e.readerIndex] + 1]
    requires q' == q - multiset{e} + Pushed(sources, next, e.readerIndex)
    ensures FrontIs(q', sources, next, |sources|)
  {
    var n, j := |sources|, e.readerIndex;
    var rest := q - multiset{e};
    forall x: Entry<E> | x in q'
      ensures x.readerIndex < n && next[x.readerIndex] < |sources[x.readerIndex]|
      ensures x.line == sources[x.readerIndex][next[x.readerIndex]] && q'[x] == 1
    {
      if x in rest {
        assert x.readerIndex != j;
      }
    }
    forall i | 0 <= i < n && next[i] < |sources[i]|
      ensures Entry(sources[i][next[i]], i) in q'
    {
      if i != j {
        assert Entry(sources[i][written[i]], i) in q;
      }
    }
  }

  /** Writing the head line of reader `j` adds it to the lines written ... */
  lemma {:induction false} AdvanceWritten<E>(sources: seq<seq<E>>, written: seq<nat>, n: nat, j: nat)
    requires n <= |sources| == |written| && j < n && written[j] < |sources[j]|
    ensures Written(sources, written[j := written[j] + 1], n)
            == Written(sources, written, n) + multiset{sources[j][written[j]]}
  {
    var next := written[j := written[j] + 1];
    if j == n - 1 {
      AgreeWritten(sources, written, next, j);
      var s := sources[j];
      assert s[..written[j] + 1] == s[..written[j]] + [s[written[j]]];
    } else {
      AdvanceWritten(sources, written, n - 1, j);
      assert next[n - 1] == written[n - 1];
    }
  }

  /** ... and leaves one line fewer waiting. */
  lemma {:induction false} AdvanceWaiting<E>(sources: seq<seq<E>>, written: seq<nat>, n: nat, j: nat)
    requires n <= |sources| == |written| && j < n && written[j] < |sources[j]|
    ensures Waiting(sources, written[j := written[j] + 1], n) + 1 == Waiting(sources, written, n)
  {
    var next := written[j := written[j] + 1];
    if j == n - 1 {
      AgreeWaiting(sources, written, next, j);
    } else {
      AdvanceWaiting(sources, written, n - 1, j);
      assert next[n - 1] == written[n - 1];
    }
  }

  /** The counts stay valid, and a reader that is not drained after the
      step keeps "no reader drained" true. */
  lemma CountsStep<E>(sources: seq<seq<E>>, written: seq<nat>, j: nat)
    requires Counts(sources, written) && j < |sources| && written[j] < |sources[j]|
    ensures Counts(sources, written[j := written[j] + 1])
    ensures NoneDrained(sources, written, |sources|) && written[j] + 1 < |sources[j]| ==>
              NoneDrained(sources, written[j := written[j] + 1], |sources|)
  {
  }

  /** Once every reader is drained the written lines are all the lines. */
  lemma {:induction false} AllWritten<E>(sources: seq<seq<E>>, written: seq<nat>, n: nat)
    requires n <= |sources| == |written|
    requires forall i :: 0 <= i < n ==> written[i] == |sources[i]|
    ensures Written(sources, written, n) == Total(sources, n)
  {
    if n > 0 {
      AllWritten(sources, written, n - 1);
      var s := sources[n - 1];
      assert s[..|s|] == s;
    }
  }

  /** Before anything is written nothing is written. */
  lemma {:induction false} NothingWritten<E>(sources: seq<seq<E>>, n: nat)
    requires n <= |sources|
    ensures Written(sources, seq(|sources|, _ => 0), n) == multiset{}
  {
    if n > 0 {
      NothingWritten(sources, n - 1);
    }
  }

  /** Every reader's lines are in order. */
  ghost predicate AllSorted<E>(sources: seq<seq<E>>, cmp: (E, E) -> int)
  {
    forall i :: 0 <= i < |sources| ==> Sorted(sources[i], cmp)
  }

  /** Appending a line no earlier than the last one keeps a sequence
      sorted. */
  lemma SortedAppend<E(!new)>(s: seq<E>, x: E, cmp: (E, E) -> int)
    requires IsComparator(cmp) && Sorted(s, cmp)
    requires s != [] ==> cmp(s[|s| - 1], x) <= 0
    ensures Sorted(s + [x], cmp)
  {
    var t := s + [x];
    forall i, j | 0 <= i < j < |t| ensures cmp(t[i], t[j]) <= 0 {
      if j == |s| && i < |s| - 1 {
        assert NotAfter(cmp, t[i], s[|s| - 1]) && NotAfter(cmp, s[|s| - 1], x);
      }
    }
  }

  /** With sorted readers, the lines written are sorted and none comes after
      a line in the queue. */
  ghost predicate Ordered<E>(sources: seq<seq<E>>, cmp: (E, E) -> int, q: multiset<Entry<E>>, out: seq<E>)
  {
    AllSorted(sources, cmp) ==>
      && Sorted(out, cmp)
      && (out != [] ==> forall e :: e in q ==> cmp(out[|out| - 1], e.line) <= 0)
  }

  /** Writing a least entry `e` of the queue and pushing the next line of
      its reader keeps the order. */
  lemma StepOrdered<E(!new)>(sources: seq<seq<E>>, cmp: (E, E) -> int, written: seq<nat>,
                             q: multiset<Entry<E>>, out: seq<E>, e: Entry<E>, next: seq<nat>, q': multiset<Entry<E>>)
    requires IsComparator(cmp) && IsLeast(e, q, EntryCmp(cmp))
    requires e.readerIndex < |sources| == |written| && written[e.readerIndex] < |sources[e.readerIndex]|
    requires e.line == sources[e.readerIndex][written[e.readerIndex]]
    requires next == written[e.readerIndex := written[e.readerIndex] + 1]
    requires q' == q - multiset{e} + Pushed(sources, next, e.readerIndex)
    ensures Ordered(sources, cmp, q, out) ==> Ordered(sources, cmp, q', out + [e.line])
  {
    if Ordered(sources, cmp, q, out) && AllSorted(sources, cmp) {
      var j := e.readerIndex;
      SortedAppend(out, e.line, cmp);
      forall x | x in q' ensures cmp(e.line, x.line) <= 0 {
        if x !in q {
          assert Sorted(sources[j], cmp);
        }
      }
    }
  }

  /** The loading loop: the queue holds the first line of each of the first
      `k` readers, and nothing is written yet. */
  method LoadQueue<E(==,!new)>(sources: seq<seq<E>>, queue: PriorityQueue<Entry<E>>)
    returns (ok: bool)
    requires queue.contents == multiset{}
    modifies queue
    ensures ok <==> forall i :: 0 <= i < |sources| ==> sources[i] != []
    ensures ok ==> FrontIs(queue.contents, sources, seq(|sources|, _ => 0), |sources|)
  {
    ghost var zero: seq<nat> := seq(|sources|, _ => 0);
    var k := 0;
    while k < |sources|
      invariant 0 <= k <= |sources|
      invariant forall i :: 0 <= i < k ==> sources[i] != []
      invariant FrontIs(queue.contents, sources, zero, k)
    {
      var first := ReadLine(sources[k], 0);
      if first.None? {
        return false;
      }
      queue.Add(Entry(first.value, k));
      k := k + 1;
    }
    return true;
  }

  /** `poll` on the queue of readers' heads: a least entry, the head of a
      reader that is not drained. */
  method PollHead<E(==,!new)>(sources: seq<seq<E>>, cmp: (E, E) -> int, queue: PriorityQueue<Entry<E>>,
                              written: seq<nat>)
    returns (first: Entry<E>)
    requires IsComparator(cmp) && queue.cmp == EntryCmp(cmp)
    requires |sources| == |written| && FrontIs(queue.contents, sources, written, |sources|)
    requires queue.contents != multiset{}
    modifies queue
    ensures IsLeast(first, old(queue.contents), EntryCmp(cmp))
    ensures queue.contents == old(queue.contents) - multiset{first}
    ensures first.readerIndex < |sources| && written[first.readerIndex] < |sources[first.readerIndex]|
    ensures first.line == sources[first.readerIndex][written[first.readerIndex]]
  {
    EntryCmpIsComparator(cmp);
    var polled := queue.Poll();
    first := polled.value;
    FrontHead(old(queue.contents), sources, written, first);
  }

  /** One turn of the merge loop: poll a least entry, take its line to be
      written, read the next line of the same reader and push it, if there
      is one; `drained` says there is not. */
  method WriteNext<E(==,!new)>(sources: seq<seq<E>>, cmp: (E, E) -> int, queue: PriorityQueue<Entry<E>>,
                               written: seq<nat>, ghost out: seq<E>)
    returns (line: E, j: nat, drained: bool)
    requires IsComparator(cmp) && queue.cmp == EntryCmp(cmp)
    requires Counts(sources, written) && FrontIs(queue.contents, sources, written, |sources|)
    requires queue.contents != multiset{}
    modifies queue
    ensures j < |sources| && written[j] < |sources[j]| && line == sources[j][written[j]]
    ensures drained <==> written[j] + 1 == |sources[j]|
    ensures FrontIs(queue.contents, sources, written[j := written[j] + 1], |sources|)
    ensures Ordered(sources, cmp, old(queue.contents), out) ==>
              Ordered(sources, cmp, queue.contents, out + [line])
  {
    ghost var q := queue.contents;
    var first := PollHead(sources, cmp, queue, written);
    j := first.readerIndex;
    line := first.line;
    ghost var next := written[j := written[j] + 1];
    var newLine := ReadLine(sources[j], written[j] + 1);
    if newLine.Some? {
      queue.Add(Entry(newLine.value, j));
      assert Pushed(sources, next, j) == multiset{Entry(newLine.value, j)};
    } else {
      assert Pushed(sources, next, j) == multiset{};
    }
    drained := newLine.None?;
    FrontStep(q, sources, written, first, next, queue.contents);
    StepOrdered(sources, cmp, written, q, out, first, next, queue.contents);
  }

  /** `merge` with the given `logStep`.  With a first line null for some
      reader, the null entry makes the queue or `write` throw
      `NullPointerException`.  Otherwise the loop writes lines until the
      queue is empty, unless a reader drains while `logStep` is 0, where
      `numDrainedFiles % logStep` throws `ArithmeticException`.  The lines
      written are sorted when every reader's lines are, and on completion
      they are exactly all the readers' lines. */
  method MergeWith<E(==,!new)>(sources: seq<seq<E>>, cmp: (E, E) -> int, logStep: int)
    returns (out: seq<E>, outcome: Outcome)
    requires IsComparator(cmp)
    ensures (exists i :: 0 <= i < |sources| && sources[i] == []) ==>
              outcome == Threw(NullPointerException) && out == []
    ensures (forall i :: 0 <= i < |sources| ==> sources[i] != []) ==>
              && (outcome == Completed || outcome == Threw(ArithmeticException))
              && (outcome == Completed <==> |sources| == 0 || logStep != 0)
    ensures outcome == Completed ==> multiset(out) == Total(sources, |sources|)
    ensures AllSorted(sources, cmp) ==> Sorted(out, cmp)
  {
    var n := |sources|;
    EntryCmpIsComparator(cmp);
    var queue := new PriorityQueue<Entry<E>>(EntryCmp(cmp));
    var loaded := LoadQueue(sources, queue);
    if !loaded {
      return [], Threw(NullPointerException);
    }
    var written: seq<nat> := seq(n, _ => 0);
    NothingWritten(sources, n);
    out := [];
    var numDrainedFiles := 0;
    while !queue.IsEmpty()
      invariant Counts(sources, written)
      invariant FrontIs(queue.contents, sources, written, n)
      invariant multiset(out) == Written(sources, written, n)
      invariant logStep == 0 ==> NoneDrained(sources, written, n)
      invariant Ordered(sources, cmp, queue.contents, out)
      invariant queue.cmp == EntryCmp(cmp)
      decreases Waiting(sources, written, n)
    {
      var line, j, drained := WriteNext(sources, cmp, queue, written, out);
      AdvanceWritten(sources, written, n, j);
      AdvanceWaiting(sources, written, n, j);
      CountsStep(sources, written, j);
      out := out + [line];
      written := written[j := written[j] + 1];
      if drained {
        numDrainedFiles := numDrainedFiles + 1;
        if logStep == 0 {
          return out, Threw(ArithmeticException);
        }
      }
    }
    EmptyFrontDrained(sources, written);
    AllWritten(sources, written, n);
    outcome := Completed;
  }

  /** `merge` as written: `logStep = readers.size() / 10`. */
  method Merge<E(==,!new)>(sources: seq<seq<E>>, cmp: (E, E) -> int)
    returns (out: seq<E>, outcome: Outcome)
    requires IsComparator(cmp)
    ensures (exists i :: 0 <= i < |sources| && sources[i] == []) ==>
              outcome == Threw(NullPointerException) && out == []
    ensures (forall i :: 0 <= i < |sources| ==> sources[i] != []) && 0 < |sources| < 10 ==>
              outcome == Threw(ArithmeticException)
    ensures (forall i :: 0 <= i < |sources| ==> sources[i] != []) && (|sources| == 0 || |sources| >= 10) ==>
              outcome == Completed && multiset(out) == Total(sources, |sources|)
    ensures AllSorted(sources, cmp) ==> Sorted(out, cmp)
  {
    out, outcome := MergeWith(sources, cmp, |sources| / 10);
  }

  /** `merge` with the progress step kept positive (`max(1, readers / 10)`):
      whenever every reader has a first line, the merge completes and writes
      every line once, in order when the readers' lines are in order. */
  method MergeFixed<E(==,!new)>(sources: seq<seq<E>>, cmp: (E, E) -> int)
    returns (out: seq<E>, outcome: Outcome)
    requires IsComparator(cmp)
    ensures (exists i :: 0 <= i < |sources| && sources[i] == []) ==>
              outcome == Threw(NullPointerException) && out == []
    ensures (forall i :: 0 <= i < |sources| ==> sources[i] != []) ==>
              outcome == Completed && multiset(out) == Total(sources, |sources|)
    ensures AllSorted(sources, cmp) ==> Sorted(out, cmp)
  {
    var logStep := if |sources| / 10 > 0 then |sources| / 10 else 1;
    out, outcome := MergeWith(sources, cmp, logStep);
  }

  /** `write` ends its last chunk with the line separator. */
  lemma {:induction false} WriteOutEndsLine(chunks: seq<seq<byte>>)
    requires chunks != []
    ensures |BigLines.WriteOut(chunks)| > 0 && BigLines.WriteOut(chunks)[|BigLines.WriteOut(chunks)| - 1] == NEWLINE
  {
    var n := |chunks|;
    assert chunks == chunks[..n - 1] + [chunks[n - 1]];
    BigLines.WriteOutAppend(chunks[..n - 1], chunks[n - 1]);
  }

  /** The bytes one round of the loop sends to the writer for a line whose
      iterator yields `chunks`: `write`, which ends every chunk with the
      line separator, and then `newLine`, a second one.  A line comes out
      followed by two separators. */
  function RoundBytes(chunks: seq<seq<byte>>): (out: seq<byte>)
    ensures chunks != [] ==> |out| >= 2 && out[|out| - 2 ..] == [NEWLINE, NEWLINE]
    ensures chunks == [] ==> out == [NEWLINE]
  {
    if chunks == [] then [NEWLINE]
    else
      WriteOutEndsLine(chunks);
      BigLines.WriteOut(chunks) + [NEWLINE]
  }

  /** The merged file as written: the rounds' bytes, one line after the
      other in the order `merge` writes them. */
  function MergedFile(lines: seq<seq<seq<byte>>>): seq<byte>
  {
    if lines == [] then [] else RoundBytes(lines[0]) + MergedFile(lines[1..])
  }

  /** As written, two lines `a` and `b` of one chunk each come out as `a`,
      two separators, `b`, two separators: each line is followed by an
      empty one.  Read back with `getBigLine`, the merged
      file yields `a` and then `null` for the empty line between the two,
      before the end of the file. */
  lemma MergedLinesDoubled(a: seq<byte>, b: seq<byte>, t: nat)
    requires a != [] && b != [] && NEWLINE !in a && NEWLINE !in b && 0 < t
    ensures MergedFile([[a], [b]]) == a + [NEWLINE, NEWLINE] + b + [NEWLINE, NEWLINE]
    ensures var f := MergedFile([[a], [b]]);
            var r1 := BigLineReaders.NextLine(f, 0, 0, t);
            var r2 := BigLineReaders.NextLine(f, r1.next, r1.lineStart, t);
            && r1.next == |a| + 1 && r1.line.Some?
            && r1.line.value == (if |a| <= t then FileLines.ShortLine(a) else FileLines.LongLine(a[..t], 0, |a|, f))
            && r2.line.None? && r2.next == |a| + 2 < |f|
  {
    var f := MergedFile([[a], [b]]);
    assert BigLines.WriteOut([a]) == a + [NEWLINE] + BigLines.WriteOut([]);
    assert BigLines.WriteOut([b]) == b + [NEWLINE] + BigLines.WriteOut([]);
    assert MergedFile([[b]]) == RoundBytes([b]) + MergedFile([]);
    assert f == a + [NEWLINE, NEWLINE] + b + [NEWLINE, NEWLINE];
    assert f[0 .. |a|] == a;
    BigLineReaders.LineEndUnique(f, 0, |a|);
    BigLineReaders.LineEndUnique(f, |a| + 1, |a| + 1);
  }

  /** A round as it was evidently meant: the line's bytes and then one
      separator, the form `org.dpinol.FileLine.write` gives a line (all its
      chunks, then one separator; `FileLines.Write`). */
  function RoundBytesFixed(chunks: seq<seq<byte>>): seq<byte>
  {
    Flatten(chunks) + [NEWLINE]
  }

  /** The merged file with each line written as `RoundBytesFixed`. */
  function MergedFileFixed(lines: seq<seq<seq<byte>>>): seq<byte>
  {
    if lines == [] then [] else RoundBytesFixed(lines[0]) + MergedFileFixed(lines[1..])
  }

  /** A file holding `s`, a separator and `rest` from `c` on reads, as
      documented, as one line with the bytes `s` followed by the lines of
      `rest`, which starts at `j`. */
  lemma FirstMergedLine(file: seq<byte>, c: nat, s: seq<byte>, rest: seq<byte>, t: nat)
    returns (l: FileLines.FileLine, j: nat)
    requires c <= |file| && 0 < t && file[c..] == s + [NEWLINE] + rest && NEWLINE !in s
    ensures j == c + |s| + 1 <= |file| && file[j..] == rest
    ensures BigLineReaders.ReadAll(file, c, t) == [l] + BigLineReaders.ReadAll(file, j, t)
    ensures FileLines.AsRead(l, t) && FileLines.HeadMatchesFile(l) && FileLines.Content(l) == s
  {
    var e := c + |s|;
    assert file[c .. e] == s;
    assert file[e] == file[c..][|s|] == NEWLINE;
    BigLineReaders.LineEndUnique(file, c, e);
    l := BigLineReaders.FirstLineOk(file, c, t);
    j := e + 1;
    assert file[j..] == file[c..][|s| + 1 ..];
    var r := BigLineReaders.NextLineFixed(file, c, c, t);
    assert r.line == Some(l) && r.next == j;
    assert BigLineReaders.ReadAll(file, c, t) == [r.line.value] + BigLineReaders.ReadAll(file, r.next, t);
  }

  /** Written one separator per line, the merged file reads back line for
      line: reading it from `c` on as the reader's documentation describes
      yields one line per line written, each one the line types read back,
      holding the bytes of the line written. */
  lemma {:induction false} MergedFileFixedReadsBack(file: seq<byte>, c: nat, lines: seq<seq<seq<byte>>>, t: nat)
    requires c <= |file| && 0 < t && file[c..] == MergedFileFixed(lines)
    requires forall i :: 0 <= i < |lines| ==> NEWLINE !in Flatten(lines[i])
    ensures BigLineReaders.LinesOk(BigLineReaders.ReadAll(file, c, t), t)
    ensures |BigLineReaders.ReadAll(file, c, t)| == |lines|
    ensures forall i :: 0 <= i < |lines| ==>
              FileLines.HeadMatchesFile(BigLineReaders.ReadAll(file, c, t)[i]) &&
              FileLines.Content(BigLineReaders.ReadAll(file, c, t)[i]) == Flatten(lines[i])
    decreases |lines|
  {
    if lines == [] {
      assert c == |file|;
      assert BigLineReaders.ReadAll(file, c, t) == [];
    } else {
      var l, j := FirstMergedLine(file, c, Flatten(lines[0]), MergedFileFixed(lines[1..]), t);
      MergedFileFixedReadsBack(file, j, lines[1..], t);
      var tail := BigLineReaders.ReadAll(file, j, t);
      var all := BigLineReaders.ReadAll(file, c, t);
      assert all == [l] + tail;
      forall i | 0 <= i < |lines|
        ensures FileLines.HeadMatchesFile(all[i]) && FileLines.Content(all[i]) == Flatten(lines[i])
      {
        if i == 0 {
          assert all[i] == l;
        } else {
          assert all[i] == tail[i - 1];
          assert lines[1..][i - 1] == lines[i];
        }
      }
    }
  }
}
