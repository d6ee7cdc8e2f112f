/** The run builder of `com.company`: lines are added one by one to an
    in-memory priority queue; when it holds `LINES_PER_SORTER` lines it is
    handed to a flusher, which drains it in ascending order into its own
    temporary file, and a fresh queue takes its place.

    The executor that runs the flushers is abstracted away: a flush drains
    the old queue at once and appends the lines it wrote, with the file they
    went to, to `runs`.  Temporary files are identified by their creation
    order: `createTempFile` always yields a new file, so file `k` is the
    `k`-th one created. */
module ChunkSorters {
  import opened Bytes
  import opened Wrappers
  import opened PriorityQueues

  /** Lines a single run holds at most (`BigFileSorter.LINES_PER_SORTER`). */
  const LINES_PER_SORTER: nat := 100000

  /** A flushed run: the temporary file it went to and the lines written
      there, in the order written. */
  datatype Run<E> = Run(file: nat, lines: seq<E>)

  /** All lines held by a sequence of runs. */
  ghost function RunLines<E>(runs: seq<Run<E>>): multiset<E>
  {
    if runs == [] then multiset{}
    else RunLines(runs[..|runs| - 1]) + multiset(runs[|runs| - 1].lines)
  }

  /** The files of a sequence of runs, in order. */
  function Files<E>(runs: seq<Run<E>>): seq<nat>
  {
    if runs == [] then [] else Files(runs[..|runs| - 1]) + [runs[|runs| - 1].file]
  }

  lemma FilesAppend<E>(runs: seq<Run<E>>, r: Run<E>)
    ensures Files(runs + [r]) == Files(runs) + [r.file]
  {
    assert (runs + [r])[..|runs|] == runs;
  }

  lemma RunLinesAppend<E>(runs: seq<Run<E>>, r: Run<E>)
    ensures RunLines(runs + [r]) == RunLines(runs) + multiset(r.lines)
  {
    assert (runs + [r])[..|runs|] == runs;
  }

  /** A run as a flusher writes it: sorted, non-empty and no longer than
      `LINES_PER_SORTER`. */
  ghost predicate GoodRun<E>(r: Run<E>, cmp: (E, E) -> int)
  {
    Sorted(r.lines, cmp) && 0 < |r.lines| <= LINES_PER_SORTER
  }

  /** Every run is good, and the runs went to distinct files, each created
      after the one before.  Stated run by run, from the last one back, so
      that appending a run is one step of the definition. */
  ghost predicate GoodRuns<E>(runs: seq<Run<E>>, cmp: (E, E) -> int)
    decreases |runs|
  {
    runs == [] ||
      (var prefix, last := runs[..|runs| - 1], runs[|runs| - 1];
       GoodRuns(prefix, cmp) && GoodRun(last, cmp) && FilesBelow(prefix, last.file))
  }

  /** The runs went to files created before file `bound` (for good runs it
      is enough that the last one did). */
  ghost predicate FilesBelow<E>(runs: seq<Run<E>>, bound: nat)
  {
    runs == [] || runs[|runs| - 1].file < bound
  }

  lemma GoodRunsAppend<E>(runs: seq<Run<E>>, r: Run<E>, cmp: (E, E) -> int)
    requires GoodRuns(runs, cmp) && GoodRun(r, cmp) && FilesBelow(runs, r.file)
    ensures GoodRuns(runs + [r], cmp) && FilesBelow(runs + [r], r.file + 1)
  {
    assert (runs + [r])[..|runs|] == runs;
  }

  /** What `GoodRuns` means run by run: every run is sorted, non-empty and
      within the bound, and the files strictly increase, so no two runs
      share a file. */
  lemma {:induction false} GoodRunsMeaning<E>(runs: seq<Run<E>>, cmp: (E, E) -> int)
    requires GoodRuns(runs, cmp)
    ensures forall i :: 0 <= i < |runs| ==> GoodRun(runs[i], cmp)
    ensures forall i, j :: 0 <= i < j < |runs| ==> runs[i].file < runs[j].file
    decreases |runs|
  {
    if runs != [] {
      var prefix := runs[..|runs| - 1];
      GoodRunsMeaning(prefix, cmp);
      forall i, j | 0 <= i < j < |runs| ensures runs[i].file < runs[j].file {
        if j < |runs| - 1 {
          assert runs[i] == prefix[i] && runs[j] == prefix[j];
        } else if i < |runs| - 2 {
          assert runs[i] == prefix[i] && prefix[|prefix| - 1] == runs[|runs| - 2];
        }
      }
    }
  }

  /** Bookkeeping of the lines added: inserting into the live queue. */
  lemma AddAccount<E>(inRuns: multiset<E>, live: multiset<E>, added: multiset<E>, x: E)
    requires inRuns + live == added
    ensures inRuns + (live + multiset{x}) == added + multiset{x}
    ensures |live + multiset{x}| == |live| + 1
  {
  }

  /** Bookkeeping of the lines added: a flush moves the live queue into a
      run. */
  lemma FlushAccount<E>(inRuns: multiset<E>, live: multiset<E>, added: multiset<E>, lines: seq<E>)
    requires inRuns + live == added && multiset(lines) == live
    ensures inRuns + multiset(lines) + multiset{} == added
  {
  }

  /** Everything in `s` is ordered no later than anything in `m`. */
  ghost predicate AllNotAfter<E>(s: seq<E>, m: multiset<E>, cmp: (E, E) -> int)
  {
    forall i, y :: 0 <= i < |s| && y in m ==> cmp(s[i], y) <= 0
  }

  /** One step of the drain loop: appending a least element of what is left
      keeps the output sorted and below the rest. */
  lemma DrainStep<E(!new)>(written: seq<E>, before: multiset<E>, x: E, cmp: (E, E) -> int)
    requires IsComparator(cmp) && Sorted(written, cmp) && AllNotAfter(written, before, cmp)
    requires IsLeast(x, before, cmp)
    ensures Sorted(written + [x], cmp)
    ensures AllNotAfter(written + [x], before - multiset{x}, cmp)
  {
    var w := written + [x];
    forall i, y | 0 <= i < |w| && y in before - multiset{x}
      ensures cmp(w[i], y) <= 0
    {
      assert y in before;
      if i < |written| {
        assert NotAfter(cmp, w[i], x) && NotAfter(cmp, x, y);
      }
    }
  }

  /** `Flusher.run`: polls the queue until it returns null, writing each
      line as it comes.  What is written is in ascending order and is
      exactly what the queue held. */
  method Drain<E(==,!new)>(heap: PriorityQueue<E>) returns (written: seq<E>)
    requires IsComparator(heap.cmp)
    modifies heap
    ensures Sorted(written, heap.cmp)
    ensures multiset(written) == old(heap.contents)
    ensures heap.contents == multiset{}
  {
    written := [];
    while true
      invariant multiset(written) + heap.contents == old(heap.contents)
      invariant Sorted(written, heap.cmp) && AllNotAfter(written, heap.contents, heap.cmp)
      decreases |heap.contents|
    {
      ghost var before := heap.contents;
      var line := heap.Poll();
      if line.None? {
        break;
      }
      DrainStep(written, before, line.value, heap.cmp);
      written := written + [line.value];
    }
  }

  class ChunkSorter<E(==,!new)> {
    const cmp: (E, E) -> int
    /** The live queue, replaced by a fresh one on every flush. */
    var heap: PriorityQueue<E>
    /** The temporary file the live queue will be flushed to. */
    var nextTmpFile: nat
    /** The runs handed to flushers so far, in order. */
    var runs: seq<Run<E>>
    /** Every line added so far. */
    ghost var added: multiset<E>

    /** The live queue respects the bound, every added line is in exactly
        one run or in the live queue, and no run went to the current file
        while the live queue holds lines for it. */
    ghost predicate Valid()
      reads this, heap
    {
      && heap.cmp == cmp
      && heap.Size() <= LINES_PER_SORTER
      && RunLines(runs) + heap.contents == added
      && RunsOk()
      && (heap.Size() > 0 ==> CurrentFileUnused())
    }

    /** The flushed runs are good and went to files created no later than
        the current one. */
    ghost predicate RunsOk()
      reads this`runs, this`nextTmpFile
    {
      GoodRuns(runs, cmp) && FilesBelow(runs, nextTmpFile + 1)
    }

    /** No run has gone to the current temporary file yet; this holds until
        `close` flushes the last run. */
    ghost predicate CurrentFileUnused()
      reads this`runs, this`nextTmpFile
    {
      FilesBelow(runs, nextTmpFile)
    }

    /** The constructor creates the first temporary file. */
    constructor(cmp: (E, E) -> int)
      requires IsComparator(cmp)
      ensures Valid() && CurrentFileUnused() && fresh(heap)
      ensures this.cmp == cmp && added == multiset{}
      ensures heap.contents == multiset{} && runs == [] && nextTmpFile == 0
    {
      this.cmp := cmp;
      heap := new PriorityQueue(cmp);
      nextTmpFile := 0;
      runs := [];
      added := multiset{};
    }

    /** `flush`: the live queue goes to a flusher together with the current
        temporary file, and an empty queue replaces it. */
    method Flush()
      requires Valid() && IsComparator(cmp) && heap.Size() > 0
      modifies this`heap, this`runs, heap
      ensures Valid() && fresh(heap) && heap.contents == multiset{}
      ensures |runs| > 0 && runs == old(runs) + [runs[|runs| - 1]]
      ensures runs[|runs| - 1].file == nextTmpFile
      ensures multiset(runs[|runs| - 1].lines) == old(heap.contents)
    {
      var toFlush := heap;
      ghost var flushed := heap.contents;
      heap := new PriorityQueue(cmp);
      var lines := Drain(toFlush);
      var run := Run(nextTmpFile, lines);
      RunLinesAppend(runs, run);
      FlushAccount(RunLines(runs), flushed, added, lines);
      GoodRunsAppend(runs, run, cmp);
      runs := runs + [run];
    }

    /** `createTmpFile`: the live queue gets a new temporary file. */
    method CreateTmpFile()
      requires Valid() && heap.Size() == 0
      modifies this`nextTmpFile
      ensures Valid() && CurrentFileUnused() && nextTmpFile == old(nextTmpFile) + 1
    {
      nextTmpFile := nextTmpFile + 1;
    }

    /** The insertion half of `addLine`: the line joins the live queue, and
        the queue's file is returned when the line is its first. */
    method Insert(line: E) returns (r: Option<nat>)
      requires Valid() && CurrentFileUnused() && heap.Size() < LINES_PER_SORTER
      modifies this`added, heap
      ensures Valid() && CurrentFileUnused()
      ensures heap.contents == old(heap.contents) + multiset{line}
      ensures heap.Size() == old(heap.Size()) + 1
      ensures added == old(added) + multiset{line}
      ensures r.Some? <==> heap.Size() == 1
      ensures r.Some? ==> r.value == nextTmpFile
    {
      AddAccount(RunLines(runs), heap.contents, added, line);
      heap.Add(line);
      added := added + multiset{line};
      if heap.Size() == 1 {
        r := Some(nextTmpFile);
      } else {
        r := None;
      }
    }

    /** `addLine`: flushes first when the live queue is full, then inserts.
        Returns the live queue's file exactly when the line is the first of
        its run, and null (`None`) otherwise. */
    method AddLine(line: E) returns (r: Option<nat>)
      requires Valid() && IsComparator(cmp) && CurrentFileUnused()
      modifies this, heap
      ensures Valid() && CurrentFileUnused()
      ensures added == old(added) + multiset{line}
      ensures r.Some? <==> heap.Size() == 1
      ensures r.Some? ==> r.value == nextTmpFile
      ensures Files(old(runs)) + Pending(old(heap.Size()), old(nextTmpFile)) + Reported(r)
              == Files(runs) + Pending(heap.Size(), nextTmpFile)
      ensures old(heap.Size()) >= LINES_PER_SORTER ==>
                && fresh(heap) && heap.contents == multiset{line} && heap.Size() == 1
                && nextTmpFile == old(nextTmpFile) + 1
                && |runs| > 0 && runs == old(runs) + [Run(old(nextTmpFile), runs[|runs| - 1].lines)]
                && multiset(runs[|runs| - 1].lines) == old(heap.contents)
      ensures old(heap.Size()) < LINES_PER_SORTER ==>
                && heap == old(heap) && heap.contents == old(heap.contents) + multiset{line}
                && heap.Size() == old(heap.Size()) + 1
                && nextTmpFile == old(nextTmpFile) && runs == old(runs)
    {
      ghost var before, size, file := runs, heap.Size(), nextTmpFile;
      if heap.Size() >= LINES_PER_SORTER {
        Flush();
        CreateTmpFile();
      }
      r := Insert(line);
      AddLineReports(before, size, file, runs, heap.Size(), nextTmpFile, r);
    }

    /** `close`: flushes the live queue if it holds anything. */
    method Close()
      requires Valid() && IsComparator(cmp)
      modifies this, heap
      ensures Valid()
      ensures added == old(added) && heap.contents == multiset{}
      ensures RunLines(runs) == added
      ensures Files(runs) == Files(old(runs)) + Pending(old(heap.Size()), old(nextTmpFile))
      ensures nextTmpFile == old(nextTmpFile)
      ensures old(heap.Size()) == 0 ==> runs == old(runs)
      ensures old(heap.Size()) > 0 ==>
                && |runs| > 0 && runs == old(runs) + [Run(nextTmpFile, runs[|runs| - 1].lines)]
                && multiset(runs[|runs| - 1].lines) == old(heap.contents)
    {
      ghost var before, size := runs, heap.Size();
      if !heap.IsEmpty() {
        Flush();
      }
      CloseReports(before, size, nextTmpFile, runs);
    }
  }

  /** The file a live queue of `size` lines has been reported under, if
      any. */
  function Pending(size: nat, file: nat): seq<nat>
  {
    if size > 0 then [file] else []
  }

  /** The file `addLine` returned, if any. */
  function Reported(r: Option<nat>): seq<nat>
  {
    if r.Some? then [r.value] else []
  }

  /** What one `addLine` adds to the files reported so far: the files of the
      runs plus the live queue's file stay exactly what has been reported. */
  lemma AddLineReports<E>(runs0: seq<Run<E>>, size0: nat, file0: nat,
                          runs1: seq<Run<E>>, size1: nat, file1: nat, r: Option<nat>)
    requires r.Some? <==> size1 == 1
    requires r.Some? ==> r.value == file1
    requires size0 >= LINES_PER_SORTER ==>
               && size1 == 1 && file1 == file0 + 1
               && |runs1| > 0 && runs1 == runs0 + [Run(file0, runs1[|runs1| - 1].lines)]
    requires size0 < LINES_PER_SORTER ==> size1 == size0 + 1 && file1 == file0 && runs1 == runs0
    ensures Files(runs0) + Pending(size0, file0) + Reported(r)
            == Files(runs1) + Pending(size1, file1)
  {
    if size0 >= LINES_PER_SORTER {
      FilesAppend(runs0, runs1[|runs1| - 1]);
    }
  }

  /** `close` reports nothing new: the live queue's file becomes the last
      run's file. */
  lemma CloseReports<E>(runs0: seq<Run<E>>, size0: nat, file0: nat, runs1: seq<Run<E>>)
    requires size0 == 0 ==> runs1 == runs0
    requires size0 > 0 ==> |runs1| > 0 && runs1 == runs0 + [Run(file0, runs1[|runs1| - 1].lines)]
    ensures Files(runs0) + Pending(size0, file0) == Files(runs1)
  {
    if size0 > 0 {
      FilesAppend(runs0, runs1[|runs1| - 1]);
    } else {
      assert Files(runs0) + [] == Files(runs0);
    }
  }

  lemma PrefixStep<E>(s: seq<E>, k: nat)
    requires k < |s|
    ensures multiset(s[..k + 1]) == multiset(s[..k]) + multiset{s[k]}
  {
    assert s[..k + 1] == s[..k] + [s[k]];
  }

  lemma PrefixAll<E>(s: seq<E>)
    ensures multiset(s[..|s|]) == multiset(s)
  {
    assert s[..|s|] == s;
  }

  /** Feeds `lines` to a fresh run builder and closes it.  Every line ends
      up in exactly one run; each run is sorted, non-empty, no longer than
      `LINES_PER_SORTER` and has a file of its own; and the files `addLine`
      reported are exactly the runs' files, each once and in order. */
  method SortIntoRuns<E(==,!new)>(lines: seq<E>, cmp: (E, E) -> int)
    returns (runs: seq<Run<E>>, reported: seq<nat>)
    requires IsComparator(cmp)
    ensures RunLines(runs) == multiset(lines)
    ensures forall i :: 0 <= i < |runs| ==> GoodRun(runs[i], cmp)
    ensures forall i, j :: 0 <= i < j < |runs| ==> runs[i].file < runs[j].file
    ensures reported == Files(runs)
  {
    var sorter := new ChunkSorter(cmp);
    reported := [];
    var k := 0;
    while k < |lines|
      invariant 0 <= k <= |lines|
      invariant sorter.Valid() && sorter.CurrentFileUnused() && sorter.cmp == cmp
      invariant fresh(sorter) && fresh(sorter.heap)
      invariant sorter.added == multiset(lines[..k])
      invariant reported == Files(sorter.runs) + Pending(sorter.heap.Size(), sorter.nextTmpFile)
    {
      var r := sorter.AddLine(lines[k]);
      reported := reported + Reported(r);
      PrefixStep(lines, k);
      k := k + 1;
    }
    PrefixAll(lines);
    sorter.Close();
    runs := sorter.runs;
    GoodRunsMeaning(runs, cmp);
  }
}
