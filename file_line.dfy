/** `org.dpinol.FileLine`: one line of a file to sort, either held whole in
    memory (`ShortLine`) or kept as a cached head plus the region of the file
    it occupies (`LongLine`).  Both are read through an iterator of chunks of
    at most `t` bytes (`LENGTH_THRESHOLD`); `compareTo` and `write` drive
    those iterators. */
module FileLines {
  import opened Bytes

  /** A line.  A `LongLine` keeps the file it was read from (the backing
      channel) as the sequence of that file's bytes. */
  datatype FileLine =
    | ShortLine(line: seq<byte>)
    | LongLine(head: seq<byte>, startFileOffset: nat, numBytes: nat, file: seq<byte>)

  /** What iterating a line needs: a positive chunk size; for a `LongLine` a
      non-empty head (with an empty head `next()` never leaves the head) and a
      file that holds the whole region (a read past the end returns -1). */
  ghost predicate Readable(l: FileLine, t: nat)
  {
    t > 0 &&
    (l.LongLine? ==> |l.head| > 0 && l.startFileOffset + l.numBytes <= |l.file|)
  }

  /** A line as the line reader builds it: a `ShortLine` of at most `t`
      bytes, or a `LongLine` of more than `t` bytes whose head is the first
      `t` bytes of its region of the file. */
  ghost predicate AsRead(l: FileLine, t: nat)
  {
    Readable(l, t) &&
    match l
    case ShortLine(s) => |s| <= t
    case LongLine(head, start, n, file) =>
      |head| == t && n > t && head == file[start .. start + t]
  }

  /** The head of a `LongLine` is the start of its region of the file. */
  ghost predicate HeadMatchesFile(l: FileLine)
  {
    l.LongLine? ==>
      |l.head| <= l.numBytes && l.startFileOffset + l.numBytes <= |l.file| &&
      l.head == l.file[l.startFileOffset .. l.startFileOffset + |l.head|]
  }

  /** The bytes of the line. */
  function Content(l: FileLine): seq<byte>
    requires l.LongLine? ==> l.startFileOffset + l.numBytes <= |l.file|
  {
    match l
    case ShortLine(s) => s
    case LongLine(_, start, n, file) => file[start .. start + n]
  }

  /** `getNumBytes`: the byte length of a `ShortLine`'s text, the length
      recorded in a `LongLine`; for a line whose region lies in its file,
      the full length of the line. */
  function GetNumBytes(l: FileLine): (n: nat)
    ensures (l.LongLine? ==> l.startFileOffset + l.numBytes <= |l.file|) ==> n == |Content(l)|
  {
    match l
    case ShortLine(s) => |s|
    case LongLine(_, _, n, _) => n
  }

  /** What a read of up to `t` bytes at `offset` returns: the number of bytes
      transferred, or -1 at the end of the file. */
  function ReadAt(file: seq<byte>, offset: nat, t: nat): int
  {
    if offset >= |file| then -1 else Min(t, |file| - offset)
  }

  /** The chunk `next()` reads from the file at `offset` (past the head):
      `min(readBytes, numBytes - relativeOffset)` bytes. */
  function FileChunk(l: FileLine, t: nat, offset: nat): seq<byte>
    requires Readable(l, t) && l.LongLine?
    requires l.startFileOffset <= offset < l.startFileOffset + l.numBytes
  {
    var readBytes := ReadAt(l.file, offset, t);
    var chunkSize := Min(readBytes, l.numBytes - (offset - l.startFileOffset));
    l.file[offset .. offset + chunkSize]
  }

  /** The chunks a `LongLine` iterator yields from `offset` on: one read per
      step, the offset advancing by `t`, until it reaches the line's end. */
  function FileChunksFrom(l: FileLine, t: nat, offset: nat): seq<seq<byte>>
    requires Readable(l, t) && l.LongLine? && l.startFileOffset <= offset
    decreases l.startFileOffset + l.numBytes - offset
  {
    if offset >= l.startFileOffset + l.numBytes then []
    else [FileChunk(l, t, offset)] + FileChunksFrom(l, t, offset + t)
  }

  /** Everything `getIterator()` yields: the whole text of a `ShortLine`; the
      head of a `LongLine` followed by the chunks read from the file. */
  function Chunks(l: FileLine, t: nat): seq<seq<byte>>
    requires Readable(l, t)
  {
    match l
    case ShortLine(s) => [s]
    case LongLine(head, start, _, _) => [head] + FileChunksFrom(l, t, start + |head|)
  }

  /** The iterator `getIterator()` returns.  Java has one anonymous class
      per variant; here one class carries the fields of both: `consumed` for
      a `ShortLine`, `currentOffset` and `hasNext` for a `LongLine`. */
  class LineIterator {
    const line: FileLine
    const t: nat
    var consumed: bool
    var currentOffset: nat
    var hasNext: bool
    /** The chunks returned so far. */
    ghost var yielded: seq<seq<byte>>

    /** The chunks still to come. */
    ghost function Pending(): seq<seq<byte>>
      reads this
      requires Readable(line, t)
    {
      match line
      case ShortLine(s) => if consumed then [] else [s]
      case LongLine(_, start, _, _) =>
        if !hasNext then []
        else if currentOffset == start then Chunks(line, t)
        else if currentOffset < start then []
        else FileChunksFrom(line, t, currentOffset)
    }

    ghost predicate Valid()
      reads this
    {
      && Readable(line, t)
      && (line.LongLine? ==>
            && line.startFileOffset <= currentOffset
            && (hasNext && currentOffset != line.startFileOffset ==>
                  currentOffset < line.startFileOffset + line.numBytes))
      && yielded + Pending() == Chunks(line, t)
    }

    function HasNext(): (b: bool)
      reads this
      requires Valid()
      ensures b <==> Pending() != []
    {
      if line.ShortLine? then !consumed else hasNext
    }

    /** `getIterator()`. */
    constructor (line: FileLine, t: nat)
      requires Readable(line, t)
      ensures this.line == line && this.t == t
      ensures Valid() && yielded == [] && Pending() == Chunks(line, t)
    {
      this.line := line;
      this.t := t;
      consumed := false;
      currentOffset := if line.LongLine? then line.startFileOffset else 0;
      hasNext := true;
      yielded := [];
    }

    /** `next()`: the `ShortLine`'s text once; for a `LongLine` the head
        first, then one read of the file per call. */
    method Next() returns (chunk: seq<byte>)
      requires Valid() && HasNext()
      modifies this
      ensures Valid()
      ensures chunk == old(Pending())[0]
      ensures Pending() == old(Pending())[1..]
      ensures yielded == old(yielded) + [chunk]
    {
      ghost var pending := Pending();
      if line.ShortLine? {
        consumed := true;
        chunk := line.line;
      } else {
        var start := line.startFileOffset;
        if currentOffset == start {
          currentOffset := currentOffset + |line.head|;
          chunk := line.head;
        } else {
          ghost var offset := currentOffset;
          assert pending == [FileChunk(line, t, offset)] + FileChunksFrom(line, t, offset + t);
          var readBytes := ReadAt(line.file, currentOffset, t);
          var chunkSize := Min(readBytes, line.numBytes - (currentOffset - start));
          chunk := line.file[currentOffset .. currentOffset + chunkSize];
          currentOffset := currentOffset + t;
        }
        assert pending == [chunk] + FileChunksFrom(line, t, currentOffset);
        if currentOffset >= start + line.numBytes {
          hasNext := false;
        }
      }
      yielded := yielded + [chunk];
      assert Pending() == pending[1..];
      MoveFirst(old(yielded), pending);
    }
  }

  /** Moving the first pending chunk over to the yielded ones keeps their
      concatenation. */
  lemma MoveFirst(yielded: seq<seq<byte>>, pending: seq<seq<byte>>)
    requires pending != []
    ensures (yielded + [pending[0]]) + pending[1..] == yielded + pending
  {
    assert pending == [pending[0]] + pending[1..];
  }

  /** The rule `FileLine.compareTo` applies to the two chunk sequences:
      whichever runs out first is smaller, both at once is equal, and
      otherwise the first pair of chunks that differ decides. */
  function CompareChunks(xs: seq<seq<byte>>, ys: seq<seq<byte>>): int
  {
    if xs == [] && ys == [] then 0
    else if xs == [] then -1
    else if ys == [] then 1
    else
      var c := JavaCompare(xs[0], ys[0]);
      if c != 0 then c else CompareChunks(xs[1..], ys[1..])
  }

  /** `FileLine.compareTo`, the loop over two chunk iterators (what a
      `LongLine` receiver runs). */
  method ChunkwiseCompare(a: FileLine, b: FileLine, t: nat) returns (r: int)
    requires Readable(a, t) && Readable(b, t)
    ensures r == CompareChunks(Chunks(a, t), Chunks(b, t))
  {
    var i1 := new LineIterator(a, t);
    var i2 := new LineIterator(b, t);
    while true
      invariant i1.Valid() && i2.Valid()
      invariant CompareChunks(i1.Pending(), i2.Pending()) == CompareChunks(Chunks(a, t), Chunks(b, t))
      decreases |i1.Pending()|
    {
      if !i1.HasNext() && !i2.HasNext() {
        return 0;
      } else if !i1.HasNext() && i2.HasNext() {
        return -1;
      } else if i1.HasNext() && !i2.HasNext() {
        return 1;
      }
      var l1 := i1.Next();
      var l2 := i2.Next();
      var comp := JavaCompare(l1, l2);
      if comp != 0 {
        return comp;
      }
    }
  }

  /** `compareTo` as Java dispatches it: a `ShortLine` receiver compares the
      two texts when the other line is a `ShortLine` too and answers 0
      otherwise; a `LongLine` receiver runs the chunk loop. */
  method CompareTo(a: FileLine, b: FileLine, t: nat) returns (r: int)
    requires Readable(a, t) && Readable(b, t)
    ensures a.ShortLine? && b.ShortLine? ==> r == JavaCompare(a.line, b.line)
    ensures a.ShortLine? && b.LongLine? ==> r == 0
    ensures a.LongLine? ==> r == CompareChunks(Chunks(a, t), Chunks(b, t))
  {
    if a.ShortLine? {
      r := if b.ShortLine? then JavaCompare(a.line, b.line) else 0;
    } else {
      r := ChunkwiseCompare(a, b, t);
    }
  }

  /** `write`: every chunk in order, then one line separator. */
  method Write(l: FileLine, t: nat) returns (out: seq<byte>)
    requires Readable(l, t)
    ensures out == Flatten(Chunks(l, t)) + [NEWLINE]
    ensures HeadMatchesFile(l) ==> out == Content(l) + [NEWLINE]
  {
    var it := new LineIterator(l, t);
    out := [];
    while it.HasNext()
      invariant it.Valid() && it.line == l && it.t == t
      invariant out == Flatten(it.yielded)
      decreases |it.Pending()|
    {
      ghost var before := it.yielded;
      var chunk := it.Next();
      FlattenAppend(before, [chunk]);
      out := out + chunk;
    }
    assert it.yielded + [] == it.yielded;
    out := out + [NEWLINE];
    if HeadMatchesFile(l) {
      ChunksReconstructLine(l, t);
    }
  }

  lemma SliceSplit(s: seq<byte>, i: nat, j: nat, k: nat)
    requires i <= j <= k <= |s|
    ensures s[i .. k] == s[i .. j] + s[j .. k]
  {
  }

  /** The chunks read from the file from `offset` on are exactly the bytes of
      the line's region from `offset` to its end. */
  lemma {:induction false} FileChunksFromReconstruct(l: FileLine, t: nat, offset: nat)
    requires Readable(l, t) && l.LongLine?
    requires l.startFileOffset <= offset <= l.startFileOffset + l.numBytes
    ensures Flatten(FileChunksFrom(l, t, offset)) == l.file[offset .. l.startFileOffset + l.numBytes]
    decreases l.startFileOffset + l.numBytes - offset
  {
    var end := l.startFileOffset + l.numBytes;
    if offset < end {
      var chunk := FileChunk(l, t, offset);
      var rest := FileChunksFrom(l, t, offset + t);
      assert FileChunksFrom(l, t, offset) == [chunk] + rest;
      if offset + t < end {
        assert chunk == l.file[offset .. offset + t];
        FileChunksFromReconstruct(l, t, offset + t);
        SliceSplit(l.file, offset, offset + t, end);
      } else {
        assert chunk == l.file[offset .. end];
        assert rest == [];
      }
    }
  }

  /** The concatenated chunks of a line are its bytes: the text of a
      `ShortLine`, the region `[startFileOffset, startFileOffset + numBytes)`
      of the file for a `LongLine` whose head is the start of that region. */
  lemma ChunksReconstructLine(l: FileLine, t: nat)
    requires Readable(l, t) && HeadMatchesFile(l)
    ensures Flatten(Chunks(l, t)) == Content(l)
  {
    match l
    case ShortLine(s) =>
      assert Flatten([s]) == s + Flatten([]);
    case LongLine(head, start, n, file) =>
      var rest := FileChunksFrom(l, t, start + |head|);
      assert Chunks(l, t) == [head] + rest;
      FlattenAppend([head], rest);
      assert Flatten([head]) == head + Flatten([]);
      FileChunksFromReconstruct(l, t, start + |head|);
      assert head == file[start .. start + |head|];
      SliceSplit(file, start, start + |head|, start + n);
  }

  /** `getNumBytes` is the number of bytes the iterator yields. */
  lemma NumBytesIsLength(l: FileLine, t: nat)
    requires Readable(l, t) && HeadMatchesFile(l)
    ensures GetNumBytes(l) == |Flatten(Chunks(l, t))| == |Content(l)|
  {
    ChunksReconstructLine(l, t);
  }

  /** Chunks of at most `t` bytes, all but the last exactly `t`, none empty
      unless it is the only one: the shape that makes chunk-by-chunk
      comparison agree with comparing whole lines. */
  ghost predicate ChunkedBy(xs: seq<seq<byte>>, t: nat)
  {
    && t > 0
    && (forall i :: 0 <= i < |xs| ==> |xs[i]| <= t)
    && (forall i :: 0 <= i < |xs| - 1 ==> |xs[i]| == t)
    && (forall i :: 1 <= i < |xs| ==> xs[i] != [])
  }

  lemma {:induction false} FileChunksFromShape(l: FileLine, t: nat, offset: nat)
    requires Readable(l, t) && l.LongLine? && l.startFileOffset <= offset
    ensures ChunkedBy(FileChunksFrom(l, t, offset), t)
    ensures forall c :: c in FileChunksFrom(l, t, offset) ==> c != []
    decreases l.startFileOffset + l.numBytes - offset
  {
    var end := l.startFileOffset + l.numBytes;
    if offset < end {
      var c, rest := FileChunk(l, t, offset), FileChunksFrom(l, t, offset + t);
      FileChunksFromShape(l, t, offset + t);
      assert |c| == Min(t, end - offset);
      assert rest != [] ==> offset + t < end;
      var cs := [c] + rest;
      assert FileChunksFrom(l, t, offset) == cs;
      forall i | 0 <= i < |cs| ensures 0 < |cs[i]| <= t && (i < |cs| - 1 ==> |cs[i]| == t) {
        if i > 0 {
          assert cs[i] == rest[i - 1];
          assert rest[i - 1] in rest;
        }
      }
    }
  }

  /** Every line the reader builds is chunked by `t`. */
  lemma ChunksOfReadLine(l: FileLine, t: nat)
    requires AsRead(l, t)
    ensures ChunkedBy(Chunks(l, t), t)
  {
    if l.LongLine? {
      var rest := FileChunksFrom(l, t, l.startFileOffset + |l.head|);
      FileChunksFromShape(l, t, l.startFileOffset + |l.head|);
      var cs := [l.head] + rest;
      assert Chunks(l, t) == cs;
      forall i | 0 <= i < |cs| ensures |cs[i]| <= t && (i < |cs| - 1 ==> |cs[i]| == t) && (i >= 1 ==> cs[i] != []) {
        if i > 0 {
          assert cs[i] == rest[i - 1];
          assert rest[i - 1] in rest;
        }
      }
    }
  }

  /** For lines chunked by `t`, the chunk-by-chunk rule orders them as
      `String.compareTo` orders their whole texts. */
  lemma {:induction false} CompareChunksIsLexicographic(xs: seq<seq<byte>>, ys: seq<seq<byte>>, t: nat)
    requires ChunkedBy(xs, t) && ChunkedBy(ys, t)
    requires xs == [] ==> ys == [] || ys[0] != []
    requires ys == [] ==> xs == [] || xs[0] != []
    ensures Sign(CompareChunks(xs, ys)) == Sign(JavaCompare(Flatten(xs), Flatten(ys)))
  {
    if xs != [] && ys != [] {
      var x, y := Flatten(xs[1..]), Flatten(ys[1..]);
      assert Flatten(xs) == xs[0] + x && Flatten(ys) == ys[0] + y;
      var c := JavaCompare(xs[0], ys[0]);
      if c != 0 {
        JavaCompareExtend(xs[0], ys[0], x, y);
      } else {
        JavaCompareZeroIffEqual(xs[0], ys[0]);
        JavaCompareCommonPrefix(xs[0], x, y);
        CompareChunksIsLexicographic(xs[1..], ys[1..], t);
      }
    }
  }

  /** A `LongLine` receiver orders lines built by the reader as
      `String.compareTo` orders their texts. */
  lemma LongLineCompareFollowsContent(a: FileLine, b: FileLine, t: nat)
    requires AsRead(a, t) && AsRead(b, t)
    ensures Sign(CompareChunks(Chunks(a, t), Chunks(b, t))) == Sign(JavaCompare(Content(a), Content(b)))
  {
    ChunksOfReadLine(a, t);
    ChunksOfReadLine(b, t);
    CompareChunksIsLexicographic(Chunks(a, t), Chunks(b, t), t);
    ChunksReconstructLine(a, t);
    ChunksReconstructLine(b, t);
  }

  /** `compareTo` is not antisymmetric: a `ShortLine` answers 0 against any
      `LongLine`, while that `LongLine` never answers 0 against it. */
  lemma ShortAgainstLongIsOneSided(s: FileLine, l: FileLine, t: nat)
    requires AsRead(s, t) && AsRead(l, t) && s.ShortLine? && l.LongLine?
    ensures CompareChunks(Chunks(l, t), Chunks(s, t)) != 0
  {
    LongLineCompareFollowsContent(l, s, t);
    JavaCompareZeroIffEqual(Content(l), Content(s));
  }

  /** `compareTo` as evidently intended: a `ShortLine` against a `LongLine`
      goes through the chunks like any other pair instead of answering 0,
      so for lines as the reader builds them the order is that of the
      lines' bytes whichever variant either one is. */
  method CompareToFixed(a: FileLine, b: FileLine, t: nat) returns (r: int)
    requires Readable(a, t) && Readable(b, t)
    ensures a.ShortLine? && b.ShortLine? ==> r == JavaCompare(a.line, b.line)
    ensures AsRead(a, t) && AsRead(b, t) ==> Sign(r) == Sign(JavaCompare(Content(a), Content(b)))
  {
    if a.ShortLine? && b.ShortLine? {
      r := JavaCompare(a.line, b.line);
    } else {
      r := ChunkwiseCompare(a, b, t);
      if AsRead(a, t) && AsRead(b, t) {
        LongLineCompareFollowsContent(a, b, t);
      }
    }
  }

  /** An independent reading of `CompareChunks`: when the first `k` chunks
      agree and chunk `k` differs, chunk `k` decides. */
  lemma {:induction false} CompareChunksFirstDifference(xs: seq<seq<byte>>, ys: seq<seq<byte>>, k: nat)
    requires k < |xs| && k < |ys|
    requires xs[..k] == ys[..k] && JavaCompare(xs[k], ys[k]) != 0
    ensures CompareChunks(xs, ys) == JavaCompare(xs[k], ys[k])
  {
    if k > 0 {
      assert xs[0] == xs[..k][0] == ys[..k][0] == ys[0];
      JavaCompareZeroIffEqual(xs[0], ys[0]);
      assert xs[1..][..k - 1] == xs[1..k] == ys[1..k] == ys[1..][..k - 1];
      CompareChunksFirstDifference(xs[1..], ys[1..], k - 1);
    }
  }

  /** When one chunk sequence is a prefix of the other, the shorter is
      smaller and equal ones are equal. */
  lemma {:induction false} CompareChunksPrefix(xs: seq<seq<byte>>, ys: seq<seq<byte>>)
    requires |xs| <= |ys| && xs == ys[..|xs|]
    ensures CompareChunks(xs, ys) == (if |xs| == |ys| then 0 else -1)
    ensures CompareChunks(ys, xs) == (if |xs| == |ys| then 0 else 1)
  {
    if xs != [] {
      assert xs[0] == ys[0];
      JavaCompareZeroIffEqual(xs[0], ys[0]);
      assert xs[1..] == ys[1..][..|xs| - 1];
      CompareChunksPrefix(xs[1..], ys[1..]);
    }
  }
}
