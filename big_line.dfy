/** `com.company.BigLine`, the earlier form of the line type: a `ShortLine`
    held whole, or a `LongLine` that keeps its first `t` bytes (`BUFFER_SIZE`)
    and reads the rest of its region of the file on demand.

    Unlike the later `FileLine`, a `LongLine` owns one `ByteBuffer` for its
    whole life: every iterator of the line reads into it, the buffer is
    never cleared, and its limit is only ever lowered.  The state of that
    buffer is therefore part of the line's state, and what an iterator
    yields depends on what earlier iterators left in it.  The functions
    below follow one iterator step by step over that state; the classes
    run the same steps on objects. */
module BigLines {
  import opened Bytes
  import opened Wrappers
  import FileLines

  /** The region of the file a `LongLine` stands for, with its cached head. */
  datatype Region = Region(head: seq<byte>, startFileOffset: nat, numBytes: nat, file: seq<byte>)

  /** The state of a `java.nio.ByteBuffer`: its backing array (whose length
      is the capacity), position and limit. */
  datatype Buf = Buf(bytes: seq<byte>, position: nat, limit: nat)

  ghost predicate BufOk(b: Buf, t: nat)
  {
    |b.bytes| == t && b.position <= b.limit <= t
  }

  /** `ByteBuffer.allocate(t)`, followed by the constructor's `limit(t)`. */
  function Allocate(t: nat): (b: Buf)
    ensures BufOk(b, t) && b.position == 0 && b.limit == t
  {
    Buf(seq(t, _ => 0), 0, t)
  }

  /** `ByteBuffer.limit(newLimit)`: `IllegalArgumentException` unless the new
      limit lies in `[0, capacity]`; otherwise the limit is set and a
      position beyond it is pulled back to it. */
  function WithLimit(b: Buf, newLimit: int): (r: Result<Buf>)
    ensures r.Success? <==> 0 <= newLimit <= |b.bytes|
    ensures r.Failure? ==> r.error == IllegalArgumentException
    ensures r.Success? ==> r.value.bytes == b.bytes && r.value.limit == newLimit
    ensures r.Success? ==> r.value.position == if b.position <= newLimit then b.position else newLimit
  {
    if 0 <= newLimit <= |b.bytes| then Success(Buf(b.bytes, Min(b.position, newLimit), newLimit))
    else Failure(IllegalArgumentException)
  }

  /** The number of bytes `FileChannel.read(dst, offset)` transfers: what is
      left of the file from `offset`, at most the room between the buffer's
      position and limit; none at or past the end of the file. */
  function Transferred(b: Buf, file: seq<byte>, offset: nat): nat
  {
    if offset >= |file| || b.limit <= b.position then 0 else Min(b.limit - b.position, |file| - offset)
  }

  /** `FileChannel.read(dst, offset)`: the bytes of the file from `offset`
      land in the buffer from its position on, and the position moves past
      them; the rest of the buffer and its limit stay. */
  function ReadAt(b: Buf, file: seq<byte>, offset: nat): (r: Buf)
    requires b.position <= b.limit <= |b.bytes|
    ensures |r.bytes| == |b.bytes| && r.limit == b.limit && r.position == b.position + Transferred(b, file, offset)
  {
    var n := Transferred(b, file, offset);
    if n == 0 then b
    else
      var r := Buf(b.bytes[..b.position] + file[offset .. offset + n] + b.bytes[b.position + n ..], b.position + n, b.limit);
      assert r.bytes[b.position .. b.position + n] == file[offset .. offset + n];
      r
  }

  /** The two fields of a `LongLine` iterator. */
  datatype Cursor = Cursor(currentOffset: nat, hasNext: bool)

  /** The state an iterator works on: `consumed` for a `ShortLine`; for a
      `LongLine` the region, the iterator's cursor and the line's buffer. */
  datatype ItState =
    | ShortIt(line: seq<byte>, consumed: bool)
    | LongIt(region: Region, cursor: Cursor, buf: Buf)

  /** What an iterator needs to make progress: a positive `t`, and for a
      `LongLine` a non-empty head (with an empty one `next()` would never
      leave the head), a buffer of capacity `t`, and a cursor that has not
      run past the region while `hasNext` holds. */
  ghost predicate ItOk(s: ItState, t: nat)
  {
    t > 0 &&
    match s
    case ShortIt(_, _) => true
    case LongIt(r, c, b) =>
      && |r.head| > 0 && BufOk(b, t) && r.startFileOffset <= c.currentOffset
      && (c.hasNext && c.currentOffset != r.startFileOffset ==>
            c.currentOffset < r.startFileOffset + r.numBytes)
  }

  function HasMore(s: ItState): bool
  {
    if s.ShortIt? then !s.consumed else s.cursor.hasNext
  }

  /** An upper bound on the chunks still to come. */
  function Remaining(s: ItState): nat
  {
    match s
    case ShortIt(_, consumed) => if consumed then 0 else 1
    case LongIt(r, c, _) =>
      var end := r.startFileOffset + r.numBytes;
      if !c.hasNext then 0
      else if c.currentOffset == r.startFileOffset then r.numBytes + 2
      else if c.currentOffset <= end then end - c.currentOffset + 1
      else 0
  }

  /** One `next()` and the state it leaves. */
  datatype Step = Step(chunk: seq<byte>, after: ItState)

  /** `next()`.  A `ShortLine` yields its text.  A `LongLine` yields its head
      first and moves the offset past it.  Later calls shorten the buffer's
      limit to the bytes left in the region when `currentOffset + t >
      numBytes` (an absolute offset against a length), which throws
      `IllegalArgumentException` when the bytes left exceed `t`; then read
      at the offset into the buffer as it is, yield the buffer's bytes up
      to its limit, and move the offset on by `t`.  `hasNext` turns false
      once the offset reaches the end of the region. */
  function NextStep(s: ItState, t: nat): (r: Result<Step>)
    requires ItOk(s, t) && HasMore(s)
    ensures r.Success? ==> ItOk(r.value.after, t) && Remaining(r.value.after) < Remaining(s)
    ensures s.ShortIt? ==> r == Success(Step(s.line, ShortIt(s.line, true)))
    ensures s.LongIt? && r.Success? ==> r.value.after.LongIt? && r.value.after.region == s.region
  {
    match s
    case ShortIt(line, _) => Success(Step(line, ShortIt(line, true)))
    case LongIt(r, c, b) =>
      var start, end := r.startFileOffset, r.startFileOffset + r.numBytes;
      if c.currentOffset == start then
        var offset := c.currentOffset + |r.head|;
        Success(Step(r.head, LongIt(r, Cursor(offset, c.hasNext && offset < end), b)))
      else
        var limited := if c.currentOffset + t > r.numBytes then WithLimit(b, end - c.currentOffset) else Success(b);
        if limited.Failure? then Failure(limited.error)
        else Success(ReadChunk(r, c, limited.value, t))
  }

  /** A `next()` after the head, once the limit is set: read at the offset
      into the buffer as it is, yield the buffer's bytes up to its limit,
      and move the offset on by `t`. */
  function ReadChunk(r: Region, c: Cursor, lb: Buf, t: nat): (st: Step)
    requires BufOk(lb, t)
    ensures st.after.LongIt? && st.after.region == r && BufOk(st.after.buf, t)
    ensures st.after.cursor.currentOffset == c.currentOffset + t
    ensures st.after.cursor.hasNext ==> c.hasNext && c.currentOffset + t < r.startFileOffset + r.numBytes
  {
    var b' := ReadAt(lb, r.file, c.currentOffset);
    var offset := c.currentOffset + t;
    Step(b'.bytes[..b'.limit], LongIt(r, Cursor(offset, c.hasNext && offset < r.startFileOffset + r.numBytes), b'))
  }

  /** A whole iteration: the chunks yielded, whether it ended normally or by
      an exception, and the state it left (the state before the throwing
      call, which changes nothing). */
  datatype Trace = Trace(chunks: seq<seq<byte>>, outcome: Outcome, last: ItState)

  /** Calling `next()` while `hasNext()` holds, from state `s`. */
  function Iterate(s: ItState, t: nat): (tr: Trace)
    requires ItOk(s, t)
    ensures ItOk(tr.last, t)
    ensures tr.outcome == Completed ==> !HasMore(tr.last)
    ensures s.LongIt? ==> tr.last.LongIt? && tr.last.region == s.region
    decreases Remaining(s)
  {
    if !HasMore(s) then Trace([], Completed, s)
    else
      var r := NextStep(s, t);
      if r.Failure? then Trace([], Threw(r.error), s)
      else
        var rest := Iterate(r.value.after, t);
        Trace([r.value.chunk] + rest.chunks, rest.outcome, rest.last)
  }

  /** One step of an iteration: a throwing `next()` ends it where it is,
      otherwise its chunk comes first and the rest follows from the state
      it leaves. */
  lemma IterateStep(s: ItState, t: nat)
    requires ItOk(s, t) && HasMore(s)
    ensures var r := NextStep(s, t);
            && (r.Failure? ==> Iterate(s, t) == Trace([], Threw(r.error), s))
            && (r.Success? ==>
                  && Iterate(s, t).chunks == [r.value.chunk] + Iterate(r.value.after, t).chunks
                  && Iterate(s, t).outcome == Iterate(r.value.after, t).outcome
                  && Iterate(s, t).last == Iterate(r.value.after, t).last)
  {
  }

  /** What `write` sends to the writer for the chunks: each chunk followed by
      a line separator. */
  function WriteOut(chunks: seq<seq<byte>>): seq<byte>
  {
    if chunks == [] then [] else chunks[0] + [NEWLINE] + WriteOut(chunks[1..])
  }

  lemma {:induction false} WriteOutAppend(xs: seq<seq<byte>>, x: seq<byte>)
    ensures WriteOut(xs + [x]) == WriteOut(xs) + x + [NEWLINE]
  {
    if xs == [] {
      assert xs + [x] == [x];
      assert WriteOut([x]) == x + [NEWLINE] + WriteOut([]);
    } else {
      assert (xs + [x])[1..] == xs[1..] + [x];
      WriteOutAppend(xs[1..], x);
    }
  }

  /** The rule of `BigLine.compareTo` on two chunk sequences: whichever runs
      out first is smaller (both at once: equal); the first pair of chunks
      that differ decides; and a pair of equal chunks shorter (or longer)
      than `t` ends the comparison as equal. */
  function CompareEarly(xs: seq<seq<byte>>, ys: seq<seq<byte>>, t: nat): int
  {
    if xs == [] && ys == [] then 0
    else if xs == [] then -1
    else if ys == [] then 1
    else
      var c := JavaCompare(xs[0], ys[0]);
      if c != 0 then c
      else if |xs[0]| != t then 0
      else CompareEarly(xs[1..], ys[1..], t)
  }

  /** The result of `compareTo` with the exception it may throw and the
      states it leaves both iterators in. */
  datatype Comparison = Comparison(value: int, outcome: Outcome, left: ItState, right: ItState)

  /** The loop of `BigLine.compareTo` run on two iterator states.  An
      exception from `next()` ends it (the value is then meaningless). */
  function CompareIts(s1: ItState, s2: ItState, t: nat): (c: Comparison)
    requires ItOk(s1, t) && ItOk(s2, t)
    ensures s1.LongIt? ==> c.left.LongIt? && c.left.region == s1.region
    ensures s2.LongIt? ==> c.right.LongIt? && c.right.region == s2.region
    decreases Remaining(s1)
  {
    if !HasMore(s1) && !HasMore(s2) then Comparison(0, Completed, s1, s2)
    else if !HasMore(s1) then Comparison(-1, Completed, s1, s2)
    else if !HasMore(s2) then Comparison(1, Completed, s1, s2)
    else
      var r1 := NextStep(s1, t);
      if r1.Failure? then Comparison(0, Threw(r1.error), s1, s2)
      else
        var r2 := NextStep(s2, t);
        if r2.Failure? then Comparison(0, Threw(r2.error), r1.value.after, s2)
        else
          var l1, l2 := r1.value.chunk, r2.value.chunk;
          var comp := JavaCompare(l1, l2);
          if comp != 0 then Comparison(comp, Completed, r1.value.after, r2.value.after)
          else if |l1| != t then Comparison(0, Completed, r1.value.after, r2.value.after)
          else CompareIts(r1.value.after, r2.value.after, t)
  }

  /** When neither iteration throws, the loop of `compareTo` answers what the
      rule gives on the two full chunk sequences. */
  lemma {:induction false} CompareFollowsChunks(s1: ItState, s2: ItState, t: nat)
    requires ItOk(s1, t) && ItOk(s2, t)
    requires Iterate(s1, t).outcome == Completed && Iterate(s2, t).outcome == Completed
    ensures CompareIts(s1, s2, t).outcome == Completed
    ensures CompareIts(s1, s2, t).value == CompareEarly(Iterate(s1, t).chunks, Iterate(s2, t).chunks, t)
    decreases Remaining(s1)
  {
    if HasMore(s1) && HasMore(s2) {
      var a, b := NextStep(s1, t).value.after, NextStep(s2, t).value.after;
      var xs, ys := Iterate(s1, t).chunks, Iterate(s2, t).chunks;
      assert xs[1..] == Iterate(a, t).chunks;
      assert ys[1..] == Iterate(b, t).chunks;
      if JavaCompare(xs[0], ys[0]) == 0 && |xs[0]| == t {
        CompareFollowsChunks(a, b, t);
      }
    }
  }

  /** The tail of a chunking by `t` is a chunking by `t`. */
  lemma ChunkedByTail(xs: seq<seq<byte>>, t: nat)
    requires FileLines.ChunkedBy(xs, t) && xs != []
    ensures FileLines.ChunkedBy(xs[1..], t)
  {
    var ys := xs[1..];
    forall i | 0 <= i < |ys| ensures |ys[i]| <= t && (i < |ys| - 1 ==> |ys[i]| == t) && (i >= 1 ==> ys[i] != []) {
      assert ys[i] == xs[i + 1];
    }
  }

  /** On lines chunked by `t` (every chunk but the last exactly `t` bytes),
      stopping at an equal chunk of another length loses nothing: only the
      last chunks can be shorter, so both lines end there. */
  lemma {:induction false} EarlyReturnHarmless(xs: seq<seq<byte>>, ys: seq<seq<byte>>, t: nat)
    requires FileLines.ChunkedBy(xs, t) && FileLines.ChunkedBy(ys, t)
    ensures CompareEarly(xs, ys, t) == FileLines.CompareChunks(xs, ys)
  {
    if xs != [] && ys != [] && JavaCompare(xs[0], ys[0]) == 0 {
      JavaCompareZeroIffEqual(xs[0], ys[0]);
      if |xs[0]| != t {
        assert |xs| == 1 && |ys| == 1;
        assert xs[1..] == [] && ys[1..] == [];
      } else {
        ChunkedByTail(xs, t);
        ChunkedByTail(ys, t);
        EarlyReturnHarmless(xs[1..], ys[1..], t);
      }
    }
  }

  /** A long line as the reader builds it: more than `t` bytes, the head the
      first `t` of them, the whole region inside the file. */
  ghost predicate AsRead(r: Region, t: nat)
  {
    t > 0 && r.numBytes > t && |r.head| == t && r.startFileOffset + r.numBytes <= |r.file|
    && r.head == r.file[r.startFileOffset .. r.startFileOffset + t]
  }

  /** The same line as an `org.dpinol.FileLine`. */
  function AsFileLine(r: Region): FileLines.FileLine
  {
    FileLines.LongLine(r.head, r.startFileOffset, r.numBytes, r.file)
  }

  /** A buffer no read has touched: position 0, limit at the capacity. */
  ghost predicate Unread(b: Buf, t: nat)
  {
    BufOk(b, t) && b.position == 0 && b.limit == t
  }

  /** The shape of a line of more than `t` and at most `2t` bytes: a head
      of `t` bytes and one read's worth of body after it. */
  ghost predicate TwoChunks(r: Region, t: nat)
  {
    t > 0 && |r.head| == t && t < r.numBytes <= 2 * t && r.startFileOffset + r.numBytes <= |r.file|
  }

  /** The body of such a line, what the one read after the head yields. */
  function Body(r: Region, t: nat): seq<byte>
    requires TwoChunks(r, t)
  {
    r.file[r.startFileOffset + t .. r.startFileOffset + r.numBytes]
  }

  /** A buffer left by an iteration over such a line: the one read it takes
      is in the buffer, which is full to its limit. */
  ghost predicate Settled(b: Buf, r: Region, t: nat)
    requires TwoChunks(r, t)
  {
    BufOk(b, t) && b.position == b.limit == r.numBytes - t && b.bytes[..r.numBytes - t] == Body(r, t)
  }

  /** The corrected `FileLine` yields the head and then the body. */
  lemma FileChunksOfShortLongLine(r: Region, t: nat)
    requires AsRead(r, t) && r.numBytes <= 2 * t
    ensures FileLines.Readable(AsFileLine(r), t)
    ensures FileLines.Chunks(AsFileLine(r), t) == [r.head, Body(r, t)]
  {
    var l := AsFileLine(r);
    var start, n := r.startFileOffset, r.numBytes;
    assert FileLines.FileChunk(l, t, start + t) == Body(r, t);
    assert FileLines.FileChunksFrom(l, t, start + 2 * t) == [];
  }

  /** The step after the head: the limit drops to the `n - t` bytes of the
      body (or already is that), the read fills a fresh buffer with them
      and finds a settled one already holding them, and the iteration
      ends. */
  lemma BodyStep(r: Region, t: nat, b: Buf) returns (b': Buf)
    requires TwoChunks(r, t)
    requires Unread(b, t) || Settled(b, r, t)
    ensures Settled(b', r, t)
    ensures ItOk(LongIt(r, Cursor(r.startFileOffset + t, true), b), t)
    ensures NextStep(LongIt(r, Cursor(r.startFileOffset + t, true), b), t)
            == Success(Step(Body(r, t), LongIt(r, Cursor(r.startFileOffset + 2 * t, false), b')))
  {
    var lb := LimitStep(r, t, b);
    BodyChunk(r, t, lb);
    b' := ReadAt(lb, r.file, r.startFileOffset + t);
  }

  /** The read after the head, into the limited buffer, yields the body. */
  lemma BodyChunk(r: Region, t: nat, lb: Buf)
    requires TwoChunks(r, t) && BufOk(lb, t) && lb.limit == r.numBytes - t
    requires lb.position == 0 || (lb.position == lb.limit && lb.bytes[..lb.limit] == Body(r, t))
    ensures var b' := ReadAt(lb, r.file, r.startFileOffset + t);
            && Settled(b', r, t)
            && ReadChunk(r, Cursor(r.startFileOffset + t, true), lb, t)
               == Step(Body(r, t), LongIt(r, Cursor(r.startFileOffset + 2 * t, false), b'))
  {
    var start, n := r.startFileOffset, r.numBytes;
    var from, k := start + t, n - t;
    assert from + k == start + n;
    BodyRead(r.file, from, k, lb);
    var b' := ReadAt(lb, r.file, from);
    assert b'.bytes[..k] == Body(r, t);
    assert b'.bytes[..b'.limit] == Body(r, t);
  }

  /** Before that read the limit drops to the `n - t` bytes of the body,
      or already is that. */
  lemma LimitStep(r: Region, t: nat, b: Buf) returns (lb: Buf)
    requires TwoChunks(r, t)
    requires Unread(b, t) || Settled(b, r, t)
    ensures lb.bytes == b.bytes && lb.limit == r.numBytes - t
    ensures lb.position == 0 || (lb.position == lb.limit && lb.bytes[..lb.limit] == Body(r, t))
    ensures ItOk(LongIt(r, Cursor(r.startFileOffset + t, true), b), t) && BufOk(lb, t)
    ensures NextStep(LongIt(r, Cursor(r.startFileOffset + t, true), b), t)
            == Success(ReadChunk(r, Cursor(r.startFileOffset + t, true), lb, t))
  {
    var start, n := r.startFileOffset, r.numBytes;
    lb := Buf(b.bytes, if b.position == 0 then 0 else n - t, n - t);
    if start + t + t > n {
      assert WithLimit(b, start + n - (start + t)) == Success(lb);
    } else {
      assert b == lb;
    }
  }

  /** The read itself: `k` bytes of the file from `from` into a buffer
      limited to `k`, either empty or already holding them. */
  lemma BodyRead(file: seq<byte>, from: nat, k: nat, lb: Buf)
    requires 0 < k <= |lb.bytes| && from + k <= |file| && lb.limit == k
    requires lb.position == 0 || (lb.position == k && lb.bytes[..k] == file[from .. from + k])
    ensures var b' := ReadAt(lb, file, from);
            && |b'.bytes| == |lb.bytes| && b'.position == b'.limit == k
            && b'.bytes[..k] == file[from .. from + k]
  {
    if lb.position == 0 {
      assert Transferred(lb, file, from) == k;
      var nb := lb.bytes[..0] + file[from .. from + k] + lb.bytes[k..];
      assert ReadAt(lb, file, from).bytes == nb;
      assert nb[..k] == file[from .. from + k];
    } else {
      assert Transferred(lb, file, from) == 0;
    }
  }


  /** A line of more than `t` and at most `2t` bytes (the `BUFFER_SIZE + 1`
      line of the reader's test) reads back right on its first iteration
      and on every later one: the chunks are those of the corrected
      `FileLine`, whose concatenation is the line. */
  lemma HeadStep(r: Region, t: nat, b: Buf)
    requires AsRead(r, t) && BufOk(b, t)
    ensures ItOk(LongIt(r, Cursor(r.startFileOffset, true), b), t)
    ensures NextStep(LongIt(r, Cursor(r.startFileOffset, true), b), t)
            == Success(Step(r.head, LongIt(r, Cursor(r.startFileOffset + t, true), b)))
  {
  }

  lemma ShortLongLineReadsBack(r: Region, t: nat, b: Buf)
    requires AsRead(r, t) && r.numBytes <= 2 * t
    requires b == Allocate(t) || Settled(b, r, t)
    ensures ItOk(LongIt(r, Cursor(r.startFileOffset, true), b), t)
    ensures var tr := Iterate(LongIt(r, Cursor(r.startFileOffset, true), b), t);
            && tr.outcome == Completed
            && tr.chunks == FileLines.Chunks(AsFileLine(r), t)
            && Settled(tr.last.buf, r, t)
  {
    var start := r.startFileOffset;
    var s0 := LongIt(r, Cursor(start, true), b);
    var s1 := LongIt(r, Cursor(start + t, true), b);
    HeadStep(r, t, b);
    assert Unread(b, t) || Settled(b, r, t);
    var b' := BodyStep(r, t, b);
    var s2 := LongIt(r, Cursor(start + 2 * t, false), b');
    IterateStep(s0, t);
    IterateStep(s1, t);
    assert Iterate(s2, t) == Trace([], Completed, s2);
    FileChunksOfShortLongLine(r, t);
  }

  /** The line "aabbc" alone in its file, read with `t = 2`. */
  const Aabbc: Region := Region([97, 97], 0, 5, [97, 97, 98, 98, 99])

  /** The two reads of the line's body: the first fills the buffer with
      "bb"; the second, after the limit drops to 1, finds the buffer
      already full to it and transfers nothing. */
  lemma AabbcReads()
    ensures ReadAt(Allocate(2), Aabbc.file, 2) == Buf([98, 98], 2, 2)
    ensures WithLimit(Buf([98, 98], 2, 2), 1) == Success(Buf([98, 98], 1, 1))
    ensures ReadAt(Buf([98, 98], 1, 1), Aabbc.file, 4) == Buf([98, 98], 1, 1)
  {
    var r := ReadAt(Allocate(2), Aabbc.file, 2);
    assert r.bytes[0..2] == Aabbc.file[2..4];
  }

  lemma AabbcSteps()
    ensures var s0 := LongIt(Aabbc, Cursor(0, true), Allocate(2));
            var s1 := LongIt(Aabbc, Cursor(2, true), Allocate(2));
            var s2 := LongIt(Aabbc, Cursor(4, true), Buf([98, 98], 2, 2));
            && ItOk(s0, 2) && ItOk(s1, 2) && ItOk(s2, 2)
            && NextStep(s0, 2) == Success(Step([97, 97], s1))
            && NextStep(s1, 2) == Success(Step([98, 98], s2))
            && NextStep(s2, 2) == Success(Step([98], LongIt(Aabbc, Cursor(6, false), Buf([98, 98], 1, 1))))
  {
    AabbcReads();
    assert Buf([98, 98], 2, 2).bytes[..2] == [98, 98];
    assert Buf([98, 98], 1, 1).bytes[..1] == [98];
  }

  lemma AabbcFileChunks()
    ensures FileLines.Chunks(AsFileLine(Aabbc), 2) == [[97, 97], [98, 98], [99]]
  {
    var l := AsFileLine(Aabbc);
    assert FileLines.FileChunk(l, 2, 2) == [98, 98];
    assert FileLines.FileChunk(l, 2, 4) == [99];
    assert FileLines.FileChunksFrom(l, 2, 6) == [];
  }

  /** The first `t` bytes of the second read stay in the buffer: with `t = 2`
      the line "aabbc" at offset 0 yields "aa", "bb" and then "b" instead of
      "c" — the buffer, full since the first read, takes no more bytes. */
  lemma StaleChunk()
    ensures AsRead(Aabbc, 2)
    ensures Iterate(LongIt(Aabbc, Cursor(0, true), Allocate(2)), 2).chunks == [[97, 97], [98, 98], [98]]
    ensures FileLines.Chunks(AsFileLine(Aabbc), 2) == [[97, 97], [98, 98], [99]]
  {
    var s0 := LongIt(Aabbc, Cursor(0, true), Allocate(2));
    var s1 := LongIt(Aabbc, Cursor(2, true), Allocate(2));
    var s2 := LongIt(Aabbc, Cursor(4, true), Buf([98, 98], 2, 2));
    var s3 := LongIt(Aabbc, Cursor(6, false), Buf([98, 98], 1, 1));
    AabbcSteps();
    IterateStep(s0, 2);
    IterateStep(s1, 2);
    IterateStep(s2, 2);
    assert Iterate(s3, 2).chunks == [];
    AabbcFileChunks();
  }

  /** With the line not at the start of the file the shortening test
      compares an absolute offset with a length: with `t = 2` a line of 5
      bytes at offset 3 asks for a limit of 3 on its first read, beyond the
      capacity of 2, and the iteration throws `IllegalArgumentException`
      after the head. */
  lemma LimitPastCapacity()
    ensures var r := Region([97, 97], 3, 5, [10, 10, 10, 97, 97, 98, 98, 99]);
            && AsRead(r, 2)
            && Iterate(LongIt(r, Cursor(3, true), Allocate(2)), 2)
               == Trace([[97, 97]], Threw(IllegalArgumentException), LongIt(r, Cursor(5, true), Allocate(2)))
  {
    var r := Region([97, 97], 3, 5, [10, 10, 10, 97, 97, 98, 98, 99]);
    var s0 := LongIt(r, Cursor(3, true), Allocate(2));
    var s1 := LongIt(r, Cursor(5, true), Allocate(2));
    assert NextStep(s0, 2) == Success(Step([97, 97], s1));
    assert WithLimit(Allocate(2), 3) == Failure(IllegalArgumentException);
    assert NextStep(s1, 2) == Failure(IllegalArgumentException);
  }

  /** `write` on a line of several chunks puts a line separator right after
      the first chunk, inside the line: the line comes out split in two. */
  lemma WriteSplitsLine(chunks: seq<seq<byte>>)
    requires |chunks| >= 2
    ensures |WriteOut(chunks)| > |chunks[0]| && WriteOut(chunks)[|chunks[0]|] == NEWLINE
    ensures Flatten(chunks) + [NEWLINE] != WriteOut(chunks) || NEWLINE in Flatten(chunks)
  {
    var out := WriteOut(chunks);
    assert out == chunks[0] + [NEWLINE] + WriteOut(chunks[1..]);
    var flat := Flatten(chunks);
    if flat + [NEWLINE] == out {
      assert flat == chunks[0] + Flatten(chunks[1..]);
      assert |WriteOut(chunks[1..])| > 0;
      assert flat[|chunks[0]|] == out[|chunks[0]|];
    }
  }

  /** A `LongLine`: its region and the buffer it reads into. */
  class LongLine {
    const region: Region
    var buffer: Buf

    /** `new LongLine(fileChannel, head, startFileOffset, numBytes)`. */
    constructor (region: Region, t: nat)
      ensures this.region == region && buffer == Allocate(t)
    {
      this.region := region;
      buffer := Allocate(t);
    }
  }

  datatype BigLine = Short(line: seq<byte>) | Long(long: LongLine)

  /** The objects a line's iterators change. */
  function Footprint(l: BigLine): set<object>
  {
    if l.Long? then {l.long} else {}
  }

  /** The state a fresh iterator of the line starts from. */
  function Start(l: BigLine): ItState
    reads Footprint(l)
  {
    match l
    case Short(s) => ShortIt(s, false)
    case Long(o) => LongIt(o.region, Cursor(o.region.startFileOffset, true), o.buffer)
  }

  ghost predicate LineOk(l: BigLine, t: nat)
    reads Footprint(l)
  {
    ItOk(Start(l), t)
  }

  /** `tr` is what remains, `rest`, after the chunks `yielded`. */
  ghost predicate Resumes(tr: Trace, yielded: seq<seq<byte>>, rest: Trace)
  {
    tr == Trace(yielded + rest.chunks, rest.outcome, rest.last)
  }

  lemma NextResumes(tr: Trace, yielded: seq<seq<byte>>, before: ItState, t: nat,
                    chunk: seq<byte>, o: Outcome, after: ItState)
    requires ItOk(before, t) && HasMore(before) && Resumes(tr, yielded, Iterate(before, t))
    requires var r := NextStep(before, t);
             && (r.Failure? ==> o == Threw(r.error) && after == before)
             && (r.Success? ==> o == Completed && chunk == r.value.chunk && after == r.value.after)
    ensures ItOk(after, t)
    ensures o != Completed ==> Resumes(tr, yielded, Trace([], o, after)) && tr.chunks == yielded
    ensures o == Completed ==> Resumes(tr, yielded + [chunk], Iterate(after, t))
  {
    IterateStep(before, t);
    if o == Completed {
      assert yielded + [chunk] + Iterate(after, t).chunks == yielded + ([chunk] + Iterate(after, t).chunks);
    } else {
      assert yielded + [] == yielded;
    }
  }

  /** The iterator `getIterator()` returns. */
  class ChunkIterator {
    const line: BigLine
    const t: nat
    var consumed: bool
    var cursor: Cursor

    function State(): ItState
      reads this, Footprint(line)
    {
      match line
      case Short(s) => ShortIt(s, consumed)
      case Long(o) => LongIt(o.region, cursor, o.buffer)
    }

    constructor (line: BigLine, t: nat)
      ensures this.line == line && this.t == t && State() == Start(line)
    {
      this.line := line;
      this.t := t;
      consumed := false;
      cursor := if line.Long? then Cursor(line.long.region.startFileOffset, true) else Cursor(0, true);
    }

    function HasNext(): (b: bool)
      reads this, Footprint(line)
      ensures b == HasMore(State())
    {
      if line.Short? then !consumed else cursor.hasNext
    }

    /** `next()`. */
    method Next() returns (chunk: seq<byte>, outcome: Outcome)
      requires ItOk(State(), t) && HasNext()
      modifies this, Footprint(line)
      ensures var r := NextStep(old(State()), t);
              && (r.Failure? ==> outcome == Threw(r.error) && State() == old(State()))
              && (r.Success? ==> outcome == Completed && chunk == r.value.chunk && State() == r.value.after)
    {
      if line.Short? {
        consumed := true;
        return line.line, Completed;
      }
      var o := line.long;
      var r := o.region;
      var start, end := r.startFileOffset, r.startFileOffset + r.numBytes;
      if cursor.currentOffset == start {
        var offset := cursor.currentOffset + |r.head|;
        cursor := Cursor(offset, cursor.hasNext && offset < end);
        return r.head, Completed;
      }
      if cursor.currentOffset + t > r.numBytes {
        var limited := WithLimit(o.buffer, end - cursor.currentOffset);
        if limited.Failure? {
          return [], Threw(limited.error);
        }
        o.buffer := limited.value;
      }
      o.buffer := ReadAt(o.buffer, r.file, cursor.currentOffset);
      var offset := cursor.currentOffset + t;
      cursor := Cursor(offset, cursor.hasNext && offset < end);
      chunk := o.buffer.bytes[..o.buffer.limit];
      outcome := Completed;
    }
  }

  /** `compareTo`.  A `ShortLine` receiver compares the two texts when the
      other line is a `ShortLine` too and answers 0 otherwise, touching
      nothing; a `LongLine` receiver runs the loop over two iterators, with
      the result, exception and buffers `CompareIts` gives. */
  method CompareTo(a: BigLine, b: BigLine, t: nat) returns (r: int, outcome: Outcome)
    requires LineOk(a, t) && LineOk(b, t) && Footprint(a) !! Footprint(b)
    modifies Footprint(a), Footprint(b)
    ensures a.Short? ==> outcome == Completed && r == (if b.Short? then JavaCompare(a.line, b.line) else 0)
    ensures a.Short? && b.Long? ==> b.long.buffer == old(b.long.buffer)
    ensures a.Long? ==>
              var c := CompareIts(old(Start(a)), old(Start(b)), t);
              && r == c.value && outcome == c.outcome
              && a.long.buffer == c.left.buf
              && (b.Long? ==> b.long.buffer == c.right.buf)
  {
    if a.Short? {
      r := if b.Short? then JavaCompare(a.line, b.line) else 0;
      return r, Completed;
    }
    var i1 := new ChunkIterator(a, t);
    var i2 := new ChunkIterator(b, t);
    ghost var goal := CompareIts(i1.State(), i2.State(), t);
    while true
      invariant i1.line == a && i1.t == t && i2.line == b && i2.t == t
      invariant ItOk(i1.State(), t) && ItOk(i2.State(), t)
      invariant CompareIts(i1.State(), i2.State(), t) == goal
      decreases Remaining(i1.State())
    {
      if !i1.HasNext() && !i2.HasNext() {
        return 0, Completed;
      } else if !i1.HasNext() && i2.HasNext() {
        return -1, Completed;
      } else if i1.HasNext() && !i2.HasNext() {
        return 1, Completed;
      }
      var l1, o1 := i1.Next();
      if o1 != Completed {
        return 0, o1;
      }
      var l2, o2 := i2.Next();
      if o2 != Completed {
        return 0, o2;
      }
      var comp := JavaCompare(l1, l2);
      if comp != 0 {
        return comp, Completed;
      } else if |l1| != t {
        return 0, Completed;
      }
    }
  }

  /** `write`: every chunk, each followed by a line separator; an exception
      from `next()` stops it with what was written so far. */
  method Write(l: BigLine, t: nat) returns (out: seq<byte>, outcome: Outcome)
    requires LineOk(l, t)
    modifies Footprint(l)
    ensures var tr := Iterate(old(Start(l)), t);
            && out == WriteOut(tr.chunks) && outcome == tr.outcome
            && (l.Long? ==> tr.last.LongIt? && l.long.buffer == tr.last.buf)
  {
    var it := new ChunkIterator(l, t);
    ghost var tr := Iterate(it.State(), t);
    ghost var yielded: seq<seq<byte>> := [];
    out := [];
    while it.HasNext()
      invariant it.line == l && it.t == t && ItOk(it.State(), t)
      invariant Resumes(tr, yielded, Iterate(it.State(), t))
      invariant out == WriteOut(yielded)
      decreases Remaining(it.State())
    {
      ghost var before := it.State();
      var chunk, o := it.Next();
      ghost var after := it.State();
      NextResumes(tr, yielded, before, t, chunk, o, after);
      if o != Completed {
        return out, o;
      }
      WriteOutAppend(yielded, chunk);
      yielded := yielded + [chunk];
      out := out + chunk + [NEWLINE];
    }
    assert yielded + [] == yielded;
    outcome := Completed;
  }
}
