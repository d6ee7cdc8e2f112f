/** `com.company.BigLineReader`: splits a file into lines, each a
    `ShortLine` held whole when it has at most `t` bytes (`BUFFER_SIZE`) and
    otherwise a `LongLine` that keeps its first `t` bytes and the region of
    the file it spans.

    The reader pulls the file through a buffer of `t` bytes.  One call to
    `getBigLine` scans for the next separator, refilling the buffer as often
    as the line needs, and counts the bytes before it; the head is copied
    from the buffer as the scan goes.  `NextLine` says in one expression
    what a call yields; the class runs it on the buffer, and
    `GetBigLine` is proved to agree with it whatever the sizes of the
    reads the channel hands back. */
module BigLineReaders {
  import opened Bytes
  import opened Wrappers
  import FileLines
  import BigLines

  /** `LINE_SEPARATOR_BYTES`: one byte, '\n'. */
  const SEPARATOR: seq<byte> := [NEWLINE]

  /** Where the line starting at `c` ends: the first separator at or after
      `c`, or the end of the file when there is none. */
  function LineEnd(file: seq<byte>, c: nat): (j: nat)
    requires c <= |file|
    ensures c <= j <= |file| && NEWLINE !in file[c .. j]
    ensures j < |file| ==> file[j] == NEWLINE
    decreases |file| - c
  {
    if c == |file| || file[c] == NEWLINE then c
    else
      var j := LineEnd(file, c + 1);
      assert file[c .. j] == [file[c]] + file[c + 1 .. j];
      j
  }

  /** `LineEnd` is the only such position: a separator-free stretch from `c`
      that stops at a separator or at the end of the file ends the line. */
  lemma {:induction false} LineEndUnique(file: seq<byte>, c: nat, j: nat)
    requires c <= j <= |file| && NEWLINE !in file[c .. j]
    requires j < |file| ==> file[j] == NEWLINE
    ensures LineEnd(file, c) == j
    decreases j - c
  {
    if c < j {
      assert file[c] == file[c .. j][0];
      assert file[c + 1 .. j] == file[c .. j][1..];
      LineEndUnique(file, c + 1, j);
    }
  }

  /** What one call of `getBigLine` yields, where the scan resumes, and the
      new `lineStartFileOffset`. */
  datatype Read = Read(line: Option<FileLines.FileLine>, next: nat, lineStart: nat)

  /** One `getBigLine` from scan position `c`: the bytes up to the next
      separator (or the end of the file) form the line, and the scan
      resumes past the separator.  An empty line yields `null`, like the
      end of the file, and leaves `lineStartFileOffset` alone.  Otherwise a
      line of at most `t` bytes is a `ShortLine` and a longer one a
      `LongLine` with the first `t` bytes as its head, starting at
      `lineStartFileOffset`, which moves past the line and its
      separator. */
  function NextLine(file: seq<byte>, c: nat, lineStart: nat, t: nat): (r: Read)
    requires c <= |file|
    ensures c <= r.next <= |file|
    ensures c < |file| ==> c < r.next
  {
    var j := LineEnd(file, c);
    var line := file[c .. j];
    var next := if j < |file| then j + 1 else |file|;
    if |line| == 0 then Read(None, next, lineStart)
    else if |line| <= t then Read(Some(FileLines.ShortLine(line)), next, lineStart + |line| + 1)
    else Read(Some(FileLines.LongLine(line[..t], lineStart, |line|, file)), next, lineStart + |line| + 1)
  }

  /** The reader hands out what the line holds: a line yielded while
      `lineStartFileOffset` is the scan position is one the line types can
      read back (a `ShortLine` of at most `t` bytes, or a `LongLine` of more
      whose head is the start of its region); its bytes are the text up to
      the separator; and `null` comes exactly for an empty line. */
  lemma ReadLineIsWellFormed(file: seq<byte>, c: nat, t: nat)
    requires c <= |file| && t > 0
    ensures var r := NextLine(file, c, c, t);
            && (r.line.None? <==> LineEnd(file, c) == c)
            && (r.line.Some? ==>
                  && FileLines.AsRead(r.line.value, t)
                  && FileLines.Content(r.line.value) == file[c .. LineEnd(file, c)]
                  && (r.line.value.ShortLine? <==> LineEnd(file, c) - c <= t))
  {
    var j := LineEnd(file, c);
    if t < j - c {
      assert file[c .. j][..t] == file[c .. c + t];
    }
  }

  /** After a line ended by a separator, `lineStartFileOffset` is again the
      scan position, so the next `LongLine` starts where its text does. */
  lemma StartStaysInStep(file: seq<byte>, c: nat, t: nat)
    requires c <= |file| && LineEnd(file, c) < |file|
    ensures var r := NextLine(file, c, c, t);
            r.line.Some? ==> r.lineStart == r.next
  {
  }

  /** A `LongLine` as the reader builds it is also one the `com.company`
      line type reads back: head, region and file agree. */
  lemma LongLineAsRead(file: seq<byte>, c: nat, t: nat)
    requires c <= |file| && t > 0
    requires var r := NextLine(file, c, c, t); r.line.Some? && r.line.value.LongLine?
    ensures var l := NextLine(file, c, c, t).line.value;
            BigLines.AsRead(BigLines.Region(l.head, l.startFileOffset, l.numBytes, l.file), t)
  {
    ReadLineIsWellFormed(file, c, t);
  }

  /** A last line with no separator after it is still handed out, whole,
      and the reader is then at the end of the file. */
  lemma FinalLineReturned(file: seq<byte>, c: nat, t: nat)
    requires c < |file| && NEWLINE !in file[c..]
    ensures var r := NextLine(file, c, c, t);
            && r.line.Some? && r.next == |file|
            && FileLines.Content(r.line.value) == file[c..]
  {
    LineEndUnique(file, c, |file|);
  }

  /** `arrayContains`: whether `needle` occurs in `haystack` at `offset`. */
  method ArrayContains(haystack: array<byte>, offset: nat, needle: seq<byte>) returns (r: bool)
    requires offset + |needle| <= haystack.Length
    ensures r <==> haystack[offset .. offset + |needle|] == needle
  {
    var i := 0;
    while i < |needle|
      invariant 0 <= i <= |needle|
      invariant haystack[offset .. offset + i] == needle[..i]
    {
      if haystack[i + offset] != needle[i] {
        assert haystack[offset .. offset + |needle|][i] != needle[i];
        return false;
      }
      assert haystack[offset .. offset + i + 1] == haystack[offset .. offset + i] + [haystack[offset + i]];
      i := i + 1;
    }
    assert needle[..i] == needle;
    return true;
  }

  /** `nl` is the first index in `[lo, hi)` of `bs` holding the separator,
      or -1 when there is none. */
  ghost predicate FirstSeparator(bs: seq<byte>, lo: int, hi: int, nl: int)
  {
    && (nl == -1 || (0 <= lo <= nl < hi <= |bs| && bs[nl] == NEWLINE))
    && forall i :: lo <= i < (if nl == -1 then hi else nl) ==> 0 <= i < |bs| && bs[i] != NEWLINE
  }

  /** `findNewLine`: the first index in `[startIndex, bufSize)` holding the
      separator, or -1 when there is none. */
  method FindNewLine(a: array<byte>, startIndex: nat, bufSize: int) returns (nl: int)
    requires bufSize <= a.Length
    ensures FirstSeparator(a[..], startIndex, bufSize, nl)
  {
    var i := startIndex;
    while i < bufSize
      invariant startIndex <= i && (i == startIndex || i <= bufSize)
      invariant forall k :: startIndex <= k < i ==> a[k] != NEWLINE
    {
      var found := ArrayContains(a, i, SEPARATOR);
      if found {
        assert a[i .. i + 1][0] == a[i];
        nl := i;
        return;
      }
      assert a[i .. i + 1] == [a[i]];
      i := i + 1;
    }
    return -1;
  }

  /** No separator among `a[lo..hi]`, as a fact about the slice. */
  lemma NoSeparatorIn(a: seq<byte>, lo: nat, hi: nat)
    requires lo <= hi <= |a|
    requires forall i :: lo <= i < hi ==> a[i] != NEWLINE
    ensures NEWLINE !in a[lo .. hi]
  {
    assert forall k :: 0 <= k < hi - lo ==> a[lo .. hi][k] == a[lo + k];
  }

  /** Separator-free stretches join. */
  lemma NoSeparatorJoin(file: seq<byte>, lo: nat, mid: nat, hi: nat)
    requires lo <= mid <= hi <= |file|
    requires NEWLINE !in file[lo .. mid] && NEWLINE !in file[mid .. hi]
    ensures NEWLINE !in file[lo .. hi]
  {
    assert file[lo .. hi] == file[lo .. mid] + file[mid .. hi];
  }

  /** The bytes of the buffer are those of the file from `base` on. */
  lemma BufferIsFile(buf: seq<byte>, file: seq<byte>, base: nat, lo: nat, hi: nat)
    requires base + |buf| <= |file| && buf == file[base .. base + |buf|] && lo <= hi <= |buf|
    ensures buf[lo .. hi] == file[base + lo .. base + hi]
  {
    forall i | 0 <= i < hi - lo
      ensures buf[lo .. hi][i] == file[base + lo .. base + hi][i]
    {
      assert buf[lo + i] == file[base .. base + |buf|][lo + i];
    }
  }

  /** The head grows by the bytes copied, as long as it is shorter than
      `t`. */
  lemma HeadGrows(file: seq<byte>, c0: nat, len: nat, n: nat, t: nat)
    requires c0 + len + n <= |file| && len < t
    ensures var k := Min(Min(t, n), t - len);
            file[c0 .. c0 + len] + file[c0 + len .. c0 + len + k] == file[c0 .. c0 + Min(len + n, t)]
  {
  }

  /** A line of `line`'s bytes at `c`, ended by a separator. */
  lemma LineAt(file: seq<byte>, c: nat, line: seq<byte>, t: nat)
    requires c + |line| < |file| && file[c .. c + |line|] == line && NEWLINE !in line
    requires file[c + |line|] == NEWLINE && |line| > 0
    ensures var next := c + |line| + 1;
            NextLine(file, c, c, t) == if |line| <= t then Read(Some(FileLines.ShortLine(line)), next, next)
                                       else Read(Some(FileLines.LongLine(line[..t], c, |line|, file)), next, next)
  {
    LineEndUnique(file, c, c + |line|);
  }

  /** The file of the long-lines scenario: lines of `t - 1`, `t` and
      `t + 1` bytes, each ended by the separator. */
  function ThreeLines(l1: seq<byte>, l2: seq<byte>, l3: seq<byte>): seq<byte>
  {
    l1 + SEPARATOR + l2 + SEPARATOR + l3 + SEPARATOR
  }

  /** The long-lines scenario, for any `t` of at least 2 (with `t` = 1 the
      first line would be empty): the reader hands out the first two lines
      whole as `ShortLine`s and the third as a `LongLine` from offset
      `2t + 1` whose iterator gives back exactly its bytes; then `null`. */
  lemma ThreeLinesRead(l1: seq<byte>, l2: seq<byte>, l3: seq<byte>, t: nat)
    requires t >= 2 && |l1| == t - 1 && |l2| == t && |l3| == t + 1
    requires NEWLINE !in l1 && NEWLINE !in l2 && NEWLINE !in l3
    ensures var file := ThreeLines(l1, l2, l3);
            && NextLine(file, 0, 0, t) == Read(Some(FileLines.ShortLine(l1)), t, t)
            && NextLine(file, t, t, t) == Read(Some(FileLines.ShortLine(l2)), 2 * t + 1, 2 * t + 1)
            && NextLine(file, 2 * t + 1, 2 * t + 1, t)
               == Read(Some(FileLines.LongLine(l3[..t], 2 * t + 1, t + 1, file)), |file|, |file|)
            && NextLine(file, |file|, |file|, t).line.None?
  {
    var file := ThreeLines(l1, l2, l3);
    assert |file| == 3 * t + 3;
    assert file[0 .. t - 1] == l1;
    LineAt(file, 0, l1, t);
    assert file[t .. 2 * t] == l2;
    LineAt(file, t, l2, t);
    assert file[2 * t + 1 .. 3 * t + 2] == l3;
    LineAt(file, 2 * t + 1, l3, t);
  }

  /** The third line of the scenario read back through its iterator, as the
      test's `readLine` does: the chunks concatenate to the line. */
  lemma ThreeLinesReadBack(l1: seq<byte>, l2: seq<byte>, l3: seq<byte>, t: nat)
    requires t >= 2 && |l1| == t - 1 && |l2| == t && |l3| == t + 1
    requires NEWLINE !in l1 && NEWLINE !in l2 && NEWLINE !in l3
    ensures var r := BigLines.Region(l3[..t], 2 * t + 1, t + 1, ThreeLines(l1, l2, l3));
            var tr := BigLines.Iterate(BigLines.LongIt(r, BigLines.Cursor(2 * t + 1, true), BigLines.Allocate(t)), t);
            tr.outcome == Completed && Flatten(tr.chunks) == l3
  {
    var file := ThreeLines(l1, l2, l3);
    var r := BigLines.Region(l3[..t], 2 * t + 1, t + 1, file);
    assert file[2 * t + 1 .. 3 * t + 2] == l3;
    assert file[2 * t + 1 .. 3 * t + 1] == l3[..t];
    BigLines.ShortLongLineReadsBack(r, t, BigLines.Allocate(t));
    FileLines.ChunksReconstructLine(BigLines.AsFileLine(r), t);
  }

  /** The buffer's state between two steps of the scan: `bs` holds the
      last `size` bytes read, which end at the channel's `position`, and
      `cbo` (`currentBufferOffset`) is at most one past them; a size of -1
      comes only at the end of the file. */
  ghost predicate BufferOk(bs: seq<byte>, file: seq<byte>, position: nat, size: int, cbo: int, t: nat)
  {
    && |bs| == t && position <= |file| && -1 <= size <= t
    && (size < 0 ==> position == |file| && cbo == 0)
    && (size >= 0 ==> size <= position && 0 <= cbo <= size + 1 && bs[..size] == file[position - size .. position])
  }

  /** The file offset the scan has reached: the end of what was read once
      the buffer is used up, else the offset of `cbo`. */
  function ScanPos(position: nat, size: int, cbo: int): int
  {
    if cbo >= size then position else position - size + cbo
  }

  lemma ScanPosInFile(bs: seq<byte>, file: seq<byte>, position: nat, size: int, cbo: int, t: nat)
    requires BufferOk(bs, file, position, size, cbo, t)
    ensures 0 <= ScanPos(position, size, cbo) <= |file|
  {
  }

  /** What the scan has established about the line starting at `c0`: no
      separator up to the scan position, `len` bytes so far, and the head
      holds the first `t` of them. */
  ghost predicate Scanned(file: seq<byte>, c0: nat, upTo: int, len: int, head: seq<byte>, t: nat)
  {
    c0 <= upTo <= |file| && NEWLINE !in file[c0 .. upTo] && len == upTo - c0
    && head == file[c0 .. c0 + Min(len, t)]
  }

  /** The unscanned bytes of the buffer are the file's bytes at the scan
      position. */
  lemma ChunkIsFile(bs: seq<byte>, file: seq<byte>, position: nat, size: int, cbo: int, n: nat, t: nat)
    requires BufferOk(bs, file, position, size, cbo, t) && 0 <= cbo && cbo + n <= size
    ensures position - size + cbo + n <= |file|
    ensures bs[cbo .. cbo + n] == file[position - size + cbo .. position - size + cbo + n]
  {
    BufferIsFile(bs[..size], file, position - size, cbo, cbo + n);
    assert bs[cbo .. cbo + n] == bs[..size][cbo .. cbo + n];
  }

  /** The head after a chunk: while shorter than `t` it takes the chunk's
      bytes up to `t` in all. */
  function HeadAfter(head: seq<byte>, chunk: seq<byte>, t: nat): seq<byte>
  {
    if |head| < t then head + chunk[..Min(Min(t, |chunk|), t - |head|)] else head
  }

  /** The scan extended by a separator-free chunk of `n` bytes: the line
      grows by `n` and the head takes what fits of the chunk. */
  lemma {:induction false} ScanExtends(file: seq<byte>, c0: nat, from: nat, n: nat, len: int,
                                       head: seq<byte>, chunk: seq<byte>, t: nat)
    requires Scanned(file, c0, from, len, head, t)
    requires from + n <= |file| && chunk == file[from .. from + n] && NEWLINE !in chunk
    ensures Scanned(file, c0, from + n, len + n, HeadAfter(head, chunk, t), t)
  {
    NoSeparatorJoin(file, c0, from, from + n);
    if |head| < t {
      HeadGrows(file, c0, len, n, t);
    } else {
      assert Min(len + n, t) == Min(len, t);
    }
  }

  /** The scan of the line from `c0` is over: `len` is its length, `head`
      its first `t` bytes, and the scan stands where `NextLine` resumes. */
  ghost predicate LineDone(file: seq<byte>, c0: nat, scan: int, len: int, head: seq<byte>, t: nat)
  {
    c0 <= |file| && len == LineEnd(file, c0) - c0 && head == file[c0 .. c0 + Min(len, t)]
    && scan == (if LineEnd(file, c0) < |file| then LineEnd(file, c0) + 1 else |file|)
  }

  /** At the end of the file the scan of a line is over. */
  lemma EndOfFileEndsLine(file: seq<byte>, c0: nat, len: int, head: seq<byte>, t: nat)
    requires Scanned(file, c0, |file|, len, head, t)
    ensures LineDone(file, c0, |file|, len, head, t)
  {
    LineEndUnique(file, c0, |file|);
  }

  /** What the fields hold when the scan is over is what `NextLine`
      yields: `null` exactly when the head is empty, else a `ShortLine` of
      the head when the line fits in `t` bytes and a `LongLine` from
      `lineStart` when it does not. */
  lemma DoneIsNextLine(file: seq<byte>, c0: nat, scan: int, len: int, head: seq<byte>, lineStart: nat, t: nat)
    requires LineDone(file, c0, scan, len, head, t) && t > 0
    ensures var s := NextLine(file, c0, lineStart, t);
            && s.next == scan
            && (s.line.None? <==> |head| == 0)
            && (|head| == 0 ==> s.lineStart == lineStart)
            && (|head| > 0 ==> s.lineStart == lineStart + len + 1)
            && (|head| > 0 && len <= t ==> s.line == Some(FileLines.ShortLine(head)))
            && (len > t ==> s.line == Some(FileLines.LongLine(head, lineStart, len, file)))
  {
    var j := LineEnd(file, c0);
    if len > t {
      assert file[c0 .. j][..t] == file[c0 .. c0 + t];
    }
  }

  /** `getBigLine` as its documentation describes it (`null` when the end
      of the file is reached): an empty line is a `ShortLine` with no bytes,
      and only a scan that starts at the end of the file yields `null`. */
  function NextLineFixed(file: seq<byte>, c: nat, lineStart: nat, t: nat): (r: Read)
    requires c <= |file|
    ensures r.line.None? <==> c == |file|
    ensures c < |file| ==> c < r.next <= |file|
  {
    if c == |file| then Read(None, c, lineStart)
    else
      var j := LineEnd(file, c);
      var line := file[c .. j];
      var next := if j < |file| then j + 1 else |file|;
      if |line| <= t then Read(Some(FileLines.ShortLine(line)), next, lineStart + |line| + 1)
      else Read(Some(FileLines.LongLine(line[..t], lineStart, |line|, file)), next, lineStart + |line| + 1)
  }

  /** The two differ only on an empty line before the end of the file. */
  lemma NextLineFixedAgrees(file: seq<byte>, c: nat, lineStart: nat, t: nat)
    requires c <= |file|
    ensures LineEnd(file, c) > c ==> NextLineFixed(file, c, lineStart, t) == NextLine(file, c, lineStart, t)
    ensures LineEnd(file, c) == c < |file| ==>
              && NextLine(file, c, lineStart, t) == Read(None, c + 1, lineStart)
              && NextLineFixed(file, c, lineStart, t) == Read(Some(FileLines.ShortLine([])), c + 1, lineStart + 1)
  {
  }

  /** The end of the scan matches `NextLineFixed` when `null` is kept for a
      scan that stopped at the end of the file with nothing read. */
  lemma DoneIsNextLineFixed(file: seq<byte>, c0: nat, scan: int, len: int, head: seq<byte>, lineStart: nat, t: nat)
    requires LineDone(file, c0, scan, len, head, t) && t > 0
    ensures var s := NextLineFixed(file, c0, lineStart, t);
            var nullLine := LineEnd(file, c0) == |file| && |head| == 0;
            && s.next == scan
            && (s.line.None? <==> nullLine)
            && (nullLine ==> s.lineStart == lineStart)
            && (!nullLine ==> s.lineStart == lineStart + len + 1)
            && (!nullLine && len <= t ==> s.line == Some(FileLines.ShortLine(head)))
            && (len > t ==> s.line == Some(FileLines.LongLine(head, lineStart, len, file)))
  {
    var j := LineEnd(file, c0);
    if len > t {
      assert file[c0 .. j][..t] == file[c0 .. c0 + t];
    }
  }

  /** A file with an empty line in it: "a", "", "bbb", each ended by the
      separator. */
  const Gapped: seq<byte> := [97, NEWLINE, NEWLINE, 98, 98, 98, NEWLINE]

  /** As written, the empty line reads as the end of the file, and if the
      caller reads on, `lineStartFileOffset` was not moved past it, so the
      `LongLine` that follows (with `t` = 2) spans the wrong bytes: its
      region begins at the empty line's separator. */
  lemma EmptyLineReadsAsEnd()
    ensures var r1 := NextLine(Gapped, 0, 0, 2);
            var r2 := NextLine(Gapped, r1.next, r1.lineStart, 2);
            var r3 := NextLine(Gapped, r2.next, r2.lineStart, 2);
            && r1.line == Some(FileLines.ShortLine([97]))
            && r2.line.None? && r2.next < |Gapped|
            && r3.line.Some? && r3.line.value.LongLine?
            && r3.line.value.head == [98, 98]
            && FileLines.Content(r3.line.value) == [NEWLINE, 98, 98]
  {
    assert Gapped[0 .. 1] == [97];
    LineEndUnique(Gapped, 0, 1);
    var r1 := NextLine(Gapped, 0, 0, 2);
    assert r1 == Read(Some(FileLines.ShortLine([97])), 2, 2);
    LineEndUnique(Gapped, 2, 2);
    var r2 := NextLine(Gapped, 2, 2, 2);
    assert r2 == Read(None, 3, 2);
    assert Gapped[3 .. 6] == [98, 98, 98];
    LineEndUnique(Gapped, 3, 6);
    var r3 := NextLine(Gapped, 3, 2, 2);
    assert Gapped[3 .. 6][..2] == [98, 98];
    assert r3.line == Some(FileLines.LongLine([98, 98], 2, 3, Gapped));
    assert Gapped[2 .. 5] == [NEWLINE, 98, 98];
  }

  /** All the lines `getBigLine` hands out from scan position `c` on, read
      as its documentation describes. */
  function ReadAll(file: seq<byte>, c: nat, t: nat): seq<FileLines.FileLine>
    requires c <= |file|
    decreases |file| - c
  {
    var r := NextLineFixed(file, c, c, t);
    if r.line.None? then [] else [r.line.value] + ReadAll(file, r.next, t)
  }

  /** The text of a sequence of lines, each followed by the separator. */
  ghost function Text(lines: seq<FileLines.FileLine>): seq<byte>
    requires forall l :: l in lines ==> FileLines.HeadMatchesFile(l)
  {
    if lines == [] then []
    else
      assert lines[0] in lines && FileLines.HeadMatchesFile(lines[0]);
      FileLines.Content(lines[0]) + SEPARATOR + Text(lines[1..])
  }

  /** Read as documented, a file whose last line is terminated comes back
      whole: every line is one the line types read back, and the lines with
      their separators put back are the file from `c` on. */
  lemma {:induction false} ReadAllIsFile(file: seq<byte>, c: nat, t: nat)
    requires c <= |file| && t > 0
    requires c < |file| ==> file[|file| - 1] == NEWLINE
    ensures ReadsBack(file, c, t)
    decreases |file| - c
  {
    if c == |file| {
      ReadAllAtEnd(file, c, t);
    } else {
      var j := TerminatedLineEnds(file, c);
      ReadAllIsFile(file, j + 1, t);
      ReadAllJoin(file, c, j, t);
    }
  }

  /** Read as documented from `c` on, the lines are ones the line types
      read back and give back the file from `c` on. */
  ghost predicate ReadsBack(file: seq<byte>, c: nat, t: nat)
    requires c <= |file|
  {
    LinesOk(ReadAll(file, c, t), t) && Text(ReadAll(file, c, t)) == file[c..]
  }

  lemma ReadAllAtEnd(file: seq<byte>, c: nat, t: nat)
    requires c == |file|
    ensures ReadsBack(file, c, t)
  {
    assert ReadAll(file, c, t) == [];
  }

  /** The first line and the rest put together. */
  lemma ReadAllJoin(file: seq<byte>, c: nat, j: nat, t: nat)
    requires c < |file| && t > 0 && j == LineEnd(file, c) && j < |file|
    requires ReadsBack(file, j + 1, t)
    ensures ReadsBack(file, c, t)
  {
    var l := FirstLineOk(file, c, t);
    var rest := ReadAll(file, j + 1, t);
    assert ReadAll(file, c, t) == [l] + rest;
    LinesOkCons(l, rest, t);
    TextCons(l, rest);
    SplitAtSeparator(file, c, j);
  }

  /** Every line is one the line types read back. */
  ghost predicate LinesOk(lines: seq<FileLines.FileLine>, t: nat)
  {
    forall l :: l in lines ==> FileLines.AsRead(l, t) && FileLines.HeadMatchesFile(l)
  }

  lemma LinesOkCons(l: FileLines.FileLine, rest: seq<FileLines.FileLine>, t: nat)
    requires FileLines.AsRead(l, t) && FileLines.HeadMatchesFile(l) && LinesOk(rest, t)
    ensures LinesOk([l] + rest, t)
  {
  }

  lemma TextCons(l: FileLines.FileLine, rest: seq<FileLines.FileLine>)
    requires FileLines.HeadMatchesFile(l) && forall m :: m in rest ==> FileLines.HeadMatchesFile(m)
    ensures Text([l] + rest) == FileLines.Content(l) + SEPARATOR + Text(rest)
  {
    assert ([l] + rest)[1..] == rest;
  }

  lemma SplitAtSeparator(file: seq<byte>, c: nat, j: nat)
    requires c <= j < |file| && file[j] == NEWLINE
    ensures file[c..] == file[c .. j] + SEPARATOR + file[j + 1 ..]
  {
  }

  /** In a file whose last byte is the separator every line ends before
      the end of the file. */
  lemma TerminatedLineEnds(file: seq<byte>, c: nat) returns (j: nat)
    requires c < |file| && file[|file| - 1] == NEWLINE
    ensures j == LineEnd(file, c) && j < |file| && file[j] == NEWLINE
  {
    j := LineEnd(file, c);
  }

  /** The first line read as documented is one the line types read back,
      holding the text before the separator. */
  lemma FirstLineOk(file: seq<byte>, c: nat, t: nat) returns (l: FileLines.FileLine)
    requires c < |file| && t > 0 && LineEnd(file, c) < |file|
    ensures NextLineFixed(file, c, c, t) == Read(Some(l), LineEnd(file, c) + 1, LineEnd(file, c) + 1)
    ensures FileLines.AsRead(l, t) && FileLines.HeadMatchesFile(l)
    ensures FileLines.Content(l) == file[c .. LineEnd(file, c)]
  {
    var j := LineEnd(file, c);
    l := NextLineFixed(file, c, c, t).line.value;
    if t < j - c {
      assert file[c .. j][..t] == file[c .. c + t];
    }
  }

  /** Read as documented, `lineStartFileOffset` keeps up with the scan: after
      a terminated line both stand past its separator. */
  lemma FixedStartStaysInStep(file: seq<byte>, c: nat, t: nat)
    requires c < |file| && LineEnd(file, c) < |file|
    ensures NextLineFixed(file, c, c, t).lineStart == NextLineFixed(file, c, c, t).next
  {
  }

  /** The head after a pass over a chunk of `n` bytes at `cbo`. */
  function GrownHead(head: seq<byte>, bs: seq<byte>, cbo: nat, n: nat, t: nat): seq<byte>
    requires cbo + n <= |bs|
  {
    if |head| < t then head + bs[cbo .. cbo + Min(Min(t, n), t - |head|)] else head
  }

  /** The chunk of the buffer extends the scan, as `ScanExtends` says of
      the file. */
  lemma ChunkExtends(bs: seq<byte>, file: seq<byte>, position: nat, size: int, cbo: int,
                     c0: nat, len: int, head: seq<byte>, n: nat, t: nat)
    requires BufferOk(bs, file, position, size, cbo, t) && 0 <= cbo && cbo + n <= size
    requires Scanned(file, c0, position - size + cbo, len, head, t)
    requires forall i :: cbo <= i < cbo + n ==> bs[i] != NEWLINE
    ensures Scanned(file, c0, position - size + cbo + n, len + n, GrownHead(head, bs, cbo, n, t), t)
  {
    ChunkIsFile(bs, file, position, size, cbo, n, t);
    NoSeparatorIn(bs, cbo, cbo + n);
    GrownHeadAfter(head, bs, cbo, n, t);
    ScanExtends(file, c0, position - size + cbo, n, len, head, bs[cbo .. cbo + n], t);
  }

  lemma GrownHeadAfter(head: seq<byte>, bs: seq<byte>, cbo: nat, n: nat, t: nat)
    requires cbo + n <= |bs|
    ensures GrownHead(head, bs, cbo, n, t) == HeadAfter(head, bs[cbo .. cbo + n], t)
  {
    if |head| < t {
      var k := Min(Min(t, n), t - |head|);
      assert bs[cbo .. cbo + k] == bs[cbo .. cbo + n][..k];
    }
  }

  /** A separator at `nl` ends the line there. */
  lemma SeparatorEndsLine(bs: seq<byte>, file: seq<byte>, position: nat, size: int, nl: int,
                          c0: nat, len: int, head: seq<byte>, t: nat)
    requires BufferOk(bs, file, position, size, 0, t) && 0 <= nl < size && bs[nl] == NEWLINE
    requires Scanned(file, c0, position - size + nl, len, head, t)
    ensures LineEnd(file, c0) == position - size + nl
  {
    BufferIsFile(bs[..size], file, position - size, nl, nl + 1);
    assert bs[..size][nl .. nl + 1][0] == bs[nl];
    LineEndUnique(file, c0, position - size + nl);
  }

  /** One pass of the scan over the buffer, on values: with `nl` what
      `findNewLine` found, the chunk of `n` bytes up to it (or to the end of
      the buffer) joins the line, the head takes what fits of it, and
      `currentBufferOffset` moves past it and the separator, to scan
      position `s1`.  With a separator the line is complete. */
  lemma ScanStep(bs: seq<byte>, file: seq<byte>, position: nat, size: int, cbo: int,
                 c0: nat, len: int, head: seq<byte>, nl: int, n: nat, t: nat,
                 len': int, head': seq<byte>, s1: int)
    requires BufferOk(bs, file, position, size, cbo, t) && 0 <= cbo < size
    requires Scanned(file, c0, ScanPos(position, size, cbo), len, head, t)
    requires FirstSeparator(bs, cbo, size, nl)
    requires n == if nl < 0 then size - cbo else nl - cbo
    requires len' == len + n && head' == GrownHead(head, bs, cbo, n, t) && s1 == ScanPos(position, size, cbo + n + 1)
    ensures BufferOk(bs, file, position, size, cbo + n + 1, t) && 0 <= s1 <= |file|
    ensures ScanOutcome(file, c0, ScanPos(position, size, cbo), s1, nl, len', head', t)
  {
    assert ScanPos(position, size, cbo) == position - size + cbo;
    assert s1 == position - size + cbo + n + (if nl < 0 then 0 else 1);
    ChunkExtends(bs, file, position, size, cbo, c0, len, head, n, t);
    if nl >= 0 {
      SeparatorEndsLine(bs, file, position, size, nl, c0, len', head', t);
      assert position - size + nl < |file| by {
        BufferIsFile(bs[..size], file, position - size, nl, nl + 1);
      }
    }
  }

  /** What one pass of the scan establishes, from scan position `s0` to
      `s1`: without a separator the scan moved on and the line goes on;
      with one the line is complete. */
  ghost predicate ScanOutcome(file: seq<byte>, c0: nat, s0: int, s1: int, nl: int, len: int, head: seq<byte>, t: nat)
  {
    && (nl < 0 ==> s1 > s0 && Scanned(file, c0, s1, len, head, t))
    && (nl >= 0 ==> LineDone(file, c0, s1, len, head, t) && LineEnd(file, c0) < |file|)
  }

  /** The reader: the file, its channel's position, the buffer and the
      fields `getBigLine` keeps between calls. */
  class BigLineReader {
    const file: seq<byte>
    const t: nat
    const buffer: array<byte>
    /** The position of the file channel: where the next read starts. */
    var position: nat
    var lineStartFileOffset: nat
    var currentBufferOffset: int
    /** What the last read returned: the number of bytes in the buffer, or
        -1 once the end of the file was reached. */
    var bufferSize: int
    var lineHead: seq<byte>

    function Scan(): int
      reads this
    {
      ScanPos(position, bufferSize, currentBufferOffset)
    }

    ghost predicate Valid()
      reads this, buffer
    {
      t > 0 && buffer.Length == t && BufferOk(buffer[..], file, position, bufferSize, currentBufferOffset, t)
      && 0 <= Scan() <= |file|
    }

    /** `new BigLineReader(input)`: nothing read yet. */
    constructor (file: seq<byte>, t: nat)
      requires t > 0
      ensures this.file == file && this.t == t && Valid()
      ensures Scan() == 0 && lineStartFileOffset == 0
    {
      this.file := file;
      this.t := t;
      buffer := new byte[t];
      position := 0;
      lineStartFileOffset := 0;
      currentBufferOffset := 0;
      bufferSize := 0;
      lineHead := [];
    }

    /** `buffer.clear()` and `fileChannel.read(buffer)`: -1 at the end of the
        file; otherwise some of the next bytes, at least one and at most
        the buffer's capacity (how many is up to the channel), land at the
        start of the buffer and the position moves past them. */
    method ChannelRead() returns (n: int)
      requires buffer.Length == t && t > 0 && position <= |file|
      modifies this`position, buffer
      ensures old(position) == |file| ==> n == -1 && position == old(position)
      ensures old(position) < |file| ==>
                && 1 <= n <= Min(t, |file| - old(position)) && position == old(position) + n
                && buffer[..n] == file[old(position) .. position]
    {
      if position == |file| {
        return -1;
      }
      var k :| 1 <= k <= Min(t, |file| - position);
      assert Min(t, |file| - position) <= t && Min(t, |file| - position) <= |file| - position;
      n := k;
      var i := 0;
      while i < n
        invariant 0 <= i <= n <= buffer.Length && position + n <= |file|
        invariant buffer[..i] == file[position .. position + i]
        modifies buffer
      {
        buffer[i] := file[position + i];
        assert buffer[..i + 1] == buffer[..i] + [buffer[i]];
        i := i + 1;
      }
      position := position + n;
    }

    /** The refill at the top of the loop: when the buffer is used up, read
        into it from the start; the scan position stays where it was. */
    method Refill()
      requires Valid() && currentBufferOffset >= bufferSize
      modifies this`currentBufferOffset, this`bufferSize, this`position, buffer
      ensures Valid() && Scan() == old(Scan())
      ensures bufferSize < 0 <==> old(position) == |file|
      ensures bufferSize >= 0 ==> currentBufferOffset < bufferSize
    {
      currentBufferOffset := 0;
      bufferSize := ChannelRead();
    }

    /** One pass over the unscanned bytes of the buffer, `ScanStep` on the
        fields. */
    method ScanBuffer(ghost c0: nat, lineLength: int) returns (nlPos: int, newLength: int)
      requires Valid() && Scanned(file, c0, Scan(), lineLength, lineHead, t)
      requires 0 <= currentBufferOffset < bufferSize
      modifies this`currentBufferOffset, this`lineHead
      ensures Valid() && ScanOutcome(file, c0, old(Scan()), Scan(), nlPos, newLength, lineHead, t)
    {
      ghost var bs := buffer[..];
      nlPos := FindNewLine(buffer, currentBufferOffset, bufferSize);
      var cbo := currentBufferOffset;
      var newChunkLen := if nlPos < 0 then bufferSize - cbo else nlPos - cbo;
      newLength := lineLength + newChunkLen;
      var head := lineHead;
      if |head| < t {
        var bytesToCopy := Min(t, newChunkLen);
        bytesToCopy := Min(bytesToCopy, t - |head|);
        head := head + buffer[cbo .. cbo + bytesToCopy];
      }
      ScanStep(bs, file, position, bufferSize, cbo, c0, lineLength, lineHead, nlPos, newChunkLen, t,
               newLength, head, ScanPos(position, bufferSize, cbo + newChunkLen + 1));
      ghost var s1 := ScanPos(position, bufferSize, cbo + newChunkLen + 1);
      lineHead, currentBufferOffset := head, cbo + newChunkLen + 1;
      assert buffer[..] == bs;
      assert Scan() == s1;
    }

    /** `getBigLine`. */
    method GetBigLine() returns (r: Option<BigLines.BigLine>)
      requires Valid()
      modifies this, buffer
      ensures Valid()
      ensures var s := NextLine(file, old(Scan()), old(lineStartFileOffset), t);
              && Scan() == s.next && lineStartFileOffset == s.lineStart
              && (r.None? <==> s.line.None?)
              && (r.Some? ==> Built(r.value, s.line.value, t))
      ensures r.Some? && r.value.Long? ==> fresh(r.value.long)
    {
      ghost var c0: nat := Scan();
      var lineLength, atEnd := ScanLine();
      DoneIsNextLine(file, c0, Scan(), lineLength, lineHead, lineStartFileOffset, t);
      r := Assemble(lineLength, |lineHead| == 0);
    }

    /** `getBigLine` as its documentation describes it, `null` only at the
        end of the file: an empty line comes back as an empty
        `ShortLine`. */
    method GetBigLineFixed() returns (r: Option<BigLines.BigLine>)
      requires Valid()
      modifies this, buffer
      ensures Valid()
      ensures var s := NextLineFixed(file, old(Scan()), old(lineStartFileOffset), t);
              && Scan() == s.next && lineStartFileOffset == s.lineStart
              && (r.None? <==> s.line.None?)
              && (r.Some? ==> Built(r.value, s.line.value, t))
      ensures r.Some? && r.value.Long? ==> fresh(r.value.long)
    {
      ghost var c0: nat := Scan();
      var lineLength, atEnd := ScanLine();
      DoneIsNextLineFixed(file, c0, Scan(), lineLength, lineHead, lineStartFileOffset, t);
      r := Assemble(lineLength, atEnd && |lineHead| == 0);
    }

    /** The loop of `getBigLine`: scan for the next separator, refilling the
        buffer whenever it is used up, until the line is complete;
        `atEnd` says the scan stopped at the end of the file rather than at
        a separator. */
    method ScanLine() returns (lineLength: int, atEnd: bool)
      requires Valid()
      modifies this`currentBufferOffset, this`bufferSize, this`position, this`lineHead, buffer
      ensures Valid() && LineDone(file, old(Scan()), Scan(), lineLength, lineHead, t)
      ensures atEnd <==> LineEnd(file, old(Scan())) == |file|
    {
      ghost var c0: nat := Scan();
      lineLength := 0;
      lineHead := [];
      while true
        invariant Valid() && Scanned(file, c0, Scan(), lineLength, lineHead, t)
        decreases |file| - Scan()
      {
        if currentBufferOffset >= bufferSize {
          Refill();
          if bufferSize < 0 {
            EndOfFileEndsLine(file, c0, lineLength, lineHead, t);
            return lineLength, true;
          }
        }
        var nlPos;
        nlPos, lineLength := ScanBuffer(c0, lineLength);
        if nlPos >= 0 {
          return lineLength, false;
        }
      }
    }

    /** The end of `getBigLine`: `null` when `nullLine` (the source's test
        is an empty head), else the line object, with
        `lineStartFileOffset` moved past the line. */
    method Assemble(lineLength: int, nullLine: bool) returns (r: Option<BigLines.BigLine>)
      requires t > 0 && lineLength >= 0 && (lineLength == 0 <==> |lineHead| == 0)
      requires nullLine ==> |lineHead| == 0
      modifies this`lineStartFileOffset
      ensures nullLine ==> r.None? && lineStartFileOffset == old(lineStartFileOffset)
      ensures !nullLine ==> lineStartFileOffset == old(lineStartFileOffset) + lineLength + 1
      ensures !nullLine && lineLength <= t ==> r == Some(BigLines.Short(lineHead))
      ensures lineLength > t ==> r.Some? && r.value.Long? && fresh(r.value.long)
                                 && r.value.long.buffer == BigLines.Allocate(t)
                                 && r.value.long.region == BigLines.Region(lineHead, old(lineStartFileOffset), lineLength, file)
    {
      if nullLine {
        return None;
      }
      var curStartOffset := lineStartFileOffset;
      lineStartFileOffset := lineStartFileOffset + lineLength + 1;
      if lineLength <= t {
        r := Some(BigLines.Short(lineHead));
      } else {
        var long := new BigLines.LongLine(BigLines.Region(lineHead, curStartOffset, lineLength, file), t);
        r := Some(BigLines.Long(long));
      }
    }
  }

  /** A `BigLine` object of the `com.company` types stands for the value
      `f`: the same text, or the same region with a fresh buffer. */
  ghost predicate Built(b: BigLines.BigLine, f: FileLines.FileLine, t: nat)
    reads BigLines.Footprint(b)
  {
    match b
    case Short(s) => f == FileLines.ShortLine(s)
    case Long(o) => f == BigLines.AsFileLine(o.region) && o.buffer == BigLines.Allocate(t)
  }
}
