# A model of the sorter's core, in Dafny

The sorter is an external merge sort for text files larger than memory. It reads
the input file line by line and adds each line to an in-memory heap. When the heap
is full, it writes that heap out as a sorted run file. It then merges the runs,
k at a time, into the output. The repository holds several snapshots of the same
algorithms in two packages, `com.company` and `org.dpinol`.

This project models the parts of those snapshots that carry the logic and proves
what they promise:

- **Line values** (`org.dpinol.FileLine` in `file_line.dfy`, `com.company.BigLine`
  in `big_line.dfy`).
  - A line is either a `ShortLine` held whole, or a `LongLine`: a cached head plus
    the region of the file the line occupies.
  - Both are read through an iterator of chunks of at most `t` bytes. `t` is
    `BUFFER_SIZE`, kept as a parameter.
  - `compareTo` and `write` drive those iterators. They are modelled as loops over
    iterator objects, each proved equal to a pure function on chunk sequences.
  - In `com.company`, every iterator of a `LongLine` reads into the one
    `ByteBuffer` the line owns. The buffer's state is therefore part of the model.
- **The chunked line reader** (`com.company.BigLineReader` in `big_line_reader.dfy`).
  - It is a class with the reader's fields and a fixed `array<byte>` buffer.
  - `getBigLine` is its scan/refill loop. It is proved equal to `NextLine`, a
    function that splits the file at the next separator.
  - Whole files are read back through a corrected variant of the reader.
- **The bounded binary min-heap** (`SimpleHeap` in `simple_heap.dfy`).
  - One class models all three copies in the repository, since their `add`, `poll`
    and sift-down loops are the same statements.
  - The array stays an `array`, and each method is proved against the heap order
    and the multiset of elements.
- **The run builder** (`com.company.ChunkSorter` in `chunk_sorter.dfy`). It is built
  on a contract-level model of `java.util.PriorityQueue` (`priority_queue.dfy`).
- **The k-way merge** (`com.company.Merger` in `merger.dfy`).
- **The parallel merge's partition and end-of-stream rule**
  (`org.dpinol.ParallelFilesMerger` in `parallel_files_merger.dfy`).

`bytes.dfy` holds what is shared:

- bytes;
- the separator, the single byte 10;
- Java's `String.compareTo` on bytes (`JavaCompare`);
- the `Comparable` contract (`IsComparator`).

`wrappers.dfy` holds `Option`, `Result` and the Java exceptions a member can end in.

The model does what the code does, including where that departs from the code's
own comments or from what a caller would expect:

- `LineWithOrigin.compareTo` (`src/com/company/Merger.java:50-53`) compares the
  lines only, so merge ties are not broken by reader index.
- `getBigLine` returns `null` for an empty line as it does at the end of the file,
  although its comment says "@return null when EOF found"
  (`src/com/company/BigLineReader.java:42-44`, `73-75`).
- `merge` pushes every reader's first line without checking for `null`
  (`src/com/company/Merger.java:63-66`), so a reader with no lines is not skipped.
- `ShortLine.compareTo` returns 0 against any `LongLine`
  (`src/com/company/BigLine.java:81-87`).
- `BigLine.write` writes a separator after every chunk
  (`src/com/company/BigLine.java:60-66`), and `merge` follows it with `newLine`
  (`src/com/company/Merger.java:73-74`).
- `ParallelFilesMerger` makes `min(3, n)` segments of `n` files
  (`src/main/java/org/dpinol/ParallelFilesMerger.java:45`).

Several of these are listed under Findings. `src/com/company/BigLineReader.java:81`
passes `lineHead.toString()`, a `String`, where the `LongLine` constructor
(`src/com/company/BigLine.java:122`) expects a `ByteArrayOutputStream`, so the
file does not compile as written. The model passes the head's bytes.

## Model

| member | source | states |
|---|---|---|
| Bytes.JavaCompareIsComparator | src/main/java/org/dpinol/FileLine.java:37-42 | `String.compareTo` on the chunks meets the `Comparable` contract: swapping the operands flips the sign, and "not after" is transitive |
| Bytes.JavaCompareZeroIffEqual | src/main/java/org/dpinol/FileLine.java:39-42 | a chunk comparison is 0 exactly when the two chunks are equal, so the loop continues only past equal chunks |
| FileLines.LineIterator.constructor | src/main/java/org/dpinol/FileLine.java:163-167 | a fresh iterator has yielded nothing, and everything the line's `Chunks` lists is still to come |
| FileLines.LineIterator.HasNext | src/main/java/org/dpinol/FileLine.java:119-121 | `hasNext` holds exactly while chunks remain: for a `ShortLine` until its one chunk is taken, for a `LongLine` until the offset reaches the region's end |
| FileLines.LineIterator.Next | src/main/java/org/dpinol/FileLine.java:178-198 | `next()` returns the first pending chunk: the `ShortLine`'s text; or a `LongLine`'s head, then reads of `min(readBytes, numBytes - relative offset)` bytes with the offset advancing by `t`. What was yielded plus what is pending stays the line's chunk sequence |
| FileLines.ChunkwiseCompare | src/main/java/org/dpinol/FileLine.java:24-47 | the iterator loop returns 0 when both iterators end together, -1 or 1 when only one ends, and otherwise the first non-zero chunk comparison: `CompareChunks` of the two chunk sequences |
| FileLines.GetNumBytes | src/main/java/org/dpinol/FileLine.java:208-215 | for a line whose region lies inside its file, `getNumBytes` is the full length of the line: the number of bytes of its content (for a `ShortLine`, lines 100-102, its text's length) |
| FileLines.CompareTo | src/main/java/org/dpinol/FileLine.java:104-110 | a `ShortLine` receiver gives `String.compareTo` of the texts against a `ShortLine` and 0 against a `LongLine`; a `LongLine` receiver runs the chunk loop |
| FileLines.Write | src/main/java/org/dpinol/FileLine.java:79-85 | `write` emits all chunks in order and then exactly one separator; for a line whose head matches its file this is the line's bytes plus one separator |
| FileLines.FileChunksFromReconstruct | src/main/java/org/dpinol/FileLine.java:181-197 | the chunks read from the file from an offset on concatenate to the file bytes from that offset to the end of the line's region: none runs past the line's end |
| FileLines.ChunksReconstructLine | src/main/java/org/dpinol/FileLine.java:163-206 | the concatenated chunks are the line's text: the `ShortLine`'s string, or the bytes `[start, start + numBytes)` of a `LongLine` whose head is the start of its region |
| FileLines.NumBytesIsLength | src/main/java/org/dpinol/FileLine.java:212-215 | `getNumBytes` (the constructor's `numBytes`, or the `ShortLine`'s byte length) is the number of bytes the iterator yields |
| FileLines.FileChunksFromShape | src/main/java/org/dpinol/FileLine.java:185-190 | every chunk read from the file is non-empty and at most `t` bytes, and all but the last are exactly `t` |
| FileLines.ChunksOfReadLine | src/main/java/org/dpinol/FileLine.java:49-54 | a line as the reader builds it comes in chunks of at most `t` bytes, all but the last exactly `t`, none empty after the first |
| FileLines.CompareChunksIsLexicographic | src/main/java/org/dpinol/FileLine.java:29-43 | on sequences chunked by `t`, the chunk-by-chunk rule has the sign of `String.compareTo` on the whole concatenated texts |
| FileLines.LongLineCompareFollowsContent | src/main/java/org/dpinol/FileLine.java:24-47 | with a `LongLine` receiver, `compareTo` on lines built by the reader orders them as their bytes are ordered |
| FileLines.CompareChunksFirstDifference | src/main/java/org/dpinol/FileLine.java:37-42 | when the first `k` chunks agree and chunk `k` differs, the result is the comparison of chunk `k` |
| FileLines.CompareChunksPrefix | src/main/java/org/dpinol/FileLine.java:30-36 | when one chunk sequence is a prefix of the other, the shorter compares -1 and the longer 1; equal sequences compare 0 |
| FileLines.ShortAgainstLongIsOneSided | src/main/java/org/dpinol/FileLine.java:105-110 | as written, a `ShortLine` compares 0 against any `LongLine`, yet that `LongLine` never compares 0 against it: `compareTo` is not antisymmetric |
| FileLines.CompareToFixed | src/main/java/org/dpinol/FileLine.java:105-110 | corrected dispatch: two `ShortLine`s compare as strings, and for lines as the reader builds them the result has the sign of the comparison of their bytes, whichever the variants |
| BigLines.Allocate | src/com/company/BigLine.java:113 | `ByteBuffer.allocate(t)` followed by `limit(t)`: capacity `t`, position 0, limit `t` |
| BigLines.WithLimit | src/com/company/BigLine.java:151 | `buffer.limit(n)` throws `IllegalArgumentException` exactly when `n` is outside `[0, capacity]`; otherwise it sets the limit, keeps the bytes and pulls the position back to the limit |
| BigLines.ReadAt | src/com/company/BigLine.java:153 | `fileChannel.read(buffer, offset)` copies the file's bytes from `offset` into the room between position and limit and advances the position by the number transferred; the limit and the capacity stay |
| BigLines.NextStep | src/com/company/BigLine.java:143-163 | one `next()` on an iterator state: a `ShortLine` iterator yields its text once; a successful step keeps the state well-formed and strictly shrinks what remains, so an iteration that never throws ends; a `LongLine` iterator keeps its region |
| BigLines.ReadChunk | src/com/company/BigLine.java:149-161 | a read after the head advances the offset by exactly `t` and keeps `hasNext` only while the offset stays inside the region |
| BigLines.Iterate | src/com/company/BigLine.java:131-165 | calling `next()` while `hasNext()` holds ends with `hasNext` false, unless a call throws; the region never changes |
| BigLines.CompareIts | src/com/company/BigLine.java:26-55 | the `compareTo` loop on two iterator states, with the exception a read may throw and the buffer states it leaves |
| BigLines.CompareFollowsChunks | src/com/company/BigLine.java:33-51 | when neither iteration throws, the loop answers the early-return rule on the two chunk sequences: exhaustion first, then the first differing chunk, then 0 at an equal chunk whose length is not `t` |
| BigLines.EarlyReturnHarmless | src/com/company/BigLine.java:43-48 | on chunk sequences shaped as a correct iterator yields them, returning 0 at an equal chunk shorter than `t` gives the same result as the full chunk-by-chunk comparison |
| BigLines.HeadStep | src/com/company/BigLine.java:145-147 | the first `next()` of a `LongLine` yields the head and advances the offset by the head's size |
| BigLines.BodyStep | src/com/company/BigLine.java:150-155 | on a line of at most `2t` bytes, the read after the head yields the rest of the line and ends the iteration, from a fresh buffer or from the one an earlier iteration left |
| BigLines.ShortLongLineReadsBack | src/com/company/BigLine.java:131-165 | a line of more than `t` and at most `2t` bytes (the `BUFFER_SIZE + 1` case of the reader's test) iterates to the same chunks as the corrected `FileLine`, on its first iteration and on every later one |
| BigLines.StaleChunk | src/com/company/BigLine.java:150-155 | as written, with `t = 2` the line "aabbc" yields "aa", "bb", "b": the buffer is never cleared, so the second read transfers nothing and the third chunk is stale |
| BigLines.LimitPastCapacity | src/com/company/BigLine.java:150-151 | as written, with `t = 2` the 5-byte line at offset 3 of its file yields its head and then throws `IllegalArgumentException`: the shortening test compares the absolute offset 5 + 2 with the length 5, and `limit(3)` exceeds the capacity 2 |
| BigLines.WriteSplitsLine | src/com/company/BigLine.java:60-66 | as written, `write` puts a separator right after the first chunk, so a line of two or more chunks does not come out as its text plus one separator |
| BigLines.LongLine.constructor | src/com/company/BigLine.java:122-129 | a new `LongLine` keeps its region and owns a buffer of capacity `t` with limit `t` |
| BigLines.ChunkIterator.constructor | src/com/company/BigLine.java:132-135 | `getIterator()` starts at the line's start offset with `hasNext` true |
| BigLines.ChunkIterator.HasNext | src/com/company/BigLine.java:137-140 | `hasNext()` is whether the iteration state has more to give |
| BigLines.ChunkIterator.Next | src/com/company/BigLine.java:142-163 | the object's `next()` performs `NextStep` on the iterator and the line's shared buffer: the same chunk and new state, or the same exception with nothing changed |
| BigLines.CompareTo | src/com/company/BigLine.java:26-55 | `compareTo` on objects: a `ShortLine` receiver compares texts or answers 0 and touches no buffer (lines 81-87); a `LongLine` receiver returns what `CompareIts` gives, leaving both lines' buffers as it says |
| BigLines.Write | src/com/company/BigLine.java:60-66 | `write` outputs each chunk followed by a separator, stops at an exception, and leaves the line's buffer as the iteration does |
| BigLineReaders.LineEnd | src/com/company/BigLineReader.java:59-72 | the end of the line starting at `c`: no separator before it, and it is the separator's index or the end of the file |
| BigLineReaders.LineEndUnique | src/com/company/BigLineReader.java:59-72 | any separator-free stretch from `c` that stops at a separator or at the end of the file is the line |
| BigLineReaders.NextLine | src/com/company/BigLineReader.java:45-82 | one `getBigLine` from scan position `c` moves the scan forward unless it is already at the end of the file, and never past that end |
| BigLineReaders.ReadLineIsWellFormed | src/com/company/BigLineReader.java:73-81 | `null` comes exactly for an empty line (including at the end of the file); a returned line is a `ShortLine` iff its length is at most `t`, is otherwise a `LongLine` whose head is the first `t` bytes at its start offset, and its bytes are those up to the separator |
| BigLineReaders.StartStaysInStep | src/com/company/BigLineReader.java:76-77 | after a line ended by a separator, `lineStartFileOffset` (advanced by `lineLength + 1`) is again the scan position |
| BigLineReaders.LongLineAsRead | src/com/company/BigLineReader.java:78-81 | a `LongLine` the reader builds is one the `com.company` line type reads back: head, region and file agree |
| BigLineReaders.FinalLineReturned | src/com/company/BigLineReader.java:55-57 | a last line with no separator after it is still returned, whole, and the scan ends at the end of the file |
| BigLineReaders.ArrayContains | src/com/company/BigLineReader.java:99-105 | `arrayContains` is true iff `needle` occurs in `haystack` at `offset` |
| BigLineReaders.FindNewLine | src/com/company/BigLineReader.java:89-97 | `findNewLine` returns the least index in `[startIndex, bufSize)` that holds the separator, or -1 when none does |
| BigLineReaders.ScanExtends | src/com/company/BigLineReader.java:60-70 | a separator-free chunk adds its length to `lineLength`, and the head stays the first `min(lineLength, t)` bytes of the line, across any number of refills |
| BigLineReaders.GrownHeadAfter | src/com/company/BigLineReader.java:66-70 | the head copy, `min(t, newChunkLen, t - head size)` bytes from the buffer, is the chunk's prefix appended while the head is shorter than `t` |
| BigLineReaders.SeparatorEndsLine | src/com/company/BigLineReader.java:59-64 | a separator found at `nlPos` is the end of the line being scanned |
| BigLineReaders.ScanStep | src/com/company/BigLineReader.java:59-71 | one pass over the buffer either finishes the line (separator found) or moves the scan forward with the accumulators up to date, and keeps the buffer consistent with the file |
| BigLineReaders.EndOfFileEndsLine | src/com/company/BigLineReader.java:55-57 | the read that returns -1 ends the line with what was accumulated |
| BigLineReaders.DoneIsNextLine | src/com/company/BigLineReader.java:73-81 | what the fields hold once the scan is over is what `NextLine` returns: `null` iff the head is empty, otherwise a `ShortLine` iff `lineLength <= t`, and `lineStartFileOffset` advanced by `lineLength + 1` |
| BigLineReaders.EmptyLineReadsAsEnd | src/com/company/BigLineReader.java:73-75 | as written, in "a", "", "bbb" with `t = 2`, the empty line reads as `null` before the end of the file, and the next line's `LongLine` then starts one byte early |
| BigLineReaders.NextLineFixed | src/com/company/BigLineReader.java:42-45 | corrected `getBigLine`, `null` only at the end of the file: `null` iff the scan is at the end, and otherwise the scan moves forward |
| BigLineReaders.NextLineFixedAgrees | src/com/company/BigLineReader.java:73-75 | the corrected and the as-written reader agree on every non-empty line; on an empty line mid-file one returns `null` and the other an empty `ShortLine` with the offset advanced |
| BigLineReaders.DoneIsNextLineFixed | src/com/company/BigLineReader.java:73-77 | with the null test restricted to the end of the file, the fields at the end of the scan give `NextLineFixed` |
| BigLineReaders.ReadAllIsFile | src/com/company/BigLineReader.java:45-82 | reading with the corrected reader to the end, a file whose last line is terminated comes back as lines each followed by a separator, equal to the file, each one the line types read back |
| BigLineReaders.ThreeLinesRead | test/com/company/BigLineReaderTest.java:36-41 | lines of `t - 1`, `t` and `t + 1` bytes, each ended by a separator, read back as two `ShortLine`s and a `LongLine` with those bytes, and a further read returns `null` |
| BigLineReaders.ThreeLinesReadBack | test/com/company/BigLineReaderTest.java:138-157 | the third line of that scenario, read through its `com.company` iterator from a fresh buffer, completes and its chunks concatenate to the line |
| BigLineReaders.BigLineReader.constructor | src/com/company/BigLineReader.java:30-36 | a new reader has read nothing: scan position 0, `lineStartFileOffset` 0, a buffer of `t` bytes |
| BigLineReaders.BigLineReader.ChannelRead | src/com/company/BigLineReader.java:51-53 | `fileChannel.read(buffer)` returns -1 at the end of the file, and otherwise from 1 to `min(t, bytes left)` of the next bytes, placed at the start of the buffer |
| BigLineReaders.BigLineReader.Refill | src/com/company/BigLineReader.java:50-58 | a refill keeps the scan position, and `bufferSize` is negative exactly when the channel was at the end of the file |
| BigLineReaders.BigLineReader.ScanBuffer | src/com/company/BigLineReader.java:59-71 | one pass of the loop body on the fields: `ScanStep`'s outcome, with the reader still consistent |
| BigLineReaders.BigLineReader.ScanLine | src/com/company/BigLineReader.java:46-72 | the do-while loop ends with `lineLength` the length of the line, the head its first `min(lineLength, t)` bytes, and the scan past its separator, whatever the read sizes |
| BigLineReaders.BigLineReader.Assemble | src/com/company/BigLineReader.java:73-81 | the end of `getBigLine`: `null` when the head is empty; otherwise `lineStartFileOffset` advances by `lineLength + 1`, and the result is a `ShortLine` of the head when `lineLength <= t`, else a new `LongLine` at the old start offset |
| BigLineReaders.BigLineReader.GetBigLine | src/com/company/BigLineReader.java:45-82 | `getBigLine` returns what `NextLine` gives and moves the scan position and `lineStartFileOffset` as it says |
| BigLineReaders.BigLineReader.GetBigLineFixed | src/com/company/BigLineReader.java:42-45 | the corrected `getBigLine` returns what `NextLineFixed` gives |
| PriorityQueues.PriorityQueue.Add | src/com/company/ChunkSorter.java:39 | `add` puts the element into the queue's multiset |
| PriorityQueues.PriorityQueue.Poll | src/com/company/ChunkSorter.java:80 | `poll` returns `null` iff the queue is empty, and otherwise removes and returns a least element |
| SimpleHeaps.RootIsMinimum | src/main/java/org/dpinol/data/SimpleHeap.java:47-56 | in a heap-ordered array the first slot holds a smallest element |
| SimpleHeaps.SiftUpStep | src/main/java/org/dpinol/data/SimpleHeap.java:34-41 | moving the parent down into the hole while the item is strictly smaller keeps heap order everywhere except at the new hole |
| SimpleHeaps.SiftUpDone | src/main/java/org/dpinol/data/SimpleHeap.java:37-38 | stopping once the item is not smaller than its parent (or at the root) leaves the array heap-ordered |
| SimpleHeaps.ChosenChild | src/main/java/org/dpinol/data/SimpleHeap.java:72-77 | the child `pushDown` descends to is a child of the slot |
| SimpleHeaps.ChosenChildIsSmaller | src/main/java/org/dpinol/data/SimpleHeap.java:75-77 | moving right only when the left child is strictly greater picks a child no larger than either child |
| SimpleHeaps.SiftDownStep | src/main/java/org/dpinol/data/SimpleHeap.java:78-81 | moving the chosen child up while `x` is greater keeps heap order everywhere except below the new hole |
| SimpleHeaps.SiftDownDone | src/main/java/org/dpinol/data/SimpleHeap.java:78-79 | stopping once `x <= child` (or at a leaf) leaves the array heap-ordered |
| SimpleHeaps.GetParentPos | src/com/company/SimpleHeap.java:45-49 | `getParentPos` throws `IllegalStateException` iff `pos <= 0`, and otherwise returns the slot whose children are `2p + 1` and `2p + 2`, one of which is `pos` |
| SimpleHeaps.SimpleHeap.constructor | src/main/java/org/dpinol/data/SimpleHeap.java:16-19 | a new heap has the given capacity and is empty |
| SimpleHeaps.SimpleHeap.Size | src/main/java/org/dpinol/data/SimpleHeap.java:87-89 | `size()` is the number of elements held, at most the capacity |
| SimpleHeaps.SimpleHeap.IsEmpty | src/main/java/org/dpinol/data/SimpleHeap.java:91-93 | `isEmpty()` iff the heap holds no element |
| SimpleHeaps.SimpleHeap.IsFull | src/main/java/org/dpinol/data/SimpleHeap.java:95-97 | `isFull()` iff the heap holds `capacity` elements |
| SimpleHeaps.SimpleHeap.Add | src/main/java/org/dpinol/data/SimpleHeap.java:29-44 | `add` throws `IllegalStateException` and changes nothing when full; otherwise the size grows by one, the multiset gains the item, and heap order holds (same statements at src/main/java/org/dpinol/SimpleHeap.java:25-40 and src/com/company/SimpleHeap.java:24-39) |
| SimpleHeaps.SimpleHeap.Poll | src/main/java/org/dpinol/data/SimpleHeap.java:51-63 | `poll` returns `null` and changes nothing when empty; otherwise it returns a minimum, shrinks by one, clears the vacated slot, removes the element from the multiset and keeps heap order (same statements in the other two copies) |
| SimpleHeaps.SimpleHeap.SmallerChild | src/main/java/org/dpinol/data/SimpleHeap.java:72-77 | the child `pushDown` compares `x` with is the left one, or the right one when it exists and the left one is strictly greater, and `c` is the element it holds |
| SimpleHeaps.SimpleHeap.Fill | src/main/java/org/dpinol/data/SimpleHeap.java:80 | the write of one sift round: afterwards the array holds the elements with the hole's slot and the moved slot exchanged, and the hole is at the moved slot (`data[index] = e` at line 39 in `add`) |
| SimpleHeaps.SimpleHeap.PushDown | src/main/java/org/dpinol/data/SimpleHeap.java:68-84 | `pushDown` (`moveDown` in the other copies) restores heap order from a root hole, keeping the multiset |
| SimpleHeaps.DrainInOrder | test/com/company/SimpleHeapTest.java:15-53 | adding `0 .. n-1` in any order and then polling `n` times yields `0, 1, ..., n-1` |
| ChunkSorters.GoodRunsMeaning | src/com/company/ChunkSorter.java:47-56 | every flushed run is sorted, non-empty and within `LINES_PER_SORTER` lines, and each run went to its own, newer temporary file |
| ChunkSorters.DrainStep | src/com/company/ChunkSorter.java:80-82 | writing a least remaining line keeps the written lines sorted and no later than any line still in the queue |
| ChunkSorters.Drain | src/com/company/ChunkSorter.java:75-87 | `Flusher.run` writes the queue's lines in ascending order, each once, and leaves the queue empty |
| ChunkSorters.ChunkSorter.constructor | src/com/company/ChunkSorter.java:23-29 | a new run builder has an empty queue, no runs, and its first temporary file created |
| ChunkSorters.ChunkSorter.CreateTmpFile | src/com/company/ChunkSorter.java:47-50 | `createTmpFile` makes a new file that no run has used yet |
| ChunkSorters.ChunkSorter.Flush | src/com/company/ChunkSorter.java:52-56 | `flush` appends one run, holding the queue's lines and going to the current temporary file, and replaces the queue with a fresh empty one |
| ChunkSorters.ChunkSorter.Insert | src/com/company/ChunkSorter.java:39-44 | the insertion adds the line to the live queue, and returns the current temporary file exactly when the queue then holds one line |
| ChunkSorters.ChunkSorter.AddLine | src/com/company/ChunkSorter.java:34-45 | `addLine` flushes and creates a new file first when the queue holds `LINES_PER_SORTER` lines, so the queue never exceeds that bound; it returns the file exactly on a run's first line |
| ChunkSorters.ChunkSorter.Close | src/com/company/ChunkSorter.java:58-63 | `close` flushes iff the queue is non-empty; afterwards the runs hold exactly the lines added |
| ChunkSorters.AddLineReports | src/com/company/ChunkSorter.java:40-44 | the files reported so far, plus the live queue's file when it is non-empty, grow by exactly the file `addLine` returns |
| ChunkSorters.CloseReports | src/com/company/ChunkSorter.java:58-63 | `close` reports no new file: the live queue's file becomes the last run's |
| ChunkSorters.SortIntoRuns | src/com/company/ChunkSorter.java:34-63 | feeding lines and closing yields sorted, non-empty runs in distinct, increasing files that together hold every line once; the files `addLine` returned are exactly the runs' files, in order |
| Mergers.EntryCmpIsComparator | src/com/company/Merger.java:50-53 | `LineWithOrigin.compareTo` compares the lines only, ignoring `readerIndex`, and meets the `Comparable` contract when line comparison does |
| Mergers.OpenReaders | src/com/company/Merger.java:23-28 | a reader is opened for exactly the input files of non-zero length, in order |
| Mergers.ReadLine | src/com/company/Merger.java:76-78 | a reader returns its next line while it has one and `null` once drained |
| Mergers.LoadQueue | src/com/company/Merger.java:62-66 | loading succeeds iff every reader has a first line, and the queue then holds each reader's first line once |
| Mergers.PollHead | src/com/company/Merger.java:72 | `front.poll()` removes a least entry, which is the current line of a reader that is not drained |
| Mergers.FrontStep | src/com/company/Merger.java:71-80 | writing a reader's head and pushing its next line (if any) keeps the queue holding the current line of every undrained reader |
| Mergers.StepOrdered | src/com/company/Merger.java:71-80 | with sorted readers, writing a least entry keeps the output sorted and no later than anything still queued |
| Mergers.WriteNext | src/com/company/Merger.java:72-80 | one turn of the loop writes a least current line, advances that reader, and reports whether it became drained |
| Mergers.MergeWith | src/com/company/Merger.java:56-91 | `NullPointerException` when some reader has no first line; otherwise it completes exactly when there are no readers or `logStep` is not 0 (else the first drained reader throws `ArithmeticException`); on completion the output is a permutation of all lines, and it is sorted whenever every reader's lines are |
| Mergers.Merge | src/com/company/Merger.java:56-91 | as written, with `logStep = readers / 10`: with between 1 and 9 readers, all non-empty, `merge` throws `ArithmeticException`; with none, or 10 or more, it writes every line once, sorted when the readers are |
| Mergers.MergeFixed | src/com/company/Merger.java:70 | with `logStep` kept positive, the merge of readers that all have a first line completes, writes every line once, and is sorted when the readers are |
| Mergers.RoundBytes | src/com/company/Merger.java:73-74 | the bytes one round writes for a line: `write` (each chunk and a separator) and then `newLine`, so the line ends in two separators |
| Mergers.MergedLinesDoubled | src/com/company/Merger.java:73-74 | as written, two one-chunk lines `a`, `b` come out as `a`, two separators, `b`, two separators; read back with `getBigLine`, the file gives `a` and then `null` for the empty line, before its end |
| Mergers.MergedFileFixedReadsBack | src/com/company/Merger.java:71-75 | with one separator per line, the merged file read back with the corrected reader gives one line per line written, each holding exactly the bytes written for it |
| ParallelFilesMergers.NumSegments | src/main/java/org/dpinol/ParallelFilesMerger.java:45 | `numSegments` is at most 3 and at most the number of files, at least 1 when there is a file, and equal to one of the two |
| ParallelFilesMergers.CheckInputs | src/main/java/org/dpinol/ParallelFilesMerger.java:41-56 | the constructor's checks: `IllegalArgumentException` iff the list is empty or some file has length 0 |
| ParallelFilesMergers.ParallelFilesMerger.Create | src/main/java/org/dpinol/ParallelFilesMerger.java:41-56 | the constructor throws `IllegalArgumentException` exactly when `CheckInputs` does; otherwise there are `min(3, n)` segments, one empty queue per input file (not per segment) and no finished mergers |
| ParallelFilesMergers.ParallelFilesMerger.constructor | src/main/java/org/dpinol/ParallelFilesMerger.java:45-55 | the fields right after the checks: the segment count, the queues, and a finished count of 0 |
| ParallelFilesMergers.ParallelFilesMerger.CreateInputMergers | src/main/java/org/dpinol/ParallelFilesMerger.java:80-99 | the loop, including its `segmentIndex == n - 1` branch, produces exactly `Partition(n, numSegments)` |
| ParallelFilesMergers.LastBoundary | src/main/java/org/dpinol/ParallelFilesMerger.java:94 | the formula gives `n` for the last segment, so the last segment ends at the last file |
| ParallelFilesMergers.LastSupplierBoundary | src/main/java/org/dpinol/ParallelFilesMerger.java:91-95 | when `segmentIndex == n - 1`, the special case and the formula agree |
| ParallelFilesMergers.BoundaryGrows | src/main/java/org/dpinol/ParallelFilesMerger.java:94 | with no more segments than files, the boundaries strictly increase |
| ParallelFilesMergers.PrefixIndices | src/main/java/org/dpinol/ParallelFilesMerger.java:89-98 | the first `m` segments together cover the files from 0 up to the end of segment `m - 1`, in order |
| ParallelFilesMergers.PartitionCovers | src/main/java/org/dpinol/ParallelFilesMerger.java:87-98 | every segment is non-empty; each starts where the previous one ends; together they are the files `0 .. n-1`, each exactly once and in order |
| ParallelFilesMergers.SegmentsBalanced | src/main/java/org/dpinol/ParallelFilesMerger.java:20 | each segment holds `n / k` or `n / k + 1` files: "approx the same number of files" |
| ParallelFilesMergers.ParallelFilesMerger.IsAllInputsRead | src/main/java/org/dpinol/ParallelFilesMerger.java:71-73 | true exactly when the finished count equals `numSegments`; `FinishInputMerger` and `NextOutputLine` state what that means for the input mergers and for the supplier |
| ParallelFilesMergers.ParallelFilesMerger.FinishInputMerger | src/main/java/org/dpinol/ParallelFilesMerger.java:118 | an input merger that ends raises the finished count by one; all inputs are read after it exactly when it was the last running merger, and never before it |
| ParallelFilesMergers.ParallelFilesMerger.NextOutputLine | src/main/java/org/dpinol/ParallelFilesMerger.java:150-159 | the output supplier returns `null` only when all input mergers have finished (`isAllInputsRead`) and its queue is empty, with nothing having arrived; otherwise it returns the head of the queue's lines plus the arrivals, and other queues are untouched |

## Left out

- I/O is modelled as values.
  - A file is a `seq<byte>`. A read is a slice of it.
  - `BigLineReader`'s channel may return any count from 1 up to `min(t, left)`.
  - Writers are sequences that the output is appended to.
  - Temporary files are numbered by creation order.
  - Closing files and channels, `IOException` and the `RuntimeException` wrapping are not modelled.
- Character decoding (`toString`, `getBytes`, `new String(...)`) is not modelled: one byte is one character. The separator is one byte, 10.
- `BUFFER_SIZE`/`LENGTH_THRESHOLD` are the parameter `t`. `LINES_PER_SORTER` is a constant.
- Logging, timing, progress counters (`linesPushed`, `linesRead`, `linesGenerates`) and configuration are not modelled.
- Concurrency is not modelled. This covers:
  - the executor that runs `ChunkSorter`'s flushers (a flush drains at once into `runs`);
  - the threads of `ParallelFilesMerger`;
  - the `AtomicLong` counter;
  - the blocking `put` and timed `poll` of the `ArrayBlockingQueue` (capacity 1000 is not modelled).
- ParallelFilesMergers.ParallelFilesMerger.NextOutputLine: what the input mergers do while the supplier waits is a sequence of events given to it. Its precondition assumes every input merger eventually finishes. An input merger that throws is caught at lines 119-122 without counting itself finished, and the supplier then polls forever. That non-termination is not modelled.
- ParallelFilesMergers.Boundary: `(int) ((float) (s + 1) * n / k)` is modelled as the integer floor of `(s + 1) * n / k`. This matches only while `float` represents the values exactly (small `n`).
- The input mergers and the output merger of `ParallelFilesMerger` (`org.dpinol.Merger`) are not part of this model. They are asynchronous and incomplete in the source.
- `PriorityQueues.PriorityQueue`: `java.util.PriorityQueue` is modelled by its contract (a multiset, `poll` returns some least element), not by its array algorithm.
- `SimpleHeaps.SimpleHeap`: the three copies are modelled by one class.
  - `getParentPos`, which only `com.company` has, is modelled separately.
  - The empty `moveUp` of `com.company.SimpleHeap` is not modelled.
- Mergers.Merge: the output is modelled as the sequence of lines written (`out`), not as bytes. The bytes a line becomes are `RoundBytes` (its chunks, a separator after each, and `newLine`), and `MergedFile` strings the rounds together; the merge methods do not produce those bytes themselves. See Findings for the doubled separator.
- Mergers.MergeWith: the same holds; its `out` is the sequence of lines.
- Mergers.Merge: a reader is modelled by the lines it hands out before its first `null`. How `BigLine` objects are compared is the comparator parameter `cmp`, assumed to meet the `Comparable` contract. `BigLine.compareTo` does not meet that contract (see Findings), so the merge results hold for comparators that do.
- ChunkSorters.ChunkSorter: the run builder's queue is ordered by a comparator `cmp` that the constructor requires to meet the `Comparable` contract, and `Drain`'s sortedness rests on it. `BigLine.compareTo`, which the source uses there, does not meet that contract (see Findings), so the sortedness of runs holds for comparators that do.
- SimpleHeaps.SimpleHeap: heap order and the sorted drain assume `cmp` meets the `Comparable` contract. `FileLine.compareTo`, used with this heap in the repository's performance test, does not meet it (see Findings).
- BigLines.CompareTo: the two lines must own different buffers. `x.compareTo(x)` on a `LongLine`, where both iterators share one buffer, is not modelled.
- `ChunkSorters.ChunkSorter.AddLine`: using the builder after `close` is not modelled.
- `BigLines.ChunkIterator.Next` needs a `LongLine` head that is not empty. `next()` on an empty head never leaves the head, and the reader never builds such a line.
- `FileLines.LineIterator.Next`: the `LongLine` head must not be empty, and the line's region must lie inside its file.
- `AsynchronousFileChannel.read(...).get()` is modelled as a read that returns at once.
- FileLines.ReadAt: the positional read at `src/main/java/org/dpinol/FileLine.java:201` is modelled as a full read of `min(t, bytes left)` bytes. Java's channel may transfer fewer. On a short read the source still moves `currentOffset` on by `LENGTH_THRESHOLD` (lines 186-190), skipping the bytes not read. `ChunksReconstructLine`, `FileChunksFromReconstruct` and `LongLineCompareFollowsContent` hold only for full reads.
- BigLines.ReadAt: `fileChannel.read(buffer, currentOffset)` at `src/com/company/BigLine.java:153` is modelled as a full read of `min(room, bytes left)` bytes (`Transferred`). Java's channel may transfer fewer. The source ignores the count: it advances by `BUFFER_SIZE` and returns `buffer.limit()` bytes (lines 154-155), so a short read leaves stale bytes in the chunk. `BodyStep` and `ShortLongLineReadsBack` hold only for full reads. `BigLineReader`'s sequential read, by contrast, is modelled with any count (`BigLineReaders.BigLineReader.ChannelRead`).
- `writeAsync` is not modelled.
- The `ChunkSorter.Action` class is empty in the source and is not modelled.

## Findings

| source | as written | input that shows it | evidently intended | confidence | as-written member | corrected member |
|---|---|---|---|---|---|---|
| src/com/company/Merger.java:70 | `logStep = readers.size() / 10` is 0 with fewer than 10 readers, and `numDrainedFiles % logStep` (line 83) then throws `ArithmeticException` when the first reader drains | two non-empty readers | a positive progress step, so that the merge completes | high, not executed | Mergers.Merge | Mergers.MergeFixed |
| src/com/company/BigLine.java:150-151 | the shortening test compares the absolute `currentOffset + BUFFER_SIZE` with the length `numBytes`, and the new limit can exceed the capacity, so `limit` throws | with `t = 2`, the 5-byte line at offset 3 of a file (the line's second chunk) | chunks of `min(t, bytes left)` bytes, as `org.dpinol.FileLine` reads them | high, not executed | BigLines.LimitPastCapacity | FileLines.ChunksReconstructLine |
| src/com/company/BigLine.java:153-155 | the line's buffer is never cleared, so after the first full read the next read transfers nothing and a stale chunk is returned | with `t = 2`, the line "aabbc" at offset 0 yields "aa", "bb", "b" | each read starts from a cleared buffer (`buffer.clear()`, as `org.dpinol.FileLine` does), so the chunks concatenate to the line | high, not executed | BigLines.StaleChunk | FileLines.ChunksReconstructLine |
| src/com/company/BigLine.java:60-66 | `write` writes a separator after every chunk, so a long line is split into several output lines | any line of two or more chunks | all chunks, then one separator | high, not executed | BigLines.WriteSplitsLine | FileLines.Write |
| src/main/java/org/dpinol/FileLine.java:105-110 | a `ShortLine` compares 0 against any `LongLine`, while the `LongLine` compares non-zero against it, which breaks the `Comparable` contract | a `ShortLine` and a `LongLine` as the reader builds them | compare through the chunks, giving the order of the lines' bytes | high, not executed | FileLines.ShortAgainstLongIsOneSided | FileLines.CompareToFixed |
| src/com/company/BigLineReader.java:73-75 | an empty line mid-file returns `null`, which callers read as the end of the file (Merger.java:78), and `lineStartFileOffset` is not advanced past it, so the next `LongLine` starts one byte early | "a", "", "bbb" (each ended by the separator) with `t = 2` | `null` only at the end of the file (the doc comment at line 43), with an empty line returned as an empty line | medium, not executed | BigLineReaders.EmptyLineReadsAsEnd | BigLineReaders.ReadAllIsFile |
| src/com/company/Merger.java:73-74 | `write` already ends the line's (last) chunk with a separator, and `newLine` adds another, so every merged line is followed by an empty line | two lines "a" and "b" | one separator per line, the line's chunks then one separator, as `FileLine.write` writes a line (src/main/java/org/dpinol/FileLine.java:79-85) | high, not executed | Mergers.MergedLinesDoubled | Mergers.MergedFileFixedReadsBack |
