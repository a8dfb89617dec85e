/**
 * read_chunks and the stream branch of chunk_copy (relic/core/lazyio.py).
 *
 * read_chunks is a generator; here the chunks it yields are collected into a
 * sequence, and an exception it raises ends the sequence with an error.
 * Over bytes it slices with Python's slice rules; over a stream it reads
 * `chunk_size` bytes at a time (at most the bytes still wanted when a size is
 * given) until a read comes back empty.
 */
module Chunks {
  import opened Errors
  import opened Streams

  /** b"".join(chunks) */
  function Concat(chunks: seq<Bytes>): Bytes {
    if chunks == [] then [] else chunks[0] + Concat(chunks[1..])
  }

  lemma {:induction false} ConcatAppend(chunks: seq<Bytes>, b: Bytes)
    ensures Concat(chunks + [b]) == Concat(chunks) + b
  {
    if chunks != [] {
      assert (chunks + [b])[1..] == chunks[1..] + [b];
      ConcatAppend(chunks[1..], b);
    } else {
      assert [b][1..] == [];
    }
  }

  // ------------------------------------------------------------- bytes

  /** math.ceil(a / b) for b != 0, over exact rationals. */
  function CeilDiv(a: int, b: int): (q: int)
    requires b != 0
    ensures b > 0 ==> (q - 1) * b < a <= q * b
  {
    if b > 0 then (a + b - 1) / b else (-a - b - 1) / (-b)
  }

  /** A slice bound that is not negative, clamped to the length. */
  function Clip(x: int, len: nat): (k: nat)
    requires x >= 0
    ensures k <= len && k <= x
  {
    if x > len then len else x
  }

  /** With bounds that are not negative, a Python slice is the plain slice between the clamped bounds. */
  lemma PySliceClip(s: Bytes, i: int, j: int)
    requires 0 <= i <= j
    ensures PySlice(s, i, j) == s[Clip(i, |s|)..Clip(j, |s|)]
  {
  }

  /** The chunk number `index` of read_chunks over bytes: stream[start + index*cs : start + min((index+1)*cs, size)]. */
  function BytesChunk(buf: Bytes, start: int, size: int, chunkSize: int, index: int): Bytes {
    PySlice(buf, start + index * chunkSize, start + Min((index + 1) * chunkSize, size))
  }

  /** The number of chunks read_chunks yields over bytes. */
  function BytesChunkCount(size: int, chunkSize: int): nat
    requires chunkSize != 0
  {
    var c := CeilDiv(size, chunkSize);
    if c < 0 then 0 else c
  }

  /** The first `k` chunks read_chunks yields over bytes. */
  function BytesChunks(buf: Bytes, s: int, n: int, chunkSize: int, k: nat): (chunks: seq<Bytes>)
    ensures |chunks| == k
  {
    if k == 0 then [] else BytesChunks(buf, s, n, chunkSize, k - 1) + [BytesChunk(buf, s, n, chunkSize, k - 1)]
  }

  /**
   * With a positive chunk size and a range that starts at or after 0, the
   * first `k` chunks cover the first min(k * chunkSize, n) bytes of the range
   * (clamped to the buffer), each chunk at most chunkSize bytes long.
   */
  lemma {:induction false} BytesChunksCover(buf: Bytes, s: int, n: int, chunkSize: int, k: nat)
    requires chunkSize > 0 && s >= 0 && n >= 0 && k <= BytesChunkCount(n, chunkSize)
    ensures Concat(BytesChunks(buf, s, n, chunkSize, k)) == buf[Clip(s, |buf|)..Clip(s + Min(k * chunkSize, n), |buf|)]
  {
    if k > 0 {
      BytesChunksCover(buf, s, n, chunkSize, k - 1);
      var before := BytesChunks(buf, s, n, chunkSize, k - 1);
      BytesChunkStep(buf, s, n, chunkSize, k - 1, k, before);
      assert BytesChunks(buf, s, n, chunkSize, k) == before + [BytesChunk(buf, s, n, chunkSize, k - 1)];
    }
  }

  /** Chunk `i` of the first `k` chunks is chunk number `i`. */
  lemma {:induction false} BytesChunksAt(buf: Bytes, s: int, n: int, chunkSize: int, k: nat, i: nat)
    requires i < k
    ensures BytesChunks(buf, s, n, chunkSize, k)[i] == BytesChunk(buf, s, n, chunkSize, i)
  {
    if i < k - 1 {
      BytesChunksAt(buf, s, n, chunkSize, k - 1, i);
    }
  }

  /** Every chunk read_chunks yields over bytes is at most chunkSize long. */
  lemma BytesChunkShort(buf: Bytes, s: int, n: int, chunkSize: int, index: nat)
    requires chunkSize > 0 && s >= 0 && n >= 0 && index < BytesChunkCount(n, chunkSize)
    ensures |BytesChunk(buf, s, n, chunkSize, index)| <= chunkSize
  {
    ChunkBounds(n, chunkSize, index);
  }

  /** Appending chunk number `index` extends the covered prefix of the range by one chunk. */
  lemma BytesChunkStep(buf: Bytes, s: int, n: int, chunkSize: int, index: nat, next: nat, chunks: seq<Bytes>)
    requires chunkSize > 0 && s >= 0 && n >= 0
    requires index < BytesChunkCount(n, chunkSize) && next == index + 1
    requires Concat(chunks) == buf[Clip(s, |buf|)..Clip(s + Min(index * chunkSize, n), |buf|)]
    ensures Concat(chunks + [BytesChunk(buf, s, n, chunkSize, index)])
         == buf[Clip(s, |buf|)..Clip(s + Min(next * chunkSize, n), |buf|)]
  {
    ChunkBounds(n, chunkSize, index);
    var mid := s + index * chunkSize;
    var hi := s + Min(next * chunkSize, n);
    assert Min(index * chunkSize, n) == index * chunkSize;
    SliceStep(buf, s, mid, hi, chunks);
  }

  lemma ChunkBounds(n: int, chunkSize: int, index: nat)
    requires chunkSize > 0 && n >= 0 && index < BytesChunkCount(n, chunkSize)
    ensures 0 <= index * chunkSize < n
    ensures (index + 1) * chunkSize == index * chunkSize + chunkSize
  {
    var count := CeilDiv(n, chunkSize);
    assert index * chunkSize <= (count - 1) * chunkSize;
  }

  lemma SliceStep(buf: Bytes, lo: int, mid: int, hi: int, chunks: seq<Bytes>)
    requires 0 <= lo <= mid <= hi
    requires Concat(chunks) == buf[Clip(lo, |buf|)..Clip(mid, |buf|)]
    ensures Concat(chunks + [PySlice(buf, mid, hi)]) == buf[Clip(lo, |buf|)..Clip(hi, |buf|)]
    ensures |PySlice(buf, mid, hi)| <= hi - mid
  {
    PySliceClip(buf, mid, hi);
    ConcatAppend(chunks, PySlice(buf, mid, hi));
    assert buf[Clip(lo, |buf|)..Clip(mid, |buf|)] + buf[Clip(mid, |buf|)..Clip(hi, |buf|)]
        == buf[Clip(lo, |buf|)..Clip(hi, |buf|)];
  }

  /** All chunks together are the range read_chunks was asked for, s[start:start + size]. */
  lemma BytesChunksJoin(buf: Bytes, s: int, n: int, chunkSize: int)
    requires chunkSize > 0 && s >= 0 && n >= 0
    ensures Concat(BytesChunks(buf, s, n, chunkSize, BytesChunkCount(n, chunkSize))) == PySlice(buf, s, s + n)
  {
    var count := BytesChunkCount(n, chunkSize);
    BytesChunksCover(buf, s, n, chunkSize, count);
    assert Min(count * chunkSize, n) == n;
    PySliceClip(buf, s, s + n);
  }

  /** All chunks together are s[start:start + size], and none is longer than the chunk size. */
  lemma BytesChunksWhole(buf: Bytes, s: int, n: int, chunkSize: int)
    requires chunkSize > 0 && s >= 0 && n >= 0
    ensures var chunks := BytesChunks(buf, s, n, chunkSize, BytesChunkCount(n, chunkSize));
            && Concat(chunks) == PySlice(buf, s, s + n)
            && forall i :: 0 <= i < |chunks| ==> |chunks[i]| <= chunkSize
  {
    var count := BytesChunkCount(n, chunkSize);
    BytesChunksJoin(buf, s, n, chunkSize);
    var chunks := BytesChunks(buf, s, n, chunkSize, count);
    forall i | 0 <= i < |chunks|
      ensures |chunks[i]| <= chunkSize
    {
      BytesChunksAt(buf, s, n, chunkSize, count, i);
      BytesChunkShort(buf, s, n, chunkSize, i);
    }
  }

  /**
   * The chunks read_chunks yields over bytes, with the defaults for a
   * missing start (0) and size (everything from the start on).
   */
  function RangeChunks(buf: Bytes, start: Option<int>, size: Option<int>, chunkSize: int): seq<Bytes>
    requires chunkSize != 0
  {
    var s := start.GetOr(0);
    var n := size.GetOr(|buf| - s);
    BytesChunks(buf, s, n, chunkSize, BytesChunkCount(n, chunkSize))
  }

  /** With the defaults applied, the chunks over bytes join to `buf[start:start + size]`. */
  lemma RangeChunksJoin(buf: Bytes, start: Option<int>, size: Option<int>, chunkSize: int)
    requires chunkSize > 0 && start.GetOr(0) >= 0 && size.GetOr(|buf| - start.GetOr(0)) >= 0
    ensures var s := start.GetOr(0);
            Concat(RangeChunks(buf, start, size, chunkSize)) == PySlice(buf, s, s + size.GetOr(|buf| - s))
  {
    BytesChunksJoin(buf, start.GetOr(0), size.GetOr(|buf| - start.GetOr(0)), chunkSize);
  }

  /**
   * read_chunks over bytes.  With a chunk size of 0 the division raises;
   * defaults: start 0, size the rest of the buffer after start.
   */
  method ReadChunksFromBytes(buf: Bytes, start: Option<int>, size: Option<int>, chunkSize: int)
    returns (r: Result<seq<Bytes>>)
    ensures chunkSize == 0 ==> r == Err(DivisionByZero)
    ensures chunkSize != 0 ==> r == Ok(RangeChunks(buf, start, size, chunkSize))
  {
    if chunkSize == 0 {
      return Err(DivisionByZero);
    }
    var s := if start.Some? then start.value else 0;
    var n := if size.Some? then size.value else |buf| - s;
    var count := BytesChunkCount(n, chunkSize);
    var chunks: seq<Bytes> := [];
    var index := 0;
    while index < count
      invariant 0 <= index <= count
      invariant chunks == BytesChunks(buf, s, n, chunkSize, index)
    {
      var chunk := PySlice(buf, s + index * chunkSize, s + Min((index + 1) * chunkSize, n));
      chunks := chunks + [chunk];
      index := index + 1;
    }
    r := Ok(chunks);
  }

  // ------------------------------------------------------------ streams

  /** A stream branch read is needed at all: with a size of 0 or less the loop never runs. */
  predicate WantsMore(left: Option<int>) {
    left.None? || left.value > 0
  }

  /** The count each read of the stream branch asks for. */
  function Request(left: Option<int>, chunkSize: int): int {
    if left.Some? then Min(left.value, chunkSize) else chunkSize
  }

  /**
   * The chunks read_chunks yields from a readable stream whose cursor is at
   * `pos`, with `left` bytes still wanted (None: until the end).
   */
  function StreamChunks(data: Bytes, pos: nat, left: Option<int>, chunkSize: int): seq<Bytes>
    decreases Available(data, pos)
  {
    if !WantsMore(left) then []
    else
      var b := ReadAt(data, pos, Request(left, chunkSize));
      if b == [] then []
      else [b] + StreamChunks(data, pos + |b|, if left.Some? then Some(left.value - |b|) else None, chunkSize)
  }

  /** What the chunks together read: everything to the end, or `size` bytes (fewer at the end). */
  function Wanted(left: Option<int>): int {
    if left.None? then -1 else Max(left.value, 0)
  }

  /**
   * With a positive chunk size, the chunks are exactly the bytes one read of
   * the whole request returns, none longer than the chunk size and none empty.
   */
  lemma {:induction false} StreamChunksCover(data: Bytes, pos: nat, left: Option<int>, chunkSize: int)
    requires chunkSize > 0
    ensures Concat(StreamChunks(data, pos, left, chunkSize)) == ReadAt(data, pos, Wanted(left))
    ensures forall i :: 0 <= i < |StreamChunks(data, pos, left, chunkSize)| ==>
              0 < |StreamChunks(data, pos, left, chunkSize)[i]| <= chunkSize
    decreases Available(data, pos)
  {
    var chunks := StreamChunks(data, pos, left, chunkSize);
    if !WantsMore(left) {
      assert chunks == [];
      assert ReadAt(data, pos, Wanted(left)) == [];
    } else {
      var b := ReadAt(data, pos, Request(left, chunkSize));
      if b == [] {
        assert chunks == [];
        assert Available(data, pos) == 0;
        assert ReadAt(data, pos, Wanted(left)) == [];
      } else {
        var next := if left.Some? then Some(left.value - |b|) else None;
        var tail := StreamChunks(data, pos + |b|, next, chunkSize);
        assert chunks == [b] + tail;
        StreamChunksCover(data, pos + |b|, next, chunkSize);
        CoverStep(data, pos, left, chunkSize, b, next);
        assert Concat(chunks) == b + Concat(tail) by {
          assert chunks[0] == b && chunks[1..] == tail;
        }
        forall i | 0 <= i < |chunks|
          ensures 0 < |chunks[i]| <= chunkSize
        {
          if i > 0 {
            assert chunks[i] == tail[i - 1];
          }
        }
      }
    }
  }

  /** One chunk followed by the rest of the request is the whole request. */
  lemma CoverStep(data: Bytes, pos: nat, left: Option<int>, chunkSize: int, b: Bytes, next: Option<int>)
    requires chunkSize > 0 && WantsMore(left)
    requires b == ReadAt(data, pos, Request(left, chunkSize)) && b != []
    requires next == if left.Some? then Some(left.value - |b|) else None
    ensures 0 < |b| <= chunkSize
    ensures b + ReadAt(data, pos + |b|, Wanted(next)) == ReadAt(data, pos, Wanted(left))
  {
    var k := |b|;
    var rest := ReadAt(data, pos + k, Wanted(next));
    ReadAtSameLength(data, pos, Request(left, chunkSize), k);
    ReadAtSplit(data, pos, k, Wanted(next));
    assert Available(data, pos + k) == Available(data, pos) - k;
    if left.Some? {
      assert Wanted(next) == left.value - k;
    }
    ReadAtSameLength(data, pos, k + |rest|, Wanted(left));
  }

  /**
   * One turn of the stream loop: read the next request and count down what
   * is still wanted.  What is left of the chunk sequence shrinks by the chunk read.
   */
  method NextChunk(s: MemoryStream, left: Option<int>, chunkSize: int) returns (r: Result<Bytes>, next: Option<int>)
    requires WantsMore(left)
    modifies s`pos
    ensures !s.readable ==> r == Err(UnsupportedOperation("read")) && s.pos == old(s.pos)
    ensures s.readable ==> r.Ok? && s.pos == old(s.pos) + |r.value|
    ensures s.readable ==> next == if left.Some? then Some(left.value - |r.value|) else None
    ensures s.readable && r.value == [] ==> StreamChunks(s.data, old(s.pos), left, chunkSize) == []
    ensures s.readable && r.value != [] ==>
              StreamChunks(s.data, old(s.pos), left, chunkSize) == [r.value] + StreamChunks(s.data, s.pos, next, chunkSize)
    ensures s.readable && r.value != [] ==> Available(s.data, s.pos) < Available(s.data, old(s.pos))
  {
    ghost var before := s.pos;
    r := s.Read(Request(left, chunkSize));
    if r.Ok? {
      assert |r.value| <= Available(s.data, before);
    }
    next := left;
    if r.Ok? && left.Some? {
      next := Some(left.value - |r.value|);
    }
  }

  /** Moving the first chunk still to come onto the chunks read keeps their sum. */
  lemma ShiftChunk(chunks: seq<Bytes>, rest: seq<Bytes>, b: Bytes, tail: seq<Bytes>, full: seq<Bytes>)
    requires chunks + rest == full && rest == [b] + tail
    ensures (chunks + [b]) + tail == full
  {
    assert chunks + ([b] + tail) == (chunks + [b]) + tail;
  }

  /**
   * read_chunks over a stream: an optional seek to `start`, then reads until
   * one comes back empty or `size` bytes have been read.
   */
  method ReadChunksFromStream(s: MemoryStream, start: Option<int>, size: Option<int>, chunkSize: int)
    returns (r: Result<seq<Bytes>>)
    modifies s`pos
    ensures start.Some? && start.value < 0 ==> r == Err(NegativeSeekValue(start.value)) && s.pos == old(s.pos)
    ensures !(start.Some? && start.value < 0) ==>
              var p0: nat := if start.Some? then start.value else old(s.pos);
              && (!s.readable && WantsMore(size) ==> r == Err(UnsupportedOperation("read")) && s.pos == p0)
              && (s.readable || !WantsMore(size) ==>
                    && r == Ok(StreamChunks(s.data, p0, size, chunkSize))
                    && s.pos == p0 + |Concat(r.value)|)
  {
    if start.Some? {
      var seek := s.Seek(start.value, SeekSet);
      if seek.Err? {
        return Err(seek.error);
      }
    }
    ghost var p0 := s.pos;
    ghost var full := StreamChunks(s.data, p0, size, chunkSize);
    ghost var rest := full;
    var chunks: seq<Bytes> := [];
    var left := size;
    var done := false;
    while !done
      invariant s.pos == p0 + |Concat(chunks)|
      invariant chunks + rest == full
      invariant !done ==> rest == StreamChunks(s.data, s.pos, left, chunkSize)
      invariant done ==> rest == []
      invariant !s.readable ==> left == size && s.pos == p0 && chunks == []
      invariant !s.readable && WantsMore(size) ==> !done
      decreases (if done then 0 else 1) + Available(s.data, s.pos)
    {
      if !WantsMore(left) {
        done := true;
      } else {
        var b, next := NextChunk(s, left, chunkSize);
        if b.Err? {
          return Err(b.error);
        }
        if b.value == [] {
          done := true;
        } else {
          ghost var tail := StreamChunks(s.data, s.pos, next, chunkSize);
          ShiftChunk(chunks, rest, b.value, tail, full);
          ConcatAppend(chunks, b.value);
          chunks := chunks + [b.value];
          rest := tail;
        }
        left := next;
      }
    }
    assert chunks + rest == chunks;
    r := Ok(chunks);
  }

  /** The concatenation of chunks is at least as long as that of any prefix. */
  lemma {:induction false} ConcatPrefix(front: seq<Bytes>, back: seq<Bytes>)
    ensures |Concat(front + back)| >= |Concat(front)|
  {
    if front != [] {
      assert (front + back)[1..] == front[1..] + back;
      ConcatPrefix(front[1..], back);
    } else {
      assert front + back == back;
    }
  }

  /**
   * chunk_copy with a stream as output and a stream as input: seek the output
   * to `outputStart`, then write each chunk of read_chunks(input, ...) as it
   * is read (the input is sought when the first chunk is asked for).
   * Modelled for two different streams.
   */
  method ChunkCopy(input: MemoryStream, output: MemoryStream, inputStart: Option<int>, size: Option<int>,
                   outputStart: Option<int>, chunkSize: int)
    returns (r: Outcome)
    requires input != output
    modifies input`pos, output`pos, output`data
    ensures outputStart.Some? && outputStart.value < 0 ==>
              r == Fail(NegativeSeekValue(outputStart.value))
              && input.pos == old(input.pos) && output.pos == old(output.pos) && output.data == old(output.data)
    ensures !(outputStart.Some? && outputStart.value < 0) && inputStart.Some? && inputStart.value < 0 ==>
              && r == Fail(NegativeSeekValue(inputStart.value)) && output.data == old(output.data)
              && input.pos == old(input.pos)
              && output.pos == (if outputStart.Some? then outputStart.value else old(output.pos))
    ensures !(outputStart.Some? && outputStart.value < 0) && !(inputStart.Some? && inputStart.value < 0) ==>
              var p0: nat := if inputStart.Some? then inputStart.value else old(input.pos);
              var q0: nat := if outputStart.Some? then outputStart.value else old(output.pos);
              CopyEffect(input, output, p0, q0, old(output.data), size, chunkSize, r)
  {
    if outputStart.Some? {
      var seek := output.Seek(outputStart.value, SeekSet);
      if seek.Err? {
        return Fail(seek.error);
      }
    }
    if inputStart.Some? {
      var seek := input.Seek(inputStart.value, SeekSet);
      if seek.Err? {
        return Fail(seek.error);
      }
    }
    r := CopyChunks(input, output, size, chunkSize);
  }

  /**
   * What copying the chunks of `input` from `p0` to `output` from `q0` leaves
   * behind: a read error when the input cannot be read (neither cursor
   * moved), a write error when there is something to write and the output
   * cannot be written (the first chunk read, nothing written), and
   * otherwise the chunks written over the output's old contents, with both
   * cursors past what was copied.
   */
  ghost predicate CopyEffect(input: MemoryStream, output: MemoryStream, p0: nat, q0: nat, out0: Bytes,
                             size: Option<int>, chunkSize: int, r: Outcome)
    reads input, output
  {
    var chunks := StreamChunks(input.data, p0, size, chunkSize);
    var copied := Concat(chunks);
    && (!input.readable && WantsMore(size) ==>
          && r == Fail(UnsupportedOperation("read")) && output.data == out0
          && input.pos == p0 && output.pos == q0)
    && ((input.readable || !WantsMore(size)) && !output.writable && copied != [] ==>
          && r == Fail(UnsupportedOperation("write")) && output.data == out0
          && output.pos == q0 && chunks != [] && input.pos == p0 + |chunks[0]|)
    && ((input.readable || !WantsMore(size)) && (output.writable || copied == []) ==>
          && r == Pass
          && output.data == Overwrite(out0, q0, copied)
          && output.pos == q0 + |copied|
          && input.pos == p0 + |copied|)
  }

  /**
   * output.write(chunk) in the loop of chunk_copy: when the output so far
   * holds `written` over its old contents from `q0`, it then holds
   * `written + b`.
   */
  method WriteChunk(output: MemoryStream, b: Bytes, ghost out0: Bytes, ghost q0: nat, ghost written: Bytes)
    returns (w: Result<nat>)
    requires output.data == Overwrite(out0, q0, written) && output.pos == q0 + |written|
    modifies output`data, output`pos
    ensures !output.writable ==> w == Err(UnsupportedOperation("write"))
    ensures !output.writable ==> output.data == old(output.data) && output.pos == old(output.pos)
    ensures output.writable ==> w.Ok?
    ensures output.writable ==> output.data == Overwrite(out0, q0, written + b) && output.pos == q0 + |written + b|
  {
    w := output.Write(b);
    OverwriteConcat(out0, q0, written, b);
  }

  /**
   * chunk_copy with a stream as output and bytes as input: seek the output
   * to `outputStart`, then write each chunk read_chunks yields over the bytes
   * (the chunk count is computed, and a chunk size of 0 raises, when the
   * first chunk is asked for, so after the seek).
   */
  method ChunkCopyFromBytes(input: Bytes, output: MemoryStream, inputStart: Option<int>, size: Option<int>,
                            outputStart: Option<int>, chunkSize: int)
    returns (r: Outcome)
    modifies output`pos, output`data
    ensures outputStart.Some? && outputStart.value < 0 ==>
              r == Fail(NegativeSeekValue(outputStart.value)) && output.pos == old(output.pos) && output.data == old(output.data)
    ensures !(outputStart.Some? && outputStart.value < 0) && chunkSize == 0 ==>
              && r == Fail(DivisionByZero) && output.data == old(output.data)
              && output.pos == (if outputStart.Some? then outputStart.value else old(output.pos))
    ensures !(outputStart.Some? && outputStart.value < 0) && chunkSize != 0 ==>
              WriteAllEffect(output, old(output.data), if outputStart.Some? then outputStart.value else old(output.pos),
                             RangeChunks(input, inputStart, size, chunkSize), r)
  {
    if outputStart.Some? {
      var seek := output.Seek(outputStart.value, SeekSet);
      if seek.Err? {
        return Fail(seek.error);
      }
    }
    if chunkSize == 0 {
      return Fail(DivisionByZero);
    }
    var s := inputStart.GetOr(0);
    var n := size.GetOr(|input| - s);
    assert RangeChunks(input, inputStart, size, chunkSize) == BytesChunks(input, s, n, chunkSize, BytesChunkCount(n, chunkSize));
    assert output.pos == if outputStart.Some? then outputStart.value else old(output.pos);
    assert output.data == old(output.data);
    r := CopyBytesChunks(input, output, s, n, chunkSize);
  }

  /**
   * What writing `chunks` one after another to `output` from `q0` leaves
   * behind: a write error (nothing written, the cursor not moved) when there
   * is a chunk and the output cannot be written, and otherwise the joined chunks written over
   * the output's old contents, with the cursor past them.
   */
  ghost predicate WriteAllEffect(output: MemoryStream, out0: Bytes, q0: nat, chunks: seq<Bytes>, r: Outcome)
    reads output
  {
    && (!output.writable && chunks != [] ==>
          r == Fail(UnsupportedOperation("write")) && output.data == out0 && output.pos == q0)
    && (output.writable || chunks == [] ==>
          && r == Pass
          && output.data == Overwrite(out0, q0, Concat(chunks))
          && output.pos == q0 + |Concat(chunks)|)
  }

  /** The loop of chunk_copy over bytes: write each chunk read_chunks yields, in order. */
  method CopyBytesChunks(input: Bytes, output: MemoryStream, s: int, n: int, chunkSize: int) returns (r: Outcome)
    requires chunkSize != 0
    modifies output`pos, output`data
    ensures WriteAllEffect(output, old(output.data), old(output.pos),
                           BytesChunks(input, s, n, chunkSize, BytesChunkCount(n, chunkSize)), r)
  {
    var count := BytesChunkCount(n, chunkSize);
    ghost var out0 := output.data;
    ghost var q0 := output.pos;
    ghost var chunks: seq<Bytes> := [];
    var index := 0;
    while index < count
      invariant 0 <= index <= count
      invariant chunks == BytesChunks(input, s, n, chunkSize, index)
      invariant output.data == Overwrite(out0, q0, Concat(chunks)) && output.pos == q0 + |Concat(chunks)|
      invariant !output.writable ==> index == 0
    {
      var chunk := BytesChunk(input, s, n, chunkSize, index);
      ConcatAppend(chunks, chunk);
      var w := WriteChunk(output, chunk, out0, q0, Concat(chunks));
      if w.Err? {
        return Fail(w.error);
      }
      chunks := chunks + [chunk];
      index := index + 1;
    }
    r := Pass;
  }

  /** The loop of chunk_copy: write each chunk read_chunks reads from where the input's cursor is. */
  method CopyChunks(input: MemoryStream, output: MemoryStream, size: Option<int>, chunkSize: int)
    returns (r: Outcome)
    requires input != output
    modifies input`pos, output`pos, output`data
    ensures CopyEffect(input, output, old(input.pos), old(output.pos), old(output.data), size, chunkSize, r)
  {
    ghost var p0 := input.pos;
    ghost var q0 := output.pos;
    ghost var out0 := output.data;
    ghost var full := StreamChunks(input.data, p0, size, chunkSize);
    ghost var rest := full;
    ghost var chunks: seq<Bytes> := [];
    var left := size;
    var done := false;
    while !done
      invariant input.pos == p0 + |Concat(chunks)|
      invariant output.pos == q0 + |Concat(chunks)|
      invariant output.data == Overwrite(out0, q0, Concat(chunks))
      invariant chunks + rest == full
      invariant !done ==> rest == StreamChunks(input.data, input.pos, left, chunkSize)
      invariant done ==> rest == []
      invariant !input.readable ==> left == size && chunks == []
      invariant !input.readable && WantsMore(size) ==> !done
      invariant !output.writable ==> chunks == []
      decreases (if done then 0 else 1) + Available(input.data, input.pos)
    {
      if !WantsMore(left) {
        done := true;
      } else {
        var b, next := NextChunk(input, left, chunkSize);
        if b.Err? {
          return Fail(b.error);
        }
        if b.value == [] {
          done := true;
        } else {
          ghost var tail := StreamChunks(input.data, input.pos, next, chunkSize);
          ShiftChunk(chunks, rest, b.value, tail, full);
          ConcatAppend(chunks, b.value);
          var w := WriteChunk(output, b.value, out0, q0, Concat(chunks));
          if w.Err? {
            ConcatPrefix(chunks + [b.value], tail);
            return Fail(w.error);
          }
          chunks := chunks + [b.value];
          rest := tail;
        }
        left := next;
      }
    }
    assert chunks + rest == chunks;
    r := Pass;
  }
}
