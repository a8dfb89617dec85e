/**
 * ZLibFileReader (relic/core/lazyio.py): a read-only stream over the
 * decompressed contents of its parent, with a cursor of its own.
 *
 * The decompressed bytes are a given sequence.  Neither `seek` nor `read`
 * keeps the cursor inside the contents: a seek may go past either end, and a
 * read count below -1 moves the cursor backwards.  Reads use Python's slice
 * rules, so a negative cursor counts from the end.
 */
module ZLib {
  import opened Errors
  import opened Streams

  /** The count `read(n)` advances by: min(remaining, n), with -1 meaning the whole remainder. */
  function ReadSize(remaining: int, n: int): (size: int)
    ensures n == -1 ==> size == remaining
    ensures n != -1 ==> size <= n && size <= remaining && (size == n || size == remaining)
  {
    if n != -1 then Min(remaining, n) else remaining
  }

  class ZLibFileReader {
    /** The parent's contents, decompressed. */
    const data: Bytes
    var now: int

    constructor (data: Bytes)
      ensures this.data == data && now == 0
      ensures InRange()
    {
      this.data := data;
      now := 0;
    }

    /** The cursor lies within the contents (or at their end). */
    predicate InRange()
      reads this
    {
      0 <= now <= |data|
    }

    /** _remaining: may be negative once the cursor is past the end. */
    function Remaining(): (r: int)
      reads this
      ensures now + r == |data|
      ensures InRange() <==> 0 <= r <= |data|
    {
      |data| - now
    }

    /** tell: the reader's own cursor into the decompressed contents. */
    function Tell(): (t: int)
      reads this
      ensures t == now
      ensures InRange() <==> 0 <= t <= |data|
    {
      now
    }

    /** writable: the reader is never writable. */
    function Writable(): (w: bool)
      ensures !w
    {
      false
    }

    method Read(n: int) returns (buffer: Bytes)
      modifies this`now
      ensures now == old(now) + ReadSize(old(Remaining()), n)
      ensures buffer == PySlice(data, old(now), now)
      // from a cursor inside the contents, a read count of -1 or more reads the next bytes and stays inside
      ensures old(InRange()) && n >= -1 ==> InRange() && buffer == data[old(now)..now]
      ensures old(InRange()) && n >= 0 ==> |buffer| == Min(n, |data| - old(now))
      ensures old(InRange()) && n == -1 ==> buffer == data[old(now)..] && now == |data|
    {
      var size := ReadSize(Remaining(), n);
      buffer := PySlice(data, now, now + size);
      now := now + size;
    }

    method Seek(offset: int, whence: int) returns (r: Result<int>)
      modifies this`now
      ensures !ValidWhence(whence) ==> r == Err(InvalidWhence(whence)) && now == old(now)
      ensures whence == SeekSet ==> r == Ok(offset) && now == offset
      ensures whence == SeekCur ==> r == Ok(old(now) + offset) && now == old(now) + offset
      ensures whence == SeekEnd ==> r == Ok(|data| - offset) && now == |data| - offset
      ensures r.Ok? ==> (InRange() <==> 0 <= r.value <= |data|)
    {
      var newNow: int;
      if whence == SeekSet {
        newNow := offset;
      } else if whence == SeekCur {
        newNow := offset + now;
      } else if whence == SeekEnd {
        newNow := |data| - offset;
      } else {
        return Err(InvalidWhence(whence));
      }
      now := newNow;
      r := Ok(newNow);
    }

    /** write: the reader cannot be written. */
    method Write(b: Bytes) returns (r: Result<nat>)
      ensures r == Err(UnsupportedOperation("write"))
    {
      r := Err(UnsupportedOperation("write"));
    }
  }

  /**
   * A read count below -1 moves the cursor back by its magnitude (when the
   * cursor is not past the end), so the next read returns bytes already read.
   */
  lemma NegativeReadMovesBack(data: Bytes, now: int, n: int)
    requires 0 <= now <= |data| && n < -1
    ensures now + ReadSize(|data| - now, n) == now + n
  {
  }

  /** Two reads of `a` then `b` bytes from inside the contents return one read of a + b bytes. */
  lemma ConsecutiveReads(data: Bytes, now: int, a: nat, b: nat)
    requires 0 <= now <= |data|
    ensures var first := ReadSize(|data| - now, a);
            var second := ReadSize(|data| - (now + first), b);
            && first + second == ReadSize(|data| - now, a + b)
            && PySlice(data, now, now + first) + PySlice(data, now + first, now + first + second)
               == PySlice(data, now, now + first + second)
  {
    var first := ReadSize(|data| - now, a);
    var second := ReadSize(|data| - (now + first), b);
    assert data[now..now + first] + data[now + first..now + first + second] == data[now..now + first + second];
  }
}
