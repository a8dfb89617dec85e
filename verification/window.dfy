/**
 * BinaryWindow (relic/core/lazyio.py): a view of the bytes
 * [start, start + size) of a parent stream, with a cursor of its own.
 *
 * Every read or write first moves the parent's cursor to start + now, then
 * sets `now` from where the parent's cursor ends up.  Reads are clamped to
 * the bytes left in the window; a write that does not fit fails before the
 * parent is touched.
 */
module Window {
  import opened Errors
  import opened Streams

  /**
   * The count BinaryWindow.read passes to the parent, as written: only -1
   * means "everything left", so any other negative count reaches the parent
   * unchanged and the parent then reads to its own end.
   */
  function RequestAsWritten(n: int, remaining: nat): int {
    if n == -1 then remaining else if n > remaining then remaining else n
  }

  /**
   * With the count as written, read(-2) on a window that ends before its
   * parent does returns bytes that lie after the window's end.
   */
  lemma AsWrittenReadsPastWindow(data: Bytes, start: nat, size: nat, now: nat, n: int)
    requires n < -1 && now <= size && start + size < |data|
    ensures |ReadAt(data, start + now, RequestAsWritten(n, size - now))| > size - now
  {
  }

  /** The corrected count: every negative count means "everything left in the window". */
  function ClampRequest(n: int, remaining: nat): (k: nat)
    ensures k <= remaining
    ensures n < 0 ==> k == remaining
    ensures n >= -1 ==> k == RequestAsWritten(n, remaining)
  {
    if n < 0 || n > remaining then remaining else n
  }

  class BinaryWindow {
    const parent: MemoryStream
    const start: nat
    const size: nat
    var now: nat

    constructor (parent: MemoryStream, start: nat, size: nat)
      ensures this.parent == parent && this.start == start && this.size == size
      ensures now == 0
    {
      this.parent := parent;
      this.start := start;
      this.size := size;
      now := 0;
    }

    /** _remaining: the bytes between the cursor and the window's end, none once the cursor is past it. */
    function Remaining(): (r: nat)
      reads this
      ensures r <= size
      ensures now <= size ==> now + r == size
      ensures now >= size ==> r == 0
    {
      if now < size then size - now else 0
    }

    /** tell: the cursor relative to the window's start, not the parent's. */
    function Tell(): (t: nat)
      reads this
      ensures t == now
      ensures t <= size ==> t + Remaining() == size
    {
      now
    }

    method Seek(offset: int, whence: int) returns (r: Result<nat>)
      modifies this`now, parent`pos
      ensures !ValidWhence(whence) ==> r == Err(InvalidWhence(whence))
      ensures whence == SeekSet ==> (r.Ok? <==> offset >= 0) && (r.Ok? ==> r.value == offset)
      ensures whence == SeekCur ==> (r.Ok? <==> old(now) + offset >= 0) && (r.Ok? ==> r.value == old(now) + offset)
      ensures whence == SeekEnd ==> (r.Ok? <==> size - offset >= 0) && (r.Ok? ==> r.value == size - offset)
      ensures ValidWhence(whence) && r.Err? ==> r.error.SeekBeforeWindow?
      ensures r.Err? ==> now == old(now) && parent.pos == old(parent.pos)
      ensures r.Ok? ==> now == r.value && parent.pos == start + now
    {
      var newNow: int;
      if whence == SeekSet {
        newNow := offset;
      } else if whence == SeekCur {
        newNow := offset + now;
      } else if whence == SeekEnd {
        newNow := size - offset;
      } else {
        return Err(InvalidWhence(whence));
      }
      if newNow < 0 {
        return Err(SeekBeforeWindow(newNow));
      }
      var _ := parent.Seek(start + newNow, SeekSet);
      now := newNow;
      r := Ok(now);
    }

    method Read(n: int) returns (r: Result<Bytes>)
      modifies this`now, parent`pos
      ensures parent.pos == start + now
      ensures !parent.readable ==> r == Err(UnsupportedOperation("read")) && now == old(now)
      ensures parent.readable ==> r == Ok(ReadAt(parent.data, start + old(now), ClampRequest(n, old(Remaining()))))
      ensures parent.readable ==> now == old(now) + |r.value|
      // never more than the window has left, and only bytes inside the window
      ensures r.Ok? ==> |r.value| <= old(Remaining())
      ensures r.Ok? ==> forall i :: 0 <= i < |r.value| ==>
                start + old(now) + i < start + size && r.value[i] == parent.data[start + old(now) + i]
      // read-all returns everything left when the window lies inside its parent
      ensures r.Ok? && n < 0 && start + size <= |parent.data| ==> |r.value| == old(Remaining())
      ensures r.Ok? && old(now) >= size ==> r.value == []
    {
      var count := ClampRequest(n, Remaining());
      var _ := Seek(now, SeekSet);
      r := parent.Read(count);
      if r.Ok? {
        now := parent.pos - start;
      }
    }

    method Write(b: Bytes) returns (r: Result<nat>)
      modifies this`now, parent`pos, parent`data
      ensures |b| > old(Remaining()) ==> r == Err(InsufficientSpace(|b|, old(Remaining())))
      ensures |b| > old(Remaining()) ==>
                now == old(now) && parent.pos == old(parent.pos) && parent.data == old(parent.data)
      ensures |b| <= old(Remaining()) && !parent.writable ==>
                r == Err(UnsupportedOperation("write")) && now == old(now) && parent.data == old(parent.data)
      ensures |b| <= old(Remaining()) && parent.writable ==>
                r == Ok(|b|) && parent.data == Overwrite(old(parent.data), start + old(now), b)
                && now == old(now) + |b|
      ensures |b| <= old(Remaining()) ==> parent.pos == start + now
      // a successful write stays inside the window and changes no other byte of the parent
      ensures r.Ok? && b != [] ==> now <= size
      ensures r.Ok? ==> forall i :: 0 <= i < |b| ==> parent.data[start + old(now) + i] == b[i]
      ensures r.Ok? ==> forall i :: 0 <= i < |old(parent.data)| && !(start + old(now) <= i < start + now) ==>
                parent.data[i] == old(parent.data)[i]
    {
      var remaining := Remaining();
      if |b| > remaining {
        return Err(InsufficientSpace(|b|, remaining));
      }
      var _ := Seek(now, SeekSet);
      r := parent.Write(b);
      if r.Ok? {
        now := parent.pos - start;
      }
    }
  }
}
