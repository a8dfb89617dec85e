/**
 * The root stream under every wrapper of relic/core/lazyio.py, and proxy
 * resolution (`get_proxy`).
 *
 * The root stream is modelled on io.BytesIO: a byte sequence and a cursor.
 * Seeking to a negative absolute position fails, relative seeks clamp at 0,
 * a read stops at the end, and a write overwrites or extends the sequence
 * (a gap between the end and the cursor is filled with zero bytes).  The
 * `readable`/`writable` capabilities are those the stream reports; a read or
 * write the stream does not support fails before the cursor moves.
 */
module Streams {
  import opened Errors

  type Byte = b: int | 0 <= b < 256
  type Bytes = seq<Byte>

  /** os.SEEK_SET, os.SEEK_CUR, os.SEEK_END */
  const SeekSet: int := 0
  const SeekCur: int := 1
  const SeekEnd: int := 2

  predicate ValidWhence(whence: int) {
    whence == SeekSet || whence == SeekCur || whence == SeekEnd
  }

  function Max(a: int, b: int): int { if a < b then b else a }
  function Min(a: int, b: int): int { if a < b then a else b }

  function Zeros(n: nat): (z: Bytes)
    ensures |z| == n
    ensures forall i :: 0 <= i < n ==> z[i] == 0
  {
    if n == 0 then [] else Zeros(n - 1) + [0]
  }

  /** Bytes between the cursor and the end of `data` (none when the cursor is past the end). */
  function Available(data: Bytes, pos: nat): nat {
    if pos < |data| then |data| - pos else 0
  }

  /** How many bytes read(n) returns: a negative `n` asks for everything, and no read passes the end. */
  function ReadCount(n: int, available: nat): (k: nat)
    ensures k <= available
    ensures 0 <= n <= available ==> k == n
    ensures n < 0 || n >= available ==> k == available
  {
    if n < 0 || n > available then available else n
  }

  /** The bytes that read(n) returns from a cursor at `pos`. */
  function ReadAt(data: Bytes, pos: nat, n: int): (r: Bytes)
    ensures |r| == ReadCount(n, Available(data, pos))
    ensures forall i :: 0 <= i < |r| ==> pos + i < |data| && r[i] == data[pos + i]
    ensures 0 <= n && pos + n <= |data| ==> r == data[pos..pos + n]
  {
    var k := ReadCount(n, Available(data, pos));
    if k == 0 then [] else data[pos..pos + k]
  }

  /**
   * The contents after write(b) at cursor `at`: `b` replaces the bytes it
   * covers, the sequence grows when `b` ends past the old end, a gap before
   * `at` reads as zeros, and writing nothing changes nothing.
   */
  function Overwrite(data: Bytes, at: nat, b: Bytes): (r: Bytes)
    ensures b == [] ==> r == data
    ensures b != [] ==> |r| == Max(|data|, at + |b|)
    ensures b != [] ==> forall i :: 0 <= i < |r| ==>
              r[i] == (if at <= i < at + |b| then b[i - at] else if i < |data| then data[i] else 0)
  {
    if b == [] then data
    else
      var front := if at <= |data| then data[..at] else data + Zeros(at - |data|);
      var back := if at + |b| < |data| then data[at + |b|..] else [];
      front + b + back
  }

  /** Two consecutive writes at adjacent positions equal one write of their concatenation. */
  lemma OverwriteConcat(data: Bytes, at: nat, a: Bytes, b: Bytes)
    ensures Overwrite(Overwrite(data, at, a), at + |a|, b) == Overwrite(data, at, a + b)
  {
    if a == [] {
      assert a + b == b;
    } else if b == [] {
      assert a + b == a;
    } else {
      var once := Overwrite(data, at, a);
      var twice := Overwrite(once, at + |a|, b);
      var whole := Overwrite(data, at, a + b);
      assert |twice| == |whole|;
      forall i | 0 <= i < |twice| ensures twice[i] == whole[i] {
        if i < at + |a| {
          assert i < |once|;
        }
      }
    }
  }

  /** Two consecutive reads return what one read of their combined length returns. */
  lemma ReadAtSplit(data: Bytes, pos: nat, k: nat, n: int)
    requires k <= Available(data, pos)
    ensures ReadAt(data, pos, k) + ReadAt(data, pos + k, n)
         == ReadAt(data, pos, k + |ReadAt(data, pos + k, n)|)
  {
    var first := ReadAt(data, pos, k);
    var second := ReadAt(data, pos + k, n);
    var whole := ReadAt(data, pos, k + |second|);
    assert Available(data, pos + k) == Available(data, pos) - k;
    assert |first + second| == |whole|;
    forall i | 0 <= i < |whole| ensures (first + second)[i] == whole[i] {
      if i >= k {
        assert second[i - k] == data[pos + k + (i - k)];
      }
    }
  }

  /** Reads from the same cursor that return the same number of bytes return the same bytes. */
  lemma ReadAtSameLength(data: Bytes, pos: nat, n: int, m: int)
    requires |ReadAt(data, pos, n)| == |ReadAt(data, pos, m)|
    ensures ReadAt(data, pos, n) == ReadAt(data, pos, m)
  {
    var a, b := ReadAt(data, pos, n), ReadAt(data, pos, m);
    assert forall i :: 0 <= i < |a| ==> a[i] == b[i];
  }

  /** Python's normalisation of a slice bound: negative counts from the end, then clamp to [0, len]. */
  function PyIndex(i: int, len: nat): (k: nat)
    ensures k <= len
    ensures 0 <= i <= len ==> k == i
    ensures i > len ==> k == len
    ensures i < 0 ==> k == Max(i + len, 0)
  {
    if i < 0 then (if i + len < 0 then 0 else i + len)
    else if i > len then len
    else i
  }

  /** s[i:j] with Python's slice semantics. */
  function PySlice(s: Bytes, i: int, j: int): (r: Bytes)
    ensures 0 <= i <= j <= |s| ==> r == s[i..j]
    ensures |r| <= |s|
    ensures 0 <= i <= j ==> |r| <= j - i
  {
    var a, b := PyIndex(i, |s|), PyIndex(j, |s|);
    if a < b then s[a..b] else []
  }

  /** An in-memory stream with BytesIO semantics. */
  class MemoryStream {
    var data: Bytes
    var pos: nat
    const readable: bool
    const writable: bool

    constructor (initial: Bytes, readable: bool, writable: bool)
      ensures data == initial && pos == 0
      ensures this.readable == readable && this.writable == writable
    {
      data := initial;
      pos := 0;
      this.readable := readable;
      this.writable := writable;
    }

    function Tell(): nat
      reads this
    {
      pos
    }

    method Seek(offset: int, whence: int) returns (r: Result<nat>)
      modifies this`pos
      ensures r.Ok? <==> ValidWhence(whence) && !(whence == SeekSet && offset < 0)
      ensures r.Ok? ==> r.value == pos
      ensures r.Err? ==> pos == old(pos)
      ensures whence == SeekSet && offset < 0 ==> r == Err(NegativeSeekValue(offset))
      ensures !ValidWhence(whence) ==> r == Err(InvalidWhence(whence))
      ensures whence == SeekSet && offset >= 0 ==> pos == offset
      ensures whence == SeekCur ==> pos == Max(old(pos) + offset, 0)
      ensures whence == SeekEnd ==> pos == Max(|data| + offset, 0)
    {
      if whence == SeekSet && offset < 0 {
        return Err(NegativeSeekValue(offset));
      }
      var target: int;
      if whence == SeekSet {
        target := offset;
      } else if whence == SeekCur {
        target := pos + offset;
      } else if whence == SeekEnd {
        target := |data| + offset;
      } else {
        return Err(InvalidWhence(whence));
      }
      pos := if target < 0 then 0 else target;
      r := Ok(pos);
    }

    method Read(n: int) returns (r: Result<Bytes>)
      modifies this`pos
      ensures !readable ==> r == Err(UnsupportedOperation("read")) && pos == old(pos)
      ensures readable ==> r == Ok(ReadAt(data, old(pos), n))
      ensures readable ==> pos == old(pos) + |r.value|
    {
      if !readable {
        return Err(UnsupportedOperation("read"));
      }
      var b := ReadAt(data, pos, n);
      pos := pos + |b|;
      r := Ok(b);
    }

    method Write(b: Bytes) returns (r: Result<nat>)
      modifies this`data, this`pos
      ensures !writable ==> r == Err(UnsupportedOperation("write"))
      ensures !writable ==> data == old(data) && pos == old(pos)
      ensures writable ==> r == Ok(|b|)
      ensures writable ==> data == Overwrite(old(data), old(pos), b) && pos == old(pos) + |b|
    {
      if !writable {
        return Err(UnsupportedOperation("write"));
      }
      data := Overwrite(data, pos, b);
      pos := pos + |b|;
      r := Ok(|b|);
    }
  }

  /**
   * A stream-like object: either a stream, or a proxy that forwards to
   * another stream-like object.  Chains are finite by construction.
   */
  datatype Proxied<S> = Concrete(stream: S) | Proxy(target: Proxied<S>)

  function Depth<S>(p: Proxied<S>): nat {
    match p
    case Concrete(_) => 0
    case Proxy(t) => 1 + Depth(t)
  }

  /** `s` behind `n` proxies. */
  function Nest<S>(s: S, n: nat): Proxied<S> {
    if n == 0 then Concrete(s) else Proxy(Nest(s, n - 1))
  }

  /** get_proxy: follow the proxies to the stream at the end of the chain. */
  function GetProxy<S>(p: Proxied<S>): (s: S)
    ensures p == Nest(s, Depth(p))
  {
    match p
    case Concrete(s) => s
    case Proxy(t) => GetProxy(t)
  }

  /** Wrapping a stream in any number of proxies does not change what get_proxy resolves to. */
  lemma {:induction false} GetProxyNest<S>(s: S, n: nat)
    ensures GetProxy(Nest(s, n)) == s
    ensures Depth(Nest(s, n)) == n
  {
    if n > 0 {
      GetProxyNest(s, n - 1);
    }
  }
}
