/**
 * BinarySerializer (relic/core/lazyio.py): typed reads and writes at absolute
 * offsets of the stream behind a proxy chain, with an optional cache of raw
 * reads keyed by (offset, size).
 *
 * Every raw read seeks to the offset and reads; every raw write checks the
 * length, seeks and writes.  The typed accessors (C strings, ints, fixed-width
 * ints) validate and encode with the functions of the Codecs module.
 */
module Serializer {
  import opened Errors
  import opened Streams
  import opened Codecs

  type Cache = map<(int, int), Bytes>

  /** What the inner `_read` of read_bytes returns: seek, read, then the exact-size check. */
  function Fetch(data: Bytes, readable: bool, offset: int, size: int, exact: bool): Result<Bytes> {
    if offset < 0 then Err(NegativeSeekValue(offset))
    else if !readable then Err(UnsupportedOperation("read"))
    else
      var b := ReadAt(data, offset, size);
      if exact && |b| != size then Err(ReadSizeMismatch(size, |b|)) else Ok(b)
  }

  /** The stream cursor after `_read`: the seek happens even when the read then fails. */
  function PosAfterFetch(pos: nat, data: Bytes, readable: bool, offset: int, size: int): nat {
    if offset < 0 then pos
    else if !readable then offset
    else offset + |ReadAt(data, offset, size)|
  }

  /** An exact-size read succeeds exactly when the requested range lies inside the stream. */
  lemma ExactReadInRange(data: Bytes, offset: int, size: int)
    requires offset >= 0
    ensures Fetch(data, true, offset, size, true).Ok? <==> size == 0 || (0 < size && offset + size <= |data|)
    ensures Fetch(data, true, offset, size, true).Ok? ==>
              && |Fetch(data, true, offset, size, true).value| == size
              && forall i :: 0 <= i < size ==> Fetch(data, true, offset, size, true).value[i] == data[offset + i]
  {
    assert ReadCount(size, Available(data, offset)) == |ReadAt(data, offset, size)|;
  }

  /** What write_bytes returns: the length check comes before any I/O. */
  function WriteOutcome(writable: bool, offset: int, b: Bytes, size: Option<int>): Result<nat> {
    if size.Some? && |b| != size.value then Err(WriteSizeMismatch(size.value, |b|))
    else if offset < 0 then Err(NegativeSeekValue(offset))
    else if !writable then Err(UnsupportedOperation("write"))
    else Ok(|b|)
  }

  /** The stream contents after write_bytes. */
  function Written(data: Bytes, writable: bool, offset: int, b: Bytes, size: Option<int>): Bytes {
    if WriteOutcome(writable, offset, b, size).Ok? then Overwrite(data, offset, b) else data
  }

  /** The stream cursor after write_bytes. */
  function PosAfterWrite(pos: nat, writable: bool, offset: int, b: Bytes, size: Option<int>): nat {
    if (size.Some? && |b| != size.value) || offset < 0 then pos
    else if !writable then offset
    else offset + |b|
  }

  /** Bytes written at an offset read back, with an exact-size read, as the same bytes. */
  lemma WriteThenRead(data: Bytes, offset: int, b: Bytes, size: Option<int>)
    requires WriteOutcome(true, offset, b, size).Ok?
    ensures Fetch(Written(data, true, offset, b, size), true, offset, |b|, true) == Ok(b)
  {
    var after := Written(data, true, offset, b, size);
    if b != [] {
      assert after[offset..offset + |b|] == b;
    }
  }

  /** A value that to_bytes accepts reads back unchanged from where it was written. */
  lemma IntWriteThenRead(data: Bytes, value: int, offset: int, length: nat, order: ByteOrder, signed: bool)
    requires offset >= 0 && Representable(value, length, signed)
    ensures IntPack(value, length, order, signed).Ok?
    ensures var b := IntPack(value, length, order, signed).value;
            var e := Fetch(Written(data, true, offset, b, Some(length)), true, offset, length, true);
            e.Ok? && IntUnpack(e.value, Some(length), order, signed) == Ok(value)
  {
    IntRoundTrip(value, length, order, signed);
    WriteThenRead(data, offset, IntPack(value, length, order, signed).value, Some(length));
  }

  /** A string that pack accepts reads back unchanged, padding removed, from where it was written. */
  lemma CStringWriteThenRead(data: Bytes, value: string, offset: int, size: int, padding: Option<string>)
    requires offset >= 0 && CStringPack(value, Some(size), padding).Ok?
    requires padding.Some? && value != [] ==> value[0] !in padding.value && value[|value| - 1] !in padding.value
    ensures var b := CStringPack(value, Some(size), padding).value;
            var e := Fetch(Written(data, true, offset, b, Some(size)), true, offset, size, true);
            e.Ok? && CStringUnpack(e.value, padding) == value
  {
    CStringRoundTrip(value, Some(size), padding);
    WriteThenRead(data, offset, CStringPack(value, Some(size), padding).value, Some(size));
  }

  /** Every entry of `c` holds what a read of its (offset, size) returns from `data`. */
  predicate CacheMatches(c: Cache, data: Bytes) {
    forall k :: k in c ==> k.0 >= 0 && c[k] == ReadAt(data, k.0, k.1)
  }

  /** Storing what a fetch returned keeps a matching cache matching. */
  lemma CacheInsert(c: Cache, data: Bytes, readable: bool, offset: int, size: int, exact: bool)
    requires CacheMatches(c, data) && Fetch(data, readable, offset, size, exact).Ok?
    ensures CacheMatches(c[(offset, size) := Fetch(data, readable, offset, size, exact).value], data)
  {
  }

  class BinarySerializer {
    const proxy: Proxied<MemoryStream>
    const closeParent: bool
    var cache: Option<Cache>

    /**
     * __init__: the cache defaults to on for a stream that can be read but
     * not written.  The default asks the parent itself for its capabilities,
     * so it is modelled for a parent that is a stream.
     */
    constructor (proxy: Proxied<MemoryStream>, closeParent: bool, cacheable: Option<bool>)
      requires cacheable.None? ==> proxy.Concrete?
      ensures this.proxy == proxy && this.closeParent == closeParent
      ensures cacheable.Some? ==> (cache.Some? <==> cacheable.value)
      ensures cacheable.None? ==> (cache.Some? <==> proxy.stream.readable && !proxy.stream.writable)
      ensures cache.Some? ==> cache.value == map[]
      ensures CacheValid()
    {
      this.proxy := proxy;
      this.closeParent := closeParent;
      var on := if cacheable.Some? then cacheable.value else proxy.stream.readable && !proxy.stream.writable;
      cache := if on then Some(map[]) else None;
    }

    /** The `stream` property: the stream at the end of the proxy chain. */
    function Stream(): (s: MemoryStream)
      ensures proxy == Nest(s, Depth(proxy))
    {
      GetProxy(proxy)
    }

    /** Every cached entry holds what a read of its (offset, size) returns from the current contents. */
    predicate CacheValid()
      reads this, Stream()
    {
      cache.Some? ==> CacheMatches(cache.value, Stream().data)
    }

    /** What read_bytes returns with cache `c`: a hit skips the stream, and the exact-size check with it. */
    function Lookup(c: Option<Cache>, offset: int, size: int, exact: bool): Result<Bytes>
      reads Stream()
    {
      if c.Some? && (offset, size) in c.value then Ok(c.value[(offset, size)])
      else Fetch(Stream().data, Stream().readable, offset, size, exact)
    }

    /** The cache after read_bytes with cache `c`: a miss that read successfully is stored. */
    function CacheAfter(c: Option<Cache>, offset: int, size: int, exact: bool): Option<Cache>
      reads Stream()
    {
      if c.Some? && (offset, size) in c.value then c
      else
        var e := Fetch(Stream().data, Stream().readable, offset, size, exact);
        if c.Some? && e.Ok? then Some(c.value[(offset, size) := e.value]) else c
    }

    /** The stream cursor after read_bytes with cache `c`: a hit does not touch the stream. */
    function PosAfterRead(c: Option<Cache>, pos: nat, offset: int, size: int): nat
      reads Stream()
    {
      if c.Some? && (offset, size) in c.value then pos
      else PosAfterFetch(pos, Stream().data, Stream().readable, offset, size)
    }

    /**
     * With the cache on, a read that succeeded is served from the cache when
     * repeated: the same bytes come back whatever `exact_size` is asked for
     * the second time, and the cursor is not moved again.
     */
    lemma RepeatedReadHits(c: Option<Cache>, pos: nat, offset: int, size: int, exact: bool, again: bool)
      requires c.Some? && Lookup(c, offset, size, exact).Ok?
      ensures CacheAfter(c, offset, size, exact).Some? && (offset, size) in CacheAfter(c, offset, size, exact).value
      ensures Lookup(CacheAfter(c, offset, size, exact), offset, size, again) == Lookup(c, offset, size, exact)
      ensures PosAfterRead(CacheAfter(c, offset, size, exact), pos, offset, size) == pos
    {
    }

    method ReadUncached(offset: int, size: int, exact: bool) returns (r: Result<Bytes>)
      modifies Stream()`pos
      ensures r == Fetch(Stream().data, Stream().readable, offset, size, exact)
      ensures Stream().pos == PosAfterFetch(old(Stream().pos), Stream().data, Stream().readable, offset, size)
      ensures Stream().data == old(Stream().data)
    {
      var s := Stream();
      var seek := s.Seek(offset, SeekSet);
      if seek.Err? {
        r := Err(seek.error);
      } else {
        r := s.Read(size);
        if r.Ok? && exact && |r.value| != size {
          r := Err(ReadSizeMismatch(size, |r.value|));
        }
      }
      assert s == Stream() && s.data == old(s.data);
    }

    /** read_bytes */
    method ReadBytes(offset: int, size: int, exact: bool) returns (r: Result<Bytes>)
      modifies this`cache, Stream()`pos
      ensures r == Lookup(old(cache), offset, size, exact)
      ensures old(cache).Some? && (offset, size) in old(cache).value ==>
                cache == old(cache) && Stream().pos == old(Stream().pos)
      ensures !(old(cache).Some? && (offset, size) in old(cache).value) ==>
                Stream().pos == PosAfterFetch(old(Stream().pos), Stream().data, Stream().readable, offset, size)
      ensures !(old(cache).Some? && (offset, size) in old(cache).value) ==>
                cache == if old(cache).Some? && r.Ok? then Some(old(cache).value[(offset, size) := r.value]) else old(cache)
      ensures cache == CacheAfter(old(cache), offset, size, exact)
      ensures Stream().pos == PosAfterRead(old(cache), old(Stream().pos), offset, size)
      // the cache never disagrees with the stream, so a hit returns what the stream holds
      ensures old(CacheValid()) ==> CacheValid()
      ensures old(CacheValid()) && r.Ok? ==> offset >= 0 && r.value == ReadAt(Stream().data, offset, size)
    {
      if cache.Some? && (offset, size) in cache.value {
        return Ok(cache.value[(offset, size)]);
      }
      ghost var data := Stream().data;
      r := ReadUncached(offset, size, exact);
      assert Stream().data == data;
      if cache.Some? && r.Ok? {
        if CacheMatches(cache.value, Stream().data) {
          CacheInsert(cache.value, Stream().data, Stream().readable, offset, size, exact);
        }
        cache := Some(cache.value[(offset, size) := r.value]);
      }
    }

    /** write_bytes */
    method WriteBytes(b: Bytes, offset: int, size: Option<int>) returns (r: Result<nat>)
      modifies Stream()`pos, Stream()`data
      ensures r == WriteOutcome(Stream().writable, offset, b, size)
      ensures Stream().data == Written(old(Stream().data), Stream().writable, offset, b, size)
      ensures Stream().pos == PosAfterWrite(old(Stream().pos), Stream().writable, offset, b, size)
      // with a read-only stream the contents, and so the cache, stay valid
      ensures !Stream().writable ==> Stream().data == old(Stream().data)
    {
      if size.Some? && |b| != size.value {
        return Err(WriteSizeMismatch(size.value, |b|));
      }
      var s := Stream();
      var seek := s.Seek(offset, SeekSet);
      if seek.Err? {
        assert WriteOutcome(s.writable, offset, b, size).Err?;
        assert s.data == old(s.data);
        assert Written(old(s.data), s.writable, offset, b, size) == old(s.data);
        return Err(seek.error);
      }
      r := s.Write(b);
    }

    /** CStringOps.read */
    method CStringRead(offset: int, size: int, padding: Option<string>, exact: bool) returns (r: Result<string>)
      modifies this`cache, Stream()`pos
      ensures var e := Lookup(old(cache), offset, size, exact);
              r == if e.Ok? then Ok(CStringUnpack(e.value, padding)) else Err(e.error)
      ensures cache == CacheAfter(old(cache), offset, size, exact)
      ensures Stream().pos == PosAfterRead(old(cache), old(Stream().pos), offset, size)
      ensures old(CacheValid()) ==> CacheValid()
      ensures old(CacheValid()) && r.Ok? ==>
                offset >= 0 && r.value == CStringUnpack(ReadAt(Stream().data, offset, size), padding)
    {
      var buffer := ReadBytes(offset, size, exact);
      if buffer.Err? {
        return Err(buffer.error);
      }
      r := Ok(CStringUnpack(buffer.value, padding));
    }

    /** CStringOps.write: pack to exactly `size` bytes, then write them. */
    method CStringWrite(value: string, offset: int, size: int, padding: Option<string>) returns (r: Result<nat>)
      modifies Stream()`pos, Stream()`data
      ensures var p := CStringPack(value, Some(size), padding);
              && (p.Err? ==> r == Err(p.error) && Stream().data == old(Stream().data) && Stream().pos == old(Stream().pos))
              && (p.Ok? ==> (&& r == WriteOutcome(Stream().writable, offset, p.value, Some(size))
                             && Stream().data == Written(old(Stream().data), Stream().writable, offset, p.value, Some(size))
                             && Stream().pos == PosAfterWrite(old(Stream().pos), Stream().writable, offset, p.value, Some(size))))
      ensures r.Ok? ==> r.value == size && |ReadAt(Stream().data, offset, size)| == size
      // what was written reads back as the value, unless the value itself begins or ends with padding
      ensures r.Ok? && (padding.None? || value == [] || (value[0] !in padding.value && value[|value| - 1] !in padding.value)) ==>
                CStringUnpack(ReadAt(Stream().data, offset, size), padding) == value
    {
      var p := CStringPack(value, Some(size), padding);
      if p.Err? {
        return Err(p.error);
      }
      r := WriteBytes(p.value, offset, Some(size));
      if r.Ok? {
        WriteThenRead(old(Stream().data), offset, p.value, Some(size));
        if padding.None? || value == [] || (value[0] !in padding.value && value[|value| - 1] !in padding.value) {
          CStringWriteThenRead(old(Stream().data), value, offset, size, padding);
        }
      }
    }

    /** _IntOps.read: the size is required, and the read is exact. */
    method IntRead(offset: int, size: Option<int>, order: ByteOrder, signed: bool) returns (r: Result<int>)
      modifies this`cache, Stream()`pos
      ensures size.None? ==> r == Err(SizeNotGiven) && cache == old(cache) && Stream().pos == old(Stream().pos)
      ensures size.Some? ==>
                var e := Lookup(old(cache), offset, size.value, true);
                r == if e.Ok? then IntUnpack(e.value, size, order, signed) else Err(e.error)
      ensures size.Some? ==>
                && cache == CacheAfter(old(cache), offset, size.value, true)
                && Stream().pos == PosAfterRead(old(cache), old(Stream().pos), offset, size.value)
      ensures old(CacheValid()) ==> CacheValid()
      // a value is returned only when the whole range is there, and it is that range decoded
      ensures old(CacheValid()) && r.Ok? ==>
                && size.Some? && offset >= 0 && size.value >= 0 && |ReadAt(Stream().data, offset, size.value)| == size.value
                && r.value == FromBytes(ReadAt(Stream().data, offset, size.value), order, signed)
    {
      if size.None? {
        return Err(SizeNotGiven);
      }
      var buffer := ReadBytes(offset, size.value, true);
      if buffer.Err? {
        return Err(buffer.error);
      }
      r := IntUnpack(buffer.value, size, order, signed);
    }

    /** _IntOps.write: the size is required; to_bytes at that size, then an exact write. */
    method IntWrite(value: int, offset: int, size: Option<int>, order: ByteOrder, signed: bool) returns (r: Result<nat>)
      modifies Stream()`pos, Stream()`data
      ensures size.None? ==> r == Err(SizeNotGiven)
      ensures size.Some? && IntPack(value, size.value, order, signed).Err? ==> r == Err(IntPack(value, size.value, order, signed).error)
      ensures r.Err? && (size.None? || IntPack(value, size.value, order, signed).Err?) ==>
                Stream().data == old(Stream().data) && Stream().pos == old(Stream().pos)
      ensures size.Some? && IntPack(value, size.value, order, signed).Ok? ==>
                var b := IntPack(value, size.value, order, signed).value;
                r == WriteOutcome(Stream().writable, offset, b, size)
                && Stream().data == Written(old(Stream().data), Stream().writable, offset, b, size)
                && Stream().pos == PosAfterWrite(old(Stream().pos), Stream().writable, offset, b, size)
      // what was written decodes back to the value
      ensures r.Ok? ==> (&& size.Some? && offset >= 0 && |ReadAt(Stream().data, offset, size.value)| == size.value
                         && FromBytes(ReadAt(Stream().data, offset, size.value), order, signed) == value)
    {
      if size.None? {
        return Err(SizeNotGiven);
      }
      var p := IntPack(value, size.value, order, signed);
      if p.Err? {
        return Err(p.error);
      }
      r := WriteBytes(p.value, offset, size);
      if r.Ok? {
        IntWriteThenRead(old(Stream().data), value, offset, size.value, order, signed);
      }
    }

    /** SizedIntOps.read: validate, then an exact read of the fixed width (its length is not checked again). */
    method SizedRead(ops: SizedIntOps, offset: int, size: Option<int>, order: ByteOrder, signed: bool) returns (r: Result<int>)
      modifies this`cache, Stream()`pos
      ensures ValidateArgs(ops, size, signed).Fail? ==>
                r == Err(ValidateArgs(ops, size, signed).error) && cache == old(cache) && Stream().pos == old(Stream().pos)
      ensures ValidateArgs(ops, size, signed).Pass? ==>
                var e := Lookup(old(cache), offset, ops.size, true);
                r == if e.Ok? then Ok(FromBytes(e.value, order, ops.signed)) else Err(e.error)
      ensures ValidateArgs(ops, size, signed).Pass? ==>
                && cache == CacheAfter(old(cache), offset, ops.size, true)
                && Stream().pos == PosAfterRead(old(cache), old(Stream().pos), offset, ops.size)
      ensures old(CacheValid()) ==> CacheValid()
      ensures old(CacheValid()) && r.Ok? ==>
                offset >= 0 && r.value == FromBytes(ReadAt(Stream().data, offset, ops.size), order, ops.signed)
    {
      var v := ValidateArgs(ops, size, signed);
      if v.Fail? {
        return Err(v.error);
      }
      var buffer := ReadBytes(offset, ops.size, true);
      if buffer.Err? {
        return Err(buffer.error);
      }
      r := SizedUnpack(ops, buffer.value, None, order, ops.signed);
    }

    /** SizedIntOps.write: validate, to_bytes at the fixed width and signedness, then write. */
    method SizedWrite(ops: SizedIntOps, value: int, offset: int, size: Option<int>, order: ByteOrder, signed: bool)
      returns (r: Result<nat>)
      modifies Stream()`pos, Stream()`data
      ensures ValidateArgs(ops, size, signed).Fail? ==>
                r == Err(ValidateArgs(ops, size, signed).error)
                && Stream().data == old(Stream().data) && Stream().pos == old(Stream().pos)
      ensures ValidateArgs(ops, size, signed).Pass? && !Representable(value, ops.size, ops.signed) ==>
                r == Err(IntOverflow(value, ops.size))
                && Stream().data == old(Stream().data) && Stream().pos == old(Stream().pos)
      ensures ValidateArgs(ops, size, signed).Pass? && Representable(value, ops.size, ops.signed) ==>
                var b := IntPack(value, ops.size, order, ops.signed).value;
                r == WriteOutcome(Stream().writable, offset, b, size)
                && Stream().data == Written(old(Stream().data), Stream().writable, offset, b, size)
                && Stream().pos == PosAfterWrite(old(Stream().pos), Stream().writable, offset, b, size)
      ensures r.Ok? ==> (&& offset >= 0 && |ReadAt(Stream().data, offset, ops.size)| == ops.size
                         && FromBytes(ReadAt(Stream().data, offset, ops.size), order, ops.signed) == value)
    {
      var v := ValidateArgs(ops, size, signed);
      if v.Fail? {
        return Err(v.error);
      }
      var p := SizedPack(ops, value, Some(ops.size), order, ops.signed);
      if p.Err? {
        return Err(p.error);
      }
      r := WriteBytes(p.value, offset, size);
      if r.Ok? {
        IntWriteThenRead(old(Stream().data), value, offset, ops.size, order, ops.signed);
      }
    }

    /**
     * read_le / read_be as written: they leave `signed` at its default False,
     * so on a signed width validation always fails, while an unsigned width
     * reads as SizedIntOps.read does.
     */
    method ReadFixedAsWritten(ops: SizedIntOps, offset: int, size: Option<int>, order: ByteOrder) returns (r: Result<int>)
      modifies this`cache, Stream()`pos
      ensures size.Some? && size.value != ops.size ==>
                r == Err(WidthMismatch(ops.size, size.value)) && cache == old(cache) && Stream().pos == old(Stream().pos)
      ensures ops.signed && (size.None? || size.value == ops.size) ==>
                r == Err(SignedMismatch(true, false)) && cache == old(cache) && Stream().pos == old(Stream().pos)
      ensures !ops.signed && (size.None? || size.value == ops.size) ==>
                var e := Lookup(old(cache), offset, ops.size, true);
                && r == (if e.Ok? then Ok(FromBytes(e.value, order, false)) else Err(e.error))
                && cache == CacheAfter(old(cache), offset, ops.size, true)
                && Stream().pos == PosAfterRead(old(cache), old(Stream().pos), offset, ops.size)
      ensures old(CacheValid()) ==> CacheValid()
    {
      r := SizedRead(ops, offset, size, order, false);
    }

    /** read_le / read_be, passing the width's own signedness so that validation only checks the size. */
    method ReadFixed(ops: SizedIntOps, offset: int, size: Option<int>, order: ByteOrder) returns (r: Result<int>)
      modifies this`cache, Stream()`pos
      ensures size.Some? && size.value != ops.size ==>
                r == Err(WidthMismatch(ops.size, size.value)) && cache == old(cache) && Stream().pos == old(Stream().pos)
      ensures size.None? || size.value == ops.size ==>
                var e := Lookup(old(cache), offset, ops.size, true);
                && r == (if e.Ok? then Ok(FromBytes(e.value, order, ops.signed)) else Err(e.error))
                && cache == CacheAfter(old(cache), offset, ops.size, true)
                && Stream().pos == PosAfterRead(old(cache), old(Stream().pos), offset, ops.size)
      ensures old(CacheValid()) ==> CacheValid()
      ensures old(CacheValid()) && r.Ok? ==>
                offset >= 0 && r.value == FromBytes(ReadAt(Stream().data, offset, ops.size), order, ops.signed)
    {
      r := SizedRead(ops, offset, size, order, ops.signed);
    }

    /**
     * write_le / write_be as written: `signed` stays False, so a signed width
     * always fails validation, while an unsigned width writes as
     * SizedIntOps.write does.
     */
    method WriteFixedAsWritten(ops: SizedIntOps, value: int, offset: int, size: Option<int>, order: ByteOrder)
      returns (r: Result<nat>)
      modifies Stream()`pos, Stream()`data
      ensures size.Some? && size.value != ops.size ==>
                r == Err(WidthMismatch(ops.size, size.value))
                && Stream().data == old(Stream().data) && Stream().pos == old(Stream().pos)
      ensures ops.signed && (size.None? || size.value == ops.size) ==>
                r == Err(SignedMismatch(true, false))
                && Stream().data == old(Stream().data) && Stream().pos == old(Stream().pos)
      ensures !ops.signed && (size.None? || size.value == ops.size) && !Representable(value, ops.size, false) ==>
                r == Err(IntOverflow(value, ops.size))
                && Stream().data == old(Stream().data) && Stream().pos == old(Stream().pos)
      ensures !ops.signed && (size.None? || size.value == ops.size) && Representable(value, ops.size, false) ==>
                var b := IntPack(value, ops.size, order, false).value;
                && r == WriteOutcome(Stream().writable, offset, b, size)
                && Stream().data == Written(old(Stream().data), Stream().writable, offset, b, size)
                && Stream().pos == PosAfterWrite(old(Stream().pos), Stream().writable, offset, b, size)
      ensures r.Ok? ==> (&& !ops.signed && offset >= 0 && |ReadAt(Stream().data, offset, ops.size)| == ops.size
                         && FromBytes(ReadAt(Stream().data, offset, ops.size), order, false) == value)
    {
      r := SizedWrite(ops, value, offset, size, order, false);
    }

    /** write_le / write_be, passing the width's own signedness. */
    method WriteFixed(ops: SizedIntOps, value: int, offset: int, size: Option<int>, order: ByteOrder)
      returns (r: Result<nat>)
      modifies Stream()`pos, Stream()`data
      ensures size.Some? && size.value != ops.size ==>
                r == Err(WidthMismatch(ops.size, size.value))
                && Stream().data == old(Stream().data) && Stream().pos == old(Stream().pos)
      ensures (size.None? || size.value == ops.size) && !Representable(value, ops.size, ops.signed) ==>
                r == Err(IntOverflow(value, ops.size))
                && Stream().data == old(Stream().data) && Stream().pos == old(Stream().pos)
      ensures (size.None? || size.value == ops.size) && Representable(value, ops.size, ops.signed) ==>
                var b := IntPack(value, ops.size, order, ops.signed).value;
                && r == WriteOutcome(Stream().writable, offset, b, size)
                && Stream().data == Written(old(Stream().data), Stream().writable, offset, b, size)
                && Stream().pos == PosAfterWrite(old(Stream().pos), Stream().writable, offset, b, size)
      ensures r.Ok? ==> (&& offset >= 0 && |ReadAt(Stream().data, offset, ops.size)| == ops.size
                         && FromBytes(ReadAt(Stream().data, offset, ops.size), order, ops.signed) == value)
    {
      r := SizedWrite(ops, value, offset, size, order, ops.signed);
    }
  }
}
