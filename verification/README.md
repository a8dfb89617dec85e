# relic core: lazy binary I/O, serialization helpers and entry-point registry

This project models the core of `relic.core` in Dafny and proves properties of the model. The core has four parts:

- **Lazy binary I/O** (`src/relic/core/lazyio.py`):
  - `get_proxy` resolves a chain of stream proxies.
  - `BinaryWindow` is a view of a byte range of a parent stream, with its own cursor.
  - `BinarySerializer` reads and writes raw bytes at absolute offsets, with an optional read cache. It also has typed accessors:
    - C strings (`CStringOps`);
    - ints of a given size (`_IntOps`);
    - fixed-width ints (`SizedIntOps`: `uint16`, `int16`, `uint32`, `int32`).
  - `ZLibFileReader` is a read-only cursor over decompressed contents.
  - `read_chunks` splits bytes or a stream into chunks.
  - `chunk_copy` copies a stream into another stream chunk by chunk.
- **Errors** (`src/relic/core/errors.py`): the mismatch message builder `_print_mismatch`, `MismatchError` and `UnboundCommandError`.
- **Serialization** (`src/relic/core/serialization.py`): `MagicWord`, a byte signature that is looked for at a stream's cursor. The lookup can either peek or consume.
- **Entry tools** (`src/relic/core/entrytools.py`): `EntrypointRegistry`, a mapping from string keys to values. It is filled lazily from an entry-point group. It accepts keys that a key function turns into strings.

The model has one module per part:

| file | module | contents |
|---|---|---|
| `errors.dfy` | `Errors` | error values, `Result`/`Outcome`, mismatch messages |
| `streams.dfy` | `Streams` | bytes, Python slicing, an in-memory stream with `io.BytesIO` semantics, proxies |
| `window.dfy` | `Window` | `BinaryWindow` |
| `codecs.dfy` | `Codecs` | the pure pack/unpack functions of the serializer's accessors |
| `serializer.dfy` | `Serializer` | `BinarySerializer` |
| `zlibreader.dfy` | `ZLib` | `ZLibFileReader` |
| `chunks.dfy` | `Chunks` | `read_chunks` and `chunk_copy` |
| `magicword.dfy` | `Serialization` | `MagicWord` |
| `entrytools.dfy` | `EntryTools` | `EntrypointRegistry` |

How the Python is rendered in Dafny:

- Stateful objects are classes whose methods update their fields: the window, the serializer's cache, the zlib reader's cursor, the registry's dictionary, and the stream.
- Pure encoders are functions.
- Loops are methods proved against a specification function. The loops are `read_chunks`, the copy loop of `chunk_copy`, `load_entrypoints` and `auto_register`.
- An exception is an `Err`/`Fail` value carrying an `Error`.
- A stream's `readable()`/`writable()` are flags fixed at construction. Calling `read` or `write` on a stream that lacks the capability fails with `UnsupportedOperation`, as `io.BytesIO` does once it is wrapped read-only or write-only.

Some behaviours of the code are modelled as they are, although they may surprise:

- `ZLibFileReader.seek` has no bounds check. A negative position is accepted. SEEK_END counts *back* from the end by the offset.
- The cache key of `read_bytes` is (offset, size). An exact read that failed caches nothing, but a hit returns the cached bytes whatever `exact_size` now is.
- In `auto_register`, the autoload runs with the first registration even when that key then fails to convert. With no keys, the autoload does not run at all.

## Model

| member | source | states |
|---|---|---|
| Errors.PrintMismatch | src/relic/core/errors.py:29-38 | The message starts with "Unexpected " and the name, and ends with '!'. A ';' follows the name exactly when a received or expected value is present. With neither value it is just "Unexpected {name}!". |
| Errors.PrintMismatchShapes | src/relic/core/errors.py:20-38 | For every name and presence pattern, `_print_mismatch` produces exactly one of the four documented shapes, chosen by which values are present. |
| Errors.PrintMismatchComma | src/relic/core/errors.py:34-35 | When no argument contains ',', the message contains a ',' if and only if both values are present. |
| Errors.PrintMismatchSemicolon | src/relic/core/errors.py:30-31 | When no argument contains ';', the message contains a ';' if and only if at least one value is present. |
| Errors.MismatchError.Str | src/relic/core/errors.py:87-88 | `__str__` is the documented shape for the error's name and the `str()` renderings of its received and expected values. |
| Errors.UnboundCommandError.Str | src/relic/core/errors.py:70-71 | The message is a fixed head, then the command name, then a fixed tail, each at a known position. |
| Errors.UnboundMessageInjective | src/relic/core/errors.py:70-71 | Two errors whose messages are equal are for the same command. |
| Streams.GetProxy | src/relic/core/lazyio.py:27-33 | The object resolved is the stream at the end of the proxy chain: the input is that stream wrapped in exactly Depth proxies. |
| Streams.GetProxyNest | src/relic/core/lazyio.py:29-33 | Wrapping a stream in any number of proxies resolves back to the same stream. |
| Window.BinaryWindow.Remaining | src/relic/core/lazyio.py:160-162 | The bytes left are never more than the window's size. With the cursor inside the window, cursor plus bytes left is the size. Past the end none are left. |
| Window.BinaryWindow.Tell | src/relic/core/lazyio.py:164-165 | The position is the window's own cursor, relative to the window's start. Inside the window, it plus the bytes left is the size. |
| Window.ClampRequest | src/relic/core/lazyio.py:196-205 | The count a window read passes to its parent never exceeds what is left in the window. Every negative count means "the rest". It agrees with the code as written for every count of -1 or more. |
| Window.BinaryWindow.Seek | src/relic/core/lazyio.py:173-194 | SEEK_SET, SEEK_CUR and SEEK_END are taken relative to the window. A target before the window's start fails and changes nothing. An unknown whence fails. On success the parent's cursor is at start + new position. |
| Window.BinaryWindow.Read | src/relic/core/lazyio.py:196-205 | The read returns what the parent holds from start + cursor, clamped to the bytes left in the window. Every byte returned lies inside the window. A read-all returns everything left when the window lies inside its parent. The cursor advances by the bytes read. |
| Window.BinaryWindow.Write | src/relic/core/lazyio.py:213-222 | A write longer than what is left fails before the parent is touched. Otherwise the parent's bytes at start + cursor are overwritten with the buffer, no other byte changes, and the cursor stays inside the window. |
| Codecs.Encode | src/relic/core/lazyio.py:257-260 | Encoding succeeds exactly when every character has a one-byte code. It is then one byte per character; otherwise the error names a character that has no code. |
| Codecs.DecodeEncode | src/relic/core/lazyio.py:243-247 | Decoding an encoded string gives the string back. |
| Codecs.LStrip | src/relic/core/lazyio.py:245-246 | Only leading characters from the strip set are removed, and the result does not start with one. |
| Codecs.RStrip | src/relic/core/lazyio.py:245-246 | Only trailing characters from the strip set are removed, and the result does not end with one. |
| Codecs.StripPadded | src/relic/core/lazyio.py:245-246 | Stripping a value followed by padding characters gives the value back, when the value neither starts nor ends with one. |
| Codecs.CStringPack | src/relic/core/lazyio.py:249-271 | Packing succeeds exactly when the value encodes and can reach the size: equal length, or a shorter value whose gap is a whole number of padding strings. The result then has exactly the requested size, starts with the encoded value and continues with whole copies of the encoded padding, as many as fill the gap. A longer value, or a shorter one without padding, fails with a size mismatch. A gap that is not a whole number of paddings fails with a padding error. |
| Codecs.CStringUnpack | src/relic/core/lazyio.py:242-247 | Without padding it is the plain decoding. With padding the result neither starts nor ends with a padding character. |
| Codecs.CStringRoundTrip | src/relic/core/lazyio.py:242-271 | Unpacking a packed value gives the value back, whenever packing succeeds and the value neither starts nor ends with a padding character. |
| Codecs.FromLEToLE | src/relic/core/lazyio.py:295-299 | Base-256 digits of a number below 256^n read back as that number. |
| Codecs.ToLEFromLE | src/relic/core/lazyio.py:289-293 | Bytes read as a number and written back at the same length are the same bytes. |
| Codecs.InOrderInvolution | src/relic/core/lazyio.py:289-299 | Applying the byte-order conversion twice gives the original bytes, so one function serves for both reading and writing. |
| Codecs.IntPack | src/relic/core/lazyio.py:295-299 | `to_bytes` succeeds exactly when the length is not negative and the value is representable: unsigned in [0, 256^n), or two's complement when signed. The result has the requested length. Otherwise it fails with an overflow or a negative-length error. |
| Codecs.FromBytes | src/relic/core/lazyio.py:289-293 | The decoded number is always representable in the byte count and signedness it was read with. |
| Codecs.IntUnpack | src/relic/core/lazyio.py:289-293 | Unpacking fails exactly when a length is given and differs from the byte count. Otherwise it decodes to a representable value. |
| Codecs.IntRoundTrip | src/relic/core/lazyio.py:289-299 | Every representable value survives pack then unpack at the same length, order and signedness. |
| Codecs.BytesRoundTrip | src/relic/core/lazyio.py:289-299 | Every byte string survives unpack then pack, so the int encoding is a bijection at each width. |
| Codecs.PackExample | tests/unittest/relic/core/test_lazyio.py:126 | 920 as a signed little-endian 2-byte int is the bytes 0x98 0x03. |
| Codecs.ValidateArgs | src/relic/core/lazyio.py:307-315 | Validation passes exactly when the size override (if any) equals the width and `signed` equals the fixed signedness. The width check comes first. |
| Codecs.SignedWidthRejectsDefault | src/relic/core/lazyio.py:328-338 | On a signed width, validation with `signed=False` always fails. |
| Codecs.SizedPack | src/relic/core/lazyio.py:345-349 | Packing succeeds exactly when validation passes and the value is representable at the fixed width and signedness. The result is then exactly the width long. A validation failure is passed on. |
| Codecs.SizedUnpack | src/relic/core/lazyio.py:341-343 | Unpacking succeeds exactly when validation passes, and the value is representable in the bytes given. |
| Codecs.SizedRoundTrip | src/relic/core/lazyio.py:341-349 | A representable value survives the fixed-width pack then unpack. |
| Serializer.ExactReadInRange | src/relic/core/lazyio.py:386-392 | An exact-size read from a readable stream succeeds exactly when the requested range lies inside the stream. It then returns exactly the bytes of that range. |
| Serializer.WriteThenRead | src/relic/core/lazyio.py:385-411 | Bytes written at an offset come back from an exact read of the same length at that offset. |
| Serializer.IntWriteThenRead | src/relic/core/lazyio.py:276-287 | An int written at an offset reads back as the same int. |
| Serializer.CStringWriteThenRead | src/relic/core/lazyio.py:233-240 | A C string written at an offset reads back as the same string, unless it starts or ends with padding. |
| Serializer.CacheInsert | src/relic/core/lazyio.py:395-400 | Storing the bytes a read returned keeps every cache entry equal to what the stream holds. |
| Serializer.BinarySerializer.constructor | src/relic/core/lazyio.py:352-364 | An explicit `cacheable` turns the cache on or off. By default the cache is on exactly for a stream that is readable but not writable. The cache starts empty. |
| Serializer.BinarySerializer.Stream | src/relic/core/lazyio.py:378-380 | The `stream` property is the stream at the end of the proxy chain: the parent is that stream behind exactly Depth proxies. |
| Serializer.BinarySerializer.ReadUncached | src/relic/core/lazyio.py:386-392 | The seek, the read and the exact-size check. On failure the cursor is left where the failing step left it. The contents are untouched. |
| Serializer.BinarySerializer.ReadBytes | src/relic/core/lazyio.py:385-403 | A cache hit returns the cached bytes and does not touch the stream or the cache. A miss reads the stream and, when the cache is on and the read succeeded, stores the result. The cache never disagrees with the stream, so any successful read returns what the stream holds. |
| Serializer.BinarySerializer.RepeatedReadHits | src/relic/core/lazyio.py:394-400 | With the cache on, a read that succeeded is stored, so repeating it is a hit: it returns the same bytes whatever `exact_size` is the second time, and does not move the cursor. |
| Serializer.BinarySerializer.WriteBytes | src/relic/core/lazyio.py:405-411 | A length mismatch fails before any I/O. Otherwise the buffer is written at the offset over the old contents. The result and the new contents and cursor are given for every case. |
| Serializer.BinarySerializer.CStringRead | src/relic/core/lazyio.py:233-236 | The raw read's error, or the unpacked string. A successful read is the unpacking of the stream's bytes at the offset. The cache and the cursor afterwards are those of `read_bytes` (CacheAfter, PosAfterRead): a miss that read successfully is stored, and a hit leaves the stream's cursor where it was. |
| Serializer.BinarySerializer.CStringWrite | src/relic/core/lazyio.py:238-240 | A pack failure writes nothing and leaves the cursor. Otherwise the write goes ahead as `write_bytes` with the size, with the same result, contents and cursor. A successful write leaves the value readable back at the offset. |
| Serializer.BinarySerializer.IntRead | src/relic/core/lazyio.py:276-281 | Without a size it fails and touches nothing. Otherwise it is an exact read then `from_bytes`. A value is returned only when the whole range is present, and it is that range decoded. The cache and the cursor afterwards are those of `read_bytes` (CacheAfter, PosAfterRead): a miss that read successfully is stored, and a hit leaves the stream's cursor where it was. |
| Serializer.BinarySerializer.IntWrite | src/relic/core/lazyio.py:283-287 | Without a size, or when the value is not representable, it fails and touches nothing. Otherwise the encoding is written as `write_bytes` writes it, with the same result, contents and cursor. A successful write decodes back to the value. |
| Serializer.BinarySerializer.SizedRead | src/relic/core/lazyio.py:317-321 | A validation failure touches nothing. Otherwise it is an exact read of the fixed width, decoded with the fixed signedness. The cache and the cursor afterwards are those of `read_bytes` (CacheAfter, PosAfterRead): a miss that read successfully is stored, and a hit leaves the stream's cursor where it was. |
| Serializer.BinarySerializer.SizedWrite | src/relic/core/lazyio.py:323-326 | A validation failure or an unrepresentable value fails and touches nothing. Otherwise the fixed-width encoding is written as `write_bytes` writes it, with the same result, contents and cursor, and it decodes back to the value. |
| Serializer.BinarySerializer.ReadFixedAsWritten | src/relic/core/lazyio.py:328-329 | As written, `read_le`/`read_be` on a signed width always fail with a signedness mismatch and touch nothing. On an unsigned width they work: an exact read of the width decoded unsigned, with the cache and cursor of `read_bytes`. A wrong size override fails with a width mismatch. |
| Serializer.BinarySerializer.ReadFixed | src/relic/core/lazyio.py:328-335 | Corrected `read_le`/`read_be`: only the size is validated (a mismatch touches nothing). The read is exact and decodes with the width's own signedness, with the cache and cursor of `read_bytes`, and a value returned is the stream's range decoded. |
| Serializer.BinarySerializer.WriteFixedAsWritten | src/relic/core/lazyio.py:331-332 | As written, `write_le`/`write_be` on a signed width always fail with a signedness mismatch and write nothing. On an unsigned width they work: an unrepresentable value fails with an overflow and writes nothing, and otherwise the unsigned encoding is written as `write_bytes` writes it and decodes back to the value. |
| Serializer.BinarySerializer.WriteFixed | src/relic/core/lazyio.py:331-338 | Corrected `write_le`/`write_be`: a wrong size override or an unrepresentable value fails and touches nothing. Otherwise the encoding at the width's own signedness is written as `write_bytes` writes it, with the same result, contents and cursor, and it decodes back to the value. |
| ZLib.ReadSize | src/relic/core/lazyio.py:462-467 | A read of -1 covers the whole remainder. Any other count is the smaller of the count and the remainder. |
| ZLib.ZLibFileReader.Remaining | src/relic/core/lazyio.py:442-444 | The cursor plus what remains is the length of the contents, so it is negative past the end. It lies in [0, length] exactly when the cursor does. |
| ZLib.ZLibFileReader.Tell | src/relic/core/lazyio.py:487-488 | The position is the reader's own cursor into the decompressed contents, which may lie outside them. |
| ZLib.ZLibFileReader.Writable | src/relic/core/lazyio.py:490-491 | The reader is never writable. |
| ZLib.ZLibFileReader.Read | src/relic/core/lazyio.py:462-467 | The bytes returned are the Python slice from the old cursor to the new one. From inside the contents, a count of -1 or more reads the next bytes and stays inside, and -1 reads to the end. |
| ZLib.ZLibFileReader.Seek | src/relic/core/lazyio.py:475-485 | SEEK_SET, SEEK_CUR and SEEK_END set the cursor with no bounds check; SEEK_END counts back from the end by the offset. An unknown whence fails. |
| ZLib.ZLibFileReader.Write | src/relic/core/lazyio.py:493-494 | Writing always fails. |
| ZLib.NegativeReadMovesBack | src/relic/core/lazyio.py:462-467 | A count below -1 moves the cursor backwards by its magnitude. |
| ZLib.ConsecutiveReads | src/relic/core/lazyio.py:462-467 | Two consecutive reads return what one read of their combined length returns. |
| Chunks.ConcatAppend | src/relic/core/lazyio.py:585-609 | Joining chunks with one more chunk appends that chunk to the join. |
| Chunks.BytesChunksCover | src/relic/core/lazyio.py:585-593 | The first k chunks over bytes join to the first min(k * chunk_size, size) bytes of the range. |
| Chunks.BytesChunksWhole | src/relic/core/lazyio.py:585-593 | All chunks over bytes join to `stream[start:start + size]`, and none is longer than the chunk size. |
| Chunks.ReadChunksFromBytes | src/relic/core/lazyio.py:585-593 | A chunk size of 0 fails. Otherwise the chunks yielded are the specified chunk sequence, with the defaults of `start` and `size`. |
| Chunks.StreamChunksCover | src/relic/core/lazyio.py:594-609 | The chunks read from a stream join to exactly what one read of the whole request returns. Each is non-empty and at most the chunk size. |
| Chunks.NextChunk | src/relic/core/lazyio.py:599-609 | One turn of the read loop: one chunk read, the remaining size counted down, and progress towards the end of the stream. |
| Chunks.ReadChunksFromStream | src/relic/core/lazyio.py:594-609 | A negative start fails before reading. An unreadable stream fails when something is wanted. Otherwise the chunks are the specified stream chunk sequence, and the cursor ends past them. |
| Chunks.ChunkCopy | src/relic/core/lazyio.py:611-631 | With a stream as input: a negative output start fails before anything changes. A negative input start fails next, with the output already moved to the output start, the input cursor unmoved and nothing written. Otherwise the chunks of the input are written over the output's old contents from the output start, and both cursors end past what was copied. An unreadable input fails with neither cursor moved past its start. An unwritable output fails after the first chunk is read, with nothing written. |
| Chunks.WriteChunk | src/relic/core/lazyio.py:629-631 | Writing one more chunk extends what the output holds from the copy's start by that chunk. |
| Chunks.CopyChunks | src/relic/core/lazyio.py:629-631 | The copy loop leaves the output holding exactly the joined chunks over its old contents, with both cursors past them. A read failure leaves both cursors where they were. A write failure leaves the output and its cursor unchanged, and the input cursor past the first chunk. |
| Chunks.ChunkCopyFromBytes | src/relic/core/lazyio.py:611-631 | With `bytes` as input: a negative output start fails before anything changes. A chunk size of 0 then fails with division by zero, with the output's cursor at the output start and nothing written. An output that cannot be written fails when there is a chunk, with nothing written and the cursor at the output start. Otherwise the joined chunks `read_chunks` yields over the input (with its defaults for start and size) are written over the output's old contents from the output start, and the cursor ends past them. |
| Chunks.CopyBytesChunks | src/relic/core/lazyio.py:627-631 | The copy loop over the chunks of `bytes` leaves the output holding exactly the joined chunks over its old contents from its cursor, or fails with the write error, writing nothing and leaving the cursor where it was. |
| Chunks.BytesChunksJoin | src/relic/core/lazyio.py:585-593 | With a positive chunk size and a non-negative start and size, all chunks over bytes join to `input[start:start + size]`. |
| Chunks.RangeChunksJoin | src/relic/core/lazyio.py:585-593 | With the defaults for a missing start (0) and size (the rest of the bytes), a positive chunk size, and a non-negative start and size, the chunks `read_chunks` yields join to `input[start:start + size]`, which is what the copy from bytes writes. |
| Serialization.NewMagicWord | src/relic/core/serialization.py:8-17 | A word keeps its bytes and name. Its error class defaults to MismatchError. |
| Serialization.MagicWord.Len | src/relic/core/serialization.py:19-20 | The length is that of the expected bytes. |
| Serialization.MagicWord.Equals | src/relic/core/serialization.py:22-26 | Two words are equal exactly when their bytes are. A word equals a bytes value exactly when the bytes match. It is never equal to anything else. |
| Serialization.EqualsEquivalence | src/relic/core/serialization.py:22-26 | Equality between words is reflexive, symmetric and transitive. |
| Serialization.EqualsWordRaw | src/relic/core/serialization.py:22-26 | Comparing with a word is comparing with its bytes, so names and error classes play no part. |
| Serialization.MagicWord.Peek | src/relic/core/serialization.py:29-30 | The bytes read are at most the word's length, and are the stream's bytes from the cursor. |
| Serialization.MagicWord.Read | src/relic/core/serialization.py:28-38 | The read returns the word's length of bytes from the cursor. With `advance` the cursor moves past them; without it the cursor is put back. |
| Serialization.MagicWord.Check | src/relic/core/serialization.py:40-42 | The check is true exactly when the stream holds the signature at the cursor. The cursor moves as with `read`. |
| Serialization.MagicWord.Validate | src/relic/core/serialization.py:44-59 | Validation passes exactly when the stream holds the signature at the cursor. Otherwise the error carries the given or default name and class, the bytes read and the expected bytes. |
| Serialization.MagicWord.PeekMatches | src/relic/core/serialization.py:40-42 | The bytes read equal the signature exactly when the stream holds it at the cursor. |
| Serialization.SignatureThenNext | src/relic/core/serialization.py:28-42 | After a matched signature is consumed, a second word is found next exactly when the two together are found at the first cursor. |
| EntryTools.KeyToStr | src/relic/core/entrytools.py:114-122 | A string key is used as it is, and another key goes through the key function. Conversion fails exactly for a non-string key with no key function. |
| EntryTools.LoadAllKeys | src/relic/core/entrytools.py:131-137 | Loading adds exactly the names of the group to the keys. |
| EntryTools.LoadAllLookup | src/relic/core/entrytools.py:131-140 | After loading, a name of the group maps to the value of its last entry point, and every other key keeps its value. |
| EntryTools.StoreAllLookup | src/relic/core/entrytools.py:154-163 | After storing under a set of keys, each of them holds the value and every other key keeps its old value. |
| EntryTools.RegisterStep | src/relic/core/entrytools.py:160-163 | One more registration stores under one more converted key. |
| EntryTools.FirstFailure | src/relic/core/entrytools.py:159-163 | Every key before the index converts, and the key at the index (if any) does not. |
| EntryTools.SetThenDelete | src/relic/core/entrytools.py:78-91 | Setting an absent key and deleting it again gives back the dictionary. |
| EntryTools.LoadedKeyFindsEntryPoint | src/relic/core/entrytools.py:83-86 | A key that converts to the name of a loaded entry point finds that entry point's value. |
| EntryTools.EntrypointRegistry.constructor | src/relic/core/entrytools.py:59-70 | The registry starts empty, with the group, its entry points, the key functions and the autoload flag as given. |
| EntryTools.EntrypointRegistry.RunAutoload | src/relic/core/entrytools.py:72-76 | The group is loaded the first time only, and the flag is cleared. |
| EntryTools.EntrypointRegistry.LoadEntrypoints | src/relic/core/entrytools.py:131-137 | Each entry point is registered in turn. |
| EntryTools.EntrypointRegistry.RawRegister | src/relic/core/entrytools.py:139-140 | The value is stored under the string as given. |
| EntryTools.EntrypointRegistry.SetItem | src/relic/core/entrytools.py:78-81 | After the autoload, the converted key maps to the value. A key that cannot be converted fails, with the autoload already done. |
| EntryTools.EntrypointRegistry.GetItem | src/relic/core/entrytools.py:83-86 | After the autoload, the value under the converted key is returned. A key that is absent or cannot be converted fails. Nothing else changes. |
| EntryTools.EntrypointRegistry.DelItem | src/relic/core/entrytools.py:88-91 | After the autoload, the converted key is removed. A key that is absent or cannot be converted fails and changes nothing more. |
| EntryTools.EntrypointRegistry.Contains | src/relic/core/entrytools.py:105-108 | After the autoload, it says whether the converted key is present. A key that cannot be converted fails. |
| EntryTools.EntrypointRegistry.Len | src/relic/core/entrytools.py:93-95 | After the autoload, it is the number of keys. |
| EntryTools.EntrypointRegistry.Register | src/relic/core/entrytools.py:142-152 | It is the same as setting the item. |
| EntryTools.EntrypointRegistry.AutoRegister | src/relic/core/entrytools.py:154-163 | Without an auto key function it fails, and with no keys it changes nothing. Otherwise the value is stored under every converted key up to the first that cannot be converted. It passes exactly when all keys convert. |

## Left out

- `BinaryWindow` is modelled over an in-memory stream parent only. A window over another window or another proxy is not modelled.
- `ZLibFile` and the decompression in `ZLibFileReader._data` are not modelled. The reader is given its decompressed contents. The `chunk_size` it decompresses with only affects how it decompresses, so it is not modelled either.
- `BinaryWrapper`'s plain pass-through methods are not modelled: `name`, `close`, `closed`, `fileno`, `flush`, `isatty`, `truncate`, `mode`, iteration and the context manager. The same goes for `readline`, `readlines` and `writelines` on the window and the reader, which raise or forward.
- `tell_end` and `BinaryProxySerializer` are not modelled.
- Closing is I/O and is not modelled. `BinarySerializer` keeps `close_parent` as a field. `BinaryWindow` (which takes `close_parent`, default False) and `ZLibFileReader` (which leaves `BinaryWrapper`'s default, True) drop it, since the model gives them no `close`.
- The branch of `chunk_copy` for a `bytes` output (src/relic/core/lazyio.py:619-626) is not modelled. It assigns chunks into slices of an immutable `bytes` object; only a stream output is modelled.
- Window.BinaryWindow.constructor: `start` and `size` are natural numbers. A negative start or size, which the code accepts without a check, is not modelled.
- Chunks.ChunkCopy: requires two different streams. Copying a stream onto itself, where writes feed later reads, is not modelled.
- Chunks.CopyChunks: requires two different streams, as `Chunks.ChunkCopy` does. The loop of `chunk_copy` over one stream used as both input and output, where each write moves the cursor the next read starts from, is not modelled.
- Serializer.BinarySerializer.constructor: requires a parent that is a stream (not a proxy) when `cacheable` is not given, because the default asks the parent itself for `readable()`/`writable()`.
- `readable()`/`writable()` are flags fixed at construction. Real file objects, and their errors when used the wrong way, are not modelled.
- Text is encoded as Latin-1, one byte per character. Other encodings, and the `encoding` argument, are not modelled.
- `pad_count` and `math.ceil(size / chunk_size)` use Python floats. The model uses exact integer arithmetic. It departs from the code only for sizes so large that the float quotient is rounded.
- Error values stand for the exceptions raised. The text of `RelicToolError` messages is not modelled, and an error class given to `MagicWord` is modelled by its name.
- `MagicWord.__eq__` is modelled against another word, a bytes value, or anything else, which is never equal. A `bytearray` or another buffer equal to the bytes is not modelled.
- `EntrypointRegistry` is given the entry points of its group as a list of (name, loaded value) pairs. Discovery through `importlib.metadata` and `ep.load()` are not modelled.
- `EntrypointRegistry.__iter__` order and `__repr__` are not modelled.
- `cli.py` is not part of this model.

## Findings

| source | as written | input that shows it | evidently intended | confidence | as-written member | corrected member |
|---|---|---|---|---|---|---|
| src/relic/core/lazyio.py:196-205 | `BinaryWindow.read` replaces only n == -1 by the bytes left; any other negative count goes to the parent unchanged | `read(-2)` on a window of size 4 at offset 0 of an 8-byte parent returns 8 bytes, 4 of them past the window | every negative count reads the rest of the window and nothing after it | not executed | Window.AsWrittenReadsPastWindow | Window.BinaryWindow.Read |
| src/relic/core/lazyio.py:328-338 | `read_le`, `write_le`, `read_be` and `write_be` leave `signed` at False, which `_validate_args` rejects on a signed width | `int16.read_le(0)` or `int32.write_le(1, 0)` raise a signedness mismatch | the little- and big-endian shortcuts use the width's own signedness | not executed | Serializer.BinarySerializer.ReadFixedAsWritten | Serializer.BinarySerializer.ReadFixed |
