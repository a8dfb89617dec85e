/**
 * The pure encoders and decoders of BinarySerializer (relic/core/lazyio.py):
 * CStringOps.pack/unpack, _IntOps.pack/unpack and the argument check and
 * pack/unpack of SizedIntOps.
 *
 * Text is encoded as Latin-1: one byte per character, for characters below
 * 256; any other character cannot be encoded.
 */
module Codecs {
  import opened Errors
  import opened Streams

  // ---------------------------------------------------------------- text

  predicate Encodable(s: string) {
    forall i :: 0 <= i < |s| ==> s[i] as int < 256
  }

  /** str.encode: fails on the first character that has no single-byte code. */
  function Encode(s: string): (r: Result<Bytes>)
    ensures r.Ok? <==> Encodable(s)
    ensures r.Ok? ==> |r.value| == |s| && forall i :: 0 <= i < |s| ==> r.value[i] == s[i] as int
    ensures r.Err? ==> r.error.EncodeFailure? && r.error.c in s && r.error.c as int >= 256
  {
    if s == [] then Ok([])
    else if s[0] as int >= 256 then Err(EncodeFailure(s[0]))
    else
      match Encode(s[1..])
      case Err(e) => Err(e)
      case Ok(rest) => Ok([s[0] as int] + rest)
  }

  /** bytes.decode: every byte is a character. */
  function Decode(b: Bytes): (s: string)
    ensures |s| == |b|
    ensures forall i :: 0 <= i < |b| ==> s[i] as int == b[i]
  {
    seq(|b|, i requires 0 <= i < |b| => b[i] as char)
  }

  lemma DecodeEncode(s: string)
    requires Encodable(s)
    ensures Decode(Encode(s).value) == s
  {
    var d := Decode(Encode(s).value);
    assert forall i :: 0 <= i < |s| ==> d[i] as int == s[i] as int;
  }

  lemma DecodeAppend(a: Bytes, b: Bytes)
    ensures Decode(a + b) == Decode(a) + Decode(b)
  {
    var d := Decode(a + b);
    assert forall i :: 0 <= i < |a| + |b| ==> d[i] == (Decode(a) + Decode(b))[i];
  }

  /** str.lstrip(chars): drop leading characters that occur in `chars`. */
  function LStrip(s: string, chars: string): (r: string)
    ensures |r| <= |s| && r == s[|s| - |r|..]
    ensures r == [] || r[0] !in chars
    ensures forall i :: 0 <= i < |s| - |r| ==> s[i] in chars
  {
    if s != [] && s[0] in chars then LStrip(s[1..], chars) else s
  }

  /** str.rstrip(chars): drop trailing characters that occur in `chars`. */
  function RStrip(s: string, chars: string): (r: string)
    ensures |r| <= |s| && r == s[..|r|]
    ensures r == [] || r[|r| - 1] !in chars
    ensures forall i :: |r| <= i < |s| ==> s[i] in chars
  {
    if s != [] && s[|s| - 1] in chars then RStrip(s[..|s| - 1], chars) else s
  }

  /** str.strip(chars): `chars` is a set of characters, not a sequence to match. */
  function Strip(s: string, chars: string): string {
    RStrip(LStrip(s, chars), chars)
  }

  /** Trailing characters from `chars` are all removed, and nothing before them. */
  lemma {:induction false} RStripPadded(v: string, t: string, chars: string)
    requires forall i :: 0 <= i < |t| ==> t[i] in chars
    requires v == [] || v[|v| - 1] !in chars
    ensures RStrip(v + t, chars) == v
  {
    if t != [] {
      var shorter := t[..|t| - 1];
      assert (v + t)[..|v + t| - 1] == v + shorter;
      RStripPadded(v, shorter, chars);
    } else {
      assert v + t == v;
    }
  }

  lemma StripPadded(v: string, t: string, chars: string)
    requires forall i :: 0 <= i < |t| ==> t[i] in chars
    requires v != [] ==> v[0] !in chars && v[|v| - 1] !in chars
    ensures Strip(v + t, chars) == v
  {
    if v == [] {
      assert v + t == t;
    } else {
      assert (v + t)[0] == v[0];
    }
    RStripPadded(v, t, chars);
  }

  function Repeat<T>(s: seq<T>, n: nat): (r: seq<T>)
    ensures |r| == n * |s|
    ensures forall i :: 0 <= i < |r| ==> r[i] in s
  {
    if n == 0 then [] else s + Repeat(s, n - 1)
  }

  // ------------------------------------------------------------ C strings

  /** The size arguments for which CStringOps.pack succeeds on an encodable value of `len` bytes. */
  predicate PackFits(len: nat, size: Option<int>, padding: Option<string>) {
    || size.None?
    || len == size.value
    || (&& len < size.value && padding.Some? && |padding.value| > 0
        && Encodable(padding.value) && (size.value - len) % |padding.value| == 0)
  }

  /**
   * CStringOps.pack: the encoding, padded up to `size` with whole copies of
   * the encoded padding; anything that cannot reach exactly `size` bytes fails.
   */
  function CStringPack(v: string, size: Option<int>, padding: Option<string>): (r: Result<Bytes>)
    ensures size.None? ==> r == Encode(v)
    ensures r.Ok? <==> Encodable(v) && PackFits(|v|, size, padding)
    ensures r.Ok? && size.Some? ==> |r.value| == size.value
    ensures r.Ok? ==> |v| <= |r.value| && r.value[..|v|] == Encode(v).value
    ensures r.Ok? ==> forall i :: |v| <= i < |r.value| ==> padding.Some? && (r.value[i] as char) in padding.value
    ensures r.Ok? && size.Some? && |v| < size.value ==>
              && padding.Some? && |padding.value| > 0 && Encode(padding.value).Ok?
              && r.value[|v|..] == Repeat(Encode(padding.value).value, (size.value - |v|) / |padding.value|)
    ensures Encodable(v) && size.Some? && |v| != size.value
            && (|v| > size.value || padding.None? || padding.value == []) ==>
              r == Err(WriteSizeMismatch(size.value, |v|))
    ensures Encodable(v) && size.Some? && |v| < size.value && padding.Some? && padding.value != []
            && Encodable(padding.value) && (size.value - |v|) % |padding.value| != 0 ==>
              r == Err(PaddingNotMultiple(size.value, |v|, |padding.value|))
  {
    match Encode(v)
    case Err(e) => Err(e)
    case Ok(buffer) =>
      if size.None? then Ok(buffer)
      else if |buffer| < size.value && padding.Some? && |padding.value| > 0 then
        match Encode(padding.value)
        case Err(e) => Err(e)
        case Ok(padBuffer) =>
          var gap := size.value - |buffer|;
          if gap % |padBuffer| != 0 then Err(PaddingNotMultiple(size.value, |buffer|, |padBuffer|))
          else
            var tail := Repeat(padBuffer, gap / |padBuffer|);
            assert forall i :: 0 <= i < |tail| ==> (tail[i] as char) in padding.value by {
              forall i | 0 <= i < |tail| ensures (tail[i] as char) in padding.value {
                var j :| 0 <= j < |padBuffer| && padBuffer[j] == tail[i];
                assert padding.value[j] == tail[i] as char;
              }
            }
            assert (buffer + tail)[|v|..] == tail;
            Ok(buffer + tail)
      else if |buffer| != size.value then Err(WriteSizeMismatch(size.value, |buffer|))
      else Ok(buffer)
  }

  /**
   * CStringOps.unpack: decode, then strip the padding characters from both
   * ends.  What the strip removes (exactly the leading and trailing padding
   * characters) is stated by the contracts of LStrip and RStrip.
   */
  function CStringUnpack(b: Bytes, padding: Option<string>): (r: string)
    ensures padding.None? ==> r == Decode(b)
    ensures padding.Some? ==> |r| <= |b| && (r == [] || (r[0] !in padding.value && r[|r| - 1] !in padding.value))
  {
    var value := Decode(b);
    if padding.Some? then Strip(value, padding.value) else value
  }

  /**
   * unpack(pack(v, size, padding), padding) == v, whenever pack succeeds and
   * v neither starts nor ends with a padding character.
   */
  lemma CStringRoundTrip(v: string, size: Option<int>, padding: Option<string>)
    requires CStringPack(v, size, padding).Ok?
    requires padding.Some? && v != [] ==> v[0] !in padding.value && v[|v| - 1] !in padding.value
    ensures CStringUnpack(CStringPack(v, size, padding).value, padding) == v
  {
    var packed := CStringPack(v, size, padding).value;
    var tail := packed[|v|..];
    DecodePacked(v, packed, tail);
    if padding.Some? {
      PaddingDecodes(packed, |v|, padding.value);
      StripPadded(v, Decode(tail), padding.value);
    } else {
      assert tail == [];
      assert v + Decode(tail) == v;
    }
  }

  /** A packed value decodes to the value followed by the decoded padding. */
  lemma DecodePacked(v: string, packed: Bytes, tail: Bytes)
    requires Encodable(v) && |v| <= |packed| && packed[..|v|] == Encode(v).value && tail == packed[|v|..]
    ensures Decode(packed) == v + Decode(tail)
  {
    var encoded := Encode(v).value;
    assert packed == encoded + tail;
    DecodeAppend(encoded, tail);
    DecodeEncode(v);
  }

  /** Bytes that are all padding characters decode to padding characters. */
  lemma PaddingDecodes(packed: Bytes, from: nat, padding: string)
    requires from <= |packed|
    requires forall i :: from <= i < |packed| ==> (packed[i] as char) in padding
    ensures forall i :: 0 <= i < |Decode(packed[from..])| ==> Decode(packed[from..])[i] in padding
  {
    var text := Decode(packed[from..]);
    forall i | 0 <= i < |text| ensures text[i] in padding {
      assert text[i] == packed[from + i] as char;
    }
  }

  // ------------------------------------------------------------- integers

  datatype ByteOrder = Little | Big

  function Pow256(n: nat): (p: nat)
    ensures p >= 1
    ensures n > 0 ==> p % 2 == 0
  {
    if n == 0 then 1 else 256 * Pow256(n - 1)
  }

  /** The `n` least significant base-256 digits of `v`, least significant first. */
  function ToLE(v: nat, n: nat): (b: Bytes)
    ensures |b| == n
  {
    if n == 0 then [] else [v % 256] + ToLE(v / 256, n - 1)
  }

  /** The number whose base-256 digits, least significant first, are `b`. */
  function FromLE(b: Bytes): (v: nat)
    ensures v < Pow256(|b|)
  {
    if b == [] then 0
    else
      var rest := FromLE(b[1..]);
      assert rest <= Pow256(|b| - 1) - 1;
      b[0] + 256 * rest
  }

  lemma {:induction false} FromLEToLE(v: nat, n: nat)
    requires v < Pow256(n)
    ensures FromLE(ToLE(v, n)) == v
  {
    if n > 0 {
      var b := ToLE(v, n);
      assert b[1..] == ToLE(v / 256, n - 1);
      FromLEToLE(v / 256, n - 1);
    }
  }

  lemma {:induction false} ToLEFromLE(b: Bytes)
    ensures ToLE(FromLE(b), |b|) == b
  {
    if b != [] {
      var rest := FromLE(b[1..]);
      var v := b[0] + 256 * rest;
      assert v % 256 == b[0] && v / 256 == rest;
      ToLEFromLE(b[1..]);
      assert ToLE(v, |b|) == [b[0]] + ToLE(rest, |b| - 1);
    }
  }

  function Reverse<T>(s: seq<T>): (r: seq<T>)
    ensures |r| == |s|
    ensures forall i :: 0 <= i < |s| ==> r[i] == s[|s| - 1 - i]
  {
    seq(|s|, i requires 0 <= i < |s| => s[|s| - 1 - i])
  }

  /** Little-endian digits in the given byte order. */
  function InOrder(le: Bytes, order: ByteOrder): (r: Bytes)
    ensures |r| == |le|
    ensures order == Little ==> r == le
    ensures order == Big ==> forall i :: 0 <= i < |le| ==> r[i] == le[|le| - 1 - i]
  {
    if order == Little then le else Reverse(le)
  }

  /** Reordering is its own inverse, so the same function converts both ways. */
  lemma InOrderInvolution(le: Bytes, order: ByteOrder)
    ensures InOrder(InOrder(le, order), order) == le
  {
    var back := InOrder(InOrder(le, order), order);
    assert forall i :: 0 <= i < |le| ==> back[i] == le[i];
  }

  /** The values int.to_bytes can write in `length` bytes (two's complement when signed). */
  predicate Representable(v: int, length: nat, signed: bool) {
    if !signed then 0 <= v < Pow256(length)
    else if length == 0 then v == 0
    else -(Pow256(length) / 2) <= v < Pow256(length) / 2
  }

  /** The unsigned number whose digits encode `v` in two's complement. */
  function Unsigned(v: int, length: nat): int {
    if v < 0 then v + Pow256(length) else v
  }

  /** int.to_bytes(length, byteorder, signed=signed) */
  function IntPack(v: int, length: int, order: ByteOrder, signed: bool): (r: Result<Bytes>)
    ensures r.Ok? <==> length >= 0 && Representable(v, length, signed)
    ensures r.Ok? ==> |r.value| == length
    ensures length < 0 ==> r == Err(NegativeLength(length))
    ensures length >= 0 && !Representable(v, length, signed) ==> r == Err(IntOverflow(v, length))
  {
    if length < 0 then Err(NegativeLength(length))
    else if !Representable(v, length, signed) then Err(IntOverflow(v, length))
    else Ok(InOrder(ToLE(Unsigned(v, length), length), order))
  }

  /** int.from_bytes(b, byteorder, signed=signed) */
  function FromBytes(b: Bytes, order: ByteOrder, signed: bool): (v: int)
    ensures Representable(v, |b|, signed)
  {
    var u := FromLE(InOrder(b, order));
    if signed && |b| > 0 && u >= Pow256(|b|) / 2 then u - Pow256(|b|) else u
  }

  /** _IntOps.unpack: the length, when given, must match. */
  function IntUnpack(b: Bytes, length: Option<int>, order: ByteOrder, signed: bool): (r: Result<int>)
    ensures r.Ok? <==> length.None? || |b| == length.value
    ensures r.Err? ==> r == Err(UnpackSizeMismatch(length.value, |b|))
    ensures r.Ok? ==> Representable(r.value, |b|, signed)
  {
    if length.Some? && |b| != length.value then Err(UnpackSizeMismatch(length.value, |b|))
    else Ok(FromBytes(b, order, signed))
  }

  /** Every representable value survives pack then unpack. */
  lemma IntRoundTrip(v: int, length: nat, order: ByteOrder, signed: bool)
    requires Representable(v, length, signed)
    ensures IntPack(v, length, order, signed).Ok?
    ensures IntUnpack(IntPack(v, length, order, signed).value, Some(length), order, signed) == Ok(v)
  {
    var u := Unsigned(v, length);
    assert 0 <= u < Pow256(length);
    var packed := IntPack(v, length, order, signed).value;
    InOrderInvolution(ToLE(u, length), order);
    FromLEToLE(u, length);
  }

  /** Every byte string survives unpack then pack: the encoding is a bijection. */
  lemma BytesRoundTrip(b: Bytes, order: ByteOrder, signed: bool)
    ensures IntPack(FromBytes(b, order, signed), |b|, order, signed) == Ok(b)
  {
    var le := InOrder(b, order);
    ToLEFromLE(le);
    InOrderInvolution(b, order);
    assert Unsigned(FromBytes(b, order, signed), |b|) == FromLE(le);
  }

  /** 920 packed as a signed little-endian 2-byte int is the bytes 0x98 0x03. */
  lemma PackExample()
    ensures IntPack(920, 2, Little, true) == Ok([0x98, 0x03])
  {
    assert Pow256(2) == 65536;
    assert ToLE(3, 1) == [3] + ToLE(0, 0);
    assert ToLE(920, 2) == [0x98] + ToLE(3, 1);
    assert Representable(920, 2, true);
    assert ToLE(Unsigned(920, 2), 2) == [0x98, 0x03];
  }

  // ------------------------------------------------------ fixed-width ints

  /** SizedIntOps: an int codec fixed to one width and one signedness. */
  datatype SizedIntOps = SizedIntOps(size: nat, signed: bool)

  const UInt16: SizedIntOps := SizedIntOps(2, false)
  const Int16: SizedIntOps := SizedIntOps(2, true)
  const UInt32: SizedIntOps := SizedIntOps(4, false)
  const Int32: SizedIntOps := SizedIntOps(4, true)

  /** _validate_args: a size override must equal the width, and `signed` must equal the fixed signedness. */
  function ValidateArgs(ops: SizedIntOps, size: Option<int>, signed: bool): (r: Outcome)
    ensures r.Pass? <==> (size.None? || size.value == ops.size) && signed == ops.signed
    ensures size.Some? && size.value != ops.size ==> r == Fail(WidthMismatch(ops.size, size.value))
    ensures (size.None? || size.value == ops.size) && signed != ops.signed ==>
              r == Fail(SignedMismatch(ops.signed, signed))
  {
    if size.Some? && size.value != ops.size then Fail(WidthMismatch(ops.size, size.value))
    else if signed != ops.signed then Fail(SignedMismatch(ops.signed, signed))
    else Pass
  }

  /** The *_le / *_be accessors pass signed=False, so on a signed width they always fail. */
  lemma SignedWidthRejectsDefault(ops: SizedIntOps, size: Option<int>)
    requires ops.signed
    ensures ValidateArgs(ops, size, false).Fail?
  {
  }

  /** SizedIntOps.pack: validate, then to_bytes at the fixed width and signedness. */
  function SizedPack(ops: SizedIntOps, v: int, length: Option<int>, order: ByteOrder, signed: bool): (r: Result<Bytes>)
    ensures ValidateArgs(ops, length, signed).Fail? ==> r == Err(ValidateArgs(ops, length, signed).error)
    ensures r.Ok? <==> ValidateArgs(ops, length, signed).Pass? && Representable(v, ops.size, ops.signed)
    ensures r.Ok? ==> |r.value| == ops.size
  {
    match ValidateArgs(ops, length, signed)
    case Fail(e) => Err(e)
    case Pass => IntPack(v, ops.size, order, ops.signed)
  }

  /** SizedIntOps.unpack: validate, then from_bytes with the fixed signedness (the length of `b` is not checked). */
  function SizedUnpack(ops: SizedIntOps, b: Bytes, length: Option<int>, order: ByteOrder, signed: bool): (r: Result<int>)
    ensures ValidateArgs(ops, length, signed).Fail? ==> r == Err(ValidateArgs(ops, length, signed).error)
    ensures r.Ok? <==> ValidateArgs(ops, length, signed).Pass?
    ensures r.Ok? ==> Representable(r.value, |b|, ops.signed)
  {
    match ValidateArgs(ops, length, signed)
    case Fail(e) => Err(e)
    case Pass => Ok(FromBytes(b, order, ops.signed))
  }

  lemma SizedRoundTrip(ops: SizedIntOps, v: int, order: ByteOrder)
    requires Representable(v, ops.size, ops.signed)
    ensures SizedPack(ops, v, None, order, ops.signed).Ok?
    ensures SizedUnpack(ops, SizedPack(ops, v, None, order, ops.signed).value, None, order, ops.signed) == Ok(v)
  {
    IntRoundTrip(v, ops.size, order, ops.signed);
  }
}
