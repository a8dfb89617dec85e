/**
 * MagicWord (relic/core/serialization.py): a fixed byte signature that is
 * looked for at a stream's cursor, either peeked (the cursor is put back) or
 * consumed (the cursor stays after the bytes read).
 *
 * The error class given to the constructor or to `validate` is named by a
 * string; the exception it raises is `Error.Mismatch` carrying that name and
 * the MismatchError(name, read, expected) it is built from.
 */
module Serialization {
  import opened Errors
  import opened Streams

  /** The class the constructor falls back to when no error class is given. */
  const DefaultErrClass: string := "MismatchError"

  /** What `==` may compare a MagicWord with: another word, a bytes value, or anything else. */
  datatype Comparand = Word(word: MagicWord) | Raw(bytes: Bytes) | Other

  /**
   * The stream holds `expected` from the cursor on (an empty signature is
   * found anywhere, even past the end).
   */
  predicate SignatureAt(data: Bytes, pos: nat, expected: Bytes) {
    expected == [] || (pos + |expected| <= |data| && data[pos..pos + |expected|] == expected)
  }

  datatype MagicWord = MagicWord(expected: Bytes, name: string, errClass: string) {

    /** __len__ */
    function Len(): (n: nat)
      ensures n == |expected|
    {
      |expected|
    }

    /**
     * __eq__: only the expected bytes are compared, against another word's
     * or against a raw value; the name and error class play no part.
     */
    function Equals(other: Comparand): (r: bool)
      ensures other.Word? ==> (r <==> other.word.expected == expected)
      ensures other.Raw? ==> (r <==> other.bytes == expected)
      ensures other.Other? ==> !r
    {
      match other
      case Word(w) => expected == w.expected
      case Raw(b) => expected == b
      case Other => false
    }

    /** The bytes read(stream) returns from a readable stream whose cursor is at `pos`. */
    function Peek(data: Bytes, pos: nat): (b: Bytes)
      ensures |b| <= Len()
      ensures forall i :: 0 <= i < |b| ==> pos + i < |data| && b[i] == data[pos + i]
    {
      ReadAt(data, pos, Len())
    }

    /**
     * read: `len(self)` bytes from the cursor; unless `advance`, the cursor
     * is put back where it was.
     */
    method Read(stream: MemoryStream, advance: bool) returns (r: Result<Bytes>)
      modifies stream`pos
      ensures !stream.readable ==> r == Err(UnsupportedOperation("read")) && stream.pos == old(stream.pos)
      ensures stream.readable ==> r == Ok(Peek(stream.data, old(stream.pos)))
      ensures stream.readable && advance ==> stream.pos == old(stream.pos) + |r.value|
      ensures !advance ==> stream.pos == old(stream.pos)
    {
      if advance {
        r := stream.Read(Len());
        return;
      }
      var now := stream.pos;
      r := stream.Read(Len());
      if r.Ok? {
        var _ := stream.Seek(now, SeekSet);
      }
    }

    /** check: whether the bytes read are the signature. */
    method Check(stream: MemoryStream, advance: bool) returns (r: Result<bool>)
      modifies stream`pos
      ensures !stream.readable ==> r == Err(UnsupportedOperation("read")) && stream.pos == old(stream.pos)
      ensures stream.readable ==> r.Ok? && (r.value <==> SignatureAt(stream.data, old(stream.pos), expected))
      ensures stream.readable && advance ==> stream.pos == old(stream.pos) + |Peek(stream.data, old(stream.pos))|
      ensures !advance ==> stream.pos == old(stream.pos)
    {
      var read := Read(stream, advance);
      if read.Err? {
        return Err(read.error);
      }
      PeekMatches(stream.data, if advance then stream.pos - |read.value| else stream.pos);
      r := Ok(read.value == expected);
    }

    /**
     * validate: raise err_cls(name, read, expected) when the bytes read are
     * not the signature; `name` and `errClass` fall back to the word's own.
     */
    method Validate(stream: MemoryStream, advance: bool, name: Option<string>, errClass: Option<string>)
      returns (r: Outcome)
      modifies stream`pos
      ensures !stream.readable ==> r == Fail(UnsupportedOperation("read")) && stream.pos == old(stream.pos)
      ensures stream.readable ==> (r == Pass <==> SignatureAt(stream.data, old(stream.pos), expected))
      ensures stream.readable && r.Fail? ==>
                r.error == Mismatch(errClass.GetOr(this.errClass),
                                    MismatchError(name.GetOr(this.name), Some(Peek(stream.data, old(stream.pos))), Some(expected)))
      ensures stream.readable && advance ==> stream.pos == old(stream.pos) + |Peek(stream.data, old(stream.pos))|
      ensures !advance ==> stream.pos == old(stream.pos)
    {
      var read := Read(stream, advance);
      if read.Err? {
        return Fail(read.error);
      }
      PeekMatches(stream.data, if advance then stream.pos - |read.value| else stream.pos);
      if read.value != expected {
        var n := if name.None? then this.name else name.value;
        var cls := if errClass.None? then this.errClass else errClass.value;
        return Fail(Mismatch(cls, MismatchError(n, Some(read.value), Some(expected))));
      }
      r := Pass;
    }

    /** The bytes read are the signature exactly when the stream holds it from the cursor on. */
    lemma PeekMatches(data: Bytes, pos: nat)
      ensures Peek(data, pos) == expected <==> SignatureAt(data, pos, expected)
    {
      var b := Peek(data, pos);
      if b == expected && expected != [] {
        assert pos < |data|;
        assert data[pos..pos + |expected|] == b;
      }
    }
  }

  /** A word built with the default error class: MagicWord(expected, name). */
  function NewMagicWord(expected: Bytes, name: string): (w: MagicWord)
    ensures w.expected == expected && w.name == name && w.errClass == DefaultErrClass
  {
    MagicWord(expected, name, DefaultErrClass)
  }

  /** Equality between words is an equivalence: reflexive, symmetric and transitive. */
  lemma EqualsEquivalence(a: MagicWord, b: MagicWord, c: MagicWord)
    ensures a.Equals(Word(a))
    ensures a.Equals(Word(b)) == b.Equals(Word(a))
    ensures a.Equals(Word(b)) && b.Equals(Word(c)) ==> a.Equals(Word(c))
  {
  }

  /**
   * A word equals another word exactly when it equals that word's raw
   * signature, so renaming a word or changing its error class keeps it equal.
   */
  lemma EqualsWordRaw(a: MagicWord, b: MagicWord)
    ensures a.Equals(Word(b)) == a.Equals(Raw(b.expected))
    ensures a.Equals(Word(MagicWord(a.expected, b.name, b.errClass)))
  {
  }

  /**
   * Consuming a signature that matched leaves the cursor just past it, so a
   * second word can be looked for right after the first.
   */
  lemma SignatureThenNext(data: Bytes, pos: nat, first: Bytes, second: Bytes)
    requires SignatureAt(data, pos, first)
    ensures SignatureAt(data, pos + |first|, second) <==> SignatureAt(data, pos, first + second)
  {
    if first == [] {
      assert first + second == second;
    } else if second == [] {
      assert first + second == first;
    } else if SignatureAt(data, pos + |first|, second) {
      assert data[pos..pos + |first + second|] == data[pos..pos + |first|] + data[pos + |first|..pos + |first| + |second|];
    }
  }
}
