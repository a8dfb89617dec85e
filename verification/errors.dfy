/**
 * Errors shared by every part of the model (relic/core/errors.py).
 *
 * Python raises exceptions; the model returns them as values.  `Error` has
 * one constructor per check that the modelled code performs, so a contract
 * can say exactly which check failed.  `PrintMismatch`, `MismatchError` and
 * `UnboundCommandError` are the message formatters of errors.py.
 */
module Errors {

  datatype Option<+T> = None | Some(value: T) {
    function GetOr(default: T): T {
      match this
      case Some(v) => v
      case None => default
    }
  }

  /** The exceptions raised by the modelled operations. */
  datatype Error =
    // ValueError of BytesIO.seek: an absolute seek to a negative position
    | NegativeSeekValue(offset: int)
    // ValueError(whence) of the seek methods
    | InvalidWhence(whence: int)
    // NotImplementedError of BinaryWindow.seek: the new position is before the window
    | SeekBeforeWindow(newNow: int)
    // RelicToolError of BinaryWindow.write
    | InsufficientSpace(requested: nat, remaining: nat)
    // io.UnsupportedOperation / NotImplementedError: read on a non-readable stream,
    // write on a non-writable one, write on a ZLibFileReader
    | UnsupportedOperation(operation: string)
    // RelicToolError of BinarySerializer.read_bytes with exact_size
    | ReadSizeMismatch(expected: int, got: nat)
    // RelicToolError of write_bytes and of CStringOps.pack
    | WriteSizeMismatch(expected: int, got: nat)
    // RelicToolError of CStringOps.pack: the padding does not fill the gap a whole number of times
    | PaddingNotMultiple(size: int, encoded: nat, padding: nat)
    // RelicToolError of _IntOps.read/write when no size is given
    | SizeNotGiven
    // RelicToolError of _IntOps.unpack
    | UnpackSizeMismatch(expected: int, got: nat)
    // RelicToolError of SizedIntOps._validate_args ("Size mismatch!" / "Signed mismatch!")
    | WidthMismatch(width: int, givenSize: int)
    | SignedMismatch(fixedSigned: bool, requestedSigned: bool)
    // OverflowError / ValueError of int.to_bytes
    | IntOverflow(value: int, length: int)
    | NegativeLength(length: int)
    // UnicodeEncodeError of str.encode
    | EncodeFailure(c: char)
    // ZeroDivisionError of read_chunks on bytes with chunk_size 0
    | DivisionByZero
    // RelicToolError of EntrypointRegistry._key2str / _val2keys
    | KeyNotConvertible
    | NoAutoKeyFunc
    // KeyError of a dict lookup or deletion
    | MissingKey(key: string)
    // err_cls(name, read, expected) raised by MagicWord.validate; `errClass` names the class
    | Mismatch(errClass: string, err: MismatchError<seq<int>>)

  datatype Result<+T> = Ok(value: T) | Err(error: Error) {
    predicate IsFailure() { Err? }
    function PropagateFailure<U>(): Result<U> requires Err? { Err(error) }
    function Extract(): T requires Ok? { value }
  }

  datatype Outcome = Pass | Fail(error: Error)

  const MismatchPrefix: string := "Unexpected "

  /**
   * _print_mismatch: `received` and `expected` are the values as str() renders
   * them, and None stands for Python's None.  Only None is absent: a value
   * whose rendering is "False" or "0" is printed like any other.
   */
  function PrintMismatch(name: string, received: Option<string>, expected: Option<string>): (msg: string)
    ensures |msg| > |MismatchPrefix + name|
    ensures msg[..|MismatchPrefix + name|] == MismatchPrefix + name
    ensures msg[|msg| - 1] == '!'
    ensures msg[|MismatchPrefix + name|] == ';' <==> received.Some? || expected.Some?
    ensures received.None? && expected.None? ==> msg == MismatchPrefix + name + "!"
  {
    var head := MismatchPrefix + name;
    var withSemi := if received.Some? || expected.Some? then head + ";" else head;
    var withGot := if received.Some? then withSemi + " got `" + received.value + "`" else withSemi;
    var withComma := if received.Some? && expected.Some? then withGot + "," else withGot;
    var withExpected := if expected.Some? then withComma + " expected `" + expected.value + "`" else withComma;
    withExpected + "!"
  }

  /**
   * The four message shapes, written out one per case (the reference used by
   * the unit tests, which select a format string by which values are present).
   */
  function MismatchShape(name: string, received: Option<string>, expected: Option<string>): string {
    match (received, expected)
    case (None, None) => "Unexpected " + name + "!"
    case (Some(r), None) => "Unexpected " + name + "; got `" + r + "`!"
    case (None, Some(e)) => "Unexpected " + name + "; expected `" + e + "`!"
    case (Some(r), Some(e)) => "Unexpected " + name + "; got `" + r + "`, expected `" + e + "`!"
  }

  /** _print_mismatch produces exactly one of the four shapes, chosen by which values are present. */
  lemma PrintMismatchShapes(name: string, received: Option<string>, expected: Option<string>)
    ensures PrintMismatch(name, received, expected) == MismatchShape(name, received, expected)
  {
    if received.Some? && expected.Some? {
      BothPresentShape(name, received.value, expected.value);
    }
  }

  lemma BothPresentShape(name: string, received: string, expected: string)
    ensures PrintMismatch(name, Some(received), Some(expected)) == MismatchShape(name, Some(received), Some(expected))
  {
    var head := MismatchPrefix + name;
    var got := " got `" + received + "`";
    var exp := " expected `" + expected + "`";
    assert PrintMismatch(name, Some(received), Some(expected)) == head + ";" + got + "," + exp + "!";
    assert head + "; got `" == head + ";" + " got `";
    assert head + ";" + got + "," == head + "; got `" + received + "`,";
    assert head + ";" + got + "," + exp == head + "; got `" + received + "`, expected `" + expected + "`";
  }

  /** A ',' separates the two values, and appears only when both are present. */
  lemma PrintMismatchComma(name: string, received: Option<string>, expected: Option<string>)
    requires ',' !in name
    requires received.Some? ==> ',' !in received.value
    requires expected.Some? ==> ',' !in expected.value
    ensures ',' in PrintMismatch(name, received, expected) <==> received.Some? && expected.Some?
  {
    PrintMismatchShapes(name, received, expected);
  }

  /** A ';' follows the name exactly when at least one value is present. */
  lemma PrintMismatchSemicolon(name: string, received: Option<string>, expected: Option<string>)
    requires ';' !in name
    requires received.Some? ==> ';' !in received.value
    requires expected.Some? ==> ';' !in expected.value
    ensures ';' in PrintMismatch(name, received, expected) <==> received.Some? || expected.Some?
  {
    PrintMismatchShapes(name, received, expected);
  }

  /** MismatchError(name, received, expected); `show` stands for str(). */
  datatype MismatchError<T> = MismatchError(name: string, received: Option<T>, expected: Option<T>) {
    /** __str__ is _print_mismatch of the same three arguments. */
    function Str(show: T -> string): (s: string)
      ensures s == MismatchShape(name, Render(received, show), Render(expected, show))
    {
      PrintMismatchShapes(name, Render(received, show), Render(expected, show));
      PrintMismatch(name, Render(received, show), Render(expected, show))
    }
  }

  function Render<T>(v: Option<T>, show: T -> string): Option<string> {
    match v
    case None => None
    case Some(x) => Some(show(x))
  }

  const UnboundHead: string := "The '"
  const UnboundTail: string := "' command was defined, but not bound to a function."

  /** UnboundCommandError(name) */
  datatype UnboundCommandError = UnboundCommandError(name: string) {
    /** __str__: the name quoted inside a fixed sentence, so it can be read back. */
    function Str(): (s: string)
      ensures |s| == |UnboundHead| + |name| + |UnboundTail|
      ensures s[..|UnboundHead|] == UnboundHead
      ensures s[|UnboundHead|..|UnboundHead| + |name|] == name
      ensures s[|UnboundHead| + |name|..] == UnboundTail
    {
      UnboundHead + name + UnboundTail
    }
  }

  /** Two commands with different names never produce the same message. */
  lemma UnboundMessageInjective(a: UnboundCommandError, b: UnboundCommandError)
    requires a.Str() == b.Str()
    ensures a == b
  {
    assert |a.name| == |b.name|;
    assert a.name == a.Str()[|UnboundHead|..|UnboundHead| + |a.name|];
  }
}
