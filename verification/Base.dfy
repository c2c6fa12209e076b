/** Bytes, errors and parse results shared by every codec. */
module Base {

  type byte = x: int | 0 <= x < 0x100

  /** A Go string is a byte sequence, so strings and byte slices share this type. */
  type Bytes = seq<byte>

  const MAX_INT64 := 0x7FFF_FFFF_FFFF_FFFF
  const MIN_INT64 := -0x8000_0000_0000_0000

  type int64 = x: int | MIN_INT64 <= x <= MAX_INT64
  type uint64 = x: int | 0 <= x <= 0xFFFF_FFFF_FFFF_FFFF

  /** The sentinel a returned error wraps; the text around it is not modelled. */
  datatype Error =
    | ShortBuffer
    | FrameTooLarge
    | Eof
    | UnexpectedEof
    | MalformedHello
    | IncompatibleVersion
    | MissingRequiredCapability
    | ProtocolViolation
    | BadSignature
    | StaleTimestamp
    | ReplayedNonce
    | UnresolvableDid
    | KeyMismatch
    | BadMultibase
    | BadBudget
    | HandshakeAlreadyCompleted
    | HandshakeNotCompleted

  datatype Result<+T> = Ok(value: T) | Err(error: Error) {
    predicate IsFailure() {
      Err?
    }

    function PropagateFailure<U>(): Result<U>
      requires Err?
    {
      Err(error)
    }

    function Extract(): T
      requires Ok?
    {
      value
    }

    /** Replaces the sentinel of a failure, as wrapping with another sentinel and "%v" does. */
    function OrElse(e: Error): Result<T> {
      if Ok? then this else Err(e)
    }
  }

  datatype Option<+T> = None | Some(value: T)

  /** A decoded value and the number of bytes it took. */
  datatype Parsed<+T> = Parsed(value: T, size: nat)

  /** The chunks joined. */
  function Flatten(chunks: seq<Bytes>): Bytes {
    if chunks == [] then [] else chunks[0] + Flatten(chunks[1..])
  }

  /** Both sequences hold the same first `n` bytes. */
  ghost predicate AgreeOn(a: Bytes, b: Bytes, n: nat) {
    n <= |a| && n <= |b| && a[..n] == b[..n]
  }

  /** The bytes of an ASCII literal. */
  function Ascii(s: string): (b: Bytes)
    ensures |b| == |s|
  {
    seq(|s|, i requires 0 <= i < |s| => s[i] as int % 0x100)
  }

  /** The first index of `c`, or -1. */
  function IndexByte(s: Bytes, c: byte): (i: int)
    ensures -1 <= i < |s|
    ensures i >= 0 ==> s[i] == c && forall j :: 0 <= j < i ==> s[j] != c
    ensures i < 0 ==> c !in s
  {
    if s == [] then -1
    else if s[0] == c then 0
    else
      var k := IndexByte(s[1..], c);
      if k < 0 then -1 else k + 1
  }

  predicate HasPrefix(s: Bytes, prefix: Bytes) {
    prefix <= s
  }
}
