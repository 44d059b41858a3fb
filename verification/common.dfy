/** Shared vocabulary of the model: the fixed-width integers of the C# source,
    their wrap-around arithmetic, and the error taxonomy of the reader. */
module Common {

  type u8 = x: int | 0 <= x < 0x100
  type u16 = x: int | 0 <= x < 0x1_0000
  type u32 = x: int | 0 <= x < 0x1_0000_0000
  type u64 = x: int | 0 <= x < 0x1_0000_0000_0000_0000

  const TWO_32: int := 0x1_0000_0000
  const TWO_64: int := 0x1_0000_0000_0000_0000

  /** A .NET string as the sequence of its UTF-16 code units. */
  type Utf16 = seq<u16>

  /** Unchecked `uint` arithmetic: the result is taken modulo 2^32. */
  function Wrap32(x: int): (r: u32)
    ensures 0 <= x < TWO_32 ==> r == x
  {
    x % TWO_32
  }

  /** Unchecked `ulong`/`long` arithmetic on bit patterns: the result is taken modulo 2^64. */
  function Wrap64(x: int): (r: u64)
    ensures 0 <= x < TWO_64 ==> r == x
  {
    x % TWO_64
  }

  /** Unchecked addition of two 64-bit values, `ulong` or `long` alike: on the bit patterns both
      are addition modulo 2^64. Written without `%` so that proofs about running sums stay
      linear; `Add64IsWrap` relates it to `Wrap64`. */
  function Add64(a: u64, b: u64): u64 {
    if a + b < TWO_64 then a + b else a + b - TWO_64
  }

  lemma Add64IsWrap(a: u64, b: u64)
    ensures Add64(a, b) == Wrap64(a + b)
  {
  }

  /** Reducing an intermediate sum modulo 2^64 does not change the final reduction. */
  lemma WrapAdd(a: int, b: int)
    ensures Wrap64(Wrap64(a) + b) == Wrap64(a + b)
  {
  }

  /** `ulong` subtraction, which wraps below zero. */
  function Sub64(a: u64, b: u64): (r: u64)
    ensures b <= a ==> r == a - b
    ensures a < b ==> r == a - b + TWO_64
  {
    Wrap64(a - b)
  }

  /** `ulong` multiplication. */
  function Mul64(a: u64, b: u64): (r: u64)
    ensures a * b < TWO_64 ==> r == a * b
  {
    Wrap64(a * b)
  }

  datatype Option<T> = None | Some(value: T)

  /** The ways the reader can fail. The first group are the exceptions the source throws; the
      second group are conditions under which the source reads or writes memory outside the
      span it was given, which the model reports instead of continuing on garbage. */
  datatype Error =
    | InvalidFormat          // the boot sector does not carry the NTFS signature
    | IoError                // a raw read failed or was short
    | UsaDataMissing         // an update-sequence slot lies outside the record
    | BadFixupSignature      // a sector tail does not hold the update sequence number
    | CorruptRunList         // a data run reaches the end of its span
    | CorruptAttribute       // an attribute header is implausible
    | CorruptRecord          // a FILE record header does not fit its buffer
    | UnsupportedInodeWidth  // a parent reference needs more than 32 bits
    | UninterpretableMft     // the $MFT's own record was rejected
    | MissingBitmap          // the $MFT record has no $BITMAP stream
    | CyclicHierarchy        // the parent chain loops back on the previous node
    | DataNotRetrieved       // an accessor for data the retrieve mode did not capture
    | IndexOutOfRange        // an array or list index the runtime would reject
    | NullReference          // a member access through a null reference
    | DivisionByZero         // an integer division by zero
    | OutOfBounds            // a read the source performs unchecked lies outside its span
    | Overrun                // a write the source performs unchecked lies outside its buffer
    | OutOfFuel              // the parent walk exceeded its step bound

  datatype Result<T> = Ok(value: T) | Err(error: Error) {
    predicate IsFailure() { Err? }
    function PropagateFailure<U>(): Result<U>
      requires Err?
    {
      Err(error)
    }
    function Extract(): T
      requires Ok?
    {
      value
    }
  }

  /** The result of an operation that has no value besides success. */
  datatype Outcome = Pass | Fail(error: Error) {
    predicate IsFailure() { Fail? }
    function PropagateFailure(): Outcome
      requires Fail?
    {
      this
    }
  }
}
