/**
  SQLite column values and the serial-type decoder of `src/model/column_value.rs`.

  A record's header gives each column a serial type; the serial type alone
  fixes the column's storage class and how many bytes of the record body it
  occupies (section 2.1, "Record Format", of the SQLite Database File Format).
  `Parse` turns a serial type and the remaining record body into a typed
  `ColumnValue` and the number of bytes it consumed.
 */
module ColumnValues {
  import opened ByteOrder

  type Bytes1 = s: seq<byte> | |s| == 1 witness [0]
  type Bytes2 = s: seq<byte> | |s| == 2 witness [0, 0]
  type Bytes3 = s: seq<byte> | |s| == 3 witness [0, 0, 0]
  type Bytes4 = s: seq<byte> | |s| == 4 witness [0, 0, 0, 0]
  type Bytes6 = s: seq<byte> | |s| == 6 witness [0, 0, 0, 0, 0, 0]
  type Bytes8 = s: seq<byte> | |s| == 8 witness [0, 0, 0, 0, 0, 0, 0, 0]

  /**
    One decoded column. Integer and float variants keep the raw big-endian
    bytes of their fixed width; the IEEE-754 double is never interpreted.
   */
  datatype ColumnValue =
    | Null
    | Int8(be1: Bytes1)
    | Int16(be2: Bytes2)
    | Int24(be3: Bytes3)
    | Int32(be4: Bytes4)
    | Int48(be6: Bytes6)
    | Int64(be8: Bytes8)
    | Float64(ieee: Bytes8)
    | Zero
    | One
    | Blob(bytes: seq<byte>)
    | Text(text: string)

  /**
    Why a column could not be decoded. The decoder panics in both cases; here
    they are kept apart as two failures.
   */
  datatype ParseError =
    | InvalidSerialType(serialType: int)
    | Truncated(needed: nat, available: nat)

  datatype Result<+T> = Success(value: T) | Failure(error: ParseError) {
    predicate IsFailure() {
      Failure?
    }

    function PropagateFailure<U>(): Result<U>
      requires Failure?
    {
      Failure(error)
    }

    function Extract(): T
      requires Success?
    {
      value
    }
  }

  datatype Option<+T> = None | Some(value: T)

  /**
    A lossy UTF-8 decoder: every byte sequence yields some string, malformed
    input being repaired with replacement characters. It is a parameter of
    the model, standing for Rust's `String::from_utf8_lossy`.
   */
  type LossyDecoder = seq<byte> -> string

  /** The first `n` bytes of `stream`; a stream shorter than that is truncated. */
  function Take(stream: seq<byte>, n: nat): Result<seq<byte>>
  {
    if n <= |stream| then Success(stream[..n]) else Failure(Truncated(n, |stream|))
  }

  /** `ColumnValue::int32`: the 4-byte big-endian two's-complement encoding of `x`. */
  function FromInt32(x: i32): (v: ColumnValue)
    ensures v.Int32?
    ensures Signed(v.be4) == x
  {
    SignedToSigned(x, 4);
    Int32(ToSigned(x, 4))
  }

  /** `ColumnValue::int8`: the single two's-complement byte of `x`. */
  function FromInt8(x: i8): (v: ColumnValue)
    ensures v.Int8?
    ensures Signed(v.be1) == x
  {
    SignedToSigned(x, 1);
    Int8(ToSigned(x, 1))
  }

  /**
    `ColumnValue::parse`: decodes the column of the given serial type from the
    front of `stream` and reports how many bytes it consumed. Bytes after
    those are never looked at.
   */
  function Parse(serialType: i64, stream: seq<byte>, utf8Lossy: LossyDecoder): (r: Result<(ColumnValue, nat)>)
    ensures r.Success? ==> r.value.1 <= |stream|
    ensures r.Failure? && r.error.Truncated? ==> r.error.available == |stream| < r.error.needed
    ensures r.Failure? && r.error.InvalidSerialType? ==> r.error.serialType == serialType
  {
    if serialType == 0 then Success((Null, 0))
    else if serialType == 1 then var b :- Take(stream, 1); Success((Int8(b), 1))
    else if serialType == 2 then var b :- Take(stream, 2); Success((Int16(b), 2))
    else if serialType == 3 then var b :- Take(stream, 3); Success((Int24(b), 3))
    else if serialType == 4 then var b :- Take(stream, 4); Success((Int32(b), 4))
    else if serialType == 5 then var b :- Take(stream, 6); Success((Int48(b), 6))
    else if serialType == 6 then var b :- Take(stream, 8); Success((Int64(b), 8))
    else if serialType == 7 then var b :- Take(stream, 8); Success((Float64(b), 8))
    else if serialType == 8 then Success((Zero, 0))
    else if serialType == 9 then Success((One, 0))
    else if serialType >= 12 && serialType % 2 == 0 then
      var len := (serialType - 12) / 2;
      var b :- Take(stream, len);
      Success((Blob(b), len))
    else if serialType >= 13 && serialType % 2 == 1 then
      var len := (serialType - 13) / 2;
      var b :- Take(stream, len);
      Success((Text(utf8Lossy(b)), len))
    else Failure(InvalidSerialType(serialType))
  }

  /**
    The content width of each serial type, as tabulated in section 2.1 of the
    SQLite Database File Format; `None` for the reserved types 10 and 11 and
    for negative values, which the format never uses.
   */
  function ContentWidth(serialType: int): Option<nat>
  {
    if serialType < 0 || serialType == 10 || serialType == 11 then None
    else if serialType <= 4 then Some(serialType)
    else if serialType == 5 then Some(6)
    else if serialType == 6 || serialType == 7 then Some(8)
    else if serialType == 8 || serialType == 9 then Some(0)
    else Some((serialType - 12) / 2)
  }

  /**
    The numeric value of an integer column: the signed big-endian reading of
    its bytes, or 0 and 1 for the constants `Zero` and `One`.
   */
  function IntegerValue(v: ColumnValue): Option<int>
  {
    match v
    case Int8(b) => Some(Signed(b))
    case Int16(b) => Some(Signed(b))
    case Int24(b) => Some(Signed(b))
    case Int32(b) => Some(Signed(b))
    case Int48(b) => Some(Signed(b))
    case Int64(b) => Some(Signed(b))
    case Zero => Some(0)
    case One => Some(1)
    case _ => None
  }

  /**
    The serial type under which a stored (non-text) value is written, the
    inverse direction of `Parse`. Text has no inverse here: lossy decoding
    forgets the source bytes.
   */
  function SerialTypeOf(v: ColumnValue): int
    requires !v.Text?
  {
    match v
    case Null => 0
    case Int8(_) => 1
    case Int16(_) => 2
    case Int24(_) => 3
    case Int32(_) => 4
    case Int48(_) => 5
    case Int64(_) => 6
    case Float64(_) => 7
    case Zero => 8
    case One => 9
    case Blob(b) => 12 + 2 * |b|
  }

  /** The body bytes a stored (non-text) value occupies. */
  function Payload(v: ColumnValue): seq<byte>
    requires !v.Text?
  {
    match v
    case Int8(b) => b
    case Int16(b) => b
    case Int24(b) => b
    case Int32(b) => b
    case Int48(b) => b
    case Int64(b) => b
    case Float64(b) => b
    case Blob(b) => b
    case _ => []
  }
}
