# SQLite column-value decoder: a Dafny model

This project models the column-value decoder of a small SQLite reader written
in Rust. A record header gives every column a *serial type*. The serial type
alone fixes the column's storage class and how many bytes of the record body
it occupies, as section 2.1 ("Record Format") of the SQLite Database File
Format lays out. `ColumnValue::parse` turns a serial type and the remaining
record body into a typed `ColumnValue` and the number of bytes consumed.
`ColumnValue::int8` and `ColumnValue::int32` build integer values from
machine integers.

Files:

- `byte_order.dfy` (module `ByteOrder`): bytes, Rust's `i8`/`i32`/`i64` as
  subset types, and big-endian two's-complement encoding and decoding, with
  both round trips proved.
- `column_value.dfy` (module `ColumnValues`): the `ColumnValue` datatype,
  `FromInt8`/`FromInt32` (the source's `int8`/`int32`), `Parse`, and three
  independent reference definitions. `ContentWidth` is the record format's
  width table. `SerialTypeOf` and `Payload` are the encoding direction.
  `IntegerValue` is the numeric reading of integer columns.
- `parse_properties.dfy` (module `ParseProperties`): the properties of
  `Parse`, proved for all inputs.

Modelling decisions:

- Integer and float variants hold fixed-length byte sequences, one subset
  type per width (`Bytes1` … `Bytes8`), like the Rust arrays `[u8; N]`.
  `Float64` keeps its 8 raw bytes and is never interpreted.
- The source panics on a reserved or invalid serial type and on a slice past
  the end of the buffer. The model returns `Failure` for both, with
  two distinct errors: `InvalidSerialType(n)` and `Truncated(needed, available)`.
  Here the model follows the code's branches. Where the code would abort the
  process, the model gives an explicit failure instead.
- `String::from_utf8_lossy` is a parameter of `Parse` of type
  `LossyDecoder = seq<byte> -> string`. `Text` holds the decoded string, as
  the Rust `Text(String)` does. Every property except the text content holds
  for every decoder (`ParseIndependentOfDecoder`).
- The serial type is an `i64`, as in the source. Rust's `%` truncates
  toward zero and Dafny's is Euclidean. The two agree here because both
  parity tests sit behind `n >= 12` or `n >= 13`.

## Model

| member | source | states |
|---|---|---|
| ColumnValues.Parse | src/model/column_value.rs:74-104 | on success the consumed count never exceeds the buffer; a truncation failure reports the buffer's length and a larger required width; an invalid-serial-type failure carries the offending serial type |
| ColumnValues.FromInt32 | src/model/column_value.rs:65-67 | `int32(x)` is an `Int32` whose 4 bytes read back, as signed big-endian, to x |
| ColumnValues.FromInt8 | src/model/column_value.rs:68-70 | `int8(x)` is an `Int8` whose byte reads back, as a signed byte, to x |
| ParseProperties.ParseFollowsWidthTable | src/model/column_value.rs:75-102 | parse rejects a serial type exactly when the record format's width table has no entry for it; it succeeds exactly when the buffer holds the tabulated width; it then consumes exactly that width; a truncation names that width as needed |
| ParseProperties.ParseConstants | src/model/column_value.rs:76-85 | serial types 0, 8 and 9 give Null, Zero and One, consuming 0 bytes, for every buffer including the empty one |
| ParseProperties.ParseRejectsInvalidSerialType | src/model/column_value.rs:102 | serial types 10 and 11 and every negative serial type fail as invalid serial types, for every buffer |
| ParseProperties.ParseBlob | src/model/column_value.rs:86-89 | an even serial type n >= 12 gives a Blob of exactly the first (n-12)/2 bytes and consumes (n-12)/2; a shorter buffer is truncated |
| ParseProperties.ParseText | src/model/column_value.rs:90-100 | an odd serial type n >= 13 gives Text decoded from exactly the first (n-13)/2 bytes and consumes (n-13)/2; a shorter buffer is truncated |
| ParseProperties.ParseIndependentOfDecoder | src/model/column_value.rs:90-100 | success, the consumed count, every failure and every non-text value are the same whatever the lossy decoder does |
| ParseProperties.ParseDependsOnlyOnPrefix | src/model/column_value.rs:75-103 | two buffers that agree on the consumed prefix decode to the same value and count; trailing bytes are ignored |
| ParseProperties.ParseInvertsEncoding | src/model/column_value.rs:77-100 | a decoded non-text value has the serial type it was parsed with and carries exactly the consumed bytes; decoded text came from an odd serial type >= 13 and the consumed bytes |
| ParseProperties.EncodingInvertsParse | src/model/column_value.rs:75-100 | writing any non-text value's bytes under its serial type, followed by anything, parses back to that value and its byte count |
| ParseProperties.ParsedIntegerInRange | src/model/column_value.rs:77-85 | serial types 1-6 yield integers within the signed range of their width; 8 and 9 yield the integers 0 and 1 |
| ParseProperties.Int32RoundTrip | src/model/column_value.rs:65-80 | the bytes of `int32(x)` parse under serial type 4 to `int32(x)` with 4 bytes consumed, and the value reads back to x |
| ParseProperties.Int32Surjective | src/model/column_value.rs:65-67 | every 4-byte `Int32` is `int32` of its signed reading, which lies in the i32 range |
| ParseProperties.Int8RoundTrip | src/model/column_value.rs:68-77 | the byte of `int8(x)` parses under serial type 1 to `int8(x)` with 1 byte consumed, and the value reads back to x |
| ParseProperties.Int8Surjective | src/model/column_value.rs:68-70 | every 1-byte `Int8` is `int8` of its signed reading, which lies in the i8 range |
| ParseProperties.SourceExamples | src/model/column_value.rs:107-144 | the five unit tests: `(0, "")` gives `(Null, 0)`, `(8, "123")` gives `(Zero, 0)`, `(9, "33")` gives `(One, 0)`, `(14, "12")` gives `(Blob("1"), 1)`, `(23, "hellohi")` gives `(Text("hello"), 5)` |
| ByteOrder.UnsignedToUnsigned | src/model/column_value.rs:65-70 | reading a big-endian unsigned encoding gives back the encoded number |
| ByteOrder.ToUnsignedUnsigned | src/model/column_value.rs:65-70 | re-encoding the number a byte sequence denotes gives back the sequence |
| ByteOrder.SignedToSigned | src/model/column_value.rs:65-70 | reading a two's-complement big-endian encoding (`to_be_bytes`) gives back the encoded number |
| ByteOrder.ToSignedSigned | src/model/column_value.rs:65-70 | every byte sequence's signed reading is in range, and re-encoding it gives back the sequence |
| ByteOrder.SignedRange | src/model/column_value.rs:5-6 | a signed reading of w bytes lies in [-2^(8w-1), 2^(8w-1)) |
| ByteOrder.SignFromLeadingByte | src/model/column_value.rs:65-70 | the leading byte's top bit is set exactly when the unsigned value reaches 2^(8w-1), which is where two's complement turns negative |

## Left out

- `src/physical/plan/join/exec_join_hash.rs`: the hash join's `execute` is
  `todo!()`, and its output schema comes from DataFusion's
  `build_join_schema`, a foreign library. No join algorithm exists to model.
  The only local check rejects an empty `on` list. The key-comparison policy
  and the join semantics described for the system have no code behind them.
- `src/physical/exec_projection.rs`: `execute` returns its input unchanged
  and ignores its expressions. It depends on an `Exec` trait and a DataFusion
  `Expr` that are not part of this model.
- `src/physical/plan/exec_apples_scan.rs` is a hard-coded fixture of four rows.
  `src/physical/plan/exec_dummy.rs` is `todo!()`. Neither is logic.
- Lossy UTF-8 repair: `String::from_utf8_lossy` is a parameter of the model,
  not a definition. Only the fact that it always yields some string, from
  exactly the consumed bytes, is modelled.
- IEEE-754: `Float64` stays 8 raw bytes; no floating-point reading is modelled.
- The `try_into()?` conversions of `(n-12)/2` and `(n-13)/2` from `i64` to
  `usize` are taken to succeed, as they do with a 64-bit `usize`. On a target
  with a narrower `usize` they could return an error. That outcome is not
  modelled.
- Panics are modelled as failures rather than process aborts. The decoder's
  own `Result` has no error path that the model keeps, because every
  `try_into` of a correctly-sized slice succeeds.
- The two failure kinds are not ordered against each other. No input can
  raise both, because a buffer is only sliced after the serial type has been
  accepted.
