/**
  What `ColumnValue::parse` guarantees: widths fixed by the serial type,
  payloads taken from the front of the stream, the two failure kinds, and
  round trips through the value constructors and the inverse encoding.
 */
module ParseProperties {
  import opened ByteOrder
  import opened ColumnValues

  /**
    Parsing follows the width table of the record format: a serial type is
    rejected exactly when the table has no entry for it, a buffer is too short
    exactly when it holds fewer bytes than the table's width, and otherwise
    exactly that width is consumed.
   */
  lemma ParseFollowsWidthTable(serialType: i64, stream: seq<byte>, utf8Lossy: LossyDecoder)
    ensures var r := Parse(serialType, stream, utf8Lossy);
      && (r.Failure? && r.error.InvalidSerialType? <==> ContentWidth(serialType).None?)
      && (r.Success? <==> ContentWidth(serialType).Some? && ContentWidth(serialType).value <= |stream|)
      && (r.Success? ==> r.value.1 == ContentWidth(serialType).value)
      && (r.Failure? && r.error.Truncated? ==> r.error.needed == ContentWidth(serialType).value)
  {
  }

  /** Null, Zero and One occupy no bytes and are decoded whatever the buffer holds. */
  lemma ParseConstants(stream: seq<byte>, utf8Lossy: LossyDecoder)
    ensures Parse(0, stream, utf8Lossy) == Success((Null, 0))
    ensures Parse(8, stream, utf8Lossy) == Success((Zero, 0))
    ensures Parse(9, stream, utf8Lossy) == Success((One, 0))
  {
  }

  /** Serial types 10, 11 and negative values are never valid, whatever the buffer. */
  lemma ParseRejectsInvalidSerialType(serialType: i64, stream: seq<byte>, utf8Lossy: LossyDecoder)
    requires serialType < 0 || serialType == 10 || serialType == 11
    ensures Parse(serialType, stream, utf8Lossy) == Failure(InvalidSerialType(serialType))
  {
  }

  /**
    An even serial type n >= 12 is a blob of the first (n-12)/2 bytes; a buffer
    with fewer bytes is truncated.
   */
  lemma ParseBlob(serialType: i64, stream: seq<byte>, utf8Lossy: LossyDecoder)
    requires serialType >= 12 && serialType % 2 == 0
    ensures var len := (serialType - 12) / 2;
      Parse(serialType, stream, utf8Lossy) ==
        if len <= |stream| then Success((Blob(stream[..len]), len))
        else Failure(Truncated(len, |stream|))
  {
  }

  /**
    An odd serial type n >= 13 is text decoded from exactly the first
    (n-13)/2 bytes, and consumes that many bytes however the decoder repairs
    them; a buffer with fewer bytes is truncated.
   */
  lemma ParseText(serialType: i64, stream: seq<byte>, utf8Lossy: LossyDecoder)
    requires serialType >= 13 && serialType % 2 == 1
    ensures var len := (serialType - 13) / 2;
      Parse(serialType, stream, utf8Lossy) ==
        if len <= |stream| then Success((Text(utf8Lossy(stream[..len])), len))
        else Failure(Truncated(len, |stream|))
  {
  }

  /**
    The decoder only ever shapes the string inside a `Text`: whether parsing
    succeeds, how many bytes it consumes and every non-text value are the
    same for any two decoders.
   */
  lemma ParseIndependentOfDecoder(serialType: i64, stream: seq<byte>, d1: LossyDecoder, d2: LossyDecoder)
    ensures Parse(serialType, stream, d1).Success? <==> Parse(serialType, stream, d2).Success?
    ensures Parse(serialType, stream, d1).Failure? ==>
      Parse(serialType, stream, d1) == Parse(serialType, stream, d2)
    ensures Parse(serialType, stream, d1).Success? ==>
      && Parse(serialType, stream, d1).value.1 == Parse(serialType, stream, d2).value.1
      && (Parse(serialType, stream, d1).value.0.Text? <==> Parse(serialType, stream, d2).value.0.Text?)
      && (!Parse(serialType, stream, d1).value.0.Text? ==>
            Parse(serialType, stream, d1) == Parse(serialType, stream, d2))
  {
  }

  /**
    Only the consumed prefix matters: a buffer that agrees with the parsed one
    on the consumed bytes decodes to the same value and width, whatever
    follows.
   */
  lemma ParseDependsOnlyOnPrefix(serialType: i64, s1: seq<byte>, s2: seq<byte>, utf8Lossy: LossyDecoder)
    requires Parse(serialType, s1, utf8Lossy).Success?
    requires var k := Parse(serialType, s1, utf8Lossy).value.1;
      k <= |s2| && s1[..k] == s2[..k]
    ensures Parse(serialType, s2, utf8Lossy) == Parse(serialType, s1, utf8Lossy)
  {
  }

  /**
    Every decoded non-text value carries exactly the consumed bytes, and its
    own serial type is the one it was decoded with: `Parse` inverts
    `SerialTypeOf`/`Payload`.
   */
  lemma ParseInvertsEncoding(serialType: i64, stream: seq<byte>, utf8Lossy: LossyDecoder)
    requires Parse(serialType, stream, utf8Lossy).Success?
    ensures var (v, k) := Parse(serialType, stream, utf8Lossy).value;
      if v.Text? then
        serialType >= 13 && serialType % 2 == 1 && v.text == utf8Lossy(stream[..k])
      else
        SerialTypeOf(v) == serialType && Payload(v) == stream[..k]
  {
  }

  /**
    Writing a non-text value's payload under its own serial type and parsing
    it back gives the value and the payload's length, whatever follows.
   */
  lemma EncodingInvertsParse(v: ColumnValue, rest: seq<byte>, utf8Lossy: LossyDecoder)
    requires !v.Text?
    requires SerialTypeOf(v) < 0x8000_0000_0000_0000
    ensures Parse(SerialTypeOf(v), Payload(v) + rest, utf8Lossy) == Success((v, |Payload(v)|))
  {
    var stream := Payload(v) + rest;
    assert stream[..|Payload(v)|] == Payload(v);
  }

  /**
    Integer serial types 1-6 and the constants 8 and 9 decode to integers of
    the range their width allows.
   */
  lemma ParsedIntegerInRange(serialType: i64, stream: seq<byte>, utf8Lossy: LossyDecoder)
    requires 1 <= serialType <= 6 || serialType == 8 || serialType == 9
    requires Parse(serialType, stream, utf8Lossy).Success?
    ensures var (v, k) := Parse(serialType, stream, utf8Lossy).value;
      && IntegerValue(v).Some?
      && (k == 0 ==> IntegerValue(v).value == serialType - 8)
      && (k > 0 ==> -SignBit(k) <= IntegerValue(v).value < SignBit(k))
  {
    var (v, k) := Parse(serialType, stream, utf8Lossy).value;
    if k > 0 {
      SignedRange(stream[..k]);
    }
  }

  /**
    `int32` stores x so that serial type 4 parses it back unchanged and its
    signed big-endian reading is x.
   */
  lemma Int32RoundTrip(x: i32, rest: seq<byte>, utf8Lossy: LossyDecoder)
    ensures Parse(4, FromInt32(x).be4 + rest, utf8Lossy) == Success((FromInt32(x), 4))
    ensures IntegerValue(FromInt32(x)) == Some(x as int)
  {
  }

  /** Conversely, every 4-byte `Int32` is the `int32` of its signed reading. */
  lemma Int32Surjective(b: Bytes4)
    ensures -0x8000_0000 <= Signed(b) < 0x8000_0000
    ensures FromInt32(Signed(b)) == Int32(b)
  {
    ToSignedSigned(b);
  }

  /** The same round trip for `int8` and serial type 1. */
  lemma Int8RoundTrip(x: i8, rest: seq<byte>, utf8Lossy: LossyDecoder)
    ensures Parse(1, FromInt8(x).be1 + rest, utf8Lossy) == Success((FromInt8(x), 1))
    ensures IntegerValue(FromInt8(x)) == Some(x as int)
  {
  }

  /** Conversely, every 1-byte `Int8` is the `int8` of its signed reading. */
  lemma Int8Surjective(b: Bytes1)
    ensures -0x80 <= Signed(b) < 0x80
    ensures FromInt8(Signed(b)) == Int8(b)
  {
  }

  /** The bytes of an ASCII string literal, Rust's `b"..."`. */
  function Ascii(s: string): (bs: seq<byte>)
    requires forall i :: 0 <= i < |s| ==> s[i] as int < 128
    ensures |bs| == |s|
    ensures forall i :: 0 <= i < |s| ==> bs[i] == s[i] as int
  {
    seq(|s|, i requires 0 <= i < |s| => s[i] as int)
  }

  /** The decoder's unit tests, for any lossy decoder that leaves ASCII "hello" intact. */
  lemma SourceExamples(utf8Lossy: LossyDecoder)
    requires utf8Lossy(Ascii("hello")) == "hello"
    ensures Parse(0, [], utf8Lossy) == Success((Null, 0))
    ensures Parse(8, Ascii("123"), utf8Lossy) == Success((Zero, 0))
    ensures Parse(9, Ascii("33"), utf8Lossy) == Success((One, 0))
    ensures Parse(14, Ascii("12"), utf8Lossy) == Success((Blob(Ascii("1")), 1))
    ensures Parse(23, Ascii("hellohi"), utf8Lossy) == Success((Text("hello"), 5))
  {
    assert Ascii("12")[..1] == Ascii("1");
    assert Ascii("hellohi")[..5] == Ascii("hello");
  }
}
