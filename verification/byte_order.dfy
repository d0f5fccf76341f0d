/**
  Big-endian two's-complement integers over byte sequences.

  This is the arithmetic behind Rust's `to_be_bytes` on `i8`/`i32` and behind
  the signed big-endian integers of SQLite's record format: a value of width
  `w` bytes is stored most significant byte first, negative values as
  `x + 256^w`.
 */
module ByteOrder {

  /** An unsigned 8-bit value, Rust's `u8`. */
  type byte = b: int | 0 <= b < 256

  /** Rust's fixed-width signed integer types. */
  type i8 = x: int | -0x80 <= x < 0x80
  type i32 = x: int | -0x8000_0000 <= x < 0x8000_0000
  type i64 = x: int | -0x8000_0000_0000_0000 <= x < 0x8000_0000_0000_0000

  /** 256 raised to the n-th power: the number of distinct n-byte sequences. */
  function Pow256(n: nat): (r: nat)
    ensures r >= 1
  {
    if n == 0 then 1 else 256 * Pow256(n - 1)
  }

  /** Half the range of a `width`-byte integer: the first value whose top bit is set. */
  function SignBit(width: nat): (r: int)
    requires width > 0
    ensures r > 0 && 2 * r == Pow256(width)
  {
    128 * Pow256(width - 1)
  }

  /** The bytes read as an unsigned big-endian number. */
  function Unsigned(bs: seq<byte>): (r: nat)
    ensures r < Pow256(|bs|)
  {
    if |bs| == 0 then 0
    else
      var prefix := bs[..|bs| - 1];
      assert Unsigned(prefix) + 1 <= Pow256(|prefix|);
      Unsigned(prefix) * 256 + bs[|bs| - 1]
  }

  /** The bytes read as a signed big-endian two's-complement number. */
  function Signed(bs: seq<byte>): int
  {
    if |bs| > 0 && bs[0] >= 128 then Unsigned(bs) - Pow256(|bs|) else Unsigned(bs)
  }

  /** The `width`-byte unsigned big-endian encoding of `x`. */
  function ToUnsigned(x: nat, width: nat): (bs: seq<byte>)
    requires x < Pow256(width)
    ensures |bs| == width
  {
    if width == 0 then []
    else ToUnsigned(x / 256, width - 1) + [x % 256]
  }

  /** The `width`-byte two's-complement big-endian encoding of `x`. */
  function ToSigned(x: int, width: nat): (bs: seq<byte>)
    requires width > 0
    requires -SignBit(width) <= x < SignBit(width)
    ensures |bs| == width
  {
    ToUnsigned(if x < 0 then x + Pow256(width) else x, width)
  }

  /** Reading back an unsigned encoding yields the encoded number. */
  lemma {:induction false} UnsignedToUnsigned(x: nat, width: nat)
    requires x < Pow256(width)
    ensures Unsigned(ToUnsigned(x, width)) == x
  {
    if width > 0 {
      var bs := ToUnsigned(x, width);
      UnsignedToUnsigned(x / 256, width - 1);
      assert bs[..width - 1] == ToUnsigned(x / 256, width - 1);
    }
  }

  /** Encoding the number a byte sequence denotes gives back that sequence. */
  lemma {:induction false} ToUnsignedUnsigned(bs: seq<byte>)
    ensures ToUnsigned(Unsigned(bs), |bs|) == bs
  {
    if |bs| > 0 {
      var prefix := bs[..|bs| - 1];
      ToUnsignedUnsigned(prefix);
      var x := Unsigned(bs);
      assert x / 256 == Unsigned(prefix);
      assert x % 256 == bs[|bs| - 1];
      assert bs == prefix + [bs[|bs| - 1]];
    }
  }

  /** The leading byte weighs 256^(|bs|-1): the unsigned value splits at the front. */
  lemma {:induction false} UnsignedFront(bs: seq<byte>)
    requires |bs| > 0
    ensures Unsigned(bs) == bs[0] * Pow256(|bs| - 1) + Unsigned(bs[1..])
  {
    if |bs| == 1 {
      assert bs[..0] == [] && bs[1..] == [];
    } else {
      var n := |bs|;
      var prefix := bs[..n - 1];
      var last := bs[n - 1];
      UnsignedFront(prefix);
      assert prefix[0] == bs[0];
      assert prefix[1..] == bs[1..][..n - 2];
      var lead := bs[0];
      var q := Pow256(n - 2);
      var u := Unsigned(prefix[1..]);
      assert Unsigned(prefix) == lead * q + u;
      assert Unsigned(bs[1..]) == u * 256 + last;
      assert Unsigned(bs) == Unsigned(prefix) * 256 + last;
      assert Pow256(n - 1) == 256 * q;
    }
  }

  /** The top bit of the leading byte is set exactly when the unsigned value reaches the sign bit. */
  lemma {:induction false} SignFromLeadingByte(bs: seq<byte>)
    requires |bs| > 0
    ensures bs[0] >= 128 <==> Unsigned(bs) >= SignBit(|bs|)
  {
    var p := Pow256(|bs| - 1);
    var rest := Unsigned(bs[1..]);
    UnsignedFront(bs);
    LeadingDigit(bs[0], p, rest);
  }

  /** A leading digit below 256 in base p decides whether a number reaches 128 * p. */
  lemma LeadingDigit(lead: int, p: int, rest: int)
    requires 0 <= lead < 256 && 0 <= rest < p
    ensures lead >= 128 <==> lead * p + rest >= 128 * p
  {
  }

  /** A signed reading lies in the range of a `|bs|`-byte two's-complement integer. */
  lemma SignedRange(bs: seq<byte>)
    requires |bs| > 0
    ensures -SignBit(|bs|) <= Signed(bs) < SignBit(|bs|)
  {
    SignFromLeadingByte(bs);
  }

  /** Reading back a signed encoding yields the encoded number. */
  lemma SignedToSigned(x: int, width: nat)
    requires width > 0
    requires -SignBit(width) <= x < SignBit(width)
    ensures Signed(ToSigned(x, width)) == x
  {
    var u := if x < 0 then x + Pow256(width) else x;
    UnsignedToUnsigned(u, width);
    SignFromLeadingByte(ToSigned(x, width));
  }

  /** Encoding the signed number a byte sequence denotes gives back that sequence. */
  lemma ToSignedSigned(bs: seq<byte>)
    requires |bs| > 0
    ensures -SignBit(|bs|) <= Signed(bs) < SignBit(|bs|)
    ensures ToSigned(Signed(bs), |bs|) == bs
  {
    SignFromLeadingByte(bs);
    ToUnsignedUnsigned(bs);
  }
}
