/** Byte-level vocabulary shared by the decoders: bytes, fixed-width unsigned
    integers, little-endian fields, and the success/failure wrappers that stand
    for the exceptions the byte layouts raise. */
module Codec {

  type byte = b: int | 0 <= b < 0x100
  type u16 = n: int | 0 <= n < 0x1_0000
  type u32 = n: int | 0 <= n < 0x1_0000_0000

  datatype Option<+T> = None | Some(value: T)

  /** Why parsing or building a byte layout failed. */
  datatype CodecError =
    | Truncated        // the input ends before the layout does
    | LengthUnderflow  // a declared length is smaller than the header it counts
    | LengthMismatch   // a value does not have the length the layout declares
    | NotAscii         // a text field holds a character outside 7-bit ASCII
    | OutOfRange       // a value does not fit the width of its field
    | Unterminated     // a repeated element never meets its stop condition

  datatype Result<+T> = Ok(value: T) | Err(error: CodecError)

  /** Unsigned 16-bit little-endian integer at position i. */
  function U16le(s: seq<byte>, i: nat): (v: u16)
    requires i + 2 <= |s|
    ensures v % 0x100 == s[i] && v / 0x100 == s[i + 1]
  {
    s[i] as int + 0x100 * s[i + 1] as int
  }

  /** Unsigned 32-bit little-endian integer at position i. */
  function U32le(s: seq<byte>, i: nat): (v: u32)
    requires i + 4 <= |s|
    ensures v % 0x1_0000 == U16le(s, i) && v / 0x1_0000 == U16le(s, i + 2)
  {
    DivModSplit(s[i] as int + 0x100 * s[i + 1] as int + 0x1_0000 * s[i + 2] as int + 0x100_0000 * s[i + 3] as int,
                U16le(s, i), U16le(s, i + 2));
    s[i] as int + 0x100 * s[i + 1] as int + 0x1_0000 * s[i + 2] as int + 0x100_0000 * s[i + 3] as int
  }

  function EncodeU16le(v: u16): (r: seq<byte>)
    ensures |r| == 2 && U16le(r, 0) == v
  {
    [v % 0x100, v / 0x100]
  }

  function EncodeU32le(v: u32): (r: seq<byte>)
    ensures |r| == 4 && U32le(r, 0) == v
  {
    var lo := v % 0x1_0000;
    var hi := v / 0x1_0000;
    EncodeU16le(lo) + EncodeU16le(hi)
  }

  /** Re-encoding a decoded 16-bit field gives back its two bytes. */
  lemma U16leReencode(s: seq<byte>, i: nat)
    requires i + 2 <= |s|
    ensures EncodeU16le(U16le(s, i)) == s[i..i + 2]
  {
    var v := U16le(s, i);
    assert v % 0x100 == s[i] && v / 0x100 == s[i + 1];
  }

  /** Re-encoding a decoded 32-bit field gives back its four bytes. */
  lemma U32leReencode(s: seq<byte>, i: nat)
    requires i + 4 <= |s|
    ensures EncodeU32le(U32le(s, i)) == s[i..i + 4]
  {
    var v := U32le(s, i);
    var lo := U16le(s, i);
    var hi := U16le(s, i + 2);
    DivModSplit(v, lo, hi);
    U16leReencode(s, i);
    U16leReencode(s, i + 2);
    assert s[i..i + 4] == s[i..i + 2] + s[i + 2..i + 4];
  }

  lemma DivModSplit(v: int, lo: u16, hi: u16)
    requires v == lo as int + 0x1_0000 * hi as int
    ensures v % 0x1_0000 == lo && v / 0x1_0000 == hi
  {
  }

  /** The payload begins with the JPEG start-of-image marker FF D8. */
  predicate StartsWithSoi(p: seq<byte>)
  {
    |p| >= 2 && p[0] == 0xFF && p[1] == 0xD8
  }

  /** The JPEG end-of-image marker FF D9 occurs at position i. */
  predicate EoiAt(p: seq<byte>, i: int)
  {
    0 <= i && i + 1 < |p| && p[i] == 0xFF && p[i + 1] == 0xD9
  }

  /** Substring search for FF D9, as the byte-string `in` operator does it. */
  function HasEoi(p: seq<byte>): (b: bool)
    ensures b <==> exists i :: EoiAt(p, i)
  {
    if |p| < 2 then
      false
    else if p[0] == 0xFF && p[1] == 0xD9 then
      assert EoiAt(p, 0);
      true
    else
      var rest := HasEoi(p[1..]);
      assert forall i :: EoiAt(p[1..], i) <==> EoiAt(p, i + 1);
      assert !EoiAt(p, 0);
      assert rest ==> exists i :: EoiAt(p, i) by {
        if rest {
          var j :| EoiAt(p[1..], j);
          assert EoiAt(p, j + 1);
        }
      }
      assert (exists i :: EoiAt(p, i)) ==> rest by {
        if exists i :: EoiAt(p, i) {
          var j :| EoiAt(p, j);
          assert j >= 1;
          assert EoiAt(p[1..], j - 1);
        }
      }
      rest
  }
}
