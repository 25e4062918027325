/**
 Java's `byte`: a signed two's-complement 8-bit integer. The hex encoder reads
 each byte as the unsigned value 0..255 it stands for.
 */
module JavaBytes {

  /** The values of a Java `byte`. */
  newtype Int8 = x: int | -128 <= x < 128

  /** The unsigned value of a byte: the representative of its residue modulo 256
      that lies in 0..255 (a negative byte gains 256). */
  function Unsigned(b: Int8): (u: int)
    ensures 0 <= u < 256
    ensures (u - b as int) % 256 == 0
  {
    if b < 0 then b as int + 256 else b as int
  }

  /** The byte whose unsigned value is `u`: the narrowing cast `(byte) u`. */
  function ToSigned(u: int): (b: Int8)
    requires 0 <= u < 256
    ensures Unsigned(b) == u
  {
    if u >= 128 then (u - 256) as Int8 else u as Int8
  }

  /** Reading a byte as unsigned loses nothing: the cast back recovers it. */
  lemma SignedRoundTrip(b: Int8)
    ensures ToSigned(Unsigned(b)) == b
  {
  }
}
