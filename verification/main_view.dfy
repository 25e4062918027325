/**
 The pure logic of the receipt view: turning a byte array (the SHA-256 digest
 of an uploaded non-image file) into the lower-case hex string it shows.
 */
module MainView {
  import opened Options
  import opened JavaBytes
  import opened Hex
  import opened HexDecode

  /** `hex` is two characters per byte of `bytes`, the characters at `2i` and
      `2i+1` being `String.format("%02x", bytes[i])`. */
  predicate FormatsEachByte(bytes: seq<Int8>, hex: string)
  {
    && |hex| == 2 * |bytes|
    && forall i :: 0 <= i < |bytes| ==> hex[2 * i .. 2 * i + 2] == Format02x(bytes[i])
  }

  /** Appends `String.format("%02x", b)` to a builder for each byte in turn. */
  method BytesToHex(bytes: seq<Int8>) returns (hex: string)
    ensures hex == EncodeBytes(bytes)
    ensures FormatsEachByte(bytes, hex)
  {
    hex := "";
    var i := 0;
    while i < |bytes|
      invariant 0 <= i <= |bytes|
      invariant hex == EncodeBytes(bytes[..i])
    {
      HexByteIsFormat02x(bytes[i]);
      EncodeAppend(bytes[..i], [bytes[i]]);
      assert bytes[..i + 1] == bytes[..i] + [bytes[i]];
      hex := hex + Format02x(bytes[i]);
      i := i + 1;
    }
    assert bytes[..i] == bytes;
    forall k | 0 <= k < |bytes|
      ensures hex[2 * k .. 2 * k + 2] == Format02x(bytes[k])
    {
      EncodeAt(bytes, k);
      HexByteIsFormat02x(bytes[k]);
    }
  }

  /** The hash text of an upload: the hex rendering of its 32-byte SHA-256
      digest. The digest itself is an input here. */
  method GenerateSha256Hash(digest: seq<Int8>) returns (hash: string)
    requires |digest| == 32
    ensures |hash| == 64 && IsLowerHex(hash)
    ensures DecodeHex(hash) == Some(digest)
  {
    hash := BytesToHex(digest);
    DecodeEncode(digest);
  }
}
