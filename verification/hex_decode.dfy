/**
 The inverse of the hex encoder: reads two digits per byte, high nibble first,
 and narrows the value back to a Java byte. Digits of either case are
 accepted; odd length or any non-digit character is rejected.
 */
module HexDecode {
  import opened Options
  import opened JavaBytes
  import opened Hex

  /** True iff some character of `s` is not a hex digit of either case. */
  predicate HasNonDigit(s: string)
  {
    exists i :: 0 <= i < |s| && DigitValue(s[i]).None?
  }

  function DecodeHex(s: string): (r: Option<seq<Int8>>)
    ensures r.Some? ==> 2 * |r.value| == |s|
    decreases |s|
  {
    if |s| == 0 then Some([])
    else if |s| == 1 then None
    else
      var hi := DigitValue(s[0]);
      var lo := DigitValue(s[1]);
      var rest := DecodeHex(s[2..]);
      if hi.None? || lo.None? || rest.None? then None
      else Some([ToSigned(16 * hi.value + lo.value)] + rest.value)
  }

  /** Decoding fails exactly on odd length or a character that is not a digit. */
  lemma {:induction false} DecodeHexFailure(s: string)
    ensures DecodeHex(s).None? <==> |s| % 2 == 1 || HasNonDigit(s)
    decreases |s|
  {
    if |s| >= 2 {
      var t := s[2..];
      DecodeHexFailure(t);
      if HasNonDigit(t) {
        var j :| 0 <= j < |t| && DigitValue(t[j]).None?;
        assert DigitValue(s[j + 2]).None?;
      }
      if HasNonDigit(s) && DigitValue(s[0]).Some? && DigitValue(s[1]).Some? {
        var j :| 0 <= j < |s| && DigitValue(s[j]).None?;
        assert j >= 2 && t[j - 2] == s[j];
      }
    }
  }

  /** Round trip: decoding the encoder's output gives back the original bytes. */
  lemma {:induction false} DecodeEncode(bs: seq<Int8>)
    ensures DecodeHex(EncodeBytes(bs)) == Some(bs)
    decreases |bs|
  {
    if |bs| > 0 {
      var s := EncodeBytes(bs);
      assert s == HexByte(bs[0]) + EncodeBytes(bs[1..]);
      assert s[2..] == EncodeBytes(bs[1..]);
      DecodeEncode(bs[1..]);
      var u := Unsigned(bs[0]);
      assert 16 * (u / 16) + u % 16 == u;
      SignedRoundTrip(bs[0]);
      assert [bs[0]] + bs[1..] == bs;
    }
  }

  /** Distinct byte sequences have distinct hex texts. */
  lemma EncodeInjective(a: seq<Int8>, b: seq<Int8>)
    ensures EncodeBytes(a) == EncodeBytes(b) ==> a == b
  {
    DecodeEncode(a);
    DecodeEncode(b);
  }

  /** Every even-length lower-case hex text is the encoding of the bytes it decodes to. */
  lemma {:induction false} EncodeDecode(s: string)
    requires |s| % 2 == 0 && IsLowerHex(s)
    ensures DecodeHex(s).Some? && EncodeBytes(DecodeHex(s).value) == s
    decreases |s|
  {
    if |s| > 0 {
      var t := s[2..];
      assert IsLowerHex(t) by {
        forall j | 0 <= j < |t| ensures IsLowerHexDigit(t[j]) {
          assert t[j] == s[j + 2];
        }
      }
      EncodeDecode(t);
      assert IsLowerHexDigit(s[0]) && IsLowerHexDigit(s[1]);
      LowerDigitRoundTrip(s[0]);
      LowerDigitRoundTrip(s[1]);
      var hi := DigitValue(s[0]).value;
      var lo := DigitValue(s[1]).value;
      var b := ToSigned(16 * hi + lo);
      assert (16 * hi + lo) / 16 == hi && (16 * hi + lo) % 16 == lo;
      assert HexByte(b) == s[..2];
      var bs := DecodeHex(s).value;
      assert bs == [b] + DecodeHex(t).value;
      assert bs[1..] == DecodeHex(t).value;
      assert s == s[..2] + t;
    }
  }
}
