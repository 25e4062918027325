# Hex rendering of byte arrays in the receipt view

The receipt application uploads an image, asks an external AI service to read it
into a `Receipt` record, and shows the result. The only pure logic in
MainView.java is `bytesToHex`, which renders a byte array (the SHA-256 digest of
an uploaded non-image file) as a lower-case hexadecimal string by appending
`String.format("%02x", b)` for each byte. This project models that encoder and
proves what it promises:

- each byte contributes exactly two characters, so the output is twice as long as
  the input, and the empty array gives the empty string;
- every character is one of `0`-`9`, `a`-`f` (the `x` conversion, not `X`);
- byte `i` sits at characters `2i` and `2i+1`, high nibble first, in input order;
- a Java `byte` is signed: `java.util.Formatter` adds 2^8 to a negative `Byte`
  before converting, so `-1` gives `ff` and `-128` gives `80`, never a sign;
- values below 16 are padded with a leading `0` to the field width 2;
- encoding distributes over concatenation, and decoding each digit pair recovers
  the byte, so the encoding is injective.

Modules:

- `JavaBytes` (`java_bytes.dfy`): the Java `byte` as the newtype `Int8`
  (-128..127), its unsigned reading and the narrowing cast back.
- `Hex` (`hex.dfy`): the per-byte rendering `HexByte` (nibble arithmetic), the
  sequence encoder `EncodeBytes`, and an independent reference `Format02x` that
  follows the formatter's rules (unsigned value, base-16 digits without leading
  zeros, left zero padding to width 2), with the lemma that the two agree.
- `HexDecode` (`hex_decode.dfy`): a hex decoder, which the source does not have;
  it is the partner against which round trip and injectivity are stated. Its own
  behaviour is pinned by `DecodeHexFailure`: it rejects a text exactly when the
  length is odd or some character is not a hex digit.
- `MainView` (`main_view.dfy`): `bytesToHex` as a loop appending to a builder,
  and the digest-to-text step of `generateSHA256Hash`.
- `Options` (`options.dfy`): the `Option` type the decoder returns.

`LineItem` and `Receipt` (MainView.java:43-45) are plain records filled in by
the chat client (MainView.java:78-87); MainView does no parsing of receipt text.

## Model

| member | source | states |
|---|---|---|
| JavaBytes.Unsigned | src/main/java/com/deepseek_app/ai/deepseek_spring_integration/MainView.java:146 | a byte is read as the value in 0..255 congruent to it modulo 256, as the formatter does for a negative `Byte` |
| Hex.HexDigit | src/main/java/com/deepseek_app/ai/deepseek_spring_integration/MainView.java:146 | each nibble becomes a lower-case digit `0`-`9`/`a`-`f` whose hex value is that nibble |
| Hex.HexByte | src/main/java/com/deepseek_app/ai/deepseek_spring_integration/MainView.java:146 | one byte gives exactly two lower-case digits: the first denotes the high nibble, the second the low nibble of the unsigned value |
| Hex.EncodeBytes | src/main/java/com/deepseek_app/ai/deepseek_spring_integration/MainView.java:143-149 | the output is exactly twice as long as the input (empty for empty input) and contains only lower-case hex digits |
| Hex.EncodeAppend | src/main/java/com/deepseek_app/ai/deepseek_spring_integration/MainView.java:144-148 | the hex of a concatenation is the concatenation of the hexes |
| Hex.EncodeAt | src/main/java/com/deepseek_app/ai/deepseek_spring_integration/MainView.java:145-146 | characters `2i` and `2i+1` are the rendering of byte `i`, so input order is preserved |
| Hex.HexByteIsFormat02x | src/main/java/com/deepseek_app/ai/deepseek_spring_integration/MainView.java:146 | the nibble rendering equals the formatter's `%02x` semantics: unsigned value, base-16 digits without leading zeros, zero-padded on the left to width 2 |
| Hex.ZeroPadding | src/main/java/com/deepseek_app/ai/deepseek_spring_integration/MainView.java:146 | padding happens exactly for unsigned values below 16 and shows as a leading `0` |
| Hex.NegativeByteHighDigit | src/main/java/com/deepseek_app/ai/deepseek_spring_integration/MainView.java:146 | a byte is negative exactly when its high digit is 8 or more; the sign never appears as a character |
| Hex.FormatExamples | src/main/java/com/deepseek_app/ai/deepseek_spring_integration/MainView.java:144-148 | -1 gives `ff`, -128 gives `80`, 10 gives `0a`, 0 gives `00`, 127 gives `7f`, and no bytes give the empty string |
| HexDecode.DecodeEncode | src/main/java/com/deepseek_app/ai/deepseek_spring_integration/MainView.java:143-149 | decoding the hex of any byte sequence gives back that sequence, negative bytes included |
| HexDecode.EncodeInjective | src/main/java/com/deepseek_app/ai/deepseek_spring_integration/MainView.java:143-149 | distinct byte sequences have distinct hex strings |
| HexDecode.EncodeDecode | src/main/java/com/deepseek_app/ai/deepseek_spring_integration/MainView.java:143-149 | every even-length lower-case hex string is the hex of the bytes it decodes to, so the encoder reaches all of them |
| MainView.BytesToHex | src/main/java/com/deepseek_app/ai/deepseek_spring_integration/MainView.java:143-149 | the builder loop yields the hex of the whole input, twice its length, with `%02x` of byte `i` at positions `2i`, `2i+1` |
| MainView.GenerateSha256Hash | src/main/java/com/deepseek_app/ai/deepseek_spring_integration/MainView.java:133-141 | a 32-byte digest becomes 64 lower-case hex digits that decode back to the digest |

## Left out

- The Vaadin view: the upload listener, `showReceipt`, `createComponent` and
  `showOutput` (MainView.java:52-131, 151-162) are component layout and mutable UI
  state; the MIME-type branch in `createComponent` (MainView.java:116) only chooses
  between an image and a text component.
- Saving the upload and reading streams (MainView.java:64-69, 77) are file I/O.
- The chat-client call that produces a `Receipt` (MainView.java:78-87) is an
  external AI service; MainView contains no receipt-extraction logic.
- MainView.GenerateSha256Hash: the SHA-256 computation itself (`MessageDigest`,
  MainView.java:135-136) is a foreign library; the digest is a parameter, its
  length of 32 bytes is the only property of SHA-256 assumed, and the
  unreachable `NoSuchAlgorithmException` path is not modelled.
- `getAppPath` (MainView.java:164-170) is a configuration lookup; its null check
  (MainView.java:166-168) only reports a missing property.
- `DeepSeekService.generateText` is an HTTP POST (network I/O), and
  `DeepSeekConfig` is bean wiring for API keys and headers.
