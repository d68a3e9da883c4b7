# LSB steganography codec, modelled in Dafny

The steganography app hides a text message in the least significant bits of
an RGB image. The app's core is modelled here:

- the two bit-string helpers `numberToBinary` (`bin(n)[2:].zfill(8)`) and
  `binaryToNumber` (`int(s, 2)`);
- `encode`, which writes the message length into the red channel of pixel
  (0, 0). It then walks the flat pixel indices 0 .. 3·len − 1 in row-major
  order (x = i % width, y = i // width) and writes the 8 bits of each
  character into 3 consecutive pixels: G and B of the first, R, G and B of
  the second and of the third;
- `decode`, which reads the length back from red(0, 0) and walks the same
  pixels to rebuild the characters.

The project has three modules:

- `BinaryStrings` (`binary_strings.dfy`) holds the helpers as pure functions
  on digit strings, with their digit-by-digit meaning and their round trip.
- `LsbFormat` (`lsb_format.dfy`) holds the pixel layout, stated as pure
  functions on the image's pixels in row-major order. `Encoded(s, msg)` is
  the image after encoding. `Decoded(s)` is what decoding reads. The
  properties of the format are lemmas about these two functions.
- `SteganographyApp` (`steganography_app.dfy`) holds an `Image` class around
  an `array2<Pixel>` (the pixel access object, indexed `[x, y]`).
  - `Encode` changes the grid in place, following the source loop step by
    step. It is proved to leave the grid equal to `Encoded` of the old grid.
  - `Decode` is the source's reading loop. It is proved to return
    `Decoded` of the grid. It has no `modifies` clause, so it leaves the
    grid unchanged.
  - Each loop step calls small methods: `Get` and `Put` are the pixel
    accesses, `ByteToBinary` is `numberToBinary`, and `ReplaceLowDigit`,
    `KeepChannel` and `WritePixel` are the string splicing of one pixel.
    `LowDigits` and `CollectDigits` are the digit collection of `decode`.

The payload walk starts at flat index 0. Pixel 0 is both the header and
the first payload pixel. This is harmless, because the first pixel of every
character keeps its red channel (`LsbFormat.EncodedFrame`,
`LsbFormat.RoundTrip`), and it means an image of 3·len pixels is enough.
The code checks neither capacity before writing nor truncation before
reading; an access outside the grid raises IndexError. `Decode` returns
that as `PixelOutOfRange`; `Encode` excludes it by its preconditions (see
"Left out").

## Model

| member | source | states |
|---|---|---|
| BinaryStrings.Bin | SteganographyApp.py:12 | bin(n)[2:] is a non-empty string of binary digits, long enough that n is below 2 to its length |
| BinaryStrings.NumberToBinary | SteganographyApp.py:10-14 | numberToBinary(n) is a string of binary digits of at least 8 digits |
| BinaryStrings.ZFill | SteganographyApp.py:13 | the padded string has length max(width, \|s\|), ends with s and is '0' before it |
| BinaryStrings.NumberToBinaryDigits | SteganographyApp.py:10-14 | numberToBinary(n) has max(8, bit length of n) digits, and digit j is bit (length − 1 − j) of n |
| BinaryStrings.NumberToBinaryByte | SteganographyApp.py:10-14 | for n < 256, numberToBinary(n) has exactly 8 digits, and digit j is bit 7 − j of n (most significant first) |
| BinaryStrings.BinaryToNumber | SteganographyApp.py:16-18 | the value of an n-digit binary string is below 2^n |
| BinaryStrings.BinaryRoundTrip | SteganographyApp.py:10-18 | binaryToNumber(numberToBinary(n)) == n for every natural n |
| BinaryStrings.ValueOfBin | SteganographyApp.py:12 | the digits of bin(n)[2:] read back as n |
| BinaryStrings.ZeroPaddedValue | SteganographyApp.py:13 | leading zeros added by zfill do not change the value |
| BinaryStrings.LastDigitReplaced | SteganographyApp.py:47-48 | replacing the last of 8 digits by d keeps a digit string whose value is the old value with its parity bit replaced by d |
| LsbFormat.WithLsb | SteganographyApp.py:47-63 | setting the least significant bit keeps the upper 7 bits and makes the low bit the given one |
| LsbFormat.Decoded | SteganographyApp.py:79-99 | decode succeeds exactly when pixel 0 exists and the grid has at least 3·red(0, 0) pixels; it then returns red(0, 0) characters, character k being the code `Letter` reads from the low bits of pixels 3k, 3k+1, 3k+2 |
| LsbFormat.Letters | SteganographyApp.py:85-99 | the first n pixel triples give n characters, character k being the code in the low bits of pixels 3k, 3k+1, 3k+2 |
| LsbFormat.ByteFromBits | SteganographyApp.py:46 | a code below 256 is the sum of its 8 bits weighted 128 … 1 |
| LsbFormat.LetterDigitsValue | SteganographyApp.py:93-99 | binaryToNumber of the 8 collected low digits of a pixel triple is that triple's character code |
| LsbFormat.Encoded | SteganographyApp.py:32-66 | the image after encode (header at lines 32-34, payload walk at lines 36-66, pixel by pixel through `EncodedPixel` and `Embed`) keeps its pixel count and holds the message length in the red channel of pixel 0 |
| LsbFormat.EncodedKeepsHighBits | SteganographyApp.py:36-66 | encoding changes no channel's upper 7 bits (the red of pixel 0 aside) |
| LsbFormat.EncodedFrame | SteganographyApp.py:36-66 | pixels at flat index ≥ 3·len (other than the header) are unchanged; the red of every first-of-character pixel is unchanged |
| LsbFormat.EmbedBits | SteganographyApp.py:45-58 | the low bits written into the three pixels of character k are bits 0..1, 2..4 and 5..7 of its code |
| LsbFormat.EncodedBitPlacement | SteganographyApp.py:45-58 | digit j of numberToBinary(ord(msg[k])) is the low bit of G, B of pixel 3k (j = 0, 1), R, G, B of pixel 3k+1 (j = 2..4) and of pixel 3k+2 (j = 5..7) |
| LsbFormat.EncodeEmpty | SteganographyApp.py:23-66 | encoding the empty message only sets red(0, 0) to 0 |
| LsbFormat.DecodedShape | SteganographyApp.py:75-102 | decoding fails exactly when the grid is empty or shorter than 3·red(0, 0); otherwise it returns red(0, 0) characters, each below 256; red(0, 0) = 0 gives the empty message |
| LsbFormat.LetterOfEmbedded | SteganographyApp.py:45-58 | the three pixels written for character k read back as that character |
| LsbFormat.RoundTrip | SteganographyApp.py:23-102 | decoding an encoded grid returns the message, for len ≤ 255, codes < 256 and 3·len ≤ width·height |
| SteganographyApp.Image.Get | SteganographyApp.py:37-39 | reading flat index i gives pixel i of the row-major grid, or the out-of-range error past the last row |
| SteganographyApp.Image.Put | SteganographyApp.py:65 | writing flat index i changes pixel i of the row-major grid and nothing else |
| SteganographyApp.ByteToBinary | SteganographyApp.py:41-43 | numberToBinary of a value below 256 has 8 digits, digit j being bit 7 − j, and reads back as the value |
| SteganographyApp.LowDigits | SteganographyApp.py:86-96 | the last digits of numberToBinary of R, G and B of pixel i, or the out-of-range error |
| SteganographyApp.KeepChannel | SteganographyApp.py:41-43 | a channel not written in this slot comes back unchanged after the round trip through the helpers |
| SteganographyApp.ReplaceLowDigit | SteganographyApp.py:47-63 | a written channel keeps its upper 7 bits and gets the given digit as its low bit |
| SteganographyApp.WritePixel | SteganographyApp.py:41-63 | slot 0 writes letterBinary[0..1] into G, B and keeps R; slots 1 and 2 write letterBinary[2..4] and [5..7] into R, G, B |
| SteganographyApp.CollectDigits | SteganographyApp.py:93-99 | one decoding step keeps msg equal to the characters of the pixel triples read so far and letterBinary equal to the digits held mid-character |
| SteganographyApp.Encode | SteganographyApp.py:23-66 | the grid after encoding is exactly the format's encoding of the old grid |
| SteganographyApp.Decode | SteganographyApp.py:75-102 | the result is exactly the format's decoding of the grid; the grid is not modified |
| SteganographyApp.EncodeThenDecode | SteganographyApp.py:23-102 | encoding then decoding the same image returns the message |

## Left out

- `main`, the console prompts and the file handling (lines 107 onwards): user interaction and file I/O.
- Loading and saving the image (`img.load()`, `img.save`, the `print` at lines 69-70): file I/O. The image is the `array2<Pixel>` that the pixel access object exposes.
- SteganographyApp.Encode: requires len ≤ 255, 3·len ≤ width·height, a non-empty grid and character codes below 256. The source does not check these. Outside them it writes a length that does not fit a channel, fails part-way with IndexError after changing some pixels, or produces more than 8 digits per character. Those outcomes are not modelled.
- SteganographyApp.EncodeThenDecode: carries the same preconditions as `Encode`.
- SteganographyApp.Decode: the IndexError of an access outside the grid is the `PixelOutOfRange` result. `chr` is applied only to codes below 256, which is all that 8 collected digits can give.
- BinaryStrings.BinaryToNumber: modelled only on non-empty strings of '0' and '1'. Python's `int(s, 2)` also accepts signs, underscores and whitespace, and raises on other input. The app only passes digit strings.
- BinaryStrings.NumberToBinary: modelled on natural numbers only. Channel values and character codes are never negative, so `bin` of a negative number and zfill's sign handling do not arise.
- Pixel channels are bytes (0..255), as in an RGB image. Images in other modes are not modelled.
