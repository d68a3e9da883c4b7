/**
  The pixel layout of the steganography app, stated on the image's pixels
  taken in row-major order (flat index i is the pixel at x = i % width,
  y = i / width).

  Pixel 0's red channel holds the message length. Character k of the message
  is spread over the least significant bits of pixels 3k, 3k + 1 and 3k + 2,
  most significant bit first: G and B of pixel 3k, then R, G, B of pixel
  3k + 1, then R, G, B of pixel 3k + 2. The walk starts at flat index 0, so
  pixel 0 is both the header and the first payload pixel; this is consistent
  because the first pixel of every character keeps its red channel.
 */
module LsbFormat {
  import opened BinaryStrings

  type Byte = x: int | 0 <= x < 256

  datatype Pixel = Pixel(r: Byte, g: Byte, b: Byte)

  /** Outcome of reading a message: `PixelOutOfRange` is the IndexError of an access outside the image. */
  datatype Result<T> = Ok(value: T) | PixelOutOfRange

  /** Every character of msg has a code below 256, so that it fits the 8 bits the format carries. */
  predicate IsByteString(msg: string) {
    forall k :: 0 <= k < |msg| ==> msg[k] as int < 256
  }

  /** Bit j of a character code, counted as `numberToBinary` prints it: j = 0 is the most significant. */
  function LetterBit(c: nat, j: nat): (bit: nat)
    requires j < 8
    ensures bit < 2
  {
    Bit(c, 7 - j)
  }

  function Lsb(v: Byte): (bit: nat)
    ensures bit < 2
  {
    v % 2
  }

  /** v with its least significant bit replaced by bit. */
  function WithLsb(v: Byte, bit: nat): (w: Byte)
    requires bit < 2
    ensures w / 2 == v / 2 && Lsb(w) == bit
  {
    v / 2 * 2 + bit
  }

  /** Pixel i once the header has been written: pixel 0 gets the length in red. */
  function WithHeader(p: Pixel, i: nat, msg: string): Pixel
    requires |msg| < 256
  {
    if i == 0 then p.(r := |msg|) else p
  }

  /** Pixel i (i < 3 |msg|) after the payload bits are written over p. */
  function Embed(p: Pixel, i: nat, msg: string): Pixel
    requires i < 3 * |msg|
  {
    var c := msg[i / 3] as int;
    if i % 3 == 0 then
      p.(g := WithLsb(p.g, LetterBit(c, 0)), b := WithLsb(p.b, LetterBit(c, 1)))
    else if i % 3 == 1 then
      Pixel(WithLsb(p.r, LetterBit(c, 2)), WithLsb(p.g, LetterBit(c, 3)), WithLsb(p.b, LetterBit(c, 4)))
    else
      Pixel(WithLsb(p.r, LetterBit(c, 5)), WithLsb(p.g, LetterBit(c, 6)), WithLsb(p.b, LetterBit(c, 7)))
  }

  /** The final value of pixel i, which held p before encoding. */
  function EncodedPixel(p: Pixel, i: nat, msg: string): Pixel
    requires |msg| < 256
  {
    var h := WithHeader(p, i, msg);
    if i < 3 * |msg| then Embed(h, i, msg) else h
  }

  /**
    The image s (row-major) after msg is encoded into it: the same number of
    pixels, with the message length in the red channel of pixel 0.
   */
  function Encoded(s: seq<Pixel>, msg: string): (t: seq<Pixel>)
    requires |msg| < 256
    ensures |t| == |s|
    ensures 1 <= |s| ==> t[0].r == |msg|
  {
    seq(|s|, i requires 0 <= i < |s| => EncodedPixel(s[i], i, msg))
  }

  /** The character code carried by three consecutive pixels. */
  function Letter(p0: Pixel, p1: Pixel, p2: Pixel): (c: nat)
    ensures c < 256
  {
    128 * Lsb(p0.g) + 64 * Lsb(p0.b)
    + 32 * Lsb(p1.r) + 16 * Lsb(p1.g) + 8 * Lsb(p1.b)
    + 4 * Lsb(p2.r) + 2 * Lsb(p2.g) + Lsb(p2.b)
  }

  /**
    The characters carried by the first n triples of pixels of s, built one
    character at a time as the decoder appends them.
   */
  function Letters(s: seq<Pixel>, n: nat): (m: string)
    requires 3 * n <= |s|
    ensures |m| == n
    ensures forall k :: 0 <= k < n ==> m[k] == Letter(s[3 * k], s[3 * k + 1], s[3 * k + 2]) as char
  {
    if n == 0 then [] else Letters(s, n - 1) + [Letter(s[3 * n - 3], s[3 * n - 2], s[3 * n - 1]) as char]
  }

  /** Letters grows by the letter of the next three pixels. */
  lemma LettersSnoc(s: seq<Pixel>, k: nat)
    requires 3 * k + 2 < |s|
    ensures Letters(s, k + 1) == Letters(s, k) + [Letter(s[3 * k], s[3 * k + 1], s[3 * k + 2]) as char]
  {
  }

  /**
    The message read back from the image s (row-major): red of pixel 0
    characters, or PixelOutOfRange when the image has no pixel 0 or fewer
    than 3 pixels per announced character.
   */
  function Decoded(s: seq<Pixel>): (r: Result<string>)
    ensures r.Ok? <==> 1 <= |s| && 3 * s[0].r <= |s|
    ensures r.Ok? ==> |r.value| == s[0].r
    ensures r.Ok? ==> forall k :: 0 <= k < |r.value| ==> r.value[k] == Letter(s[3 * k], s[3 * k + 1], s[3 * k + 2]) as char
  {
    if |s| == 0 || 3 * s[0].r > |s| then PixelOutOfRange else Ok(Letters(s, s[0].r))
  }

  /**
    The digits the decoder reads off pixel p: the last digits of G and B for
    the first pixel of a character, of R, G and B for the other two.
   */
  function PixelDigits(p: Pixel, first: bool): (d: string)
    ensures |d| == (if first then 2 else 3) && IsDigits(d)
  {
    if first then [Digit(Lsb(p.g)), Digit(Lsb(p.b))]
    else [Digit(Lsb(p.r)), Digit(Lsb(p.g)), Digit(Lsb(p.b))]
  }

  /** PixelDigits spelled out from the last digits of the three channels. */
  lemma PixelDigitsOf(p: Pixel, r7: char, g7: char, b7: char)
    requires r7 == Digit(Lsb(p.r)) && g7 == Digit(Lsb(p.g)) && b7 == Digit(Lsb(p.b))
    ensures [g7, b7] == PixelDigits(p, true)
    ensures [r7, g7, b7] == PixelDigits(p, false)
  {
  }

  /** The 8-digit string `letterBinary` that decoding assembles for character k. */
  function LetterDigits(s: seq<Pixel>, k: nat): (d: string)
    requires 3 * k + 2 < |s|
    ensures |d| == 8 && IsDigits(d)
  {
    PixelDigits(s[3 * k], true) + PixelDigits(s[3 * k + 1], false) + PixelDigits(s[3 * k + 2], false)
  }

  // ---------- Properties of the format ----------

  /** A byte is the sum of its eight bits, weighted most significant first. */
  lemma ByteFromBits(c: nat)
    requires c < 256
    ensures c == 128 * LetterBit(c, 0) + 64 * LetterBit(c, 1) + 32 * LetterBit(c, 2) + 16 * LetterBit(c, 3)
                 + 8 * LetterBit(c, 4) + 4 * LetterBit(c, 5) + 2 * LetterBit(c, 6) + LetterBit(c, 7)
  {
    var s := NumberToBinary(c);
    NumberToBinaryByte(c);
    BinaryRoundTrip(c);
    ValueOfEight(s);
  }

  /** binaryToNumber of the assembled digits is the character code the three pixels carry. */
  lemma LetterDigitsValue(s: seq<Pixel>, k: nat)
    requires 3 * k + 2 < |s|
    ensures BinaryToNumber(LetterDigits(s, k)) == Letter(s[3 * k], s[3 * k + 1], s[3 * k + 2])
  {
    var a, b, c := PixelDigits(s[3 * k], true), PixelDigits(s[3 * k + 1], false), PixelDigits(s[3 * k + 2], false);
    var d := LetterDigits(s, k);
    assert d[0] == a[0] && d[1] == a[1];
    assert d[2] == b[0] && d[3] == b[1] && d[4] == b[2];
    assert d[5] == c[0] && d[6] == c[1] && d[7] == c[2];
    ValueOfEight(d);
  }

  /**
    Encoding keeps the top seven bits of every channel, except the red channel
    of pixel 0, which becomes the length.
   */
  lemma EncodedKeepsHighBits(s: seq<Pixel>, msg: string, i: nat)
    requires |msg| < 256 && i < |s|
    ensures Encoded(s, msg)[i].g / 2 == s[i].g / 2
    ensures Encoded(s, msg)[i].b / 2 == s[i].b / 2
    ensures i != 0 ==> Encoded(s, msg)[i].r / 2 == s[i].r / 2
  {
  }

  /**
    Pixels past the first 3 |msg| are left alone (but for the header byte),
    and so is the red channel of the first pixel of every character.
   */
  lemma EncodedFrame(s: seq<Pixel>, msg: string, i: nat)
    requires |msg| < 256 && 0 < i < |s|
    ensures 3 * |msg| <= i ==> Encoded(s, msg)[i] == s[i]
    ensures i % 3 == 0 ==> Encoded(s, msg)[i].r == s[i].r
  {
  }

  /** The three pixels of character k in the encoded image are the payload writes over the originals. */
  lemma EncodedLetterPixels(s: seq<Pixel>, msg: string, k: nat)
    requires |msg| < 256 && 3 * |msg| <= |s| && k < |msg|
    ensures Encoded(s, msg)[3 * k] == Embed(WithHeader(s[3 * k], 3 * k, msg), 3 * k, msg)
    ensures Encoded(s, msg)[3 * k + 1] == Embed(s[3 * k + 1], 3 * k + 1, msg)
    ensures Encoded(s, msg)[3 * k + 2] == Embed(s[3 * k + 2], 3 * k + 2, msg)
  {
    var t := Encoded(s, msg);
    assert 3 * k + 2 < 3 * |msg|;
    assert t[3 * k] == EncodedPixel(s[3 * k], 3 * k, msg);
    assert t[3 * k + 1] == EncodedPixel(s[3 * k + 1], 3 * k + 1, msg);
    assert t[3 * k + 2] == EncodedPixel(s[3 * k + 2], 3 * k + 2, msg);
  }

  /** The least significant bits that the payload writes put into the three pixels of character k. */
  lemma EmbedBits(p0: Pixel, p1: Pixel, p2: Pixel, msg: string, k: nat)
    requires k < |msg|
    ensures var c := msg[k] as int;
      && Lsb(Embed(p0, 3 * k, msg).g) == LetterBit(c, 0) && Lsb(Embed(p0, 3 * k, msg).b) == LetterBit(c, 1)
      && Lsb(Embed(p1, 3 * k + 1, msg).r) == LetterBit(c, 2) && Lsb(Embed(p1, 3 * k + 1, msg).g) == LetterBit(c, 3)
      && Lsb(Embed(p1, 3 * k + 1, msg).b) == LetterBit(c, 4)
      && Lsb(Embed(p2, 3 * k + 2, msg).r) == LetterBit(c, 5) && Lsb(Embed(p2, 3 * k + 2, msg).g) == LetterBit(c, 6)
      && Lsb(Embed(p2, 3 * k + 2, msg).b) == LetterBit(c, 7)
  {
    assert (3 * k) / 3 == k && (3 * k) % 3 == 0;
    assert (3 * k + 1) / 3 == k && (3 * k + 1) % 3 == 1;
    assert (3 * k + 2) / 3 == k && (3 * k + 2) % 3 == 2;
  }

  /**
    Where the bits of character k go: letterBinary[0..1] in the least
    significant bits of G and B of pixel 3k, letterBinary[2..4] in R, G, B of
    pixel 3k + 1 and letterBinary[5..7] in R, G, B of pixel 3k + 2, where
    letterBinary is numberToBinary of the character's code.
   */
  lemma EncodedBitPlacement(s: seq<Pixel>, msg: string, k: nat)
    requires |msg| < 256 && 3 * |msg| <= |s| && k < |msg| && IsByteString(msg)
    ensures var t, lb := Encoded(s, msg), NumberToBinary(msg[k] as int);
      && |lb| == 8
      && Lsb(t[3 * k].g) == DigitValue(lb[0]) && Lsb(t[3 * k].b) == DigitValue(lb[1])
      && Lsb(t[3 * k + 1].r) == DigitValue(lb[2]) && Lsb(t[3 * k + 1].g) == DigitValue(lb[3])
      && Lsb(t[3 * k + 1].b) == DigitValue(lb[4])
      && Lsb(t[3 * k + 2].r) == DigitValue(lb[5]) && Lsb(t[3 * k + 2].g) == DigitValue(lb[6])
      && Lsb(t[3 * k + 2].b) == DigitValue(lb[7])
  {
    var c := msg[k] as int;
    EncodedLetterPixels(s, msg, k);
    EmbedBits(WithHeader(s[3 * k], 3 * k, msg), s[3 * k + 1], s[3 * k + 2], msg, k);
    NumberToBinaryByte(c);
  }

  /** The empty message only sets the header byte to 0. */
  lemma EncodeEmpty(s: seq<Pixel>)
    requires 1 <= |s|
    ensures Encoded(s, "") == s[0 := s[0].(r := 0)]
  {
  }

  /** What decoding yields: exactly red(0) byte-sized characters, or an error when the image is too small. */
  lemma DecodedShape(s: seq<Pixel>)
    ensures Decoded(s).PixelOutOfRange? <==> |s| == 0 || 3 * s[0].r > |s|
    ensures Decoded(s).Ok? ==> |Decoded(s).value| == s[0].r
    ensures Decoded(s).Ok? ==> forall k :: 0 <= k < |Decoded(s).value| ==> Decoded(s).value[k] as int < 256
    ensures 1 <= |s| && s[0].r == 0 ==> Decoded(s) == Ok("")
  {
  }

  /** The three pixels of character c, once encoded, carry c back. */
  lemma LetterOfEmbedded(p0: Pixel, p1: Pixel, p2: Pixel, msg: string, k: nat)
    requires k < |msg| && msg[k] as int < 256
    ensures Letter(Embed(p0, 3 * k, msg), Embed(p1, 3 * k + 1, msg), Embed(p2, 3 * k + 2, msg)) == msg[k] as int
  {
    EmbedBits(p0, p1, p2, msg, k);
    ByteFromBits(msg[k] as int);
  }

  /** Reading back what was written gives the message: decode(encode(s, msg)) == msg. */
  lemma RoundTrip(s: seq<Pixel>, msg: string)
    requires |msg| < 256 && 1 <= |s| && 3 * |msg| <= |s| && IsByteString(msg)
    ensures Decoded(Encoded(s, msg)) == Ok(msg)
  {
    var t := Encoded(s, msg);
    assert t[0].r == |msg|;
    var d := Letters(t, |msg|);
    forall k | 0 <= k < |msg|
      ensures d[k] == msg[k]
    {
      EncodedLetterPixels(s, msg, k);
      LetterOfEmbedded(WithHeader(s[3 * k], 3 * k, msg), s[3 * k + 1], s[3 * k + 2], msg, k);
    }
    assert d == msg;
  }
}
