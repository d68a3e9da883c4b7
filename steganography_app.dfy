/**
  The image-facing half of the steganography app: `encode` and `decode`
  walking the pixel grid of an RGB image in place, proved against the
  row-major description of the format in LsbFormat.
 */
module SteganographyApp {
  import opened BinaryStrings
  import opened LsbFormat

  /** An RGB image as the pixel access object sees it: `pixels[x, y]` with 0 <= x < width, 0 <= y < height. */
  class Image {
    const width: nat
    const height: nat
    const pixels: array2<Pixel>

    ghost predicate Valid() {
      pixels.Length0 == width && pixels.Length1 == height
    }

    constructor (grid: array2<Pixel>)
      ensures Valid() && pixels == grid
    {
      width, height, pixels := grid.Length0, grid.Length1, grid;
    }

    /** The pixel with flat index i, at x = i % width, y = i / width. */
    ghost function At(i: nat): Pixel
      requires Valid() && i < width * height
      reads pixels
    {
      CellOfIndex(width, height, i);
      pixels[i % width, i / width]
    }

    /** The image's pixels in row-major order. */
    ghost function Flat(): (s: seq<Pixel>)
      requires Valid()
      reads pixels
      ensures |s| == width * height
    {
      seq(width * height, i requires 0 <= i < width * height reads pixels => At(i))
    }

    /**
      `pixels[i % width, i // width]`: the pixel with flat index i, or the
      IndexError of an access below the last row (or into an empty image).
     */
    method Get(i: nat) returns (r: Result<Pixel>)
      requires Valid()
      ensures i < |Flat()| ==> r == Ok(Flat()[i])
      ensures |Flat()| <= i ==> r == PixelOutOfRange
    {
      if width == 0 {
        assert width * height == 0;
        return PixelOutOfRange;
      }
      var x := i % width;
      var y := i / width;
      RowOfIndex(width, height, i);
      if y >= height {
        return PixelOutOfRange;
      }
      return Ok(pixels[x, y]);
    }

    /** `pixels[i % width, i // width] = p` for a flat index i inside the image. */
    method Put(i: nat, p: Pixel)
      requires Valid() && i < |Flat()|
      modifies pixels
      ensures Flat() == old(Flat())[i := p]
    {
      CellOfIndex(width, height, i);
      pixels[i % width, i / width] := p;
      forall j | 0 <= j < width * height
        ensures At(j) == old(Flat())[i := p][j]
      {
        if j != i {
          CellsDistinct(width, i, j);
          CellOfIndex(width, height, j);
        }
      }
    }
  }

  /** Flat index i lies in the image exactly when it is below width * height. */
  lemma CellOfIndex(w: nat, h: nat, i: nat)
    requires i < w * h
    ensures 0 < w && i % w < w && i / w < h
  {
    RowOfIndex(w, h, i);
  }

  /** Flat index i is below width * height exactly when its row i / w is below the height. */
  lemma RowOfIndex(w: nat, h: nat, i: nat)
    requires 0 < w
    ensures i < w * h <==> i / w < h
  {
    var q := i / w;
    assert q * w <= i < q * w + w;
    if q < h {
      MulMonotone(q + 1, h, w);
    } else {
      MulMonotone(h, q, w);
    }
  }

  lemma MulMonotone(a: nat, b: nat, c: nat)
    requires a <= b
    ensures a * c <= b * c
  {
    assert b * c == a * c + (b - a) * c;
  }

  /** One step of the pixel counter: how `pixel % 3` and `pixel // 3` move on. */
  lemma CountStep(i: nat)
    ensures i == 3 * (i / 3) + i % 3 && i % 3 < 3
    ensures (i + 1) / 3 == if i % 3 == 2 then i / 3 + 1 else i / 3
    ensures (i + 1) % 3 == if i % 3 == 2 then 0 else i % 3 + 1
  {
  }

  /**
    `numberToBinary(v)` for a channel value or a character code v < 256:
    eight digits, most significant first, that read back as v.
   */
  method ByteToBinary(v: nat) returns (binary: string)
    requires v < 256
    ensures |binary| == 8 && IsDigits(binary)
    ensures forall j :: 0 <= j < 8 ==> binary[j] == Digit(Bit(v, 7 - j))
    ensures BinaryToNumber(binary) == v
  {
    binary := NumberToBinary(v);
    NumberToBinaryByte(v);
    BinaryRoundTrip(v);
  }

  /**
    One step of the decoding walk: the pixel at flat index i is read and
    the last digits of numberToBinary of its R, G and B are returned, or
    the access fails outside the image.
   */
  method LowDigits(img: Image, i: nat) returns (r: Result<(char, char, char)>)
    requires img.Valid()
    ensures i < |img.Flat()| ==>
              var p := img.Flat()[i];
              r == Ok((Digit(Lsb(p.r)), Digit(Lsb(p.g)), Digit(Lsb(p.b))))
    ensures |img.Flat()| <= i ==> r == PixelOutOfRange
  {
    var got := img.Get(i);
    if got.PixelOutOfRange? {
      return PixelOutOfRange;
    }
    var px := got.value;
    var redBinary := ByteToBinary(px.r);
    var greenBinary := ByteToBinary(px.g);
    var blueBinary := ByteToBinary(px.b);
    return Ok((redBinary[7], greenBinary[7], blueBinary[7]));
  }

  /** A channel the current slot does not carry: numberToBinary, then binaryToNumber, gives it back unchanged. */
  method KeepChannel(v: Byte) returns (w: Byte)
    ensures w == v
  {
    var binary := ByteToBinary(v);
    w := BinaryToNumber(binary);
  }

  /**
    A channel the current slot carries: numberToBinary(v)[:7] + d read back
    with binaryToNumber keeps the top seven bits of v and has d as its
    least significant bit.
   */
  method ReplaceLowDigit(v: Byte, d: char) returns (w: Byte)
    requires IsDigit(d)
    ensures w / 2 == v / 2 && Lsb(w) == DigitValue(d)
  {
    var binary := ByteToBinary(v);
    LastDigitReplaced(binary, d);
    binary := binary[..7] + [d];
    w := BinaryToNumber(binary);
  }

  /**
    One step of the encoding walk, on the pixel in slot `slot` of its
    character: the first pixel takes letterBinary[0..1] in G and B, the
    second letterBinary[2..4] and the third letterBinary[5..7] in R, G and B;
    every other channel is left as it was.
   */
  method WritePixel(px: Pixel, slot: nat, letterBinary: string) returns (q: Pixel)
    requires slot < 3 && |letterBinary| == 8 && IsDigits(letterBinary)
    ensures q.r == if slot == 0 then px.r else WithLsb(px.r, DigitValue(letterBinary[3 * slot - 1]))
    ensures q.g == WithLsb(px.g, DigitValue(letterBinary[if slot == 0 then 0 else 3 * slot]))
    ensures q.b == WithLsb(px.b, DigitValue(letterBinary[if slot == 0 then 1 else 3 * slot + 1]))
  {
    var red, green, blue;
    if slot == 0 {
      red := KeepChannel(px.r);
      green := ReplaceLowDigit(px.g, letterBinary[0]);
      blue := ReplaceLowDigit(px.b, letterBinary[1]);
    } else if slot == 1 {
      red := ReplaceLowDigit(px.r, letterBinary[2]);
      green := ReplaceLowDigit(px.g, letterBinary[3]);
      blue := ReplaceLowDigit(px.b, letterBinary[4]);
    } else {
      red := ReplaceLowDigit(px.r, letterBinary[5]);
      green := ReplaceLowDigit(px.g, letterBinary[6]);
      blue := ReplaceLowDigit(px.b, letterBinary[7]);
    }
    q := Pixel(red, green, blue);
  }

  /** The digits `letterBinary` holds in `decode` once i pixels are read, in the middle of a character. */
  ghost function HeldDigits(s: seq<Pixel>, i: nat): string
    requires 0 < i <= |s| && i % 3 != 0
  {
    if i % 3 == 1 then PixelDigits(s[i - 1], true)
    else PixelDigits(s[i - 2], true) + PixelDigits(s[i - 1], false)
  }

  /** How reading pixel i changes the digits held: start a character, extend it, or complete it. */
  lemma HeldDigitsStep(s: seq<Pixel>, i: nat)
    requires i < |s|
    ensures i % 3 == 0 ==> HeldDigits(s, i + 1) == PixelDigits(s[i], true)
    ensures i % 3 == 1 ==> HeldDigits(s, i + 1) == HeldDigits(s, i) + PixelDigits(s[i], false)
    ensures i % 3 == 2 ==> HeldDigits(s, i) + PixelDigits(s[i], false) == LetterDigits(s, i / 3)
  {
    CountStep(i);
  }

  /**
    The bookkeeping of `decode` for the pixel with flat index `pixel`, whose
    channels end in the digits red7, green7, blue7: the first pixel of a
    character starts letterBinary with G and B, the other two append R, G
    and B, and the third turns the eight digits into a character with
    binaryToNumber. It keeps msg equal to the letters of the pixel triples
    read so far, and letterBinary equal to the digits held mid-character.
   */
  method CollectDigits(pixel: nat, letterBinary: string, msg: string, red7: char, green7: char, blue7: char,
                       ghost s: seq<Pixel>)
    returns (nextBinary: string, nextMsg: string)
    requires pixel < |s|
    requires red7 == Digit(Lsb(s[pixel].r)) && green7 == Digit(Lsb(s[pixel].g)) && blue7 == Digit(Lsb(s[pixel].b))
    requires msg == Letters(s, pixel / 3)
    requires pixel % 3 != 0 ==> letterBinary == HeldDigits(s, pixel)
    ensures nextMsg == Letters(s, (pixel + 1) / 3)
    ensures (pixel + 1) % 3 != 0 ==> nextBinary == HeldDigits(s, pixel + 1)
  {
    CountStep(pixel);
    PixelDigitsOf(s[pixel], red7, green7, blue7);
    HeldDigitsStep(s, pixel);
    ghost var k := pixel / 3;
    nextMsg := msg;
    if pixel % 3 == 0 {
      nextBinary := [green7, blue7];
      assert (pixel + 1) / 3 == k;
    } else if pixel % 3 == 1 {
      nextBinary := letterBinary + [red7, green7, blue7];
      assert (pixel + 1) / 3 == k;
    } else {
      nextBinary := letterBinary + [red7, green7, blue7];
      LetterDigitsValue(s, k);
      LettersSnoc(s, k);
      nextMsg := msg + [BinaryToNumber(nextBinary) as char];
      assert (pixel + 1) / 3 == k + 1;
    }
  }

  /** The image during `encode`: header written, and payload written to the first i pixels. */
  ghost function Partial(orig: seq<Pixel>, msg: string, i: nat): (t: seq<Pixel>)
    requires |msg| < 256
    ensures |t| == |orig|
  {
    seq(|orig|, j requires 0 <= j < |orig| => if j < i then EncodedPixel(orig[j], j, msg) else WithHeader(orig[j], j, msg))
  }

  /** Writing the header byte turns the original image into the state before the first payload pixel. */
  lemma PartialStart(orig: seq<Pixel>, msg: string)
    requires |msg| < 256 && 1 <= |orig|
    ensures orig[0 := orig[0].(r := |msg|)] == Partial(orig, msg, 0)
  {
  }

  /** Writing pixel i moves the encoding state on by one pixel. */
  lemma PartialStep(orig: seq<Pixel>, msg: string, i: nat)
    requires |msg| < 256 && i < |orig|
    ensures Partial(orig, msg, i)[i := EncodedPixel(orig[i], i, msg)] == Partial(orig, msg, i + 1)
  {
  }

  /** Once all 3 |msg| payload pixels are written, the image is the encoded one. */
  lemma PartialEnd(orig: seq<Pixel>, msg: string)
    requires |msg| < 256 && 3 * |msg| <= |orig|
    ensures Partial(orig, msg, 3 * |msg|) == Encoded(orig, msg)
  {
  }

  /** Distinct flat indices name distinct cells. */
  lemma CellsDistinct(w: nat, i: nat, j: nat)
    requires 0 < w && i != j
    ensures i % w != j % w || i / w != j / w
  {
    assert i == (i / w) * w + i % w;
    assert j == (j / w) * w + j % w;
  }

  /**
    `encode(img, msg)`: the length goes into the red channel of pixel (0, 0),
    then flat pixels 0 .. 3 |msg| - 1 receive the bits of the characters, and
    the grid ends up as the format describes.
   */
  method Encode(img: Image, msg: string)
    requires img.Valid() && 1 <= img.width && 1 <= img.height
    requires |msg| < 256 && 3 * |msg| <= img.width * img.height && IsByteString(msg)
    modifies img.pixels
    ensures img.Flat() == Encoded(old(img.Flat()), msg)
  {
    ghost var orig := img.Flat();
    var letterSpot := 0;
    var pixel := 0;
    var letterBinary := "";
    var msgLength := |msg|;

    var got := img.Get(0);
    var first := got.value;
    img.Put(0, Pixel(msgLength, first.g, first.b));
    PartialStart(orig, msg);

    for i := 0 to msgLength * 3
      invariant pixel == i && letterSpot == i / 3
      invariant i % 3 != 0 ==>
                  && |letterBinary| == 8 && IsDigits(letterBinary)
                  && forall j :: 0 <= j < 8 ==> letterBinary[j] == Digit(LetterBit(msg[i / 3] as int, j))
      invariant img.Flat() == Partial(orig, msg, i)
    {
      got := img.Get(i);
      var px := got.value;
      assert px == WithHeader(orig[i], i, msg);
      CountStep(i);

      if pixel % 3 == 0 {
        letterBinary := ByteToBinary(msg[letterSpot] as int);
      }
      var written := WritePixel(px, pixel % 3, letterBinary);
      if pixel % 3 == 2 {
        letterSpot := letterSpot + 1;
      }
      assert written == EncodedPixel(orig[i], i, msg);
      img.Put(i, written);
      PartialStep(orig, msg, i);
      pixel := pixel + 1;
    }
    PartialEnd(orig, msg);
  }

  /**
    `decode(img)`: reads red(0, 0) characters back from the least significant
    bits, or fails like the source's out-of-range pixel access when the image
    is empty or too small for the announced length.
   */
  method Decode(img: Image) returns (r: Result<string>)
    requires img.Valid()
    ensures r == Decoded(img.Flat())
  {
    ghost var s := img.Flat();
    var msg := "";
    var got := img.Get(0);
    if got.PixelOutOfRange? {
      return PixelOutOfRange;
    }
    var msgLength: nat := got.value.r;
    assert s[0].r == msgLength;
    var pixel := 0;
    var letterBinary := "";

    for i := 0 to msgLength * 3
      invariant pixel == i && i <= |s|
      invariant msg == Letters(s, i / 3)
      invariant i % 3 != 0 ==> letterBinary == HeldDigits(s, i)
    {
      var digits := LowDigits(img, i);
      if digits.PixelOutOfRange? {
        return PixelOutOfRange;
      }
      var (red7, green7, blue7) := digits.value;
      letterBinary, msg := CollectDigits(pixel, letterBinary, msg, red7, green7, blue7, s);
      pixel := pixel + 1;
    }
    assert msg == Letters(s, msgLength);
    return Ok(msg);
  }

  /** Encoding a message and decoding the same image gives the message back. */
  method EncodeThenDecode(img: Image, msg: string) returns (r: Result<string>)
    requires img.Valid() && 1 <= img.width && 1 <= img.height
    requires |msg| < 256 && 3 * |msg| <= img.width * img.height && IsByteString(msg)
    modifies img.pixels
    ensures r == Ok(msg)
  {
    ghost var before := img.Flat();
    Encode(img, msg);
    r := Decode(img);
    RoundTrip(before, msg);
  }
}
