/** Frame logic of TakeScreenshot: the pitch-black check, the in-place BGR to
    RGBA conversion, the bytes the PNG encoder reads, and the pixel count. */
module Pixels {
  import opened Efi

  /** EFI_GRAPHICS_OUTPUT_BLT_PIXEL, fields in their declaration (memory) order. */
  datatype Pixel = Pixel(blue: byte, green: byte, red: byte, reserved: byte)

  /** A pixel whose three colour channels are zero; Reserved plays no part. */
  predicate IsBlack(p: Pixel) {
    p.red == 0 && p.green == 0 && p.blue == 0
  }

  /** A captured frame is pitch black when no pixel has a non-zero colour channel. */
  predicate PitchBlack(image: seq<Pixel>) {
    forall i :: 0 <= i < |image| ==> IsBlack(image[i])
  }

  /** Two pixels agree on Red, Green and Blue. */
  predicate SameColour(p: Pixel, q: Pixel) {
    p.red == q.red && p.green == q.green && p.blue == q.blue
  }

  /** The scan for a lit pixel: index of the first pixel with a non-zero
      colour channel, or |image| when there is none. The driver treats the
      frame as pitch black exactly when the scan runs off the end. */
  method FindLitPixel(image: seq<Pixel>) returns (j: nat)
    ensures j <= |image|
    ensures forall k :: 0 <= k < j ==> IsBlack(image[k])
    ensures j < |image| ==> !IsBlack(image[j])
    ensures j == |image| <==> PitchBlack(image)
  {
    j := 0;
    while j < |image|
      invariant j <= |image|
      invariant forall k :: 0 <= k < j ==> IsBlack(image[k])
    {
      if image[j].red != 0 || image[j].green != 0 || image[j].blue != 0 {
        return;
      }
      j := j + 1;
    }
  }

  /** Whether a frame is pitch black depends on its colour channels only. */
  lemma PitchBlackIgnoresReserved(s: seq<Pixel>, t: seq<Pixel>)
    requires |s| == |t|
    requires forall i :: 0 <= i < |s| ==> SameColour(s[i], t[i])
    ensures PitchBlack(s) <==> PitchBlack(t)
  {
  }

  /** One step of the conversion loop: Red and Blue trade places and
      Reserved becomes the opaque alpha 0xFF. */
  function ToRgba(p: Pixel): Pixel {
    Pixel(p.red, p.green, p.blue, 0xFF)
  }

  /** The whole-frame conversion from the capture's BGR layout to the
      encoder's RGBA layout. */
  function ConvertBgrToRgba(image: seq<Pixel>): (r: seq<Pixel>)
    ensures |r| == |image|
    ensures forall i :: 0 <= i < |image| ==>
              && r[i].red == image[i].blue
              && r[i].blue == image[i].red
              && r[i].green == image[i].green
              && r[i].reserved == 0xFF
  {
    seq(|image|, i requires 0 <= i < |image| => ToRgba(image[i]))
  }

  /** The conversion loop as the driver runs it, one pixel at a time in place;
      each pixel's new value depends on that pixel alone. */
  method ConvertInPlace(image: seq<Pixel>) returns (out: seq<Pixel>)
    ensures out == ConvertBgrToRgba(image)
  {
    out := image;
    var j := 0;
    while j < |out|
      invariant |out| == |image|
      invariant 0 <= j <= |out|
      invariant forall k :: 0 <= k < j ==> out[k] == ToRgba(image[k])
      invariant forall k :: j <= k < |out| ==> out[k] == image[k]
    {
      var temp := out[j].blue;
      out := out[j := out[j].(blue := out[j].red)];
      out := out[j := out[j].(red := temp)];
      out := out[j := out[j].(reserved := 0xFF)];
      j := j + 1;
    }
  }

  /** Converting twice gives back the original colour channels, with every
      pixel left opaque. */
  lemma ConvertTwiceRestoresColours(image: seq<Pixel>)
    ensures var twice := ConvertBgrToRgba(ConvertBgrToRgba(image));
            && |twice| == |image|
            && forall i :: 0 <= i < |image| ==> SameColour(twice[i], image[i]) && twice[i].reserved == 0xFF
  {
  }

  /** The conversion neither makes nor unmakes a black frame. */
  lemma ConvertKeepsBlackness(image: seq<Pixel>)
    ensures PitchBlack(ConvertBgrToRgba(image)) <==> PitchBlack(image)
  {
    var r := ConvertBgrToRgba(image);
    forall i | 0 <= i < |image|
      ensures IsBlack(r[i]) <==> IsBlack(image[i])
    {
    }
  }

  /** The frame as the byte array `(CONST UINT8*)Image` that the encoder
      reads: four bytes per pixel, in field order. */
  function Bytes(image: seq<Pixel>): (b: seq<byte>)
    ensures |b| == 4 * |image|
  {
    if |image| == 0 then []
    else [image[0].blue, image[0].green, image[0].red, image[0].reserved] + Bytes(image[1..])
  }

  /** Pixel i occupies bytes 4i to 4i+3 of the buffer. */
  lemma {:induction false} BytesOfPixel(image: seq<Pixel>, i: nat)
    requires i < |image|
    ensures Bytes(image)[4 * i] == image[i].blue
    ensures Bytes(image)[4 * i + 1] == image[i].green
    ensures Bytes(image)[4 * i + 2] == image[i].red
    ensures Bytes(image)[4 * i + 3] == image[i].reserved
  {
    if i > 0 {
      BytesOfPixel(image[1..], i - 1);
      assert Bytes(image) == [image[0].blue, image[0].green, image[0].red, image[0].reserved] + Bytes(image[1..]);
    }
  }

  /** After the conversion the encoder's byte i*4.. reads the captured pixel's
      Red, Green, Blue and an opaque alpha: the RGBA order lodepng_encode32
      expects. */
  lemma EncoderSeesCapturedRgba(image: seq<Pixel>, i: nat)
    requires i < |image|
    ensures var b := Bytes(ConvertBgrToRgba(image));
            && |b| == 4 * |image|
            && b[4 * i] == image[i].red
            && b[4 * i + 1] == image[i].green
            && b[4 * i + 2] == image[i].blue
            && b[4 * i + 3] == 0xFF
  {
    BytesOfPixel(ConvertBgrToRgba(image), i);
  }

  /** The number of pixels of a width by height screen, counted row by row. */
  function Area(width: nat, height: nat): nat
    decreases height
  {
    if height == 0 then 0 else width + Area(width, height - 1)
  }

  /** Counting the pixels row by row gives width * height. */
  lemma {:induction false} AreaIsProduct(width: nat, height: nat)
    ensures Area(width, height) == width * height
    decreases height
  {
    if height > 0 {
      AreaIsProduct(width, height - 1);
    }
  }

  /** ImageSize = ScreenWidth * ScreenHeight: a product of two UINT32 values,
      so C computes it modulo 2^32 before widening it to UINTN. */
  function PixelCount(width: uint32, height: uint32): (n: uint32)
    ensures Area(width, height) < 0x1_0000_0000 ==> n == Area(width, height)
    ensures Area(width, height) >= 0x1_0000_0000 ==> n < Area(width, height)
  {
    Area(width, height) % 0x1_0000_0000
  }

  /** ImageSize in terms of the multiplication the code writes: the product
      when it fits in 32 bits, and smaller, its remainder modulo 2^32, when
      it does not. */
  lemma PixelCountWraps(width: uint32, height: uint32)
    ensures width * height < 0x1_0000_0000 ==> PixelCount(width, height) as int == width * height
    ensures width * height >= 0x1_0000_0000 ==> (PixelCount(width, height) as int) < width * height
    ensures PixelCount(width, height) as int == (width * height) % 0x1_0000_0000
  {
    AreaIsProduct(width, height);
  }
}
