/**
  Pixel planes and the colour records the image viewer hands to its GUI.

  A decoded image is a flat, row-major sequence of samples: the sample at
  column x and row y of a plane that is w samples wide sits at index y*w + x.
  Colours are plain 4-byte records: building one stores the bytes verbatim.
 */
module Raster {

  /** An 8-bit sample (u8). */
  type byte = x: int | 0 <= x < 256

  /** One pixel of the decoder's RGBA view (image::Rgba<u8>). */
  datatype Rgba = Rgba(r: byte, g: byte, b: byte, a: byte)

  /** One pixel handed to the GUI (egui's Color32, four bytes r, g, b, a). */
  datatype Color32 = Color32(r: byte, g: byte, b: byte, a: byte)

  /** An image handed to the GUI: declared size [width, height] and its pixels. */
  datatype ColorImage = ColorImage(size: (nat, nat), pixels: seq<Color32>)

  /** Color32::from_gray: an opaque gray pixel. */
  function FromGray(l: byte): Color32
  {
    Color32(l, l, l, 255)
  }

  /** Color32::from_rgba_premultiplied: the four bytes, stored as given. */
  function FromRgbaPremultiplied(r: byte, g: byte, b: byte, a: byte): Color32
  {
    Color32(r, g, b, a)
  }

  /** The declared size agrees with the number of pixels. */
  predicate WellSized(img: ColorImage)
  {
    img.size.0 * img.size.1 == |img.pixels|
  }

  /**
    create_color_image: pairs a declared size with a pixel buffer. Nothing is
    checked, so the image is well-sized exactly when the caller's dimensions
    multiply to the buffer's length.
   */
  function CreateColorImage(width: nat, height: nat, data: seq<Color32>): (img: ColorImage)
    ensures img.pixels == data && img.size == (width, height)
    ensures WellSized(img) <==> width * height == |data|
  {
    ColorImage((width, height), data)
  }

  /** Saturating conversion of an integer to a byte (clamp to [0, 255]). */
  function Clamp(v: int): (b: byte)
    ensures 0 <= v <= 255 ==> b == v
    ensures v < 0 ==> b == 0
    ensures v > 255 ==> b == 255
  {
    if v < 0 then 0 else if v > 255 then 255 else v
  }

  /** Number of positions left along an axis of length n once `margin` are cut off at each end. */
  function Interior(n: nat, margin: nat): nat
  {
    if n >= 2 * margin then n - 2 * margin else 0
  }

  /** Every sample of the plane has the value c. */
  predicate Flat(gray: seq<byte>, c: byte)
  {
    forall i :: 0 <= i < |gray| ==> gray[i] == c
  }

  lemma MulMonotonic(a: nat, b: nat, c: nat)
    requires a <= b
    ensures a * c <= b * c
  {
  }

  /** Position (x, y) of a cols×rows grid has a flat row-major index inside the grid. */
  lemma IndexInGrid(x: nat, y: nat, cols: nat, rows: nat)
    requires x < cols && y < rows
    ensures y * cols + x < cols * rows
  {
    MulMonotonic(y + 1, rows, cols);
  }

  /** get_pixel(x, y)[0] of a w×h gray plane stored row-major. */
  function Pixel(gray: seq<byte>, w: nat, h: nat, x: nat, y: nat): byte
    requires |gray| == w * h && x < w && y < h
  {
    IndexInGrid(x, y, w, h);
    gray[y * w + x]
  }

  /** In a flat plane every pixel reads c. */
  lemma FlatPixel(gray: seq<byte>, w: nat, h: nat, x: nat, y: nat, c: byte)
    requires |gray| == w * h && x < w && y < h && Flat(gray, c)
    ensures Pixel(gray, w, h, x, y) == c
  {
    IndexInGrid(x, y, w, h);
  }
}
