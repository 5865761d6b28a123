/**
  The two per-pixel copy loops of create_images_with_channels: the gray
  plane copied as opaque gray pixels, and the RGBA view split into one image
  per colour channel plus an unchanged copy. Both loops visit the pixels in
  the decoder's order and append one output pixel per input pixel.
 */
module Channels {
  import opened Raster

  /** The red-only pixel (r, 0, 0, a). */
  function RedOnly(p: Rgba): Color32
  {
    FromRgbaPremultiplied(p.r, 0, 0, p.a)
  }

  /** The green-only pixel (0, g, 0, a). */
  function GreenOnly(p: Rgba): Color32
  {
    FromRgbaPremultiplied(0, p.g, 0, p.a)
  }

  /** The blue-only pixel (0, 0, b, a). */
  function BlueOnly(p: Rgba): Color32
  {
    FromRgbaPremultiplied(0, 0, p.b, p.a)
  }

  /** The pixel copied unchanged (r, g, b, a). */
  function Verbatim(p: Rgba): Color32
  {
    FromRgbaPremultiplied(p.r, p.g, p.b, p.a)
  }

  /**
    The grayscale loop: one opaque gray pixel per sample, in order. The gray
    level is stored in all three colour channels, so each sample can be read
    back from any of them.
   */
  method GrayscaleCopy(gray: seq<byte>) returns (pixels: seq<Color32>)
    ensures |pixels| == |gray|
    ensures forall i :: 0 <= i < |gray| ==>
      pixels[i].r == gray[i] && pixels[i].g == gray[i] && pixels[i].b == gray[i] && pixels[i].a == 255
  {
    pixels := [];
    var i := 0;
    while i < |gray|
      invariant 0 <= i <= |gray|
      invariant |pixels| == i
      invariant forall j :: 0 <= j < i ==> pixels[j] == FromGray(gray[j])
    {
      pixels := pixels + [FromGray(gray[i])];
      i := i + 1;
    }
  }

  /**
    The channel loop: for every RGBA pixel, a red-only, a green-only and a
    blue-only pixel that keep its alpha, and the pixel itself. Adding the
    three channel images channel by channel gives back the original colours.
   */
  method SplitChannels(rgba: seq<Rgba>) returns (red: seq<Color32>, green: seq<Color32>, blue: seq<Color32>, original: seq<Color32>)
    ensures |red| == |green| == |blue| == |original| == |rgba|
    ensures forall i :: 0 <= i < |rgba| ==>
      red[i].r == rgba[i].r && red[i].g == 0 && red[i].b == 0 &&
      green[i].r == 0 && green[i].g == rgba[i].g && green[i].b == 0 &&
      blue[i].r == 0 && blue[i].g == 0 && blue[i].b == rgba[i].b
    ensures forall i :: 0 <= i < |rgba| ==>
      red[i].a == rgba[i].a && green[i].a == rgba[i].a && blue[i].a == rgba[i].a
    ensures forall i :: 0 <= i < |rgba| ==>
      original[i].r == rgba[i].r && original[i].g == rgba[i].g && original[i].b == rgba[i].b && original[i].a == rgba[i].a
    ensures forall i :: 0 <= i < |rgba| ==>
      red[i].r + green[i].r + blue[i].r == original[i].r &&
      red[i].g + green[i].g + blue[i].g == original[i].g &&
      red[i].b + green[i].b + blue[i].b == original[i].b
  {
    red, green, blue, original := [], [], [], [];
    var i := 0;
    while i < |rgba|
      invariant 0 <= i <= |rgba|
      invariant |red| == |green| == |blue| == |original| == i
      invariant forall j :: 0 <= j < i ==>
        red[j] == RedOnly(rgba[j]) && green[j] == GreenOnly(rgba[j]) &&
        blue[j] == BlueOnly(rgba[j]) && original[j] == Verbatim(rgba[j])
    {
      var p := rgba[i];
      red := red + [RedOnly(p)];
      green := green + [GreenOnly(p)];
      blue := blue + [BlueOnly(p)];
      original := original + [Verbatim(p)];
      i := i + 1;
    }
  }
}
