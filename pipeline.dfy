/**
  create_images_with_channels: from the decoded picture to the nine images
  the viewer shows, in the order original, red, green, blue, grayscale,
  Sobel, Gaussian, Laplacian, low-pass.

  Decoding is outside the model: the caller supplies the decoder's result,
  None when the bytes are not a picture, and otherwise the picture's
  dimensions, its gray (luma) plane and its RGBA view, both row-major.
 */
module Pipeline {
  import opened Raster
  import opened Filters
  import opened Channels
  import FilterProperties

  /** What the decoder yields: dimensions, gray plane, RGBA view. */
  datatype DecodedImage = DecodedImage(width: nat, height: nat, gray: seq<byte>, rgba: seq<Rgba>)

  /** Both planes hold one sample per pixel of the declared dimensions. */
  predicate Consistent(d: DecodedImage)
  {
    |d.gray| == d.width * d.height && |d.rgba| == d.width * d.height
  }

  /** The nine images, in the order the routine returns them. */
  datatype Images = Images(
    original: ColorImage, red: ColorImage, green: ColorImage, blue: ColorImage,
    grayscale: ColorImage, sobel: ColorImage, gaussian: ColorImage,
    laplace: ColorImage, lowPass: ColorImage)

  /**
    The routine's outcome: no picture (the decoder failed), a picture too
    small for the unsigned size arithmetic `width - 4` / `height - 4`
    (a panic in the program), or the nine images.
   */
  datatype Outcome = DecodeFailed | SizeUnderflow | Ready(images: Images)

  /** The nine images of a decoded picture of at least 4×4 pixels. */
  function ExpectedImages(d: DecodedImage): Images
    requires Consistent(d) && d.width >= 4 && d.height >= 4
  {
    var w, h, gray, rgba := d.width, d.height, d.gray, d.rgba;
    Images(
      CreateColorImage(w, h, seq(|rgba|, i requires 0 <= i < |rgba| => Verbatim(rgba[i]))),
      CreateColorImage(w, h, seq(|rgba|, i requires 0 <= i < |rgba| => RedOnly(rgba[i]))),
      CreateColorImage(w, h, seq(|rgba|, i requires 0 <= i < |rgba| => GreenOnly(rgba[i]))),
      CreateColorImage(w, h, seq(|rgba|, i requires 0 <= i < |rgba| => BlueOnly(rgba[i]))),
      CreateColorImage(w, h, seq(|gray|, i requires 0 <= i < |gray| => FromGray(gray[i]))),
      CreateColorImage(w - 2, h - 2, Output(Sobel, gray, w, h)),
      CreateColorImage(w - 4, h - 4, Output(Gaussian, gray, w, h)),
      CreateColorImage(w - 2, h - 2, Output(Laplace, gray, w, h)),
      CreateColorImage(w - 4, h - 4, Output(LowPass, gray, w, h)))
  }

  /**
    create_images_with_channels, with the Laplacian computed in row-major
    order (ComputeLaplace). None from the decoder gives DecodeFailed; a side
    shorter than 4 gives SizeUnderflow; otherwise the nine images.
   */
  method CreateImagesWithChannels(decoded: Option<DecodedImage>) returns (r: Outcome)
    requires decoded.Some? ==> Consistent(decoded.value)
    ensures r.DecodeFailed? <==> decoded.None?
    ensures r.SizeUnderflow? <==> decoded.Some? && (decoded.value.width < 4 || decoded.value.height < 4)
    ensures r.Ready? ==>
      decoded.Some? && decoded.value.width >= 4 && decoded.value.height >= 4 &&
      r.images == ExpectedImages(decoded.value)
  {
    if decoded.None? {
      return DecodeFailed;
    }
    var d := decoded.value;
    var w, h := d.width, d.height;

    var grayscalePixels := GrayscaleCopy(d.gray);
    var red, green, blue, original := SplitChannels(d.rgba);

    if w < 4 || h < 4 {
      return SizeUnderflow;
    }
    var sobel := ComputeSobel(d.gray, w, h);
    var gaussian := ComputeGaussian(d.gray, w, h);
    var laplace := ComputeLaplace(d.gray, w, h);
    var lowPass := ComputeLowPassFilter(d.gray, w, h);

    var images := Images(
      CreateColorImage(w, h, original),
      CreateColorImage(w, h, red),
      CreateColorImage(w, h, green),
      CreateColorImage(w, h, blue),
      CreateColorImage(w, h, grayscalePixels),
      CreateColorImage(w - 2, h - 2, sobel),
      CreateColorImage(w - 4, h - 4, gaussian),
      CreateColorImage(w - 2, h - 2, laplace),
      CreateColorImage(w - 4, h - 4, lowPass));
    ghost var expected := ExpectedImages(d);
    assert images.original.pixels == expected.original.pixels;
    assert images.red.pixels == expected.red.pixels;
    assert images.green.pixels == expected.green.pixels;
    assert images.blue.pixels == expected.blue.pixels;
    assert images.grayscale.pixels == expected.grayscale.pixels;
    return Ready(images);
  }

  /** Every one of the nine images declares exactly as many pixels as it holds. */
  lemma ImagesWellSized(d: DecodedImage)
    requires Consistent(d) && d.width >= 4 && d.height >= 4
    ensures var im := ExpectedImages(d);
      WellSized(im.original) && WellSized(im.red) && WellSized(im.green) && WellSized(im.blue)
      && WellSized(im.grayscale) && WellSized(im.sobel) && WellSized(im.gaussian)
      && WellSized(im.laplace) && WellSized(im.lowPass)
  {
    OutputSize(Sobel, d.gray, d.width, d.height);
    OutputSize(Gaussian, d.gray, d.width, d.height);
    OutputSize(Laplace, d.gray, d.width, d.height);
    OutputSize(LowPass, d.gray, d.width, d.height);
  }

  /** The low-pass image and the Gaussian image are the same image. */
  lemma BlursAgree(d: DecodedImage)
    requires Consistent(d) && d.width >= 4 && d.height >= 4
    ensures ExpectedImages(d).lowPass == ExpectedImages(d).gaussian
  {
    FilterProperties.LowPassMatchesGaussian(d.gray, d.width, d.height);
  }

  /**
    A picture whose gray plane is flat at level c: the grayscale, blurred and
    sharpened images are flat gray c and the Sobel image is black.
   */
  lemma FlatPicture(d: DecodedImage, c: byte)
    requires Consistent(d) && d.width >= 4 && d.height >= 4 && Flat(d.gray, c)
    ensures var im := ExpectedImages(d);
      (forall i :: 0 <= i < |im.grayscale.pixels| ==> im.grayscale.pixels[i] == FromGray(c))
      && (forall i :: 0 <= i < |im.gaussian.pixels| ==> im.gaussian.pixels[i] == FromGray(c))
      && (forall i :: 0 <= i < |im.lowPass.pixels| ==> im.lowPass.pixels[i] == FromGray(c))
      && (forall i :: 0 <= i < |im.laplace.pixels| ==> im.laplace.pixels[i] == FromGray(c))
      && (forall i :: 0 <= i < |im.sobel.pixels| ==> im.sobel.pixels[i] == FromGray(0))
  {
    FilterProperties.OutputFlat(Gaussian, d.gray, d.width, d.height, c);
    FilterProperties.OutputFlat(LowPass, d.gray, d.width, d.height, c);
    FilterProperties.OutputFlat(Laplace, d.gray, d.width, d.height, c);
    FilterProperties.OutputFlat(Sobel, d.gray, d.width, d.height, c);
  }
}
