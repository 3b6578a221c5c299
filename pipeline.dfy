/** The stage ordering of `process_image`: gamma, then contrast, then either
    Floyd-Steinberg dithering or the static threshold. Decoding the file,
    the grayscale conversion, the progress bar and saving are not modelled;
    the pipeline starts from the grayscale buffer. */
module Pipeline {
  import opened Luma
  import opened Stages
  import opened FloydSteinberg

  /** The image the binarisation stage receives: every sample remapped
      through the gamma table, then contrast-stretched. */
  function Prepared(gray: Image, curve: real -> real, contrastLevel: real): (p: Image)
    requires gray.Valid()
    ensures p.Valid() && SameShape(p, gray)
    ensures forall x: nat, y: nat :: x < p.width && y < p.height ==>
      p.At(x, y) == ContrastValue(BuildGammaLut(curve)[gray.At(x, y)], contrastLevel)
  {
    var lut := BuildGammaLut(curve);
    Image(gray.width, gray.height,
          seq(|gray.data|, k requires 0 <= k < |gray.data| => ContrastValue(lut[gray.data[k]], contrastLevel)))
  }

  /** The pixel path of `process_image`. The result has the input's shape and
      holds only black and white. With dithering it is the Floyd-Steinberg
      output of the gamma-corrected, contrast-stretched image; without
      dithering, or with a diffusion amount of 0, each output pixel depends on
      its own input pixel alone. */
  method ProcessPixels(gray: Image, curve: real -> real, contrastLevel: real, enableDither: bool,
                       diffusion: real, threshold: Byte) returns (final: Image)
    requires gray.Valid()
    ensures final.Valid() && SameShape(final, gray)
    ensures forall x: nat, y: nat :: x < final.width && y < final.height ==>
      final.At(x, y) == 0 || final.At(x, y) == 255
    ensures enableDither ==>
      forall x: nat, y: nat :: x < final.width && y < final.height ==>
        final.At(x, y) == Output(Prepared(gray, curve, contrastLevel), diffusion, threshold, x, y)
    ensures !enableDither || diffusion == 0.0 ==>
      forall x: nat, y: nat :: x < final.width && y < final.height ==>
        final.At(x, y) == ThresholdValue(ContrastValue(BuildGammaLut(curve)[gray.At(x, y)], contrastLevel), threshold)
  {
    var gammaCorrected := ApplyGammaCorrection(gray, curve);
    var enhanced := EnhanceContrast(gammaCorrected, contrastLevel);
    assert enhanced == Prepared(gray, curve, contrastLevel);
    if enableDither {
      final := Dither(enhanced, diffusion, threshold);
      if diffusion == 0.0 {
        forall x: nat, y: nat | x < enhanced.width && y < enhanced.height
          ensures Output(enhanced, diffusion, threshold, x, y) == ThresholdValue(enhanced.At(x, y), threshold)
        {
          ZeroDiffusionIsThreshold(enhanced, threshold, x, y);
        }
      }
    } else {
      final := ApplySimpleThreshold(enhanced, threshold);
    }
  }
}
