# eink-image pixel pipeline in Dafny

This project models the pixel-processing core of `eink-image`, a converter that prepares images for
two-level electrophoretic (e-ink) displays. Every stage takes a rectangular, row-major buffer of 8-bit
luminance samples and returns a new buffer of the same width and height. The stages are:

- gamma correction through a 256-entry lookup table;
- linear contrast stretch around mid-gray, clamped and truncated;
- binarisation, either by a static threshold or by Floyd–Steinberg error diffusion.

Floyd–Steinberg error diffusion is the algorithmic core. It is a single forward raster scan with a
mutable error grid. Each pixel's original sample plus its accumulated error is compared with the
threshold. The pixel becomes 0 or 255. The difference, scaled by the diffusion amount, is spread to the
not-yet-visited neighbours with weights 7/16 (east), 3/16 (south-west), 5/16 (south) and 1/16
(south-east). Shares that would fall outside the image are dropped.

Files:

- `luma.dfy` (module `Luma`): the `Byte` type, the `Image` buffer (width, height, row-major samples)
  and the row-major addressing lemmas.
- `stages.dfy` (module `Stages`): the per-sample maps and the three pointwise stage methods. Each method
  fills a freshly allocated array in a loop, as the source fills a fresh `ImageBuffer`.
- `dither.dfy` (module `FloydSteinberg`): the kernel, the boundary policy and a reference semantics
  written as mutually recursive functions over scan position. It also holds the imperative `Dither`
  method, which works on an `array<Byte>` output buffer (a copy of the input) and an `array2<real>`
  error grid. `Dither` is proved to compute exactly the reference semantics.
- `pipeline.dfy` (module `Pipeline`): the stage ordering of `process_image`.

Numbers: `f32` values are modelled as exact `real`s. The `as u8` cast is modelled as truncation toward
zero with saturation. `f32::round` rounds to the nearest integer, with halves going away from zero.

## Model

| member | source | states |
|---|---|---|
| `Stages.Clamp` | src/main.rs:182 | the clamped value lies in [lo, hi]; it is the input itself when the input already lies there, lo below the range and hi above it |
| `Stages.CastToByte` | src/main.rs:183 | the `as u8` cast drops the fractional part of a value in [0, 256), sends negatives to 0 and values of 256 and above to 255 |
| `Stages.CastToByteMonotone` | src/main.rs:183 | the cast never reverses the order of two values |
| `Stages.Round` | src/main.rs:201 | the rounded integer is within 1/2 of its argument, and a tie goes away from zero: up for a non-negative argument, down for a negative one |
| `Stages.RoundMonotone` | src/main.rs:201 | rounding never reverses the order of two values |
| `Stages.ContrastValue` | src/main.rs:181-183 | in sample units: the stretched sample (s − 127.5)·level + 127.5 gives 0 at or below 0, 255 at or above 255, and otherwise its truncation (result ≤ value < result + 1) |
| `Stages.ContrastZeroIsMidGray` | src/main.rs:182-183 | contrast level 0 maps every sample to 127 |
| `Stages.ContrastMonotone` | src/main.rs:181-183 | with a non-negative level, a brighter input never gives a darker output |
| `Stages.ContrastPushesToExtremes` | src/main.rs:181-183 | with level ≥ 1, samples ≥ 128 do not get darker and samples ≤ 127 do not get brighter |
| `Stages.EnhanceContrast` | src/main.rs:173-188 | the output has the input's shape, and each output sample, addressed either by buffer index or by (x, y), is `ContrastValue` of the input sample at the same place |
| `Stages.GammaEntry` | src/main.rs:199-201 | table entry i is the nearest integer to curve(i / 255) · 255, ties going up, whenever that value lies in [−1/2, 255.5); below it the entry is 0 and from 255.5 on it is 255 |
| `Stages.BuildGammaLut` | src/main.rs:197-203 | the table has 256 entries, and entry i is within 1/2 of curve(i / 255) · 255 (ties going up) wherever that value lies in [0, 255.5) |
| `Stages.GammaLutIdentity` | src/main.rs:197-203 | with the identity curve (gamma = 1), table entry i is i for all 256 entries |
| `Stages.GammaLutMonotone` | src/main.rs:197-203 | with a non-decreasing curve, the table is non-decreasing |
| `Stages.ApplyGammaCorrection` | src/main.rs:190-211 | the output has the input's shape; each output sample, by buffer index and by (x, y), is the table entry indexed by input pixel (x, y), an index that is always in range; with the identity curve the image is returned unchanged |
| `Stages.ThresholdValue` | src/main.rs:221 | a sample becomes 0 or 255, and 255 exactly when it reaches the threshold |
| `Stages.ApplySimpleThreshold` | src/main.rs:213-226 | the output has the input's shape; output (x, y) is 255 exactly when input (x, y) ≥ threshold and 0 exactly when it is below the threshold |
| `FloydSteinberg.Kernel` | src/main.rs:246-257 | every weight is non-negative, and a non-zero weight only targets a cell strictly later in scan order, within one column and one row of the source |
| `FloydSteinberg.KernelIsComplete` | src/main.rs:247-255 | 7/16 + 3/16 + 5/16 + 1/16 = 1: an interior pixel passes on its whole error |
| `FloydSteinberg.Retained` | src/main.rs:246-257 | the share of a pixel's error that lands inside the image is in [0, 1], and is 1 exactly for pixels off the left column, the right column and the bottom row |
| `FloydSteinberg.SpreadIsRetained` | src/main.rs:246-257 | summed over every cell of the grid, the shares one pixel's error adds (Kernel(i − x, j − y) · error at cell (i, j), as `DiffuseError` adds them) come to `Retained` times the error |
| `FloydSteinberg.RightEdgeLosesHalf` | src/main.rs:246-257 | on the right column above the last row the east and south-east shares are dropped: half is kept, strictly less than for the pixel to its left |
| `FloydSteinberg.Quantize` | src/main.rs:241 | the binarised value is 0 or 255, and is 255 exactly when the effective value reaches the threshold |
| `FloydSteinberg.Incoming` | src/main.rs:246-257 | the error that earlier pixels have pushed into a cell so far, summed over its four possible sources; with a diffusion amount in [0, 1] it lies in [−255, 255] |
| `FloydSteinberg.Accumulated` | src/main.rs:240 | the error a pixel has accumulated when the scan reaches it; with a diffusion amount in [0, 1] it lies in [−255, 255] |
| `FloydSteinberg.Effective` | src/main.rs:239-240 | the original sample plus the accumulated error; with a diffusion amount in [0, 1] it lies in [−255, 510] |
| `FloydSteinberg.Diffused` | src/main.rs:241-242 | the error a pixel passes on; with a diffusion amount in [0, 1] it lies in [−255, 255], so the error does not grow along the scan |
| `FloydSteinberg.Output` | src/main.rs:239-244 | the pixel written at (x, y) is 0 or 255, and 255 exactly when the original sample plus the accumulated error reaches the threshold |
| `FloydSteinberg.IncomingStep` | src/main.rs:237-257 | visiting pixel (x, y) adds to every cell exactly the kernel share of (x, y)'s diffused error, and nothing else |
| `FloydSteinberg.AccumulatedIsFinal` | src/main.rs:237-240 | once the scan has reached a cell, the error pushed into it is already its final accumulated error |
| `FloydSteinberg.ZeroDiffusionIsThreshold` | src/main.rs:240-242 | with diffusion amount 0 the accumulated error is 0 everywhere and every output pixel equals the static threshold of its input pixel |
| `FloydSteinberg.HandTracedExample` | src/main.rs:237-257 | for [[100, 150], [50, 200]], threshold 128 and diffusion 0.8, the output is [[0, 255], [0, 255]] |
| `FloydSteinberg.DiffuseError` | src/main.rs:246-257 | every grid cell grows by the kernel weight at its offset from (x, y) times the error, so targets outside the grid get nothing and no other cell changes |
| `FloydSteinberg.ScanPixel` | src/main.rs:239-257 | one scan step keeps both loop invariants. The pixel read is the original input (it has not been overwritten yet). The error read is final. Exactly this one pixel is written. |
| `FloydSteinberg.Dither` | src/main.rs:228-262 | the output has the input's shape; every output pixel is 0 or 255, and it is 255 exactly when the original input sample plus the error accumulated from earlier pixels reaches the threshold (the reference semantics `Output`) |
| `Pipeline.Prepared` | src/main.rs:142-147 | the image handed to binarisation has the input's shape, and each pixel is the contrast stretch of the gamma table entry of the input pixel |
| `Pipeline.ProcessPixels` | src/main.rs:142-159 | gamma, then contrast, then dithering or threshold: the result has the input's shape and only 0/255 pixels; with dithering each pixel is the Floyd–Steinberg `Output` of the `Prepared` image; without dithering, or with diffusion 0, each pixel is the threshold of the contrast of the gamma table entry of its input pixel |

## Left out

- `main` (src/main.rs:8-121): argument parsing, defaults and console output are command-line plumbing.
- `process_image` (src/main.rs:124-167): file decoding, saving, the progress bar and error propagation
  are I/O. Only the stage ordering is modelled, in `Pipeline.ProcessPixels`.
- `convert_to_grayscale` (src/main.rs:169-171) calls the image library's `to_luma8`, which is not part
  of this model. The pipeline starts from a grayscale buffer.
- The gamma curve `normalized.powf(1.0 / gamma)` (src/main.rs:200) is a floating-point library function.
  It is a parameter `curve: real -> real` of `Stages.BuildGammaLut` and `Stages.ApplyGammaCorrection`.
  The scaling, rounding, cast and table lookup around it are modelled.
- `f32` rounding: all arithmetic is exact real arithmetic. Under `f32`, a truncated contrast result can be
  one lower than the exact one, so contrast level 1.0 is not claimed to be the identity. Under `f32` the
  order in which the four error shares are added to a cell also matters; here it does not. NaN and
  infinities do not arise in the model.
- `Stages.ContrastPushesToExtremes`: proved in exact arithmetic; the `f32` computation may land one below
  the input for a bright sample at level 1.
- `FloydSteinberg.HandTracedExample`: the values are computed exactly. Every effective value is at least 28
  away from the threshold.
- Determinism of the pipeline holds trivially, since every member is a function of its inputs. It is
  not stated separately.
