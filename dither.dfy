/** Floyd-Steinberg error diffusion (`apply_floyd_steinberg_dithering`).

    A single forward raster scan, top to bottom and left to right. At each
    pixel the original input sample plus the error accumulated so far is
    compared with the threshold, the pixel is set to 0 or 255, and the
    difference, scaled by the diffusion amount, is pushed to the neighbours
    that are visited later: 7/16 east, 3/16 south-west, 5/16 south, 1/16
    south-east. Shares that would land outside the image are dropped.

    The reference semantics below describes the value of every pixel without
    any mutable state, by looking backwards: the error a cell has received
    when the scan reaches a given position is the sum of the shares pushed
    into it by those of its four possible sources that were already visited.
    The method `Dither` keeps the source's mutable error grid and output
    buffer and is proved to compute exactly that semantics. */
module FloydSteinberg {
  import opened Luma
  import Stages

  /** Cell (x1, y1) is visited strictly before cell (x2, y2). */
  predicate Before(x1: int, y1: int, x2: int, y2: int) {
    y1 < y2 || (y1 == y2 && x1 < x2)
  }

  /** Cell (i, j) exists in a width x height image. */
  predicate InGrid(width: nat, height: nat, i: int, j: int) {
    0 <= i < width && 0 <= j < height
  }

  /** Share of a pixel's error that the kernel sends to the cell at offset
      (dx, dy) from it. Every share goes to a cell later in scan order. */
  function Kernel(dx: int, dy: int): (w: real)
    ensures 0.0 <= w
    ensures w != 0.0 ==> Before(0, 0, dx, dy)
    ensures w != 0.0 ==> -1 <= dx <= 1 && dy <= 1
  {
    if dx == 1 && dy == 0 then 7.0 / 16.0
    else if dx == -1 && dy == 1 then 3.0 / 16.0
    else if dx == 0 && dy == 1 then 5.0 / 16.0
    else if dx == 1 && dy == 1 then 1.0 / 16.0
    else 0.0
  }

  /** The four shares add up to the whole error: 7 + 3 + 5 + 1 = 16 sixteenths. */
  lemma KernelIsComplete()
    ensures Kernel(1, 0) + Kernel(-1, 1) + Kernel(0, 1) + Kernel(1, 1) == 1.0
  {
  }

  /** Share of a pixel's error that stays inside a width x height image:
      the kernel's weights summed over those targets that exist. An interior
      pixel passes on all of its error; every pixel on the left column, the
      right column or the bottom row loses part of it. */
  function Retained(width: nat, height: nat, x: nat, y: nat): (r: real)
    requires x < width && y < height
    ensures 0.0 <= r <= 1.0
    ensures r == 1.0 <==> 0 < x && x + 1 < width && y + 1 < height
  {
    (if InGrid(width, height, x + 1, y) then Kernel(1, 0) else 0.0)
    + (if InGrid(width, height, x - 1, y + 1) then Kernel(-1, 1) else 0.0)
    + (if InGrid(width, height, x, y + 1) then Kernel(0, 1) else 0.0)
    + (if InGrid(width, height, x + 1, y + 1) then Kernel(1, 1) else 0.0)
  }

  /** What scattering an error from (x, y) adds to the cells (0, j) .. (n - 1, j)
      of row j, the cell at (i, j) receiving Kernel(i - x, j - y) * error. */
  function RowSpread(x: nat, y: nat, error: real, j: nat, n: nat): real
    decreases n
  {
    if n == 0 then 0.0 else RowSpread(x, y, error, j, n - 1) + Kernel(n - 1 - x, j - y) * error
  }

  /** What scattering an error from (x, y) adds to the first m rows of a grid
      of the given width. */
  function GridSpread(x: nat, y: nat, error: real, width: nat, m: nat): real
    decreases m
  {
    if m == 0 then 0.0 else GridSpread(x, y, error, width, m - 1) + RowSpread(x, y, error, m - 1, width)
  }

  /** Only the pixel's own row and the row below receive anything. */
  lemma {:induction false} RowSpreadValue(x: nat, y: nat, error: real, j: nat, n: nat)
    ensures RowSpread(x, y, error, j, n) ==
      if j == y then (if x + 1 < n then Kernel(1, 0) * error else 0.0)
      else if j == y + 1 then
        (if 0 < x && x <= n then Kernel(-1, 1) * error else 0.0)
        + (if x < n then Kernel(0, 1) * error else 0.0)
        + (if x + 1 < n then Kernel(1, 1) * error else 0.0)
      else 0.0
    decreases n
  {
    if n > 0 {
      RowSpreadValue(x, y, error, j, n - 1);
    }
  }

  lemma {:induction false} GridSpreadValue(x: nat, y: nat, error: real, width: nat, m: nat)
    ensures GridSpread(x, y, error, width, m) ==
      (if y < m then RowSpread(x, y, error, y, width) else 0.0)
      + (if y + 1 < m then RowSpread(x, y, error, y + 1, width) else 0.0)
    decreases m
  {
    if m > 0 {
      GridSpreadValue(x, y, error, width, m - 1);
      RowSpreadValue(x, y, error, m - 1, width);
    }
  }

  /** Summed over the whole grid, the shares `DiffuseError` adds for one
      pixel come to `Retained` times the error: the boundary policy of
      src/main.rs:246-257 loses exactly the shares aimed outside the image. */
  lemma SpreadIsRetained(width: nat, height: nat, x: nat, y: nat, error: real)
    requires x < width && y < height
    ensures GridSpread(x, y, error, width, height) == Retained(width, height, x, y) * error
  {
    GridSpreadValue(x, y, error, width, height);
    RowSpreadValue(x, y, error, y, width);
    RowSpreadValue(x, y, error, y + 1, width);
  }

  /** On the right column (above the last row) the east and south-east shares,
      7/16 and 1/16, are dropped, so half of the error is lost. */
  lemma RightEdgeLosesHalf(width: nat, height: nat, y: nat)
    requires 1 < width && y + 1 < height
    ensures Retained(width, height, width - 1, y) == 0.5
    ensures Retained(width, height, width - 1, y) < Retained(width, height, width - 2, y)
  {
  }

  /** The binarisation of one effective value (src/main.rs:241). */
  function Quantize(v: real, threshold: Byte): (b: Byte)
    ensures b == 0 || b == 255
    ensures b == 255 <==> v >= threshold as real
  {
    if v < threshold as real then 0 else 255
  }

  /** Error pushed into cell (i, j) by the cells visited before the scan
      position (cx, cy); the terms are listed in the order in which the
      sources are visited: north-west, north, north-east, west. */
  function Incoming(img: Image, diffusion: real, threshold: Byte, i: nat, j: nat, cx: int, cy: int): (r: real)
    requires img.Valid() && i < img.width && j < img.height
    ensures 0.0 <= diffusion <= 1.0 ==> -255.0 <= r <= 255.0
    decreases j, i, 0
  {
    (if 0 < i && 0 < j && Before(i - 1, j - 1, cx, cy)
     then Kernel(1, 1) * Diffused(img, diffusion, threshold, i - 1, j - 1) else 0.0)
    + (if 0 < j && Before(i, j - 1, cx, cy)
       then Kernel(0, 1) * Diffused(img, diffusion, threshold, i, j - 1) else 0.0)
    + (if 0 < j && i + 1 < img.width && Before(i + 1, j - 1, cx, cy)
       then Kernel(-1, 1) * Diffused(img, diffusion, threshold, i + 1, j - 1) else 0.0)
    + (if 0 < i && Before(i - 1, j, cx, cy)
       then Kernel(1, 0) * Diffused(img, diffusion, threshold, i - 1, j) else 0.0)
  }

  /** Error accumulated at (x, y) when the scan reaches it. With a diffusion
      amount in [0, 1] it never exceeds one full sample range either way. */
  function Accumulated(img: Image, diffusion: real, threshold: Byte, x: nat, y: nat): (r: real)
    requires img.Valid() && x < img.width && y < img.height
    ensures 0.0 <= diffusion <= 1.0 ==> -255.0 <= r <= 255.0
    decreases y, x, 1
  {
    Incoming(img, diffusion, threshold, x, y, x, y)
  }

  /** The original input sample plus the accumulated error. */
  function Effective(img: Image, diffusion: real, threshold: Byte, x: nat, y: nat): (r: real)
    requires img.Valid() && x < img.width && y < img.height
    ensures 0.0 <= diffusion <= 1.0 ==> -255.0 <= r <= 510.0
    decreases y, x, 2
  {
    img.At(x, y) as real + Accumulated(img, diffusion, threshold, x, y)
  }

  /** The error pixel (x, y) passes on: quantisation error times the
      diffusion amount. With a diffusion amount in [0, 1] the error stays
      within one full sample range, so it cannot grow along the scan. */
  function Diffused(img: Image, diffusion: real, threshold: Byte, x: nat, y: nat): (r: real)
    requires img.Valid() && x < img.width && y < img.height
    ensures 0.0 <= diffusion <= 1.0 ==> -255.0 <= r <= 255.0
    decreases y, x, 3
  {
    var v := Effective(img, diffusion, threshold, x, y);
    var e := v - Quantize(v, threshold) as real;
    ScaledErrorBound(e, diffusion);
    e * diffusion
  }

  lemma ScaledErrorBound(e: real, diffusion: real)
    ensures -255.0 <= e <= 255.0 && 0.0 <= diffusion <= 1.0 ==> -255.0 <= e * diffusion <= 255.0
  {
    if -255.0 <= e <= 255.0 && 0.0 <= diffusion <= 1.0 {
      Stages.ProductNonNegative(255.0 - e, diffusion);
      Stages.ProductNonNegative(e + 255.0, diffusion);
    }
  }

  /** The output pixel at (x, y): black or white, and white exactly when the
      original sample plus the error accumulated from earlier pixels reaches
      the threshold. */
  function Output(img: Image, diffusion: real, threshold: Byte, x: nat, y: nat): (o: Byte)
    requires img.Valid() && x < img.width && y < img.height
    ensures o == 0 || o == 255
    ensures o == 255 <==> img.At(x, y) as real + Accumulated(img, diffusion, threshold, x, y) >= threshold as real
  {
    Quantize(Effective(img, diffusion, threshold, x, y), threshold)
  }

  lemma DiffusedOf(img: Image, diffusion: real, threshold: Byte, x: nat, y: nat, v: real)
    requires img.Valid() && x < img.width && y < img.height
    requires v == Effective(img, diffusion, threshold, x, y)
    ensures Diffused(img, diffusion, threshold, x, y) == (v - Quantize(v, threshold) as real) * diffusion
  {
  }

  /** Stepping the scan past (x, y) adds exactly (x, y)'s share to each cell. */
  lemma IncomingStep(img: Image, diffusion: real, threshold: Byte, i: nat, j: nat, x: nat, y: nat, error: real)
    requires img.Valid() && i < img.width && j < img.height && x < img.width && y < img.height
    requires error == Diffused(img, diffusion, threshold, x, y)
    ensures Incoming(img, diffusion, threshold, i, j, x + 1, y)
         == Incoming(img, diffusion, threshold, i, j, x, y) + Kernel(i - x, j - y) * error
  {
  }

  /** The end of a row and the start of the next are the same scan position. */
  lemma IncomingRowWrap(img: Image, diffusion: real, threshold: Byte, i: nat, j: nat, y: nat)
    requires img.Valid() && i < img.width && j < img.height
    ensures Incoming(img, diffusion, threshold, i, j, img.width, y)
         == Incoming(img, diffusion, threshold, i, j, 0, y + 1)
  {
  }

  /** Once the scan has reached a cell, no later pixel adds error to it: the
      value read there is final. */
  lemma AccumulatedIsFinal(img: Image, diffusion: real, threshold: Byte, i: nat, j: nat, cx: int, cy: int)
    requires img.Valid() && i < img.width && j < img.height
    requires !Before(cx, cy, i, j)
    ensures Incoming(img, diffusion, threshold, i, j, cx, cy) == Accumulated(img, diffusion, threshold, i, j)
  {
  }

  /** With diffusion amount 0 no error is propagated and dithering is the
      static threshold. */
  lemma ZeroDiffusionIsThreshold(img: Image, threshold: Byte, x: nat, y: nat)
    requires img.Valid() && x < img.width && y < img.height
    ensures Accumulated(img, 0.0, threshold, x, y) == 0.0
    ensures Output(img, 0.0, threshold, x, y) == if img.At(x, y) >= threshold then 255 else 0
  {
    if 0 < x && 0 < y { assert Diffused(img, 0.0, threshold, x - 1, y - 1) == 0.0; }
    if 0 < y { assert Diffused(img, 0.0, threshold, x, y - 1) == 0.0; }
    if 0 < y && x + 1 < img.width { assert Diffused(img, 0.0, threshold, x + 1, y - 1) == 0.0; }
    if 0 < x { assert Diffused(img, 0.0, threshold, x - 1, y) == 0.0; }
    assert Incoming(img, 0.0, threshold, x, y, x, y) == 0.0;
    assert Accumulated(img, 0.0, threshold, x, y) == Incoming(img, 0.0, threshold, x, y, x, y);
  }

  /** The 2 x 2 scenario [[100, 150], [50, 200]] with threshold 128 and
      diffusion amount 0.8, traced by hand in exact arithmetic: (0,0) is
      black and sends 80 on; (1,0) sees 185 and turns white, sending -56 on;
      (0,1) sees 64.5 and stays black; (1,1) sees 210.075 and turns white. */
  lemma HandTracedExample(img: Image)
    requires img == Image(2, 2, [100, 150, 50, 200])
    ensures Output(img, 0.8, 128, 0, 0) == 0 && Output(img, 0.8, 128, 1, 0) == 255
    ensures Output(img, 0.8, 128, 0, 1) == 0 && Output(img, 0.8, 128, 1, 1) == 255
  {
    assert Accumulated(img, 0.8, 128, 0, 0) == 0.0;
    assert Diffused(img, 0.8, 128, 0, 0) == 80.0 by {
      DiffusedOf(img, 0.8, 128, 0, 0, 100.0);
    }
    assert Accumulated(img, 0.8, 128, 1, 0) == 35.0;
    assert Diffused(img, 0.8, 128, 1, 0) == -56.0 by {
      DiffusedOf(img, 0.8, 128, 1, 0, 185.0);
    }
    assert Accumulated(img, 0.8, 128, 0, 1) == 14.5;
    assert Diffused(img, 0.8, 128, 0, 1) == 51.6 by {
      DiffusedOf(img, 0.8, 128, 0, 1, 64.5);
    }
    assert Accumulated(img, 0.8, 128, 1, 1) == 10.075;
    assert Effective(img, 0.8, 128, 1, 1) == 210.075;
  }

  /** The error grid holds, for every cell, the error pushed into it by the
      cells visited before scan position (cx, cy). */
  ghost predicate ErrorsPending(errors: array2<real>, img: Image, diffusion: real, threshold: Byte, cx: int, cy: int)
    requires img.Valid()
    reads errors
  {
    errors.Length0 == img.height && errors.Length1 == img.width &&
    forall i: nat, j: nat :: i < img.width && j < img.height ==>
      errors[j, i] == Incoming(img, diffusion, threshold, i, j, cx, cy)
  }

  /** The output buffer holds the final pixel at every cell visited before
      scan position (cx, cy) and the untouched input sample everywhere else. */
  ghost predicate Written(buf: seq<Byte>, img: Image, diffusion: real, threshold: Byte, cx: int, cy: int)
    requires img.Valid()
  {
    |buf| == |img.data| &&
    forall i: nat, j: nat :: i < img.width && j < img.height ==>
      (OffsetInBounds(img.width, img.height, i, j);
       buf[Offset(img.width, i, j)] ==
         if Before(i, j, cx, cy) then Output(img, diffusion, threshold, i, j) else img.At(i, j))
  }

  /** Writing the final pixel at (x, y) moves the written region one cell on
      and touches no other pixel. */
  lemma WriteAdvances(buf: seq<Byte>, img: Image, diffusion: real, threshold: Byte, x: nat, y: nat)
    requires img.Valid() && x < img.width && y < img.height
    requires Written(buf, img, diffusion, threshold, x, y)
    ensures Offset(img.width, x, y) < |buf|
    ensures Written(buf[Offset(img.width, x, y) := Output(img, diffusion, threshold, x, y)],
                    img, diffusion, threshold, x + 1, y)
  {
    OffsetInBounds(img.width, img.height, x, y);
    forall i: nat, j: nat | i < img.width && j < img.height && Offset(img.width, i, j) == Offset(img.width, x, y)
      ensures i == x && j == y
    {
      OffsetInjective(img.width, i, j, x, y);
    }
  }

  /** src/main.rs:246-257: add each kernel share of `error` to the error grid cell it
      targets, skipping targets outside the grid. */
  method DiffuseError(errors: array2<real>, x: nat, y: nat, error: real)
    requires x < errors.Length1 && y < errors.Length0
    modifies errors
    ensures forall j: nat, i: nat :: j < errors.Length0 && i < errors.Length1 ==>
      errors[j, i] == old(errors[j, i]) + Kernel(i - x, j - y) * error
  {
    var width, height := errors.Length1, errors.Length0;
    if x + 1 < width {
      errors[y, x + 1] := errors[y, x + 1] + error * 7.0 / 16.0;
    }
    if y + 1 < height {
      if x > 0 {
        errors[y + 1, x - 1] := errors[y + 1, x - 1] + error * 3.0 / 16.0;
      }
      errors[y + 1, x] := errors[y + 1, x] + error * 5.0 / 16.0;
      if x + 1 < width {
        errors[y + 1, x + 1] := errors[y + 1, x + 1] + error * 1.0 / 16.0;
      }
    }
  }

  /** One iteration of the scan (src/main.rs:239-257): read the pixel and its
      accumulated error, binarise, write the pixel back and diffuse the
      error. The pixel read has not been overwritten yet, so it is the
      original input sample, and the error read is final. */
  method ScanPixel(result: array<Byte>, errors: array2<real>, img: Image, diffusion: real, threshold: Byte, x: nat, y: nat)
    requires img.Valid() && x < img.width && y < img.height
    requires ErrorsPending(errors, img, diffusion, threshold, x, y)
    requires Written(result[..], img, diffusion, threshold, x, y)
    modifies result, errors
    ensures ErrorsPending(errors, img, diffusion, threshold, x + 1, y)
    ensures Written(result[..], img, diffusion, threshold, x + 1, y)
  {
    OffsetInBounds(img.width, img.height, x, y);
    var k := Offset(img.width, x, y);
    var pixel := result[k];
    var oldValue := pixel as real + errors[y, x];
    assert oldValue == Effective(img, diffusion, threshold, x, y) by {
      assert pixel == img.At(x, y);
      assert errors[y, x] == Accumulated(img, diffusion, threshold, x, y);
    }
    var newValue: Byte := if oldValue < threshold as real then 0 else 255;
    var error := (oldValue - newValue as real) * diffusion;
    assert newValue == Output(img, diffusion, threshold, x, y);
    assert error == Diffused(img, diffusion, threshold, x, y) by {
      DiffusedOf(img, diffusion, threshold, x, y, oldValue);
    }

    WriteAdvances(result[..], img, diffusion, threshold, x, y);
    result[k] := newValue;

    label Scattering:
    DiffuseError(errors, x, y, error);
    forall i: nat, j: nat | i < img.width && j < img.height
      ensures errors[j, i] == Incoming(img, diffusion, threshold, i, j, x + 1, y)
    {
      assert old@Scattering(errors[j, i]) == Incoming(img, diffusion, threshold, i, j, x, y);
      IncomingStep(img, diffusion, threshold, i, j, x, y, error);
    }
  }

  /** `apply_floyd_steinberg_dithering`. The output buffer starts as a copy of
      the input and the error grid as zeros; a single forward raster scan
      visits every pixel exactly once. */
  method Dither(img: Image, diffusion: real, threshold: Byte) returns (out: Image)
    requires img.Valid()
    ensures out.Valid() && SameShape(out, img)
    ensures forall x: nat, y: nat :: x < out.width && y < out.height ==>
      out.At(x, y) == Output(img, diffusion, threshold, x, y)
    ensures forall x: nat, y: nat :: x < out.width && y < out.height ==>
      (out.At(x, y) == 0 || out.At(x, y) == 255) &&
      (out.At(x, y) == 255 <==>
         img.At(x, y) as real + Accumulated(img, diffusion, threshold, x, y) >= threshold as real)
  {
    var width, height := img.width, img.height;
    var result := new Byte[|img.data|](k requires 0 <= k < |img.data| => img.data[k]);
    var errors := new real[height, width]((_, _) => 0.0);

    for y := 0 to height
      invariant ErrorsPending(errors, img, diffusion, threshold, 0, y)
      invariant Written(result[..], img, diffusion, threshold, 0, y)
    {
      for x := 0 to width
        invariant ErrorsPending(errors, img, diffusion, threshold, x, y)
        invariant Written(result[..], img, diffusion, threshold, x, y)
      {
        ScanPixel(result, errors, img, diffusion, threshold, x, y);
      }
      forall i: nat, j: nat | i < width && j < height
        ensures errors[j, i] == Incoming(img, diffusion, threshold, i, j, 0, y + 1)
      {
        IncomingRowWrap(img, diffusion, threshold, i, j, y);
      }
    }
    out := Image(width, height, result[..]);
  }
}
