/** The pointwise stages of the pipeline: gamma remapping through a lookup
    table, linear contrast stretch around mid-gray, and the static threshold.
    Each allocates a fresh buffer of the input's size and fills it pixel by
    pixel in row-major order. `f32` arithmetic is modelled as exact `real`
    arithmetic. */
module Stages {
  import opened Luma

  // ---------------------------------------------------------------------
  // Numeric primitives of the source language
  // ---------------------------------------------------------------------

  /** `f32::clamp(lo, hi)`. */
  function Clamp(v: real, lo: real, hi: real): (r: real)
    requires lo <= hi
    ensures lo <= r <= hi
    ensures lo <= v <= hi ==> r == v
    ensures v < lo ==> r == lo
    ensures hi < v ==> r == hi
  {
    if v < lo then lo else if v > hi then hi else v
  }

  /** The `as u8` cast of a float: truncation toward zero, saturating at
      both ends of the byte range. */
  function CastToByte(r: real): (b: Byte)
    ensures 0.0 <= r < 256.0 ==> b as real <= r < b as real + 1.0
    ensures r < 0.0 ==> b == 0
    ensures 256.0 <= r ==> b == 255
  {
    if r <= 0.0 then 0 else if r >= 255.0 then 255 else r.Floor
  }

  lemma CastToByteMonotone(r1: real, r2: real)
    requires r1 <= r2
    ensures CastToByte(r1) <= CastToByte(r2)
  {
    if 0.0 < r1 && r2 < 255.0 {
      assert r1.Floor as real <= r2;
    }
  }

  /** `f32::round`: to the nearest integer, halves away from zero. */
  function Round(r: real): (n: int)
    ensures 0.0 <= r ==> r - 0.5 < n as real <= r + 0.5
    ensures r < 0.0 ==> r - 0.5 <= n as real < r + 0.5
  {
    if r >= 0.0 then (r + 0.5).Floor else -((-r + 0.5).Floor)
  }

  lemma RoundMonotone(r1: real, r2: real)
    requires r1 <= r2
    ensures Round(r1) <= Round(r2)
  {
    if r1 >= 0.0 {
      assert (r1 + 0.5).Floor as real <= r2 + 0.5;
    } else if r2 < 0.0 {
      assert (-r2 + 0.5).Floor as real <= -r1 + 0.5;
    }
  }

  /** The sign rule for products, kept as a lemma of its own so that each
      nonlinear step is proved in a small context. */
  lemma ProductNonNegative(a: real, b: real)
    requires 0.0 <= a && 0.0 <= b
    ensures 0.0 <= a * b
  {
  }

  // ---------------------------------------------------------------------
  // Contrast enhancement
  // ---------------------------------------------------------------------

  /** One sample of `enhance_contrast`: normalise to [0,1], stretch by `level`
      around 0.5, clamp to [0,1], scale back by 255 and truncate. The
      postcondition restates the same map in sample units: the stretched
      sample (s - 127.5) * level + 127.5 is clamped to [0,255] and its
      fractional part dropped. */
  function ContrastValue(s: Byte, level: real): (v: Byte)
    ensures var m := (s as real - 127.5) * level + 127.5;
      (m <= 0.0 ==> v == 0) && (255.0 <= m ==> v == 255) &&
      (0.0 < m < 255.0 ==> v as real <= m < v as real + 1.0)
  {
    var luminance := s as real / 255.0;
    var enhanced := Clamp((luminance - 0.5) * level + 0.5, 0.0, 1.0);
    assert enhanced * 255.0 == Clamp((s as real - 127.5) * level + 127.5, 0.0, 255.0);
    CastToByte(enhanced * 255.0)
  }

  /** Contrast level 0 collapses every sample to mid-gray, 0.5 * 255 truncated. */
  lemma ContrastZeroIsMidGray(s: Byte)
    ensures ContrastValue(s, 0.0) == 127
  {
  }

  /** A non-negative contrast level never reverses the order of two samples. */
  lemma ContrastMonotone(s1: Byte, s2: Byte, level: real)
    requires 0.0 <= level && s1 <= s2
    ensures ContrastValue(s1, level) <= ContrastValue(s2, level)
  {
    var m1 := (s1 as real - 127.5) * level + 127.5;
    var m2 := (s2 as real - 127.5) * level + 127.5;
    assert m2 - m1 == (s2 - s1) as real * level;
    ProductNonNegative((s2 - s1) as real, level);
    CastToByteMonotone(Clamp(m1, 0.0, 255.0), Clamp(m2, 0.0, 255.0));
  }

  /** A contrast level of at least 1 pushes every sample away from mid-gray:
      bright samples do not get darker and dark samples do not get brighter. */
  lemma ContrastPushesToExtremes(s: Byte, level: real)
    requires 1.0 <= level
    ensures 128 <= s ==> s <= ContrastValue(s, level)
    ensures s <= 127 ==> ContrastValue(s, level) <= s
  {
    var d := s as real - 127.5;
    var m := d * level + 127.5;
    assert m - s as real == d * (level - 1.0);
    if 128 <= s {
      ProductNonNegative(d, level - 1.0);
    } else {
      ProductNonNegative(-d, level - 1.0);
      assert d * (level - 1.0) == -((-d) * (level - 1.0));
    }
  }

  /** `enhance_contrast`: every pixel of the result is the contrast-stretched
      pixel at the same position of the input. */
  method EnhanceContrast(img: Image, level: real) returns (out: Image)
    requires img.Valid()
    ensures out.Valid() && SameShape(out, img)
    ensures forall k :: 0 <= k < |out.data| ==> out.data[k] == ContrastValue(img.data[k], level)
    ensures forall x: nat, y: nat :: x < out.width && y < out.height ==>
      out.At(x, y) == ContrastValue(img.At(x, y), level)
  {
    var result := new Byte[|img.data|];
    for i := 0 to |img.data|
      invariant forall k :: 0 <= k < i ==> result[k] == ContrastValue(img.data[k], level)
    {
      result[i] := ContrastValue(img.data[i], level);
    }
    out := Image(img.width, img.height, result[..]);
  }

  // ---------------------------------------------------------------------
  // Gamma correction
  // ---------------------------------------------------------------------

  /** A lookup table with one entry per possible sample value. */
  type GammaLut = lut: seq<Byte> | |lut| == 256 witness seq(256, _ => 0)

  /** The table of `apply_gamma_correction`. `curve` stands for the power
      function v |-> v.powf(1.0 / gamma) on the normalised sample; each entry
      is the curve at i / 255, scaled by 255, rounded and cast to `u8`.
      Wherever the scaled curve stays in the byte range, entry i is its
      nearest integer, ties going up. */
  function BuildGammaLut(curve: real -> real): (lut: GammaLut)
    ensures forall i :: 0 <= i < 256 ==>
      var c := curve(i as real / 255.0) * 255.0;
      0.0 <= c < 255.5 ==> lut[i] as real - 0.5 <= c < lut[i] as real + 0.5
  {
    seq(256, i => GammaEntry(curve, i))
  }

  /** Entry i of the table: the nearest integer to the scaled curve value
      (halves rounded up), saturated to 0 below -1/2 and to 255 from 255.5 on. */
  function GammaEntry(curve: real -> real, i: int): (e: Byte)
    ensures var c := curve(i as real / 255.0) * 255.0;
      (-0.5 <= c < 255.5 ==> e as real - 0.5 <= c < e as real + 0.5) &&
      (c < -0.5 ==> e == 0) &&
      (255.5 <= c ==> e == 255)
  {
    CastToByte(Round(curve(i as real / 255.0) * 255.0) as real)
  }

  /** The curve of gamma = 1: v.powf(1.0) is v on the normalised range. */
  ghost predicate IsIdentityCurve(curve: real -> real) {
    forall v: real :: 0.0 <= v <= 1.0 ==> curve(v) == v
  }

  /** A curve that is the identity on [0,1] (gamma = 1) yields the identity table. */
  lemma GammaLutIdentity(curve: real -> real)
    requires IsIdentityCurve(curve)
    ensures forall i :: 0 <= i < 256 ==> BuildGammaLut(curve)[i] == i
  {
    forall i | 0 <= i < 256
      ensures GammaEntry(curve, i) == i
    {
      var v := i as real / 255.0;
      assert curve(v) == v;
      assert v * 255.0 == i as real;
    }
  }

  /** A non-decreasing curve yields a non-decreasing table: the remap never
      reverses the order of two gray levels. */
  lemma GammaLutMonotone(curve: real -> real, i: int, j: int)
    requires forall u: real, v: real :: 0.0 <= u <= v <= 1.0 ==> curve(u) <= curve(v)
    requires 0 <= i <= j < 256
    ensures BuildGammaLut(curve)[i] <= BuildGammaLut(curve)[j]
  {
    var u, v := i as real / 255.0, j as real / 255.0;
    assert curve(u) <= curve(v);
    RoundMonotone(curve(u) * 255.0, curve(v) * 255.0);
    CastToByteMonotone(Round(curve(u) * 255.0) as real, Round(curve(v) * 255.0) as real);
  }

  /** `apply_gamma_correction`: the table is built once, then every pixel of
      the result is the table entry indexed by the input pixel. With the
      identity curve the image comes back unchanged. */
  method ApplyGammaCorrection(img: Image, curve: real -> real) returns (out: Image)
    requires img.Valid()
    ensures out.Valid() && SameShape(out, img)
    ensures forall k :: 0 <= k < |out.data| ==> out.data[k] == BuildGammaLut(curve)[img.data[k]]
    ensures forall x: nat, y: nat :: x < out.width && y < out.height ==>
      out.At(x, y) == BuildGammaLut(curve)[img.At(x, y)]
    ensures IsIdentityCurve(curve) ==> out == img
  {
    var lut := BuildGammaLut(curve);
    var result := new Byte[|img.data|];
    for i := 0 to |img.data|
      invariant forall k :: 0 <= k < i ==> result[k] == lut[img.data[k]]
    {
      result[i] := lut[img.data[i]];
    }
    out := Image(img.width, img.height, result[..]);
    if IsIdentityCurve(curve) {
      GammaLutIdentity(curve);
      assert out.data == img.data;
    }
  }

  // ---------------------------------------------------------------------
  // Static threshold
  // ---------------------------------------------------------------------

  /** One sample of `apply_simple_threshold`. */
  function ThresholdValue(s: Byte, threshold: Byte): (b: Byte)
    ensures b == 0 || b == 255
    ensures b == 255 <==> s >= threshold
  {
    if s >= threshold then 255 else 0
  }

  /** `apply_simple_threshold`: each output pixel is white exactly when the
      input pixel at the same position reaches the threshold, black otherwise,
      and depends on nothing else. */
  method ApplySimpleThreshold(img: Image, threshold: Byte) returns (out: Image)
    requires img.Valid()
    ensures out.Valid() && SameShape(out, img)
    ensures forall x: nat, y: nat :: x < out.width && y < out.height ==>
      (out.At(x, y) == 255 <==> img.At(x, y) >= threshold) &&
      (out.At(x, y) == 0 <==> img.At(x, y) < threshold)
  {
    var result := new Byte[|img.data|];
    for i := 0 to |img.data|
      invariant forall k :: 0 <= k < i ==> result[k] == ThresholdValue(img.data[k], threshold)
    {
      result[i] := ThresholdValue(img.data[i], threshold);
    }
    out := Image(img.width, img.height, result[..]);
  }
}
