/** Single-channel 8-bit luminance buffers: the `ImageBuffer<Luma<u8>, Vec<u8>>`
    that every stage of the pipeline consumes and produces. */
module Luma {

  /** An unsigned 8-bit sample (`u8`): 0 is black, 255 is white. */
  type Byte = x: int | 0 <= x < 256

  /** Position of pixel (x, y) in a row-major buffer of the given width. */
  function Offset(width: nat, x: nat, y: nat): nat {
    y * width + x
  }

  lemma RowsAreOrdered(width: nat, y1: nat, y2: nat)
    requires y1 < y2
    ensures (y1 + 1) * width <= y2 * width
  {
    var d := y2 - (y1 + 1);
    assert y2 * width == (y1 + 1) * width + d * width;
  }

  /** Every pixel of a width x height grid has its own slot in the buffer. */
  lemma OffsetInBounds(width: nat, height: nat, x: nat, y: nat)
    requires x < width && y < height
    ensures Offset(width, x, y) < width * height
  {
    assert Offset(width, x, y) < (y + 1) * width;
    if y + 1 < height {
      RowsAreOrdered(width, y, height);
    }
    assert (y + 1) * width <= height * width;
  }

  /** Two different pixels never share a slot. */
  lemma {:induction false} OffsetInjective(width: nat, x1: nat, y1: nat, x2: nat, y2: nat)
    requires x1 < width && x2 < width
    requires Offset(width, x1, y1) == Offset(width, x2, y2)
    ensures x1 == x2 && y1 == y2
  {
    if y1 < y2 {
      RowsAreOrdered(width, y1, y2);
      assert false;
    } else if y2 < y1 {
      RowsAreOrdered(width, y2, y1);
      assert false;
    }
  }

  /** A rectangular grid of samples stored row-major, without padding. */
  datatype Image = Image(width: nat, height: nat, data: seq<Byte>) {

    predicate Valid() {
      |data| == width * height
    }

    /** The pixel at column x of row y (`get_pixel(x, y)`). */
    function At(x: nat, y: nat): (s: Byte)
      requires Valid() && x < width && y < height
      ensures Offset(width, x, y) < |data| && s == data[Offset(width, x, y)]
    {
      OffsetInBounds(width, height, x, y);
      data[Offset(width, x, y)]
    }
  }

  /** `img.dimensions()` of the two buffers agree. */
  predicate SameShape(a: Image, b: Image) {
    a.width == b.width && a.height == b.height
  }
}
