/**
 * Arithmetic of flat row-major buffers: pixel (x, y) of an image `width`
 * pixels wide lives at index `y * width + x`.
 */
module RowMajor {

  /** The flat index of (x, y) lies inside a `width * height` buffer. */
  lemma InBounds(x: nat, y: nat, width: nat, height: nat)
    requires x < width && y < height
    ensures y * width + x < width * height
  {
    calc {
      y * width + x;
    <
      y * width + width;
    ==
      (y + 1) * width;
    <=
      { assert y + 1 <= height; }
      height * width;
    }
  }

  /** A positive multiple of `width` is at least `width`. */
  lemma MulAtLeast(k: int, width: int)
    requires k >= 1 && width >= 0
    ensures k * width >= width
  {
    if k > 1 {
      MulAtLeast(k - 1, width);
      assert k * width == (k - 1) * width + width;
    }
  }

  /** The only multiple of `width` strictly between `-width` and `width` is 0. */
  lemma MulBetween(k: int, width: int)
    requires width > 0 && -width < k * width < width
    ensures k == 0
  {
    if k >= 1 {
      MulAtLeast(k, width);
    } else if k <= -1 {
      MulAtLeast(-k, width);
    }
  }

  /** Division and remainder by the width recover the column and the row. */
  lemma Coordinates(x: nat, y: nat, width: nat)
    requires x < width
    ensures (y * width + x) % width == x
    ensures (y * width + x) / width == y
  {
    var idx := y * width + x;
    var q, r := idx / width, idx % width;
    assert (q - y) * width == x - r;
    MulBetween(q - y, width);
  }
}
