/** Geometry of a row-major pixel buffer (the layout of `image::ImageBuffer`):
    the pixel at column `x` and row `y` of a buffer `width` pixels wide is
    element `y * width + x`, and `enumerate_pixels` visits the elements in
    index order. */
module Pixels {

  /** An integral pixel coordinate; row 0 is the top of the image. */
  datatype Coord = Coord(x: nat, y: nat)

  /** The coordinate of buffer element `i`. */
  function CoordOf(i: nat, width: nat): (c: Coord)
    requires 0 < width
    ensures c.x < width
  {
    Coord(i % width, i / width)
  }

  /** The buffer element of coordinate `c`. */
  function Index(c: Coord, width: nat): nat
  {
    c.y * width + c.x
  }

  /** Row-major scan order: earlier row, or same row and earlier column. */
  predicate ScanBefore(a: Coord, b: Coord)
  {
    a.y < b.y || (a.y == b.y && a.x < b.x)
  }

  lemma MulLe(a: nat, b: nat, w: nat)
    requires a <= b
    ensures a * w <= b * w
  {
    assert b * w == a * w + (b - a) * w;
  }

  /** A buffer of `width * height` elements is non-empty only if `width` is
      positive, so every element has a coordinate. */
  lemma PositiveWidth(i: nat, width: nat, height: nat)
    requires i < width * height
    ensures 0 < width && i / width < height
  {
    if height <= i / width {
      MulLe(height, i / width, width);
      assert false;
    }
  }

  /** Element order and scan order agree. */
  lemma CoordOfOrdered(i: nat, j: nat, width: nat)
    requires 0 < width && i < j
    ensures ScanBefore(CoordOf(i, width), CoordOf(j, width))
  {
    assert (i / width) * width <= i;
    assert j < (j / width + 1) * width;
  }

  /** Quotient and remainder are unique: `q * width + r` with `r < width`
      divides back into `q` and `r`. */
  lemma DivModOf(q: nat, r: nat, width: nat)
    requires r < width
    ensures (q * width + r) / width == q && (q * width + r) % width == r
  {
    var i := q * width + r;
    var q', r' := i / width, i % width;
    assert i == q' * width + r';
    if q' < q {
      MulLe(q' + 1, q, width);
      assert false;
    } else if q < q' {
      MulLe(q + 1, q', width);
      assert false;
    }
  }

  /** `CoordOf` inverts `Index` on coordinates inside the row. */
  lemma CoordOfIndex(c: Coord, width: nat)
    requires c.x < width
    ensures CoordOf(Index(c, width), width) == c
  {
    DivModOf(c.y, c.x, width);
  }

  /** `Index` inverts `CoordOf`. */
  lemma IndexCoordOf(i: nat, width: nat)
    requires 0 < width
    ensures Index(CoordOf(i, width), width) == i
  {
  }

  /** A coordinate inside the image names an element of its buffer. */
  lemma IndexInBounds(c: Coord, width: nat, height: nat)
    requires c.x < width && c.y < height
    ensures Index(c, width) < width * height
  {
    MulLe(c.y + 1, height, width);
  }
}
