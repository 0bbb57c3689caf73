/**
 * Back-projection of the best-focus buffer into a coloured point cloud.
 *
 * The focus index of a pixel, divided by the number of images in the stack,
 * serves as its inverse depth. A pixel contributes a point exactly when that
 * inverse depth is positive; the point lies on the pixel's undistorted ray
 * at depth `z = 1 / d`. Lens undistortion and the colour lookup are supplied
 * by the caller as functions of (column, row).
 */
module Cloud {
  import RowMajor

  /** Undistorted normalised image coordinates, the ray's crossing of the z = 1 plane. */
  datatype Norm = Norm(x: real, y: real)

  /** A point of the cloud with its packed RGB colour. */
  datatype Point = Point(x: real, y: real, z: real, rgb: int)

  /** The inverse-depth proxy of a focus index in a stack of `numImages` images. */
  function InverseDepth(focus: int, numImages: nat): (d: real)
    requires numImages > 0
    ensures d * numImages as real == focus as real
  {
    focus as real / numImages as real
  }

  /** A pixel is turned into a point unless its inverse depth is zero or negative. */
  predicate Emits(focus: int, numImages: nat)
    requires numImages > 0
    ensures Emits(focus, numImages) <==> focus > 0
  {
    InverseDepth(focus, numImages) > 0.0
  }

  /** The point for a pixel with normalised coordinates `n` and an emitted focus index. */
  function ProjectPixel(n: Norm, focus: int, numImages: nat, rgb: int): (p: Point)
    requires numImages > 0 && Emits(focus, numImages)
    ensures p.z > 0.0
    ensures p.z * focus as real == numImages as real
    ensures p.rgb == rgb
  {
    var z := 1.0 / InverseDepth(focus, numImages);
    Point(n.x * z, n.y * z, z, rgb)
  }

  /** The inverse of `ProjectPixel`: the ray through a point and the point's inverse depth. */
  function Reproject(p: Point): (ray: (Norm, real))
    requires p.z != 0.0
  {
    (Norm(p.x / p.z, p.y / p.z), 1.0 / p.z)
  }

  /**
   * Projecting a pixel and reprojecting the point gives back its normalised
   * coordinates and inverse depth; the depth is the stack size over the focus index.
   */
  lemma ProjectionRoundTrip(n: Norm, focus: int, numImages: nat, rgb: int)
    requires numImages > 0 && Emits(focus, numImages)
    ensures var p := ProjectPixel(n, focus, numImages, rgb);
            && Reproject(p) == (n, InverseDepth(focus, numImages))
            && p.z * focus as real == numImages as real
            && p.rgb == rgb
  {
    var d := InverseDepth(focus, numImages);
    var z := 1.0 / d;
    var p := ProjectPixel(n, focus, numImages, rgb);
    assert z * d == 1.0;
    assert p.x / p.z == n.x;
    assert p.y / p.z == n.y;
    assert 1.0 / z == d;
    assert d * numImages as real == focus as real;
  }

  /**
   * The flat indices of the emitted pixels, in increasing (row-major) order:
   * exactly those whose inverse depth is positive.
   */
  function EmittedPixels(bestFocus: seq<int>, numImages: nat): (pixels: seq<nat>)
    requires numImages > 0
    ensures |pixels| <= |bestFocus|
    ensures forall j :: 0 <= j < |pixels| ==> pixels[j] < |bestFocus| && Emits(bestFocus[pixels[j]], numImages)
    ensures forall i :: 0 <= i < |bestFocus| && Emits(bestFocus[i], numImages) ==> i in pixels
    ensures forall j, k :: 0 <= j < k < |pixels| ==> pixels[j] < pixels[k]
  {
    if |bestFocus| == 0 then []
    else
      var last := |bestFocus| - 1;
      var init := bestFocus[..last];
      var pixels := EmittedPixels(init, numImages);
      assert forall i :: 0 <= i < last ==> init[i] == bestFocus[i];
      if Emits(bestFocus[last], numImages) then pixels + [last] else pixels
  }

  /** The point emitted for flat index `idx` of a `width`-wide best-focus buffer. */
  function PointAt(bestFocus: seq<int>, width: nat, numImages: nat,
                   undistort: (nat, nat) -> Norm, color: (nat, nat) -> int, idx: nat): Point
    requires numImages > 0 && width > 0
    requires idx < |bestFocus| && Emits(bestFocus[idx], numImages)
  {
    var col, row := idx % width, idx / width;
    ProjectPixel(undistort(col, row), bestFocus[idx], numImages, color(col, row))
  }

  /**
   * The points emitted by the first `upTo` cells, in visiting order: the
   * reference the emission loop is checked against.
   */
  function CloudOfPrefix(bestFocus: seq<int>, width: nat, numImages: nat,
                         undistort: (nat, nat) -> Norm, color: (nat, nat) -> int, upTo: nat): seq<Point>
    requires numImages > 0 && width > 0 && upTo <= |bestFocus|
  {
    if upTo == 0 then []
    else
      var idx := upTo - 1;
      var init := CloudOfPrefix(bestFocus, width, numImages, undistort, color, idx);
      if Emits(bestFocus[idx], numImages) then init + [PointAt(bestFocus, width, numImages, undistort, color, idx)]
      else init
  }

  /**
   * The reference cloud holds exactly one point per emitted pixel, in the
   * order of `EmittedPixels`.
   */
  lemma {:induction false} CloudOfPrefixMatchesEmitted(bestFocus: seq<int>, width: nat, numImages: nat,
                                                       undistort: (nat, nat) -> Norm, color: (nat, nat) -> int,
                                                       upTo: nat)
    requires numImages > 0 && width > 0 && upTo <= |bestFocus|
    ensures var cloud := CloudOfPrefix(bestFocus, width, numImages, undistort, color, upTo);
            var pixels := EmittedPixels(bestFocus[..upTo], numImages);
            && |cloud| == |pixels|
            && forall j :: 0 <= j < |cloud| ==>
                 pixels[j] < |bestFocus| && Emits(bestFocus[pixels[j]], numImages) &&
                 cloud[j] == PointAt(bestFocus, width, numImages, undistort, color, pixels[j])
  {
    if upTo > 0 {
      var idx := upTo - 1;
      CloudOfPrefixMatchesEmitted(bestFocus, width, numImages, undistort, color, idx);
      assert bestFocus[..upTo][..idx] == bestFocus[..idx];
    }
  }

  /**
   * One iteration of the point-emission loop, at column `col` of row `row`:
   * skips the pixel when its inverse depth is not positive, and otherwise
   * appends the point on its undistorted ray at depth one over the inverse depth.
   */
  method EmitPixel(cloud: seq<Point>, bestFocus: seq<int>, width: nat, numImages: nat,
                   undistort: (nat, nat) -> Norm, color: (nat, nat) -> int, col: nat, row: nat)
    returns (cloud': seq<Point>)
    requires numImages > 0 && col < width && row * width + col < |bestFocus|
    requires cloud == CloudOfPrefix(bestFocus, width, numImages, undistort, color, row * width + col)
    ensures cloud' == CloudOfPrefix(bestFocus, width, numImages, undistort, color, row * width + col + 1)
  {
    var idx := row * width + col;
    RowMajor.Coordinates(col, row, width);
    cloud' := cloud;
    var d := InverseDepth(bestFocus[idx], numImages);
    if d > 0.0 {
      var n := undistort(col, row);
      var z := 1.0 / d;
      var x := n.x * z;
      var y := n.y * z;
      cloud' := cloud + [Point(x, y, z, color(col, row))];
      assert Point(x, y, z, color(col, row)) == PointAt(bestFocus, width, numImages, undistort, color, idx);
    }
  }

  /** One row of the point-emission loop, visiting its pixels from left to right. */
  method EmitRow(cloud: seq<Point>, bestFocus: seq<int>, width: nat, height: nat, numImages: nat,
                 undistort: (nat, nat) -> Norm, color: (nat, nat) -> int, row: nat)
    returns (cloud': seq<Point>)
    requires numImages > 0 && width > 0 && row < height && |bestFocus| == width * height
    requires cloud == CloudOfPrefix(bestFocus, width, numImages, undistort, color, row * width)
    ensures (row + 1) * width <= |bestFocus|
    ensures cloud' == CloudOfPrefix(bestFocus, width, numImages, undistort, color, (row + 1) * width)
  {
    cloud' := cloud;
    var col := 0;
    while col < width
      invariant 0 <= col <= width
      invariant row * width + col <= |bestFocus|
      invariant cloud' == CloudOfPrefix(bestFocus, width, numImages, undistort, color, row * width + col)
    {
      RowMajor.InBounds(col, row, width, height);
      cloud' := EmitPixel(cloud', bestFocus, width, numImages, undistort, color, col, row);
      col := col + 1;
    }
    assert row * width + width == (row + 1) * width;
  }

  /**
   * The point-emission loop: visits the pixels row by row and appends a
   * point for every pixel with positive inverse depth. The cloud holds one
   * point per emitted pixel, in row-major order, so never more points than pixels.
   */
  method ComputeCloud(bestFocus: seq<int>, width: nat, height: nat, numImages: nat,
                      undistort: (nat, nat) -> Norm, color: (nat, nat) -> int)
    returns (cloud: seq<Point>)
    requires numImages > 0
    requires |bestFocus| == width * height
    ensures |cloud| <= width * height
    ensures var pixels := EmittedPixels(bestFocus, numImages);
            && |cloud| == |pixels|
            && forall j :: 0 <= j < |cloud| ==>
                 width > 0 && cloud[j] == PointAt(bestFocus, width, numImages, undistort, color, pixels[j])
  {
    cloud := [];
    if width == 0 {
      assert bestFocus == [];
      return;
    }
    var row := 0;
    while row < height
      invariant 0 <= row <= height
      invariant row * width <= |bestFocus|
      invariant cloud == CloudOfPrefix(bestFocus, width, numImages, undistort, color, row * width)
    {
      cloud := EmitRow(cloud, bestFocus, width, height, numImages, undistort, color, row);
      row := row + 1;
    }
    assert row * width == |bestFocus|;
    CloudOfPrefixMatchesEmitted(bestFocus, width, numImages, undistort, color, |bestFocus|);
    assert bestFocus[..|bestFocus|] == bestFocus;
  }

  /** A buffer with no emitted pixel (for instance all zero) gives an empty cloud. */
  lemma NothingEmittedEmptyCloud(bestFocus: seq<int>, numImages: nat)
    requires numImages > 0
    requires forall i :: 0 <= i < |bestFocus| ==> bestFocus[i] <= 0
    ensures EmittedPixels(bestFocus, numImages) == []
  {
  }

  /** Focus index 2 of 5 on the optical axis lands at depth 2.5 on the axis. */
  lemma OpticalAxisExample(rgb: int)
    ensures Emits(2, 5)
    ensures ProjectPixel(Norm(0.0, 0.0), 2, 5, rgb) == Point(0.0, 0.0, 2.5, rgb)
  {
  }
}
