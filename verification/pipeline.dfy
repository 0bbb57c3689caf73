/**
 * The two stages together: a best-focus buffer produced by the selector,
 * handed to the point-emission loop with the stack size as `numImages`.
 */
module Pipeline {
  import opened Focus
  import opened FocusField
  import opened Cloud

  /** A selected cell produces a point exactly when the selector accepted a band there. */
  lemma EmittedIffAccepted(edges: EdgeVolume, minEdge: real, minPeak: real, idx: nat)
    requires edges.Valid() && |edges.bands| > 0
    requires idx < edges.width * edges.height
    ensures var focus := SelectField(edges, minEdge, minPeak)[idx];
            Emits(focus, |edges.bands|) <==> Accepted(edges.Column(idx), focus, minEdge, minPeak)
  {
  }

  /**
   * The depth of every emitted point lies between N / (N - 2) and N for a
   * stack of N images: boundary bands are never stored, so the nearest and
   * farthest depths of the proxy are never produced.
   */
  lemma DepthWithinStack(edges: EdgeVolume, minEdge: real, minPeak: real, idx: nat, n: Norm, rgb: int)
    requires edges.Valid() && |edges.bands| > 0
    requires idx < edges.width * edges.height
    ensures var numImages := |edges.bands|;
            var focus := SelectField(edges, minEdge, minPeak)[idx];
            Emits(focus, numImages) ==>
              var z := ProjectPixel(n, focus, numImages, rgb).z;
              && 1.0 < z <= numImages as real
              && z * (numImages - 2) as real >= numImages as real
  {
    var numImages := |edges.bands|;
    var focus := SelectField(edges, minEdge, minPeak)[idx];
    if Emits(focus, numImages) {
      assert 1 <= focus <= numImages - 2;
      ProjectionRoundTrip(n, focus, numImages, rgb);
      DepthOfInteriorBand(ProjectPixel(n, focus, numImages, rgb).z, focus as real, numImages as real);
    }
  }

  /** Depth arithmetic: `z * f == N` with `1 <= f <= N - 2` bounds `z`. */
  lemma DepthOfInteriorBand(z: real, f: real, numImages: real)
    requires z > 0.0 && z * f == numImages
    requires 1.0 <= f <= numImages - 2.0
    ensures 1.0 < z <= numImages
    ensures z * (numImages - 2.0) >= numImages
  {
    var slack := numImages - 2.0 - f;
    assert z * slack >= 0.0;
    assert z * (numImages - 2.0) == z * f + z * slack;
    assert z * (f - 1.0) >= 0.0;
    assert z * f == z + z * (f - 1.0);
  }
}
