/**
 * Best-focus selection over a whole image.
 *
 * The edge-intensity volume is a list of same-size planes, one per focus
 * level, each a flat row-major buffer of `width * height` cells. The result
 * is a flat row-major buffer of the same size holding, per pixel, the
 * focus index chosen by `Focus.SelectPixel` or 0.
 */
module FocusField {
  import opened Focus
  import RowMajor

  /** One edge-intensity plane per focus level, in capture order. */
  datatype EdgeVolume = EdgeVolume(width: nat, height: nat, bands: seq<seq<real>>)
  {
    /** Every plane has exactly one value per pixel. */
    predicate Valid()
    {
      forall k :: 0 <= k < |bands| ==> |bands[k]| == width * height
    }

    /** The edge intensity of pixel `idx` at every focus level. */
    function Column(idx: nat): (column: seq<real>)
      requires Valid() && idx < width * height
      ensures |column| == |bands|
      ensures forall k :: 0 <= k < |bands| ==> column[k] == bands[k][idx]
    {
      seq(|bands|, k requires 0 <= k < |bands| => bands[k][idx])
    }
  }

  /**
   * The best-focus buffer as a whole: each cell is 0 or the accepted band of
   * its own pixel, and every accepted band is stored.
   */
  function SelectField(edges: EdgeVolume, minEdge: real, minPeak: real): (bestFocus: seq<int>)
    requires edges.Valid()
    ensures |bestFocus| == edges.width * edges.height
    ensures forall idx :: 0 <= idx < |bestFocus| ==>
              bestFocus[idx] == 0 || Accepted(edges.Column(idx), bestFocus[idx], minEdge, minPeak)
    ensures forall idx, b :: 0 <= idx < |bestFocus| && Accepted(edges.Column(idx), b, minEdge, minPeak) ==>
              bestFocus[idx] == b
  {
    seq(edges.width * edges.height,
        idx requires 0 <= idx < edges.width * edges.height => SelectPixel(edges.Column(idx), minEdge, minPeak))
  }

  /**
   * One pixel of the imperative selector: scans the focus levels in order,
   * keeping the best band and intensity in two variables, then applies the
   * strength, boundary and peak-margin checks.
   */
  method SelectPixelAt(edges: EdgeVolume, idx: nat, minEdge: real, minPeak: real) returns (focus: int)
    requires edges.Valid() && idx < edges.width * edges.height
    ensures focus == SelectPixel(edges.Column(idx), minEdge, minPeak)
  {
    var numBands := |edges.bands|;
    ghost var column := edges.Column(idx);
    var bestBand := -1;
    var bestIntensity := 0.0;
    var band := 0;
    while band < numBands
      invariant 0 <= band <= numBands
      invariant Peak(bestBand, bestIntensity) == Scan(column[..band])
    {
      var v := edges.bands[band][idx];
      assert column[..band + 1][..band] == column[..band];
      if v > bestIntensity {
        bestIntensity := v;
        bestBand := band;
      }
      band := band + 1;
    }
    assert column[..numBands] == column;

    // only strong peaks away from the first and last focus level
    if bestIntensity < minEdge || bestBand <= 0 || bestBand >= numBands - 1 {
      focus := 0;
    } else {
      // the peak must stand clearly above both neighbours
      var v0 := edges.bands[bestBand - 1][idx];
      var v2 := edges.bands[bestBand + 1][idx];
      if v0 + minPeak < bestIntensity && v2 + minPeak < bestIntensity {
        focus := bestBand;
      } else {
        focus := 0;
      }
    }
  }

  /**
   * The imperative selector over the whole image: rows, then columns, with a
   * running flat index. `prior` is the reused output buffer; each iteration
   * writes only the cell of its own pixel, and every cell ends up written.
   */
  method SelectBestFocus(edges: EdgeVolume, minEdge: real, minPeak: real, prior: seq<int>)
    returns (bestFocus: seq<int>)
    requires edges.Valid()
    requires |prior| == edges.width * edges.height
    ensures bestFocus == SelectField(edges, minEdge, minPeak)
  {
    bestFocus := prior;
    var y := 0;
    var idx := 0;
    while y < edges.height
      invariant 0 <= y <= edges.height
      invariant idx == y * edges.width <= |prior|
      invariant |bestFocus| == |prior|
      invariant forall i :: 0 <= i < idx ==> bestFocus[i] == SelectPixel(edges.Column(i), minEdge, minPeak)
      invariant forall i :: idx <= i < |prior| ==> bestFocus[i] == prior[i]
    {
      var x := 0;
      while x < edges.width
        invariant 0 <= x <= edges.width
        invariant idx == y * edges.width + x <= |prior|
        invariant |bestFocus| == |prior|
        invariant forall i :: 0 <= i < idx ==> bestFocus[i] == SelectPixel(edges.Column(i), minEdge, minPeak)
        invariant forall i :: idx <= i < |prior| ==> bestFocus[i] == prior[i]
      {
        RowMajor.InBounds(x, y, edges.width, edges.height);
        var focus := SelectPixelAt(edges, idx, minEdge, minPeak);
        bestFocus := bestFocus[idx := focus];
        x := x + 1;
        idx := idx + 1;
      }
      assert idx == (y + 1) * edges.width;
      y := y + 1;
    }
    assert idx == |prior| by {
      assert idx == edges.height * edges.width;
    }
    assert bestFocus == SelectField(edges, minEdge, minPeak);
  }

  /** Every stored cell is 0 or a band strictly between the first and the last. */
  lemma FieldCellsInterior(edges: EdgeVolume, minEdge: real, minPeak: real)
    requires edges.Valid()
    ensures var bestFocus := SelectField(edges, minEdge, minPeak);
            forall idx :: 0 <= idx < |bestFocus| ==>
              bestFocus[idx] == 0 || 1 <= bestFocus[idx] <= |edges.bands| - 2
  {
  }

  /** A stack of fewer than three images gives an all-zero buffer. */
  lemma ShortStackAllZero(edges: EdgeVolume, minEdge: real, minPeak: real)
    requires edges.Valid() && |edges.bands| < 3
    ensures var bestFocus := SelectField(edges, minEdge, minPeak);
            forall idx :: 0 <= idx < |bestFocus| ==> bestFocus[idx] == 0
  {
  }

  /**
   * A cell depends only on its own pixel's column: two volumes that agree at
   * pixel `idx` give the same cell there, whatever the other pixels hold.
   */
  lemma CellDependsOnlyOnColumn(edges: EdgeVolume, edges': EdgeVolume, idx: nat, minEdge: real, minPeak: real)
    requires edges.Valid() && edges'.Valid()
    requires idx < edges.width * edges.height && idx < edges'.width * edges'.height
    requires edges.Column(idx) == edges'.Column(idx)
    ensures SelectField(edges, minEdge, minPeak)[idx] == SelectField(edges', minEdge, minPeak)[idx]
  {
  }

  /** Raising either threshold can only clear cells, never set or move them. */
  lemma FieldStricterThresholdsOnlyReject(edges: EdgeVolume, minEdge: real, minPeak: real,
                                          minEdge': real, minPeak': real)
    requires edges.Valid()
    requires minEdge <= minEdge' && minPeak <= minPeak'
    ensures var loose := SelectField(edges, minEdge, minPeak);
            var strict := SelectField(edges, minEdge', minPeak');
            forall idx :: 0 <= idx < |strict| ==> strict[idx] == 0 || strict[idx] == loose[idx]
  {
  }
}
