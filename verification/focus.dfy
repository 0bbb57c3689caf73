/**
 * Best-focus selection for a single pixel.
 *
 * A pixel's "column" is its edge intensity at every focus level of the stack,
 * in capture order. The selector scans the column for the first strictly
 * largest positive value and then keeps that focus index only when it is an
 * interior, strong and sharp peak. The value 0 means the pixel has no usable focus;
 * it cannot be confused with a real answer because band 0 is never accepted.
 */
module Focus {

  /** Default weakest edge intensity a peak may have. */
  const MIN_EDGE_INTENSITY: real := 30.0

  /** Default margin by which a peak must exceed both neighbouring bands. */
  const MIN_PEAK: real := 20.0

  /** State of the maximum search: the best band so far (-1 for none) and its value. */
  datatype Peak = Peak(band: int, intensity: real)

  /** `b` holds the first occurrence of the largest value of `column`, and that value is positive. */
  predicate IsFirstPeak(column: seq<real>, b: int)
  {
    && 0 <= b < |column|
    && 0.0 < column[b]
    && (forall i :: 0 <= i < b ==> column[i] < column[b])
    && (forall i :: b < i < |column| ==> column[i] <= column[b])
  }

  /** No focus level shows a positive edge intensity. */
  predicate NoPositive(column: seq<real>)
  {
    forall i :: 0 <= i < |column| ==> column[i] <= 0.0
  }

  /**
   * The maximum search, one band at a time in capture order, starting from
   * band -1 with intensity 0 and moving only on a strictly larger value.
   */
  function Scan(column: seq<real>): (p: Peak)
    ensures -1 <= p.band < |column|
    ensures p.band == -1 ==> p.intensity == 0.0 && NoPositive(column)
    ensures p.band != -1 ==> p.intensity == column[p.band] && IsFirstPeak(column, p.band)
  {
    if |column| == 0 then Peak(-1, 0.0)
    else
      var last := |column| - 1;
      var init := column[..last];
      var p := Scan(init);
      assert forall i :: 0 <= i < last ==> init[i] == column[i];
      if column[last] > p.intensity then Peak(last, column[last]) else p
  }

  /** At most one band can be the first peak of a column. */
  lemma FirstPeakUnique(column: seq<real>, b1: int, b2: int)
    requires IsFirstPeak(column, b1) && IsFirstPeak(column, b2)
    ensures b1 == b2
  {
  }

  /**
   * The conditions under which band `b` is a reliable focus for the pixel:
   * it is the first peak, it is not a boundary band, it is strong enough, and
   * both neighbours are more than `minPeak` below it.
   */
  predicate Accepted(column: seq<real>, b: int, minEdge: real, minPeak: real)
  {
    && 1 <= b <= |column| - 2
    && IsFirstPeak(column, b)
    && column[b] >= minEdge
    && column[b - 1] + minPeak < column[b]
    && column[b + 1] + minPeak < column[b]
  }

  /**
   * The focus index stored for one pixel, or 0 when the pixel fails a check.
   * The result is non-zero exactly when some band is accepted, and is then that band.
   */
  function SelectPixel(column: seq<real>, minEdge: real, minPeak: real): (focus: int)
    ensures focus == 0 || Accepted(column, focus, minEdge, minPeak)
    ensures forall b :: Accepted(column, b, minEdge, minPeak) ==> focus == b
  {
    var numBands := |column|;
    var p := Scan(column);
    if p.intensity < minEdge || p.band <= 0 || p.band >= numBands - 1 then
      0
    else
      var v0 := column[p.band - 1];
      var v2 := column[p.band + 1];
      if v0 + minPeak < p.intensity && v2 + minPeak < p.intensity then
        p.band
      else
        FirstPeakRejected(column, p.band, minEdge, minPeak);
        0
  }

  /** Once the first peak fails a check, no band at all is accepted. */
  lemma FirstPeakRejected(column: seq<real>, peak: int, minEdge: real, minPeak: real)
    requires IsFirstPeak(column, peak)
    requires !Accepted(column, peak, minEdge, minPeak)
    ensures forall b :: !Accepted(column, b, minEdge, minPeak)
  {
    forall b | Accepted(column, b, minEdge, minPeak)
      ensures false
    {
      FirstPeakUnique(column, peak, b);
    }
  }

  /** A stored index always lies strictly between the first and the last band. */
  lemma SelectedIsInterior(column: seq<real>, minEdge: real, minPeak: real)
    ensures var f := SelectPixel(column, minEdge, minPeak);
            f == 0 || 1 <= f <= |column| - 2
  {
  }

  /** A stack of fewer than three images yields no focus at any pixel. */
  lemma ShortStackRejected(column: seq<real>, minEdge: real, minPeak: real)
    requires |column| < 3
    ensures SelectPixel(column, minEdge, minPeak) == 0
  {
  }

  /** A pixel without any positive edge intensity yields no focus, whatever the thresholds. */
  lemma NoEdgeRejected(column: seq<real>, minEdge: real, minPeak: real)
    requires NoPositive(column)
    ensures Scan(column).band == -1
    ensures SelectPixel(column, minEdge, minPeak) == 0
  {
  }

  /**
   * Raising either threshold can only turn a stored index into 0; it never
   * creates a focus nor moves one to another band.
   */
  lemma StricterThresholdsOnlyReject(column: seq<real>, minEdge: real, minPeak: real,
                                     minEdge': real, minPeak': real)
    requires minEdge <= minEdge' && minPeak <= minPeak'
    ensures var strict := SelectPixel(column, minEdge', minPeak');
            strict == 0 || strict == SelectPixel(column, minEdge, minPeak)
  {
  }

  /** A sharp interior peak, as in a five-level stack focused on its middle band. */
  lemma SharpPeakAccepted()
    ensures SelectPixel([5.0, 10.0, 90.0, 12.0, 6.0], MIN_EDGE_INTENSITY, MIN_PEAK) == 2
  {
  }

  /** A broad peak whose right neighbour is within the margin is rejected. */
  lemma BroadPeakRejected()
    ensures SelectPixel([5.0, 10.0, 40.0, 35.0, 6.0], MIN_EDGE_INTENSITY, MIN_PEAK) == 0
  {
  }

  /** A peak on the first band is rejected regardless of its margin. */
  lemma BoundaryPeakRejected()
    ensures SelectPixel([90.0, 50.0, 10.0, 5.0, 3.0], MIN_EDGE_INTENSITY, MIN_PEAK) == 0
  {
  }
}
