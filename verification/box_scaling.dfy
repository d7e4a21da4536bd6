/** Mapping face boxes found in the downscaled frame back to the original frame.

    A frame is shrunk by the resize factor before detection, so every box the
    detector reports is in shrunken coordinates. Each coordinate is divided by
    the factor and truncated to an integer. The factor is kept as an exact
    fraction `num / den`; dividing by it is multiplying by `den / num`.
 */
module BoxScaling {

  /** A resize factor `num / den`, positive by construction. */
  datatype Ratio = Ratio(num: nat, den: nat) {
    predicate Valid() {
      num > 0 && den > 0
    }
  }

  /** The factor the recogniser shrinks frames by: one quarter. */
  const DefaultResizing: Ratio := Ratio(1, 4)

  /** A face location in (top, right, bottom, left) order, as the detector
      reports it; the detector clips boxes to the image, so every coordinate
      is non-negative. */
  datatype Box = Box(top: nat, right: nat, bottom: nat, left: nat) {
    /** The box spans a non-negative height and width. */
    predicate WellFormed() {
      top <= bottom && left <= right
    }
  }

  /** One coordinate divided by the factor, truncated toward zero. */
  function RescaleCoord(c: nat, f: Ratio): (r: nat)
    requires f.Valid()
    ensures r * f.num <= c * f.den < r * f.num + f.num
  {
    (c * f.den) / f.num
  }

  /** Every coordinate of a box divided by the factor and truncated. */
  function RescaleBox(b: Box, f: Ratio): (r: Box)
    requires f.Valid()
    ensures r.top * f.num <= b.top * f.den < r.top * f.num + f.num
    ensures r.right * f.num <= b.right * f.den < r.right * f.num + f.num
    ensures r.bottom * f.num <= b.bottom * f.den < r.bottom * f.num + f.num
    ensures r.left * f.num <= b.left * f.den < r.left * f.num + f.num
  {
    Box(RescaleCoord(b.top, f), RescaleCoord(b.right, f),
        RescaleCoord(b.bottom, f), RescaleCoord(b.left, f))
  }

  /** All boxes of a frame rescaled, one result per box, in detection order. */
  function RescaleLocations(locations: seq<Box>, f: Ratio): (r: seq<Box>)
    requires f.Valid()
    ensures |r| == |locations|
    ensures forall k :: 0 <= k < |r| ==> r[k] == RescaleBox(locations[k], f)
  {
    if |locations| == 0 then []
    else [RescaleBox(locations[0], f)] + RescaleLocations(locations[1..], f)
  }

  /** Dividing by a factor of the form `1 / n` and truncating is multiplying
      by `n`: the quotient is exact. */
  lemma RescaleByReciprocalIsExact(c: nat, n: nat)
    requires n > 0
    ensures RescaleCoord(c, Ratio(1, n)) == c * n
  {
  }

  /** With the default factor every coordinate is multiplied by four, so the
      original-frame box is exactly four times the detected one. */
  lemma DefaultRescaleIsTimesFour(b: Box)
    ensures RescaleBox(b, DefaultResizing)
         == Box(4 * b.top, 4 * b.right, 4 * b.bottom, 4 * b.left)
  {
  }

  /** Rescaling never reverses the order of two coordinates. */
  lemma RescaleCoordMonotonic(a: nat, c: nat, f: Ratio)
    requires f.Valid()
    requires a <= c
    ensures RescaleCoord(a, f) <= RescaleCoord(c, f)
  {
    var ra, rc := RescaleCoord(a, f), RescaleCoord(c, f);
    assert a * f.den <= c * f.den by {
      MultiplyMonotonic(a, c, f.den);
    }
    if rc < ra {
      assert rc + 1 <= ra;
      MultiplyMonotonic(rc + 1, ra, f.num);
      assert false;
    }
  }

  /** Helper: multiplying by a natural number keeps order. */
  lemma MultiplyMonotonic(a: nat, c: nat, k: nat)
    requires a <= c
    ensures a * k <= c * k
  {
  }

  /** A well-formed box stays well-formed after rescaling. */
  lemma RescalePreservesWellFormed(b: Box, f: Ratio)
    requires f.Valid()
    requires b.WellFormed()
    ensures RescaleBox(b, f).WellFormed()
  {
    RescaleCoordMonotonic(b.top, b.bottom, f);
    RescaleCoordMonotonic(b.left, b.right, f);
  }
}
