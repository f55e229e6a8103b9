/**
 The depth estimator (`_calculate_3d_measurements`): each matched pair's
 horizontal disparity is turned into a depth by the pinhole stereo relation
 depth = baseline * focal length / disparity, clamped to a plausible range,
 and the left bounding box is scaled from pixels to centimetres at that depth.
 Pairs whose disparity is too small are dropped.
 */
module Estimator {
  import opened Seqs
  import opened Numeric
  import opened Records
  import opened Calibration
  import TitleCase

  /** Horizontal pixel distance between the two centres of a pair: zero
      exactly when they share a column, and the same whichever centre is
      subtracted from which. */
  function Disparity(p: MatchedPair): (d: nat)
    ensures d as int == p.leftCenter.x - p.rightCenter.x || d as int == p.rightCenter.x - p.leftCenter.x
    ensures d == 0 <==> p.leftCenter.x == p.rightCenter.x
  {
    Abs(p.leftCenter.x - p.rightCenter.x)
  }

  /** Disparity at or below which the depth saturates at `MaxDepthCm`. */
  const NearLimitPx: nat := 30

  /** Disparity at or above which the depth saturates at `MinDepthCm`. */
  const FarLimitPx: nat := 750

  /** Triangulated depth for a usable disparity, clamped to [20, 500] cm. */
  function Depth(d: int): (depth: real)
    requires d >= MinDisparityPx
    ensures MinDepthCm <= depth <= MaxDepthCm
    ensures NearLimitPx <= d <= FarLimitPx ==> depth * d as real == BaselineCm * FocalLengthPx
    ensures depth == MaxDepthCm <==> d <= NearLimitPx
    ensures depth == MinDepthCm <==> d >= FarLimitPx
  {
    var raw := BaselineCm * FocalLengthPx / d as real;
    RawDepthBounds(d);
    Clamp(raw, MinDepthCm, MaxDepthCm)
  }

  /** Where the unclamped depth 15000 / d lies relative to the clamp bounds. */
  lemma RawDepthBounds(d: int)
    requires d >= MinDisparityPx
    ensures var raw := BaselineCm * FocalLengthPx / d as real;
            && raw * d as real == BaselineCm * FocalLengthPx
            && (raw >= MaxDepthCm <==> d <= NearLimitPx)
            && (raw <= MinDepthCm <==> d >= FarLimitPx)
  {
    var raw := BaselineCm * FocalLengthPx / d as real;
    var dr := d as real;
    assert raw * dr == 15000.0;
    if d <= NearLimitPx {
      assert raw * dr >= 500.0 * dr;
    }
    if raw >= MaxDepthCm {
      assert raw * dr >= 500.0 * dr;
    }
    if d >= FarLimitPx {
      assert raw * dr <= 20.0 * dr;
    }
    if raw <= MinDepthCm {
      assert raw * dr <= 20.0 * dr;
    }
  }

  /** A larger disparity never gives a larger depth. */
  lemma DepthMonotone(d1: int, d2: int)
    requires MinDisparityPx <= d1 <= d2
    ensures Depth(d2) <= Depth(d1)
  {
    var c := BaselineCm * FocalLengthPx;
    DivAntitone(c, d1 as real, d2 as real);
    ClampMonotone(c / d2 as real, c / d1 as real, MinDepthCm, MaxDepthCm);
  }

  /** Dividing a non-negative quantity by a larger divisor gives no more. */
  lemma DivAntitone(c: real, a: real, b: real)
    requires c >= 0.0 && 0.0 < a <= b
    ensures c / b <= c / a
  {
    var x := c / b;
    var y := c / a;
    assert x * b == c && y * a == c;
    assert y >= 0.0;
    assert y * a <= y * b;
    CancelPositive(x, y, b);
  }

  /** Converts a pixel extent to centimetres at the given depth: scaling the
      result back by focal length / depth recovers the pixel extent, and a
      non-negative extent at a non-negative depth gives a non-negative size. */
  function PixelsToCm(pixels: int, depth: real): (cm: real)
    ensures cm * FocalLengthPx == pixels as real * depth
    ensures pixels >= 0 && depth >= 0.0 ==> cm >= 0.0
  {
    pixels as real * depth / FocalLengthPx
  }

  /** One pair's measurement, or `None` when its disparity is below 5 px. The
      label is the title-cased class, the position is the left centre, and the
      sizes come from the left bounding box. */
  function Estimate(p: MatchedPair): (m: Option<Measurement>)
    ensures m.None? <==> Disparity(p) < MinDisparityPx
    ensures m.Some? ==>
              && m.value.objectName == TitleCase.Title(p.className)
              && m.value.confidence == p.confidence
              && m.value.position == p.leftCenter
              && m.value.disparityPx == Disparity(p) >= MinDisparityPx
              && m.value.depthCm == Depth(Disparity(p))
              && MinDepthCm <= m.value.depthCm <= MaxDepthCm
              && m.value.widthCm * FocalLengthPx == (p.leftBbox.x2 - p.leftBbox.x1) as real * m.value.depthCm
              && m.value.heightCm * FocalLengthPx == (p.leftBbox.y2 - p.leftBbox.y1) as real * m.value.depthCm
  {
    var d := Disparity(p);
    if d < MinDisparityPx then None
    else
      var depth := Depth(d);
      var width := PixelsToCm(p.leftBbox.x2 - p.leftBbox.x1, depth);
      var height := PixelsToCm(p.leftBbox.y2 - p.leftBbox.y1, depth);
      Some(Measurement(TitleCase.Title(p.className), p.confidence, depth, width, height,
                       p.leftCenter, d))
  }

  /** Moving the right centre further away never brings an object closer or
      makes it larger: of two pairs with the same left box and usable
      disparities, the one with the larger disparity reports no greater depth,
      and, for a box that is not inverted, no greater width or height. */
  lemma EstimateDepthMonotone(q1: MatchedPair, q2: MatchedPair)
    requires q1.leftBbox == q2.leftBbox
    requires MinDisparityPx <= Disparity(q1) <= Disparity(q2)
    ensures Estimate(q1).Some? && Estimate(q2).Some?
    ensures Estimate(q2).value.depthCm <= Estimate(q1).value.depthCm
    ensures q1.leftBbox.x1 <= q1.leftBbox.x2 ==> Estimate(q2).value.widthCm <= Estimate(q1).value.widthCm
    ensures q1.leftBbox.y1 <= q1.leftBbox.y2 ==> Estimate(q2).value.heightCm <= Estimate(q1).value.heightCm
  {
    var d1, d2 := Depth(Disparity(q1)), Depth(Disparity(q2));
    DepthMonotone(Disparity(q1), Disparity(q2));
    var b := q1.leftBbox;
    ScaleAntitone((b.x2 - b.x1) as real, d2, d1);
    ScaleAntitone((b.y2 - b.y1) as real, d2, d1);
  }

  /** A non-negative extent converted at a smaller depth gives no larger size. */
  lemma ScaleAntitone(w: real, a: real, b: real)
    requires a <= b
    ensures w >= 0.0 ==> w * a / FocalLengthPx <= w * b / FocalLengthPx
  {
    if w >= 0.0 {
      assert w * (b - a) >= 0.0;
    }
  }

  /** The estimate ignores the right bounding box: two pairs that differ only in
      it (and agree on the centres) yield the same measurement. */
  lemma EstimateIgnoresRightBox(p: MatchedPair, q: MatchedPair)
    requires p.className == q.className && p.confidence == q.confidence
    requires p.leftBbox == q.leftBbox && p.leftCenter == q.leftCenter && p.rightCenter == q.rightCenter
    ensures Estimate(p) == Estimate(q)
  {
  }

  /** `_calculate_3d_measurements`: the measurements of all usable pairs. */
  function CalculateMeasurements(ps: seq<MatchedPair>): (ms: seq<Measurement>)
    ensures |ms| <= |ps|
    ensures forall m :: m in ms ==>
              MinDepthCm <= m.depthCm <= MaxDepthCm && m.disparityPx >= MinDisparityPx
  {
    FilterMapMembers(ps, Estimate);
    FilterMap(ps, Estimate)
  }

  /** Measurements keep pair order: measuring a concatenation measures the parts. */
  lemma {:induction false} MeasureAppend(a: seq<MatchedPair>, b: seq<MatchedPair>)
    ensures CalculateMeasurements(a + b) == CalculateMeasurements(a) + CalculateMeasurements(b)
  {
    FilterMapAppend(a, b, Estimate);
  }

  /** The k-th measurement is the estimate of the pair at the k-th index of
      `Kept(ps, Estimate)`; those indices increase and are exactly the pairs
      with a disparity of at least 5 px. */
  lemma {:induction false} MeasureTrace(ps: seq<MatchedPair>)
    ensures var ms := CalculateMeasurements(ps);
            var ks := Kept(ps, Estimate);
            && |ks| == |ms|
            && Increasing(ks)
            && (forall k :: 0 <= k < |ks| ==> Estimate(ps[ks[k]]) == Some(ms[k]))
            && (forall i :: 0 <= i < |ps| ==> (i in ks <==> Disparity(ps[i]) >= MinDisparityPx))
  {
    KeptSelects(ps, Estimate);
    KeptIncreasing(ps, Estimate);
    KeptExactly(ps, Estimate);
  }

  /** No measurement survives exactly when every pair is degenerate, and every
      pair is measured exactly when none is. */
  lemma {:induction false} MeasureCounts(ps: seq<MatchedPair>)
    ensures CalculateMeasurements(ps) == [] <==>
              forall i :: 0 <= i < |ps| ==> Disparity(ps[i]) < MinDisparityPx
    ensures |CalculateMeasurements(ps)| == |ps| <==>
              forall i :: 0 <= i < |ps| ==> Disparity(ps[i]) >= MinDisparityPx
  {
    FilterMapEmpty(ps, Estimate);
    FilterMapTotal(ps, Estimate);
  }
}
