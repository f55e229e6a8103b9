/**
 The logic of `run_full_measurement_process`: match the two detection lists,
 and if nothing matched report "no result"; otherwise measure every pair. The
 detector calls that produce the lists and the drawing of the annotated image
 are outside this model.
 */
module Pipeline {
  import opened Seqs
  import opened Numeric
  import opened Records
  import opened Calibration
  import opened Matcher
  import opened Estimator
  import TitleCase

  /** The two outcomes the caller can tell apart: `(None, None)` when the
      matcher found no pair, and a (possibly empty) measurement list otherwise. */
  datatype Outcome = NoResult | Measured(measurements: seq<Measurement>)
  {
    /** The measurements reported, none for `NoResult`. */
    function Reported(): seq<Measurement>
    {
      if Measured? then measurements else []
    }
  }

  /** One measurement run over the left and right detections: "no result"
      exactly when nothing is eligible, otherwise the estimates of the
      matcher's pairs, in order. */
  function Run(ls: seq<Detection>, rs: seq<Detection>): (o: Outcome)
    ensures o.NoResult? <==>
              forall i, j :: 0 <= i < |ls| && 0 <= j < |rs| ==> !Eligible(ls[i], rs[j])
    ensures o.Measured? ==> o.measurements == CalculateMeasurements(MatchObjects(ls, rs))
    ensures o.Measured? ==>
              && |o.measurements| <= |ls|
              && forall m :: m in o.measurements ==>
                   MinDepthCm <= m.depthCm <= MaxDepthCm && m.disparityPx >= MinDisparityPx
  {
    var ps := MatchObjects(ls, rs);
    MatchEmpty(ls, rs);
    if |ps| == 0 then NoResult else Measured(CalculateMeasurements(ps))
  }

  /** With no detections on either side there is no result, and nothing fails. */
  lemma RunEmptyInputs(ls: seq<Detection>, rs: seq<Detection>)
    requires |ls| == 0 || |rs| == 0
    ensures Run(ls, rs) == NoResult
  {
  }

  /** "No result" and "no measurements" are distinct: the run reports an empty
      list exactly when the matcher paired something and every pair is
      degenerate. */
  lemma RunAllRejected(ls: seq<Detection>, rs: seq<Detection>)
    ensures Run(ls, rs) == Measured([]) <==>
              && MatchObjects(ls, rs) != []
              && forall p :: p in MatchObjects(ls, rs) ==> Disparity(p) < MinDisparityPx
  {
    var ps := MatchObjects(ls, rs);
    MeasureCounts(ps);
    assert (forall p :: p in ps ==> Disparity(p) < MinDisparityPx) <==>
           (forall i :: 0 <= i < |ps| ==> Disparity(ps[i]) < MinDisparityPx);
  }

  /** `m` is the measurement of left detection `l` paired with right detection
      `r`: labelled with the left detection's title-cased class, placed at the
      left centre, carrying the horizontal distance between the two centres,
      the depth triangulated from it and the mean of their confidences, with
      sizes scaled from the left box at that depth. */
  predicate MeasuresPair(m: Measurement, l: Detection, r: Detection)
  {
    && m.objectName == TitleCase.Title(l.className)
    && m.position == l.center
    && m.disparityPx == Abs(l.center.x - r.center.x) >= MinDisparityPx
    && m.depthCm == Depth(m.disparityPx)
    && m.confidence == (l.confidence + r.confidence) / 2.0
    && m.widthCm * FocalLengthPx == (l.bbox.x2 - l.bbox.x1) as real * m.depthCm
    && m.heightCm * FocalLengthPx == (l.bbox.y2 - l.bbox.y1) as real * m.depthCm
  }

  /** Every reported measurement is the measurement of some left detection
      paired with the right detection the scan picks for it. */
  lemma RunTrace(ls: seq<Detection>, rs: seq<Detection>)
    ensures Run(ls, rs).Measured? ==>
              forall m :: m in Run(ls, rs).measurements ==>
                exists i, j :: 0 <= i < |ls| && IsBest(ls[i], rs, j) && MeasuresPair(m, ls[i], rs[j])
  {
    forall m | m in CalculateMeasurements(MatchObjects(ls, rs))
      ensures exists i, j :: 0 <= i < |ls| && IsBest(ls[i], rs, j) && MeasuresPair(m, ls[i], rs[j])
    {
      MeasurementOrigin(ls, rs, m);
    }
  }

  /** One measurement of the run traced back to the pair it was made from. */
  lemma MeasurementOrigin(ls: seq<Detection>, rs: seq<Detection>, m: Measurement)
    ensures m in CalculateMeasurements(MatchObjects(ls, rs)) ==>
              exists i, j :: 0 <= i < |ls| && IsBest(ls[i], rs, j) && MeasuresPair(m, ls[i], rs[j])
  {
    var ps := MatchObjects(ls, rs);
    if m in CalculateMeasurements(ps) {
      FilterMapMembers(ps, Estimate);
      var p :| p in ps && Estimate(p) == Some(m);
      PairOrigin(ls, rs, p);
    }
  }

  /** The measurement of one of the matcher's pairs, traced back to the two
      detections the pair was made from. */
  lemma PairOrigin(ls: seq<Detection>, rs: seq<Detection>, p: MatchedPair)
    ensures p in MatchObjects(ls, rs) && Estimate(p).Some? ==>
              exists i, j :: 0 <= i < |ls| && IsBest(ls[i], rs, j) && MeasuresPair(Estimate(p).value, ls[i], rs[j])
  {
    if p in MatchObjects(ls, rs) && Estimate(p).Some? {
      var i, j :| 0 <= i < |ls| && IsBest(ls[i], rs, j) && p == MakePair(ls[i], rs[j]);
      EstimateOfPair(ls[i], rs[j]);
    }
  }

  /** Nothing is lost: every left detection whose best candidate lies at least
      5 px away horizontally has its measurement reported. */
  lemma RunComplete(ls: seq<Detection>, rs: seq<Detection>, i: int, j: int)
    requires 0 <= i < |ls| && 0 <= j < |rs|
    requires Abs(ls[i].center.x - rs[j].center.x) >= MinDisparityPx
    ensures IsBest(ls[i], rs, j) ==>
              && Run(ls, rs).Measured?
              && exists m :: m in Run(ls, rs).measurements && MeasuresPair(m, ls[i], rs[j])
  {
    if IsBest(ls[i], rs, j) {
      var l := ls[i];
      var p := MakePair(l, rs[j]);
      BestInCharacterized(l, rs, j);
      assert PairingWith(rs)(l) == Some(p);
      FilterMapMembers(ls, PairingWith(rs));
      var ps := MatchObjects(ls, rs);
      assert p in ps;
      EstimateOfPair(l, rs[j]);
      FilterMapMembers(ps, Estimate);
      assert Estimate(p).value in Run(ls, rs).measurements;
    }
  }

  /** Runs over the two halves of the left list report, together, what the
      run over the whole list reports, in the same order; the whole run has
      no result exactly when neither half has. */
  lemma {:induction false} RunAppend(a: seq<Detection>, b: seq<Detection>, rs: seq<Detection>)
    ensures Run(a + b, rs).Reported() == Run(a, rs).Reported() + Run(b, rs).Reported()
    ensures Run(a + b, rs).NoResult? <==> Run(a, rs).NoResult? && Run(b, rs).NoResult?
  {
    MatchAppend(a, b, rs);
    MeasureAppend(MatchObjects(a, rs), MatchObjects(b, rs));
    var pa, pb := MatchObjects(a, rs), MatchObjects(b, rs);
    if pa == [] {
      assert pa + pb == pb;
    }
    if pb == [] {
      assert pa + pb == pa;
    }
  }

  /** What estimating a freshly made pair reports, in terms of its two detections. */
  lemma EstimateOfPair(l: Detection, r: Detection)
    requires Abs(l.center.x - r.center.x) >= MinDisparityPx
    ensures Estimate(MakePair(l, r)).Some?
    ensures MeasuresPair(Estimate(MakePair(l, r)).value, l, r)
  {
  }

  /** Two books, one row apart and 20 px apart horizontally: matched with score
      (1 - 2/720) * 48/50, and the depth 15000/20 = 750 cm is clamped to 500 cm. */
  lemma ScenarioMatchedAndClamped()
    ensures var l := Detection("book", 0.9, Box(75, 175, 125, 225), Point(100, 200), 50, 50);
            var r := Detection("book", 0.7, Box(96, 178, 144, 226), Point(120, 202), 48, 48);
            && Score(l, r) == (1.0 - 2.0 / 720.0) * (48.0 / 50.0)
            && Run([l], [r]) == Measured([Measurement("Book", 0.8, 500.0, 25.0, 25.0, Point(100, 200), 20)])
  {
    var l := Detection("book", 0.9, Box(75, 175, 125, 225), Point(100, 200), 50, 50);
    var r := Detection("book", 0.7, Box(96, 178, 144, 226), Point(120, 202), 48, 48);
    assert Eligible(l, r);
    MatchSingle(l, [r]);
    BestInCharacterized(l, [r], 0);
    var p := MakePair(l, r);
    assert MatchObjects([l], [r]) == [p];
    assert TitleCase.Title("book") == "Book";
    assert Estimate(p) == Some(Measurement("Book", 0.8, 500.0, 25.0, 25.0, Point(100, 200), 20));
    FilterMapUnfold([p], Estimate);
    assert [p][1..] == [];
  }

  /** The same books with only 3 px of horizontal shift: matched, but the pair
      is rejected, so the run reports an empty measurement list. */
  lemma ScenarioRejected()
    ensures var l := Detection("book", 0.9, Box(75, 175, 125, 225), Point(100, 200), 50, 50);
            var r := Detection("book", 0.7, Box(79, 176, 127, 224), Point(103, 200), 48, 48);
            Run([l], [r]) == Measured([])
  {
    var l := Detection("book", 0.9, Box(75, 175, 125, 225), Point(100, 200), 50, 50);
    var r := Detection("book", 0.7, Box(79, 176, 127, 224), Point(103, 200), 48, 48);
    assert Eligible(l, r);
    MatchSingle(l, [r]);
    BestInCharacterized(l, [r], 0);
    RunAllRejected([l], [r]);
    assert MatchObjects([l], [r]) == [MakePair(l, r)];
  }

  /** A cup on the left and only a bottle on the right: no pair, no result. */
  lemma ScenarioClassMismatch()
    ensures var l := Detection("cup", 0.9, Box(75, 175, 125, 225), Point(100, 200), 50, 50);
            var r := Detection("bottle", 0.9, Box(95, 175, 145, 225), Point(120, 200), 50, 50);
            Run([l], [r]) == NoResult
  {
  }
}
