/**
 The object matcher (`_match_objects`): every left detection independently
 scans the whole right list, scores the candidates of its own class, and is
 paired with the strictly best one scoring above the threshold. Right
 detections are never removed from the pool, so one of them may serve several
 left detections.
 */
module Matcher {
  import opened Seqs
  import opened Numeric
  import opened Records
  import Calibration

  /** Vertical alignment: 1 on the same row, falling linearly with the
      vertical distance between the centres, measured against the assumed
      frame height (negative beyond it). It clears the threshold exactly
      when the centres are less than 70% of the frame height (504 px) apart. */
  function PositionScore(l: Detection, r: Detection): (s: real)
    ensures s <= 1.0
    ensures s == 1.0 <==> l.center.y == r.center.y
    ensures s > Calibration.MatchThreshold <==> Abs(l.center.y - r.center.y) < 504
  {
    1.0 - Abs(l.center.y - r.center.y) as real / Calibration.FrameHeightPx
  }

  /** Ratio of the smaller height to the larger one, the divisor floored at 1:
      a fraction in [0, 1] for real heights, and 1 for equal positive heights. */
  function HeightSimilarity(l: Detection, r: Detection): (h: real)
    ensures l.height >= 0 && r.height >= 0 ==> 0.0 <= h <= 1.0
    ensures l.height == r.height > 0 ==> h == 1.0
  {
    var lo := Min(l.height, r.height) as real;
    var hi := Max(Max(l.height, r.height), 1) as real;
    FractionInUnit(lo, hi);
    lo / hi
  }

  /** Geometric similarity of two detections: with real heights it never
      exceeds 1, is exactly 1 for the same row and the same positive height,
      and clears the threshold only when the vertical alignment alone does. */
  function Score(l: Detection, r: Detection): (s: real)
    ensures l.height >= 0 && r.height >= 0 ==> s <= 1.0
    ensures l.height >= 0 && r.height >= 0 && s > Calibration.MatchThreshold ==>
              PositionScore(l, r) > Calibration.MatchThreshold
    ensures l.center.y == r.center.y && l.height == r.height > 0 ==> s == 1.0
  {
    var a := PositionScore(l, r);
    var b := HeightSimilarity(l, r);
    ScaledAtMost(a, b, 1.0);
    ScaledAtMost(a, b, Calibration.MatchThreshold);
    a * b
  }

  /** `r` is a candidate `l` may be paired with: same class, score above the
      threshold. With real heights, candidates 504 px or more apart vertically
      never qualify, whatever their heights. */
  predicate Eligible(l: Detection, r: Detection): (e: bool)
    ensures e ==> l.className == r.className
    ensures e && l.height >= 0 && r.height >= 0 ==> Abs(l.center.y - r.center.y) < 504
  {
    l.className == r.className && Score(l, r) > Calibration.MatchThreshold
  }

  /** Index `k` is the right detection the scan must pick for `l`: it is
      eligible, no eligible candidate scores higher, and every eligible
      candidate before it scores strictly lower (ties go to the first seen). */
  predicate IsBest(l: Detection, rs: seq<Detection>, k: int)
  {
    && 0 <= k < |rs|
    && Eligible(l, rs[k])
    && (forall j :: 0 <= j < |rs| && Eligible(l, rs[j]) ==> Score(l, rs[j]) <= Score(l, rs[k]))
    && (forall j :: 0 <= j < k && Eligible(l, rs[j]) ==> Score(l, rs[j]) < Score(l, rs[k]))
  }

  /** The inner scan over the right list, as a fold over its prefixes: the
      best so far starts as "none, score 0" and is replaced only by a
      same-class candidate whose score is strictly greater than the best so
      far and than the threshold. */
  function BestIn(l: Detection, rs: seq<Detection>): (best: Option<nat>)
    ensures best.None? <==> forall j :: 0 <= j < |rs| ==> !Eligible(l, rs[j])
    ensures best.Some? ==> IsBest(l, rs, best.value)
  {
    if |rs| == 0 then None
    else
      var k := |rs| - 1;
      var prefix := rs[..k];
      var prev := BestIn(l, prefix);
      assert forall j :: 0 <= j < k ==> prefix[j] == rs[j];
      var bestScore := if prev.Some? then Score(l, rs[prev.value]) else 0.0;
      var score := Score(l, rs[k]);
      if l.className == rs[k].className && score > bestScore && score > Calibration.MatchThreshold
      then
        assert prev.Some? ==> IsBest(l, prefix, prev.value);
        Some(k)
      else
        assert Eligible(l, rs[k]) ==> score <= bestScore && prev.Some?;
        prev
  }

  /** At most one index satisfies `IsBest`. */
  lemma IsBestUnique(l: Detection, rs: seq<Detection>, a: int, b: int)
    requires IsBest(l, rs, a) && IsBest(l, rs, b)
    ensures a == b
  {
  }

  /** The scan's choice is the unique index satisfying `IsBest`. */
  lemma BestInCharacterized(l: Detection, rs: seq<Detection>, k: int)
    ensures BestIn(l, rs) == Some(k) <==> IsBest(l, rs, k)
  {
    if IsBest(l, rs, k) {
      IsBestUnique(l, rs, BestIn(l, rs).value, k);
    }
  }

  /** The pair emitted for `l` and its chosen partner `r`: class and left-hand
      geometry from `l`, right-hand geometry from `r`, mean confidence. */
  function MakePair(l: Detection, r: Detection): (p: MatchedPair)
    ensures p.className == l.className
    ensures p.leftBbox == l.bbox && p.leftCenter == l.center
    ensures p.rightBbox == r.bbox && p.rightCenter == r.center
    ensures p.confidence - l.confidence == r.confidence - p.confidence
    ensures l.confidence <= p.confidence <= r.confidence || r.confidence <= p.confidence <= l.confidence
  {
    MatchedPair(l.className, l.bbox, r.bbox, l.center, r.center,
                (l.confidence + r.confidence) / 2.0)
  }

  /** What one left detection contributes: its pair with the best candidate, if any. */
  function MatchOne(l: Detection, rs: seq<Detection>): (p: Option<MatchedPair>)
    ensures p.None? <==> forall j :: 0 <= j < |rs| ==> !Eligible(l, rs[j])
    ensures p.Some? ==> exists k :: IsBest(l, rs, k) && p.value == MakePair(l, rs[k])
  {
    match BestIn(l, rs)
    case Some(k) => assert IsBest(l, rs, k); Some(MakePair(l, rs[k]))
    case None => None
  }

  /** `MatchOne` against a fixed right list, as a value to traverse the left list with. */
  function PairingWith(rs: seq<Detection>): Detection -> Option<MatchedPair>
  {
    l => MatchOne(l, rs)
  }

  /** `_match_objects`: the pairs of all left detections that found a partner. */
  function MatchObjects(ls: seq<Detection>, rs: seq<Detection>): (ps: seq<MatchedPair>)
    ensures |ps| <= |ls|
    ensures forall p :: p in ps ==>
              exists i, j :: 0 <= i < |ls| && IsBest(ls[i], rs, j) && p == MakePair(ls[i], rs[j])
  {
    var ps := FilterMap(ls, PairingWith(rs));
    FilterMapMembers(ls, PairingWith(rs));
    assert forall p :: p in ps ==>
             exists i, j :: 0 <= i < |ls| && IsBest(ls[i], rs, j) && p == MakePair(ls[i], rs[j]) by {
      forall p | p in ps
        ensures exists i, j :: 0 <= i < |ls| && IsBest(ls[i], rs, j) && p == MakePair(ls[i], rs[j])
      {
        var l :| l in ls && MatchOne(l, rs) == Some(p);
        var i :| 0 <= i < |ls| && ls[i] == l;
        var k :| IsBest(l, rs, k) && p == MakePair(l, rs[k]);
      }
    }
    ps
  }

  /** Matching is per left detection: matching a concatenation is matching
      the parts, so pairs come out in left-input order. */
  lemma {:induction false} MatchAppend(a: seq<Detection>, b: seq<Detection>, rs: seq<Detection>)
    ensures MatchObjects(a + b, rs) == MatchObjects(a, rs) + MatchObjects(b, rs)
  {
    FilterMapAppend(a, b, PairingWith(rs));
  }

  /** A single left detection yields at most one pair: none exactly when no
      right detection is eligible for it, otherwise the pair with its best
      candidate. */
  lemma {:induction false} MatchSingle(l: Detection, rs: seq<Detection>)
    ensures |MatchObjects([l], rs)| <= 1
    ensures MatchObjects([l], rs) == [] <==> forall j :: 0 <= j < |rs| ==> !Eligible(l, rs[j])
    ensures MatchObjects([l], rs) != [] ==>
              exists k :: IsBest(l, rs, k) && MatchObjects([l], rs) == [MakePair(l, rs[k])]
  {
    assert [l][1..] == [];
  }

  /** The k-th pair comes from the left detection at the k-th index of
      `Kept(ls, PairingWith(rs))`; those indices increase, and they are exactly
      the left detections with an eligible candidate. */
  lemma {:induction false} MatchTrace(ls: seq<Detection>, rs: seq<Detection>)
    ensures var ps := MatchObjects(ls, rs);
            var ks := Kept(ls, PairingWith(rs));
            && |ks| == |ps|
            && Increasing(ks)
            && (forall k :: 0 <= k < |ks| ==>
                  exists j :: IsBest(ls[ks[k]], rs, j) && ps[k] == MakePair(ls[ks[k]], rs[j]))
            && (forall i :: 0 <= i < |ls| ==>
                  (i in ks <==> exists j :: 0 <= j < |rs| && Eligible(ls[i], rs[j])))
  {
    var f := PairingWith(rs);
    KeptSelects(ls, f);
    KeptIncreasing(ls, f);
    KeptExactly(ls, f);
  }

  /** The matcher pairs nothing exactly when no left detection has an eligible
      right detection. */
  lemma {:induction false} MatchEmpty(ls: seq<Detection>, rs: seq<Detection>)
    ensures MatchObjects(ls, rs) == [] <==>
              forall i, j :: 0 <= i < |ls| && 0 <= j < |rs| ==> !Eligible(ls[i], rs[j])
  {
    FilterMapEmpty(ls, PairingWith(rs));
  }

  /** Matching is not exclusive: one right detection eligible for two left
      detections is paired with both. */
  lemma MatchReusesRight(l1: Detection, l2: Detection, r: Detection)
    requires Eligible(l1, r) && Eligible(l2, r)
    ensures MatchObjects([l1, l2], [r]) == [MakePair(l1, r), MakePair(l2, r)]
  {
    MatchAppend([l1], [l2], [r]);
    assert [l1] + [l2] == [l1, l2];
    MatchLoneCandidate(l1, r);
    MatchLoneCandidate(l2, r);
  }

  /** A lone eligible right detection is the partner of a lone left detection. */
  lemma MatchLoneCandidate(l: Detection, r: Detection)
    requires Eligible(l, r)
    ensures MatchObjects([l], [r]) == [MakePair(l, r)]
  {
    BestInCharacterized(l, [r], 0);
    FilterMapUnfold([l], PairingWith([r]));
    assert [l][1..] == [];
  }

  /** Detections of different classes never match, however well they align. */
  lemma ClassGate(l: Detection, r: Detection)
    requires l.className != r.className
    ensures MatchObjects([l], [r]) == []
  {
    MatchSingle(l, [r]);
  }

  /** A fraction whose numerator lies between 0 and a denominator of at least 1
      lies in [0, 1], and is 1 when the two are equal. */
  lemma FractionInUnit(lo: real, hi: real)
    requires hi >= 1.0
    ensures 0.0 <= lo <= hi ==> 0.0 <= lo / hi <= 1.0
    ensures lo == hi ==> lo / hi == 1.0
  {
    if 0.0 <= lo <= hi {
      assert lo / hi * hi == lo <= 1.0 * hi;
      CancelPositive(lo / hi, 1.0, hi);
    }
  }

  /** Scaling by a factor in [0, 1] keeps a value at or below a non-negative bound. */
  lemma ScaledAtMost(a: real, b: real, c: real)
    requires c >= 0.0
    ensures a <= c && 0.0 <= b <= 1.0 ==> a * b <= c
  {
    if a <= c && 0.0 <= b <= 1.0 {
      if a >= 0.0 {
        assert a * b <= a * 1.0;
      } else {
        assert a * b <= 0.0;
      }
    }
  }

  /** The threshold is strict: a same-class candidate scoring exactly 0.3
      (same row, heights 3 and 10) is not matched. */
  lemma ExactThresholdRejected()
    ensures var l := Detection("cup", 0.9, Box(0, 0, 10, 3), Point(5, 1), 10, 3);
            var r := Detection("cup", 0.8, Box(0, 0, 10, 10), Point(5, 1), 10, 10);
            Score(l, r) == 0.3 && MatchObjects([l], [r]) == []
  {
    var l := Detection("cup", 0.9, Box(0, 0, 10, 3), Point(5, 1), 10, 3);
    var r := Detection("cup", 0.8, Box(0, 0, 10, 10), Point(5, 1), 10, 10);
    MatchSingle(l, [r]);
  }
}
