# Stereo matching and triangulation, modelled in Dafny

This project models the measurement engine of a "poor man's stereo" object
measurer. The engine is the `Auto3DMeasurement` class in `backend.py`. An object
detector runs on two photographs of the same scene, the second taken after
moving the camera sideways. The engine receives one detection list per
photograph and does three things:

1. **Matching** (`_match_objects`). Each left detection scans every right
   detection of the same class. It scores each one by vertical alignment times
   height similarity. It is paired with the strictly best candidate scoring
   above 0.3; on equal scores the first one seen wins. Right detections are
   never taken out of the pool.
2. **Triangulation** (`_calculate_3d_measurements`). Each pair's horizontal
   disparity becomes a depth, 15 cm × 1000 px / disparity, clamped to
   [20, 500] cm. The left bounding box is then scaled to centimetres at that
   depth. Pairs with a disparity under 5 px are dropped.
3. **The run** (`run_full_measurement_process`). It returns "no result" when
   nothing matched. Otherwise it returns the measurement list, which may be
   empty.

Modules:

- `Seqs` (`seqs.dfy`): `Option` and `FilterMap`, the "apply to each, keep what
  is defined" traversal that both loops of the engine are instances of. `Kept`
  lists the kept indices, which shows the selection keeps input order.
- `Numeric` (`numeric.dfy`): Python's `abs`, `min`, `max`, and the clamp
  `max(lo, min(hi, v))`.
- `Calibration` (`calibration.dfy`): the hard-coded constants 720, 0.3, 15,
  1000, 5, 20 and 500.
- `Records` (`records.dfy`): `Detection`, `MatchedPair`, `Measurement`.
- `TitleCase` (`titlecase.dfy`): `str.title()`, which turns the class name
  into the reported object label.
- `Matcher` (`matcher.dfy`): the score, the inner scan `BestIn`, and
  `MatchObjects`.
- `Estimator` (`estimator.dfy`): `Disparity`, `Depth`, `Estimate`, and
  `CalculateMeasurements`.
- `Pipeline` (`pipeline.dfy`): `Run`, with the `NoResult` / `Measured` outcome.
  It also holds three worked scenarios proved as lemmas.

All Python floats are exact `real`s. Pixel coordinates, centres, heights and
disparities are `int`, because the detector truncates them to integers.

Facts about the code that the model keeps as they are:

- Bounding boxes are not validated. An inverted box gives negative extents,
  which flow unchanged into the score and the sizes, here as in `backend.py`.
- The detector truncates a box's corners and its extents separately, so the two
  can differ by one pixel. The matcher reads the separate `height` field, and the
  estimator reads the box corners (`x2 - x1`, `y2 - y1`). The model keeps both.
- The calibration constants are hard-coded in `backend.py`, so here they are
  named constants.

## Model

| member | source | states |
|---|---|---|
| Matcher.PositionScore | backend.py:99 | the vertical alignment is at most 1, exactly 1 when the centres share a row, and above 0.3 exactly when the centres are less than 504 px (70% of 720) apart vertically |
| Matcher.HeightSimilarity | backend.py:99 | with non-negative heights the height ratio min/max(…,1) lies in [0, 1], and equal positive heights give exactly 1 |
| Matcher.Score | backend.py:99 | with non-negative heights the score never exceeds 1, and it clears 0.3 only when the vertical alignment alone does; the same row and the same positive height give exactly 1 |
| Matcher.Eligible | backend.py:98-100 | an eligible candidate has the left detection's class, and (with non-negative heights) its centre lies less than 504 px away vertically |
| Matcher.BestIn | backend.py:96-100 | the inner scan picks no candidate exactly when no right detection has the same class and a score above 0.3; otherwise its pick has the highest score among those candidates, and every earlier such candidate scores strictly lower (equal later scores do not replace it) |
| Matcher.BestInCharacterized | backend.py:96-100 | the scan's pick is exactly the unique index that is eligible, maximal, and first among equals |
| Matcher.MakePair | backend.py:101 | an emitted pair carries the left detection's class, box and centre, the right detection's box and centre, and a confidence equidistant from the two source confidences and between them (their mean) |
| Matcher.MatchOne | backend.py:95-101 | a left detection contributes nothing exactly when no right detection is eligible for it; otherwise it contributes its pair with the best candidate |
| Matcher.MatchObjects | backend.py:93-102 | there are no more pairs than left detections, and every pair is made from some left detection and the right detection its scan picks (the best eligible candidate, first among equals) |
| Matcher.MatchAppend | backend.py:95-102 | each left detection is matched independently: matching a concatenation gives the concatenation of the results, so pairs come out in left order |
| Matcher.MatchSingle | backend.py:95-101 | one left detection yields at most one pair: none exactly when nothing is eligible, otherwise the pair with its best candidate |
| Matcher.MatchTrace | backend.py:94-102 | the k-th pair comes from the left detection at the k-th of a strictly increasing list of indices, and these are exactly the left detections that have an eligible candidate |
| Matcher.MatchEmpty | backend.py:93-102 | the matcher returns no pairs exactly when no left/right combination is eligible |
| Matcher.MatchReusesRight | backend.py:95-101 | matching is not exclusive: one right detection eligible for two left detections is paired with both |
| Matcher.MatchLoneCandidate | backend.py:96-101 | a lone eligible right detection becomes the partner of a lone left detection |
| Matcher.ClassGate | backend.py:98 | detections of different classes never match, whatever their geometry |
| Matcher.ExactThresholdRejected | backend.py:100 | a same-class candidate scoring exactly 0.3 is not matched (the threshold is strict) |
| Numeric.Clamp | backend.py:108 | `max(lo, min(hi, v))` lies in [lo, hi], equals v inside it, and equals the nearer bound outside |
| Numeric.ClampMonotone | backend.py:108 | clamping preserves order |
| Estimator.Disparity | backend.py:106 | the disparity is the horizontal distance between the two centres, whichever is further right, and zero exactly when they share a column |
| Estimator.Depth | backend.py:104-108 | depth lies in [20, 500]; for disparities 30..750 it is the exact triangulation (depth × disparity = 15 × 1000); it saturates at 500 exactly for disparities up to 30, and at 20 exactly from 750 up |
| Estimator.RawDepthBounds | backend.py:104-108 | the unclamped depth 15000/d times d is 15000, it is at least 500 exactly when d ≤ 30, and at most 20 exactly when d ≥ 750 |
| Estimator.DepthMonotone | backend.py:108 | a larger disparity never yields a larger depth |
| Estimator.PixelsToCm | backend.py:108 | a size in centimetres scaled back by focal length / depth gives the pixel extent, and a non-negative extent at a non-negative depth gives a non-negative size |
| Estimator.Estimate | backend.py:105-109 | a pair is rejected exactly when its disparity is under 5 px; otherwise it is labelled with the title-cased class, keeps the pair's confidence, sits at the left centre, reports the disparity, has the depth `Depth` gives for that disparity (so in [20, 500]), and has width and height equal to the left box's pixel extents × depth / focal length |
| Estimator.EstimateDepthMonotone | backend.py:106-108 | of two pairs with the same left box and disparities of at least 5 px, the one with the larger disparity reports no greater depth, and for a box that is not inverted no greater width or height |
| Estimator.EstimateIgnoresRightBox | backend.py:106-109 | the right bounding box plays no part in a measurement |
| Estimator.CalculateMeasurements | backend.py:103-110 | there are never more measurements than pairs, and every measurement has its depth in [20, 500] and a disparity of at least 5 px |
| Estimator.MeasureAppend | backend.py:105-110 | pairs are measured independently, so measurements keep pair order |
| Estimator.MeasureTrace | backend.py:105-110 | the k-th measurement is the estimate of the pair at the k-th of a strictly increasing list of indices, and these are exactly the pairs with a disparity of at least 5 px |
| Estimator.MeasureCounts | backend.py:105-110 | no measurement survives exactly when every pair is degenerate; all pairs are measured exactly when none is |
| TitleCase.Title | backend.py:109 | the label has the class name's length; each character is upper-cased after an uncased character (or at the start) and lower-cased after a cased one |
| TitleCase.TitleSameUpToCase | backend.py:109 | the label agrees with the class name position by position up to case, and keeps which characters are letters |
| TitleCase.TitleIdempotent | backend.py:109 | title-casing a label again changes nothing |
| Pipeline.Run | backend.py:111-117 | the run gives "no result" exactly when no left/right combination is eligible; otherwise it reports exactly the estimates of the matcher's pairs in pair order, no more of them than there are left detections, each with depth in [20, 500] and disparity ≥ 5 |
| Pipeline.RunEmptyInputs | backend.py:113-114 | empty detections on either side give "no result", not a failure |
| Pipeline.RunAllRejected | backend.py:113-117 | the run reports an empty measurement list, which is distinct from "no result", exactly when the matcher paired something and every pair has a disparity under 5 px |
| Pipeline.RunTrace | backend.py:96-109 | every reported measurement comes from a left detection and the right detection its scan picks. It carries the left detection's title-cased class, the left centre, the horizontal distance between the centres, the depth triangulated from that distance, the mean confidence, and sizes scaled from the left box at that depth |
| Pipeline.MeasurementOrigin | backend.py:96-109 | one measurement of the run, traced back to the left detection and the picked right detection it was made from |
| Pipeline.PairOrigin | backend.py:96-109 | the measurement of one of the matcher's pairs, traced back to the two detections the pair was made from |
| Pipeline.RunComplete | backend.py:94-117 | no measurement is lost: a left detection whose picked right detection lies at least 5 px away horizontally makes the run report a measurement of that pair |
| Pipeline.RunAppend | backend.py:94-117 | left detections are handled in order and independently: the runs over two halves of the left list report, concatenated, what the run over the whole list reports, and the whole run has no result exactly when neither half has one |
| Pipeline.EstimateOfPair | backend.py:101-109 | a pair made from two detections whose centres are at least 5 px apart horizontally is measured, and the measurement reports the label, position, disparity, depth, confidence and sizes in terms of the two detections |
| Pipeline.ScenarioMatchedAndClamped | backend.py:99-109 | two books 2 px apart vertically with heights 50 and 48 score (1 − 2/720) × 48/50 and match; at 20 px disparity the depth 750 cm clamps to 500 cm; the result is one "Book" measurement 25 × 25 cm |
| Pipeline.ScenarioRejected | backend.py:106-107 | the same books only 3 px apart horizontally match, but the run reports no measurements |
| Pipeline.ScenarioClassMismatch | backend.py:98-114 | a cup on the left with only a bottle on the right gives "no result" |

## Left out

- The object detector (`AIObjectDetector`, backend.py:23-69) wraps a YOLO model. The model gets detection lists as input instead.
- The camera controller (`AICameraController`, backend.py:76-89) does camera I/O with sleeps. It is not modelled.
- Drawing the annotated image (`left_image.copy()`, `cv2.circle`, `cv2.putText`, backend.py:115-116) is presentation only. `Run` returns the measurements without an image.
- The two-decimal and one-decimal string formatting of confidence, depth and sizes (backend.py:109) is display only. The model keeps exact reals.
- The unused `reference_objects` table (backend.py:92) is not modelled.
- The detection fields `id` and `class_id` (backend.py:62) are never read by the engine, so `Detection` omits them.
- The log lines printed during a run (backend.py:112, 115) are not modelled.
- frontend.py (Streamlit UI, session state, timing loop, JSON export) is not part of this model.
- Floating-point rounding is not modelled. All arithmetic is exact over `real`, so scores that land within rounding of 0.3 may compare differently in the Python program.
- TitleCase.Title: only ASCII letters count as cased. Python's `str.title()` also cases other Unicode letters, and they affect whether the next letter is upper-cased. The detector's class names are ASCII.
