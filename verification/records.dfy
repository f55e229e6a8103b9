/**
 The records that flow through the engine. In `backend.py` they are loosely
 typed dictionaries; here each one is an immutable value with exactly the
 fields the engine reads or writes.
 */
module Records {

  /** A pixel position, `[x, y]`. */
  datatype Point = Point(x: int, y: int)

  /** A pixel bounding box, `[x1, y1, x2, y2]`. */
  datatype Box = Box(x1: int, y1: int, x2: int, y2: int)

  /** One object found by the detector in one image. `width` and `height` are
      truncated separately from `bbox` by the detector, so they are kept as
      fields of their own rather than derived from the box. */
  datatype Detection = Detection(
    className: string,
    confidence: real,
    bbox: Box,
    center: Point,
    width: int,
    height: int)

  /** A left detection correlated with a right detection of the same class. */
  datatype MatchedPair = MatchedPair(
    className: string,
    leftBbox: Box,
    rightBbox: Box,
    leftCenter: Point,
    rightCenter: Point,
    confidence: real)

  /** The physical interpretation of one matched pair; `objectName` is the reported
      "Object" column. Depth and sizes are kept
      at full precision; the program rounds them only for display. */
  datatype Measurement = Measurement(
    objectName: string,
    confidence: real,
    depthCm: real,
    widthCm: real,
    heightCm: real,
    position: Point,
    disparityPx: nat)
}
