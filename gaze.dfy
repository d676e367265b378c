/**
 * Shared vocabulary of the gaze-sample classifier: one recorded sample per
 * time tick, the two eye channels, the eye states the classifier assigns,
 * and the abstract velocity test that separates saccades from fixations.
 */
module Gaze {

  datatype Option<+T> = None | Some(value: T)

  /** A normalised gaze point on the display area (x and y in screen units). */
  datatype Point = Point(x: real, y: real)

  datatype Eye = Left | Right

  /**
   * One row of a recording. A gaze point that could not be parsed is the
   * missing sentinel `None`; validity is 0 (missing), 1 (observed) or, after
   * gap interpolation, 2 (interpolated).
   */
  datatype Sample = Sample(leftPoint: Option<Point>, rightPoint: Option<Point>,
                           leftValidity: int, rightValidity: int)

  /** The labels the classifier writes; an unset label is `None`. */
  datatype EyeState = Fixation | Saccade | Blink | Error

  /**
   * The velocity test of the I-VT stage, with the trigonometry folded into
   * constants: the displacement is scaled per axis to millimetres and its
   * square compared with the squared displacement that corresponds to the
   * saccade threshold. Every version's `sqrt`/`atan` test is monotone in the
   * displacement, so it is an instance of this comparison.
   */
  datatype Geometry = Geometry(widthMm: real, heightMm: real, minDistSq: real)

  function PointOf(s: Sample, eye: Eye): Option<Point>
  {
    match eye
    case Left => s.leftPoint
    case Right => s.rightPoint
  }

  function ValidityOf(s: Sample, eye: Eye): int
  {
    match eye
    case Left => s.leftValidity
    case Right => s.rightValidity
  }

  /** The sample with the chosen eye's point replaced. */
  function WithPoint(s: Sample, eye: Eye, p: Point): (r: Sample)
    ensures PointOf(r, eye) == Some(p) && ValidityOf(r, eye) == ValidityOf(s, eye)
    ensures eye == Left ==> r.rightPoint == s.rightPoint && r.rightValidity == s.rightValidity
    ensures eye == Right ==> r.leftPoint == s.leftPoint && r.leftValidity == s.leftValidity
  {
    match eye
    case Left => s.(leftPoint := Some(p))
    case Right => s.(rightPoint := Some(p))
  }

  /** The sample with the chosen eye's validity replaced. */
  function WithValidity(s: Sample, eye: Eye, v: int): (r: Sample)
    ensures ValidityOf(r, eye) == v && PointOf(r, eye) == PointOf(s, eye)
    ensures eye == Left ==> r.rightPoint == s.rightPoint && r.rightValidity == s.rightValidity
    ensures eye == Right ==> r.leftPoint == s.leftPoint && r.leftValidity == s.leftValidity
  {
    match eye
    case Left => s.(leftValidity := v)
    case Right => s.(rightValidity := v)
  }

  /** The I-VT test between consecutive points: the displacement reaches the threshold. */
  predicate IsSaccade(g: Geometry, p: Point, q: Point)
  {
    var dx, dy := (q.x - p.x) * g.widthMm, (q.y - p.y) * g.heightMm;
    dx * dx + dy * dy >= g.minDistSq
  }

  /** Linear interpolation from `p` (alpha = 0) to `q` (alpha = 1). */
  function Lerp(p: Point, q: Point, alpha: real): Point
  {
    Point(p.x + alpha * (q.x - p.x), p.y + alpha * (q.y - p.y))
  }

  /** Sums of the x and y coordinates of a column; a missing point adds nothing. */
  function SumX(ps: seq<Option<Point>>): real
  {
    if ps == [] then 0.0
    else SumX(ps[..|ps| - 1]) + (match ps[|ps| - 1] case Some(p) => p.x case None => 0.0)
  }

  function SumY(ps: seq<Option<Point>>): real
  {
    if ps == [] then 0.0
    else SumY(ps[..|ps| - 1]) + (match ps[|ps| - 1] case Some(p) => p.y case None => 0.0)
  }

  /** The arithmetic mean of a non-empty column of points (pandas `mean` per axis). */
  function Centroid(ps: seq<Option<Point>>): Point
    requires |ps| > 0
  {
    Point(SumX(ps) / (|ps| as real), SumY(ps) / (|ps| as real))
  }

  /** A fixation whose samples all sit on one point has that point as its centroid. */
  lemma {:induction false} CentroidOfConstant(ps: seq<Option<Point>>, p: Point)
    requires |ps| > 0
    requires forall k :: 0 <= k < |ps| ==> ps[k] == Some(p)
    ensures Centroid(ps) == p
  {
    SumsOfConstant(ps, p);
  }

  lemma {:induction false} SumsOfConstant(ps: seq<Option<Point>>, p: Point)
    requires forall k :: 0 <= k < |ps| ==> ps[k] == Some(p)
    ensures SumX(ps) == (|ps| as real) * p.x && SumY(ps) == (|ps| as real) * p.y
  {
    if ps != [] {
      SumsOfConstant(ps[..|ps| - 1], p);
    }
  }

  /** A centroid of present points lies in every axis-aligned box that holds them all. */
  lemma {:induction false} CentroidWithinBox(ps: seq<Option<Point>>, lo: Point, hi: Point)
    requires |ps| > 0
    requires forall k :: 0 <= k < |ps| ==> ps[k].Some? && lo.x <= ps[k].value.x <= hi.x && lo.y <= ps[k].value.y <= hi.y
    ensures lo.x <= Centroid(ps).x <= hi.x && lo.y <= Centroid(ps).y <= hi.y
  {
    MeanXWithin(ps, lo.x, hi.x);
    MeanYWithin(ps, lo.y, hi.y);
  }

  lemma MeanXWithin(ps: seq<Option<Point>>, lo: real, hi: real)
    requires |ps| > 0
    requires forall k :: 0 <= k < |ps| ==> ps[k].Some? && lo <= ps[k].value.x <= hi
    ensures lo <= SumX(ps) / (|ps| as real) <= hi
  {
    SumXWithin(ps, lo, hi);
    DivideBounds(SumX(ps), |ps| as real, lo, hi);
  }

  lemma MeanYWithin(ps: seq<Option<Point>>, lo: real, hi: real)
    requires |ps| > 0
    requires forall k :: 0 <= k < |ps| ==> ps[k].Some? && lo <= ps[k].value.y <= hi
    ensures lo <= SumY(ps) / (|ps| as real) <= hi
  {
    SumYWithin(ps, lo, hi);
    DivideBounds(SumY(ps), |ps| as real, lo, hi);
  }

  lemma {:induction false} SumXWithin(ps: seq<Option<Point>>, lo: real, hi: real)
    requires forall k :: 0 <= k < |ps| ==> ps[k].Some? && lo <= ps[k].value.x <= hi
    ensures (|ps| as real) * lo <= SumX(ps) <= (|ps| as real) * hi
  {
    if ps != [] {
      var m := (|ps| - 1) as real;
      SumXWithin(ps[..|ps| - 1], lo, hi);
      assert (m + 1.0) * lo == m * lo + lo && (m + 1.0) * hi == m * hi + hi;
    }
  }

  lemma {:induction false} SumYWithin(ps: seq<Option<Point>>, lo: real, hi: real)
    requires forall k :: 0 <= k < |ps| ==> ps[k].Some? && lo <= ps[k].value.y <= hi
    ensures (|ps| as real) * lo <= SumY(ps) <= (|ps| as real) * hi
  {
    if ps != [] {
      var m := (|ps| - 1) as real;
      SumYWithin(ps[..|ps| - 1], lo, hi);
      assert (m + 1.0) * lo == m * lo + lo && (m + 1.0) * hi == m * hi + hi;
    }
  }

  lemma DivideBounds(s: real, n: real, lo: real, hi: real)
    requires n > 0.0 && n * lo <= s <= n * hi
    ensures lo <= s / n <= hi
  {
    var q := s / n;
    assert q * n == s;
    assert (q - lo) * n >= 0.0;
    assert (hi - q) * n >= 0.0;
  }
}
