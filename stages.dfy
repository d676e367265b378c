/**
 * What each pass of the classifier computes, as functions of the rows it
 * reads. The passes themselves (module Classifier) are loops over a mutable
 * object; each is proved to produce exactly the value given here, and the
 * properties the recording promises are proved here once, for every
 * threshold a version of the classifier uses.
 */
module Stages {
  import opened Gaze
  import opened Runs

  // ---------------------------------------------------------------- eye choice

  /** The column sum of one eye's validity flags. */
  function ValiditySum(rows: seq<Sample>, eye: Eye): int
  {
    if rows == [] then 0
    else ValiditySum(rows[..|rows| - 1], eye) + ValidityOf(rows[|rows| - 1], eye)
  }

  /** The left eye is used only when its validity sum is strictly larger; a tie goes to the right eye. */
  function ChooseEye(rows: seq<Sample>): (eye: Eye)
  {
    if ValiditySum(rows, Left) > ValiditySum(rows, Right) then Left else Right
  }

  lemma {:induction false} ValiditySumDominated(rows: seq<Sample>)
    requires forall i :: 0 <= i < |rows| ==> rows[i].rightValidity <= rows[i].leftValidity
    ensures ValiditySum(rows, Right) <= ValiditySum(rows, Left)
    ensures (exists i :: 0 <= i < |rows| && rows[i].rightValidity < rows[i].leftValidity)
            ==> ValiditySum(rows, Right) < ValiditySum(rows, Left)
  {
    if rows != [] {
      var init := rows[..|rows| - 1];
      ValiditySumDominated(init);
      if exists i :: 0 <= i < |rows| && rows[i].rightValidity < rows[i].leftValidity {
        var i :| 0 <= i < |rows| && rows[i].rightValidity < rows[i].leftValidity;
        if i < |rows| - 1 {
          assert init[i] == rows[i];
        }
      }
    }
  }

  /** A left eye that is valid wherever the right one is, and more often, is the eye chosen. */
  lemma DominantLeftEyeChosen(rows: seq<Sample>)
    requires forall i :: 0 <= i < |rows| ==> rows[i].rightValidity <= rows[i].leftValidity
    requires exists i :: 0 <= i < |rows| && rows[i].rightValidity < rows[i].leftValidity
    ensures ChooseEye(rows) == Left
  {
    ValiditySumDominated(rows);
  }

  /** When the right eye is valid wherever the left one is, the right eye is chosen (ties included). */
  lemma {:induction false} RightEyeChosenUnlessLeftDominates(rows: seq<Sample>)
    requires forall i :: 0 <= i < |rows| ==> rows[i].leftValidity <= rows[i].rightValidity
    ensures ChooseEye(rows) == Right
  {
    var swapped := seq(|rows|, i requires 0 <= i < |rows| =>
      Sample(rows[i].rightPoint, rows[i].leftPoint, rows[i].rightValidity, rows[i].leftValidity));
    ValiditySumDominated(swapped);
    SwappedSums(rows, swapped);
  }

  lemma {:induction false} SwappedSums(rows: seq<Sample>, swapped: seq<Sample>)
    requires |swapped| == |rows|
    requires forall i :: 0 <= i < |rows| ==>
      swapped[i].leftValidity == rows[i].rightValidity && swapped[i].rightValidity == rows[i].leftValidity
    ensures ValiditySum(swapped, Left) == ValiditySum(rows, Right)
    ensures ValiditySum(swapped, Right) == ValiditySum(rows, Left)
  {
    if rows != [] {
      SwappedSums(rows[..|rows| - 1], swapped[..|swapped| - 1]);
    }
  }

  // ---------------------------------------------------------------- columns

  /** Rows where the given eye's validity is 0. */
  function MissingMask(rows: seq<Sample>, eye: Eye): (m: seq<bool>)
    ensures |m| == |rows|
    ensures forall i :: 0 <= i < |rows| ==> m[i] == (ValidityOf(rows[i], eye) == 0)
  {
    seq(|rows|, i requires 0 <= i < |rows| => ValidityOf(rows[i], eye) == 0)
  }

  /** Rows where both eyes' validity is 0. */
  function BothMissingMask(rows: seq<Sample>): (m: seq<bool>)
    ensures |m| == |rows|
    ensures forall i :: 0 <= i < |rows| ==> m[i] == (rows[i].leftValidity == 0 && rows[i].rightValidity == 0)
  {
    seq(|rows|, i requires 0 <= i < |rows| => rows[i].leftValidity == 0 && rows[i].rightValidity == 0)
  }

  /** The gaze-point column of one eye. */
  function Points(rows: seq<Sample>, eye: Eye): (ps: seq<Option<Point>>)
    ensures |ps| == |rows|
    ensures forall i :: 0 <= i < |rows| ==> ps[i] == PointOf(rows[i], eye)
  {
    seq(|rows|, i requires 0 <= i < |rows| => PointOf(rows[i], eye))
  }

  // ---------------------------------------------------------------- gap interpolation

  /** Row `j` lies in an interior missing run of at most `maxGap` rows. */
  predicate InShortGap(m: seq<bool>, maxGap: nat, j: nat)
    requires j < |m|
  {
    m[j] && 0 < RunStart(m, j) && RunEnd(m, j) < |m| && RunLength(m, j) <= maxGap
  }

  /**
   * Both rows that bound a short interior gap carry a point. Interpolating
   * from a missing bound fails with a type error in the source, so its
   * callers must provide this.
   */
  predicate GapBoundsPresent(rows: seq<Sample>, eye: Eye, maxGap: nat)
  {
    forall j :: 0 <= j < |rows| && InShortGap(MissingMask(rows, eye), maxGap, j) ==>
      PointOf(rows[RunStart(MissingMask(rows, eye), j) - 1], eye).Some? &&
      PointOf(rows[RunEnd(MissingMask(rows, eye), j)], eye).Some?
  }

  /** The weight of the `j`-th row of the gap `[s, e)`: its offset over the gap length plus one. */
  function GapWeight(s: nat, e: nat, j: nat): real
    requires s <= j < e
  {
    (j - s + 1) as real / (e - s + 1) as real
  }

  /** Row `j` after interpolation of its gap (unchanged when it is not in a short interior gap). */
  function FilledRow(rows: seq<Sample>, eye: Eye, maxGap: nat, recode: bool, j: nat): Sample
    requires j < |rows|
  {
    var m := MissingMask(rows, eye);
    if InShortGap(m, maxGap, j) then
      var s, e := RunStart(m, j), RunEnd(m, j);
      var before, after := PointOf(rows[s - 1], eye), PointOf(rows[e], eye);
      if before.Some? && after.Some? then InterpolatedRow(rows[j], eye, before.value, after.value, GapWeight(s, e, j), recode)
      else rows[j]
    else rows[j]
  }

  /** A row placed at `alpha` on the segment from `p` to `q`, and marked interpolated when recoding. */
  function InterpolatedRow(row: Sample, eye: Eye, p: Point, q: Point, alpha: real, recode: bool): Sample
  {
    var r := WithPoint(row, eye, Lerp(p, q, alpha));
    if recode then WithValidity(r, eye, 2) else r
  }

  /** Inside a short interior gap `[s, e)` whose bounds carry points, the filled row is the interpolated one. */
  lemma GapFillInGap(rows: seq<Sample>, eye: Eye, maxGap: nat, recode: bool, s: nat, e: nat, j: nat)
    requires IsRun(MissingMask(rows, eye), s, e) && 0 < s && e < |rows| && e - s <= maxGap && s <= j < e
    requires PointOf(rows[s - 1], eye).Some? && PointOf(rows[e], eye).Some?
    ensures GapFill(rows, eye, maxGap, recode)[j]
         == InterpolatedRow(rows[j], eye, PointOf(rows[s - 1], eye).value, PointOf(rows[e], eye).value, GapWeight(s, e, j), recode)
  {
    RunUnique(MissingMask(rows, eye), s, e, j);
  }

  /** The recording after gap interpolation of the chosen eye. */
  function GapFill(rows: seq<Sample>, eye: Eye, maxGap: nat, recode: bool): (r: seq<Sample>)
    ensures |r| == |rows|
  {
    seq(|rows|, j requires 0 <= j < |rows| => FilledRow(rows, eye, maxGap, recode, j))
  }

  /**
   * Every row of an interior missing run of 1..maxGap rows is placed on the
   * segment between the rows that bound the run, at its offset over the run
   * length plus one, and (when recoding) is marked interpolated.
   */
  lemma GapFillOnRun(rows: seq<Sample>, eye: Eye, maxGap: nat, recode: bool, s: nat, e: nat, j: nat)
    requires IsRun(MissingMask(rows, eye), s, e) && 0 < s && e < |rows| && e - s <= maxGap
    requires PointOf(rows[s - 1], eye).Some? && PointOf(rows[e], eye).Some?
    requires s <= j < e
    ensures PointOf(GapFill(rows, eye, maxGap, recode)[j], eye)
         == Some(Lerp(PointOf(rows[s - 1], eye).value, PointOf(rows[e], eye).value, GapWeight(s, e, j)))
    ensures ValidityOf(GapFill(rows, eye, maxGap, recode)[j], eye) == (if recode then 2 else 0)
    ensures PointOf(GapFill(rows, eye, maxGap, recode)[j], Other(eye)) == PointOf(rows[j], Other(eye))
    ensures ValidityOf(GapFill(rows, eye, maxGap, recode)[j], Other(eye)) == ValidityOf(rows[j], Other(eye))
  {
    RunUnique(MissingMask(rows, eye), s, e, j);
  }

  function Other(eye: Eye): Eye
  {
    if eye == Left then Right else Left
  }

  /** A row that is not missing, or whose missing run is too long or touches either end, is unchanged. */
  lemma GapFillKeeps(rows: seq<Sample>, eye: Eye, maxGap: nat, recode: bool, s: nat, e: nat, j: nat)
    requires j < |rows|
    requires ValidityOf(rows[j], eye) != 0 ||
             (IsRun(MissingMask(rows, eye), s, e) && s <= j < e && (s == 0 || e == |rows| || e - s > maxGap))
    ensures GapFill(rows, eye, maxGap, recode)[j] == rows[j]
  {
    if ValidityOf(rows[j], eye) == 0 {
      RunUnique(MissingMask(rows, eye), s, e, j);
    }
  }

  /** With recoding, a row is still missing after interpolation iff it was missing and not in a short interior gap. */
  lemma FilledMask(rows: seq<Sample>, eye: Eye, maxGap: nat, j: nat)
    requires GapBoundsPresent(rows, eye, maxGap)
    requires j < |rows|
    ensures MissingMask(GapFill(rows, eye, maxGap, true), eye)[j]
        == (MissingMask(rows, eye)[j] && !InShortGap(MissingMask(rows, eye), maxGap, j))
  {
  }

  /**
   * With recoding, no short interior gap survives interpolation: every run
   * of rows still missing afterwards is longer than `maxGap` or touches the
   * first or the last row.
   */
  lemma {:induction false} GapFillClosesShortGaps(rows: seq<Sample>, eye: Eye, maxGap: nat, s: nat, e: nat)
    requires GapBoundsPresent(rows, eye, maxGap)
    requires IsRun(MissingMask(GapFill(rows, eye, maxGap, true), eye), s, e)
    ensures s == 0 || e == |rows| || e - s > maxGap
  {
    var m := MissingMask(rows, eye);
    var m' := MissingMask(GapFill(rows, eye, maxGap, true), eye);
    FilledMask(rows, eye, maxGap, s);
    RunAt(m, s);
    var s0, e0 := RunStart(m, s), RunEnd(m, s);
    forall k | s0 <= k < e0
      ensures m'[k]
    {
      RunUnique(m, s0, e0, k);
      FilledMask(rows, eye, maxGap, k);
    }
    if s0 > 0 {
      FilledMask(rows, eye, maxGap, s0 - 1);
    }
    if e0 < |rows| {
      FilledMask(rows, eye, maxGap, e0);
    }
    assert IsRun(m', s0, e0);
    RunUnique(m', s0, e0, s);
    RunUnique(m', s, e, s);
  }

  /** Every row the tracker marks as observed for this eye carries a point. */
  predicate ObservedPointsPresent(rows: seq<Sample>, eye: Eye)
  {
    forall i :: 0 <= i < |rows| && ValidityOf(rows[i], eye) != 0 ==> PointOf(rows[i], eye).Some?
  }

  /** A gap is bounded by observed rows, so when observed rows carry points, interpolation never reads a missing point. */
  lemma ObservedPointsBoundGaps(rows: seq<Sample>, eye: Eye, maxGap: nat)
    requires ObservedPointsPresent(rows, eye)
    ensures GapBoundsPresent(rows, eye, maxGap)
  {
    var m := MissingMask(rows, eye);
    forall j | 0 <= j < |rows| && InShortGap(m, maxGap, j)
      ensures PointOf(rows[RunStart(m, j) - 1], eye).Some? && PointOf(rows[RunEnd(m, j)], eye).Some?
    {
      assert !m[RunStart(m, j) - 1] && !m[RunEnd(m, j)];
    }
  }

  /** With recoding, every row interpolation marks as observed (validity 2) carries its interpolated point. */
  lemma ObservedPointsSurviveRecode(rows: seq<Sample>, eye: Eye, maxGap: nat)
    requires ObservedPointsPresent(rows, eye)
    ensures ObservedPointsPresent(GapFill(rows, eye, maxGap, true), eye)
  {
    ObservedPointsBoundGaps(rows, eye, maxGap);
    var filled := GapFill(rows, eye, maxGap, true);
    forall i | 0 <= i < |filled| && ValidityOf(filled[i], eye) != 0
      ensures PointOf(filled[i], eye).Some?
    {
      assert filled[i] == FilledRow(rows, eye, maxGap, true, i);
    }
  }

  /** Interpolation without recoding changes points only: both eyes' validity columns are as before. */
  lemma GapFillWithoutRecodeKeepsValidity(rows: seq<Sample>, eye: Eye, maxGap: nat)
    ensures forall i :: 0 <= i < |rows| ==>
      GapFill(rows, eye, maxGap, false)[i].leftValidity == rows[i].leftValidity &&
      GapFill(rows, eye, maxGap, false)[i].rightValidity == rows[i].rightValidity
    ensures BothMissingMask(GapFill(rows, eye, maxGap, false)) == BothMissingMask(rows)
  {
    var filled := GapFill(rows, eye, maxGap, false);
    forall i | 0 <= i < |rows|
      ensures filled[i].leftValidity == rows[i].leftValidity && filled[i].rightValidity == rows[i].rightValidity
    {
      assert filled[i] == FilledRow(rows, eye, maxGap, false, i);
    }
  }

  // ---------------------------------------------------------------- isolated-gap interpolation

  /** Row `j` is missing and neither neighbour that exists is missing. */
  predicate Isolated(m: seq<bool>, j: nat)
    requires j < |m|
  {
    m[j] && (j == 0 || !m[j - 1]) && (j + 1 == |m| || !m[j + 1])
  }

  /**
   * Every isolated missing row has both neighbours, and both carry a point;
   * otherwise the midpoint pass reads a row that does not exist or a missing
   * point.
   */
  predicate IsolatedGapsBounded(rows: seq<Sample>, eye: Eye)
  {
    forall j :: 0 <= j < |rows| && Isolated(MissingMask(rows, eye), j) ==>
      0 < j < |rows| - 1 && PointOf(rows[j - 1], eye).Some? && PointOf(rows[j + 1], eye).Some?
  }

  function Midpoint(p: Point, q: Point): Point
  {
    Point((p.x + q.x) / 2.0, (p.y + q.y) / 2.0)
  }

  /** The recording after the midpoint pass: each isolated interior missing row gets the mean of its neighbours. */
  function MidpointFill(rows: seq<Sample>, eye: Eye): (r: seq<Sample>)
    ensures |r| == |rows|
  {
    var m := MissingMask(rows, eye);
    seq(|rows|, j requires 0 <= j < |rows| =>
      if Isolated(m, j) && 0 < j < |rows| - 1 && PointOf(rows[j - 1], eye).Some? && PointOf(rows[j + 1], eye).Some?
      then WithPoint(rows[j], eye, Midpoint(PointOf(rows[j - 1], eye).value, PointOf(rows[j + 1], eye).value))
      else rows[j])
  }

  /**
   * The midpoint pass is gap interpolation restricted to gaps of one row,
   * without recoding validity: a one-row gap's weight is one half.
   */
  lemma MidpointFillIsGapFillOfOne(rows: seq<Sample>, eye: Eye)
    ensures MidpointFill(rows, eye) == GapFill(rows, eye, 1, false)
  {
    forall j | 0 <= j < |rows|
      ensures MidpointFill(rows, eye)[j] == GapFill(rows, eye, 1, false)[j]
    {
      MidpointRowIsGapFillRow(rows, eye, j);
    }
  }

  lemma MidpointRowIsGapFillRow(rows: seq<Sample>, eye: Eye, j: nat)
    requires j < |rows|
    ensures MidpointFill(rows, eye)[j] == GapFill(rows, eye, 1, false)[j]
  {
    var m := MissingMask(rows, eye);
    if !m[j] {
      GapFillKeeps(rows, eye, 1, false, 0, 0, j);
    } else {
      RunAt(m, j);
      var s, e := RunStart(m, j), RunEnd(m, j);
      if !Isolated(m, j) {
        assert e - s > 1;
        GapFillKeeps(rows, eye, 1, false, s, e, j);
      } else {
        RunUnique(m, j, j + 1, j);
        if j == 0 || j + 1 == |rows| {
          GapFillKeeps(rows, eye, 1, false, s, e, j);
        } else if PointOf(rows[j - 1], eye).Some? && PointOf(rows[j + 1], eye).Some? {
          var p, q := PointOf(rows[j - 1], eye).value, PointOf(rows[j + 1], eye).value;
          assert GapWeight(j, j + 1, j) == 0.5;
          assert Lerp(p, q, 0.5) == Midpoint(p, q);
          GapFillInGap(rows, eye, 1, false, j, j + 1, j);
        } else {
          assert GapFill(rows, eye, 1, false)[j] == FilledRow(rows, eye, 1, false, j);
        }
      }
    }
  }

  // ---------------------------------------------------------------- blink detection

  /**
   * The blink test of one row: the chosen eye's validity is 0, or, in the
   * versions that test both eyes, both validities are 0.
   */
  predicate RowMissing(row: Sample, eye: Option<Eye>, bothEyes: bool)
    requires bothEyes || eye.Some?
  {
    if bothEyes then row.leftValidity == 0 && row.rightValidity == 0 else ValidityOf(row, eye.value) == 0
  }

  /** The column of blink tests. */
  function BlinkMask(rows: seq<Sample>, eye: Option<Eye>, bothEyes: bool): (m: seq<bool>)
    requires bothEyes || eye.Some?
    ensures |m| == |rows|
    ensures forall i :: 0 <= i < |rows| ==> m[i] == RowMissing(rows[i], eye, bothEyes)
  {
    if bothEyes then BothMissingMask(rows) else MissingMask(rows, eye.value)
  }

  /**
   * Labels of the run-based blink pass: each maximal missing run of at least
   * `blinkMin` rows is Blink, a shorter one Error, every other row unset.
   */
  function BlinkLabels(m: seq<bool>, blinkMin: nat): (ls: seq<Option<EyeState>>)
    ensures |ls| == |m|
  {
    seq(|m|, j requires 0 <= j < |m| =>
      if !m[j] then None
      else if RunLength(m, j) >= blinkMin then Some(Blink)
      else Some(Error))
  }

  /** Every row of a maximal missing run gets the same label, decided by the run's length. */
  lemma BlinkLabelsOnRun(m: seq<bool>, blinkMin: nat, s: nat, e: nat, j: nat)
    requires IsRun(m, s, e) && s <= j < e
    ensures BlinkLabels(m, blinkMin)[j] == if e - s >= blinkMin then Some(Blink) else Some(Error)
  {
    RunUnique(m, s, e, j);
  }

  /** Rows that are not missing stay unset; missing rows are never unset. */
  lemma BlinkLabelsUnsetIffPresent(m: seq<bool>, blinkMin: nat, j: nat)
    requires j < |m|
    ensures BlinkLabels(m, blinkMin)[j] == None <==> !m[j]
    ensures BlinkLabels(m, blinkMin)[j] != Some(Saccade) && BlinkLabels(m, blinkMin)[j] != Some(Fixation)
  {
  }

  /**
   * Labels of the streaming blink pass: a missing row is Blink once it is at
   * least the `blinkMin`-th consecutive missing row, Error before that.
   */
  function StreamingBlinkLabels(m: seq<bool>, blinkMin: nat): (ls: seq<Option<EyeState>>)
    ensures |ls| == |m|
  {
    seq(|m|, j requires 0 <= j < |m| =>
      if !m[j] then None
      else if j - RunStart(m, j) + 1 >= blinkMin then Some(Blink)
      else Some(Error))
  }

  /** One row of the counting pass, given the count `c` of missing rows just before it. */
  lemma StreamingStep(m: seq<bool>, blinkMin: nat, i: nat, c: nat)
    requires i < |m| && c == i - RunStart(m, i)
    ensures StreamingBlinkLabels(m, blinkMin)[i] == if !m[i] then None else if c + 1 >= blinkMin then Some(Blink) else Some(Error)
    ensures i + 1 - RunStart(m, i + 1) == if m[i] then c + 1 else 0
  {
  }

  /** In a maximal missing run, rows before the `blinkMin`-th are Error and the rest Blink. */
  lemma StreamingBlinkOnRun(m: seq<bool>, blinkMin: nat, s: nat, e: nat, j: nat)
    requires IsRun(m, s, e) && s <= j < e
    ensures StreamingBlinkLabels(m, blinkMin)[j] == if j - s + 1 >= blinkMin then Some(Blink) else Some(Error)
  {
    RunUnique(m, s, e, j);
  }

  /** On runs shorter than the threshold, the streaming and run-based passes agree. */
  lemma StreamingAgreesOnShortRuns(m: seq<bool>, blinkMin: nat, s: nat, e: nat, j: nat)
    requires IsRun(m, s, e) && s <= j < e && e - s < blinkMin
    ensures StreamingBlinkLabels(m, blinkMin)[j] == BlinkLabels(m, blinkMin)[j] == Some(Error)
  {
    RunUnique(m, s, e, j);
  }

  // ---------------------------------------------------------------- saccades and fixations

  /**
   * Labels after the velocity pass: an unset row `i` that has a next row,
   * with both points present and a displacement at the threshold, becomes
   * Saccade; every other label is kept.
   */
  function MarkSaccades(ls: seq<Option<EyeState>>, ps: seq<Option<Point>>, g: Geometry): (r: seq<Option<EyeState>>)
    ensures |r| == |ls|
  {
    seq(|ls|, i requires 0 <= i < |ls| =>
      if i + 1 < |ps| && ls[i] == None && ps[i].Some? && ps[i + 1].Some? && IsSaccade(g, ps[i].value, ps[i + 1].value)
      then Some(Saccade) else ls[i])
  }

  /**
   * The velocity pass changes only unset labels, only to Saccade, and never
   * the row of the last sample, which has no successor.
   */
  lemma MarkSaccadesOnlyFillsUnset(ls: seq<Option<EyeState>>, ps: seq<Option<Point>>, g: Geometry, i: nat)
    requires i < |ls|
    ensures MarkSaccades(ls, ps, g)[i] == ls[i] ||
            (ls[i] == None && MarkSaccades(ls, ps, g)[i] == Some(Saccade) && i + 1 < |ps|)
    ensures ls[i] != None ==> MarkSaccades(ls, ps, g)[i] == ls[i]
    ensures i + 1 >= |ps| ==> MarkSaccades(ls, ps, g)[i] == ls[i]
  {
  }

  /**
   * Where the source has no guard for a missing point, every unset row with a
   * successor must have both points, or the velocity formula fails.
   */
  predicate UnsetRowsHavePoints(ls: seq<Option<EyeState>>, ps: seq<Option<Point>>)
  {
    forall i :: 0 <= i < |ls| && i + 1 < |ps| && ls[i] == None ==> ps[i].Some? && ps[i + 1].Some?
  }

  /** Labels after the default pass: every unset label becomes Fixation. */
  function FillFixation(ls: seq<Option<EyeState>>): (r: seq<Option<EyeState>>)
    ensures |r| == |ls|
    ensures forall i :: 0 <= i < |r| ==> r[i] != None
    ensures forall i :: 0 <= i < |r| && ls[i] != None ==> r[i] == ls[i]
  {
    seq(|ls|, i requires 0 <= i < |ls| => if ls[i] == None then Some(Fixation) else ls[i])
  }

  /** A row the blink pass marks missing never ends up Fixation, whatever the velocity pass does. */
  lemma FixationRowsNotMissing(m: seq<bool>, blinkMin: nat, ps: seq<Option<Point>>, g: Geometry, j: nat)
    requires j < |m|
    ensures FillFixation(MarkSaccades(BlinkLabels(m, blinkMin), ps, g))[j] == Some(Fixation) ==> !m[j]
  {
    BlinkLabelsUnsetIffPresent(m, blinkMin, j);
    MarkSaccadesOnlyFillsUnset(BlinkLabels(m, blinkMin), ps, g, j);
  }

  /**
   * Without an end sentinel, a Fixation row that gets a centre has a next
   * row, so when the velocity pass reached every unset row with a next row
   * on two present points, every such Fixation row carries a point.
   */
  lemma {:induction false} UnsetPointsCoverCentroids(ls0: seq<Option<EyeState>>, ps: seq<Option<Point>>, g: Geometry, minLen: nat)
    requires |ps| == |ls0|
    requires forall i :: 0 <= i < |ls0| ==> ls0[i] != Some(Fixation)
    requires UnsetRowsHavePoints(ls0, ps)
    ensures CentroidInputsPresent(FillFixation(MarkSaccades(ls0, ps, g)), ps, minLen, false)
  {
    var ls := FillFixation(MarkSaccades(ls0, ps, g));
    forall j | 0 <= j < |ls| && HasCentroid(ls, minLen, false, j)
      ensures ps[j].Some?
    {
      var fm := FixationMask(ls);
      assert j < RunEnd(fm, j) < |ls|;
      MarkSaccadesOnlyFillsUnset(ls0, ps, g, j);
    }
  }

  // ---------------------------------------------------------------- fixation centroids

  /** Rows labelled Fixation. */
  function FixationMask(ls: seq<Option<EyeState>>): (m: seq<bool>)
    ensures |m| == |ls|
    ensures forall i :: 0 <= i < |ls| ==> m[i] == (ls[i] == Some(Fixation))
  {
    seq(|ls|, i requires 0 <= i < |ls| => ls[i] == Some(Fixation))
  }

  /**
   * Row `j` is in a Fixation run of more than `minLen` rows that the scan
   * closes: every run is closed when the scan appends an end sentinel, and
   * only runs followed by another label otherwise.
   */
  predicate HasCentroid(ls: seq<Option<EyeState>>, minLen: nat, sentinel: bool, j: nat)
    requires j < |ls|
  {
    var m := FixationMask(ls);
    m[j] && RunLength(m, j) > minLen && (sentinel || RunEnd(m, j) < |ls|)
  }

  /** Rows whose centroid is computed carry a point (the mean of a run of points). */
  predicate CentroidInputsPresent(ls: seq<Option<EyeState>>, ps: seq<Option<Point>>, minLen: nat, sentinel: bool)
    requires |ps| == |ls|
  {
    forall j :: 0 <= j < |ls| && HasCentroid(ls, minLen, sentinel, j) ==> ps[j].Some?
  }

  /** The fixation-centre column: the mean point of the row's run when the run qualifies, else missing. */
  function FixationCenters(ls: seq<Option<EyeState>>, ps: seq<Option<Point>>, minLen: nat, sentinel: bool): (cs: seq<Option<Point>>)
    requires |ps| == |ls|
    ensures |cs| == |ls|
  {
    seq(|ls|, j requires 0 <= j < |ls| =>
      if HasCentroid(ls, minLen, sentinel, j)
      then Some(Centroid(ps[RunStart(FixationMask(ls), j)..RunEnd(FixationMask(ls), j)]))
      else None)
  }

  /**
   * Every row of a maximal Fixation run `[s, e)` gets the mean of the run's
   * points when the run is longer than `minLen` rows and closed by the scan,
   * and no centre otherwise.
   */
  lemma CentersOnRun(ls: seq<Option<EyeState>>, ps: seq<Option<Point>>, minLen: nat, sentinel: bool, s: nat, e: nat, j: nat)
    requires |ps| == |ls|
    requires IsRun(FixationMask(ls), s, e) && s <= j < e
    ensures FixationCenters(ls, ps, minLen, sentinel)[j]
         == if e - s > minLen && (sentinel || e < |ls|) then Some(Centroid(ps[s..e])) else None
  {
    RunUnique(FixationMask(ls), s, e, j);
  }

  /** The same, for all rows of the run at once. */
  lemma CentersOnClosedRun(ls: seq<Option<EyeState>>, ps: seq<Option<Point>>, minLen: nat, sentinel: bool, s: nat, e: nat)
    requires |ps| == |ls|
    requires IsRun(FixationMask(ls), s, e) && (sentinel || e < |ls|)
    ensures forall k :: s <= k < e ==>
      FixationCenters(ls, ps, minLen, sentinel)[k] == if e - s > minLen then Some(Centroid(ps[s..e])) else None
  {
    forall k | s <= k < e
      ensures FixationCenters(ls, ps, minLen, sentinel)[k] == if e - s > minLen then Some(Centroid(ps[s..e])) else None
    {
      CentersOnRun(ls, ps, minLen, sentinel, s, e, k);
    }
  }

  /** Only Fixation rows get a centre. */
  lemma CentersOnlyOnFixations(ls: seq<Option<EyeState>>, ps: seq<Option<Point>>, minLen: nat, sentinel: bool, j: nat)
    requires |ps| == |ls| && j < |ls|
    ensures FixationCenters(ls, ps, minLen, sentinel)[j].Some? ==> ls[j] == Some(Fixation)
  {
  }

  /** Without the end sentinel, a Fixation run that reaches the last row never gets a centre. */
  lemma OpenRunHasNoCenter(ls: seq<Option<EyeState>>, ps: seq<Option<Point>>, minLen: nat, s: nat, j: nat)
    requires |ps| == |ls|
    requires IsRun(FixationMask(ls), s, |ls|) && s <= j < |ls|
    ensures FixationCenters(ls, ps, minLen, false)[j] == None
  {
    RunUnique(FixationMask(ls), s, |ls|, j);
  }

  /**
   * `cs` is a centre column for the labels `ls` as the scan sees it, run by
   * run: every closed Fixation run gets its mean when it is longer than
   * `minLen` and nothing otherwise, rows that are not Fixation get nothing,
   * and without the sentinel a run reaching the end gets nothing.
   */
  ghost predicate CentresByRuns(ls: seq<Option<EyeState>>, ps: seq<Option<Point>>, minLen: nat, sentinel: bool,
                                cs: seq<Option<Point>>)
    requires |ps| == |ls|
  {
    && |cs| == |ls|
    && (forall s: nat, e: nat, k: nat :: IsRun(FixationMask(ls), s, e) && (sentinel || e < |ls|) && s <= k < e ==>
          cs[k] == if e - s > minLen then Some(Centroid(ps[s..e])) else None)
    && (forall k :: 0 <= k < |ls| && ls[k] != Some(Fixation) ==> cs[k] == None)
    && (!sentinel ==> forall s: nat, k: nat :: IsRun(FixationMask(ls), s, |ls|) && s <= k < |ls| ==> cs[k] == None)
  }

  /** The centre column is described run by run. */
  lemma FixationCentersByRuns(ls: seq<Option<EyeState>>, ps: seq<Option<Point>>, minLen: nat, sentinel: bool)
    requires |ps| == |ls|
    ensures CentresByRuns(ls, ps, minLen, sentinel, FixationCenters(ls, ps, minLen, sentinel))
  {
    var cs := FixationCenters(ls, ps, minLen, sentinel);
    forall s: nat, e: nat, k: nat | IsRun(FixationMask(ls), s, e) && (sentinel || e < |ls|) && s <= k < e
      ensures cs[k] == if e - s > minLen then Some(Centroid(ps[s..e])) else None
    {
      CentersOnRun(ls, ps, minLen, sentinel, s, e, k);
    }
    if !sentinel {
      forall s: nat, k: nat | IsRun(FixationMask(ls), s, |ls|) && s <= k < |ls|
        ensures cs[k] == None
      {
        OpenRunHasNoCenter(ls, ps, minLen, s, k);
      }
    }
  }

  /** A qualifying fixation whose points all coincide has that point as its centre. */
  lemma StaticFixationCenter(ls: seq<Option<EyeState>>, ps: seq<Option<Point>>, minLen: nat, sentinel: bool,
                             s: nat, e: nat, j: nat, p: Point)
    requires |ps| == |ls|
    requires IsRun(FixationMask(ls), s, e) && s <= j < e && e - s > minLen && (sentinel || e < |ls|)
    requires forall k :: s <= k < e ==> ps[k] == Some(p)
    ensures FixationCenters(ls, ps, minLen, sentinel)[j] == Some(p)
  {
    CentersOnRun(ls, ps, minLen, sentinel, s, e, j);
    CentroidOfConstant(ps[s..e], p);
  }

  // ---------------------------------------------------------------- error relabelling

  /** Labels after the final pass: a Fixation row without a centre becomes Error. */
  function RelabelShortFixations(ls: seq<Option<EyeState>>, cs: seq<Option<Point>>): (r: seq<Option<EyeState>>)
    requires |cs| == |ls|
    ensures |r| == |ls|
  {
    seq(|ls|, i requires 0 <= i < |ls| => if ls[i] == Some(Fixation) && cs[i] == None then Some(Error) else ls[i])
  }

  /**
   * After the final pass every row carries one of the four labels, and a row
   * has a centre exactly when it is labelled Fixation.
   */
  lemma {:induction false} FinalLabelsTotal(ls: seq<Option<EyeState>>, ps: seq<Option<Point>>, minLen: nat, sentinel: bool, i: nat)
    requires |ps| == |ls| && i < |ls|
    requires forall k :: 0 <= k < |ls| ==> ls[k] != None
    ensures var cs := FixationCenters(ls, ps, minLen, sentinel);
            var r := RelabelShortFixations(ls, cs);
            r[i] != None && (cs[i].Some? <==> r[i] == Some(Fixation))
  {
    CentersOnlyOnFixations(ls, ps, minLen, sentinel, i);
  }
}
