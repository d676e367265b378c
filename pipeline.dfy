/**
 * Properties of the passes run one after another, for the versions of the
 * classifier that recode interpolated rows and whose blink threshold is one
 * more than their longest interpolated gap (4 and 5 in one script, 5 and 6
 * in the other). The version modules instantiate these with their constants.
 */
module Pipeline {
  import opened Gaze
  import opened Runs
  import opened Stages

  /** The recording after gap interpolation with recoding. */
  function Recoded(rows: seq<Sample>, eye: Eye, maxGap: nat): (r: seq<Sample>)
    ensures |r| == |rows|
  {
    GapFill(rows, eye, maxGap, true)
  }

  /**
   * The label column after the blink pass (threshold `maxGap + 1`, on the
   * chosen eye of the recoded recording), the guarded velocity pass and the
   * default pass.
   */
  function RecodedLabels(rows: seq<Sample>, eye: Eye, maxGap: nat, g: Geometry): (ls: seq<Option<EyeState>>)
    ensures |ls| == |rows|
  {
    var filled := Recoded(rows, eye, maxGap);
    FillFixation(MarkSaccades(BlinkLabels(MissingMask(filled, eye), maxGap + 1), Points(filled, eye), g))
  }

  /** A label of the composed passes that is Blink or Error was already that label after the blink pass. */
  lemma LabelFromBlinkPass(m: seq<bool>, blinkMin: nat, ps: seq<Option<Point>>, g: Geometry, j: nat, st: EyeState)
    requires j < |m| && (st == Blink || st == Error)
    requires FillFixation(MarkSaccades(BlinkLabels(m, blinkMin), ps, g))[j] == Some(st)
    ensures BlinkLabels(m, blinkMin)[j] == Some(st)
  {
    MarkSaccadesOnlyFillsUnset(BlinkLabels(m, blinkMin), ps, g, j);
  }

  /**
   * Every Error label of the composed passes lies in a run of rows still
   * missing after interpolation, and that run touches the first or the
   * last row: interior gaps short enough to be labelled Error were filled.
   */
  lemma {:induction false} ErrorsTouchEdges(rows: seq<Sample>, eye: Eye, maxGap: nat, g: Geometry, j: nat)
    requires GapBoundsPresent(rows, eye, maxGap)
    requires j < |rows| && RecodedLabels(rows, eye, maxGap, g)[j] == Some(Error)
    ensures var m := MissingMask(Recoded(rows, eye, maxGap), eye);
            m[j] && (RunStart(m, j) == 0 || RunEnd(m, j) == |rows|)
  {
    var filled := Recoded(rows, eye, maxGap);
    var m := MissingMask(filled, eye);
    LabelFromBlinkPass(m, maxGap + 1, Points(filled, eye), g, j, Error);
    RunAt(m, j);
    GapFillClosesShortGaps(rows, eye, maxGap, RunStart(m, j), RunEnd(m, j));
  }

  /** A missing run longer than the longest interpolated gap is labelled Blink on every row. */
  lemma {:induction false} LongGapsAreBlinks(rows: seq<Sample>, eye: Eye, maxGap: nat, g: Geometry, s: nat, e: nat, j: nat)
    requires GapBoundsPresent(rows, eye, maxGap)
    requires IsRun(MissingMask(rows, eye), s, e) && e - s > maxGap && s <= j < e
    ensures RecodedLabels(rows, eye, maxGap, g)[j] == Some(Blink)
  {
    var m := MissingMask(rows, eye);
    var filled := Recoded(rows, eye, maxGap);
    var m' := MissingMask(filled, eye);
    forall k | s <= k < e
      ensures m'[k]
    {
      RunUnique(m, s, e, k);
      FilledMask(rows, eye, maxGap, k);
    }
    if s > 0 {
      FilledMask(rows, eye, maxGap, s - 1);
    }
    if e < |rows| {
      FilledMask(rows, eye, maxGap, e);
    }
    assert IsRun(m', s, e);
    BlinkLabelsOnRun(m', maxGap + 1, s, e, j);
    MarkSaccadesOnlyFillsUnset(BlinkLabels(m', maxGap + 1), Points(filled, eye), g, j);
  }

  /**
   * A row of an interior gap short enough to be interpolated is classified
   * by velocity like an observed row: Saccade or Fixation, never Blink or
   * Error.
   */
  lemma {:induction false} ShortGapsClassifiedByVelocity(rows: seq<Sample>, eye: Eye, maxGap: nat, g: Geometry, s: nat, e: nat, j: nat)
    requires GapBoundsPresent(rows, eye, maxGap)
    requires IsRun(MissingMask(rows, eye), s, e) && 0 < s && e < |rows| && e - s <= maxGap && s <= j < e
    ensures RecodedLabels(rows, eye, maxGap, g)[j] in {Some(Saccade), Some(Fixation)}
  {
    var m := MissingMask(rows, eye);
    var filled := Recoded(rows, eye, maxGap);
    RunUnique(m, s, e, j);
    assert InShortGap(m, maxGap, j);
    GapFillOnRun(rows, eye, maxGap, true, s, e, j);
    var m' := MissingMask(filled, eye);
    BlinkLabelsUnsetIffPresent(m', maxGap + 1, j);
    MarkSaccadesOnlyFillsUnset(BlinkLabels(m', maxGap + 1), Points(filled, eye), g, j);
  }

  /**
   * When observed rows carry points, so do all rows labelled Fixation after
   * recoding: the centre pass never averages a missing point.
   */
  lemma {:induction false} RecodedFixationsHavePoints(rows: seq<Sample>, eye: Eye, maxGap: nat, g: Geometry, minLen: nat, sentinel: bool)
    requires ObservedPointsPresent(rows, eye)
    ensures CentroidInputsPresent(RecodedLabels(rows, eye, maxGap, g), Points(Recoded(rows, eye, maxGap), eye), minLen, sentinel)
  {
    var filled := Recoded(rows, eye, maxGap);
    var m := MissingMask(filled, eye);
    ObservedPointsSurviveRecode(rows, eye, maxGap);
    forall j | 0 <= j < |rows| && RecodedLabels(rows, eye, maxGap, g)[j] == Some(Fixation)
      ensures PointOf(filled[j], eye).Some?
    {
      FixationRowsNotMissing(m, maxGap + 1, Points(filled, eye), g, j);
    }
  }
}
