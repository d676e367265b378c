/**
 * The earlier analysis script: gaps of up to five rows are interpolated
 * without recoding, a row is missing for the blink pass only when both eyes
 * are, runs of six or more such rows are blinks, the velocity pass has no
 * guard for missing points, and centres are computed without an end
 * sentinel, so a fixation that reaches the last row gets none.
 */
module AnalysisMain {
  import opened Gaze
  import opened Runs
  import opened Stages
  import opened Classifier

  /** The longest missing run that is interpolated. */
  const MaxGap: nat := 5
  /** The shortest run of rows missing in both eyes that is a blink. */
  const BlinkMin: nat := 6
  /** A fixation needs more than this many rows to get a centre. */
  const FixationThreshold: nat := 6
  const ScreenWidthMm: real := 609.2
  const ScreenHeightMm: real := 349.4

  /** The velocity test of this script, with the squared threshold `minDistSq` its constants fix. */
  function Screen(minDistSq: real): Geometry
  {
    Geometry(ScreenWidthMm, ScreenHeightMm, minDistSq)
  }

  /** The recording after interpolation (validity is not recoded). */
  function Filled(rows: seq<Sample>): (r: seq<Sample>)
    ensures |r| == |rows|
  {
    GapFill(rows, ChooseEye(rows), MaxGap, false)
  }

  /** The label column after the blink pass. */
  function BlinkStates(rows: seq<Sample>): (ls: seq<Option<EyeState>>)
    ensures |ls| == |rows|
  {
    BlinkLabels(BothMissingMask(Filled(rows)), BlinkMin)
  }

  /** The label column the script writes. */
  function FinalStates(rows: seq<Sample>, minDistSq: real): (ls: seq<Option<EyeState>>)
    ensures |ls| == |rows|
  {
    FillFixation(MarkSaccades(BlinkStates(rows), Points(Filled(rows), ChooseEye(rows)), Screen(minDistSq)))
  }

  /** The fixation-centre column the script writes. */
  function Centers(rows: seq<Sample>, minDistSq: real): (cs: seq<Option<Point>>)
    ensures |cs| == |rows|
  {
    FixationCenters(FinalStates(rows, minDistSq), Points(Filled(rows), ChooseEye(rows)), FixationThreshold, false)
  }

  /**
   * The script's analysis on a freshly built classifier. Without a guard in
   * the velocity pass, every unset row that has a next row must carry a
   * point, and so must that next row.
   */
  method Analyze(em: EyeMovement, minDistSq: real)
    requires em.states == []
    requires GapBoundsPresent(em.data, ChooseEye(em.data), MaxGap)
    requires UnsetRowsHavePoints(BlinkStates(em.data), Points(Filled(em.data), ChooseEye(em.data)))
    modifies em
    ensures em.eyeToUse == Some(ChooseEye(old(em.data)))
    ensures em.data == Filled(old(em.data))
    ensures em.states == FinalStates(old(em.data), minDistSq)
    ensures em.fixationCenter == Centers(old(em.data), minDistSq)
  {
    ghost var rows, eye := em.data, ChooseEye(em.data);
    em.DecideEyeToUse();
    em.InterpolateCoordinates(MaxGap, false);
    ghost var filled := em.data;
    em.IdentifyBlink(BlinkMin, true);
    assert em.states == BlinkStates(rows);
    em.IdentifySaccade(Screen(minDistSq), false);
    em.IdentifyFixation();
    assert em.states == FinalStates(rows, minDistSq);
    forall i | 0 <= i < |rows|
      ensures BlinkStates(rows)[i] != Some(Fixation)
    {
      BlinkLabelsUnsetIffPresent(BothMissingMask(filled), BlinkMin, i);
    }
    UnsetPointsCoverCentroids(BlinkStates(rows), Points(filled, eye), Screen(minDistSq), FixationThreshold);
    em.ComputeCenterPoint(FixationThreshold, false);
  }

  /**
   * A row is labelled Blink or Error exactly when both eyes are missing in
   * the recording: interpolation does not recode validity, so an
   * interpolated row whose other eye is missing too still counts as missing.
   */
  lemma {:induction false} MissingRowsAreBlinkOrError(rows: seq<Sample>, minDistSq: real, j: nat)
    requires j < |rows|
    ensures FinalStates(rows, minDistSq)[j] != None
    ensures FinalStates(rows, minDistSq)[j] in {Some(Blink), Some(Error)}
            <==> rows[j].leftValidity == 0 && rows[j].rightValidity == 0
  {
    GapFillWithoutRecodeKeepsValidity(rows, ChooseEye(rows), MaxGap);
    BlinkLabelsUnsetIffPresent(BothMissingMask(Filled(rows)), BlinkMin, j);
    MarkSaccadesOnlyFillsUnset(BlinkStates(rows), Points(Filled(rows), ChooseEye(rows)), Screen(minDistSq), j);
  }

  /** A Fixation run that reaches the last row gets no centre. */
  lemma FinalFixationHasNoCenter(rows: seq<Sample>, minDistSq: real, s: nat, j: nat)
    requires IsRun(FixationMask(FinalStates(rows, minDistSq)), s, |rows|) && s <= j < |rows|
    ensures Centers(rows, minDistSq)[j] == None
    ensures FinalStates(rows, minDistSq)[j] == Some(Fixation)
  {
    OpenRunHasNoCenter(FinalStates(rows, minDistSq), Points(Filled(rows), ChooseEye(rows)), FixationThreshold, s, j);
  }

  /** A closed Fixation run of more than six rows gets the mean of its points on every row. */
  lemma ClosedFixationCenter(rows: seq<Sample>, minDistSq: real, s: nat, e: nat, j: nat)
    requires IsRun(FixationMask(FinalStates(rows, minDistSq)), s, e) && e < |rows| && e - s > FixationThreshold && s <= j < e
    ensures Centers(rows, minDistSq)[j] == Some(Centroid(Points(Filled(rows), ChooseEye(rows))[s..e]))
  {
    CentersOnRun(FinalStates(rows, minDistSq), Points(Filled(rows), ChooseEye(rows)), FixationThreshold, false, s, e, j);
  }
}
