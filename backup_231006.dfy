/**
 * The dated backup of 6 October: isolated missing rows get the midpoint of
 * their neighbours, a counter over rows where both eyes are missing labels
 * the first five rows of every such run Error and the rest Blink, the
 * velocity pass has no guard for missing points, and fixation centres are
 * only reported, not stored.
 */
module Backup231006 {
  import opened Gaze
  import opened Runs
  import opened Stages
  import opened Classifier

  /** The count of consecutive rows missing in both eyes from which a row is Blink. */
  const BlinkMin: nat := 6
  /** A fixation needs more than this many rows to be reported. */
  const FixationThreshold: nat := 6

  /**
   * The velocity test of this backup: the displacement in millimetres on a
   * 609.2 by 349.4 screen, times 60 samples per second, reaches 30; that is,
   * its square reaches one quarter.
   */
  const Velocity: Geometry := Geometry(609.2, 349.4, 0.25)

  /** The recording after the midpoint pass. */
  function Filled(rows: seq<Sample>): (r: seq<Sample>)
    ensures |r| == |rows|
  {
    MidpointFill(rows, ChooseEye(rows))
  }

  /** The label column after the counting blink pass. */
  function BlinkStates(rows: seq<Sample>): (ls: seq<Option<EyeState>>)
    ensures |ls| == |rows|
  {
    StreamingBlinkLabels(BothMissingMask(Filled(rows)), BlinkMin)
  }

  /** The label column the backup writes. */
  function FinalStates(rows: seq<Sample>): (ls: seq<Option<EyeState>>)
    ensures |ls| == |rows|
  {
    FillFixation(MarkSaccades(BlinkStates(rows), Points(Filled(rows), ChooseEye(rows)), Velocity))
  }

  /** The centres of the reported fixations, as a column. */
  function Centers(rows: seq<Sample>): (cs: seq<Option<Point>>)
    ensures |cs| == |rows|
  {
    FixationCenters(FinalStates(rows), Points(Filled(rows), ChooseEye(rows)), FixationThreshold, false)
  }

  /**
   * The backup's analysis on a freshly built classifier; the returned list is
   * what its centre pass prints. Every reported fixation is a maximal
   * Fixation run whose rows have the reported mean as their centre, every
   * row with a centre is in a reported run, and the runs are in order.
   */
  method Analyze(em: EyeMovement) returns (reports: seq<FixationReport>)
    requires em.states == []
    requires IsolatedGapsBounded(em.data, ChooseEye(em.data))
    requires UnsetRowsHavePoints(BlinkStates(em.data), Points(Filled(em.data), ChooseEye(em.data)))
    modifies em
    ensures em.eyeToUse == Some(ChooseEye(old(em.data)))
    ensures em.data == Filled(old(em.data))
    ensures em.states == FinalStates(old(em.data))
    ensures em.fixationCenter == old(em.fixationCenter)
    ensures forall r :: r in reports ==>
              && IsRun(FixationMask(em.states), r.start, r.end)
              && forall k :: r.start <= k < r.end ==> Centers(old(em.data))[k] == Some(r.center)
    ensures forall k :: 0 <= k < |em.states| && Centers(old(em.data))[k].Some? ==>
              exists r :: r in reports && r.start <= k < r.end
    ensures forall a, b :: 0 <= a < b < |reports| ==> reports[a].end < reports[b].start
  {
    ghost var rows, eye := em.data, ChooseEye(em.data);
    em.DecideEyeToUse();
    em.InterpolateIsolated();
    ghost var filled := em.data;
    em.IdentifyBlinkStreaming(BlinkMin);
    assert em.states == BlinkStates(rows);
    em.IdentifySaccade(Velocity, false);
    em.IdentifyFixation();
    assert em.states == FinalStates(rows);
    ReportInputsPresent(rows);
    reports := em.ReportCenterPoints(FixationThreshold);
    assert FixationCenters(em.states, Points(em.data, em.eyeToUse.value), FixationThreshold, false) == Centers(rows);
  }

  /** Where the velocity pass reads points, every reported fixation has points to average. */
  lemma ReportInputsPresent(rows: seq<Sample>)
    requires UnsetRowsHavePoints(BlinkStates(rows), Points(Filled(rows), ChooseEye(rows)))
    ensures CentroidInputsPresent(FinalStates(rows), Points(Filled(rows), ChooseEye(rows)), FixationThreshold, false)
  {
    var ls0 := BlinkStates(rows);
    assert forall i :: 0 <= i < |ls0| ==> ls0[i] != Some(Fixation);
    UnsetPointsCoverCentroids(ls0, Points(Filled(rows), ChooseEye(rows)), Velocity, FixationThreshold);
  }

  /** The midpoint pass is gap interpolation of one-row gaps without recoding. */
  lemma MidpointPassIsShortestGapFill(rows: seq<Sample>)
    ensures Filled(rows) == GapFill(rows, ChooseEye(rows), 1, false)
  {
    MidpointFillIsGapFillOfOne(rows, ChooseEye(rows));
  }

  /**
   * In a run of rows missing in both eyes, the first five rows are Error
   * and every later row Blink, however long the run is.
   */
  lemma {:induction false} BlinkRunsStartWithErrors(rows: seq<Sample>, s: nat, e: nat, j: nat)
    requires IsRun(BothMissingMask(rows), s, e) && s <= j < e
    ensures FinalStates(rows)[j] == if j - s < 5 then Some(Error) else Some(Blink)
  {
    MidpointPassIsShortestGapFill(rows);
    GapFillWithoutRecodeKeepsValidity(rows, ChooseEye(rows), 1);
    StreamingBlinkOnRun(BothMissingMask(rows), BlinkMin, s, e, j);
    MarkSaccadesOnlyFillsUnset(BlinkStates(rows), Points(Filled(rows), ChooseEye(rows)), Velocity, j);
  }

  /**
   * The backup's test multiplies the square root of the squared displacement
   * by 60 and compares with 30; for the root `v` of `d2`, that is the
   * comparison of `d2` with one quarter.
   */
  lemma {:induction false} VelocityTestMatches(d2: real, v: real)
    requires v >= 0.0 && v * v == d2
    ensures v * 60.0 >= 30.0 <==> d2 >= Velocity.minDistSq
  {
    if v >= 0.5 {
      assert v * v >= 0.5 * v >= 0.25;
    } else {
      assert v * v <= 0.5 * v < 0.25;
    }
  }
}
