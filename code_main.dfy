/**
 * The single-file analysis script: gaps of up to five rows are interpolated
 * and recoded, missing runs of six or more rows of the chosen eye are
 * blinks, the velocity pass skips missing points and centres are computed
 * with an end sentinel; there is no final relabelling, so a short fixation
 * keeps its Fixation label without a centre.
 */
module CodeMain {
  import opened Gaze
  import opened Runs
  import opened Stages
  import opened Pipeline
  import opened Classifier

  /** The longest missing run that is interpolated. */
  const MaxGap: nat := 5
  /** The shortest missing run that is a blink. */
  const BlinkMin: nat := 6
  /** A fixation needs more than this many rows to get a centre. */
  const FixationThreshold: nat := 6
  const ScreenWidthMm: real := 596.7
  const ScreenHeightMm: real := 335.7

  /** The velocity test of this script, with the squared threshold `minDistSq` its constants fix. */
  function Screen(minDistSq: real): Geometry
  {
    Geometry(ScreenWidthMm, ScreenHeightMm, minDistSq)
  }

  /** The label column the script writes. */
  function FinalStates(rows: seq<Sample>, minDistSq: real): (ls: seq<Option<EyeState>>)
    ensures |ls| == |rows|
  {
    RecodedLabels(rows, ChooseEye(rows), MaxGap, Screen(minDistSq))
  }

  /** The fixation-centre column the script writes. */
  function Centers(rows: seq<Sample>, minDistSq: real): (cs: seq<Option<Point>>)
    ensures |cs| == |rows|
  {
    var eye := ChooseEye(rows);
    FixationCenters(FinalStates(rows, minDistSq), Points(Recoded(rows, eye, MaxGap), eye), FixationThreshold, true)
  }

  /** The script's analysis on a freshly built classifier. */
  method Analyze(em: EyeMovement, minDistSq: real)
    requires em.states == []
    requires GapBoundsPresent(em.data, ChooseEye(em.data), MaxGap)
    requires CentroidInputsPresent(FinalStates(em.data, minDistSq),
                                   Points(Recoded(em.data, ChooseEye(em.data), MaxGap), ChooseEye(em.data)),
                                   FixationThreshold, true)
    modifies em
    ensures em.eyeToUse == Some(ChooseEye(old(em.data)))
    ensures em.data == Recoded(old(em.data), ChooseEye(old(em.data)), MaxGap)
    ensures em.states == FinalStates(old(em.data), minDistSq)
    ensures em.fixationCenter == Centers(old(em.data), minDistSq)
  {
    ghost var rows, eye := em.data, ChooseEye(em.data);
    em.DecideEyeToUse();
    em.InterpolateCoordinates(MaxGap, true);
    ghost var filled := em.data;
    em.IdentifyBlink(BlinkMin, false);
    assert em.states == BlinkLabels(MissingMask(filled, eye), BlinkMin);
    em.IdentifySaccade(Screen(minDistSq), true);
    em.IdentifyFixation();
    assert em.states == FinalStates(rows, minDistSq);
    em.ComputeCenterPoint(FixationThreshold, true);
  }

  /** When every observed row carries a point, the analysis is defined. */
  lemma ObservedPointsSuffice(rows: seq<Sample>, minDistSq: real)
    requires ObservedPointsPresent(rows, ChooseEye(rows))
    ensures GapBoundsPresent(rows, ChooseEye(rows), MaxGap)
    ensures CentroidInputsPresent(FinalStates(rows, minDistSq), Points(Recoded(rows, ChooseEye(rows), MaxGap), ChooseEye(rows)),
                                  FixationThreshold, true)
  {
    ObservedPointsBoundGaps(rows, ChooseEye(rows), MaxGap);
    RecodedFixationsHavePoints(rows, ChooseEye(rows), MaxGap, Screen(minDistSq), FixationThreshold, true);
  }

  /** Every row gets a label; every Error row is part of a missing run of fewer than six rows at either end. */
  lemma {:induction false} ErrorsOnlyAtEdges(rows: seq<Sample>, minDistSq: real, j: nat)
    requires GapBoundsPresent(rows, ChooseEye(rows), MaxGap)
    requires j < |rows|
    ensures FinalStates(rows, minDistSq)[j] != None
    ensures FinalStates(rows, minDistSq)[j] == Some(Error) ==>
            var m := MissingMask(Recoded(rows, ChooseEye(rows), MaxGap), ChooseEye(rows));
            m[j] && RunLength(m, j) < BlinkMin && (RunStart(m, j) == 0 || RunEnd(m, j) == |rows|)
  {
    var eye := ChooseEye(rows);
    if FinalStates(rows, minDistSq)[j] == Some(Error) {
      var filled := Recoded(rows, eye, MaxGap);
      LabelFromBlinkPass(MissingMask(filled, eye), BlinkMin, Points(filled, eye), Screen(minDistSq), j, Error);
      ErrorsTouchEdges(rows, eye, MaxGap, Screen(minDistSq), j);
    }
  }

  /** A Fixation run of at most six rows keeps its label and gets no centre. */
  lemma ShortFixationsKeepLabel(rows: seq<Sample>, minDistSq: real, s: nat, e: nat, j: nat)
    requires IsRun(FixationMask(FinalStates(rows, minDistSq)), s, e) && e - s <= FixationThreshold && s <= j < e
    ensures FinalStates(rows, minDistSq)[j] == Some(Fixation)
    ensures Centers(rows, minDistSq)[j] == None
  {
    var eye := ChooseEye(rows);
    CentersOnRun(FinalStates(rows, minDistSq), Points(Recoded(rows, eye, MaxGap), eye), FixationThreshold, true, s, e, j);
  }

  /** A missing run of six or more rows of the chosen eye is labelled Blink throughout. */
  lemma LongGapsAreBlinksHere(rows: seq<Sample>, minDistSq: real, s: nat, e: nat, j: nat)
    requires GapBoundsPresent(rows, ChooseEye(rows), MaxGap)
    requires IsRun(MissingMask(rows, ChooseEye(rows)), s, e) && e - s >= BlinkMin && s <= j < e
    ensures FinalStates(rows, minDistSq)[j] == Some(Blink)
  {
    LongGapsAreBlinks(rows, ChooseEye(rows), MaxGap, Screen(minDistSq), s, e, j);
  }

  /** A row of an interior gap of at most five rows is classified by velocity: Saccade or Fixation. */
  lemma ShortGapsNotBlinks(rows: seq<Sample>, minDistSq: real, s: nat, e: nat, j: nat)
    requires GapBoundsPresent(rows, ChooseEye(rows), MaxGap)
    requires IsRun(MissingMask(rows, ChooseEye(rows)), s, e) && 0 < s && e < |rows| && e - s <= MaxGap && s <= j < e
    ensures FinalStates(rows, minDistSq)[j] in {Some(Saccade), Some(Fixation)}
  {
    ShortGapsClassifiedByVelocity(rows, ChooseEye(rows), MaxGap, Screen(minDistSq), s, e, j);
  }
}
