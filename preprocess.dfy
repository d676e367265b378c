/**
 * The batch preprocessing script: gaps of up to four rows are interpolated
 * and recoded, missing runs of five or more rows of the chosen eye are
 * blinks, the velocity pass skips missing points, centres are computed with
 * an end sentinel, and Fixation rows without a centre become Error.
 */
module Preprocess {
  import opened Gaze
  import opened Runs
  import opened Stages
  import opened Pipeline
  import opened Classifier

  /** The longest missing run that is interpolated. */
  const MaxGap: nat := 4
  /** The shortest missing run that is a blink. */
  const BlinkMin: nat := 5
  /** A fixation needs more than this many rows to get a centre. */
  const FixationThreshold: nat := 6
  const ScreenWidthMm: real := 596.7
  const ScreenHeightMm: real := 335.7

  /**
   * The velocity test of this script: the displacement scaled by the screen
   * size in millimetres, compared with the squared threshold `minDistSq`
   * that the visual angle, the viewing distance and the sampling rate fix.
   */
  function Screen(minDistSq: real): Geometry
  {
    Geometry(ScreenWidthMm, ScreenHeightMm, minDistSq)
  }

  /** The labels before the final pass. */
  function Labelled(rows: seq<Sample>, minDistSq: real): (ls: seq<Option<EyeState>>)
    ensures |ls| == |rows|
  {
    RecodedLabels(rows, ChooseEye(rows), MaxGap, Screen(minDistSq))
  }

  /** The fixation-centre column the script writes. */
  function Centers(rows: seq<Sample>, minDistSq: real): (cs: seq<Option<Point>>)
    ensures |cs| == |rows|
  {
    var eye := ChooseEye(rows);
    FixationCenters(Labelled(rows, minDistSq), Points(Recoded(rows, eye, MaxGap), eye), FixationThreshold, true)
  }

  /** The label column the script writes. */
  function FinalStates(rows: seq<Sample>, minDistSq: real): (ls: seq<Option<EyeState>>)
    ensures |ls| == |rows|
  {
    RelabelShortFixations(Labelled(rows, minDistSq), Centers(rows, minDistSq))
  }

  /**
   * The script's run on a freshly built classifier: the recording ends up
   * interpolated, and the label and centre columns are the ones above.
   */
  method Run(em: EyeMovement, minDistSq: real)
    requires em.states == []
    requires GapBoundsPresent(em.data, ChooseEye(em.data), MaxGap)
    requires CentroidInputsPresent(Labelled(em.data, minDistSq),
                                   Points(Recoded(em.data, ChooseEye(em.data), MaxGap), ChooseEye(em.data)),
                                   FixationThreshold, true)
    modifies em
    ensures em.eyeToUse == Some(ChooseEye(old(em.data)))
    ensures em.data == Recoded(old(em.data), ChooseEye(old(em.data)), MaxGap)
    ensures em.states == FinalStates(old(em.data), minDistSq)
    ensures em.fixationCenter == Centers(old(em.data), minDistSq)
  {
    ghost var rows, eye := em.data, ChooseEye(em.data);
    em.DecideEyeToUse();
    em.InterpolateCoordinates(MaxGap, true);
    ghost var filled := em.data;
    em.IdentifyBlink(BlinkMin, false);
    assert em.states == BlinkLabels(MissingMask(filled, eye), BlinkMin);
    em.IdentifySaccade(Screen(minDistSq), true);
    em.IdentifyFixation();
    assert em.states == Labelled(rows, minDistSq);
    em.ComputeCenterPoint(FixationThreshold, true);
    ghost var ls := em.states;
    em.AddErrorState();
    assert ls[..|filled|] == ls && ls[|filled|..] == [];
  }

  /** When every observed row carries a point, the script's run is defined. */
  lemma ObservedPointsSuffice(rows: seq<Sample>, minDistSq: real)
    requires ObservedPointsPresent(rows, ChooseEye(rows))
    ensures GapBoundsPresent(rows, ChooseEye(rows), MaxGap)
    ensures CentroidInputsPresent(Labelled(rows, minDistSq), Points(Recoded(rows, ChooseEye(rows), MaxGap), ChooseEye(rows)),
                                  FixationThreshold, true)
  {
    ObservedPointsBoundGaps(rows, ChooseEye(rows), MaxGap);
    RecodedFixationsHavePoints(rows, ChooseEye(rows), MaxGap, Screen(minDistSq), FixationThreshold, true);
  }

  /** Every row gets one of the four labels, and a row has a centre exactly when it is labelled Fixation. */
  lemma {:induction false} EveryRowLabelled(rows: seq<Sample>, minDistSq: real, i: nat)
    requires i < |rows|
    ensures FinalStates(rows, minDistSq)[i] != None
    ensures Centers(rows, minDistSq)[i].Some? <==> FinalStates(rows, minDistSq)[i] == Some(Fixation)
  {
    var eye := ChooseEye(rows);
    FinalLabelsTotal(Labelled(rows, minDistSq), Points(Recoded(rows, eye, MaxGap), eye), FixationThreshold, true, i);
  }

  /**
   * An Error row is either part of a missing run of fewer than five rows at
   * the start or the end of the recording, or part of a Fixation run of at
   * most six rows.
   */
  lemma {:induction false} ErrorRowsExplained(rows: seq<Sample>, minDistSq: real, j: nat)
    requires GapBoundsPresent(rows, ChooseEye(rows), MaxGap)
    requires j < |rows| && FinalStates(rows, minDistSq)[j] == Some(Error)
    ensures var m := MissingMask(Recoded(rows, ChooseEye(rows), MaxGap), ChooseEye(rows));
            var fm := FixationMask(Labelled(rows, minDistSq));
            || (m[j] && RunLength(m, j) < BlinkMin && (RunStart(m, j) == 0 || RunEnd(m, j) == |rows|))
            || (fm[j] && RunLength(fm, j) <= FixationThreshold)
  {
    var eye := ChooseEye(rows);
    var ls := Labelled(rows, minDistSq);
    if ls[j] == Some(Error) {
      var filled := Recoded(rows, eye, MaxGap);
      LabelFromBlinkPass(MissingMask(filled, eye), BlinkMin, Points(filled, eye), Screen(minDistSq), j, Error);
      ErrorsTouchEdges(rows, eye, MaxGap, Screen(minDistSq), j);
    }
  }

  /** A missing run of five or more rows of the chosen eye is labelled Blink throughout. */
  lemma LongGapsAreBlinksHere(rows: seq<Sample>, minDistSq: real, s: nat, e: nat, j: nat)
    requires GapBoundsPresent(rows, ChooseEye(rows), MaxGap)
    requires IsRun(MissingMask(rows, ChooseEye(rows)), s, e) && e - s >= BlinkMin && s <= j < e
    ensures FinalStates(rows, minDistSq)[j] == Some(Blink)
  {
    LongGapsAreBlinks(rows, ChooseEye(rows), MaxGap, Screen(minDistSq), s, e, j);
  }

  /** A row of an interior gap of at most four rows is never Blink: it is classified by velocity. */
  lemma ShortGapsNotBlinks(rows: seq<Sample>, minDistSq: real, s: nat, e: nat, j: nat)
    requires GapBoundsPresent(rows, ChooseEye(rows), MaxGap)
    requires IsRun(MissingMask(rows, ChooseEye(rows)), s, e) && 0 < s && e < |rows| && e - s <= MaxGap && s <= j < e
    ensures FinalStates(rows, minDistSq)[j] in {Some(Saccade), Some(Fixation), Some(Error)}
    ensures Labelled(rows, minDistSq)[j] in {Some(Saccade), Some(Fixation)}
  {
    ShortGapsClassifiedByVelocity(rows, ChooseEye(rows), MaxGap, Screen(minDistSq), s, e, j);
  }
}
