/**
 * The eye-movement classifier as the object the analysis scripts build: a
 * recording it rewrites in place, the eye it decides to follow, the label
 * column it grows and rewrites, and the fixation-centre column. Each pass is
 * a loop over the rows, proved to leave exactly the state that the matching
 * function of module Stages describes.
 */
module Classifier {
  import opened Gaze
  import opened Runs
  import opened Stages

  /** A fixation the print-only centre pass reports: its rows `[start, end)` and their mean point. */
  datatype FixationReport = FixationReport(start: nat, end: nat, center: Point)

  class EyeMovement {
    /** The recording, one sample per row. */
    var data: seq<Sample>
    /** The eye whose column the passes read; `None` until it is decided. */
    var eyeToUse: Option<Eye>
    /** The label column; `None` is an unset label. */
    var states: seq<Option<EyeState>>
    /** The fixation-centre column; `None` is the missing centre. */
    var fixationCenter: seq<Option<Point>>

    /** A classifier over a loaded recording, with no eye chosen and no labels yet. */
    constructor (recording: seq<Sample>)
      ensures data == recording && eyeToUse == None && states == [] && fixationCenter == []
    {
      data := recording;
      eyeToUse := None;
      states := [];
      fixationCenter := [];
    }

    /** Follows the eye with the larger validity sum, the right eye on a tie. */
    method DecideEyeToUse()
      modifies this
      ensures eyeToUse == Some(ChooseEye(data))
      ensures data == old(data) && states == old(states) && fixationCenter == old(fixationCenter)
    {
      eyeToUse := Some(ChooseEye(data));
    }

    /**
     * Fills every interior run of 1..maxGap missing rows of the chosen eye
     * by linear interpolation between the rows that bound it; with `recode`
     * the filled rows are marked interpolated (validity 2).
     */
    method InterpolateCoordinates(maxGap: nat, recode: bool)
      requires eyeToUse.Some?
      requires GapBoundsPresent(data, eyeToUse.value, maxGap)
      modifies this
      ensures eyeToUse == old(eyeToUse) && states == old(states) && fixationCenter == old(fixationCenter)
      ensures data == GapFill(old(data), eyeToUse.value, maxGap, recode)
    {
      var eye := eyeToUse.value;
      ghost var rows := data;
      ghost var target := GapFill(rows, eye, maxGap, recode);
      ghost var m := MissingMask(rows, eye);
      var n := |data|;
      var idx := 0;
      while idx < n
        invariant 0 <= idx <= n && |data| == n
        invariant idx < n && m[idx] ==> idx == 0 || !m[idx - 1]
        invariant forall k :: 0 <= k < idx ==> data[k] == target[k]
        invariant forall k :: idx <= k < n ==> data[k] == rows[k]
        invariant eyeToUse == old(eyeToUse) && states == old(states) && fixationCenter == old(fixationCenter)
      {
        if ValidityOf(data[idx], eye) == 0 {
          var start := idx;
          while idx < n && ValidityOf(data[idx], eye) == 0
            invariant start <= idx <= n
            invariant forall k :: start <= k < idx ==> m[k]
          {
            idx := idx + 1;
          }
          var end := idx;
          assert IsRun(m, start, end);
          if 1 <= end - start <= maxGap && start > 0 && end < n {
            FillGap(eye, maxGap, recode, start, end, rows);
          } else {
            forall k | start <= k < end
              ensures target[k] == rows[k]
            {
              GapFillKeeps(rows, eye, maxGap, recode, start, end, k);
            }
          }
        } else {
          GapFillKeeps(rows, eye, maxGap, recode, 0, 0, idx);
          idx := idx + 1;
        }
      }
    }

    /** The body of one qualifying gap `[start, end)`: each row is moved onto the bounding segment. */
    method FillGap(eye: Eye, maxGap: nat, recode: bool, start: nat, end: nat, ghost rows: seq<Sample>)
      requires |data| == |rows| && GapBoundsPresent(rows, eye, maxGap)
      requires IsRun(MissingMask(rows, eye), start, end) && 0 < start && end < |rows| && end - start <= maxGap
      requires PointOf(data[start - 1], eye) == PointOf(rows[start - 1], eye)
      requires forall k :: start <= k < |rows| ==> data[k] == rows[k]
      modifies this
      ensures eyeToUse == old(eyeToUse) && states == old(states) && fixationCenter == old(fixationCenter)
      ensures |data| == |rows|
      ensures forall k :: 0 <= k < start ==> data[k] == old(data[k])
      ensures forall k :: start <= k < end ==> data[k] == GapFill(rows, eye, maxGap, recode)[k]
      ensures forall k :: end <= k < |rows| ==> data[k] == rows[k]
    {
      RunUnique(MissingMask(rows, eye), start, end, start);
      assert InShortGap(MissingMask(rows, eye), maxGap, start);
      var before, after := PointOf(data[start - 1], eye), PointOf(data[end], eye);
      for j := start to end
        invariant |data| == |rows|
        invariant forall k :: 0 <= k < start ==> data[k] == old(data[k])
        invariant forall k :: start <= k < j ==> data[k] == GapFill(rows, eye, maxGap, recode)[k]
        invariant forall k :: j <= k < |rows| ==> data[k] == rows[k]
        invariant eyeToUse == old(eyeToUse) && states == old(states) && fixationCenter == old(fixationCenter)
      {
        GapFillInGap(rows, eye, maxGap, recode, start, end, j);
        var alpha := GapWeight(start, end, j);
        data := data[j := WithPoint(data[j], eye, Lerp(before.value, after.value, alpha))];
        if recode {
          data := data[j := WithValidity(data[j], eye, 2)];
        }
      }
    }

    /**
     * Appends one label per row: each maximal run of missing rows becomes
     * Blink when it has at least `blinkMin` rows and Error otherwise; every
     * other row gets an unset label.
     */
    method IdentifyBlink(blinkMin: nat, bothEyes: bool)
      requires bothEyes || eyeToUse.Some?
      modifies this
      ensures data == old(data) && eyeToUse == old(eyeToUse) && fixationCenter == old(fixationCenter)
      ensures states == old(states) + BlinkLabels(BlinkMask(data, eyeToUse, bothEyes), blinkMin)
    {
      var labels := BlinkColumn(data, eyeToUse, bothEyes, blinkMin);
      states := states + labels;
    }

    /** The labels the run-based blink pass appends, one per row. */
    static method BlinkColumn(rows: seq<Sample>, eyeToUse: Option<Eye>, bothEyes: bool, blinkMin: nat)
      returns (out: seq<Option<EyeState>>)
      requires bothEyes || eyeToUse.Some?
      ensures out == BlinkLabels(BlinkMask(rows, eyeToUse, bothEyes), blinkMin)
    {
      ghost var m := BlinkMask(rows, eyeToUse, bothEyes);
      ghost var labels := BlinkLabels(m, blinkMin);
      var n := |rows|;
      out := [];
      var idx := 0;
      while idx < n
        invariant 0 <= idx <= n
        invariant idx < n && m[idx] ==> idx == 0 || !m[idx - 1]
        invariant out == labels[..idx]
      {
        if RowMissing(rows[idx], eyeToUse, bothEyes) {
          var start := idx;
          while idx < n && RowMissing(rows[idx], eyeToUse, bothEyes)
            invariant start <= idx <= n
            invariant forall k :: start <= k < idx ==> m[k]
          {
            idx := idx + 1;
          }
          var end := idx;
          assert IsRun(m, start, end);
          var st := if end - start >= blinkMin then Blink else Error;
          forall k | start <= k < end
            ensures labels[k] == Some(st)
          {
            BlinkLabelsOnRun(m, blinkMin, start, end, k);
          }
          PrefixBlock(labels, start, end, Some(st));
          out := out + seq(end - start, _ => Some(st));
        } else {
          PrefixStep(labels, idx);
          out := out + [None];
          idx := idx + 1;
        }
      }
      assert labels[..n] == labels;
    }

    /**
     * Appends one label per row, counting consecutive rows where both eyes
     * are missing: such a row is Blink once the count reaches `blinkMin`
     * and Error before; every other row resets the count and is unset.
     */
    method IdentifyBlinkStreaming(blinkMin: nat)
      modifies this
      ensures data == old(data) && eyeToUse == old(eyeToUse) && fixationCenter == old(fixationCenter)
      ensures states == old(states) + StreamingBlinkLabels(BothMissingMask(data), blinkMin)
    {
      var labels := StreamingColumn(data, blinkMin);
      states := states + labels;
    }

    /** The labels the counting pass appends, one per row. */
    static method StreamingColumn(rows: seq<Sample>, blinkMin: nat) returns (labels: seq<Option<EyeState>>)
      ensures labels == StreamingBlinkLabels(BothMissingMask(rows), blinkMin)
    {
      ghost var m := BothMissingMask(rows);
      labels := [];
      var consecutive := 0;
      for i := 0 to |rows|
        invariant consecutive == i - RunStart(m, i)
        invariant labels == StreamingBlinkLabels(m, blinkMin)[..i]
      {
        StreamingStep(m, blinkMin, i, consecutive);
        PrefixStep(StreamingBlinkLabels(m, blinkMin), i);
        if rows[i].leftValidity == 0 && rows[i].rightValidity == 0 {
          consecutive := consecutive + 1;
          labels := labels + [if consecutive >= blinkMin then Some(Blink) else Some(Error)];
        } else {
          consecutive := 0;
          labels := labels + [None];
        }
      }
      assert StreamingBlinkLabels(m, blinkMin)[..|rows|] == StreamingBlinkLabels(m, blinkMin);
    }

    /**
     * Replaces each isolated missing row of the chosen eye by the midpoint of
     * its two neighbours; validity is left as it is.
     */
    method InterpolateIsolated()
      requires eyeToUse.Some?
      requires IsolatedGapsBounded(data, eyeToUse.value)
      modifies this
      ensures eyeToUse == old(eyeToUse) && states == old(states) && fixationCenter == old(fixationCenter)
      ensures data == MidpointFill(old(data), eyeToUse.value)
    {
      var eye := eyeToUse.value;
      ghost var rows := data;
      ghost var m := MissingMask(rows, eye);
      ghost var target := MidpointFill(rows, eye);
      var n := |data|;
      for i := 0 to n
        invariant |data| == n
        invariant forall k :: 0 <= k < n ==> ValidityOf(data[k], eye) == ValidityOf(rows[k], eye)
        invariant forall k :: 0 <= k < i ==> data[k] == target[k]
        invariant forall k :: i <= k < n ==> data[k] == rows[k]
        invariant forall k :: 0 <= k < i && !m[k] ==> data[k] == rows[k]
        invariant eyeToUse == old(eyeToUse) && states == old(states) && fixationCenter == old(fixationCenter)
      {
        if ValidityOf(data[i], eye) == 0 {
          var prevMissing := i > 0 && ValidityOf(data[i - 1], eye) == 0;
          var nextMissing := i + 1 < n && ValidityOf(data[i + 1], eye) == 0;
          if !prevMissing && !nextMissing {
            assert Isolated(m, i);
            var p, q := PointOf(data[i - 1], eye).value, PointOf(data[i + 1], eye).value;
            data := data[i := WithPoint(data[i], eye, Midpoint(p, q))];
          }
        }
      }
    }

    /**
     * The velocity pass: an unset row whose move to the next row reaches the
     * threshold becomes Saccade. With `guarded`, a row whose point or whose
     * successor's point is missing is skipped; without it, such a row must
     * not be reached.
     */
    method IdentifySaccade(g: Geometry, guarded: bool)
      requires eyeToUse.Some?
      requires |data| <= |states| + 1
      requires !guarded ==> UnsetRowsHavePoints(states, Points(data, eyeToUse.value))
      modifies this
      ensures data == old(data) && eyeToUse == old(eyeToUse) && fixationCenter == old(fixationCenter)
      ensures states == MarkSaccades(old(states), Points(data, eyeToUse.value), g)
    {
      var eye := eyeToUse.value;
      ghost var ls := states;
      ghost var target := MarkSaccades(ls, Points(data, eye), g);
      var i := 0;
      while i + 1 < |data|
        invariant 0 <= i <= |ls|
        invariant |states| == |ls|
        invariant forall k :: 0 <= k < i ==> states[k] == target[k]
        invariant forall k :: i <= k < |ls| ==> states[k] == ls[k]
        invariant data == old(data) && eyeToUse == old(eyeToUse) && fixationCenter == old(fixationCenter)
      {
        if states[i] == None {
          var p, q := PointOf(data[i], eye), PointOf(data[i + 1], eye);
          if !guarded || (p.Some? && q.Some?) {
            if IsSaccade(g, p.value, q.value) {
              states := states[i := Some(Saccade)];
            }
          }
        }
        i := i + 1;
      }
    }

    /** The default pass: every unset label becomes Fixation. */
    method IdentifyFixation()
      modifies this
      ensures data == old(data) && eyeToUse == old(eyeToUse) && fixationCenter == old(fixationCenter)
      ensures states == FillFixation(old(states))
    {
      ghost var target := FillFixation(states);
      for i := 0 to |states|
        invariant |states| == |target|
        invariant forall k :: 0 <= k < i ==> states[k] == target[k]
        invariant forall k :: i <= k < |states| ==> states[k] == old(states)[k]
        invariant data == old(data) && eyeToUse == old(eyeToUse) && fixationCenter == old(fixationCenter)
      {
        if states[i] == None {
          states := states[i := Some(Fixation)];
        }
      }
    }

    /**
     * Fills the fixation-centre column: each Fixation run longer than
     * `minLen` rows that the scan closes gets the mean of its points on every
     * row; with `sentinel` the scan sees one extra non-Fixation label after
     * the last row, so a run reaching the end is closed too.
     */
    method ComputeCenterPoint(minLen: nat, sentinel: bool)
      requires eyeToUse.Some?
      requires |states| == |data|
      requires CentroidInputsPresent(states, Points(data, eyeToUse.value), minLen, sentinel)
      modifies this
      ensures data == old(data) && eyeToUse == old(eyeToUse) && states == old(states)
      ensures fixationCenter == FixationCenters(states, Points(data, eyeToUse.value), minLen, sentinel)
    {
      FixationCentersByRuns(states, Points(data, eyeToUse.value), minLen, sentinel);
      fixationCenter := ScanCenters(states, Points(data, eyeToUse.value), minLen, sentinel,
                                    FixationCenters(states, Points(data, eyeToUse.value), minLen, sentinel));
    }

    /**
     * The scan of the centre pass over a label column and its points: it
     * builds exactly the column that the run-by-run description fixes.
     */
    static method ScanCenters(ls: seq<Option<EyeState>>, ps: seq<Option<Point>>, minLen: nat, sentinel: bool,
                              ghost target: seq<Option<Point>>)
      returns (cs: seq<Option<Point>>)
      requires |ps| == |ls|
      requires CentresByRuns(ls, ps, minLen, sentinel, target)
      ensures cs == target
    {
      var n := |ls|;
      cs := seq(n, _ => None);
      var start: Option<nat> := None;
      ghost var done: nat := 0;
      var last := if sentinel then n + 1 else n;
      for i := 0 to last
        invariant CentreScan(ls, target, cs, start, done, i)
      {
        cs, start, done := CentreStep(ls, ps, minLen, sentinel, target, cs, start, done, i);
      }
      if start.Some? {
        assert IsRun(FixationMask(ls), start.value, n);
      }
    }

    /**
     * The state of the centre scan before row `i`: rows before `done` hold
     * their final centre, later rows none yet, and `start` is the first row
     * of the Fixation run still open.
     */
    static ghost predicate CentreScan(ls: seq<Option<EyeState>>, target: seq<Option<Point>>, cs: seq<Option<Point>>,
                                      start: Option<nat>, done: nat, i: nat)
    {
      var n, fm := |ls|, FixationMask(ls);
      && |cs| == n && |target| == n
      && done <= i && (done <= n || i == done)
      && (start.None? ==> done == i && (0 < i <= n ==> !fm[i - 1]))
      && (start.Some? ==> done == start.value < i <= n && (done == 0 || !fm[done - 1]))
      && (start.Some? ==> forall k :: done <= k < i ==> fm[k])
      && (forall k :: 0 <= k < n && k < done ==> cs[k] == target[k])
      && (forall k :: done <= k < n ==> cs[k] == None)
    }

    /** One row of the centre scan (the sentinel is the row after the last). */
    static method CentreStep(ls: seq<Option<EyeState>>, ps: seq<Option<Point>>, minLen: nat, sentinel: bool,
                             ghost target: seq<Option<Point>>, cs: seq<Option<Point>>, start: Option<nat>,
                             ghost done: nat, i: nat)
      returns (cs': seq<Option<Point>>, start': Option<nat>, ghost done': nat)
      requires |ps| == |ls| && CentresByRuns(ls, ps, minLen, sentinel, target)
      requires CentreScan(ls, target, cs, start, done, i)
      requires i < if sentinel then |ls| + 1 else |ls|
      ensures CentreScan(ls, target, cs', start', done', i + 1)
    {
      cs', start', done' := cs, start, done;
      if i < |ls| && ls[i] == Some(Fixation) {
        if start == None {
          start' := Some(i);
        }
      } else {
        if start != None {
          var s := start.value;
          assert IsRun(FixationMask(ls), s, i);
          if i - s > minLen {
            cs' := WithCenter(cs, s, i, Centroid(ps[s..i]));
          }
          start' := None;
        }
        done' := i + 1;
      }
    }

    /**
     * The print-only centre pass: scans the labels without an end sentinel
     * and reports, in order, each Fixation run longer than `minLen` rows
     * that a later label closes, with the mean of its points. Nothing is
     * written; each reported run is one the centre column would give that
     * mean, and every row that column would give a centre lies in a
     * reported run.
     */
    method ReportCenterPoints(minLen: nat) returns (reports: seq<FixationReport>)
      requires eyeToUse.Some?
      requires |states| == |data|
      requires CentroidInputsPresent(states, Points(data, eyeToUse.value), minLen, false)
      ensures forall r :: r in reports ==>
                && IsRun(FixationMask(states), r.start, r.end)
                && forall k :: r.start <= k < r.end ==>
                     FixationCenters(states, Points(data, eyeToUse.value), minLen, false)[k] == Some(r.center)
      ensures forall k :: 0 <= k < |states| && FixationCenters(states, Points(data, eyeToUse.value), minLen, false)[k].Some? ==>
        exists r :: r in reports && r.start <= k < r.end
      ensures forall a, b :: 0 <= a < b < |reports| ==> reports[a].end < reports[b].start
    {
      FixationCentersByRuns(states, Points(data, eyeToUse.value), minLen, false);
      reports := ScanReports(states, Points(data, eyeToUse.value), minLen,
                             FixationCenters(states, Points(data, eyeToUse.value), minLen, false));
    }

    /** The scan of the print-only pass, against the run-by-run description of the centre column. */
    static method ScanReports(ls: seq<Option<EyeState>>, ps: seq<Option<Point>>, minLen: nat,
                              ghost target: seq<Option<Point>>)
      returns (reports: seq<FixationReport>)
      requires |ps| == |ls|
      requires CentresByRuns(ls, ps, minLen, false, target)
      ensures forall r :: r in reports ==>
                && IsRun(FixationMask(ls), r.start, r.end)
                && forall k :: r.start <= k < r.end ==> target[k] == Some(r.center)
      ensures forall k :: 0 <= k < |ls| && target[k].Some? ==> exists r :: r in reports && r.start <= k < r.end
      ensures forall a, b :: 0 <= a < b < |reports| ==> reports[a].end < reports[b].start
    {
      reports := [];
      var start: Option<nat> := None;
      ghost var done: nat := 0;
      for i := 0 to |ls|
        invariant ReportScan(ls, target, reports, start, done, i)
      {
        reports, start, done := ReportStep(ls, ps, minLen, target, reports, start, done, i);
      }
      if start.Some? {
        assert IsRun(FixationMask(ls), start.value, |ls|);
      }
    }

    /**
     * The state of the print-only scan before row `i`: the runs reported so
     * far end before `done`, are in order and carry the column's centre, and
     * every centred row before `done` lies in one of them.
     */
    static ghost predicate ReportScan(ls: seq<Option<EyeState>>, target: seq<Option<Point>>, reports: seq<FixationReport>,
                                      start: Option<nat>, done: nat, i: nat)
    {
      var n, fm := |ls|, FixationMask(ls);
      && |target| == n && done <= i <= n
      && (start.None? ==> done == i && (0 < i ==> !fm[i - 1]))
      && (start.Some? ==> done == start.value < i && (done == 0 || !fm[done - 1]))
      && (start.Some? ==> forall k :: done <= k < i ==> fm[k])
      && (forall r :: r in reports ==> r.end < done && IsRun(fm, r.start, r.end))
      && (forall r, k :: r in reports && r.start <= k < r.end ==> k < n && target[k] == Some(r.center))
      && (forall k :: 0 <= k < done && target[k].Some? ==> exists r :: r in reports && r.start <= k < r.end)
      && (forall a, b :: 0 <= a < b < |reports| ==> reports[a].end < reports[b].start)
    }

    /** One row of the print-only scan. */
    static method ReportStep(ls: seq<Option<EyeState>>, ps: seq<Option<Point>>, minLen: nat,
                             ghost target: seq<Option<Point>>, reports: seq<FixationReport>, start: Option<nat>,
                             ghost done: nat, i: nat)
      returns (reports': seq<FixationReport>, start': Option<nat>, ghost done': nat)
      requires |ps| == |ls| && CentresByRuns(ls, ps, minLen, false, target)
      requires ReportScan(ls, target, reports, start, done, i) && i < |ls|
      ensures ReportScan(ls, target, reports', start', done', i + 1)
    {
      reports', start', done' := reports, start, done;
      if ls[i] == Some(Fixation) {
        if start == None {
          start' := Some(i);
        }
      } else {
        if start != None {
          var s := start.value;
          assert IsRun(FixationMask(ls), s, i);
          if i - s > minLen {
            var r := FixationReport(s, i, Centroid(ps[s..i]));
            reports' := reports + [r];
            assert r in reports';
          }
          start' := None;
        }
        done' := i + 1;
      }
    }

    /** Writes one centre on the rows `[s, e)` of a centre column. */
    static method WithCenter(cs: seq<Option<Point>>, s: nat, e: nat, c: Point) returns (r: seq<Option<Point>>)
      requires s <= e <= |cs|
      ensures |r| == |cs|
      ensures forall k :: 0 <= k < |r| ==> r[k] == if s <= k < e then Some(c) else cs[k]
    {
      r := cs;
      for j := s to e
        invariant |r| == |cs|
        invariant forall k :: 0 <= k < |r| ==> r[k] == if s <= k < j then Some(c) else cs[k]
      {
        r := r[j := Some(c)];
      }
    }

    /** The final pass: a Fixation row that got no centre is relabelled Error. */
    method AddErrorState()
      requires |fixationCenter| == |data| <= |states|
      modifies this
      ensures data == old(data) && eyeToUse == old(eyeToUse) && fixationCenter == old(fixationCenter)
      ensures states == RelabelShortFixations(old(states)[..|data|], fixationCenter) + old(states)[|data|..]
    {
      ghost var target := RelabelShortFixations(states[..|data|], fixationCenter) + states[|data|..];
      for i := 0 to |data|
        invariant |states| == |target|
        invariant forall k :: 0 <= k < i ==> states[k] == target[k]
        invariant forall k :: i <= k < |states| ==> states[k] == old(states)[k]
        invariant data == old(data) && eyeToUse == old(eyeToUse) && fixationCenter == old(fixationCenter)
      {
        if states[i] == Some(Fixation) && fixationCenter[i] == None {
          states := states[i := Some(Error)];
        }
      }
    }
  }
}
