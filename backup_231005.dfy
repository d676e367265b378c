/**
 * The dated backup of 5 October: a single pass over the recording that
 * labels runs of rows missing in both eyes as Error (fewer than six rows)
 * or Blink, interpolates the left-eye column across short runs, and labels
 * every other row Saccade or Fixation by the velocity to the next row.
 */
module Backup231005 {
  import opened Gaze
  import opened Runs
  import opened Stages

  /** The shortest run of rows missing in both eyes that is a blink. */
  const BlinkMin: nat := 6
  /** The screen width in millimetres, used as the scale of both axes. */
  const ScreenWidthMm: real := 609.2

  /**
   * The velocity test of this backup: the Euclidean distance scaled by the
   * screen width on both axes, compared through the squared threshold
   * `minDistSq` that the 30 degrees per second at 650 mm and 60 Hz fix.
   */
  function Velocity(minDistSq: real): Geometry
  {
    Geometry(ScreenWidthMm, ScreenWidthMm, minDistSq)
  }

  /** The squared Euclidean distance between two gaze points, before the root is taken. */
  function DistanceSq(p: Point, q: Point): (d: real)
    ensures d >= 0.0
  {
    (p.x - q.x) * (p.x - q.x) + (p.y - q.y) * (p.y - q.y)
  }

  /**
   * The velocity test reaches its threshold exactly when the squared
   * distance, scaled by the squared screen width, does.
   */
  lemma VelocityIsScaledDistance(minDistSq: real, p: Point, q: Point)
    ensures IsSaccade(Velocity(minDistSq), p, q) <==> DistanceSq(p, q) * (ScreenWidthMm * ScreenWidthMm) >= minDistSq
  {
    var w := ScreenWidthMm;
    var dx, dy := q.x - p.x, q.y - p.y;
    assert (dx * w) * (dx * w) == (dx * dx) * (w * w);
    assert (dy * w) * (dy * w) == (dy * dy) * (w * w);
    assert (p.x - q.x) * (p.x - q.x) == dx * dx;
    assert (p.y - q.y) * (p.y - q.y) == dy * dy;
  }

  /** The left-eye point of a row: the only column this backup reads. */
  function LeftPoint(row: Sample): Option<Point>
  {
    row.leftPoint
  }

  /** The label of row `i`: the single pass decides it from the row's missing run or from its velocity. */
  function StateAt(rows: seq<Sample>, minDistSq: real, i: nat): EyeState
    requires i < |rows|
  {
    var m := BothMissingMask(rows);
    if m[i] then (if RunLength(m, i) < BlinkMin then Error else Blink)
    else if i + 1 < |rows| && LeftPoint(rows[i]).Some? && LeftPoint(rows[i + 1]).Some?
            && IsSaccade(Velocity(minDistSq), LeftPoint(rows[i]).value, LeftPoint(rows[i + 1]).value)
    then Saccade
    else Fixation
  }

  /** The label column the backup writes. */
  function States(rows: seq<Sample>, minDistSq: real): (ls: seq<EyeState>)
    ensures |ls| == |rows|
  {
    seq(|rows|, i requires 0 <= i < |rows| => StateAt(rows, minDistSq, i))
  }

  /** The rows the velocity test reads carry a left-eye point; otherwise the distance formula fails. */
  predicate VelocityInputsPresent(rows: seq<Sample>)
  {
    forall i :: 0 <= i < |rows| - 1 && !BothMissingMask(rows)[i] ==>
      LeftPoint(rows[i]).Some? && LeftPoint(rows[i + 1]).Some?
  }

  /**
   * The single pass labels every row exactly as the staged passes do on the
   * left eye: the run-based blink pass at six rows, the velocity pass, and
   * the default pass.
   */
  lemma {:induction false} SinglePassMatchesStagedPasses(rows: seq<Sample>, minDistSq: real, i: nat)
    requires i < |rows|
    ensures Some(States(rows, minDistSq)[i])
         == FillFixation(MarkSaccades(BlinkLabels(BothMissingMask(rows), BlinkMin), Points(rows, Left), Velocity(minDistSq)))[i]
  {
    BlinkLabelsUnsetIffPresent(BothMissingMask(rows), BlinkMin, i);
  }

  // ---------------------------------------------------------------- interpolation across short runs

  /** The weight of row `k` strictly between the anchor rows `a` and `b`. */
  function Ratio(a: nat, b: nat, k: nat): real
    requires a < k < b
  {
    (k - a) as real / (b - a) as real
  }

  /** The weight lies strictly between 0 and 1. */
  lemma RatioInside(a: nat, b: nat, k: nat)
    requires a < k < b
    ensures 0.0 < Ratio(a, b, k) < 1.0
  {
  }

  /** Row `k` with its left point placed between the left points of rows `a` and `b` (unchanged when one is missing). */
  function Between(rows: seq<Sample>, a: nat, b: nat, k: nat): Sample
    requires a < k < b < |rows|
  {
    var p, q := LeftPoint(rows[a]), LeftPoint(rows[b]);
    if p.Some? && q.Some? then WithPoint(rows[k], Left, Lerp(p.value, q.value, Ratio(a, b, k))) else rows[k]
  }

  /**
   * Row `k` as the source's call leaves it: a short run `[s, e)` is
   * interpolated between its own first and last rows `s` and `e - 1`,
   * which are themselves missing; only the rows strictly inside are set.
   */
  function AsWrittenRow(rows: seq<Sample>, k: nat): Sample
    requires k < |rows|
  {
    var m := BothMissingMask(rows);
    if m[k] && RunLength(m, k) < BlinkMin && RunStart(m, k) < k < RunEnd(m, k) - 1
    then Between(rows, RunStart(m, k), RunEnd(m, k) - 1, k)
    else rows[k]
  }

  function AsWrittenFill(rows: seq<Sample>): (r: seq<Sample>)
    ensures |r| == |rows|
  {
    seq(|rows|, k requires 0 <= k < |rows| => AsWrittenRow(rows, k))
  }

  /**
   * Row `k` as interpolation across a short run is meant to leave it: every
   * row of a short interior run `[s, e)` is placed between the observed
   * rows `s - 1` and `e` that bound the run.
   */
  function BridgedRow(rows: seq<Sample>, k: nat): Sample
    requires k < |rows|
  {
    var m := BothMissingMask(rows);
    if m[k] && RunLength(m, k) < BlinkMin && 0 < RunStart(m, k) && RunEnd(m, k) < |rows|
    then Between(rows, RunStart(m, k) - 1, RunEnd(m, k), k)
    else rows[k]
  }

  function BridgedFill(rows: seq<Sample>): (r: seq<Sample>)
    ensures |r| == |rows|
  {
    seq(|rows|, k requires 0 <= k < |rows| => BridgedRow(rows, k))
  }

  /**
   * Every row of a short interior run is placed on the segment between the
   * observed points that bound it, strictly inside, at its offset over the
   * run length plus one; the right eye is untouched.
   */
  lemma BridgedFillOnSegment(rows: seq<Sample>, s: nat, e: nat, k: nat)
    requires IsRun(BothMissingMask(rows), s, e) && 0 < s && e < |rows| && e - s < BlinkMin && s <= k < e
    requires LeftPoint(rows[s - 1]).Some? && LeftPoint(rows[e]).Some?
    ensures LeftPoint(BridgedFill(rows)[k])
         == Some(Lerp(LeftPoint(rows[s - 1]).value, LeftPoint(rows[e]).value, GapWeight(s, e, k)))
    ensures 0.0 < GapWeight(s, e, k) < 1.0
    ensures BridgedFill(rows)[k].rightPoint == rows[k].rightPoint
    ensures BridgedFill(rows)[k].leftValidity == rows[k].leftValidity
  {
    RunUnique(BothMissingMask(rows), s, e, k);
    assert Ratio(s - 1, e, k) == GapWeight(s, e, k);
    RatioInside(s - 1, e, k);
  }

  /** A row of a missing run is bridged exactly when the run is short and has observed rows on both sides. */
  lemma BridgedRowOnRun(rows: seq<Sample>, s: nat, e: nat, k: nat)
    requires IsRun(BothMissingMask(rows), s, e) && s <= k < e
    ensures BridgedRow(rows, k) == if e - s < BlinkMin && 0 < s && e < |rows| then Between(rows, s - 1, e, k) else rows[k]
  {
    RunUnique(BothMissingMask(rows), s, e, k);
  }

  /** A short gap while the gaze stays on one point is filled with that point. */
  lemma {:induction false} BridgedFillOfStillGaze(rows: seq<Sample>, s: nat, e: nat, k: nat, p: Point)
    requires IsRun(BothMissingMask(rows), s, e) && 0 < s && e < |rows| && e - s < BlinkMin && s <= k < e
    requires LeftPoint(rows[s - 1]) == Some(p) && LeftPoint(rows[e]) == Some(p)
    ensures LeftPoint(BridgedFill(rows)[k]) == Some(p)
  {
    BridgedFillOnSegment(rows, s, e, k);
  }

  /**
   * A recording whose missing rows still hold the tracker's last point
   * (9, 9): the source fills the middle row of the three-row gap from
   * those stale points, while the gap bounded by (0, 0) and (4, 4) should
   * hold (2, 2) there.
   */
  lemma AsWrittenFillIgnoresObservedBounds()
    ensures var rows := StaleGapExample();
            LeftPoint(AsWrittenFill(rows)[2]) == Some(Point(9.0, 9.0)) &&
            LeftPoint(BridgedFill(rows)[2]) == Some(Point(2.0, 2.0))
  {
    var rows := StaleGapExample();
    var m := BothMissingMask(rows);
    assert IsRun(m, 1, 4);
    RunUnique(m, 1, 4, 2);
    assert Ratio(1, 3, 2) == 0.5;
    assert Ratio(0, 4, 2) == 0.5;
  }

  /** Observed (0, 0), three rows missing in both eyes that hold (9, 9), observed (4, 4). */
  function StaleGapExample(): (rows: seq<Sample>)
    ensures |rows| == 5
  {
    var stale := Sample(Some(Point(9.0, 9.0)), Some(Point(9.0, 9.0)), 0, 0);
    [Sample(Some(Point(0.0, 0.0)), Some(Point(0.0, 0.0)), 1, 1), stale, stale, stale,
     Sample(Some(Point(4.0, 4.0)), Some(Point(4.0, 4.0)), 1, 1)]
  }

  /** The anchors of every short interior run carry a left-eye point; otherwise interpolation fails. */
  predicate AnchorsPresent(rows: seq<Sample>)
  {
    var m := BothMissingMask(rows);
    forall k :: 0 <= k < |rows| && m[k] && RunLength(m, k) < BlinkMin && 0 < RunStart(m, k) && RunEnd(m, k) < |rows| ==>
      LeftPoint(rows[RunStart(m, k) - 1]).Some? && LeftPoint(rows[RunEnd(m, k)]).Some?
  }

  class EyeMovement {
    /** The recording, one sample per row. */
    var data: seq<Sample>
    /** The label column. */
    var eyeState: seq<EyeState>

    /** Loading a recording runs the labelling pass at once. */
    constructor (recording: seq<Sample>, minDistSq: real)
      requires VelocityInputsPresent(recording) && AnchorsPresent(recording)
      ensures data == BridgedFill(recording)
      ensures eyeState == States(recording, minDistSq)
    {
      data := recording;
      eyeState := [];
      new;
      AddEyeState(minDistSq);
    }

    /**
     * Sets the left point of every row strictly between rows `a` and `b` to
     * the point at its offset on the segment between their left points.
     */
    method Interpolate(a: nat, b: nat)
      requires a <= b < |data|
      requires b - a >= 2 ==> LeftPoint(data[a]).Some? && LeftPoint(data[b]).Some?
      modifies this
      ensures eyeState == old(eyeState) && |data| == |old(data)|
      ensures forall k :: 0 <= k < |data| ==>
        data[k] == if a < k < b then Between(old(data), a, b, k) else old(data)[k]
    {
      if a < b {
        var p, q := LeftPoint(data[a]), LeftPoint(data[b]);
        for i := a + 1 to b
          invariant |data| == |old(data)| && eyeState == old(eyeState)
          invariant forall k :: 0 <= k < |data| ==>
            data[k] == if a < k < i then Between(old(data), a, b, k) else old(data)[k]
        {
          var ratio := (i - a) as real / (b - a) as real;
          data := data[i := WithPoint(data[i], Left, Lerp(p.value, q.value, ratio))];
        }
      }
    }

    /**
     * The single labelling pass, with each short interior run interpolated
     * between the observed rows that bound it.
     */
    method AddEyeState(minDistSq: real)
      requires VelocityInputsPresent(data) && AnchorsPresent(data)
      modifies this
      ensures data == BridgedFill(old(data))
      ensures eyeState == States(old(data), minDistSq)
    {
      ghost var rows := data;
      var states: seq<EyeState> := [];
      var i := 0;
      while i < |data|
        invariant Labelled(rows, minDistSq, states, i)
        decreases |rows| - i
      {
        if data[i].leftValidity == 0 && data[i].rightValidity == 0 {
          states, i := LabelMissingRun(rows, minDistSq, states, i);
        } else {
          states := LabelObservedRow(rows, minDistSq, states, i);
          i := i + 1;
        }
      }
      assert States(rows, minDistSq)[..i] == States(rows, minDistSq);
      assert data == BridgedFill(rows);
      eyeState := states;
    }

    /**
     * The pass has labelled the rows before `i` and interpolated the short
     * runs among them; the rows from `i` on are as they were, and `i` is
     * never inside a missing run.
     */
    ghost predicate Labelled(rows: seq<Sample>, minDistSq: real, states: seq<EyeState>, i: nat)
      reads this
    {
      var m := BothMissingMask(rows);
      && i <= |rows| && |data| == |rows|
      && (i < |rows| && m[i] ==> i == 0 || !m[i - 1])
      && states == States(rows, minDistSq)[..i]
      && (forall k :: 0 <= k < i ==> data[k] == BridgedRow(rows, k))
      && (forall k :: i <= k < |rows| ==> data[k] == rows[k])
    }

    /** Labels an observed row by its velocity to the next row, or Fixation on the last row. */
    method LabelObservedRow(ghost rows: seq<Sample>, minDistSq: real, states: seq<EyeState>, i: nat)
      returns (states': seq<EyeState>)
      requires VelocityInputsPresent(rows)
      requires Labelled(rows, minDistSq, states, i) && i < |data|
      requires !(data[i].leftValidity == 0 && data[i].rightValidity == 0)
      ensures Labelled(rows, minDistSq, states', i + 1)
    {
      var st := Fixation;
      if i + 1 < |data| {
        var p, q := LeftPoint(data[i]), LeftPoint(data[i + 1]);
        if IsSaccade(Velocity(minDistSq), p.value, q.value) {
          st := Saccade;
        }
      }
      ghost var target := States(rows, minDistSq);
      assert target[..i + 1] == target[..i] + [target[i]];
      states' := states + [st];
    }

    /**
     * Labels the whole missing run starting at row `i` and interpolates it
     * when it is short; returns the row after the run.
     */
    method LabelMissingRun(ghost rows: seq<Sample>, minDistSq: real, states: seq<EyeState>, i: nat)
      returns (states': seq<EyeState>, i': nat)
      requires AnchorsPresent(rows)
      requires Labelled(rows, minDistSq, states, i) && i < |data|
      requires data[i].leftValidity == 0 && data[i].rightValidity == 0
      modifies this
      ensures i < i' && Labelled(rows, minDistSq, states', i')
    {
      ghost var m := BothMissingMask(rows);
      var n := |data|;
      i' := i;
      while i' < n && data[i'].leftValidity == 0 && data[i'].rightValidity == 0
        invariant i <= i' <= n
        invariant forall k :: i <= k < i' ==> m[k]
      {
        i' := i' + 1;
      }
      assert IsRun(m, i, i');
      RunLabels(rows, minDistSq, i, i');
      if i' - i < BlinkMin {
        states' := states + seq(i' - i, _ => Error);
      } else {
        states' := states + seq(i' - i, _ => Blink);
      }
      SettleRun(rows, i, i');
    }

    /** The labels of a whole missing run `[s, e)`: Error when it is shorter than six rows, Blink otherwise. */
    lemma RunLabels(rows: seq<Sample>, minDistSq: real, s: nat, e: nat)
      requires IsRun(BothMissingMask(rows), s, e)
      ensures States(rows, minDistSq)[..e]
           == States(rows, minDistSq)[..s] + seq(e - s, _ => if e - s < BlinkMin then Error else Blink)
    {
      forall k | s <= k < e
        ensures States(rows, minDistSq)[k] == (if e - s < BlinkMin then Error else Blink)
      {
        RunUnique(BothMissingMask(rows), s, e, k);
      }
    }

    /**
     * Interpolates the missing run `[s, e)` when it is short and bounded by
     * observed rows on both sides; every other run is left as it is.
     */
    method SettleRun(ghost rows: seq<Sample>, s: nat, e: nat)
      requires IsRun(BothMissingMask(rows), s, e) && |data| == |rows| && AnchorsPresent(rows)
      requires forall k :: 0 <= k < s ==> data[k] == BridgedRow(rows, k)
      requires forall k :: s <= k < |data| ==> data[k] == rows[k]
      modifies this
      ensures eyeState == old(eyeState) && |data| == |rows|
      ensures forall k :: 0 <= k < e ==> data[k] == BridgedRow(rows, k)
      ensures forall k :: e <= k < |data| ==> data[k] == rows[k]
    {
      if e - s < BlinkMin && 0 < s && e < |data| {
        assert LeftPoint(rows[s - 1]).Some? && LeftPoint(rows[e]).Some? && data[s - 1] == rows[s - 1] by {
          RunUnique(BothMissingMask(rows), s, e, s);
        }
        forall k | s <= k < e
          ensures BridgedRow(rows, k) == Between(data, s - 1, e, k)
        {
          BridgedRowOnRun(rows, s, e, k);
        }
        Interpolate(s - 1, e);
      } else {
        forall k | s <= k < e
          ensures BridgedRow(rows, k) == rows[k]
        {
          BridgedRowOnRun(rows, s, e, k);
        }
      }
    }
  }
}
