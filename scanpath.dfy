/**
 * The scanpath of one image: the fixation centres recorded while the image
 * was shown are converted to pixels, missing ones are dropped, and runs of
 * equal consecutive centres are merged into one dwell with its length in
 * samples; the longest dwell scales the drawing.
 */
module Scanpath {
  import opened Gaze

  const DefaultDisplayWidth: real := 1920.0
  const DefaultDisplayHeight: real := 1080.0

  /** One row of the synchronised recording: the stimulus shown and the fixation-centre tuple. */
  datatype CenterRow = CenterRow(stimulus: Option<string>, center: seq<Option<real>>)

  /** A merged run of equal consecutive centres and its length in samples. */
  datatype Dwell = Dwell(point: Point, count: nat)

  /**
   * A centre tuple in display pixels; a tuple that is not a pair, or has a
   * missing component, is missing.
   */
  function ToPixel(coord: seq<Option<real>>, width: real, height: real): (r: Option<Point>)
    ensures r.Some? <==> |coord| == 2 && coord[0].Some? && coord[1].Some?
  {
    if |coord| != 2 || coord[0].None? || coord[1].None? then None
    else Some(Point(coord[0].value * width, coord[1].value * height))
  }

  /** On a display of positive size, a pixel position maps back to the recorded normalised centre. */
  lemma ToPixelInvertible(coord: seq<Option<real>>, width: real, height: real)
    requires width > 0.0 && height > 0.0
    requires ToPixel(coord, width, height).Some?
    ensures var p := ToPixel(coord, width, height).value;
            p.x / width == coord[0].value && p.y / height == coord[1].value
  {
  }

  /** The pixel centres of the rows recorded while `image` was shown, in order. */
  function SelectedCenters(rows: seq<CenterRow>, image: string, width: real, height: real): (r: seq<Option<Point>>)
    ensures |r| <= |rows|
  {
    if rows == [] then []
    else
      var last := rows[|rows| - 1];
      SelectedCenters(rows[..|rows| - 1], image, width, height)
      + (if last.stimulus == Some(image) then [ToPixel(last.center, width, height)] else [])
  }

  /** The present centres, in order. */
  function Present(cs: seq<Option<Point>>): (r: seq<Point>)
    ensures |r| <= |cs|
  {
    if cs == [] then []
    else Present(cs[..|cs| - 1]) + (if cs[|cs| - 1].Some? then [cs[|cs| - 1].value] else [])
  }

  /** Dropping missing centres distributes over a split, so the order is kept. */
  lemma {:induction false} PresentSplit(a: seq<Option<Point>>, b: seq<Option<Point>>)
    ensures Present(a + b) == Present(a) + Present(b)
    decreases |b|
  {
    if b == [] {
      assert a + b == a;
    } else {
      var b' := b[..|b| - 1];
      assert (a + b)[..|a + b| - 1] == a + b';
      PresentSplit(a, b');
    }
  }

  /** A point survives the filter exactly when it was present. */
  lemma {:induction false} PresentMembership(cs: seq<Option<Point>>, p: Point)
    ensures p in Present(cs) <==> Some(p) in cs
  {
    if cs != [] {
      var init := cs[..|cs| - 1];
      PresentMembership(init, p);
      assert cs == init + [cs[|cs| - 1]];
    }
  }

  /** The centres a run of dwells stands for. */
  function Expand(ds: seq<Dwell>): seq<Point>
  {
    if ds == [] then [] else Expand(ds[..|ds| - 1]) + seq(ds[|ds| - 1].count, _ => ds[|ds| - 1].point)
  }

  /** Every dwell covers at least one sample, and neighbouring dwells are at different points. */
  predicate WellFormed(ds: seq<Dwell>)
  {
    && (forall k :: 0 <= k < |ds| ==> ds[k].count >= 1)
    && (forall k :: 0 < k < |ds| ==> ds[k - 1].point != ds[k].point)
  }

  /** Appending one dwell appends its samples. */
  lemma ExpandAppend(ds: seq<Dwell>, d: Dwell)
    ensures Expand(ds + [d]) == Expand(ds) + seq(d.count, _ => d.point)
  {
    assert (ds + [d])[..|ds|] == ds;
  }

  /** The last sample a non-empty well-formed encoding stands for is its last dwell's point. */
  lemma ExpandLast(ds: seq<Dwell>)
    requires WellFormed(ds) && ds != []
    ensures |Expand(ds)| > 0 && Expand(ds)[|Expand(ds)| - 1] == ds[|ds| - 1].point
  {
  }

  /**
   * The centres the source's loop keeps: all of them when the last centre
   * repeats its predecessor, otherwise all but the last.
   */
  function AsWrittenCoverage(f: seq<Point>): (r: seq<Point>)
  {
    if |f| >= 2 && f[|f| - 1] == f[|f| - 2] then f
    else if f == [] then []
    else f[..|f| - 1]
  }

  /**
   * Two different centres give a single dwell: the last centre, a run of
   * one, is lost, so the encoding does not stand for the centres it was
   * given.
   */
  lemma AsWrittenDropsLastCentre(a: Point, b: Point)
    requires a != b
    ensures AsWrittenCoverage([a, b]) == [a]
    ensures AsWrittenCoverage([a, b]) != [a, b]
  {
  }

  /** Appending the dwell of a run that starts where the encoding ends extends the centres it stands for. */
  lemma {:induction false} AppendRun(f: seq<Point>, out: seq<Dwell>, start: nat, idx: nat)
    requires start <= idx < |f|
    requires WellFormed(out) && Expand(out) == f[..start]
    requires out != [] ==> 0 < start && out[|out| - 1].point == f[start - 1] && f[start - 1] != f[start]
    requires forall k :: start <= k <= idx ==> f[k] == f[start]
    ensures WellFormed(out + [Dwell(f[start], idx - start + 1)])
    ensures Expand(out + [Dwell(f[start], idx - start + 1)]) == f[..idx + 1]
  {
    ExpandAppend(out, Dwell(f[start], idx - start + 1));
    assert f[..idx + 1] == f[..start] + seq(idx - start + 1, _ => f[start]);
  }

  /** The last index of the run of centres equal to `f[start]` that begins at `start`. */
  method RunEndFrom(f: seq<Point>, start: nat) returns (idx: nat)
    requires start < |f|
    ensures start <= idx < |f|
    ensures forall k :: start <= k <= idx ==> f[k] == f[start]
    ensures idx + 1 == |f| || f[idx] != f[idx + 1]
  {
    idx := start;
    while idx + 1 < |f| && f[idx] == f[idx + 1]
      invariant start <= idx < |f|
      invariant forall k :: start <= k <= idx ==> f[k] == f[start]
      decreases |f| - idx
    {
      idx := idx + 1;
    }
  }

  /**
   * The compression loop as the source writes it: it stops one short of
   * the end, so a last centre that differs from its predecessor is never
   * emitted.
   */
  method CompressAsWritten(f: seq<Point>) returns (out: seq<Dwell>)
    ensures WellFormed(out)
    ensures Expand(out) == AsWrittenCoverage(f)
  {
    out := [];
    var idx := 0;
    while idx + 1 < |f|
      invariant idx <= |f|
      invariant idx == |f| > 0 ==> |f| >= 2 && f[|f| - 1] == f[|f| - 2]
      invariant WellFormed(out) && Expand(out) == f[..idx]
      invariant idx == 0 || idx == |f| || f[idx - 1] != f[idx]
      invariant out != [] ==> 0 < idx && out[|out| - 1].point == f[idx - 1]
      decreases |f| - idx
    {
      var start := idx;
      idx := RunEndFrom(f, start);
      AppendRun(f, out, start, idx);
      out := out + [Dwell(f[start], idx - start + 1)];
      idx := idx + 1;
    }
    if idx == |f| {
      assert f[..idx] == f;
    } else if |f| >= 2 {
      assert f[|f| - 2] != f[|f| - 1];
    }
  }

  /** The compression loop run to the end: every centre is covered by exactly its dwell. */
  method Compress(f: seq<Point>) returns (out: seq<Dwell>)
    ensures WellFormed(out)
    ensures Expand(out) == f
  {
    out := [];
    var idx := 0;
    while idx < |f|
      invariant idx <= |f|
      invariant WellFormed(out) && Expand(out) == f[..idx]
      invariant idx == 0 || idx == |f| || f[idx - 1] != f[idx]
      invariant out != [] ==> 0 < idx && out[|out| - 1].point == f[idx - 1]
      decreases |f| - idx
    {
      var start := idx;
      idx := RunEndFrom(f, start);
      AppendRun(f, out, start, idx);
      out := out + [Dwell(f[start], idx - start + 1)];
      idx := idx + 1;
    }
    assert f[..idx] == f;
  }

  /** The longest dwell. */
  function MaxCount(ds: seq<Dwell>): (m: nat)
    requires ds != []
    ensures forall k :: 0 <= k < |ds| ==> ds[k].count <= m
    ensures exists k :: 0 <= k < |ds| && ds[k].count == m
  {
    if |ds| == 1 then ds[0].count
    else
      var m' := MaxCount(ds[..|ds| - 1]);
      if ds[|ds| - 1].count > m' then ds[|ds| - 1].count else m'
  }

  class GazeScanpath {
    var imageName: string
    var displayWidth: real
    var displayHeight: real
    /** The dwells to draw, in order. */
    var gazeData: seq<Dwell>
    /** The longest dwell, once computed. */
    var maxDuration: Option<nat>

    constructor (image: string, width: real, height: real)
      ensures imageName == image && displayWidth == width && displayHeight == height
      ensures gazeData == [] && maxDuration == None
    {
      imageName := image;
      displayWidth := width;
      displayHeight := height;
      gazeData := [];
      maxDuration := None;
    }

    /**
     * Selects the image's rows, converts and filters their centres, merges
     * equal consecutive centres and records the longest dwell; the result
     * is false, and no longest dwell is recorded, when no dwell remains.
     */
    method Run(rows: seq<CenterRow>) returns (ok: bool)
      modifies this
      ensures imageName == old(imageName) && displayWidth == old(displayWidth) && displayHeight == old(displayHeight)
      ensures WellFormed(gazeData)
      ensures Expand(gazeData) == Present(SelectedCenters(rows, imageName, displayWidth, displayHeight))
      ensures ok <==> gazeData != []
      ensures maxDuration == if ok then Some(MaxCount(gazeData)) else old(maxDuration)
    {
      var centres := Present(SelectedCenters(rows, imageName, displayWidth, displayHeight));
      gazeData := Compress(centres);
      ok := gazeData != [];
      if ok {
        maxDuration := Some(MaxCount(gazeData));
      }
    }
  }
}
