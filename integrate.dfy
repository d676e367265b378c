/**
 * Alignment of the gaze recording with the stimulus log: every image onset
 * is matched to the gaze sample closest in time by one forward scan, and
 * from there the stimulus column gets 60 fixation-cross frames, 180 image
 * frames and 60 grey frames.
 */
module Integration {
  import opened Gaze

  const FixationCrossFrames: nat := 60
  const ImageFrames: nat := 180
  const GreyFrames: nat := 60
  /** The frames one image occupies in the stimulus column. */
  const BlockFrames: nat := FixationCrossFrames + ImageFrames + GreyFrames
  /** The starting value of the smallest time difference seen by a scan. */
  const InitialMinDiff: real := 10000000000000000.0

  /** What the screen showed at one gaze sample. */
  datatype Stimulus = Cross | Image(name: string) | Grey

  /** One row of the stimulus log: a file name and its onset in seconds. */
  datatype StimulusRow = StimulusRow(imageName: string, timestamp: real)

  /** The stimulus column under construction and the scan position. */
  datatype Sync = Sync(stimuli: seq<Option<Stimulus>>, idx: int)

  function Abs(x: real): real
  {
    if x < 0.0 then -x else x
  }

  predicate EndsWithJpg(s: string)
  {
    |s| >= 4 && s[|s| - 4..] == ".jpg"
  }

  /** The log rows that name a `.jpg` file, in log order. */
  function JpgRows(rows: seq<StimulusRow>): (r: seq<StimulusRow>)
    ensures |r| <= |rows|
  {
    if rows == [] then []
    else JpgRows(rows[..|rows| - 1]) + (if EndsWithJpg(rows[|rows| - 1].imageName) then [rows[|rows| - 1]] else [])
  }

  /** Extraction distributes over a split of the log, so the order of the log is kept. */
  lemma {:induction false} JpgRowsSplit(a: seq<StimulusRow>, b: seq<StimulusRow>)
    ensures JpgRows(a + b) == JpgRows(a) + JpgRows(b)
    decreases |b|
  {
    if b == [] {
      assert a + b == a;
    } else {
      var b' := b[..|b| - 1];
      assert (a + b)[..|a + b| - 1] == a + b';
      JpgRowsSplit(a, b');
    }
  }

  /** A row is extracted exactly when it is in the log and names a `.jpg` file. */
  lemma {:induction false} JpgRowsMembership(rows: seq<StimulusRow>, r: StimulusRow)
    ensures r in JpgRows(rows) <==> r in rows && EndsWithJpg(r.imageName)
  {
    if rows != [] {
      var init := rows[..|rows| - 1];
      JpgRowsMembership(init, r);
      assert rows == init + [rows[|rows| - 1]];
    }
  }

  /**
   * Where the scan for an onset at time `t` stops when it starts at row `i`
   * with the smallest difference so far `minDiff`: it advances while the
   * difference strictly decreases.
   */
  function ScanEnd(ts: seq<real>, t: real, i: nat, minDiff: real): (e: nat)
    ensures i <= e && (i <= |ts| ==> e <= |ts|)
    decreases |ts| - i
  {
    if i < |ts| && minDiff > Abs(ts[i] - t) then ScanEnd(ts, t, i + 1, Abs(ts[i] - t)) else i
  }

  predicate StrictlyIncreasing(ts: seq<real>)
  {
    forall i, j :: 0 <= i < j < |ts| ==> ts[i] < ts[j]
  }

  /**
   * On increasing timestamps, once the difference to `t` stops decreasing
   * it never decreases again.
   */
  lemma DifferenceTurnsOnce(ts: seq<real>, t: real, i: nat, k: nat)
    requires StrictlyIncreasing(ts) && i + 1 < k < |ts|
    requires Abs(ts[i] - t) <= Abs(ts[i + 1] - t)
    ensures Abs(ts[i + 1] - t) <= Abs(ts[k] - t)
  {
  }

  /**
   * The scan stops just past the sample closest to `t` among the samples it
   * can reach: the row before its stop has the smallest difference of all
   * rows from where it started, and that difference is below `minDiff`.
   */
  lemma {:induction false} ScanFindsClosest(ts: seq<real>, t: real, i: nat, minDiff: real)
    requires StrictlyIncreasing(ts) && i <= |ts|
    ensures var e := ScanEnd(ts, t, i, minDiff);
            e > i ==> Abs(ts[e - 1] - t) < minDiff &&
                      forall k :: i <= k < |ts| ==> Abs(ts[e - 1] - t) <= Abs(ts[k] - t)
    decreases |ts| - i
  {
    if i < |ts| && minDiff > Abs(ts[i] - t) {
      var d := Abs(ts[i] - t);
      var e := ScanEnd(ts, t, i + 1, d);
      ScanFindsClosest(ts, t, i + 1, d);
      if e == i + 1 {
        forall k | i + 1 < k < |ts|
          ensures d <= Abs(ts[k] - t)
        {
          DifferenceTurnsOnce(ts, t, i, k);
        }
      }
    }
  }

  /** The frames laid down for one image: fixation cross, the image, grey screen. */
  function Block(name: string): (b: seq<Option<Stimulus>>)
    ensures |b| == BlockFrames
  {
    seq(FixationCrossFrames, _ => Some(Cross)) + seq(ImageFrames, _ => Some(Image(name))) + seq(GreyFrames, _ => Some(Grey))
  }

  function Nones(k: nat): (r: seq<Option<Stimulus>>)
    ensures |r| == k
  {
    seq(k, _ => None)
  }

  /**
   * One image onset: scan forward to the closest sample adding an empty
   * entry per row passed, step back one row (dropping the last entry when
   * there is one), lay down the image's block and skip its frames.
   */
  function Step(ts: seq<real>, s: Sync, onset: StimulusRow): (r: Sync)
    requires s.idx >= 0
    ensures r.idx >= BlockFrames - 1
  {
    var e := ScanEnd(ts, onset.timestamp, s.idx, InitialMinDiff);
    var scanned := s.stimuli + Nones(e - s.idx);
    var rolled := if |scanned| > 0 then scanned[..|scanned| - 1] else scanned;
    Sync(rolled + Block(onset.imageName), e - 1 + BlockFrames)
  }

  /** All onsets in turn from the state `s0`. */
  function Align(ts: seq<real>, onsets: seq<StimulusRow>, s0: Sync): (r: Sync)
    requires s0.idx >= 0
    ensures r.idx >= 0
  {
    if onsets == [] then s0 else Step(ts, Align(ts, onsets[..|onsets| - 1], s0), onsets[|onsets| - 1])
  }

  /**
   * When the column is as long as the scan position and not empty, one
   * onset keeps them equal: the block starts at the closest sample, and
   * every entry the scan added before it is empty.
   */
  lemma StepLayout(ts: seq<real>, s: Sync, onset: StimulusRow)
    requires s.idx >= 0 && |s.stimuli| == s.idx && (s.idx > 0 || ScanEnd(ts, onset.timestamp, 0, InitialMinDiff) > 0)
    ensures var e := ScanEnd(ts, onset.timestamp, s.idx, InitialMinDiff);
            var r := Step(ts, s, onset);
            && |r.stimuli| == r.idx
            && r.stimuli[..e - 1] == (s.stimuli + Nones(e - s.idx))[..e - 1]
            && r.stimuli[e - 1..] == Block(onset.imageName)
  {
  }

  /**
   * On increasing timestamps, the block of an onset starts at the sample
   * closest in time to the onset among all samples from the scan's start.
   */
  lemma BlockStartsAtClosestSample(ts: seq<real>, s: Sync, onset: StimulusRow)
    requires StrictlyIncreasing(ts) && s.idx >= 0 && |s.stimuli| == s.idx && s.idx < |ts|
    requires Abs(ts[s.idx] - onset.timestamp) < InitialMinDiff
    ensures var r := Step(ts, s, onset);
            var c := r.idx - BlockFrames;
            && s.idx <= c < |ts|
            && r.stimuli[c..] == Block(onset.imageName)
            && forall k :: s.idx <= k < |ts| ==> Abs(ts[c] - onset.timestamp) <= Abs(ts[k] - onset.timestamp)
  {
    StepLayout(ts, s, onset);
    ScanFindsClosest(ts, onset.timestamp, s.idx, InitialMinDiff);
  }

  /**
   * With a non-empty recording whose first sample is within the initial
   * difference of the first onset, the column stays exactly as long as the
   * scan position after every onset.
   */
  lemma {:induction false} AlignLengthMatchesIndex(ts: seq<real>, onsets: seq<StimulusRow>)
    requires |ts| > 0 && |onsets| > 0 && Abs(ts[0] - onsets[0].timestamp) < InitialMinDiff
    ensures |Align(ts, onsets, Sync([], 0)).stimuli| == Align(ts, onsets, Sync([], 0)).idx
  {
    var init := onsets[..|onsets| - 1];
    var s := Align(ts, init, Sync([], 0));
    if init == [] {
      StepLayout(ts, s, onsets[0]);
    } else {
      assert init[0] == onsets[0];
      AlignLengthMatchesIndex(ts, init);
      StepLayout(ts, s, onsets[|onsets| - 1]);
    }
  }

  /** The column padded with empty entries up to the recording's length. */
  function Padded(stimuli: seq<Option<Stimulus>>, n: nat): (r: seq<Option<Stimulus>>)
    ensures |r| == if |stimuli| < n then n else |stimuli|
    ensures r[..|stimuli|] == stimuli
    ensures forall k :: |stimuli| <= k < |r| ==> r[k] == None
  {
    if |stimuli| < n then stimuli + Nones(n - |stimuli|) else stimuli
  }

  /**
   * The scan and block placement for one onset, on the column `col` and the
   * scan position `idx`.
   */
  method AlignOnset(ts: seq<real>, col: seq<Option<Stimulus>>, idx: int, onset: StimulusRow)
    returns (col': seq<Option<Stimulus>>, idx': int)
    requires idx >= 0
    ensures Sync(col', idx') == Step(ts, Sync(col, idx), onset)
  {
    var n := |ts|;
    var t := onset.timestamp;
    var minDiff := InitialMinDiff;
    col', idx' := col, idx;
    while idx' < n && minDiff > Abs(ts[idx'] - t)
      invariant idx <= idx'
      invariant ScanEnd(ts, t, idx', minDiff) == ScanEnd(ts, t, idx, InitialMinDiff)
      invariant col' == col + Nones(idx' - idx)
      decreases n - idx'
    {
      minDiff := Abs(ts[idx'] - t);
      idx' := idx' + 1;
      col' := col' + [None];
    }
    idx' := idx' - 1;
    if |col'| > 0 {
      col' := col'[..|col'| - 1];
    }
    col' := col' + Block(onset.imageName);
    idx' := idx' + BlockFrames;
  }

  class DataIntegration {
    /** The gaze samples' timestamps, in seconds. */
    var emTimestamps: seq<real>
    /** The stimulus log. */
    var stimuliData: seq<StimulusRow>
    /** The image onsets extracted from the log. */
    var imgTimestamp: seq<StimulusRow>
    /** The stimulus column under construction. */
    var stimuli: seq<Option<Stimulus>>
    /** The stimulus column attached to the gaze recording, once it fits. */
    var stimuliColumn: Option<seq<Option<Stimulus>>>

    constructor (emData: seq<real>, stimuliLog: seq<StimulusRow>)
      ensures emTimestamps == emData && stimuliData == stimuliLog
      ensures imgTimestamp == [] && stimuli == [] && stimuliColumn == None
    {
      emTimestamps := emData;
      stimuliData := stimuliLog;
      imgTimestamp := [];
      stimuli := [];
      stimuliColumn := None;
    }

    /** Collects the `.jpg` rows of the log, in order. */
    method ExtractImageTimestamp()
      modifies this
      ensures imgTimestamp == JpgRows(stimuliData)
      ensures emTimestamps == old(emTimestamps) && stimuliData == old(stimuliData)
      ensures stimuli == old(stimuli) && stimuliColumn == old(stimuliColumn)
    {
      imgTimestamp := [];
      var rows := stimuliData;
      for i := 0 to |rows|
        invariant emTimestamps == old(emTimestamps) && stimuliData == old(stimuliData) == rows
        invariant stimuli == old(stimuli) && stimuliColumn == old(stimuliColumn)
        invariant imgTimestamp == JpgRows(rows[..i])
      {
        assert rows[..i + 1][..i] == rows[..i];
        if EndsWithJpg(rows[i].imageName) {
          imgTimestamp := imgTimestamp + [rows[i]];
        }
      }
      assert rows[..|rows|] == rows;
    }

    /**
     * Drops the first onset, aligns the others with the recording, pads the
     * column to the recording's length and attaches it; the result is false,
     * and nothing is attached, when the column came out longer than the
     * recording.
     */
    method FindClosestEmTimestamp() returns (ok: bool)
      requires |imgTimestamp| > 0
      modifies this
      ensures imgTimestamp == old(imgTimestamp)[1..]
      ensures stimuli == Padded(Align(emTimestamps, imgTimestamp, Sync(old(stimuli), 0)).stimuli, |emTimestamps|)
      ensures ok <==> |stimuli| == |emTimestamps|
      ensures stimuliColumn == if ok then Some(stimuli) else old(stimuliColumn)
      ensures emTimestamps == old(emTimestamps) && stimuliData == old(stimuliData)
    {
      imgTimestamp := imgTimestamp[1..];
      var n := |emTimestamps|;
      var col, idx := AlignAll(emTimestamps, imgTimestamp, stimuli);
      if |col| < n {
        col := col + Nones(n - |col|);
      }
      stimuli := col;
      ok := |col| == n;
      if ok {
        stimuliColumn := Some(col);
      }
    }

    /** The alignment loop over every onset, from an empty index, as a value. */
    static method AlignAll(ts: seq<real>, onsets: seq<StimulusRow>, col0: seq<Option<Stimulus>>)
      returns (col: seq<Option<Stimulus>>, idx: int)
      ensures Sync(col, idx) == Align(ts, onsets, Sync(col0, 0))
    {
      col, idx := col0, 0;
      for j := 0 to |onsets|
        invariant Sync(col, idx) == Align(ts, onsets[..j], Sync(col0, 0))
      {
        assert onsets[..j + 1][..j] == onsets[..j];
        col, idx := AlignOnset(ts, col, idx, onsets[j]);
      }
      assert onsets[..|onsets|] == onsets;
    }

    /** Extraction followed by alignment. */
    method Run() returns (ok: bool)
      requires |JpgRows(stimuliData)| > 0
      modifies this
      ensures emTimestamps == old(emTimestamps) && stimuliData == old(stimuliData)
      ensures imgTimestamp == JpgRows(stimuliData)[1..]
      ensures stimuli == Padded(Align(emTimestamps, imgTimestamp, Sync(old(stimuli), 0)).stimuli, |emTimestamps|)
      ensures ok <==> |stimuli| == |emTimestamps|
      ensures stimuliColumn == if ok then Some(stimuli) else old(stimuliColumn)
    {
      ExtractImageTimestamp();
      ok := FindClosestEmTimestamp();
    }
  }
}
