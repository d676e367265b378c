# EyeTracker gaze classification, in Dafny

This project models the analysis core of the EyeTracker experiment software. That core has three parts.

**Sample classifier.** It labels each sample of a 60 Hz gaze recording as Fixation, Saccade, Blink or Error, and computes the centre of each fixation. The repository keeps five versions of it:
- the batch preprocessing script;
- the single-file analysis script under `EM_Analysis/Code`;
- the older analysis script at the top of `EM_Analysis`;
- two dated backups.

**Stimulus alignment.** This step matches every image onset in the stimulus log to the closest gaze sample. It then lays down a 60-frame fixation cross, 180 image frames and 60 grey frames.

**Scanpath compression.** This step merges equal consecutive fixation centres into dwells.

## Module layout

Shared modules:
- `Gaze`: samples, points, eyes, labels, the velocity test and the centroid.
- `Runs`: maximal runs of a boolean mask.
- `Stages`: one specification function per classification stage, with the stage's lemmas.
- `Classifier`: the `EyeMovement` class. Its methods are the stages. Each stage method is a loop that is proved equal to its `Stages` function. A version's thresholds and switches are passed as parameters.

Version modules:
- `Preprocess`, `CodeMain`, `AnalysisMain` and `Backup231006` run the class with their version's constants and prove that version's end-to-end properties.
- `Pipeline` holds what the two recoding versions share.
- `Backup231005` is the single-pass classifier of the 5 October backup.

The last two parts are `Integration` and `Scanpath`.

## Modelling choices

**Velocity test.** Every velocity test takes a square root, and most take a tangent or an arctangent. The model compares the squared displacement, scaled to millimetres, with a squared threshold `minDistSq`. Because both sides are non-negative, this is the same test.
- Where the threshold involves `tan` or `pi`, `minDistSq` is a parameter.
- The 6 October backup's threshold is exact (0.25). `Backup231006.VelocityTestMatches` proves that its `v * 60 >= 30` test and the squared comparison agree.

**Points and labels.**
- A coordinate that is missing or unparseable is `None`.
- Validity is the integer column: 0 missing, 1 observed, 2 interpolated.
- 'Error' and 'Error State' are both the label `Error`.

**Fixation length.** Every version's minimum fixation test is `run length > 6` frames. This includes the millisecond and second forms in the backup and in `EM_Analysis/main.py`: 6 frames is exactly 100 ms, and the test is strict.

**Where the code and the specification differ, the model follows the code:**
- No modelled file contains a pass that turns `[Saccade, Error, Saccade]` into three Saccades, so there is none.
- An unparseable coordinate becomes `(None, None)` with its validity left unchanged.
- Nothing checks configuration constants.

## Model

| member | source | states |
|---|---|---|
| Gaze.CentroidOfConstant | EM_Analysis/Code/preprocess.py:156-159 | the mean of a fixation whose samples all sit at one point is that point |
| Gaze.CentroidWithinBox | EM_Analysis/Code/preprocess.py:156-159 | a fixation's centre lies inside the bounding box of its samples |
| Stages.ValiditySumDominated | EM_Analysis/Code/preprocess.py:58-59 | a validity column that is row by row no larger has no larger sum, and a strictly smaller sum when one row is smaller |
| Stages.DominantLeftEyeChosen | EM_Analysis/Code/preprocess.py:57-60 | the left eye is chosen when its validity is at least the right's on every row and larger on one |
| Stages.RightEyeChosenUnlessLeftDominates | EM_Analysis/Code/preprocess.py:57-60 | ties, and recordings where the right eye is never less valid, choose the right eye |
| Stages.SwappedSums | EM_Analysis/Code/preprocess.py:58-59 | exchanging the eyes' validity columns exchanges the two sums |
| Stages.GapFillInGap | EM_Analysis/Code/preprocess.py:79-90 | each row of an interior missing run of at most `maxGap` rows becomes the point at weight (j - s + 1)/(L + 1) between the bounding observed points |
| Stages.GapFillOnRun | EM_Analysis/Code/preprocess.py:77-90 | such a row's point lies on that segment; its validity becomes 2 when recoding and stays otherwise; the other eye is untouched |
| Stages.GapFillKeeps | EM_Analysis/Code/preprocess.py:68-92 | observed rows, runs longer than `maxGap` and runs touching either end are left unchanged |
| Stages.FilledMask | EM_Analysis/Code/preprocess.py:77-90 | after recoding, a row is missing exactly when it was missing and not in a short interior run |
| Stages.GapFillClosesShortGaps | EM_Analysis/Code/preprocess.py:77-90 | every missing run left after recoding touches an end or is longer than `maxGap` |
| Stages.ObservedPointsBoundGaps | EM_Analysis/Code/preprocess.py:79-81 | when observed rows carry points, every interpolated run has both bounding points |
| Stages.ObservedPointsSurviveRecode | EM_Analysis/Code/preprocess.py:84-90 | recoding keeps every observed or recoded row with a point |
| Stages.GapFillWithoutRecodeKeepsValidity | EM_Analysis/main.py:52-63 | interpolation without recoding leaves both validity columns, and so the both-eyes-missing mask, unchanged |
| Stages.MidpointFillIsGapFillOfOne | EM_Analysis/Backup/231006.py:20-29 | replacing each isolated missing row by its neighbours' midpoint is interpolation of gaps of one row without recoding |
| Stages.BlinkLabelsOnRun | EM_Analysis/Code/preprocess.py:99-111 | every row of a maximal missing run is Blink when the run has at least `blinkMin` rows, Error otherwise |
| Stages.BlinkLabelsUnsetIffPresent | EM_Analysis/Code/preprocess.py:99-114 | the blink pass leaves a row unset exactly when it is not missing, and never writes Saccade or Fixation |
| Stages.StreamingBlinkOnRun | EM_Analysis/Backup/231006.py:31-42 | the k-th row of a missing run (from 1) is Blink exactly when k reaches `blinkMin`, Error before |
| Stages.StreamingAgreesOnShortRuns | EM_Analysis/Backup/231006.py:31-42 | on runs shorter than `blinkMin`, the counting pass and the run pass both give Error |
| Stages.StreamingStep | EM_Analysis/Backup/231006.py:33-42 | given the count of missing rows before a row, the counting pass labels it by that count plus one and passes on the next count |
| Stages.MarkSaccadesOnlyFillsUnset | EM_Analysis/Code/preprocess.py:117-133 | the velocity pass only turns unset rows before the last into Saccade and keeps every other label |
| Stages.FillFixation | EM_Analysis/Code/preprocess.py:135-138 | after the default pass no row is unset, and every set label is kept |
| Stages.FixationRowsNotMissing | EM_Analysis/Code/preprocess.py:95-138 | a row labelled Fixation after the blink, velocity and default passes is never a missing row |
| Stages.UnsetPointsCoverCentroids | EM_Analysis/main.py:93-136 | when the rows the velocity pass reads carry points, every Fixation row has a point to average |
| Stages.CentersOnRun | EM_Analysis/Code/preprocess.py:140-162 | a row of a Fixation run gets the run's mean exactly when the run is longer than `minLen` and is closed, either by a later label or by the end sentinel |
| Stages.CentersOnClosedRun | EM_Analysis/Code/preprocess.py:148-161 | all rows of a closed Fixation run get the same centre, or none when the run is short |
| Stages.CentersOnlyOnFixations | EM_Analysis/Code/preprocess.py:148-161 | only Fixation rows ever get a centre |
| Stages.FixationCentersByRuns | EM_Analysis/Code/preprocess.py:148-161 | the centre column meets its run-by-run description: closed runs get their mean when long enough, other rows nothing |
| Stages.OpenRunHasNoCenter | EM_Analysis/main.py:123-138 | without the sentinel, a Fixation run reaching the last row gets no centre |
| Stages.StaticFixationCenter | EM_Analysis/Code/preprocess.py:156-161 | a qualifying fixation at one point has that point as its centre |
| Stages.FinalLabelsTotal | EM_Analysis/Code/preprocess.py:164-167 | after the error pass every row has a label, and a row has a centre exactly when it is Fixation |
| Pipeline.LabelFromBlinkPass | EM_Analysis/Code/preprocess.py:117-138 | a Blink or Error label of the composed passes was already written by the blink pass |
| Pipeline.ErrorsTouchEdges | EM_Analysis/Code/preprocess.py:65-111 | an Error row lies in a still-missing run that touches the first or the last row |
| Pipeline.LongGapsAreBlinks | EM_Analysis/Code/preprocess.py:65-111 | a missing run longer than the interpolation limit is Blink on every row |
| Pipeline.ShortGapsClassifiedByVelocity | EM_Analysis/Code/preprocess.py:65-133 | a row of an interpolated interior gap is Saccade or Fixation, never Blink or Error |
| Pipeline.RecodedFixationsHavePoints | EM_Analysis/Code/preprocess.py:84-161 | when observed rows carry points, the centre pass never averages a missing point |
| Classifier.EyeMovement.constructor | EM_Analysis/Code/preprocess.py:34-41 | a new classifier holds the recording, no eye choice, no labels and no centres |
| Classifier.EyeMovement.DecideEyeToUse | EM_Analysis/Code/preprocess.py:57-63 | the eye chosen is left exactly when its validity sum is larger; nothing else changes |
| Classifier.EyeMovement.InterpolateCoordinates | EM_Analysis/Code/preprocess.py:65-92 | the recording becomes the gap interpolation of the old recording on the chosen eye; labels and centres are unchanged |
| Classifier.EyeMovement.IdentifyBlink | EM_Analysis/Code/preprocess.py:95-114 | one run-based blink label is appended per row, on the chosen eye or on both eyes |
| Classifier.EyeMovement.BlinkColumn | EM_Analysis/Code/preprocess.py:95-114 | the scan over rows and missing runs yields exactly the run-based blink labels |
| Classifier.EyeMovement.IdentifyBlinkStreaming | EM_Analysis/Backup/231006.py:31-42 | one counting blink label is appended per row, on both eyes |
| Classifier.EyeMovement.StreamingColumn | EM_Analysis/Backup/231006.py:31-42 | the counting scan yields exactly the counting blink labels |
| Classifier.EyeMovement.InterpolateIsolated | EM_Analysis/Backup/231006.py:15-29 | each isolated missing row of the chosen eye becomes its neighbours' midpoint |
| Classifier.EyeMovement.IdentifySaccade | EM_Analysis/Code/preprocess.py:117-133 | the labels become the velocity pass of the old labels, with or without the missing-point guard |
| Classifier.EyeMovement.IdentifyFixation | EM_Analysis/Code/preprocess.py:135-138 | the labels become the default pass of the old labels |
| Classifier.EyeMovement.ComputeCenterPoint | EM_Analysis/Code/preprocess.py:140-162 | the centre column becomes the centre of every qualifying Fixation run, with or without the end sentinel |
| Classifier.EyeMovement.ScanCenters | EM_Analysis/Code/preprocess.py:145-161 | the scan with its open-run marker builds exactly any column that meets the run-by-run description |
| Classifier.EyeMovement.WithCenter | EM_Analysis/Code/preprocess.py:159-160 | the rows of one run get the centre and every other row keeps its entry |
| Classifier.EyeMovement.ReportCenterPoints | EM_Analysis/Backup/231006.py:67-84 | reports one centre per qualifying closed Fixation run, in order, and changes nothing |
| Classifier.EyeMovement.ScanReports | EM_Analysis/Backup/231006.py:72-84 | against any column meeting the run-by-run description, the reports are its centred runs, in order |
| Classifier.EyeMovement.AddErrorState | EM_Analysis/Code/preprocess.py:164-167 | every Fixation row without a centre becomes Error; other labels are kept |
| Preprocess.Run | EM_Analysis/Code/preprocess.py:173-181 | the script's stages in order leave the recoded recording, the final labels and the centres |
| Preprocess.ObservedPointsSuffice | EM_Analysis/Code/preprocess.py:65-162 | when observed rows carry points, the whole run is defined |
| Preprocess.EveryRowLabelled | EM_Analysis/Code/preprocess.py:164-167 | every row has a label, and a centre exactly when it is Fixation |
| Preprocess.ErrorRowsExplained | EM_Analysis/Code/preprocess.py:95-167 | an Error row is in a missing run of under five rows touching an end, or in a Fixation run of at most six rows |
| Preprocess.LongGapsAreBlinksHere | EM_Analysis/Code/preprocess.py:77-111 | a missing run of five or more rows is Blink throughout |
| Preprocess.ShortGapsNotBlinks | EM_Analysis/Code/preprocess.py:77-133 | a row of an interior gap of at most four rows is never Blink |
| CodeMain.Analyze | EM_Analysis/Code/main.py:153-160 | the script's stages in order leave the recoded recording, the labels and the centres |
| CodeMain.ObservedPointsSuffice | EM_Analysis/Code/main.py:50-147 | when observed rows carry points, the whole analysis is defined |
| CodeMain.ErrorsOnlyAtEdges | EM_Analysis/Code/main.py:50-99 | every row is labelled, and an Error row is in a missing run of under six rows touching an end |
| CodeMain.ShortFixationsKeepLabel | EM_Analysis/Code/main.py:125-160 | a Fixation run of at most six rows stays Fixation with no centre |
| CodeMain.LongGapsAreBlinksHere | EM_Analysis/Code/main.py:62-96 | a missing run of six or more rows is Blink throughout |
| CodeMain.ShortGapsNotBlinks | EM_Analysis/Code/main.py:62-118 | a row of an interior gap of at most five rows is Saccade or Fixation |
| AnalysisMain.Analyze | EM_Analysis/main.py:144-151 | the script's stages in order leave the interpolated recording, the labels and the centres |
| AnalysisMain.MissingRowsAreBlinkOrError | EM_Analysis/main.py:68-90 | every row is labelled, and it is Blink or Error exactly when both eyes are missing |
| AnalysisMain.FinalFixationHasNoCenter | EM_Analysis/main.py:123-138 | a Fixation run reaching the last row keeps its label and gets no centre |
| AnalysisMain.ClosedFixationCenter | EM_Analysis/main.py:123-136 | a closed Fixation run of more than six rows has its mean as centre on every row |
| Backup231006.Analyze | EM_Analysis/Backup/231006.py:90-97 | the stages in order leave the midpoint-filled recording and the labels; the centres are only reported |
| Backup231006.MidpointPassIsShortestGapFill | EM_Analysis/Backup/231006.py:15-29 | this backup's interpolation is gap interpolation of one-row gaps |
| Backup231006.BlinkRunsStartWithErrors | EM_Analysis/Backup/231006.py:31-42 | in a both-eyes-missing run the first five rows are Error and the rest Blink |
| Backup231006.ReportInputsPresent | EM_Analysis/Backup/231006.py:44-84 | where the velocity pass has points, every reported fixation has points to average |
| Backup231006.VelocityTestMatches | EM_Analysis/Backup/231006.py:54-60 | the velocity `v * 60 >= 30` holds exactly when the squared scaled displacement reaches 0.25 |
| Backup231005.VelocityIsScaledDistance | EM_Analysis/Backup/231005.py:14-20 | the velocity test is the squared distance scaled by the squared screen width against the threshold |
| Backup231005.SinglePassMatchesStagedPasses | EM_Analysis/Backup/231005.py:35-68 | the single pass labels every row as the run-based blink pass (six rows), the velocity pass and the default pass do on the left eye |
| Backup231005.RatioInside | EM_Analysis/Backup/231005.py:28-29 | the interpolation weight lies strictly between 0 and 1 |
| Backup231005.AsWrittenFillIgnoresObservedBounds | EM_Analysis/Backup/231005.py:45-50 | with stale points in the missing rows, the source's call fills the middle row with (9, 9) where (2, 2) is intended |
| Backup231005.BridgedFillOnSegment | EM_Analysis/Backup/231005.py:22-33 | each row of a short interior run lies strictly inside the segment between the observed rows bounding it; the right eye is untouched |
| Backup231005.BridgedFillOfStillGaze | EM_Analysis/Backup/231005.py:22-33 | a short gap bounded twice by the same point is filled with that point |
| Backup231005.BridgedRowOnRun | EM_Analysis/Backup/231005.py:45-50 | a row of a missing run is bridged exactly when the run is short and has observed rows on both sides |
| Backup231005.EyeMovement.constructor | EM_Analysis/Backup/231005.py:6-8 | loading a recording labels it at once and applies the corrected fill (see Findings) to its short interior runs |
| Backup231005.EyeMovement.Interpolate | EM_Analysis/Backup/231005.py:22-33 | only the left point of the rows strictly between the two anchors changes, to the point at weight (i - s)/(e - s) |
| Backup231005.EyeMovement.AddEyeState | EM_Analysis/Backup/231005.py:35-68 | the label column is the single-pass labelling, and the left column is the corrected fill (see Findings) |
| Backup231005.EyeMovement.RunLabels | EM_Analysis/Backup/231005.py:41-52 | a whole missing run is Error when shorter than six rows, Blink otherwise |
| Backup231005.EyeMovement.LabelMissingRun | EM_Analysis/Backup/231005.py:41-52 | a whole missing run is labelled and, when short and interior, filled by the corrected fill (see Findings); the pass resumes after it |
| Backup231005.EyeMovement.LabelObservedRow | EM_Analysis/Backup/231005.py:53-66 | an observed row is labelled Saccade or Fixation by its velocity to the next row |
| Backup231005.EyeMovement.SettleRun | EM_Analysis/Backup/231005.py:48-50 | the corrected fill (see Findings): a short interior run is interpolated between the observed rows around it; any other run is left as it is |
| Integration.JpgRowsSplit | Data_Collection/Code/integrate.py:33-35 | extraction distributes over concatenation, so log order is kept |
| Integration.JpgRowsMembership | Data_Collection/Code/integrate.py:33-35 | a row is extracted exactly when it is in the log and its name ends in `.jpg` |
| Integration.ScanFindsClosest | Data_Collection/Code/integrate.py:50-57 | on increasing timestamps, the row before the scan's stop is the closest to the onset of all rows from the start |
| Integration.StepLayout | Data_Collection/Code/integrate.py:48-63 | one onset keeps the column as long as the scan index, with empty entries up to the closest row and the block from there |
| Integration.BlockStartsAtClosestSample | Data_Collection/Code/integrate.py:48-63 | the block of an onset starts at the sample closest in time to it |
| Integration.AlignLengthMatchesIndex | Data_Collection/Code/integrate.py:40-63 | with gaze data, the column length equals the scan index after every onset |
| Integration.Padded | Data_Collection/Code/integrate.py:66-67 | padding keeps the column and adds empty entries up to the recording's length |
| Integration.AlignOnset | Data_Collection/Code/integrate.py:49-63 | the scan, rollback and block placement for one onset |
| Integration.DataIntegration.AlignAll | Data_Collection/Code/integrate.py:48-63 | the loop over every onset leaves the column and index of the aligned sequence |
| Integration.DataIntegration.constructor | Data_Collection/Code/integrate.py:21-28 | a new integrator holds both inputs and an empty column |
| Integration.DataIntegration.ExtractImageTimestamp | Data_Collection/Code/integrate.py:30-35 | the onsets become the `.jpg` rows of the log, in order |
| Integration.DataIntegration.FindClosestEmTimestamp | Data_Collection/Code/integrate.py:38-68 | drops the first onset, aligns the rest and pads; the column is attached exactly when its length equals the recording's |
| Integration.DataIntegration.Run | Data_Collection/Code/integrate.py:73-76 | extraction followed by alignment |
| Scanpath.ToPixel | EM_Analysis/Code/OOP_Scanpath.py:90-93 | a centre is present exactly when it is a pair with both components |
| Scanpath.ToPixelInvertible | EM_Analysis/Code/OOP_Scanpath.py:90-93 | on a display of positive size, dividing the pixel position by the size gives back the recorded centre |
| Scanpath.PresentSplit | EM_Analysis/Code/OOP_Scanpath.py:100 | the filter distributes over concatenation, so order is kept |
| Scanpath.PresentMembership | EM_Analysis/Code/OOP_Scanpath.py:100 | a point survives the filter exactly when it was present |
| Scanpath.AsWrittenDropsLastCentre | EM_Analysis/Code/OOP_Scanpath.py:103-112 | two different centres give one dwell covering only the first |
| Scanpath.CompressAsWritten | EM_Analysis/Code/OOP_Scanpath.py:101-112 | the source's loop produces well-formed dwells covering all centres but a last centre that differs from its predecessor |
| Scanpath.RunEndFrom | EM_Analysis/Code/OOP_Scanpath.py:104-108 | the inner loop stops at the last centre of the run of equal centres |
| Scanpath.AppendRun | EM_Analysis/Code/OOP_Scanpath.py:109-111 | appending a run's dwell keeps the dwells well formed and extends the centres they stand for |
| Scanpath.Compress | EM_Analysis/Code/OOP_Scanpath.py:101-112 | dwells have counts of at least one, differ from their neighbours and expand back to exactly the centres |
| Scanpath.MaxCount | EM_Analysis/Code/OOP_Scanpath.py:114 | the longest dwell's count bounds every count and is one of them |
| Scanpath.GazeScanpath.constructor | EM_Analysis/Code/OOP_Scanpath.py:10-22 | a new scanpath holds the image and display size and no dwells |
| Scanpath.GazeScanpath.Run | EM_Analysis/Code/OOP_Scanpath.py:95-116 | the dwells encode the image's present centres; the longest dwell is recorded exactly when there is a dwell |

## Left out

- Reading and writing CSV files (`read_csv`, `to_csv`, `add_state_to_csv`, `save_data`) is left out. The recording arrives as a sequence of parsed samples, and the results are the class's fields.
- Listing directories to find unprocessed files (`get_matched_files`) is left out. So are the `__main__` blocks and the module-level usage lines of the 5 October backup.
- Parsing with `ast.literal_eval` and `eval` is left out; a point is already a pair or missing.
- The two dated backups read coordinates as raw strings, without the tuple converter. The model treats their points as already parsed.
- Square roots, tangents, arctangents, `pi` and the pixel-per-millimetre factor are left out. They enter only through the threshold `minDistSq`.
- Floating-point rounding is left out; arithmetic is on exact reals.
- Printing is left out, and so is the `eye_to_use` column that the preprocessing script writes.
- The pandas mean skips NaN values. The model instead requires every row of a qualifying fixation to carry a point (`CentroidInputsPresent`). `Preprocess.ObservedPointsSuffice` and `CodeMain.ObservedPointsSuffice` show that this holds whenever observed rows carry points.
- Classifier.EyeMovement.ComputeCenterPoint requires as many labels as rows. Every script's stage order guarantees this, and `AddErrorState` is specified on the first `|data|` labels.
- Classifier.EyeMovement.InterpolateCoordinates requires a point on the observed rows that bound every short interior gap (`GapBoundsPresent`). The source fails with a type error when such a row holds `(None, None)`. `Preprocess.ObservedPointsSuffice` and `CodeMain.ObservedPointsSuffice` show that this holds whenever observed rows carry points.
- Classifier.EyeMovement.InterpolateIsolated requires every isolated missing row to be an interior row whose two neighbours carry points (`IsolatedGapsBounded`). The source fails with a key error on an isolated missing first or last row, because it reads the row before or after it. It fails with a type error on a neighbour without a point. The model does not describe those failures.
- Backup231006.Analyze carries the same `IsolatedGapsBounded` requirement, because it runs the midpoint pass.
- Integration.DataIntegration.FindClosestEmTimestamp requires at least one image onset, because the source removes the first onset with `pop(0)`, which fails on an empty list.
- Integration.DataIntegration.Run requires the stimulus log to hold at least one `.jpg` row, for the same reason. On a log without one, the source fails before any alignment.
- Classifier.EyeMovement.IdentifySaccade without the guard requires points on the rows it reads, because the source fails on a missing point there. `AnalysisMain.Analyze` and `Backup231006.Analyze` carry the same requirement.
- Backup231005.EyeMovement.AddEyeState interpolates each short interior run between the observed rows that bound it, not between its own first and last rows as the source does. The source's call is modelled by `AsWrittenFill` (see Findings).
- Backup231005.EyeMovement.AddEyeState, and through it the class's constructor, leaves a short run that touches the first or the last row as it is. The source rewrites such a run too, between its own first and last rows.
- Backup231005.EyeMovement.constructor runs the corrected fill of `AddEyeState`, not the source's `interpolate(start_missing, end_missing)` on every run of fewer than six rows.
- Backup231005.EyeMovement.LabelMissingRun interpolates a short run only when it is interior, and between the observed rows around it. The source interpolates every run of fewer than six rows, edge runs included, between the run's own first and last rows.
- Backup231005.EyeMovement.SettleRun has the same two differences: it anchors on the observed rows around the run, and it leaves runs touching an end unchanged.
- Backup231005.EyeMovement.AddEyeState requires left points on the rows its velocity test and its interpolation read, because the source fails on a missing point there.
- Scanpath.GazeScanpath.Run uses the corrected compression (see Findings).
- Scanpath.GazeScanpath.Run does not model filtering on the pandas `stimuli` column by string equality. The stimulus is an optional name compared with the image name.
- Image resizing, drawing and the unused heat-map parameters of the scanpath class are left out.
- Timestamps are seconds as reals; `datetime.fromisoformat` is left out.
- The lemmas about the closest sample assume strictly increasing gaze timestamps. This is a property of the recording that the source does not check.
- Heat maps, pie charts, the interactive visualiser and the data collection scripts (tracker callbacks, threads, keyboard listeners, windows) are not part of this model.

## Findings

| source | as written | input that shows it | evidently intended | confidence | as-written member | corrected member |
|---|---|---|---|---|---|---|
| EM_Analysis/Backup/231005.py:45-50 | a short run of both-eyes-missing rows is interpolated between its own first and last rows, which are themselves missing | row 0 observed at (0, 0); rows 1-3 missing in both eyes and still holding a stale (9, 9); row 4 observed at (4, 4): row 2 becomes (9, 9) | interpolate between the observed rows just before and just after the run, so row 2 becomes (2, 2) | not executed | Backup231005.AsWrittenFillIgnoresObservedBounds | Backup231005.BridgedFillOnSegment |
| EM_Analysis/Code/OOP_Scanpath.py:103-112 | the compression loop stops at the second-to-last centre, so a last centre that differs from its predecessor is never emitted | centres [a, b] with a different from b: one dwell (a, 1) | every centre covered: dwells (a, 1) and (b, 1) | not executed | Scanpath.CompressAsWritten | Scanpath.Compress |
