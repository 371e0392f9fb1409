# mellymell core in Dafny

A model of the numeric and state-machine core of mellymell, a monophonic pitch
tracker. It covers these parts of the code:

- **Note arithmetic of `src/mellymell/pitch.py`** (module `Pitch`). This is the
  MIDI-number ↔ (name, octave) mapping over the fixed 12-name chromatic table.
  It includes Python's round-half-to-even, and the cents of `hz_to_note`
  computed from an already converted MIDI value.
- **YIN pitch estimator of the same file** (module `Yin`). It covers `yin` with
  its lag bounds, the difference and CMND loops over arrays, the
  absolute-threshold scan with parabolic refinement, the fall-back to the first
  minimum and the confidence clamp. It also covers `detect_pitch`, which mixes
  a frame down to mono and applies the window. The loops are methods on arrays,
  proved equal to the function `YinSpec`, and the properties are proved about
  `YinSpec`.
- **Offline note segmenter `segment_notes` of `src/mellymell/segment.py`**
  (module `Segment`):
  - The closure's mutable state is the class `Segmenter`: `close_segment` is
    `CloseSegment` and the loop body is `Feed`.
  - Each method is proved against the step function `Step`.
  - The promises of the result are proved about `Segments`: minimum duration,
    order, no overlap, one note per segment, and statistics taken over the
    segment's own valid frames. They also include the rule that ends a
    segment: no gap longer than `gap` inside it, and a note change or such a
    gap right after it.
  - The converse is proved too: every segment the rule describes is emitted.
    A maximal run (`MaximalRun`) starts at a valid frame with note `n`, is
    followed by frames that do not break `n`, and ends at the last frame or
    just before one that breaks `n`. Before it, every earlier valid frame
    with `n` is followed by a cut: a valid frame, or a rejected frame more
    than `gap` after its predecessor. Such a run lasting at least
    `min_seg_dur` gives a segment from its first frame's time to its last
    frame's time with note `n`. This holds for any times, ascending or not.
    Frames all on one note give one segment exactly when they span
    `min_seg_dur`, and a rejected frame more than `gap` late splits a note in
    two segments.
- **Live tuner's smoothing state in `scripts/live_tuner.py`** (module
  `LiveTuner`, class `Smoother`). It covers the confidence gate, the bounded
  history of accepted frequencies and its median, and the hysteresis on the
  shown label. The label format `f"{name}{octave:02d}"` and its parse are in
  module `NoteLabel`.
- **Framing loop of `scripts/analyze_file.py`** (module `AnalyzeFile`). It
  covers the window starts `range(0, n - frame, hop)`, the buffers, and the
  five columns filled in lockstep.

Module `Stats` holds `np.mean` and `np.median` over exact reals. The median is
taken over a sorted copy that is proved sorted and a permutation. Module
`Common` holds `Option`, `Result`, and the exceptions the code can raise, by
cause.

How the source is represented:

- Floats are exact `real`s.
- Python exceptions are `Failure(e)` results.
- `hz_to_midi` (a logarithm) is a parameter `hzToMidi: real -> real`, taken at
  the session's tuning frequency.
- `np.hanning` is a parameter. It is a window `seq<real>` in `Yin`, and
  `hann: nat -> seq<real>` in `AnalyzeFile`.
- The live tuner's hysteresis delta `1200 * log2(f_med / f_prev)` is written
  as `100 * (hz_to_midi(f_med) - m)`, where `m` is the MIDI number of the
  shown note. The two are equal.

Behaviour of the code that a reader might not expect, which the model follows:

- The cents of `hz_to_note` lie in [-50, 50]. Rounding half to even sends
  61.5 to 62, giving -50 cents.
- `yin` raises for short frames and empty lag ranges:
  - ZeroDivisionError for a zero `fmin` or `fmax`;
  - ValueError from `np.zeros` with a negative size;
  - IndexError on an empty `cmnd`;
  - ValueError from `np.argmin` of an empty slice.
- The segmenter's gap is measured from the previous frame, valid or not.
  `last_time` is updated on invalid frames too. A gap closes a segment only on
  an invalid frame, at that previous frame's time, which may be an invalid
  frame's time. A note change also closes at `last_time`, not at the last
  valid frame's time.
- The segmenter does not check that times ascend, and with `min_seg_dur <= 0` a
  segment may have `start_s == end_s`. The order and matching properties are
  proved under strictly ascending times, and a segment's `start_s <= end_s`.
- Mean confidence is not bounded to [0, 1]. It is proved at least
  `conf_threshold`, since every folded frame passed the gate.
- The live tuner's label pads the octave to two characters
  (`f"{name}{octave:02d}"`) and reads it back with `[:-2]` and `int([-2:])`.
  That round trip holds exactly for octaves -9 to 99. Outside that range, a
  note change raises ValueError.

## Model

| member | source | states |
|---|---|---|
| Stats.Mean | src/mellymell/segment.py:59 | the mean of a non-empty list lies between its minimum and maximum |
| Stats.Sort | src/mellymell/segment.py:58 | the copy `np.median` sorts is sorted and a permutation of the list |
| Stats.Median | src/mellymell/segment.py:58 | the median of a non-empty list lies between its minimum and maximum |
| Pitch.RoundHalfEven | src/mellymell/pitch.py:22 | `round` gives an integer within 0.5 of its argument, and the even one on a tie |
| Pitch.IndexOf | src/mellymell/pitch.py:39 | `list.index` succeeds exactly when the value is present, gives its first position, and otherwise raises ValueError |
| Pitch.MidiToNote | src/mellymell/pitch.py:21-25 | the name is always one of the 12 table names |
| Pitch.NoteToMidi | src/mellymell/pitch.py:38-40 | `note_to_hz` raises ValueError exactly when the name is not in the table |
| Pitch.IndexOfNoteName | src/mellymell/pitch.py:10 | the table names are distinct, so the index of the k-th name is k |
| Pitch.NoteToMidiOfMidiToNote | src/mellymell/pitch.py:21-40 | for every real m, the note of m maps back to the MIDI number round(m) |
| Pitch.MidiToNoteOfNoteToMidi | src/mellymell/pitch.py:21-40 | for every table index and octave, the MIDI number is (octave+1)*12+idx and its note is (name, octave) again |
| Pitch.MidiToNoteInjective | src/mellymell/pitch.py:21-25 | different whole MIDI numbers have different notes, negative ones included |
| Pitch.LabelOfMidi | src/mellymell/pitch.py:28-35 | cents lie in [-50, 50], and name and octave are those of `midi_to_note` of the same value |
| Pitch.LabelDecomposesMidi | src/mellymell/pitch.py:28-41 | the MIDI value equals the labelled note's MIDI number plus its cents over 100 |
| Pitch.LabelNearCentre | src/mellymell/pitch.py:28-35 | less than 50 cents from a note's centre, the label is that note and the cents are the offset |
| Pitch.LabelFlipsPastHalfSemitone | src/mellymell/pitch.py:28-35 | moving more than 50 (and less than 150) cents up from a centre changes the label |
| Pitch.LabelFlipsBelowHalfSemitone | src/mellymell/pitch.py:28-35 | moving more than 50 (and less than 150) cents down from a centre changes the label |
| Pitch.LabelOfNoteCentre | src/mellymell/pitch.py:28-41 | `hz_to_note` at the centre of (name, octave) gives (name, octave, 0 cents) |
| NoteLabel.Digits | scripts/live_tuner.py:107 | decimal digits without leading zeros, two or more exactly from 10 up |
| NoteLabel.FormatIntShape | src/mellymell/segment.py:78 | `f"{octave}"` is a minus sign exactly for a negative octave, then one or more digits and nothing else |
| NoteLabel.ParseFormatInt | src/mellymell/segment.py:78 | `int(f"{i}") == i` for every integer i, so the octave format loses nothing |
| NoteLabel.SegmentLabelInjective | src/mellymell/segment.py:77-85 | two table notes get the same `f"{name}{octave}"` label exactly when they are the same note, so comparing labels compares notes |
| NoteLabel.FormatInt02 | scripts/live_tuner.py:107 | the `02d` format is at least two characters, exactly two for -9 to 99 |
| NoteLabel.DigitsValue | scripts/live_tuner.py:113 | a string has a digit value exactly when it is a non-empty run of digits; otherwise ValueError |
| NoteLabel.ParseInt | scripts/live_tuner.py:113 | `int` accepts exactly a non-empty run of digits after at most one sign, raises ValueError otherwise, and is negative only after a minus |
| NoteLabel.DigitsValueOfDigits | scripts/live_tuner.py:113 | `int` of the digits of n is n |
| NoteLabel.ParseFormatInt02 | scripts/live_tuner.py:107-113 | `int(f"{i:02d}") == i` for every integer i |
| NoteLabel.SplitShownLabel | scripts/live_tuner.py:112-113 | the name is the label minus at most its last two characters, the octave read back lies in -9 to 99, and a bad suffix raises ValueError |
| NoteLabel.ShownLabelMidi | scripts/live_tuner.py:112-115 | the shown label gives a MIDI number exactly when it splits and its name is in the table; the number is in -96 to 1211; the errors are those of `int` and `list.index` |
| NoteLabel.ShownLabelInRange | scripts/live_tuner.py:107-113 | for octaves -9 to 99, splitting the live label gives back the note |
| NoteLabel.ShownLabelOutOfRange | scripts/live_tuner.py:107-113 | outside -9 to 99, the name part of the split ends in a digit or sign, so it is no table name |
| NoteLabel.ShownLabelRoundTrip | scripts/live_tuner.py:107-115 | a live label of a table note yields a MIDI number exactly when the octave is in -9 to 99, and then the note's own |
| Yin.Trunc | src/mellymell/pitch.py:59-60 | `int()` of a float truncates toward zero |
| Yin.Demean | src/mellymell/pitch.py:54-55 | removing the mean keeps the frame length and leaves samples that sum to zero |
| Yin.LagBounds | src/mellymell/pitch.py:59-62 | the lag window exists exactly when fmin and fmax are non-zero and min_tau < max_tau; then min_tau = max(2, int(sr/fmax)) >= 2 and max_tau = min(int(sr/fmin), N-2) |
| Yin.SquaredDistance | src/mellymell/pitch.py:64-65 | `np.dot(diff, diff)` is never negative |
| Yin.Diff | src/mellymell/pitch.py:63-65 | every d[tau] is non-negative |
| Yin.DiffPrefixSum | src/mellymell/pitch.py:70-72 | the running sum is non-negative |
| Yin.Cmnd | src/mellymell/pitch.py:68-73 | cmnd[0] = 1 and every cmnd[tau] is non-negative |
| Yin.CmndSeq | src/mellymell/pitch.py:68-73 | the array has max_tau + 1 entries, cmnd[0] = 1 and no entry is negative |
| Yin.FirstBelow | src/mellymell/pitch.py:78-79 | the scan finds the smallest lag of [min_tau, max_tau) below the threshold, or none crosses |
| Yin.ArgMin | src/mellymell/pitch.py:93 | `np.argmin` on the window gives the first position of its minimum |
| Yin.Refine | src/mellymell/pitch.py:81-87 | the lag moves only when it is interior and abs(denom) > 1e-12 |
| Yin.BestLag | src/mellymell/pitch.py:76-94 | best_tau is never 0; with a crossing it is the refined first crossing unless that is 0, in which case, as with no crossing, it is the first minimum |
| Yin.ScanLagIsInterior | src/mellymell/pitch.py:81-84 | a lag found by the scan has both neighbours within [1, max_tau] |
| Yin.PyIndex | src/mellymell/pitch.py:98 | numpy indexing succeeds exactly for -len <= i < len, otherwise IndexError |
| Yin.Confidence | src/mellymell/pitch.py:98 | confidence is in [0, 1], positive exactly when the score is below 0.5, 1 exactly when it is at most 0 |
| Yin.YinSpec | src/mellymell/pitch.py:50-99 | any confidence returned is in [0, 1], and a bad lag window raises its error |
| Yin.Estimate | src/mellymell/pitch.py:62-99 | over a valid lag window, any confidence returned is in [0, 1] |
| Yin.YinFallback | src/mellymell/pitch.py:91-99 | with no crossing, `yin` returns sr / k and the confidence of cmnd[k], for k the first minimum in the window |
| Yin.YinThresholdLag | src/mellymell/pitch.py:76-99 | for a found lag with a flat parabola, `yin` returns sr / tau with cmnd[tau] below the threshold, and positive confidence for thresholds up to 0.5 |
| Yin.DifferenceArray | src/mellymell/pitch.py:62-65 | the loop fills d[1..max_tau] with the difference function |
| Yin.CmndArray | src/mellymell/pitch.py:68-73 | the loop with `running_sum` fills the array with the CMND |
| Yin.ThresholdScan | src/mellymell/pitch.py:76-89 | the early-break loop returns the refined first crossing, or 0 when none |
| Yin.Yin | src/mellymell/pitch.py:50-99 | the imperative `yin` computes `YinSpec`, exceptions included |
| Yin.EstimateLoops | src/mellymell/pitch.py:62-99 | the loops, scan and fall-back compute `Estimate`, and raise on an empty window |
| Yin.MonoMix | src/mellymell/pitch.py:112-113 | a mono frame is kept; each sample of a channel mean lies between its channels' extremes |
| Yin.Windowed | src/mellymell/pitch.py:115-116 | windowing keeps the frame length |
| Yin.DetectPitchSpec | src/mellymell/pitch.py:102-120 | any confidence returned is in [0, 1], and a lag window that does not exist for the mono frame raises its error |
| Yin.DetectPitch | src/mellymell/pitch.py:102-120 | both method branches compute `yin` of the windowed mono mix at the default threshold; confidence in [0, 1] |
| Segment.Zip | src/mellymell/segment.py:68 | `zip` stops at the shortest input and pairs equal positions |
| Segment.Closed | src/mellymell/segment.py:49-61 | a segment is emitted exactly when a note is open, long enough and non-empty, with the median cents and mean confidence |
| Segment.CloseAtEffect | src/mellymell/segment.py:47-66 | `close_segment` appends at most one segment, exactly when a note is open, long enough and non-empty, running from its start to end_time with its name; it resets the note and keeps last_time |
| Segment.StepEffect | src/mellymell/segment.py:68-95 | one pass appends at most one segment, only when a note was open, carrying that note and ending at the previous frame's time; a rejected frame opens nothing and adds nothing; a valid frame leaves its own note open with its cents and confidence last; last_time becomes the frame's time |
| Segment.RunCount | src/mellymell/segment.py:68-95 | after the loop, emitted segments plus the open note number at most the frames |
| Segment.FinishEffect | src/mellymell/segment.py:97-99 | the trailing close keeps the emitted segments, adds at most the pending note, and leaves no note open |
| Segment.SegmentsCount | src/mellymell/segment.py:20-101 | `segment_notes` returns at most one segment per zipped frame |
| Segment.CloseOrdered | src/mellymell/segment.py:47-66 | closing at the last frame's time emits exactly the open note's window and keeps the state ordered |
| Segment.AppendInvalidOrdered | src/mellymell/segment.py:69-75 | a rejected frame adds nothing to the open note's window |
| Segment.OpenOrdered | src/mellymell/segment.py:79-91 | a valid frame with no note open opens a note whose window is that frame |
| Segment.ExtendOrdered | src/mellymell/segment.py:92-94 | a valid frame with the open note's label joins its window and accumulators |
| Segment.StepOrdered | src/mellymell/segment.py:68-95 | one loop pass on a later frame keeps segments ordered and matching their frames |
| Segment.RunWellFormed | src/mellymell/segment.py:68-95 | for any frames: the accumulators have equal length, an open note has a frame, last_time is the last frame's time, every segment lasts at least min_seg_dur |
| Segment.RunOrdered | src/mellymell/segment.py:68-95 | over ascending times, the loop's state is ordered and every segment matches its frames |
| Segment.SegmentConfidenceAtLeastThreshold | src/mellymell/segment.py:52-61 | a segment's mean confidence is at least conf_threshold |
| Segment.SegmentsSound | src/mellymell/segment.py:20-101 | segments last at least min_seg_dur, none from no frames, and over ascending times they are ordered, non-overlapping, start at a valid frame, carry one note and hold their frames' statistics |
| Segment.StepBoundary | src/mellymell/segment.py:68-95 | one pass on a later frame keeps every segment free of gaps and ended by a break, and the open note free of gaps |
| Segment.RunBoundary | src/mellymell/segment.py:68-95 | over ascending times, every segment emitted during the loop has no gap inside and is ended by a break |
| Segment.FinishBoundary | src/mellymell/segment.py:97-99 | the trailing close emits a segment with no gap inside and nothing after it |
| Segment.SegmentsBreak | src/mellymell/segment.py:68-99 | over ascending times, no rejected frame inside a segment comes more than `gap` after its predecessor, and the frame right after a segment is a rejected frame more than `gap` later or a valid frame with another note |
| Segment.Segmenter.constructor | src/mellymell/segment.py:40-45 | the state starts empty, with no note open |
| Segment.Segmenter.CloseSegment | src/mellymell/segment.py:47-66 | `close_segment` appends the emitted segment and resets the open note |
| Segment.Segmenter.Feed | src/mellymell/segment.py:68-95 | one loop pass takes the state to `Step` of it |
| Segment.Segmenter.FeedInvalid | src/mellymell/segment.py:69-75 | a rejected frame closes the note only past the gap and updates last_time |
| Segment.Segmenter.FeedValid | src/mellymell/segment.py:77-95 | a valid frame opens, extends, or closes and reopens the note |
| Segment.Segmenter.Finish | src/mellymell/segment.py:97-99 | the trailing note is closed at the last frame's time |
| Segment.FeedAll | src/mellymell/segment.py:68-95 | after the loop the state is the run over all zipped frames |
| Segment.StepOpens | src/mellymell/segment.py:79-91 | a valid frame whose note is not the open one opens its note at the frame's time with one cents value |
| Segment.StepContinues | src/mellymell/segment.py:69-95 | a frame that does not break the open note keeps it open from the same start and moves last_time to the frame |
| Segment.StepBreaks | src/mellymell/segment.py:69-91 | a frame that breaks the open note makes the same segments as closing it at last_time |
| Segment.StepRejected | src/mellymell/segment.py:69-75 | a rejected frame after which a note is open leaves that note unchanged and came at most `gap` after last_time |
| Segment.RunSegmentsPrefix | src/mellymell/segment.py:68-95 | segments are only appended: those emitted by a prefix of the frames are a prefix of those emitted by all of them |
| Segment.OpenNoteOrigin | src/mellymell/segment.py:68-95 | an open note was opened by a valid frame with its label, and every later frame is a rejected frame at most `gap` after its predecessor |
| Segment.NoteClosedAtCut | src/mellymell/segment.py:68-95 | when every earlier valid frame with note `n` is followed by a cut before frame `a`, note `n` is not open just before frame `a` |
| Segment.RunHolds | src/mellymell/segment.py:68-95 | across an unbroken run of note `n`, the note stays open from the run's first frame, holds a frame, and last_time is the run's last frame's time |
| Segment.RunOpenAtEnd | src/mellymell/segment.py:68-95 | at the last frame of a maximal run its note is open from the run's first frame |
| Segment.RunCloses | src/mellymell/segment.py:68-95 | a frame that breaks an open note lasting `min_seg_dur` emits it as the next segment, from its start to last_time |
| Segment.FinishCloses | src/mellymell/segment.py:97-99 | the trailing close emits an open note lasting `min_seg_dur`, from its start to the last frame's time |
| Segment.KeptToEnd | src/mellymell/segment.py:53-99 | a segment emitted during the loop is in the result at the same index |
| Segment.RunEmitted | src/mellymell/segment.py:47-99 | a maximal run lasting `min_seg_dur` is emitted at some index, from its first to its last frame's time, with its note |
| Segment.RunSameNote | src/mellymell/segment.py:77-95 | over frames all valid with note `n`, nothing is emitted and `n` is open from the first frame's time with every frame's cents and confidence |
| Segment.OneRunOneSegment | src/mellymell/segment.py:20-101 | frames all valid with one note give at most one segment, and one exactly when the last time minus the first is at least `min_seg_dur`; it runs from the first to the last time with that note |
| Segment.SegmentsComplete | src/mellymell/segment.py:20-101 | every maximal run lasting at least `min_seg_dur` appears among the segments, from its first frame's time to its last frame's time with its note |
| Segment.GapSplitsNote | src/mellymell/segment.py:68-99 | one note interrupted by a rejected frame more than `gap` after its predecessor gives a segment for each part lasting `min_seg_dur` |
| Segment.SegmentNotes | src/mellymell/segment.py:20-101 | `segment_notes` returns `Segments`, with the guarantees of `SegmentsSound`, `SegmentsBreak`, `SegmentsComplete` and `OneRunOneSegment` |
| LiveTuner.PushBounded | scripts/live_tuner.py:104 | the deque keeps the latest max(1, median) values, oldest evicted first, newest last |
| LiveTuner.PushBoundedPositive | scripts/live_tuner.py:92-104 | the history stays non-empty, bounded, and holds only accepted frequencies |
| LiveTuner.NextShown | scripts/live_tuner.py:109-122 | with nothing shown the candidate is shown; the result is the candidate or the shown label; it fails only when the shown label does not parse |
| LiveTuner.HysteresisSwitch | scripts/live_tuner.py:109-122 | for a label the tuner produced, a different candidate replaces it exactly when the offset from the shown centre is at least the hysteresis |
| LiveTuner.HysteresisOutOfRange | scripts/live_tuner.py:112-115 | a shown label with an octave outside -9 to 99 makes a note change raise |
| LiveTuner.HysteresisHolds | scripts/live_tuner.py:118-120 | within the hysteresis band the shown label stays, whatever the candidate |
| LiveTuner.Smoother.constructor | scripts/live_tuner.py:63-66 | the history bound is max(1, median), nothing is shown |
| LiveTuner.Smoother.Update | scripts/live_tuner.py:91-123 | a rejected frame changes nothing; an accepted one enters the history; f_med is its median; the label follows the hysteresis; the cents are from the nearest note |
| LiveTuner.Smoother.Accept | scripts/live_tuner.py:103-123 | after the gate: history pushed, f_med within the history's range and positive, cents in [-50, 50] |
| LiveTuner.Smoother.Hysteresis | scripts/live_tuner.py:109-120 | the hysteresis branch computes `NextShown` |
| AnalyzeFile.RangeFrom | scripts/analyze_file.py:41 | `range` is empty exactly when start is at or past stop in the step's direction; otherwise it starts at start and its last element is on the near side of stop |
| AnalyzeFile.Range | scripts/analyze_file.py:41 | `range(0, stop, step)` raises ValueError exactly for a zero step |
| AnalyzeFile.RangeFromElements | scripts/analyze_file.py:41 | element k of `range` is start + k*step, all on the near side of stop, the next one not |
| AnalyzeFile.ClampIndex | scripts/analyze_file.py:43 | a slice bound is clipped into [0, n] and kept when already inside |
| AnalyzeFile.PySlice | scripts/analyze_file.py:43 | `y[a:b]` is the plain subsequence for in-range bounds |
| AnalyzeFile.WindowStarts | scripts/analyze_file.py:41 | for a positive hop the starts are 0, hop, 2*hop, ... strictly below n - frame |
| AnalyzeFile.WindowsInBounds | scripts/analyze_file.py:41-43 | every window lies within the signal, and there is none exactly when n <= frame |
| AnalyzeFile.Buffer | scripts/analyze_file.py:42-43 | a window of a positive frame holds at most `frame` samples, and exactly y[start .. start+frame] when it lies within the signal |
| AnalyzeFile.RowOf | scripts/analyze_file.py:44-56 | a row has time start/sr and the detector's frequency and confidence; a non-positive frequency gets "" and 0 cents; errors propagate |
| AnalyzeFile.RowLabel | scripts/analyze_file.py:50-53 | a pitched row carries the nearest note's label and cents in [-50, 50] |
| AnalyzeFile.Rows | scripts/analyze_file.py:41-56 | no starts never raise, and a run that does not raise has one row per start |
| AnalyzeFile.Columns | scripts/analyze_file.py:47-56 | the five lists grow in lockstep, one entry per row |
| AnalyzeFile.TableOf | scripts/analyze_file.py:41-56 | a table that does not raise has one entry per start in each list |
| AnalyzeFile.AnalyzeSpec | scripts/analyze_file.py:41-56 | a zero hop raises ValueError before any window; a signal no longer than a frame gives five empty lists; otherwise one entry per window start |
| AnalyzeFile.RowsPerStart | scripts/analyze_file.py:41-56 | a successful run has one row per start, row i being the body's result for start i |
| AnalyzeFile.RowsFailAtSomeStart | scripts/analyze_file.py:41-56 | a failed run failed with the error of some start |
| AnalyzeFile.RowsFailureStops | scripts/analyze_file.py:41-56 | once a window raises, the analysis ends with that error |
| AnalyzeFile.AppendRow | scripts/analyze_file.py:47-56 | one pass appends the row's fields to all five lists |
| AnalyzeFile.AnalyzeSound | scripts/analyze_file.py:41-56 | the five lists have one entry per start; entry i is the body's result on the in-bounds buffer y[start_i : start_i + frame] |
| AnalyzeFile.Analyze | scripts/analyze_file.py:41-56 | the framing loop computes `AnalyzeSpec`, exceptions included |
| AnalyzeFile.AnalyzeWindows | scripts/analyze_file.py:41-56 | the loop over the starts fills the five lists as `AnalyzeSpec` says |
| AnalyzeFile.AnalyzeWindow | scripts/analyze_file.py:42-56 | the loop body computes `RowOf` of the detector's result on the buffer |

## Left out

- Audio and output are not modelled:
  - the `sounddevice` stream and its callback, and `librosa.load`;
  - the CSV, argument parsing, stdout printing, logging and plotting.
  The models start from the samples or the detector's results.
- The queue between the audio callback and the live loop, and the thread that
  feeds it, are not modelled. `Smoother.Update` is one pass of the consumer.
- `hz_to_midi` and `midi_to_hz` contain a logarithm and a power, so they are
  not modelled:
  - labelling takes `hzToMidi` as a parameter;
  - `note_to_hz` stops at the MIDI number it converts.
- `np.hanning` contains a cosine, so its coefficients are a parameter.
- `detect_pitch` averages the last axis of a frame with any number of
  dimensions above one. `Yin.Frame` has only a one-dimensional and a
  two-dimensional case, so frames with three or more dimensions are not
  modelled. Audio frames from the stream and from `librosa.load` have at most
  two.
- Floating point is not modelled: rounding error, NaN and infinities (except
  the tuner's non-finite gate, `Float.NonFinite`), float32 conversion. So the
  sine-tone accuracy of the detector is not stated.
- The range of the parabolic refined lag is not bounded. The code does not
  bound it either. The confidence lookup `cmnd[int(round(best_tau))]` is
  modelled as a guarded numpy index that raises IndexError when out of range.
- `ParseInt` leaves out the whitespace and underscores Python's `int()`
  accepts. The labels it parses never contain them.
- AnalyzeFile.AnalyzeSound: states the result per window start for any
  detector and labeller function. The concrete detector and `hz_to_note` are
  tied to the loop by `AnalyzeFile.Analyze`, not by this lemma.
- Segment.SegmentsSound: its order and matching properties are conditional on
  strictly ascending times, which the code assumes but does not check.
- Segment.SegmentsBreak: the boundary rule is likewise stated only for
  strictly ascending times.
- Pitch.MidiToNoteOfNoteToMidi: states the name by its table index
  (`NOTE_NAMES[idx]`), which covers every name `note_to_hz` accepts.
