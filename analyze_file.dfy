/** The framing loop of the offline analysis in `scripts/analyze_file.py`:
    the window starts `range(0, n - frame, hop)`, the buffer `y[start:end]`
    of each window, its pitch from `detect_pitch`, and the five columns the
    loop appends to (`times`, `freqs`, `notes`, `cents_list`, `confs`).

    Loading the audio, the arguments, the CSV output and the plot are not
    modelled. `hzToMidi` is `hz_to_midi` at the `--tuning` frequency and
    `hann(k)` stands for `np.hanning(k)`, which has `k` coefficients. */
module AnalyzeFile {
  import opened Common
  import opened Pitch
  import NoteLabel
  import Yin

  /** Python's `range(start, stop, step)` for a non-zero step: it counts
      up from `start` while below `stop`, or down while above it: it is
      empty exactly when `start` is already at or past `stop`, and otherwise
      starts at `start` and ends on the near side of `stop`. */
  function RangeFrom(start: int, stop: int, step: int): (r: seq<int>)
    requires step != 0
    ensures r == [] <==> (step > 0 && start >= stop) || (step < 0 && start <= stop)
    ensures r != [] ==> r[0] == start && (step > 0 ==> r[|r| - 1] < stop) && (step < 0 ==> r[|r| - 1] > stop)
    decreases if step > 0 then stop - start else start - stop
  {
    if (step > 0 && start < stop) || (step < 0 && start > stop) then
      [start] + RangeFrom(start + step, stop, step)
    else []
  }

  /** The k-th element of the range is `start + k*step`, every element is
      on the near side of `stop`, and the next one would not be. */
  lemma {:induction false} RangeFromElements(start: int, stop: int, step: int)
    requires step != 0
    ensures var r := RangeFrom(start, stop, step);
            && (forall k :: 0 <= k < |r| ==> r[k] == start + k * step)
            && (step > 0 ==> (forall k :: 0 <= k < |r| ==> r[k] < stop) && start + |r| * step >= stop)
            && (step < 0 ==> (forall k :: 0 <= k < |r| ==> r[k] > stop) && start + |r| * step <= stop)
    decreases if step > 0 then stop - start else start - stop
  {
    if (step > 0 && start < stop) || (step < 0 && start > stop) {
      var rest := RangeFrom(start + step, stop, step);
      RangeFromElements(start + step, stop, step);
      var r := [start] + rest;
      forall k | 1 <= k < |r|
        ensures r[k] == start + k * step
      {
        StepShift(start, step, k);
      }
      StepShift(start, step, |r|);
    }
  }

  lemma StepShift(start: int, step: int, k: int)
    ensures (start + step) + (k - 1) * step == start + k * step
  {
  }

  /** `range(0, stop, step)`, which raises ValueError exactly for a zero
      step. */
  function Range(stop: int, step: int): (r: Result<seq<int>, Error>)
    ensures r.Failure? <==> step == 0
    ensures r.Failure? ==> r.error == ZeroRangeStep
  {
    if step == 0 then Failure(ZeroRangeStep) else Success(RangeFrom(0, stop, step))
  }

  /** A slice bound of a sequence of length `n`: a negative bound counts from
      the end, and the result is clipped to `[0, n]`. */
  function ClampIndex(i: int, n: nat): (j: nat)
    ensures j <= n
    ensures 0 <= i <= n ==> j == i
  {
    if i < 0 then (if i + n < 0 then 0 else i + n)
    else if i > n then n
    else i
  }

  /** Clipping two ordered bounds does not widen the gap between them. */
  lemma ClampGap(a: int, b: int, n: nat)
    ensures a <= b ==> ClampIndex(b, n) - ClampIndex(a, n) <= b - a
  {
  }

  /** `y[a:b]` on a one-dimensional array. */
  function PySlice(y: seq<real>, a: int, b: int): (r: seq<real>)
    ensures |r| <= |y|
    ensures 0 <= a <= b <= |y| ==> r == y[a..b]
  {
    var lo := ClampIndex(a, |y|);
    var hi := ClampIndex(b, |y|);
    if hi <= lo then [] else y[lo..hi]
  }

  /** One line of the analysis: the columns the loop appends for a window. */
  datatype Row = Row(time: real, freq: real, note: string, cents: real, conf: real)

  /** The five lists the loop fills. */
  datatype Table = Table(times: seq<real>, freqs: seq<real>, notes: seq<string>, cents: seq<real>, confs: seq<real>)

  /** The window of `frame` samples from `start`: `y[start:start + frame]`.
      A positive frame never gives more than `frame` samples, and exactly
      those when the window lies within the signal. */
  function Buffer(y: seq<real>, start: int, frame: int): (r: seq<real>)
    ensures |r| <= |y| && (frame > 0 ==> |r| <= frame)
    ensures frame >= 0 && 0 <= start && start + frame <= |y| ==> r == y[start..start + frame] && |r| == frame
  {
    ClampGap(start, start + frame, |y|);
    PySlice(y, start, start + frame)
  }

  /** `detect_pitch(buf, sr, fmin=fmin, fmax=fmax)` as a function of the
      buffer, with `hann(len(buf))` as its window. */
  function Detector(sr: int, fmin: real, fmax: real, hann: nat -> seq<real>): seq<real> -> Result<Yin.PitchResult, Error>
    requires forall k: nat :: |hann(k)| == k
  {
    buf => Yin.DetectPitchSpec(Yin.Mono(buf), sr, fmin, fmax, hann(|buf|))
  }

  /** `hz_to_note(f, a4)` as a function of the frequency. */
  function HzToNote(hzToMidi: real -> real): real -> PitchLabel
  {
    f => LabelOfMidi(hzToMidi(f))
  }

  /** The body of the loop for one window start, given what `detect_pitch`
      gave for its buffer: propagate its error, take `start / sr`
      (ZeroDivisionError when `sr` is 0), and label a positive frequency with
      `hz_to_note`; a frame without a pitch gets an empty label and zero
      cents. */
  function RowOf(start: int, sr: int, res: Result<Yin.PitchResult, Error>, toNote: real -> PitchLabel): (r: Result<Row, Error>)
    ensures r.Success? <==> res.Success? && sr != 0
    ensures res.Failure? ==> r == Failure(res.error)
    ensures r.Success? ==>
              && r.value.time == start as real / sr as real
              && r.value.freq == res.value.frequency
              && r.value.conf == res.value.confidence
              && (r.value.freq <= 0.0 ==> r.value.note == "" && r.value.cents == 0.0)
  {
    match res
    case Failure(e) => Failure(e)
    case Success(p) =>
      if sr == 0 then Failure(ZeroDivision)
      else
        var time := start as real / sr as real;
        if p.frequency > 0.0 then
          var l := toNote(p.frequency);
          Success(Row(time, p.frequency, NoteLabel.SegmentLabel(Note(l.name, l.octave)), l.cents, p.confidence))
        else
          Success(Row(time, p.frequency, "", 0.0, p.confidence))
  }

  /** A row with a pitch is labelled with the note nearest to its frequency,
      and its cents from that note's centre lie within half a semitone. */
  lemma RowLabel(start: int, sr: int, res: Result<Yin.PitchResult, Error>, hzToMidi: real -> real)
    requires RowOf(start, sr, res, HzToNote(hzToMidi)).Success?
    requires res.value.frequency > 0.0
    ensures var row := RowOf(start, sr, res, HzToNote(hzToMidi)).value;
            && row.note == NoteLabel.SegmentLabel(MidiToNote(hzToMidi(row.freq)))
            && -50.0 <= row.cents <= 50.0
  {
  }

  /** The rows of the windows at `starts`, in order; the first window whose
      body raises ends the analysis with its error, so no starts never raise
      and a run that does not raise has one row per start. */
  function Rows(y: seq<real>, starts: seq<int>, frame: int, sr: int,
                detect: seq<real> -> Result<Yin.PitchResult, Error>, toNote: real -> PitchLabel): (r: Result<seq<Row>, Error>)
    ensures r.Failure? ==> starts != []
    ensures r.Success? ==> |r.value| == |starts|
  {
    if starts == [] then Success([])
    else
      match Rows(y, starts[..|starts| - 1], frame, sr, detect, toNote)
      case Failure(e) => Failure(e)
      case Success(rows) =>
        var start := starts[|starts| - 1];
        match RowOf(start, sr, detect(Buffer(y, start, frame)), toNote)
        case Failure(e) => Failure(e)
        case Success(row) => Success(rows + [row])
  }

  /** The five lists, column by column. */
  function Columns(rows: seq<Row>): (t: Table)
    ensures |t.times| == |t.freqs| == |t.notes| == |t.cents| == |t.confs| == |rows|
  {
    Table(seq(|rows|, i requires 0 <= i < |rows| => rows[i].time),
          seq(|rows|, i requires 0 <= i < |rows| => rows[i].freq),
          seq(|rows|, i requires 0 <= i < |rows| => rows[i].note),
          seq(|rows|, i requires 0 <= i < |rows| => rows[i].cents),
          seq(|rows|, i requires 0 <= i < |rows| => rows[i].conf))
  }

  /** What the loop leaves in the five lists, or the error it raises: a
      zero hop raises before any window, and a signal no longer than a frame
      gives five empty lists. */
  function AnalyzeSpec(y: seq<real>, sr: int, hop: int, frame: int,
                       detect: seq<real> -> Result<Yin.PitchResult, Error>, toNote: real -> PitchLabel): (r: Result<Table, Error>)
    ensures hop == 0 ==> r == Failure(ZeroRangeStep)
    ensures hop > 0 && |y| <= frame ==> r == Success(Table([], [], [], [], []))
    ensures hop != 0 && r.Success? ==> |r.value.times| == |Range(|y| - frame, hop).value|
  {
    match Range(|y| - frame, hop)
    case Failure(e) => Failure(e)
    case Success(starts) => TableOf(y, starts, frame, sr, detect, toNote)
  }

  /** The five lists for the windows at `starts`, or the first error; the
      lists have one entry per start. */
  function TableOf(y: seq<real>, starts: seq<int>, frame: int, sr: int,
                   detect: seq<real> -> Result<Yin.PitchResult, Error>, toNote: real -> PitchLabel): (r: Result<Table, Error>)
    ensures r.Success? ==> |r.value.times| == |r.value.freqs| == |r.value.notes| == |r.value.cents| == |r.value.confs| == |starts|
    ensures r.Failure? ==> starts != []
  {
    match Rows(y, starts, frame, sr, detect, toNote)
    case Failure(e) => Failure(e)
    case Success(rows) => Success(Columns(rows))
  }

  /** For a positive hop the window starts are 0, hop, 2*hop, ... strictly
      below `n - frame`. */
  lemma WindowStarts(n: nat, hop: int, frame: int)
    requires hop > 0
    ensures Range(n - frame, hop).Success?
    ensures var starts := Range(n - frame, hop).value;
            && (forall k :: 0 <= k < |starts| ==> starts[k] == k * hop && starts[k] < n - frame)
            && |starts| * hop >= n - frame
  {
    RangeFromElements(0, n - frame, hop);
  }

  /** For a positive hop and a non-negative frame size every window lies
      entirely within the signal, and a signal no longer than one frame gives
      no window at all. */
  lemma WindowsInBounds(n: nat, hop: int, frame: int)
    requires hop > 0 && frame >= 0
    ensures Range(n - frame, hop).Success?
    ensures var starts := Range(n - frame, hop).value;
            && (forall k :: 0 <= k < |starts| ==> 0 <= starts[k] && starts[k] + frame < n)
            && (n <= frame <==> starts == [])
  {
    WindowStarts(n, hop, frame);
    var starts := Range(n - frame, hop).value;
    forall k | 0 <= k < |starts|
      ensures 0 <= starts[k]
    {
      assert starts[k] == k * hop;
    }
    if n > frame {
      assert |starts| > 0;
    }
  }

  /** A successful run has one row per start, and row `i` is the body's
      result for start `i`. */
  lemma {:induction false} RowsPerStart(y: seq<real>, starts: seq<int>, frame: int, sr: int,
                                        detect: seq<real> -> Result<Yin.PitchResult, Error>, toNote: real -> PitchLabel)
    requires Rows(y, starts, frame, sr, detect, toNote).Success?
    ensures |Rows(y, starts, frame, sr, detect, toNote).value| == |starts|
    ensures forall i :: 0 <= i < |starts| ==>
              RowOf(starts[i], sr, detect(Buffer(y, starts[i], frame)), toNote)
                == Success(Rows(y, starts, frame, sr, detect, toNote).value[i])
  {
    if starts != [] {
      var init := starts[..|starts| - 1];
      RowsPerStart(y, init, frame, sr, detect, toNote);
      var rows := Rows(y, starts, frame, sr, detect, toNote).value;
      forall i | 0 <= i < |init|
        ensures RowOf(starts[i], sr, detect(Buffer(y, starts[i], frame)), toNote) == Success(rows[i])
      {
        assert starts[i] == init[i];
      }
    }
  }

  /** A failed run failed at some start, with that start's error. */
  lemma {:induction false} RowsFailAtSomeStart(y: seq<real>, starts: seq<int>, frame: int, sr: int,
                                               detect: seq<real> -> Result<Yin.PitchResult, Error>, toNote: real -> PitchLabel)
    requires Rows(y, starts, frame, sr, detect, toNote).Failure?
    ensures exists i :: 0 <= i < |starts| &&
              RowOf(starts[i], sr, detect(Buffer(y, starts[i], frame)), toNote)
                == Failure(Rows(y, starts, frame, sr, detect, toNote).error)
  {
    var init := starts[..|starts| - 1];
    var r0 := Rows(y, init, frame, sr, detect, toNote);
    if r0.Failure? {
      RowsFailAtSomeStart(y, init, frame, sr, detect, toNote);
      var i :| 0 <= i < |init| && RowOf(init[i], sr, detect(Buffer(y, init[i], frame)), toNote) == Failure(r0.error);
      assert starts[i] == init[i];
    } else {
      var i := |starts| - 1;
      assert RowOf(starts[i], sr, detect(Buffer(y, starts[i], frame)), toNote)
               == Failure(Rows(y, starts, frame, sr, detect, toNote).error);
    }
  }

  /** One more start extends the rows by that start's row, or raises. */
  lemma RowsSnoc(y: seq<real>, starts: seq<int>, i: nat, frame: int, sr: int,
                 detect: seq<real> -> Result<Yin.PitchResult, Error>, toNote: real -> PitchLabel)
    requires i < |starts|
    requires Rows(y, starts[..i], frame, sr, detect, toNote).Success?
    requires RowOf(starts[i], sr, detect(Buffer(y, starts[i], frame)), toNote).Success?
    ensures Rows(y, starts[..i + 1], frame, sr, detect, toNote)
              == Success(Rows(y, starts[..i], frame, sr, detect, toNote).value
                         + [RowOf(starts[i], sr, detect(Buffer(y, starts[i], frame)), toNote).value])
  {
    assert starts[..i + 1][..i] == starts[..i];
  }

  /** The loop's step on the five lists: appending the row of start `i`
      to each column keeps them the columns of the rows so far. */
  lemma AppendRow(y: seq<real>, starts: seq<int>, i: nat, frame: int, sr: int,
                  detect: seq<real> -> Result<Yin.PitchResult, Error>, toNote: real -> PitchLabel,
                  t: Table, row: Row)
    requires i < |starts|
    requires Rows(y, starts[..i], frame, sr, detect, toNote).Success?
    requires Columns(Rows(y, starts[..i], frame, sr, detect, toNote).value) == t
    requires RowOf(starts[i], sr, detect(Buffer(y, starts[i], frame)), toNote) == Success(row)
    ensures Rows(y, starts[..i + 1], frame, sr, detect, toNote).Success?
    ensures Columns(Rows(y, starts[..i + 1], frame, sr, detect, toNote).value)
              == Table(t.times + [row.time], t.freqs + [row.freq], t.notes + [row.note],
                       t.cents + [row.cents], t.confs + [row.conf])
  {
    RowsSnoc(y, starts, i, frame, sr, detect, toNote);
    ColumnsSnoc(Rows(y, starts[..i], frame, sr, detect, toNote).value, row);
  }

  /** A window that raises ends the rows with its error. */
  lemma RowsSnocFailure(y: seq<real>, starts: seq<int>, i: nat, frame: int, sr: int,
                        detect: seq<real> -> Result<Yin.PitchResult, Error>, toNote: real -> PitchLabel)
    requires i < |starts|
    requires Rows(y, starts[..i], frame, sr, detect, toNote).Success?
    requires RowOf(starts[i], sr, detect(Buffer(y, starts[i], frame)), toNote).Failure?
    ensures Rows(y, starts, frame, sr, detect, toNote)
              == Failure(RowOf(starts[i], sr, detect(Buffer(y, starts[i], frame)), toNote).error)
  {
    assert starts[..i + 1][..i] == starts[..i];
    RowsFailureStops(y, starts, i + 1, frame, sr, detect, toNote);
  }

  /** Once a window raises, the analysis of any longer run of starts raises
      the same error: the loop stops at the first failing window. */
  lemma {:induction false} RowsFailureStops(y: seq<real>, starts: seq<int>, j: nat, frame: int, sr: int,
                                            detect: seq<real> -> Result<Yin.PitchResult, Error>, toNote: real -> PitchLabel)
    requires j <= |starts|
    requires Rows(y, starts[..j], frame, sr, detect, toNote).Failure?
    ensures Rows(y, starts, frame, sr, detect, toNote) == Rows(y, starts[..j], frame, sr, detect, toNote)
    decreases |starts|
  {
    if j < |starts| {
      var init := starts[..|starts| - 1];
      assert init[..j] == starts[..j];
      RowsFailureStops(y, init, j, frame, sr, detect, toNote);
    } else {
      assert starts[..j] == starts;
    }
  }

  /** The table of a successful analysis with a positive hop and a
      non-negative frame: the five lists grow in lockstep, one entry per
      window start (the starts are `i*hop`, see `WindowsInBounds`), and entry
      `i` is the body's result for the pitch detected in the in-bounds buffer
      `y[start:start + frame]` of start `i`. */
  lemma AnalyzeSound(y: seq<real>, sr: int, hop: int, frame: int,
                     detect: seq<real> -> Result<Yin.PitchResult, Error>, toNote: real -> PitchLabel,
                     starts: seq<int>, t: Table)
    requires hop > 0 && frame >= 0
    requires Range(|y| - frame, hop) == Success(starts)
    requires AnalyzeSpec(y, sr, hop, frame, detect, toNote) == Success(t)
    ensures |t.times| == |starts| && |t.freqs| == |starts| && |t.notes| == |starts|
    ensures |t.cents| == |starts| && |t.confs| == |starts|
    ensures |y| <= frame ==> t.times == []
    ensures forall i :: 0 <= i < |starts| ==> 0 <= starts[i] && starts[i] + frame < |y|
    ensures forall i :: 0 <= i < |starts| ==>
              RowOf(starts[i], sr, detect(y[starts[i]..starts[i] + frame]), toNote)
                == Success(Row(t.times[i], t.freqs[i], t.notes[i], t.cents[i], t.confs[i]))
  {
    assert TableOf(y, starts, frame, sr, detect, toNote) == Success(t);
    WindowsInBounds(|y|, hop, frame);
    TableRows(y, starts, frame, sr, detect, toNote, t);
  }

  /** The table for in-bounds window starts: one entry per start, entry `i`
      being the body's result for the buffer of start `i`. */
  lemma TableRows(y: seq<real>, starts: seq<int>, frame: int, sr: int,
                  detect: seq<real> -> Result<Yin.PitchResult, Error>, toNote: real -> PitchLabel, t: Table)
    requires frame >= 0
    requires forall i :: 0 <= i < |starts| ==> 0 <= starts[i] && starts[i] + frame < |y|
    requires TableOf(y, starts, frame, sr, detect, toNote) == Success(t)
    ensures |t.times| == |starts| && |t.freqs| == |starts| && |t.notes| == |starts|
    ensures |t.cents| == |starts| && |t.confs| == |starts|
    ensures forall i :: 0 <= i < |starts| ==>
              RowOf(starts[i], sr, detect(y[starts[i]..starts[i] + frame]), toNote)
                == Success(Row(t.times[i], t.freqs[i], t.notes[i], t.cents[i], t.confs[i]))
  {
    var rows := Rows(y, starts, frame, sr, detect, toNote).value;
    assert t == Columns(rows);
    RowsPerStart(y, starts, frame, sr, detect, toNote);
    forall i | 0 <= i < |starts|
      ensures RowOf(starts[i], sr, detect(y[starts[i]..starts[i] + frame]), toNote)
                == Success(Row(t.times[i], t.freqs[i], t.notes[i], t.cents[i], t.confs[i]))
    {
      assert Buffer(y, starts[i], frame) == y[starts[i]..starts[i] + frame];
      ColumnsAt(rows, i);
    }
  }

  /** Entry `i` of the five columns is row `i`. */
  lemma ColumnsAt(rows: seq<Row>, i: nat)
    requires i < |rows|
    ensures var t := Columns(rows);
            |t.times| == |t.freqs| == |t.notes| == |t.cents| == |t.confs| == |rows|
            && Row(t.times[i], t.freqs[i], t.notes[i], t.cents[i], t.confs[i]) == rows[i]
  {
  }

  /** The framing loop of `main`. */
  method Analyze(y: seq<real>, sr: int, hop: int, frame: int, fmin: real, fmax: real,
                 hann: nat -> seq<real>, hzToMidi: real -> real) returns (r: Result<Table, Error>)
    requires forall k: nat :: |hann(k)| == k
    ensures r == AnalyzeSpec(y, sr, hop, frame, Detector(sr, fmin, fmax, hann), HzToNote(hzToMidi))
  {
    var n := |y|;
    var range := Range(n - frame, hop);
    if range.Failure? {
      return Failure(range.error);
    }
    r := AnalyzeWindows(y, sr, hop, frame, fmin, fmax, hann, hzToMidi, range.value);
  }

  /** The loop over the window starts, filling the five lists. */
  method AnalyzeWindows(y: seq<real>, sr: int, hop: int, frame: int, fmin: real, fmax: real,
                        hann: nat -> seq<real>, hzToMidi: real -> real, starts: seq<int>) returns (r: Result<Table, Error>)
    requires forall k: nat :: |hann(k)| == k
    requires Range(|y| - frame, hop) == Success(starts)
    ensures r == AnalyzeSpec(y, sr, hop, frame, Detector(sr, fmin, fmax, hann), HzToNote(hzToMidi))
  {
    ghost var detect := Detector(sr, fmin, fmax, hann);
    ghost var toNote := HzToNote(hzToMidi);
    var times: seq<real> := [];
    var freqs: seq<real> := [];
    var notes: seq<string> := [];
    var centsList: seq<real> := [];
    var confs: seq<real> := [];
    for i := 0 to |starts|
      invariant Rows(y, starts[..i], frame, sr, detect, toNote).Success?
      invariant Columns(Rows(y, starts[..i], frame, sr, detect, toNote).value)
                  == Table(times, freqs, notes, centsList, confs)
    {
      var start := starts[i];
      var end := start + frame;
      var buf := PySlice(y, start, end);
      var row := AnalyzeWindow(buf, start, sr, fmin, fmax, hann, hzToMidi);
      assert row == RowOf(starts[i], sr, detect(Buffer(y, starts[i], frame)), toNote);
      if row.Failure? {
        RowsSnocFailure(y, starts, i, frame, sr, detect, toNote);
        return Failure(row.error);
      }
      AppendRow(y, starts, i, frame, sr, detect, toNote, Table(times, freqs, notes, centsList, confs), row.value);
      times := times + [row.value.time];
      freqs := freqs + [row.value.freq];
      notes := notes + [row.value.note];
      centsList := centsList + [row.value.cents];
      confs := confs + [row.value.conf];
    }
    assert starts[..|starts|] == starts;
    r := Success(Table(times, freqs, notes, centsList, confs));
  }

  /** The body of the loop for the buffer `buf` of the window at `start`,
      statement by statement; `RowOf` is the same computation as a function,
      and the lemmas about the loop are stated on it. */
  method AnalyzeWindow(buf: seq<real>, start: int, sr: int, fmin: real, fmax: real,
                       hann: nat -> seq<real>, hzToMidi: real -> real) returns (row: Result<Row, Error>)
    requires forall k: nat :: |hann(k)| == k
    ensures row == RowOf(start, sr, Detector(sr, fmin, fmax, hann)(buf), HzToNote(hzToMidi))
  {
    var res := Yin.DetectPitch(Yin.Mono(buf), sr, fmin, fmax, "yin", hann(|buf|));
    if res.Failure? {
      return Failure(res.error);
    }
    var f := res.value.frequency;
    var c := res.value.confidence;
    if sr == 0 {
      return Failure(ZeroDivision);
    }
    var time := start as real / sr as real;
    if f > 0.0 {
      var l := LabelOfMidi(hzToMidi(f));
      row := Success(Row(time, f, NoteLabel.SegmentLabel(Note(l.name, l.octave)), l.cents, c));
    } else {
      row := Success(Row(time, f, "", 0.0, c));
    }
  }

  lemma ColumnsSnoc(rows: seq<Row>, row: Row)
    ensures var t := Columns(rows);
            Columns(rows + [row]) == Table(t.times + [row.time], t.freqs + [row.freq], t.notes + [row.note],
                                           t.cents + [row.cents], t.confs + [row.conf])
  {
  }
}
