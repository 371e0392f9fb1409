/** The smoothing state of the live tuner in `scripts/live_tuner.py`: the
    gate on each detected frame, the bounded history of accepted frequencies
    (`freq_hist`, a `deque` with `maxlen=max(1, median)`), its median
    `f_med`, and the hysteresis that decides which note label is shown.

    The detector's result for a block is the input of `Update`; the audio
    stream, the queue between the callback and the loop, printing and
    plotting are not modelled. `hzToMidi` is `hz_to_midi` at the session's
    `a4`. The hysteresis delta `1200 * log2(f_med / f_prev)`, with `f_prev`
    the centre of the shown note, equals `100 * (hz_to_midi(f_med) - m)`
    where `m` is that note's MIDI number, and is written that way. */
module LiveTuner {
  import opened Common
  import opened Pitch
  import NoteLabel
  import Stats

  /** A float from the detector: finite, or NaN or an infinity. */
  datatype Float = Finite(value: real) | NonFinite

  /** What the tuner shows for a frame: nothing, or the smoothed frequency,
      the shown label, the cents and the confidence. */
  datatype Reading = NoPitch | Shown(fMed: real, note: string, cents: real, conf: real)

  /** `np.isfinite(f) and f > 0 and conf >= threshold`. */
  predicate Accepted(f: Float, conf: real, confThreshold: real)
  {
    f.Finite? && f.value > 0.0 && conf >= confThreshold
  }

  /** `freq_hist.append(f)` on a deque of the given `maxlen`: the new
      history holds the most recent entries, the oldest evicted first. */
  function PushBounded(hist: seq<real>, f: real, capacity: nat): (r: seq<real>)
    requires capacity >= 1
    ensures |r| == if |hist| + 1 <= capacity then |hist| + 1 else capacity
    ensures r[|r| - 1] == f
    ensures forall i :: 0 <= i < |r| - 1 ==> r[i] == hist[|hist| - (|r| - 1) + i]
  {
    var full := hist + [f];
    if |full| <= capacity then full else full[|full| - capacity..]
  }

  /** The history keeps holding only accepted (positive) frequencies, and
      never more than its bound. */
  lemma PushBoundedPositive(hist: seq<real>, f: real, capacity: nat)
    requires capacity >= 1 && f > 0.0
    requires forall i :: 0 <= i < |hist| ==> hist[i] > 0.0
    ensures 1 <= |PushBounded(hist, f, capacity)| <= capacity
    ensures forall i :: 0 <= i < |PushBounded(hist, f, capacity)| ==> PushBounded(hist, f, capacity)[i] > 0.0
  {
    var r := PushBounded(hist, f, capacity);
    forall i | 0 <= i < |r|
      ensures r[i] > 0.0
    {
      if i < |r| - 1 {
        assert r[i] == hist[|hist| - (|r| - 1) + i];
      }
    }
  }

  /** The label the tuner shows next, given the shown one, the candidate
      label of `f_med` and `hz_to_midi(f_med)`. With nothing shown, or when
      the candidate is the shown label, the candidate is shown. Otherwise the
      shown label is parsed back to a note (which raises ValueError when it
      is not a table name followed by a two-character octave) and the shown
      label is kept while `f_med` stays less than `hysteresis` cents from
      that note's centre. */
  function NextShown(shown: Option<string>, candidate: string, midiMed: real, hysteresis: real): (r: Result<string, Error>)
    ensures shown.None? ==> r == Success(candidate)
    ensures r.Success? ==> r.value == candidate || shown == Some(r.value)
    ensures r.Failure? ==> shown.Some? && shown.value != candidate && NoteLabel.ShownLabelMidi(shown.value).Failure?
  {
    if shown.None? || candidate == shown.value then Success(candidate)
    else
      match NoteLabel.ShownLabelMidi(shown.value)
      case Failure(e) => Failure(e)
      case Success(prevMidi) =>
        var centsDelta := 100.0 * (midiMed - prevMidi as real);
        if Abs(centsDelta) < hysteresis then Success(shown.value) else Success(candidate)
  }

  /** For a shown label the tuner itself produced (a table name and an
      octave from -9 to 99), a different candidate replaces it exactly when
      `f_med` is at least `hysteresis` cents away from the shown note's
      centre. */
  lemma HysteresisSwitch(n: Note, candidate: string, midiMed: real, hysteresis: real)
    requires n.name in NoteNames && -9 <= n.octave <= 99
    requires candidate != NoteLabel.ShownLabel(n)
    ensures NoteToMidi(n).Success?
    ensures NextShown(Some(NoteLabel.ShownLabel(n)), candidate, midiMed, hysteresis) ==
            Success(if Abs(100.0 * (midiMed - NoteToMidi(n).value as real)) < hysteresis
                    then NoteLabel.ShownLabel(n) else candidate)
  {
    NoteLabel.ShownLabelRoundTrip(n);
    var s := NoteLabel.ShownLabel(n);
    var prev := NoteLabel.ShownLabelMidi(s);
    assert prev == Success(NoteToMidi(n).value);
    NextShownParsed(s, candidate, midiMed, hysteresis);
  }

  lemma NextShownParsed(s: string, candidate: string, midiMed: real, hysteresis: real)
    requires candidate != s && NoteLabel.ShownLabelMidi(s).Success?
    ensures NextShown(Some(s), candidate, midiMed, hysteresis) ==
            Success(if Abs(100.0 * (midiMed - NoteLabel.ShownLabelMidi(s).value as real)) < hysteresis then s else candidate)
  {
  }

  /** A shown label whose octave lies outside -9 to 99 does not parse back,
      so a different candidate makes the tuner raise. */
  lemma HysteresisOutOfRange(n: Note, candidate: string, midiMed: real, hysteresis: real)
    requires n.name in NoteNames && !(-9 <= n.octave <= 99)
    requires candidate != NoteLabel.ShownLabel(n)
    ensures NextShown(Some(NoteLabel.ShownLabel(n)), candidate, midiMed, hysteresis).Failure?
  {
    NoteLabel.ShownLabelRoundTrip(n);
  }

  /** Within the band the label stays put: a frequency less than
      `hysteresis` cents from the centre of the shown note keeps it shown,
      whatever note `f_med` is nearest to. */
  lemma HysteresisHolds(n: Note, candidate: string, midiMed: real, hysteresis: real)
    requires n.name in NoteNames && -9 <= n.octave <= 99
    requires NoteToMidi(n).Success?
    requires Abs(100.0 * (midiMed - NoteToMidi(n).value as real)) < hysteresis
    ensures NextShown(Some(NoteLabel.ShownLabel(n)), candidate, midiMed, hysteresis) == Success(NoteLabel.ShownLabel(n))
  {
    if candidate != NoteLabel.ShownLabel(n) {
      HysteresisSwitch(n, candidate, midiMed, hysteresis);
    }
  }

  /** The smoothing state of the tuner's loop and its settings. */
  class Smoother {
    const hzToMidi: real -> real
    const confThreshold: real
    /** `max(1, median)`, the `maxlen` of `freq_hist`. */
    const capacity: nat
    const hysteresis: real

    var freqHist: seq<real>
    var shownNote: Option<string>
    var shownFreq: Option<real>

    /** The history is within its bound and holds accepted (positive)
        frequencies; a note is shown only once a frame was accepted. */
    ghost predicate Valid()
      reads this
    {
      && capacity >= 1
      && |freqHist| <= capacity
      && (forall i :: 0 <= i < |freqHist| ==> freqHist[i] > 0.0)
      && (shownNote.Some? ==> |freqHist| > 0 && shownFreq.Some?)
    }

    constructor (hzToMidi: real -> real, confThreshold: real, median: int, hysteresis: real)
      ensures Valid()
      ensures this.hzToMidi == hzToMidi && this.confThreshold == confThreshold && this.hysteresis == hysteresis
      ensures capacity == if median >= 1 then median else 1
      ensures freqHist == [] && shownNote == None && shownFreq == None
    {
      this.hzToMidi := hzToMidi;
      this.confThreshold := confThreshold;
      this.capacity := if median >= 1 then median else 1;
      this.hysteresis := hysteresis;
      freqHist := [];
      shownNote := None;
      shownFreq := None;
    }

    /** One accepted-or-rejected frame of the tuner's loop. A rejected frame
        shows "no pitch" and changes nothing. An accepted one enters the
        history; the reading is its median, the candidate label of that
        median, filtered by the hysteresis, and the cents of the median from
        its own nearest note (not from the shown one). */
    method Update(f: Float, conf: real) returns (r: Result<Reading, Error>)
      requires Valid()
      modifies this
      ensures Valid()
      ensures !Accepted(f, conf, confThreshold) ==>
                && r == Success(NoPitch)
                && freqHist == old(freqHist) && shownNote == old(shownNote) && shownFreq == old(shownFreq)
      ensures Accepted(f, conf, confThreshold) ==>
                && freqHist == PushBounded(old(freqHist), f.value, capacity)
                && var fMed := Stats.Median(freqHist);
                   var l := LabelOfMidi(hzToMidi(fMed));
                   var candidate := NoteLabel.ShownLabel(Note(l.name, l.octave));
                   match NextShown(old(shownNote), candidate, hzToMidi(fMed), hysteresis)
                   case Failure(e) => r == Failure(e) && shownNote == old(shownNote) && shownFreq == old(shownFreq)
                   case Success(s) =>
                     && r == Success(Shown(fMed, s, l.cents, conf))
                     && shownNote == Some(s) && shownFreq == Some(fMed)
      ensures r.Success? && r.value.Shown? ==>
                && Stats.Min(freqHist) <= r.value.fMed <= Stats.Max(freqHist)
                && r.value.fMed > 0.0
                && -50.0 <= r.value.cents <= 50.0
    {
      // Gate low-confidence frames
      if !(f.Finite? && f.value > 0.0 && conf >= confThreshold) {
        return Success(NoPitch);
      }
      r := Accept(f.value, conf);
    }

    /** The part of the loop after the gate, for an accepted frequency. */
    method Accept(f: real, conf: real) returns (r: Result<Reading, Error>)
      requires Valid() && f > 0.0
      modifies this
      ensures Valid()
      ensures freqHist == PushBounded(old(freqHist), f, capacity)
      ensures var fMed := Stats.Median(freqHist);
              var l := LabelOfMidi(hzToMidi(fMed));
              var candidate := NoteLabel.ShownLabel(Note(l.name, l.octave));
              match NextShown(old(shownNote), candidate, hzToMidi(fMed), hysteresis)
              case Failure(e) => r == Failure(e) && shownNote == old(shownNote) && shownFreq == old(shownFreq)
              case Success(s) =>
                && r == Success(Shown(fMed, s, l.cents, conf))
                && shownNote == Some(s) && shownFreq == Some(fMed)
      ensures r.Success? ==> r.value.Shown?
      ensures r.Success? ==>
                && Stats.Min(freqHist) <= r.value.fMed <= Stats.Max(freqHist)
                && r.value.fMed > 0.0
                && -50.0 <= r.value.cents <= 50.0
    {
      // Rolling median smoothing
      PushBoundedPositive(freqHist, f, capacity);
      freqHist := PushBounded(freqHist, f, capacity);
      var fMed := if |freqHist| > 0 then Stats.Median(freqHist) else f;
      var l := LabelOfMidi(hzToMidi(fMed));
      var candidate := NoteLabel.ShownLabel(Note(l.name, l.octave));
      var next := Hysteresis(candidate, fMed);
      if next.Failure? {
        return Failure(next.error);
      }
      shownNote := Some(next.value);
      shownFreq := Some(fMed);
      assert Stats.Min(freqHist) in freqHist;
      r := Success(Shown(fMed, next.value, l.cents, conf));
    }

    /** The hysteresis on a note change: the label to show for the
        candidate label of `fMed`. This is the statement-by-statement form
        of the branch; `NextShown` is the same computation as a function,
        and the lemmas about the hysteresis are stated on it. */
    method Hysteresis(candidate: string, fMed: real) returns (r: Result<string, Error>)
      ensures r == NextShown(shownNote, candidate, hzToMidi(fMed), hysteresis)
    {
      var curNote := candidate;
      if shownNote.Some? && curNote != shownNote.value {
        // the cents of fMed from the centre of the previously shown note
        var prev := NoteLabel.ShownLabelMidi(shownNote.value);
        if prev.Failure? {
          return Failure(prev.error);
        }
        var centsDelta := 100.0 * (hzToMidi(fMed) - prev.value as real);
        if Abs(centsDelta) < hysteresis {
          // keep showing the old note until the hysteresis is crossed
          curNote := shownNote.value;
        }
      }
      r := Success(curNote);
    }
  }
}
