/** The offline note segmenter of `src/mellymell/segment.py`.

    `segment_notes` walks the frames in order with an open note (`cur_note`,
    `cur_start`, the accumulated `cur_cents` and `cur_confs`) and the time of
    the previous frame (`last_time`); the nested `close_segment` emits the
    open note when it is long enough and resets it through `nonlocal`. Here
    that state is the class `Segmenter`, `close_segment` its method
    `CloseSegment`, the loop body its method `Feed`.

    `hz_to_note(f, a4)` is `LabelOfMidi(hzToMidi(f))`, where `hzToMidi` is
    `hz_to_midi` at the session's `a4` (its logarithm is not modelled). */
module Segment {
  import opened Common
  import opened Pitch
  import NoteLabel
  import Stats

  datatype NoteSegment = NoteSegment(startS: real, endS: real, note: string, medianCents: real, meanConfidence: real)

  /** One analysed frame: its time, frequency and confidence. */
  datatype Frame = Frame(t: real, f: real, c: real)

  /** `zip(times, freqs, confs)`, which stops at the shortest input. */
  function Zip(times: seq<real>, freqs: seq<real>, confs: seq<real>): (fs: seq<Frame>)
    ensures |fs| <= |times| && |fs| <= |freqs| && |fs| <= |confs|
    ensures |fs| == |times| || |fs| == |freqs| || |fs| == |confs|
    ensures forall i :: 0 <= i < |fs| ==> fs[i] == Frame(times[i], freqs[i], confs[i])
  {
    var n := if |times| <= |freqs| && |times| <= |confs| then |times|
             else if |freqs| <= |confs| then |freqs| else |confs|;
    seq(n, i requires 0 <= i < n => Frame(times[i], freqs[i], confs[i]))
  }

  /** `valid = (f > 0) and (c >= conf_threshold)`. */
  predicate IsValid(fr: Frame, confThreshold: real)
  {
    fr.f > 0.0 && fr.c >= confThreshold
  }

  /** `f"{name}{octave}"` of `hz_to_note(f)`. */
  function NoteOf(hzToMidi: real -> real, f: real): string
  {
    var l := LabelOfMidi(hzToMidi(f));
    NoteLabel.SegmentLabel(Note(l.name, l.octave))
  }

  /** The cents of `hz_to_note(f)`. */
  function CentsOf(hzToMidi: real -> real, f: real): real
  {
    LabelOfMidi(hzToMidi(f)).cents
  }

  ghost predicate Ascending(fs: seq<Frame>)
  {
    forall i, j :: 0 <= i < j < |fs| ==> fs[i].t < fs[j].t
  }

  /** The valid frames whose time lies in `[lo, hi]`, in input order. */
  function Window(fs: seq<Frame>, lo: real, hi: real, confThreshold: real): seq<Frame>
  {
    if fs == [] then []
    else
      var last := fs[|fs| - 1];
      var init := Window(fs[..|fs| - 1], lo, hi, confThreshold);
      if IsValid(last, confThreshold) && lo <= last.t <= hi then init + [last] else init
  }

  /** The window holds exactly the valid frames of `fs` timed in `[lo, hi]`. */
  lemma {:induction false} WindowMembers(fs: seq<Frame>, lo: real, hi: real, confThreshold: real)
    ensures forall fr :: fr in Window(fs, lo, hi, confThreshold) <==> fr in fs && IsValid(fr, confThreshold) && lo <= fr.t <= hi
  {
    if fs != [] {
      WindowMembers(fs[..|fs| - 1], lo, hi, confThreshold);
      assert forall fr :: fr in fs <==> fr in fs[..|fs| - 1] || fr == fs[|fs| - 1];
    }
  }

  function CentsList(hzToMidi: real -> real, w: seq<Frame>): (cents: seq<real>)
    ensures |cents| == |w|
  {
    seq(|w|, i requires 0 <= i < |w| => CentsOf(hzToMidi, w[i].f))
  }

  function ConfList(w: seq<Frame>): (confs: seq<real>)
    ensures |confs| == |w|
  {
    seq(|w|, i requires 0 <= i < |w| => w[i].c)
  }

  /** `close_segment(end_time)`: what it appends to `segments`. A segment is
      emitted exactly when a note is open, it lasted at least `min_seg_dur`
      and it holds at least one frame; it carries the median of the cents and
      the mean of the confidences. */
  function Closed(note: Option<string>, start: Option<real>, cents: seq<real>, confs: seq<real>,
                  endTime: real, minSegDur: real): (r: seq<NoteSegment>)
    ensures |r| <= 1
    ensures |r| == 1 <==> note.Some? && start.Some? && endTime - start.value >= minSegDur && |cents| > 0
    ensures |r| == 1 ==> r[0].startS == start.value && r[0].endS == endTime && r[0].note == note.value
    ensures |r| == 1 ==> r[0].medianCents == Stats.Median(cents)
    ensures |r| == 1 && |confs| > 0 ==> r[0].meanConfidence == Stats.Mean(confs)
  {
    if note.None? || start.None? then []
    else if endTime - start.value >= minSegDur && |cents| > 0 then
      [NoteSegment(start.value, endTime, note.value, Stats.Median(cents),
                   if |confs| > 0 then Stats.Mean(confs) else 0.0)]
    else []
  }

  /** What an emitted segment says about the frames: its window of valid
      frames starts with the frame that opened it, every frame of the window
      carries its note, and its statistics are those of the window. */
  ghost predicate SegmentMatches(seg: NoteSegment, fs: seq<Frame>, hzToMidi: real -> real, confThreshold: real)
  {
    var w := Window(fs, seg.startS, seg.endS, confThreshold);
    && |w| > 0
    && w[0].t == seg.startS
    && (forall i :: 0 <= i < |w| ==> NoteOf(hzToMidi, w[i].f) == seg.note)
    && seg.medianCents == Stats.Median(CentsList(hzToMidi, w))
    && seg.meanConfidence == Stats.Mean(ConfList(w))
  }

  /** Emitted segments in order: each starts no later than it ends and ends
      before the next one starts. */
  ghost predicate Sequential(segs: seq<NoteSegment>)
  {
    && (forall k :: 0 <= k < |segs| ==> segs[k].startS <= segs[k].endS)
    && (forall k :: 0 <= k < |segs| - 1 ==> segs[k].endS < segs[k + 1].startS)
  }

  /** What the open note says about the frames seen so far, the last of
      which is at `last`. */
  ghost predicate OpenMatches(note: string, start: real, cents: seq<real>, confs: seq<real>,
                              fs: seq<Frame>, last: real, hzToMidi: real -> real, confThreshold: real)
  {
    var w := Window(fs, start, last, confThreshold);
    && |w| > 0
    && w[0].t == start
    && (forall i :: 0 <= i < |w| ==> NoteOf(hzToMidi, w[i].f) == note)
    && cents == CentsList(hzToMidi, w)
    && confs == ConfList(w)
  }

  lemma WindowAppendBeyond(fs: seq<Frame>, fr: Frame, lo: real, hi: real, confThreshold: real)
    requires hi < fr.t
    ensures Window(fs + [fr], lo, hi, confThreshold) == Window(fs, lo, hi, confThreshold)
  {
    assert (fs + [fr])[..|fs|] == fs;
  }

  lemma WindowAppend(fs: seq<Frame>, fr: Frame, lo: real, hi: real, confThreshold: real)
    ensures Window(fs + [fr], lo, hi, confThreshold) ==
            Window(fs, lo, hi, confThreshold) + (if IsValid(fr, confThreshold) && lo <= fr.t <= hi then [fr] else [])
  {
    assert (fs + [fr])[..|fs|] == fs;
  }

  lemma {:induction false} WindowWiden(fs: seq<Frame>, lo: real, hi1: real, hi2: real, confThreshold: real)
    requires hi1 <= hi2
    requires forall i :: 0 <= i < |fs| ==> fs[i].t <= hi1
    ensures Window(fs, lo, hi1, confThreshold) == Window(fs, lo, hi2, confThreshold)
  {
    if fs != [] {
      WindowWiden(fs[..|fs| - 1], lo, hi1, hi2, confThreshold);
    }
  }

  lemma {:induction false} WindowBefore(fs: seq<Frame>, lo: real, hi: real, confThreshold: real)
    requires forall i :: 0 <= i < |fs| ==> fs[i].t < lo
    ensures Window(fs, lo, hi, confThreshold) == []
  {
    if fs != [] {
      WindowBefore(fs[..|fs| - 1], lo, hi, confThreshold);
    }
  }

  /** Appending a frame later than every segment's end leaves the segments'
      windows as they were. */
  lemma AppendKeepsSegments(segs: seq<NoteSegment>, fs: seq<Frame>, fr: Frame, hzToMidi: real -> real, confThreshold: real)
    requires forall k :: 0 <= k < |segs| ==> SegmentMatches(segs[k], fs, hzToMidi, confThreshold) && segs[k].endS < fr.t
    ensures forall k :: 0 <= k < |segs| ==> SegmentMatches(segs[k], fs + [fr], hzToMidi, confThreshold)
  {
    forall k | 0 <= k < |segs|
      ensures SegmentMatches(segs[k], fs + [fr], hzToMidi, confThreshold)
    {
      WindowAppendBeyond(fs, fr, segs[k].startS, segs[k].endS, confThreshold);
    }
  }

  /** Every confidence folded into a segment passed the gate, so the mean
      confidence of an emitted segment is at least `conf_threshold`. */
  lemma SegmentConfidenceAtLeastThreshold(seg: NoteSegment, fs: seq<Frame>, hzToMidi: real -> real, confThreshold: real)
    requires SegmentMatches(seg, fs, hzToMidi, confThreshold)
    ensures seg.meanConfidence >= confThreshold
  {
    var w := Window(fs, seg.startS, seg.endS, confThreshold);
    var confs := ConfList(w);
    var m := Stats.Min(confs);
    var i :| 0 <= i < |confs| && confs[i] == m;
    WindowMembers(fs, seg.startS, seg.endS, confThreshold);
    assert w[i] in w;
  }

  lemma AscendingSnoc(fs: seq<Frame>, fr: Frame)
    requires Ascending(fs + [fr])
    ensures Ascending(fs)
    ensures forall i :: 0 <= i < |fs| ==> fs[i].t < fr.t
    ensures fs != [] ==> forall i :: 0 <= i < |fs| ==> fs[i].t <= fs[|fs| - 1].t
  {
    var gs := fs + [fr];
    assert forall i :: 0 <= i < |fs| ==> gs[i] == fs[i];
    assert gs[|fs|] == fr;
  }

  /** The open note, closed at the last frame's time, is a segment that
      matches its window. */
  lemma OpenBecomesSegment(note: string, start: real, cents: seq<real>, confs: seq<real>,
                           last: real, fs: seq<Frame>, hzToMidi: real -> real, confThreshold: real)
    requires OpenMatches(note, start, cents, confs, fs, last, hzToMidi, confThreshold)
    ensures |cents| > 0 && |confs| > 0
    ensures SegmentMatches(NoteSegment(start, last, note, Stats.Median(cents), Stats.Mean(confs)), fs, hzToMidi, confThreshold)
  {
  }

  /** Appending a matching segment that starts after every earlier end keeps
      the list ordered and matching. */
  lemma SnocSegment(segs: seq<NoteSegment>, seg: NoteSegment, fs: seq<Frame>, hzToMidi: real -> real, confThreshold: real)
    requires Sequential(segs)
    requires forall k :: 0 <= k < |segs| ==> SegmentMatches(segs[k], fs, hzToMidi, confThreshold)
    requires forall k :: 0 <= k < |segs| ==> segs[k].endS < seg.startS
    requires seg.startS <= seg.endS && SegmentMatches(seg, fs, hzToMidi, confThreshold)
    ensures Sequential(segs + [seg])
    ensures forall k :: 0 <= k < |segs + [seg]| ==> SegmentMatches((segs + [seg])[k], fs, hzToMidi, confThreshold)
  {
    var segs' := segs + [seg];
    forall k | 0 <= k < |segs'|
      ensures segs'[k].startS <= segs'[k].endS
      ensures SegmentMatches(segs'[k], fs, hzToMidi, confThreshold)
    {
      if k < |segs| {
        assert segs'[k] == segs[k];
      }
    }
    forall k | 0 <= k < |segs'| - 1
      ensures segs'[k].endS < segs'[k + 1].startS
    {
      assert segs'[k] == segs[k];
    }
  }

  lemma WindowExtend(fs: seq<Frame>, fr: Frame, start: real, last: real, confThreshold: real)
    requires IsValid(fr, confThreshold)
    requires start <= last < fr.t && forall i :: 0 <= i < |fs| ==> fs[i].t <= last
    ensures Window(fs + [fr], start, fr.t, confThreshold) == Window(fs, start, last, confThreshold) + [fr]
  {
    WindowWiden(fs, start, last, fr.t, confThreshold);
    WindowAppend(fs, fr, start, fr.t, confThreshold);
  }

  lemma NotesSnoc(w: seq<Frame>, fr: Frame, hzToMidi: real -> real, note: string)
    requires forall i :: 0 <= i < |w| ==> NoteOf(hzToMidi, w[i].f) == note
    requires NoteOf(hzToMidi, fr.f) == note
    ensures forall i :: 0 <= i < |w + [fr]| ==> NoteOf(hzToMidi, (w + [fr])[i].f) == note
  {
  }

  lemma ListsSnoc(w: seq<Frame>, fr: Frame, hzToMidi: real -> real)
    ensures CentsList(hzToMidi, w + [fr]) == CentsList(hzToMidi, w) + [CentsOf(hzToMidi, fr.f)]
    ensures ConfList(w + [fr]) == ConfList(w) + [fr.c]
  {
  }

  /** A valid frame with the open note's label, later than every frame so
      far, joins the end of the open note's window. */
  lemma OpenExtend(note: string, start: real, cents: seq<real>, confs: seq<real>,
                   last: real, fs: seq<Frame>, fr: Frame, hzToMidi: real -> real, confThreshold: real)
    requires OpenMatches(note, start, cents, confs, fs, last, hzToMidi, confThreshold)
    requires IsValid(fr, confThreshold) && NoteOf(hzToMidi, fr.f) == note
    requires start <= last < fr.t && forall i :: 0 <= i < |fs| ==> fs[i].t <= last
    ensures OpenMatches(note, start, cents + [CentsOf(hzToMidi, fr.f)], confs + [fr.c], fs + [fr], fr.t, hzToMidi, confThreshold)
  {
    var w := Window(fs, start, last, confThreshold);
    WindowExtend(fs, fr, start, last, confThreshold);
    NotesSnoc(w, fr, hzToMidi, note);
    ListsSnoc(w, fr, hzToMidi);
    assert (w + [fr])[0] == w[0];
  }

  /** The state `segment_notes` carries from frame to frame: the segments
      emitted so far, the open note (`cur_note`, `cur_start`, `cur_cents`,
      `cur_confs`) and `last_time`. */
  datatype SegState = SegState(segments: seq<NoteSegment>, note: Option<string>, start: Option<real>,
                               cents: seq<real>, confs: seq<real>, last: Option<real>)

  /** The parameters of `segment_notes`, `a4` given by `hzToMidi`. */
  datatype Config = Config(hzToMidi: real -> real, minSegDur: real, gap: real, confThreshold: real)

  const Initial: SegState := SegState([], None, None, [], [], None)

  /** `close_segment(end_time)`: a no-op when no note is open; otherwise the
      open note is emitted if long enough and non-empty, and reset either way. */
  function CloseAt(st: SegState, endTime: real, minSegDur: real): SegState
  {
    if st.note.None? || st.start.None? then st
    else SegState(st.segments + Closed(st.note, st.start, st.cents, st.confs, endTime, minSegDur), None, None, [], [], st.last)
  }

  /** One pass of the loop over the frame `fr`. A frame the gate rejects only
      closes the open note, at the previous frame's time, when it comes more
      than `gap` after that frame. A valid frame opens a note when none is
      open, joins the open note when it carries the same label, and otherwise
      closes the open note at the previous frame's time and opens a new one.
      Either way `last_time` becomes the frame's time. */
  function Step(st: SegState, fr: Frame, cfg: Config): SegState
  {
    if !IsValid(fr, cfg.confThreshold) then
      var st' := if st.note.Some? && st.last.Some? && fr.t - st.last.value > cfg.gap
                 then CloseAt(st, st.last.value, cfg.minSegDur) else st;
      st'.(last := Some(fr.t))
    else
      var note := NoteOf(cfg.hzToMidi, fr.f);
      var cents := CentsOf(cfg.hzToMidi, fr.f);
      if st.note == Some(note) then
        st.(cents := st.cents + [cents], confs := st.confs + [fr.c], last := Some(fr.t))
      else
        var st' := if st.note.Some? then CloseAt(st, if st.last.Some? then st.last.value else fr.t, cfg.minSegDur) else st;
        st'.(note := Some(note), start := Some(fr.t), cents := [cents], confs := [fr.c], last := Some(fr.t))
  }

  /** The state after the loop has seen the frames `fs`. */
  function Run(fs: seq<Frame>, cfg: Config): SegState
  {
    if fs == [] then Initial else Step(Run(fs[..|fs| - 1], cfg), fs[|fs| - 1], cfg)
  }

  lemma RunSnoc(fs: seq<Frame>, fr: Frame, cfg: Config)
    ensures Run(fs + [fr], cfg) == Step(Run(fs, cfg), fr, cfg)
  {
    assert (fs + [fr])[..|fs|] == fs;
  }

  /** The close of the trailing note after the loop, at the last frame's time. */
  function FinishState(st: SegState, minSegDur: real): SegState
  {
    if st.note.Some? && st.last.Some? && st.start.Some? then CloseAt(st, st.last.value, minSegDur) else st
  }

  /** What `segment_notes` returns. */
  function Segments(times: seq<real>, freqs: seq<real>, confs: seq<real>, cfg: Config): seq<NoteSegment>
  {
    FinishState(Run(Zip(times, freqs, confs), cfg), cfg.minSegDur).segments
  }

  /** The open note counted as a pending segment. */
  function Pending(st: SegState): nat
  {
    if st.note.Some? then 1 else 0
  }

  /** `close_segment` emits at most one segment, at the end of the list:
      exactly when a note is open, it lasted at least `min_seg_dur` and it
      holds a frame; the segment runs from the note's start to `end_time` and
      carries its name. The open note is reset; `last_time` is untouched. */
  lemma CloseAtEffect(st: SegState, endTime: real, minSegDur: real)
    ensures var r := CloseAt(st, endTime, minSegDur);
            && r.last == st.last
            && |st.segments| <= |r.segments| <= |st.segments| + 1
            && r.segments[..|st.segments|] == st.segments
            && (|r.segments| == |st.segments| + 1 <==>
                  st.note.Some? && st.start.Some? && endTime - st.start.value >= minSegDur && |st.cents| > 0)
            && (|r.segments| == |st.segments| + 1 ==>
                  && r.segments[|st.segments|].startS == st.start.value
                  && r.segments[|st.segments|].endS == endTime
                  && r.segments[|st.segments|].note == st.note.value)
            && (st.note.Some? && st.start.Some? ==> r.note.None? && r.start.None? && r.cents == [] && r.confs == [])
            && (st.note.None? || st.start.None? ==> r == st)
  {
    var r := CloseAt(st, endTime, minSegDur);
    if st.note.Some? && st.start.Some? {
      var closed := Closed(st.note, st.start, st.cents, st.confs, endTime, minSegDur);
      assert r.segments == st.segments + closed;
      assert r.segments[..|st.segments|] == st.segments;
    }
  }

  /** One pass of the loop emits at most one segment, appended to the list,
      and only when a note was open: it carries that note and ends at the
      previous frame's time. Counting the open note as pending, a frame adds
      at most one. A rejected frame opens no note and adds nothing to the open
      one; a valid frame leaves its own note open with its cents and
      confidence last. `last_time` becomes the frame's time. */
  lemma StepEffect(st: SegState, fr: Frame, cfg: Config)
    ensures var r := Step(st, fr, cfg);
            && r.last == Some(fr.t)
            && |st.segments| <= |r.segments| <= |st.segments| + 1
            && r.segments[..|st.segments|] == st.segments
            && |r.segments| + Pending(r) <= |st.segments| + Pending(st) + 1
            && (|r.segments| > |st.segments| ==>
                  && st.note.Some?
                  && r.segments[|st.segments|].note == st.note.value
                  && r.segments[|st.segments|].endS == (if st.last.Some? then st.last.value else fr.t))
            && (!IsValid(fr, cfg.confThreshold) ==> (r.note == st.note || r.note.None?) && |r.cents| <= |st.cents|)
            && (IsValid(fr, cfg.confThreshold) ==>
                  && r.note == Some(NoteOf(cfg.hzToMidi, fr.f))
                  && r.confs != [] && r.confs[|r.confs| - 1] == fr.c
                  && r.cents != [] && r.cents[|r.cents| - 1] == CentsOf(cfg.hzToMidi, fr.f))
  {
    if !IsValid(fr, cfg.confThreshold) {
      if st.note.Some? && st.last.Some? && fr.t - st.last.value > cfg.gap {
        CloseAtEffect(st, st.last.value, cfg.minSegDur);
      }
    } else if st.note != Some(NoteOf(cfg.hzToMidi, fr.f)) && st.note.Some? {
      CloseAtEffect(st, if st.last.Some? then st.last.value else fr.t, cfg.minSegDur);
    }
  }

  /** Every frame emits at most one segment or leaves at most one note open. */
  lemma {:induction false} RunCount(fs: seq<Frame>, cfg: Config)
    ensures |Run(fs, cfg).segments| + Pending(Run(fs, cfg)) <= |fs|
  {
    if fs != [] {
      RunCount(fs[..|fs| - 1], cfg);
      StepEffect(Run(fs[..|fs| - 1], cfg), fs[|fs| - 1], cfg);
    }
  }

  /** The trailing close keeps the emitted segments, turns the pending note
      into at most one more, and leaves no note open whenever it has a start
      and a last time to close it at. */
  lemma FinishEffect(st: SegState, minSegDur: real)
    ensures var r := FinishState(st, minSegDur);
            && |st.segments| <= |r.segments|
            && r.segments[..|st.segments|] == st.segments
            && |r.segments| + Pending(r) <= |st.segments| + Pending(st)
            && (st.last.Some? && st.start.Some? ==> r.note.None?)
  {
    if st.note.Some? && st.last.Some? && st.start.Some? {
      CloseAtEffect(st, st.last.value, minSegDur);
    }
  }

  /** `segment_notes` returns at most one segment per frame of the zip. */
  lemma SegmentsCount(times: seq<real>, freqs: seq<real>, confs: seq<real>, cfg: Config)
    ensures |Segments(times, freqs, confs, cfg)| <= |Zip(times, freqs, confs)|
  {
    var fs := Zip(times, freqs, confs);
    RunCount(fs, cfg);
    FinishEffect(Run(fs, cfg), cfg.minSegDur);
  }

  /** The facts about the state that hold whatever the frame times. */
  ghost predicate WellFormed(st: SegState, fs: seq<Frame>, minSegDur: real)
  {
    && (st.note.Some? <==> st.start.Some?)
    && |st.cents| == |st.confs|
    && (st.note.Some? ==> |st.cents| > 0 && st.last.Some?)
    && st.last == (if fs == [] then None else Some(fs[|fs| - 1].t))
    && (fs == [] ==> st.segments == [])
    && (forall k :: 0 <= k < |st.segments| ==> st.segments[k].endS - st.segments[k].startS >= minSegDur)
  }

  lemma CloseWellFormed(st: SegState, endTime: real, minSegDur: real)
    requires forall k :: 0 <= k < |st.segments| ==> st.segments[k].endS - st.segments[k].startS >= minSegDur
    ensures var r := CloseAt(st, endTime, minSegDur);
            forall k :: 0 <= k < |r.segments| ==> r.segments[k].endS - r.segments[k].startS >= minSegDur
  {
    var r := CloseAt(st, endTime, minSegDur);
    if st.note.Some? && st.start.Some? {
      var closed := Closed(st.note, st.start, st.cents, st.confs, endTime, minSegDur);
      assert forall k :: 0 <= k < |st.segments| ==> r.segments[k] == st.segments[k];
      assert |closed| == 1 ==> r.segments[|st.segments|] == closed[0];
    }
  }

  lemma StepWellFormed(st: SegState, fs: seq<Frame>, fr: Frame, cfg: Config)
    requires WellFormed(st, fs, cfg.minSegDur)
    ensures WellFormed(Step(st, fr, cfg), fs + [fr], cfg.minSegDur)
  {
    CloseWellFormed(st, if st.last.Some? then st.last.value else fr.t, cfg.minSegDur);
  }

  /** The loop's state is well formed after any frames, ordered or not. */
  lemma {:induction false} RunWellFormed(fs: seq<Frame>, cfg: Config)
    ensures WellFormed(Run(fs, cfg), fs, cfg.minSegDur)
  {
    if fs != [] {
      var init := fs[..|fs| - 1];
      RunWellFormed(init, cfg);
      StepWellFormed(Run(init, cfg), init, fs[|fs| - 1], cfg);
      assert init + [fs[|fs| - 1]] == fs;
    }
  }

  /** The state against the frames `fs` it has seen, when their times
      ascend: the emitted segments are in order and match their windows, none
      ends after the last frame, and the open note starts after every emitted
      segment and matches the frames from its start on. */
  ghost predicate OrderedState(st: SegState, fs: seq<Frame>, hzToMidi: real -> real, confThreshold: real)
  {
    && Sequential(st.segments)
    && (forall k :: 0 <= k < |st.segments| ==> SegmentMatches(st.segments[k], fs, hzToMidi, confThreshold))
    && (st.last.Some? ==> forall k :: 0 <= k < |st.segments| ==> st.segments[k].endS <= st.last.value)
    && (st.note.Some? && st.start.Some? && st.last.Some? ==>
          && st.start.value <= st.last.value
          && (forall k :: 0 <= k < |st.segments| ==> st.segments[k].endS < st.start.value)
          && OpenMatches(st.note.value, st.start.value, st.cents, st.confs, fs, st.last.value, hzToMidi, confThreshold))
  }

  /** Closing the open note at the last frame's time keeps the state
      ordered: the emitted segment is exactly the open note's window. */
  lemma CloseOrdered(st: SegState, fs: seq<Frame>, hzToMidi: real -> real, confThreshold: real, minSegDur: real)
    requires OrderedState(st, fs, hzToMidi, confThreshold)
    requires st.note.Some? && st.start.Some? && st.last.Some?
    ensures OrderedState(CloseAt(st, st.last.value, minSegDur), fs, hzToMidi, confThreshold)
  {
    var closed := Closed(st.note, st.start, st.cents, st.confs, st.last.value, minSegDur);
    var r := CloseAt(st, st.last.value, minSegDur);
    assert r == SegState(st.segments + closed, None, None, [], [], st.last);
    if |closed| == 1 {
      OpenBecomesSegment(st.note.value, st.start.value, st.cents, st.confs, st.last.value, fs, hzToMidi, confThreshold);
      var seg := NoteSegment(st.start.value, st.last.value, st.note.value, Stats.Median(st.cents), Stats.Mean(st.confs));
      assert closed == [seg];
      SnocSegment(st.segments, seg, fs, hzToMidi, confThreshold);
      assert forall k :: 0 <= k < |r.segments| ==> r.segments[k].endS <= st.last.value;
    } else {
      assert closed == [];
      assert r.segments == st.segments;
    }
  }

  /** A frame the gate rejects, later than every frame so far, extends the
      open note's window by nothing. */
  lemma AppendInvalidOrdered(st: SegState, fs: seq<Frame>, fr: Frame, hzToMidi: real -> real, confThreshold: real)
    requires OrderedState(st, fs, hzToMidi, confThreshold)
    requires !IsValid(fr, confThreshold)
    requires st.last.None? ==> st.segments == [] && st.note.None?
    requires st.last.Some? ==> st.last.value < fr.t && forall i :: 0 <= i < |fs| ==> fs[i].t <= st.last.value
    ensures OrderedState(st.(last := Some(fr.t)), fs + [fr], hzToMidi, confThreshold)
  {
    AppendKeepsSegments(st.segments, fs, fr, hzToMidi, confThreshold);
    if st.note.Some? && st.start.Some? {
      WindowWiden(fs, st.start.value, st.last.value, fr.t, confThreshold);
      WindowAppend(fs, fr, st.start.value, fr.t, confThreshold);
    }
  }

  /** A valid frame later than every frame so far, with no note open, opens
      a note whose window is that frame alone. */
  lemma OpenOrdered(st: SegState, fs: seq<Frame>, fr: Frame, hzToMidi: real -> real, confThreshold: real)
    requires OrderedState(st, fs, hzToMidi, confThreshold)
    requires st.note.None?
    requires IsValid(fr, confThreshold)
    requires st.last.None? ==> st.segments == []
    requires st.last.Some? ==> st.last.value < fr.t
    requires forall i :: 0 <= i < |fs| ==> fs[i].t < fr.t
    ensures OrderedState(st.(note := Some(NoteOf(hzToMidi, fr.f)), start := Some(fr.t), cents := [CentsOf(hzToMidi, fr.f)],
                             confs := [fr.c], last := Some(fr.t)), fs + [fr], hzToMidi, confThreshold)
  {
    AppendKeepsSegments(st.segments, fs, fr, hzToMidi, confThreshold);
    WindowBefore(fs, fr.t, fr.t, confThreshold);
    WindowAppend(fs, fr, fr.t, fr.t, confThreshold);
  }

  /** A valid frame with the open note's label, later than every frame so
      far, joins the open note. */
  lemma ExtendOrdered(st: SegState, fs: seq<Frame>, fr: Frame, hzToMidi: real -> real, confThreshold: real)
    requires OrderedState(st, fs, hzToMidi, confThreshold)
    requires st.note == Some(NoteOf(hzToMidi, fr.f)) && st.start.Some? && st.last.Some?
    requires IsValid(fr, confThreshold)
    requires st.last.value < fr.t && forall i :: 0 <= i < |fs| ==> fs[i].t <= st.last.value
    ensures OrderedState(st.(cents := st.cents + [CentsOf(hzToMidi, fr.f)], confs := st.confs + [fr.c], last := Some(fr.t)),
                         fs + [fr], hzToMidi, confThreshold)
  {
    AppendKeepsSegments(st.segments, fs, fr, hzToMidi, confThreshold);
    OpenExtend(st.note.value, st.start.value, st.cents, st.confs, st.last.value, fs, fr, hzToMidi, confThreshold);
  }

  /** One step of the loop on a frame later than all before it keeps the
      state ordered. */
  lemma StepOrdered(st: SegState, fs: seq<Frame>, fr: Frame, cfg: Config)
    requires WellFormed(st, fs, cfg.minSegDur)
    requires OrderedState(st, fs, cfg.hzToMidi, cfg.confThreshold)
    requires Ascending(fs + [fr])
    ensures OrderedState(Step(st, fr, cfg), fs + [fr], cfg.hzToMidi, cfg.confThreshold)
  {
    AscendingSnoc(fs, fr);
    var h, th := cfg.hzToMidi, cfg.confThreshold;
    if !IsValid(fr, th) {
      if st.note.Some? && st.last.Some? && fr.t - st.last.value > cfg.gap {
        CloseOrdered(st, fs, h, th, cfg.minSegDur);
        AppendInvalidOrdered(CloseAt(st, st.last.value, cfg.minSegDur), fs, fr, h, th);
      } else {
        AppendInvalidOrdered(st, fs, fr, h, th);
      }
    } else if st.note == Some(NoteOf(h, fr.f)) {
      ExtendOrdered(st, fs, fr, h, th);
    } else if st.note.Some? {
      CloseOrdered(st, fs, h, th, cfg.minSegDur);
      OpenOrdered(CloseAt(st, st.last.value, cfg.minSegDur), fs, fr, h, th);
    } else {
      OpenOrdered(st, fs, fr, h, th);
    }
  }

  /** Over frames with strictly ascending times the loop's state is ordered. */
  lemma {:induction false} RunOrdered(fs: seq<Frame>, cfg: Config)
    requires Ascending(fs)
    ensures OrderedState(Run(fs, cfg), fs, cfg.hzToMidi, cfg.confThreshold)
  {
    if fs != [] {
      var init := fs[..|fs| - 1];
      var fr := fs[|fs| - 1];
      assert init + [fr] == fs;
      AscendingSnoc(init, fr);
      RunOrdered(init, cfg);
      RunWellFormed(init, cfg);
      StepOrdered(Run(init, cfg), init, fr, cfg);
    }
  }

  /** The properties `segment_notes` promises of its result. Every segment
      lasts at least `min_seg_dur`; no frames give no segments. When the
      times ascend strictly (the code does not check it), the segments are
      in order and do not overlap, and each one is the run of valid frames
      between its start and its end: the first of them is at its start, all
      carry its note, its median cents and mean confidence are those of
      these frames, and so its mean confidence is at least `conf_threshold`. */
  lemma SegmentsSound(times: seq<real>, freqs: seq<real>, confs: seq<real>, cfg: Config)
    ensures var segs := Segments(times, freqs, confs, cfg);
            forall k :: 0 <= k < |segs| ==> segs[k].endS - segs[k].startS >= cfg.minSegDur
    ensures Zip(times, freqs, confs) == [] ==> Segments(times, freqs, confs, cfg) == []
    ensures Ascending(Zip(times, freqs, confs)) ==>
              var segs := Segments(times, freqs, confs, cfg);
              && Sequential(segs)
              && forall k :: 0 <= k < |segs| ==>
                   && SegmentMatches(segs[k], Zip(times, freqs, confs), cfg.hzToMidi, cfg.confThreshold)
                   && segs[k].meanConfidence >= cfg.confThreshold
  {
    var fs := Zip(times, freqs, confs);
    var st := Run(fs, cfg);
    RunWellFormed(fs, cfg);
    CloseWellFormed(st, if st.last.Some? then st.last.value else 0.0, cfg.minSegDur);
    if Ascending(fs) {
      RunOrdered(fs, cfg);
      if st.note.Some? && st.last.Some? && st.start.Some? {
        CloseOrdered(st, fs, cfg.hzToMidi, cfg.confThreshold, cfg.minSegDur);
      }
      var segs := Segments(times, freqs, confs, cfg);
      forall k | 0 <= k < |segs|
        ensures segs[k].meanConfidence >= cfg.confThreshold
      {
        SegmentConfidenceAtLeastThreshold(segs[k], fs, cfg.hzToMidi, cfg.confThreshold);
      }
    }
  }

  /** What ends a note at `endS` in `segment_notes`: a frame the gate
      rejects that comes more than `gap` after `endS`, or a valid frame that
      carries another note. */
  ghost predicate Breaks(fr: Frame, endS: real, note: string, cfg: Config)
  {
    if IsValid(fr, cfg.confThreshold) then NoteOf(cfg.hzToMidi, fr.f) != note else fr.t - endS > cfg.gap
  }

  /** Every frame the gate rejects timed in `(lo, hi]` comes at most `gap`
      after the frame before it. */
  ghost predicate NoGapWithin(fs: seq<Frame>, lo: real, hi: real, cfg: Config)
  {
    forall j :: 0 <= j < |fs| && lo < fs[j].t <= hi && !IsValid(fs[j], cfg.confThreshold) ==>
      0 < j && fs[j].t - fs[j - 1].t <= cfg.gap
  }

  /** The frame right after the segment's end, if there is one, is what
      ended it. */
  ghost predicate EndsAtBreak(seg: NoteSegment, fs: seq<Frame>, cfg: Config)
  {
    forall j :: 0 < j < |fs| && fs[j - 1].t <= seg.endS < fs[j].t ==> Breaks(fs[j], seg.endS, seg.note, cfg)
  }

  /** The rule "a new segment starts when the note changes or a gap longer
      than `gap` occurs", for one segment: no gap inside it, and a break
      right after it. */
  ghost predicate Bounded(seg: NoteSegment, fs: seq<Frame>, cfg: Config)
  {
    NoGapWithin(fs, seg.startS, seg.endS, cfg) && EndsAtBreak(seg, fs, cfg)
  }

  /** The loop's state against the frames seen: every emitted segment is
      bounded and ends before the last frame, and the open note has no gap
      from its start to the last frame. */
  ghost predicate BoundaryState(st: SegState, fs: seq<Frame>, cfg: Config)
  {
    && (forall k :: 0 <= k < |st.segments| ==> Bounded(st.segments[k], fs, cfg))
    && (st.last.Some? ==> forall k :: 0 <= k < |st.segments| ==> st.segments[k].endS < st.last.value)
    && (st.start.Some? && st.last.Some? ==> NoGapWithin(fs, st.start.value, st.last.value, cfg))
  }

  lemma NoGapAppendBeyond(fs: seq<Frame>, fr: Frame, lo: real, hi: real, cfg: Config)
    requires NoGapWithin(fs, lo, hi, cfg) && hi < fr.t
    ensures NoGapWithin(fs + [fr], lo, hi, cfg)
  {
    var gs := fs + [fr];
    forall j | 0 <= j < |gs| && lo < gs[j].t <= hi && !IsValid(gs[j], cfg.confThreshold)
      ensures 0 < j && gs[j].t - gs[j - 1].t <= cfg.gap
    {
      assert j < |fs| && gs[j] == fs[j];
      assert 0 < j;
      assert gs[j - 1] == fs[j - 1];
    }
  }

  /** A segment that ends before the last frame stays bounded when a later
      frame is appended. */
  lemma BoundedAppend(seg: NoteSegment, fs: seq<Frame>, fr: Frame, cfg: Config)
    requires Bounded(seg, fs, cfg)
    requires fs != [] && seg.endS < fs[|fs| - 1].t < fr.t
    ensures Bounded(seg, fs + [fr], cfg)
  {
    var gs := fs + [fr];
    NoGapAppendBeyond(fs, fr, seg.startS, seg.endS, cfg);
    forall j | 0 < j < |gs| && gs[j - 1].t <= seg.endS < gs[j].t
      ensures Breaks(gs[j], seg.endS, seg.note, cfg)
    {
      assert j < |fs|;
      assert gs[j] == fs[j] && gs[j - 1] == fs[j - 1];
    }
  }

  lemma AllBoundedAppend(segs: seq<NoteSegment>, fs: seq<Frame>, fr: Frame, cfg: Config)
    requires forall k :: 0 <= k < |segs| ==> Bounded(segs[k], fs, cfg)
    requires fs != [] && fs[|fs| - 1].t < fr.t
    requires forall k :: 0 <= k < |segs| ==> segs[k].endS < fs[|fs| - 1].t
    ensures forall k :: 0 <= k < |segs| ==> Bounded(segs[k], fs + [fr], cfg)
  {
    forall k | 0 <= k < |segs|
      ensures Bounded(segs[k], fs + [fr], cfg)
    {
      BoundedAppend(segs[k], fs, fr, cfg);
    }
  }

  /** A frame that is valid, or comes at most `gap` after the last one,
      extends a stretch without gaps to its own time. */
  lemma NoGapExtend(fs: seq<Frame>, fr: Frame, lo: real, cfg: Config)
    requires fs != [] && forall i :: 0 <= i < |fs| ==> fs[i].t <= fs[|fs| - 1].t
    requires NoGapWithin(fs, lo, fs[|fs| - 1].t, cfg)
    requires IsValid(fr, cfg.confThreshold) || fr.t - fs[|fs| - 1].t <= cfg.gap
    ensures NoGapWithin(fs + [fr], lo, fr.t, cfg)
  {
    var gs := fs + [fr];
    forall j | 0 <= j < |gs| && lo < gs[j].t <= fr.t && !IsValid(gs[j], cfg.confThreshold)
      ensures 0 < j && gs[j].t - gs[j - 1].t <= cfg.gap
    {
      if j < |fs| {
        assert gs[j] == fs[j];
        assert 0 < j;
        assert gs[j - 1] == fs[j - 1];
      } else {
        assert gs[j - 1] == fs[|fs| - 1];
      }
    }
  }

  /** A segment closed at the last frame's time, followed by a frame that
      breaks it, is bounded. */
  lemma ClosedBounded(seg: NoteSegment, fs: seq<Frame>, fr: Frame, cfg: Config)
    requires forall i :: 0 <= i < |fs| ==> fs[i].t <= seg.endS
    requires seg.endS < fr.t
    requires NoGapWithin(fs, seg.startS, seg.endS, cfg)
    requires Breaks(fr, seg.endS, seg.note, cfg)
    ensures Bounded(seg, fs + [fr], cfg)
  {
    var gs := fs + [fr];
    NoGapAppendBeyond(fs, fr, seg.startS, seg.endS, cfg);
    assert forall i :: 0 <= i < |fs| ==> gs[i] == fs[i];
    forall j | 0 < j < |gs| && gs[j - 1].t <= seg.endS < gs[j].t
      ensures Breaks(gs[j], seg.endS, seg.note, cfg)
    {
      assert j == |fs|;
    }
  }

  /** Closing the open note at the last frame's time, because the frame `fr`
      breaks it, leaves every segment bounded once `fr` is appended. */
  lemma CloseBoundary(st: SegState, fs: seq<Frame>, fr: Frame, cfg: Config)
    requires WellFormed(st, fs, cfg.minSegDur) && BoundaryState(st, fs, cfg)
    requires st.note.Some? && fs != []
    requires forall i :: 0 <= i < |fs| ==> fs[i].t <= fs[|fs| - 1].t
    requires fs[|fs| - 1].t < fr.t
    requires Breaks(fr, fs[|fs| - 1].t, st.note.value, cfg)
    ensures var r := CloseAt(st, st.last.value, cfg.minSegDur);
            && (forall k :: 0 <= k < |r.segments| ==> Bounded(r.segments[k], fs + [fr], cfg))
            && (forall k :: 0 <= k < |r.segments| ==> r.segments[k].endS < fr.t)
  {
    var last := st.last.value;
    var closed := Closed(st.note, st.start, st.cents, st.confs, last, cfg.minSegDur);
    var r := CloseAt(st, last, cfg.minSegDur);
    assert r.segments == st.segments + closed;
    AllBoundedAppend(st.segments, fs, fr, cfg);
    if |closed| == 1 {
      ClosedBounded(closed[0], fs, fr, cfg);
    }
  }

  /** One step of the loop on a frame later than all before it keeps every
      segment bounded. */
  lemma StepBoundary(st: SegState, fs: seq<Frame>, fr: Frame, cfg: Config)
    requires WellFormed(st, fs, cfg.minSegDur) && BoundaryState(st, fs, cfg)
    requires Ascending(fs + [fr])
    ensures BoundaryState(Step(st, fr, cfg), fs + [fr], cfg)
  {
    AscendingSnoc(fs, fr);
    var r := Step(st, fr, cfg);
    if !IsValid(fr, cfg.confThreshold) {
      if st.note.Some? && st.last.Some? && fr.t - st.last.value > cfg.gap {
        CloseBoundary(st, fs, fr, cfg);
      } else if fs != [] {
        AllBoundedAppend(st.segments, fs, fr, cfg);
        if st.start.Some? {
          NoGapExtend(fs, fr, st.start.value, cfg);
        }
      }
    } else if st.note == Some(NoteOf(cfg.hzToMidi, fr.f)) {
      AllBoundedAppend(st.segments, fs, fr, cfg);
      NoGapExtend(fs, fr, st.start.value, cfg);
    } else if st.note.Some? {
      CloseBoundary(st, fs, fr, cfg);
    } else if fs != [] {
      AllBoundedAppend(st.segments, fs, fr, cfg);
    }
  }

  /** Over frames with strictly ascending times every segment emitted so far
      is bounded. */
  lemma {:induction false} RunBoundary(fs: seq<Frame>, cfg: Config)
    requires Ascending(fs)
    ensures BoundaryState(Run(fs, cfg), fs, cfg)
  {
    if fs != [] {
      var init := fs[..|fs| - 1];
      var fr := fs[|fs| - 1];
      assert init + [fr] == fs;
      AscendingSnoc(init, fr);
      RunBoundary(init, cfg);
      RunWellFormed(init, cfg);
      StepBoundary(Run(init, cfg), init, fr, cfg);
    }
  }

  /** The trailing close, at the last frame's time, leaves every segment
      bounded: nothing follows the last segment. */
  lemma FinishBoundary(st: SegState, fs: seq<Frame>, cfg: Config)
    requires WellFormed(st, fs, cfg.minSegDur) && BoundaryState(st, fs, cfg)
    requires fs != [] ==> forall i :: 0 <= i < |fs| ==> fs[i].t <= fs[|fs| - 1].t
    ensures var r := FinishState(st, cfg.minSegDur);
            forall k :: 0 <= k < |r.segments| ==> Bounded(r.segments[k], fs, cfg)
  {
    if st.note.Some? && st.last.Some? && st.start.Some? {
      var closed := Closed(st.note, st.start, st.cents, st.confs, st.last.value, cfg.minSegDur);
      assert FinishState(st, cfg.minSegDur).segments == st.segments + closed;
    }
  }

  /** The segmentation rule of `segment_notes`: when the times ascend, no
      segment contains a rejected frame more than `gap` after its
      predecessor, and the frame right after a segment, if any, is a
      rejected frame more than `gap` after the segment's end or a valid
      frame with another note. */
  lemma SegmentsBreak(times: seq<real>, freqs: seq<real>, confs: seq<real>, cfg: Config)
    requires Ascending(Zip(times, freqs, confs))
    ensures var segs := Segments(times, freqs, confs, cfg);
            forall k :: 0 <= k < |segs| ==>
              && NoGapWithin(Zip(times, freqs, confs), segs[k].startS, segs[k].endS, cfg)
              && EndsAtBreak(segs[k], Zip(times, freqs, confs), cfg)
  {
    var fs := Zip(times, freqs, confs);
    RunBoundary(fs, cfg);
    RunWellFormed(fs, cfg);
    if fs != [] {
      AscendingSnoc(fs[..|fs| - 1], fs[|fs| - 1]);
      assert fs[..|fs| - 1] + [fs[|fs| - 1]] == fs;
    }
    FinishBoundary(Run(fs, cfg), fs, cfg);
  }

  /** A valid frame whose note is not open opens it at the frame. */
  lemma StepOpens(st: SegState, fr: Frame, cfg: Config)
    requires IsValid(fr, cfg.confThreshold) && st.note != Some(NoteOf(cfg.hzToMidi, fr.f))
    ensures var r := Step(st, fr, cfg);
            r.note == Some(NoteOf(cfg.hzToMidi, fr.f)) && r.start == Some(fr.t) && |r.cents| == 1 && r.last == Some(fr.t)
  {
  }

  /** A frame that does not break the open note keeps it open with the same
      start. */
  lemma StepContinues(st: SegState, fr: Frame, note: string, cfg: Config)
    requires st.note == Some(note) && st.last.Some? && !Breaks(fr, st.last.value, note, cfg)
    ensures var r := Step(st, fr, cfg);
            r.note == Some(note) && r.start == st.start && |r.cents| >= |st.cents| && r.last == Some(fr.t)
  {
  }

  /** A frame that breaks the open note closes it at `last_time`. */
  lemma StepBreaks(st: SegState, fr: Frame, note: string, cfg: Config)
    requires st.note == Some(note) && st.last.Some? && Breaks(fr, st.last.value, note, cfg)
    ensures Step(st, fr, cfg).segments == CloseAt(st, st.last.value, cfg.minSegDur).segments
  {
  }

  /** A rejected frame leaves any note it keeps open unchanged, and keeps it
      only when it comes at most `gap` after `last_time`. */
  lemma StepRejected(st: SegState, fr: Frame, cfg: Config)
    requires !IsValid(fr, cfg.confThreshold) && Step(st, fr, cfg).note.Some? && st.last.Some?
    requires st.note.Some? <==> st.start.Some?
    ensures Step(st, fr, cfg).note == st.note && fr.t - st.last.value <= cfg.gap
  {
  }

  lemma TakeSnoc(fs: seq<Frame>, i: int)
    requires 0 <= i < |fs|
    ensures fs[..i] + [fs[i]] == fs[..i + 1]
  {
  }

  /** The loop state after the first `i` frames, one step further. */
  lemma RunPrefixStep(fs: seq<Frame>, i: int, cfg: Config)
    requires 0 <= i < |fs|
    ensures Run(fs[..i + 1], cfg) == Step(Run(fs[..i], cfg), fs[i], cfg)
  {
    assert fs[..i + 1][..i] == fs[..i];
  }

  /** Segments are only ever appended: those emitted after the first `i`
      frames begin the list emitted after all of them. */
  lemma {:induction false} RunSegmentsPrefix(fs: seq<Frame>, i: int, cfg: Config)
    requires 0 <= i <= |fs|
    ensures Run(fs[..i], cfg).segments <= Run(fs, cfg).segments
    decreases |fs|
  {
    if i == |fs| {
      assert fs[..i] == fs;
    } else {
      var init := fs[..|fs| - 1];
      assert init[..i] == fs[..i];
      RunSegmentsPrefix(init, i, cfg);
      StepEffect(Run(init, cfg), fs[|fs| - 1], cfg);
    }
  }

  /** Frame `v` is a valid frame with `note`. */
  ghost predicate NoteAt(fs: seq<Frame>, v: int, note: string, cfg: Config)
  {
    0 <= v < |fs| && IsValid(fs[v], cfg.confThreshold) && NoteOf(cfg.hzToMidi, fs[v].f) == note
  }

  /** Frame `j` does not break `note` after the frame before it: it is valid
      with that note, or rejected at most `gap` after its predecessor. */
  ghost predicate ContinuesAt(fs: seq<Frame>, j: int, note: string, cfg: Config)
  {
    0 < j < |fs| && !Breaks(fs[j], fs[j - 1].t, note, cfg)
  }

  /** Frame `j` is rejected, at most `gap` after the frame before it. */
  ghost predicate QuietAt(fs: seq<Frame>, j: int, cfg: Config)
  {
    0 < j < |fs| && !IsValid(fs[j], cfg.confThreshold) && fs[j].t - fs[j - 1].t <= cfg.gap
  }

  /** Frame `j` is valid, or comes more than `gap` after the frame before it. */
  ghost predicate CutAt(fs: seq<Frame>, j: int, cfg: Config)
  {
    0 < j < |fs| && (IsValid(fs[j], cfg.confThreshold) || fs[j].t - fs[j - 1].t > cfg.gap)
  }

  /** Frame `v` is a valid frame with `note`, and every frame after it is
      rejected, at most `gap` after the frame before it. */
  ghost predicate OpenedAt(fs: seq<Frame>, v: int, note: string, cfg: Config)
  {
    NoteAt(fs, v, note, cfg) && forall j :: v < j < |fs| ==> QuietAt(fs, j, cfg)
  }

  /** One step keeps the origin of the open note: a valid frame opens or
      joins its own note, and a rejected frame keeps the note open only
      within `gap` of the frame before. */
  lemma OriginStep(init: seq<Frame>, st: SegState, fr: Frame, cfg: Config)
    requires WellFormed(st, init, cfg.minSegDur)
    requires st.note.Some? ==> exists v :: OpenedAt(init, v, st.note.value, cfg)
    ensures Step(st, fr, cfg).note.Some? ==> exists v :: OpenedAt(init + [fr], v, Step(st, fr, cfg).note.value, cfg)
  {
    var fs := init + [fr];
    var r := Step(st, fr, cfg);
    StepEffect(st, fr, cfg);
    if r.note.Some? {
      if IsValid(fr, cfg.confThreshold) {
        OpenedByLast(init, fr, r.note.value, cfg);
      } else {
        StepRejected(st, fr, cfg);
        var v :| OpenedAt(init, v, st.note.value, cfg);
        QuietExtends(init, fr, v, st.note.value, cfg);
      }
    }
  }

  /** A valid frame on `note` opens it at its own index. */
  lemma OpenedByLast(init: seq<Frame>, fr: Frame, note: string, cfg: Config)
    requires IsValid(fr, cfg.confThreshold) && NoteOf(cfg.hzToMidi, fr.f) == note
    ensures OpenedAt(init + [fr], |init|, note, cfg)
  {
    assert (init + [fr])[|init|] == fr;
  }

  /** A rejected frame at most `gap` after the last one keeps the origin. */
  lemma QuietExtends(init: seq<Frame>, fr: Frame, v: int, note: string, cfg: Config)
    requires OpenedAt(init, v, note, cfg)
    requires !IsValid(fr, cfg.confThreshold) && fr.t - init[|init| - 1].t <= cfg.gap
    ensures OpenedAt(init + [fr], v, note, cfg)
  {
    var fs := init + [fr];
    assert fs[v] == init[v];
    forall j | v < j < |fs|
      ensures QuietAt(fs, j, cfg)
    {
      if j < |init| {
        assert QuietAt(init, j, cfg);
        assert fs[j] == init[j] && fs[j - 1] == init[j - 1];
      } else {
        assert fs[j - 1] == init[|init| - 1];
      }
    }
  }

  /** An open note was opened by a valid frame with that note, and every
      frame since is one the gate rejects, at most `gap` after the frame
      before it. */
  lemma {:induction false} OpenNoteOrigin(fs: seq<Frame>, cfg: Config)
    ensures Run(fs, cfg).note.Some? ==> exists v :: OpenedAt(fs, v, Run(fs, cfg).note.value, cfg)
  {
    if fs != [] {
      var init := fs[..|fs| - 1];
      assert init + [fs[|fs| - 1]] == fs;
      RunWellFormed(init, cfg);
      OpenNoteOrigin(init, cfg);
      OriginStep(init, Run(init, cfg), fs[|fs| - 1], cfg);
    }
  }

  /** No earlier valid frame with `note` reaches frame `a` through rejected
      frames alone, each at most `gap` after the one before: a valid frame or
      a longer gap in between cuts it off. */
  ghost predicate NoteCutBefore(fs: seq<Frame>, a: int, note: string, cfg: Config)
  {
    forall v :: v < a && NoteAt(fs, v, note, cfg) ==> exists j :: v < j < a && CutAt(fs, j, cfg)
  }

  /** `fs[a..b]` is a maximal run of `note`: it starts at a valid frame with
      the note while that note is not open, every later frame of it is a
      valid frame with the note or a rejected one at most `gap` after the
      frame before, and the frame after it, if any, breaks the note. */
  ghost predicate MaximalRun(fs: seq<Frame>, a: int, b: int, note: string, cfg: Config)
  {
    && 0 <= a <= b < |fs|
    && NoteAt(fs, a, note, cfg)
    && NoteCutBefore(fs, a, note, cfg)
    && (forall j :: a < j <= b ==> ContinuesAt(fs, j, note, cfg))
    && (b == |fs| - 1 || Breaks(fs[b + 1], fs[b].t, note, cfg))
  }

  /** A cut after frame `v` means the note `v` opened is no longer open at
      frame `a`. */
  lemma CutEndsOrigin(fs: seq<Frame>, a: int, v: int, note: string, cfg: Config)
    requires 0 <= a <= |fs| && NoteCutBefore(fs, a, note, cfg)
    ensures !OpenedAt(fs[..a], v, note, cfg)
  {
    var p := fs[..a];
    if 0 <= v < a && NoteAt(fs, v, note, cfg) {
      var j :| v < j < a && CutAt(fs, j, cfg);
      assert p[j] == fs[j] && p[j - 1] == fs[j - 1];
      assert !QuietAt(p, j, cfg);
    } else {
      assert !NoteAt(p, v, note, cfg) by {
        if 0 <= v < a {
          assert p[v] == fs[v];
        }
      }
    }
  }

  /** When a run is cut off from every earlier frame with its note, that note
      is not open as the run's first frame arrives. */
  lemma NoteClosedAtCut(fs: seq<Frame>, a: int, note: string, cfg: Config)
    requires 0 <= a <= |fs| && NoteCutBefore(fs, a, note, cfg)
    ensures Run(fs[..a], cfg).note != Some(note)
  {
    OpenNoteOrigin(fs[..a], cfg);
    forall v | true
      ensures !OpenedAt(fs[..a], v, note, cfg)
    {
      CutEndsOrigin(fs, a, v, note, cfg);
    }
  }

  /** A run without breaks stays one when its last frame is dropped. */
  lemma ContinuesInit(p: seq<Frame>, init: seq<Frame>, a: int, note: string, cfg: Config)
    requires NoteAt(p, a, note, cfg) && a < |p| - 1 && init == p[..|p| - 1]
    requires forall j :: a < j < |p| ==> ContinuesAt(p, j, note, cfg)
    ensures NoteAt(init, a, note, cfg) && init[..a] == p[..a]
    ensures init[a] == p[a] && init[|init| - 1] == p[|p| - 2]
    ensures forall j :: a < j < |init| ==> ContinuesAt(init, j, note, cfg)
  {
    assert init[a] == p[a];
    assert init[..a] == p[..a];
    forall j | a < j < |init|
      ensures ContinuesAt(init, j, note, cfg)
    {
      assert ContinuesAt(p, j, note, cfg);
      assert init[j] == p[j] && init[j - 1] == p[j - 1];
    }
  }

  /** The open note `note` opened at `start`, holds at least one frame, and
      `last_time` is `last`. */
  ghost predicate Holding(st: SegState, note: string, start: real, last: real)
  {
    st.note == Some(note) && st.start == Some(start) && |st.cents| > 0 && st.last == Some(last)
  }

  /** The first frame of a run opens its note. */
  lemma HoldsFromFirst(p: seq<Frame>, a: int, note: string, cfg: Config)
    requires NoteAt(p, a, note, cfg) && |p| == a + 1
    requires Run(p[..a], cfg).note != Some(note)
    ensures Holding(Run(p, cfg), note, p[a].t, p[a].t)
  {
    StepOpens(Run(p[..a], cfg), p[a], cfg);
  }

  /** A frame that continues the run keeps its note open. */
  lemma HoldsOnward(p: seq<Frame>, init: seq<Frame>, note: string, start: real, cfg: Config)
    requires |p| > 1 && init == p[..|p| - 1]
    requires Holding(Run(init, cfg), note, start, p[|p| - 2].t)
    requires ContinuesAt(p, |p| - 1, note, cfg)
    ensures Holding(Run(p, cfg), note, start, p[|p| - 1].t)
  {
    StepContinues(Run(init, cfg), p[|p| - 1], note, cfg);
  }

  /** Inside a run the note stays open: it opened at the run's first frame
      `p[a]`, holds at least one frame, and `last_time` is the last frame's. */
  lemma {:induction false} RunHolds(p: seq<Frame>, a: int, note: string, cfg: Config)
    requires NoteAt(p, a, note, cfg)
    requires Run(p[..a], cfg).note != Some(note)
    requires forall j :: a < j < |p| ==> ContinuesAt(p, j, note, cfg)
    ensures Holding(Run(p, cfg), note, p[a].t, p[|p| - 1].t)
  {
    if |p| == a + 1 {
      HoldsFromFirst(p, a, note, cfg);
    } else {
      var init := p[..|p| - 1];
      ContinuesInit(p, init, a, note, cfg);
      RunHolds(init, a, note, cfg);
      HoldsOnward(p, init, note, p[a].t, cfg);
    }
  }

  /** A frame that breaks the open note emits it, when long enough, as the
      next segment: from its start to `last_time`, with its note. */
  lemma RunCloses(p: seq<Frame>, fr: Frame, note: string, start: real, last: real, cfg: Config)
    requires Holding(Run(p, cfg), note, start, last)
    requires Breaks(fr, last, note, cfg) && last - start >= cfg.minSegDur
    ensures SegmentAt(Run(p + [fr], cfg).segments, |Run(p, cfg).segments|, start, last, note)
  {
    var st := Run(p, cfg);
    RunSnoc(p, fr, cfg);
    StepBreaks(st, fr, note, cfg);
    CloseAtEffect(st, last, cfg.minSegDur);
  }

  /** The trailing close emits the open note, when long enough, as the last
      segment: from its start to `last_time`, with its note. */
  lemma FinishCloses(st: SegState, note: string, start: real, last: real, minSegDur: real)
    requires Holding(st, note, start, last) && last - start >= minSegDur
    ensures SegmentAt(FinishState(st, minSegDur).segments, |st.segments|, start, last, note)
  {
    CloseAtEffect(st, last, minSegDur);
  }

  /** A segment emitted after the first `i` frames is in the final list, at
      the same position. */
  lemma KeptToEnd(fs: seq<Frame>, i: int, k: int, cfg: Config)
    requires 0 <= i <= |fs| && 0 <= k < |Run(fs[..i], cfg).segments|
    ensures var segs := FinishState(Run(fs, cfg), cfg.minSegDur).segments;
            k < |segs| && segs[k] == Run(fs[..i], cfg).segments[k]
  {
    RunSegmentsPrefix(fs, i, cfg);
    FinishEffect(Run(fs, cfg), cfg.minSegDur);
  }

  /** Some segment of `segs` runs from `startS` to `endS` and carries `note`. */
  ghost predicate HasSegment(segs: seq<NoteSegment>, startS: real, endS: real, note: string)
  {
    exists k :: SegmentAt(segs, k, startS, endS, note)
  }

  /** The segment at index `k` runs from `startS` to `endS` with `note`. */
  ghost predicate SegmentAt(segs: seq<NoteSegment>, k: int, startS: real, endS: real, note: string)
  {
    0 <= k < |segs| && segs[k].startS == startS && segs[k].endS == endS && segs[k].note == note
  }

  /** At the last frame of a maximal run its note is open, started at the
      run's first frame, holding a frame, with `last_time` the last frame's. */
  lemma RunOpenAtEnd(fs: seq<Frame>, a: int, b: int, note: string, cfg: Config)
    requires MaximalRun(fs, a, b, note, cfg)
    ensures Holding(Run(fs[..b + 1], cfg), note, fs[a].t, fs[b].t)
  {
    var p := fs[..b + 1];
    PrefixClosed(fs, p, a, b, note, cfg);
    PrefixContinues(fs, p, a, b, note, cfg);
    RunHolds(p, a, note, cfg);
  }

  /** Cut off from every earlier frame of its note, a run starts with its
      note closed, also within a longer prefix. */
  lemma PrefixClosed(fs: seq<Frame>, p: seq<Frame>, a: int, b: int, note: string, cfg: Config)
    requires 0 <= a <= b < |fs| && p == fs[..b + 1] && NoteCutBefore(fs, a, note, cfg)
    ensures Run(p[..a], cfg).note != Some(note)
  {
    NoteClosedAtCut(fs, a, note, cfg);
    assert p[..a] == fs[..a];
  }

  /** A run of `fs` ending at `b` is a run of the prefix up to `b`. */
  lemma PrefixContinues(fs: seq<Frame>, p: seq<Frame>, a: int, b: int, note: string, cfg: Config)
    requires 0 <= a <= b < |fs| && p == fs[..b + 1] && NoteAt(fs, a, note, cfg)
    requires forall j :: a < j <= b ==> ContinuesAt(fs, j, note, cfg)
    ensures NoteAt(p, a, note, cfg) && p[a] == fs[a] && p[|p| - 1] == fs[b]
    ensures forall j :: a < j < |p| ==> ContinuesAt(p, j, note, cfg)
  {
    assert p[a] == fs[a];
    forall j | a < j < |p|
      ensures ContinuesAt(p, j, note, cfg)
    {
      assert ContinuesAt(fs, j, note, cfg);
      assert p[j] == fs[j] && p[j - 1] == fs[j - 1];
    }
  }

  /** A maximal run that lasts at least `min_seg_dur` is emitted: some
      segment runs from its first frame's time to its last frame's time and
      carries its note. No ordering of the times is needed. */
  lemma RunEmitted(fs: seq<Frame>, a: int, b: int, note: string, cfg: Config) returns (k: int)
    requires MaximalRun(fs, a, b, note, cfg)
    requires fs[b].t - fs[a].t >= cfg.minSegDur
    ensures SegmentAt(FinishState(Run(fs, cfg), cfg.minSegDur).segments, k, fs[a].t, fs[b].t, note)
  {
    var p := fs[..b + 1];
    RunOpenAtEnd(fs, a, b, note, cfg);
    k := |Run(p, cfg).segments|;
    if b == |fs| - 1 {
      assert p == fs;
      FinishCloses(Run(fs, cfg), note, fs[a].t, fs[b].t, cfg.minSegDur);
    } else {
      RunCloses(p, fs[b + 1], note, fs[a].t, fs[b].t, cfg);
      TakeSnoc(fs, b + 1);
      KeptToEnd(fs, b + 2, k, cfg);
    }
  }


  /** Frames that are all valid and all carry one note leave that note open
      from the first frame, holding every frame's cents and confidence, with
      nothing emitted. */
  lemma {:induction false} RunSameNote(fs: seq<Frame>, note: string, cfg: Config)
    requires fs != []
    requires forall i :: 0 <= i < |fs| ==> NoteAt(fs, i, note, cfg)
    ensures Run(fs, cfg) == SegState([], Some(note), Some(fs[0].t), CentsList(cfg.hzToMidi, fs), ConfList(fs), Some(fs[|fs| - 1].t))
  {
    var init := fs[..|fs| - 1];
    var fr := fs[|fs| - 1];
    assert NoteAt(fs, |fs| - 1, note, cfg);
    if init == [] {
      assert fs == [fr];
      SameNoteFirst(fr, note, cfg);
    } else {
      NotesInit(fs, init, note, cfg);
      RunSameNote(init, note, cfg);
      SameNoteStep(fs, init, note, cfg);
    }
  }

  /** A single frame on the note opens it. */
  lemma SameNoteFirst(fr: Frame, note: string, cfg: Config)
    requires IsValid(fr, cfg.confThreshold) && NoteOf(cfg.hzToMidi, fr.f) == note
    ensures Run([fr], cfg) == SegState([], Some(note), Some(fr.t), CentsList(cfg.hzToMidi, [fr]), ConfList([fr]), Some(fr.t))
  {
    assert [fr][..0] == [];
    ListsOne(fr, cfg.hzToMidi);
  }

  lemma ListsOne(fr: Frame, hzToMidi: real -> real)
    ensures CentsList(hzToMidi, [fr]) == [CentsOf(hzToMidi, fr.f)]
    ensures ConfList([fr]) == [fr.c]
  {
  }

  /** Dropping the last frame keeps every frame on the note. */
  lemma NotesInit(fs: seq<Frame>, init: seq<Frame>, note: string, cfg: Config)
    requires fs != [] && init == fs[..|fs| - 1]
    requires forall i :: 0 <= i < |fs| ==> NoteAt(fs, i, note, cfg)
    ensures forall i :: 0 <= i < |init| ==> NoteAt(init, i, note, cfg)
  {
    forall i | 0 <= i < |init|
      ensures NoteAt(init, i, note, cfg)
    {
      assert NoteAt(fs, i, note, cfg);
      assert init[i] == fs[i];
    }
  }

  /** A frame on the open note adds its cents and confidence to it. */
  lemma SameNoteStep(fs: seq<Frame>, init: seq<Frame>, note: string, cfg: Config)
    requires |fs| > 1 && init == fs[..|fs| - 1] && NoteAt(fs, |fs| - 1, note, cfg)
    ensures var st := SegState([], Some(note), Some(init[0].t), CentsList(cfg.hzToMidi, init), ConfList(init), Some(init[|init| - 1].t));
            Step(st, fs[|fs| - 1], cfg) == SegState([], Some(note), Some(fs[0].t), CentsList(cfg.hzToMidi, fs), ConfList(fs), Some(fs[|fs| - 1].t))
  {
    ListsSnoc(init, fs[|fs| - 1], cfg.hzToMidi);
    assert init + [fs[|fs| - 1]] == fs;
  }

  /** Frames that are all valid and all carry the label `note`. */
  ghost predicate OneNote(fs: seq<Frame>, note: string, cfg: Config)
  {
    fs != [] && forall i :: 0 <= i < |fs| ==> NoteAt(fs, i, note, cfg)
  }

  /** Zipped frames that are all valid and carry one note give exactly one
      segment, from the first frame to the last with that note, when they
      span at least `min_seg_dur`, and none otherwise. */
  lemma OneRunOneSegment(times: seq<real>, freqs: seq<real>, confs: seq<real>, note: string, cfg: Config)
    requires OneNote(Zip(times, freqs, confs), note, cfg)
    ensures var segs := Segments(times, freqs, confs, cfg);
            var fs := Zip(times, freqs, confs);
            && |segs| <= 1
            && (|segs| == 1 <==> fs[|fs| - 1].t - fs[0].t >= cfg.minSegDur)
            && (|segs| == 1 ==> segs[0].startS == fs[0].t && segs[0].endS == fs[|fs| - 1].t && segs[0].note == note)
  {
    var fs := Zip(times, freqs, confs);
    RunSameNote(fs, note, cfg);
    CloseAtEffect(Run(fs, cfg), fs[|fs| - 1].t, cfg.minSegDur);
  }

  /** Zipped frames that form a maximal run of a note lasting at least
      `min_seg_dur` give a segment from the run's first frame's time to its
      last frame's time with that note. */
  lemma SegmentsComplete(times: seq<real>, freqs: seq<real>, confs: seq<real>, a: int, b: int, note: string, cfg: Config)
    requires MaximalRun(Zip(times, freqs, confs), a, b, note, cfg)
    requires Zip(times, freqs, confs)[b].t - Zip(times, freqs, confs)[a].t >= cfg.minSegDur
    ensures HasSegment(Segments(times, freqs, confs, cfg), Zip(times, freqs, confs)[a].t, Zip(times, freqs, confs)[b].t, note)
  {
    var k := RunEmitted(Zip(times, freqs, confs), a, b, note, cfg);
  }

  /** Frames `a..b`, all valid with `note`, run without a break. */
  lemma SameNoteRuns(fs: seq<Frame>, a: int, b: int, note: string, cfg: Config)
    requires 0 <= a <= b < |fs|
    requires forall j :: a <= j <= b ==> NoteAt(fs, j, note, cfg)
    ensures forall j :: a < j <= b ==> ContinuesAt(fs, j, note, cfg)
  {
    forall j | a < j <= b
      ensures ContinuesAt(fs, j, note, cfg)
    {
      assert NoteAt(fs, j, note, cfg);
    }
  }

  /** The frames of `GapSplitsNote`: two parts with one note around a
      rejected frame more than `gap` after the first part. */
  ghost predicate SplitByGap(fs: seq<Frame>, b: int, note: string, cfg: Config)
  {
    && 0 <= b && b + 2 < |fs|
    && (forall j :: 0 <= j < |fs| && j != b + 1 ==> NoteAt(fs, j, note, cfg))
    && !IsValid(fs[b + 1], cfg.confThreshold) && fs[b + 1].t - fs[b].t > cfg.gap
  }

  /** The first part of a split note, when long enough, is emitted. */
  lemma SplitFirstEmitted(fs: seq<Frame>, b: int, note: string, cfg: Config) returns (k: int)
    requires SplitByGap(fs, b, note, cfg) && fs[b].t - fs[0].t >= cfg.minSegDur
    ensures SegmentAt(FinishState(Run(fs, cfg), cfg.minSegDur).segments, k, fs[0].t, fs[b].t, note)
  {
    SameNoteRuns(fs, 0, b, note, cfg);
    assert NoteAt(fs, 0, note, cfg);
    assert !ContinuesAt(fs, b + 1, note, cfg);
    k := RunEmitted(fs, 0, b, note, cfg);
  }

  /** The second part of a split note is a maximal run: the rejected frame
      cuts it off from every frame of the first part. */
  lemma SecondPartRuns(fs: seq<Frame>, b: int, note: string, cfg: Config)
    requires SplitByGap(fs, b, note, cfg)
    ensures MaximalRun(fs, b + 2, |fs| - 1, note, cfg)
  {
    assert CutAt(fs, b + 1, cfg);
    SameNoteRuns(fs, b + 2, |fs| - 1, note, cfg);
    assert NoteAt(fs, b + 2, note, cfg);
  }

  /** The second part of a split note, when long enough, is emitted. */
  lemma SplitSecondEmitted(fs: seq<Frame>, b: int, note: string, cfg: Config) returns (k: int)
    requires SplitByGap(fs, b, note, cfg) && fs[|fs| - 1].t - fs[b + 2].t >= cfg.minSegDur
    ensures SegmentAt(FinishState(Run(fs, cfg), cfg.minSegDur).segments, k, fs[b + 2].t, fs[|fs| - 1].t, note)
  {
    SecondPartRuns(fs, b, note, cfg);
    k := RunEmitted(fs, b + 2, |fs| - 1, note, cfg);
  }

  /** A rejected frame more than `gap` after the frame before it splits one
      note in two: frames `0..b` and `b + 2..` all valid with the same note,
      each part lasting at least `min_seg_dur`, give a segment for each
      part, two distinct segments whenever the parts start at different
      times. */
  lemma GapSplitsNote(times: seq<real>, freqs: seq<real>, confs: seq<real>, b: int, note: string, cfg: Config)
    requires SplitByGap(Zip(times, freqs, confs), b, note, cfg)
    requires Zip(times, freqs, confs)[b].t - Zip(times, freqs, confs)[0].t >= cfg.minSegDur
    requires Zip(times, freqs, confs)[|Zip(times, freqs, confs)| - 1].t - Zip(times, freqs, confs)[b + 2].t >= cfg.minSegDur
    ensures var segs := Segments(times, freqs, confs, cfg);
            var fs := Zip(times, freqs, confs);
            HasSegment(segs, fs[0].t, fs[b].t, note) && HasSegment(segs, fs[b + 2].t, fs[|fs| - 1].t, note)
  {
    GapSplitsRun(Zip(times, freqs, confs), b, note, cfg);
  }

  /** `GapSplitsNote` on the zipped frames. */
  lemma GapSplitsRun(fs: seq<Frame>, b: int, note: string, cfg: Config)
    requires SplitByGap(fs, b, note, cfg)
    requires fs[b].t - fs[0].t >= cfg.minSegDur && fs[|fs| - 1].t - fs[b + 2].t >= cfg.minSegDur
    ensures var segs := FinishState(Run(fs, cfg), cfg.minSegDur).segments;
            HasSegment(segs, fs[0].t, fs[b].t, note) && HasSegment(segs, fs[b + 2].t, fs[|fs| - 1].t, note)
  {
    var k1 := SplitFirstEmitted(fs, b, note, cfg);
    var k2 := SplitSecondEmitted(fs, b, note, cfg);
  }

  /** The closure state of `segment_notes`: the variables `close_segment`
      rebinds through `nonlocal`, and the parameters it reads. */
  class Segmenter {
    const hzToMidi: real -> real
    const minSegDur: real
    const gap: real
    const confThreshold: real

    var segments: seq<NoteSegment>
    var curNote: Option<string>
    var curStart: Option<real>
    var curCents: seq<real>
    var curConfs: seq<real>
    var lastTime: Option<real>
    /** The frames fed so far. */
    ghost var seen: seq<Frame>

    function State(): SegState
      reads this
    {
      SegState(segments, curNote, curStart, curCents, curConfs, lastTime)
    }

    function Cfg(): Config
    {
      Config(hzToMidi, minSegDur, gap, confThreshold)
    }

    /** The variables hold what the loop computes from the frames seen. */
    ghost predicate Valid()
      reads this
    {
      State() == Run(seen, Cfg())
    }

    constructor (hzToMidi: real -> real, minSegDur: real, gap: real, confThreshold: real)
      ensures Valid() && seen == []
      ensures this.hzToMidi == hzToMidi && this.minSegDur == minSegDur
      ensures this.gap == gap && this.confThreshold == confThreshold
    {
      this.hzToMidi := hzToMidi;
      this.minSegDur := minSegDur;
      this.gap := gap;
      this.confThreshold := confThreshold;
      segments := [];
      curNote := None;
      curStart := None;
      curCents := [];
      curConfs := [];
      lastTime := None;
      seen := [];
    }

    /** `close_segment(end_time)`. */
    method CloseSegment(endTime: real)
      modifies this
      ensures State() == CloseAt(old(State()), endTime, minSegDur)
      ensures seen == old(seen)
    {
      if curNote.None? || curStart.None? {
        return;
      }
      var dur := endTime - curStart.value;
      if dur >= minSegDur && |curCents| > 0 {
        segments := segments + [NoteSegment(curStart.value, endTime, curNote.value, Stats.Median(curCents),
                                            if |curConfs| > 0 then Stats.Mean(curConfs) else 0.0)];
      }
      // reset
      curNote := None;
      curStart := None;
      curCents := [];
      curConfs := [];
    }

    /** One pass of the loop of `segment_notes` over the frame `(t, f, c)`. */
    method Feed(t: real, f: real, c: real)
      requires Valid()
      modifies this
      ensures Valid()
      ensures seen == old(seen) + [Frame(t, f, c)]
      ensures State() == Step(old(State()), Frame(t, f, c), Cfg())
    {
      RunSnoc(seen, Frame(t, f, c), Cfg());
      var valid := f > 0.0 && c >= confThreshold;
      if !valid {
        FeedInvalid(t, f, c);
      } else {
        FeedValid(t, f, c);
      }
      seen := seen + [Frame(t, f, c)];
    }

    /** The loop body on a frame the gate rejects. */
    method FeedInvalid(t: real, f: real, c: real)
      requires !IsValid(Frame(t, f, c), confThreshold)
      modifies this
      ensures State() == Step(old(State()), Frame(t, f, c), Cfg())
      ensures seen == old(seen)
    {
      // If we were in a segment, check the gap
      if curNote.Some? && lastTime.Some? && t - lastTime.value > gap {
        CloseSegment(lastTime.value);
      }
      lastTime := Some(t);
    }

    /** The loop body on a frame the gate accepts. */
    method FeedValid(t: real, f: real, c: real)
      requires IsValid(Frame(t, f, c), confThreshold)
      modifies this
      ensures State() == Step(old(State()), Frame(t, f, c), Cfg())
      ensures seen == old(seen)
    {
      var noteStr := NoteOf(hzToMidi, f);
      var cents := CentsOf(hzToMidi, f);
      if curNote.None? {
        curNote := Some(noteStr);
        curStart := Some(t);
        curCents := [cents];
        curConfs := [c];
      } else if noteStr != curNote.value {
        // The note changed: close the previous one at the previous frame's time
        CloseSegment(match lastTime case Some(lt) => lt case None => t);
        curNote := Some(noteStr);
        curStart := Some(t);
        curCents := [cents];
        curConfs := [c];
      } else {
        curCents := curCents + [cents];
        curConfs := curConfs + [c];
      }
      lastTime := Some(t);
    }

    /** The close of the trailing note after the loop. */
    method Finish()
      modifies this
      ensures State() == FinishState(old(State()), minSegDur)
      ensures seen == old(seen)
    {
      if curNote.Some? && lastTime.Some? && curStart.Some? {
        CloseSegment(lastTime.value);
      }
    }
  }

  /** `segment_notes(times, freqs, confs, a4, min_seg_dur, gap, conf_threshold)`,
      with the properties of `SegmentsSound` and `SegmentsBreak` (what each
      segment says about the frames), of `SegmentsComplete` (every maximal
      run of one note lasting `min_seg_dur` is emitted) and of
      `OneRunOneSegment` (frames all on one note give one segment exactly
      when they span `min_seg_dur`). */
  method SegmentNotes(times: seq<real>, freqs: seq<real>, confs: seq<real>, hzToMidi: real -> real,
                      minSegDur: real, gap: real, confThreshold: real) returns (segments: seq<NoteSegment>)
    ensures segments == Segments(times, freqs, confs, Config(hzToMidi, minSegDur, gap, confThreshold))
    ensures forall k :: 0 <= k < |segments| ==> segments[k].endS - segments[k].startS >= minSegDur
    ensures Zip(times, freqs, confs) == [] ==> segments == []
    ensures Ascending(Zip(times, freqs, confs)) ==> Sequential(segments)
    ensures Ascending(Zip(times, freqs, confs)) ==>
              forall k :: 0 <= k < |segments| ==>
                && SegmentMatches(segments[k], Zip(times, freqs, confs), hzToMidi, confThreshold)
                && segments[k].meanConfidence >= confThreshold
    ensures Ascending(Zip(times, freqs, confs)) ==>
              forall k :: 0 <= k < |segments| ==>
                && NoGapWithin(Zip(times, freqs, confs), segments[k].startS, segments[k].endS, Config(hzToMidi, minSegDur, gap, confThreshold))
                && EndsAtBreak(segments[k], Zip(times, freqs, confs), Config(hzToMidi, minSegDur, gap, confThreshold))
    ensures var fs := Zip(times, freqs, confs);
            forall a, b, note :: MaximalRun(fs, a, b, note, Config(hzToMidi, minSegDur, gap, confThreshold)) && fs[b].t - fs[a].t >= minSegDur ==>
              HasSegment(segments, fs[a].t, fs[b].t, note)
    ensures var fs := Zip(times, freqs, confs);
            forall note :: OneNote(fs, note, Config(hzToMidi, minSegDur, gap, confThreshold)) ==>
              && |segments| <= 1
              && (|segments| == 1 <==> fs[|fs| - 1].t - fs[0].t >= minSegDur)
              && (|segments| == 1 ==> segments[0].startS == fs[0].t && segments[0].endS == fs[|fs| - 1].t && segments[0].note == note)
  {
    var frames := Zip(times, freqs, confs);
    var s := new Segmenter(hzToMidi, minSegDur, gap, confThreshold);
    FeedAll(s, frames);
    s.Finish();
    segments := s.segments;
    assert segments == Segments(times, freqs, confs, s.Cfg());
    SegmentsSound(times, freqs, confs, Config(hzToMidi, minSegDur, gap, confThreshold));
    if Ascending(frames) {
      SegmentsBreak(times, freqs, confs, Config(hzToMidi, minSegDur, gap, confThreshold));
    }
    forall a, b, note | MaximalRun(frames, a, b, note, s.Cfg()) && frames[b].t - frames[a].t >= minSegDur
      ensures HasSegment(segments, frames[a].t, frames[b].t, note)
    {
      SegmentsComplete(times, freqs, confs, a, b, note, s.Cfg());
    }
    forall note | OneNote(frames, note, s.Cfg())
      ensures && |segments| <= 1
              && (|segments| == 1 <==> frames[|frames| - 1].t - frames[0].t >= minSegDur)
              && (|segments| == 1 ==> segments[0].startS == frames[0].t && segments[0].endS == frames[|frames| - 1].t && segments[0].note == note)
    {
      OneRunOneSegment(times, freqs, confs, note, s.Cfg());
    }
  }

  /** The loop `for t, f, c in zip(times, freqs, confs)`. */
  method FeedAll(s: Segmenter, frames: seq<Frame>)
    requires s.Valid() && s.seen == []
    modifies s
    ensures s.Valid() && s.seen == frames
  {
    var i := 0;
    while i < |frames|
      invariant 0 <= i <= |frames|
      invariant s.Valid() && s.seen == frames[..i]
    {
      var fr := frames[i];
      s.Feed(fr.t, fr.f, fr.c);
      assert frames[..i + 1] == frames[..i] + [fr];
      i := i + 1;
    }
    assert frames[..i] == frames;
  }
}
