/** The note arithmetic of `src/mellymell/pitch.py`: MIDI numbers (69 is A4,
    twelve-tone equal temperament) and their names over a fixed 12-entry
    chromatic table starting at C.

    `hz_to_midi` (69 + 12*log2(f/a4)) and `midi_to_hz` (its inverse) are
    transcendental and are not modelled: `LabelOfMidi` takes the value
    `hz_to_midi(f, a4)` already computed, and `NoteToMidi` stops at the MIDI
    number that `note_to_hz` hands to `midi_to_hz`. */
module Pitch {
  import opened Common

  /** `NOTE_NAMES`. */
  const NoteNames: seq<string> := ["C", "C#", "D", "D#", "E", "F", "F#", "G", "G#", "A", "A#", "B"]

  /** A note name with its octave (the pair `midi_to_note` returns). */
  datatype Note = Note(name: string, octave: int)

  /** What `hz_to_note` returns: the nearest note and the deviation from its
      centre in cents. */
  datatype PitchLabel = PitchLabel(name: string, octave: int, cents: real)

  /** Python's `round` of a float: the nearest integer, ties to the even one. */
  function RoundHalfEven(x: real): (r: int)
    ensures -0.5 <= x - r as real <= 0.5
    ensures x - r as real == 0.5 || x - r as real == -0.5 ==> r % 2 == 0
  {
    var fl := x.Floor;
    var frac := x - fl as real;
    if frac < 0.5 then fl
    else if frac > 0.5 then fl + 1
    else if fl % 2 == 0 then fl
    else fl + 1
  }

  /** A value less than half a unit from an integer rounds to that integer. */
  lemma RoundNear(k: int, d: real)
    requires -0.5 < d < 0.5
    ensures RoundHalfEven(k as real + d) == k
  {
    var r := RoundHalfEven(k as real + d);
    assert -1.0 < (k - r) as real < 1.0;
  }

  /** `list.index`: the position of the first occurrence of `x`. */
  function IndexOf(s: seq<string>, x: string): (r: Result<nat, Error>)
    ensures r.Success? <==> x in s
    ensures r.Success? ==> r.value < |s| && s[r.value] == x
    ensures r.Success? ==> forall j :: 0 <= j < r.value ==> s[j] != x
    ensures r.Failure? ==> r.error == NotInList
  {
    if s == [] then Failure(NotInList)
    else if s[0] == x then Success(0)
    else
      match IndexOf(s[1..], x)
      case Success(i) => Success(i + 1)
      case Failure(e) => Failure(e)
  }

  /** `midi_to_note`: round to the nearest MIDI number, then split it into a
      pitch class (floor modulo 12) and an octave (floor division by 12, minus
      one). Dafny's `%` and `/` agree with Python's `%` and `//` for the
      positive divisor 12, negative MIDI numbers included. */
  function MidiToNote(m: real): (n: Note)
    ensures n.name in NoteNames
  {
    var rounded := RoundHalfEven(m);
    Note(NoteNames[rounded % 12], rounded / 12 - 1)
  }

  /** `note_to_hz` up to the MIDI number it converts: `NOTE_NAMES.index(name)`
      fails exactly when the name is not in the table. */
  function NoteToMidi(n: Note): (r: Result<int, Error>)
    ensures r.Failure? <==> n.name !in NoteNames
    ensures r.Failure? ==> r.error == NotInList
  {
    match IndexOf(NoteNames, n.name)
    case Success(idx) => Success((n.octave + 1) * 12 + idx)
    case Failure(e) => Failure(e)
  }

  ghost predicate Distinct(s: seq<string>)
  {
    forall i, j :: 0 <= i < j < |s| ==> s[i] != s[j]
  }

  lemma IndexOfDistinct(s: seq<string>, k: nat)
    requires Distinct(s) && k < |s|
    ensures IndexOf(s, s[k]) == Success(k)
  {
  }

  /** The names of the table are pairwise distinct, so the first index of
      the name at position k is k. */
  lemma IndexOfNoteName(k: nat)
    requires k < 12
    ensures IndexOf(NoteNames, NoteNames[k]) == Success(k)
  {
    assert Distinct(NoteNames);
    IndexOfDistinct(NoteNames, k);
  }

  /** Round trip one way: the note `midi_to_note` gives for any real `m` maps
      back to the rounded MIDI number. */
  lemma NoteToMidiOfMidiToNote(m: real)
    ensures NoteToMidi(MidiToNote(m)) == Success(RoundHalfEven(m))
  {
    var rounded := RoundHalfEven(m);
    IndexOfNoteName(rounded % 12);
    assert (rounded / 12 - 1 + 1) * 12 + rounded % 12 == rounded;
  }

  /** Round trip the other way: for every name of the table (the one at
      position `idx`) and every octave, `note_to_hz` goes to the MIDI number
      `(octave + 1) * 12 + idx` and `midi_to_note` of that number gives the
      note back. */
  lemma MidiToNoteOfNoteToMidi(idx: nat, octave: int)
    requires idx < 12
    ensures NoteToMidi(Note(NoteNames[idx], octave)).Success?
    ensures NoteToMidi(Note(NoteNames[idx], octave)).value == (octave + 1) * 12 + idx
    ensures MidiToNote(((octave + 1) * 12 + idx) as real) == Note(NoteNames[idx], octave)
  {
    IndexOfNoteName(idx);
    NoteAtMidi(idx, octave);
  }

  lemma NoteAtMidi(idx: nat, octave: int)
    requires idx < 12
    ensures MidiToNote(((octave + 1) * 12 + idx) as real) == Note(NoteNames[idx], octave)
  {
    var midi := (octave + 1) * 12 + idx;
    MidiToNoteOfInt(midi);
    DivModUnique(midi, octave + 1, idx);
  }

  /** At a whole MIDI number `midi_to_note` needs no rounding. */
  lemma MidiToNoteOfInt(k: int)
    ensures MidiToNote(k as real) == Note(NoteNames[k % 12], k / 12 - 1)
  {
    assert RoundHalfEven(k as real) == k by {
      RoundNear(k, 0.0);
      assert k as real + 0.0 == k as real;
    }
  }

  lemma DivModUnique(m: int, q: int, r: int)
    requires 0 <= r < 12 && m == q * 12 + r
    ensures m / 12 == q && m % 12 == r
  {
  }

  /** Two different MIDI numbers have different notes. */
  lemma MidiToNoteInjective(a: int, b: int)
    requires a != b
    ensures MidiToNote(a as real) != MidiToNote(b as real)
  {
    RoundNear(a, 0.0);
    RoundNear(b, 0.0);
    NoteToMidiOfMidiToNote(a as real);
    NoteToMidiOfMidiToNote(b as real);
  }

  /** `hz_to_note`, given `m = hz_to_midi(f, a4)`: the note and octave come
      from the rounded MIDI number and the cents are `(m - round(m)) * 100`. */
  function LabelOfMidi(m: real): (l: PitchLabel)
    ensures -50.0 <= l.cents <= 50.0
    ensures Note(l.name, l.octave) == MidiToNote(m)
  {
    var n := MidiToNote(m);
    PitchLabel(n.name, n.octave, (m - RoundHalfEven(m) as real) * 100.0)
  }

  /** The label decomposes the MIDI value: it is the labelled note's MIDI
      number plus its cents over 100. */
  lemma LabelDecomposesMidi(m: real)
    ensures NoteToMidi(Note(LabelOfMidi(m).name, LabelOfMidi(m).octave)).Success?
    ensures m == NoteToMidi(Note(LabelOfMidi(m).name, LabelOfMidi(m).octave)).value as real + LabelOfMidi(m).cents / 100.0
  {
    NoteToMidiOfMidiToNote(m);
  }

  /** A MIDI value less than 50 cents away from the centre of note `k` is
      labelled with note `k`, and its cents are its offset from that centre. */
  lemma LabelNearCentre(k: int, d: real)
    requires -0.5 < d < 0.5
    ensures LabelOfMidi(k as real + d) == PitchLabel(MidiToNote(k as real).name, MidiToNote(k as real).octave, d * 100.0)
  {
    RoundNear(k, d);
    RoundNear(k, 0.0);
  }

  /** Moving more than 50 (and less than 150) cents up from the centre of
      note `k` changes the label. */
  lemma LabelFlipsPastHalfSemitone(k: int, d: real)
    requires 0.5 < d < 1.5
    ensures Note(LabelOfMidi(k as real + d).name, LabelOfMidi(k as real + d).octave) != MidiToNote(k as real)
  {
    var m := k as real + d;
    RoundsUp(k, d);
    SameRoundSameNote(m, (k + 1) as real);
    MidiToNoteInjective(k + 1, k);
  }

  /** Moving more than 50 (and less than 150) cents down from the centre of
      note `k` changes the label too. */
  lemma LabelFlipsBelowHalfSemitone(k: int, d: real)
    requires 0.5 < d < 1.5
    ensures Note(LabelOfMidi(k as real - d).name, LabelOfMidi(k as real - d).octave) != MidiToNote(k as real)
  {
    var m := k as real - d;
    RoundsDown(k, d);
    SameRoundSameNote(m, (k - 1) as real);
    MidiToNoteInjective(k - 1, k);
  }

  /** `midi_to_note` depends on its argument only through its rounding. */
  lemma SameRoundSameNote(a: real, b: real)
    requires RoundHalfEven(a) == RoundHalfEven(b)
    ensures MidiToNote(a) == MidiToNote(b)
  {
  }

  lemma RoundsUp(k: int, d: real)
    requires 0.5 < d < 1.5
    ensures RoundHalfEven(k as real + d) == k + 1 == RoundHalfEven((k + 1) as real)
  {
    assert (k + 1) as real + (d - 1.0) == k as real + d;
    RoundNear(k + 1, d - 1.0);
    assert (k + 1) as real + 0.0 == (k + 1) as real;
    RoundNear(k + 1, 0.0);
  }

  lemma RoundsDown(k: int, d: real)
    requires 0.5 < d < 1.5
    ensures RoundHalfEven(k as real - d) == k - 1 == RoundHalfEven((k - 1) as real)
  {
    assert (k - 1) as real + (1.0 - d) == k as real - d;
    RoundNear(k - 1, 1.0 - d);
    assert (k - 1) as real + 0.0 == (k - 1) as real;
    RoundNear(k - 1, 0.0);
  }

  /** Exactly at a note's centre `hz_to_note` gives back that note with zero
      cents: `hz_to_note(note_to_hz(name, octave))` is `(name, octave, 0)`. */
  lemma LabelOfNoteCentre(idx: nat, octave: int)
    requires idx < 12
    ensures LabelOfMidi(((octave + 1) * 12 + idx) as real) == PitchLabel(NoteNames[idx], octave, 0.0)
  {
    var midi := (octave + 1) * 12 + idx;
    NoteAtMidi(idx, octave);
    RoundNear(midi, 0.0);
    assert midi as real + 0.0 == midi as real;
  }
}
