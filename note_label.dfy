/** The string labels the scripts build from a note, and the parse the live
    tuner does on its own label:
    - `f"{name}{octave}"` (`segment.py:78`, `analyze_file.py:52`),
    - `f"{name}{octave:02d}"` (`live_tuner.py:107`), read back with
      `shown_note[:-2]` and `int(shown_note[-2:])` (`live_tuner.py:112-113`).
    Python's `int` also accepts surrounding whitespace and underscores between
    digits; labels never contain either, so `ParseInt` leaves them out. */
module NoteLabel {
  import opened Common
  import opened Pitch

  predicate IsDigit(c: char)
  {
    '0' <= c <= '9'
  }

  predicate AllDigits(s: string)
  {
    forall k :: 0 <= k < |s| ==> IsDigit(s[k])
  }

  /** Decimal digits of `n`, no leading zeros (`str(n)` for `n >= 0`). */
  function Digits(n: nat): (s: string)
    ensures |s| >= 1
    ensures forall k :: 0 <= k < |s| ==> IsDigit(s[k])
    ensures n >= 10 <==> |s| >= 2
  {
    if n < 10 then [('0' as int + n) as char]
    else Digits(n / 10) + [('0' as int + n % 10) as char]
  }

  /** `f"{i}"`: a minus sign for negative values, then the digits. */
  function FormatInt(i: int): string
  {
    if i < 0 then "-" + Digits(-i) else Digits(i)
  }

  /** `f"{i}"` is a minus sign exactly for negative `i`, then at least one
      digit and nothing else. */
  lemma FormatIntShape(i: int)
    ensures var s := FormatInt(i);
            && |s| >= 1
            && (s[0] == '-' <==> i < 0)
            && (i < 0 ==> |s| >= 2 && AllDigits(s[1..]))
            && (i >= 0 ==> AllDigits(s))
  {
    if i < 0 {
      assert FormatInt(i)[1..] == Digits(-i);
    }
  }

  /** `f"{i:02d}"`: `f"{i}"` zero-padded after the sign to width 2. */
  function FormatInt02(i: int): (s: string)
    ensures |s| >= 2
    ensures |s| == 2 <==> -9 <= i <= 99
  {
    var s := FormatInt(i);
    if |s| < 2 then "0" + s else s
  }

  /** The value of a non-empty string of decimal digits. */
  function DigitsValue(s: string): (r: Result<nat, Error>)
    ensures r.Success? <==> s != [] && AllDigits(s)
    ensures r.Failure? ==> r.error == BadIntLiteral
  {
    if s == [] || !IsDigit(s[|s| - 1]) then Failure(BadIntLiteral)
    else
      var d := s[|s| - 1] as int - '0' as int;
      if |s| == 1 then Success(d)
      else
        match DigitsValue(s[..|s| - 1])
        case Success(v) => Success(v * 10 + d)
        case Failure(e) => Failure(e)
  }

  /** Python's `int(s)` on a sign followed by decimal digits: it accepts
      exactly a non-empty run of digits, optionally after one sign, and
      raises ValueError on anything else. */
  function ParseInt(s: string): (r: Result<int, Error>)
    ensures r.Success? <==> (s != [] && AllDigits(s)) || (|s| >= 2 && (s[0] == '-' || s[0] == '+') && AllDigits(s[1..]))
    ensures r.Failure? ==> r.error == BadIntLiteral
    ensures r.Success? && r.value < 0 ==> s[0] == '-'
  {
    if |s| > 0 && (s[0] == '-' || s[0] == '+') then
      match DigitsValue(s[1..])
      case Success(v) =>
        var value: int := v;
        Success(if s[0] == '-' then -value else value)
      case Failure(e) => Failure(e)
    else
      match DigitsValue(s)
      case Success(v) => Success(v)
      case Failure(e) => Failure(e)
  }

  lemma {:induction false} DigitsValueOfDigits(n: nat)
    ensures DigitsValue(Digits(n)) == Success(n)
  {
    if n >= 10 {
      var s := Digits(n);
      assert s[..|s| - 1] == Digits(n / 10);
      DigitsValueOfDigits(n / 10);
    }
  }

  lemma DigitsValueZeroPadded(n: nat)
    requires n < 10
    ensures DigitsValue("0" + Digits(n)) == Success(n)
  {
    assert ("0" + Digits(n))[..1] == "0";
  }

  /** `int(f"{i}") == i` for every integer. */
  lemma ParseFormatInt(i: int)
    ensures ParseInt(FormatInt(i)) == Success(i)
  {
    if i < 0 {
      ParseNegative(i);
    } else if i < 10 {
      DigitsValueOfDigits(i);
    } else {
      ParseUnpadded(i);
    }
  }

  /** `int(f"{i:02d}") == i` for every integer. */
  lemma ParseFormatInt02(i: int)
    ensures ParseInt(FormatInt02(i)).Success?
    ensures ParseInt(FormatInt02(i)).value == i
  {
    if i < 0 {
      ParseNegative(i);
    } else if i < 10 {
      ParseZeroPadded(i);
    } else {
      ParseUnpadded(i);
    }
  }

  lemma ParseNegative(i: int)
    requires i < 0
    ensures ParseInt(FormatInt02(i)).Success? && ParseInt(FormatInt02(i)).value == i
  {
    var d := Digits(-i);
    var s := "-" + d;
    assert FormatInt(i) == s && |s| >= 2;
    assert FormatInt02(i) == s;
    assert s[0] == '-' && s[1..] == d;
    DigitsValueOfDigits(-i);
    assert DigitsValue(s[1..]) == Success(-i);
  }

  lemma ParseZeroPadded(i: int)
    requires 0 <= i < 10
    ensures ParseInt(FormatInt02(i)).Success? && ParseInt(FormatInt02(i)).value == i
  {
    var s := FormatInt02(i);
    assert s == "0" + Digits(i);
    assert s[0] != '-' && s[0] != '+';
    DigitsValueZeroPadded(i);
  }

  lemma ParseUnpadded(i: int)
    requires i >= 10
    ensures ParseInt(FormatInt02(i)).Success? && ParseInt(FormatInt02(i)).value == i
  {
    var s := FormatInt02(i);
    assert s == Digits(i);
    assert IsDigit(s[0]);
    DigitsValueOfDigits(i);
  }

  /** `f"{name}{octave}"`: the note label of the segmenter and the offline
      analysis. */
  function SegmentLabel(n: Note): string
  {
    n.name + FormatInt(n.octave)
  }

  /** No character of a note name is a digit or a minus sign. */
  lemma NoteNameChars(name: string)
    requires name in NoteNames
    ensures forall k :: 0 <= k < |name| ==> !IsDigit(name[k]) && name[k] != '-'
  {
  }

  /** Two notes of the table get the same `f"{name}{octave}"` label exactly
      when they are the same note, so the segmenter's string comparison of
      labels is a comparison of notes. */
  lemma SegmentLabelInjective(a: Note, b: Note)
    requires a.name in NoteNames && b.name in NoteNames
    ensures SegmentLabel(a) == SegmentLabel(b) <==> a == b
  {
    if SegmentLabel(a) == SegmentLabel(b) {
      var s := SegmentLabel(a);
      var fa, fb := FormatInt(a.octave), FormatInt(b.octave);
      FormatIntShape(a.octave);
      FormatIntShape(b.octave);
      assert s[|a.name|] == fa[0] && s[|b.name|] == fb[0];
      NoteNameChars(a.name);
      NoteNameChars(b.name);
      assert forall k :: 0 <= k < |a.name| ==> s[k] == a.name[k];
      assert forall k :: 0 <= k < |b.name| ==> s[k] == b.name[k];
      assert |a.name| == |b.name|;
      assert a.name == b.name;
      assert s[|a.name|..] == FormatInt(a.octave) == FormatInt(b.octave);
      ParseFormatInt(a.octave);
      ParseFormatInt(b.octave);
    }
  }

  /** `f"{name}{octave:02d}"`: the note label of the live tuner; the name is
      followed by at least two characters. */
  function ShownLabel(n: Note): string
  {
    n.name + FormatInt02(n.octave)
  }

  /** A string of at most two characters that `int` accepts lies in -9..99. */
  lemma ParseShortBound(t: string)
    requires |t| <= 2 && ParseInt(t).Success?
    ensures -9 <= ParseInt(t).value <= 99
  {
    if |t| == 2 && IsDigit(t[0]) {
      assert t[..1] == [t[0]];
      assert DigitsValue(t[..1]).value <= 9;
      assert DigitsValue(t).value == DigitsValue(t[..1]).value * 10 + (t[1] as int - '0' as int);
    }
  }

  /** `(s[:-2], int(s[-2:]))`; Python slices a string shorter than two
      characters to `""` and the whole string. The name is what precedes the
      last two characters, so the octave read back lies in -9..99; a suffix
      `int` rejects raises ValueError. */
  function SplitShownLabel(s: string): (r: Result<Note, Error>)
    ensures r.Failure? ==> r.error == BadIntLiteral
    ensures r.Success? ==> |r.value.name| <= |s| <= |r.value.name| + 2 && s[..|r.value.name|] == r.value.name
    ensures r.Success? ==> -9 <= r.value.octave <= 99
  {
    var cut := if |s| >= 2 then |s| - 2 else 0;
    match ParseInt(s[cut..])
    case Success(octave) => ParseShortBound(s[cut..]); Success(Note(s[..cut], octave))
    case Failure(e) => Failure(e)
  }

  /** The MIDI number of the centre of the note a live label names, as
      `note_to_hz(s[:-2], int(s[-2:]))` needs it; either step can raise
      ValueError. */
  function ShownLabelMidi(s: string): (r: Result<int, Error>)
    ensures r.Success? <==> SplitShownLabel(s).Success? && SplitShownLabel(s).value.name in NoteNames
    ensures r.Failure? ==> r.error == BadIntLiteral || r.error == NotInList
    ensures r.Success? ==> -96 <= r.value <= 1211
  {
    match SplitShownLabel(s)
    case Success(n) => NoteToMidi(n)
    case Failure(e) => Failure(e)
  }

  lemma NoteNamesEndInNoDigit(name: string)
    requires name in NoteNames
    ensures |name| > 0 && !IsDigit(name[|name| - 1]) && name[|name| - 1] != '-'
  {
  }

  lemma ShownLabelInRange(n: Note)
    requires -9 <= n.octave <= 99
    ensures SplitShownLabel(ShownLabel(n)) == Success(n)
  {
    var s := ShownLabel(n);
    var o := FormatInt02(n.octave);
    assert s[|s| - 2..] == o && s[..|s| - 2] == n.name;
    ParseFormatInt02(n.octave);
  }

  /** Outside octaves -9 to 99 the name part of a live label ends in a digit
      or a minus sign, so it is not a note name. */
  lemma ShownLabelOutOfRange(n: Note)
    requires !(-9 <= n.octave <= 99)
    ensures SplitShownLabel(ShownLabel(n)).Success? ==> SplitShownLabel(ShownLabel(n)).value.name !in NoteNames
  {
    var o := FormatInt02(n.octave);
    WideOctave(n.octave);
    var s := n.name + o;
    var prefix := s[..|s| - 2];
    assert prefix[|prefix| - 1] == o[|o| - 3];
    if prefix in NoteNames {
      NoteNamesEndInNoDigit(prefix);
      assert false;
    }
  }

  /** An octave outside -9..99 takes more than two characters, and the one
      before the last two is a digit or the minus sign. */
  lemma WideOctave(i: int)
    requires !(-9 <= i <= 99)
    ensures var o := FormatInt02(i);
            |o| > 2 && (o[|o| - 3] == '-' || IsDigit(o[|o| - 3]))
  {
    var o := FormatInt(i);
    FormatIntShape(i);
    assert FormatInt02(i) == o;
    if i < 0 && |o| > 3 {
      assert o[|o| - 3] == o[1..][|o| - 4];
    }
  }

  /** A live label parses back to its note exactly when the octave takes two
      characters, that is for octaves -9 to 99; outside that range the split
      leaves part of the octave in the name and `NOTE_NAMES.index` fails. */
  lemma ShownLabelRoundTrip(n: Note)
    requires n.name in NoteNames
    ensures -9 <= n.octave <= 99 ==> SplitShownLabel(ShownLabel(n)) == Success(n)
    ensures ShownLabelMidi(ShownLabel(n)).Success? <==> -9 <= n.octave <= 99
    ensures ShownLabelMidi(ShownLabel(n)).Success? ==> ShownLabelMidi(ShownLabel(n)) == NoteToMidi(n)
  {
    if -9 <= n.octave <= 99 {
      ShownLabelInRange(n);
    } else {
      ShownLabelOutOfRange(n);
    }
  }
}
