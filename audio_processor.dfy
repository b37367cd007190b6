/**
  The tone detector: a bounded window of incoming samples, the decision
  logic run on the newest block (amplitude threshold, note lookup within a
  tolerance, debounce of repeated notes) and the silence check that ends a
  transmission. Messages that the detector queues for the interface are an
  appended sequence; the audio thread and the polling loop are modelled as
  interleaved calls of `AudioCallback` and `SilenceCheck`.
 */
module ToneDetector {

  const SampleRate: int := 44100
  const FramesPerBuffer: int := 1024
  /** `int(SAMPLE_RATE * NUM_SECONDS)` with `NUM_SECONDS = 0.1`: the window length. */
  const MaxBuffer: int := 4410
  const AmplitudeThreshold: real := 0.005
  const SilenceTimeout: real := 1.5
  const Tolerance: real := 15.0

  /** The note table, in the order the lookup scans it. */
  function NoteFrequencies(): seq<(string, real)>
  {
    [("1", 2000.00), ("2", 2050.00), ("3", 2100.00), ("4", 2150.01),
     ("5", 2200.00), ("6", 2250.00), ("7", 2300.00)]
  }

  /** What the detector reports to the interface. */
  datatype Message =
    | FrequencyDetected(frequency: real, amplitude: real)
    | NoteDetected(note: string)
    | EndOfTransmission

  function Abs(x: real): real
  {
    if x < 0.0 then -x else x
  }

  /** `frequency` lies within the tolerance of `target` (bounds included). */
  predicate Near(frequency: real, target: real)
  {
    Abs(frequency - target) <= Tolerance
  }

  /** The largest absolute sample value of a non-empty block (`np.max(np.abs(...))`). */
  function MaxAbs(block: seq<real>): real
    requires block != []
    decreases |block|
  {
    if |block| == 1 then Abs(block[0])
    else
      var rest := MaxAbs(block[1..]);
      if Abs(block[0]) > rest then Abs(block[0]) else rest
  }

  /** The amplitude bounds every sample's magnitude and is the magnitude of some sample. */
  lemma {:induction false} MaxAbsMeaning(block: seq<real>)
    requires block != []
    ensures forall i :: 0 <= i < |block| ==> Abs(block[i]) <= MaxAbs(block)
    ensures exists i :: 0 <= i < |block| && Abs(block[i]) == MaxAbs(block)
    decreases |block|
  {
    if |block| > 1 {
      var rest := block[1..];
      MaxAbsMeaning(rest);
      assert forall i :: 1 <= i < |block| ==> block[i] == rest[i - 1];
      var j :| 0 <= j < |rest| && Abs(rest[j]) == MaxAbs(rest);
      if Abs(block[0]) > MaxAbs(rest) {
        assert Abs(block[0]) == MaxAbs(block);
      } else {
        assert Abs(block[j + 1]) == MaxAbs(block);
      }
    } else {
      assert Abs(block[0]) == MaxAbs(block);
    }
  }

  /** The frequency of bin `k` of a real FFT over `n` samples (`rfftfreq`). */
  function PeakFrequency(k: nat, n: nat): real
    requires n > 0
  {
    (k as real) * (SampleRate as real) / (n as real)
  }

  /** The first note of `table` whose frequency is near `frequency`, or "" for none. */
  function FirstMatch(table: seq<(string, real)>, frequency: real): string
  {
    if table == [] then ""
    else if Near(frequency, table[0].1) then table[0].0
    else FirstMatch(table[1..], frequency)
  }

  /** The note the lookup reports for a peak frequency, or "" when none is near. */
  function MatchNote(frequency: real): string
  {
    FirstMatch(NoteFrequencies(), frequency)
  }

  /**
    The match is the first entry, in table order, whose frequency is near;
    there is no match exactly when no entry is near.
   */
  lemma {:induction false} FirstMatchMeaning(table: seq<(string, real)>, frequency: real)
    requires forall i :: 0 <= i < |table| ==> table[i].0 != ""
    ensures FirstMatch(table, frequency) == "" <==> forall i :: 0 <= i < |table| ==> !Near(frequency, table[i].1)
    ensures FirstMatch(table, frequency) != "" ==>
      exists i :: 0 <= i < |table| && table[i].0 == FirstMatch(table, frequency) && Near(frequency, table[i].1)
        && forall j :: 0 <= j < i ==> !Near(frequency, table[j].1)
  {
    if table != [] && !Near(frequency, table[0].1) {
      var rest := table[1..];
      assert forall i :: 1 <= i < |table| ==> table[i] == rest[i - 1];
      FirstMatchMeaning(rest, frequency);
      if FirstMatch(rest, frequency) != "" {
        var i :| 0 <= i < |rest| && rest[i].0 == FirstMatch(rest, frequency) && Near(frequency, rest[i].1)
          && forall j :: 0 <= j < i ==> !Near(frequency, rest[j].1);
        assert table[i + 1] == rest[i];
        assert forall j :: 1 <= j < i + 1 ==> table[j] == rest[j - 1];
      }
    }
  }

  /** Two table frequencies are more than twice the tolerance apart, so at most one note is near any frequency. */
  lemma AtMostOneNear(frequency: real)
    ensures forall i, j :: 0 <= i < j < |NoteFrequencies()| ==>
      !(Near(frequency, NoteFrequencies()[i].1) && Near(frequency, NoteFrequencies()[j].1))
  {
    var t := NoteFrequencies();
    forall i, j | 0 <= i < j < |t|
      ensures !(Near(frequency, t[i].1) && Near(frequency, t[j].1))
    {
      assert t[j].1 - t[i].1 > 2.0 * Tolerance;
    }
  }

  /**
    Over 1024 samples, only bins 49 to 52 fall within the tolerance of a
    note, and they give notes 3 to 6; every other bin matches nothing.
   */
  lemma BinNotes(k: nat)
    ensures MatchNote(PeakFrequency(k, FramesPerBuffer)) ==
      if k == 49 then "3" else if k == 50 then "4" else if k == 51 then "5" else if k == 52 then "6" else ""
  {
    var f := PeakFrequency(k, FramesPerBuffer);
    assert f == (k as real) * 44100.0 / 1024.0;
    var t := NoteFrequencies();
    if k <= 46 {
      assert f < 1985.0;
      NoneNear(f);
    } else if k == 47 {
      assert 2015.0 < f < 2035.0;
      NoneNear(f);
    } else if k == 48 {
      assert 2065.0 < f < 2085.0;
      NoneNear(f);
    } else if k == 53 {
      assert 2265.0 < f < 2285.0;
      NoneNear(f);
    } else if k >= 54 {
      assert f > 2315.0;
      NoneNear(f);
    } else {
      assert 2110.0 < f < 2240.0;
      var i := k - 47;
      assert Near(f, t[i].1);
      assert forall j :: 0 <= j < i ==> !Near(f, t[j].1);
      FirstMatchAt(t, f, i);
    }
  }

  /** The entry at `i` is the first near one, so it is the match. */
  lemma {:induction false} FirstMatchAt(table: seq<(string, real)>, frequency: real, i: nat)
    requires i < |table| && Near(frequency, table[i].1)
    requires forall j :: 0 <= j < i ==> !Near(frequency, table[j].1)
    ensures FirstMatch(table, frequency) == table[i].0
    decreases i
  {
    if i > 0 {
      var rest := table[1..];
      assert forall j :: 0 <= j < i - 1 ==> rest[j] == table[j + 1];
      FirstMatchAt(rest, frequency, i - 1);
    }
  }

  /** A frequency outside every tolerance band matches no note. */
  lemma NoneNear(f: real)
    requires f < 1985.0 || 2015.0 < f < 2035.0 || 2065.0 < f < 2085.0 || 2115.0 < f < 2135.0
      || 2165.01 < f < 2185.0 || 2215.0 < f < 2235.0 || 2265.0 < f < 2285.0 || 2315.0 < f
    ensures MatchNote(f) == ""
  {
    var t := NoteFrequencies();
    assert forall i :: 0 <= i < |t| ==> !Near(f, t[i].1);
    FirstMatchMeaning(t, f);
  }

  /** Notes 1, 2 and 7 are never reported for a block of 1024 samples. */
  lemma UnreachableNotes(k: nat)
    ensures MatchNote(PeakFrequency(k, FramesPerBuffer)) !in {"1", "2", "7"}
  {
    BinNotes(k);
  }

  /** The detector's decision state: `last_detected_note`, `last_signal_time`, `silence_detected`. */
  datatype Detector = Detector(lastNote: string, lastSignal: real, silenced: bool)

  /**
    What `process_audio` does with a block of the given amplitude and peak
    frequency at time `now`: the new state and the messages queued.
   */
  function Block(d: Detector, amplitude: real, frequency: real, now: real): (Detector, seq<Message>)
  {
    var loud := amplitude > AmplitudeThreshold;
    var note := MatchNote(frequency);
    var timed := if loud then d.(lastSignal := now, silenced := false) else d;
    var report := [FrequencyDetected(frequency, amplitude)];
    if !loud then (timed.(lastNote := ""), report)
    else if note != "" && note != d.lastNote then (timed.(lastNote := note), report + [NoteDetected(note)])
    else (timed, report)
  }

  /** What one pass of the silence check does at time `now`. */
  function Poll(d: Detector, now: real): (Detector, seq<Message>)
  {
    if now - d.lastSignal > SilenceTimeout && !d.silenced && d.lastNote != "" then
      (d.(silenced := true, lastNote := ""), [EndOfTransmission])
    else (d, [])
  }

  /** Every block queues exactly one frequency report, first, and at most one note after it. */
  lemma BlockReportsFirst(d: Detector, amplitude: real, frequency: real, now: real)
    ensures var msgs := Block(d, amplitude, frequency, now).1;
      1 <= |msgs| <= 2 && msgs[0] == FrequencyDetected(frequency, amplitude)
      && forall i :: 1 <= i < |msgs| ==> msgs[i].NoteDetected?
  {
  }

  /**
    A note is queued exactly when the block is loud and its match is a note
    other than the last detected one, which then becomes the last detected note.
   */
  lemma BlockDebounce(d: Detector, amplitude: real, frequency: real, now: real, note: string)
    ensures NoteDetected(note) in Block(d, amplitude, frequency, now).1 <==>
      amplitude > AmplitudeThreshold && note == MatchNote(frequency) && note != "" && note != d.lastNote
    ensures NoteDetected(note) in Block(d, amplitude, frequency, now).1 ==>
      Block(d, amplitude, frequency, now).0.lastNote == note
  {
  }

  /** Two loud blocks in a row with the same match queue the note once. */
  lemma RepeatedNoteOnce(d: Detector, a1: real, f1: real, t1: real, a2: real, f2: real, t2: real)
    requires a1 > AmplitudeThreshold && a2 > AmplitudeThreshold
    requires MatchNote(f1) == MatchNote(f2) != ""
    ensures var (d1, m1) := Block(d, a1, f1, t1);
      var (d2, m2) := Block(d1, a2, f2, t2);
      NoNote(m2) && d2.lastNote == MatchNote(f1)
  {
  }

  /** A loud block that matches no note leaves the last detected note as it was. */
  lemma NoMatchKeepsNote(d: Detector, amplitude: real, frequency: real, now: real)
    requires amplitude > AmplitudeThreshold && MatchNote(frequency) == ""
    ensures Block(d, amplitude, frequency, now).0.lastNote == d.lastNote
    ensures |Block(d, amplitude, frequency, now).1| == 1
  {
  }

  /**
    A loud block restarts the silence clock and clears the silence flag; a
    quiet block clears the last detected note and touches neither.
   */
  lemma ThresholdEffects(d: Detector, amplitude: real, frequency: real, now: real)
    ensures var d' := Block(d, amplitude, frequency, now).0;
      if amplitude > AmplitudeThreshold then d'.lastSignal == now && !d'.silenced
      else d'.lastNote == "" && d'.lastSignal == d.lastSignal && d'.silenced == d.silenced
  {
  }

  /**
    The silence check ends a transmission exactly when the timeout has
    strictly passed, no silence was reported yet and a note is pending; it
    then records the silence and forgets the note, and otherwise changes nothing.
   */
  lemma PollMeaning(d: Detector, now: real)
    ensures var (d', msgs) := Poll(d, now);
      var fires := now - d.lastSignal > SilenceTimeout && !d.silenced && d.lastNote != "";
      (EndOfTransmission in msgs <==> fires)
      && (fires ==> msgs == [EndOfTransmission] && d'.silenced && d'.lastNote == "" && d'.lastSignal == d.lastSignal)
      && (!fires ==> msgs == [] && d' == d)
  {
  }

  /**
    A second silence check with no block in between queues nothing once the
    first has ended the transmission, so two checks end it at most once.
   */
  lemma SecondPollSilent(d: Detector, t1: real, t2: real)
    ensures Poll(d, t1).1 == [EndOfTransmission] ==> Poll(Poll(d, t1).0, t2).1 == []
    ensures |Poll(d, t1).1 + Poll(Poll(d, t1).0, t2).1| <= 1
  {
  }

  /** One step of either thread: a processed block or a pass of the silence check. */
  datatype Event =
    | Processed(amplitude: real, frequency: real, now: real)
    | Checked(now: real)

  /** One event's effect. */
  function Step(d: Detector, e: Event): (Detector, seq<Message>)
  {
    match e
    case Processed(a, f, t) => Block(d, a, f, t)
    case Checked(t) => Poll(d, t)
  }

  /** The state and queued messages after an interleaving of the two threads. */
  function Run(d: Detector, events: seq<Event>): (Detector, seq<Message>)
    decreases |events|
  {
    if events == [] then (d, [])
    else
      var (d1, m1) := Step(d, events[0]);
      var (d2, m2) := Run(d1, events[1..]);
      (d2, m1 + m2)
  }

  /** `msgs` contains no note report. */
  predicate NoNote(msgs: seq<Message>)
  {
    forall i :: 0 <= i < |msgs| ==> !msgs[i].NoteDetected?
  }

  /**
    Once no note is pending (after a quiet block or after an end of
    transmission), no interleaving of blocks and silence checks queues an
    end of transmission until a new note is queued.
   */
  lemma {:induction false} NoEndWithoutNote(d: Detector, events: seq<Event>)
    requires d.lastNote == ""
    requires NoNote(Run(d, events).1)
    ensures EndOfTransmission !in Run(d, events).1
    decreases |events|
  {
    if events != [] {
      var (d1, m1) := Step(d, events[0]);
      var (d2, m2) := Run(d1, events[1..]);
      assert Run(d, events).1 == m1 + m2;
      assert NoNote(m1) && NoNote(m2) by {
        assert forall i :: 0 <= i < |m1| ==> (m1 + m2)[i] == m1[i];
        assert forall i :: 0 <= i < |m2| ==> (m1 + m2)[|m1| + i] == m2[i];
      }
      QuietStep(d, events[0]);
      NoEndWithoutNote(d1, events[1..]);
    }
  }

  /** With no note pending, a step that queues no note queues no end of transmission and leaves none pending. */
  lemma QuietStep(d: Detector, e: Event)
    requires d.lastNote == "" && NoNote(Step(d, e).1)
    ensures EndOfTransmission !in Step(d, e).1 && Step(d, e).0.lastNote == ""
  {
    if e.Processed? {
      QuietBlock(d, e.amplitude, e.frequency, e.now);
    }
  }

  /** With no note pending, a block queues a note exactly when it is loud and matches one. */
  lemma QuietBlock(d: Detector, amplitude: real, frequency: real, now: real)
    requires d.lastNote == ""
    ensures var (d', msgs) := Block(d, amplitude, frequency, now);
      (NoNote(msgs) <==> !(amplitude > AmplitudeThreshold && MatchNote(frequency) != ""))
      && EndOfTransmission !in msgs
      && (NoNote(msgs) ==> d'.lastNote == "")
  {
    var msgs := Block(d, amplitude, frequency, now).1;
    if amplitude > AmplitudeThreshold && MatchNote(frequency) != "" {
      assert msgs[1] == NoteDetected(MatchNote(frequency));
    } else {
      assert msgs == [FrequencyDetected(frequency, amplitude)];
    }
  }

  /** A quiet block is followed by no end of transmission until a note is queued. */
  lemma QuietBlockEndsNothing(d: Detector, amplitude: real, frequency: real, now: real, events: seq<Event>)
    requires amplitude <= AmplitudeThreshold
    requires NoNote(Run(Block(d, amplitude, frequency, now).0, events).1)
    ensures EndOfTransmission !in Run(Block(d, amplitude, frequency, now).0, events).1
  {
    NoEndWithoutNote(Block(d, amplitude, frequency, now).0, events);
  }

  /** The newest `MaxBuffer` samples of `s`, in order: a bounded deque after `extend`. */
  function Window(s: seq<real>): seq<real>
  {
    if |s| <= MaxBuffer then s else s[|s| - MaxBuffer..]
  }

  /** The window is a suffix of `s` of length `min(|s|, MaxBuffer)`. */
  lemma WindowMeaning(s: seq<real>)
    ensures |Window(s)| == if |s| <= MaxBuffer then |s| else MaxBuffer
    ensures s == s[..|s| - |Window(s)|] + Window(s)
  {
  }

  /** `deque.append` under `maxlen = MaxBuffer`: a full window drops its oldest sample first. */
  function Append(w: seq<real>, x: real): seq<real>
  {
    if |w| < MaxBuffer then w + [x] else (w + [x])[1..]
  }

  /** Appending the samples of `data` one at a time. */
  function AppendAll(w: seq<real>, data: seq<real>): seq<real>
    decreases |data|
  {
    if data == [] then w else AppendAll(Append(w, data[0]), data[1..])
  }

  /** Cutting a stream to its window before appending more does not change the final window. */
  lemma WindowOfWindow(s: seq<real>, t: seq<real>)
    ensures Window(Window(s) + t) == Window(s + t)
  {
    if |s| > MaxBuffer {
      var w := s[|s| - MaxBuffer..];
      var u := w + t;
      var n := |s + t|;
      assert u == (s + t)[n - |u|..];
      assert u[|u| - MaxBuffer..] == (s + t)[n - MaxBuffer..];
    }
  }

  /** Extending a window is appending each sample in turn with eviction. */
  lemma {:induction false} AppendAllIsWindow(w: seq<real>, data: seq<real>)
    requires |w| <= MaxBuffer
    ensures AppendAll(w, data) == Window(w + data)
    decreases |data|
  {
    if data != [] {
      var w1 := Append(w, data[0]);
      assert w1 == Window(w + [data[0]]);
      AppendAllIsWindow(w1, data[1..]);
      WindowOfWindow(w + [data[0]], data[1..]);
      assert w + [data[0]] + data[1..] == w + data;
    }
  }

  class AudioProcessor {
    /** The sample window (`audio_buffer`). */
    var audioBuffer: seq<real>
    var lastDetectedNote: string
    var lastSignalTime: real
    var silenceDetected: bool
    /** Messages queued so far, oldest first. */
    var messages: seq<Message>

    /** The window never holds more than `MaxBuffer` samples. */
    predicate Valid()
      reads this
    {
      |audioBuffer| <= MaxBuffer
    }

    function State(): Detector
      reads this
    {
      Detector(lastDetectedNote, lastSignalTime, silenceDetected)
    }

    /** A detector with an empty window and no note, its silence clock started at `now`. */
    constructor(now: real)
      ensures Valid() && audioBuffer == [] && messages == []
      ensures State() == Detector("", now, false)
    {
      audioBuffer := [];
      lastDetectedNote := "";
      lastSignalTime := now;
      silenceDetected := false;
      messages := [];
    }

    /**
      `process_audio` on a block whose FFT peak (skipping the constant term)
      is bin `peakBin`: the state and queue follow `Block`.
     */
    method ProcessAudio(block: seq<real>, peakBin: nat, now: real)
      requires |block| >= 2 && 1 <= peakBin <= |block| / 2
      modifies this
      ensures var step := Block(old(State()), MaxAbs(block), PeakFrequency(peakBin, |block|), now);
        State() == step.0 && messages == old(messages) + step.1
      ensures audioBuffer == old(audioBuffer)
    {
      var amplitude := MaxAbs(block);
      if amplitude > AmplitudeThreshold {
        lastSignalTime := now;
        silenceDetected := false;
      }
      var peakFrequency := PeakFrequency(peakBin, |block|);
      messages := messages + [FrequencyDetected(peakFrequency, amplitude)];
      if amplitude > AmplitudeThreshold {
        var table := NoteFrequencies();
        var detected := "";
        var i := 0;
        while i < |table|
          invariant 0 <= i <= |table|
          invariant detected == "" ==> FirstMatch(table[i..], peakFrequency) == MatchNote(peakFrequency)
          invariant detected != "" ==> detected == MatchNote(peakFrequency)
          decreases |table| - i
        {
          if Near(peakFrequency, table[i].1) {
            detected := table[i].0;
            break;
          }
          assert table[i..][1..] == table[i + 1..];
          i := i + 1;
        }
        if detected != "" && detected != lastDetectedNote {
          lastDetectedNote := detected;
          messages := messages + [NoteDetected(detected)];
        }
      } else {
        lastDetectedNote := "";
      }
    }

    /**
      `audio_callback`: extend the window with the incoming samples and, once
      it holds at least `FramesPerBuffer` of them, process exactly the newest
      `FramesPerBuffer`, whose FFT peak is bin `peakBin`.
     */
    method AudioCallback(inData: seq<real>, peakBin: nat, now: real)
      requires Valid() && 1 <= peakBin <= FramesPerBuffer / 2
      modifies this
      ensures Valid() && audioBuffer == Window(old(audioBuffer) + inData)
      ensures audioBuffer == AppendAll(old(audioBuffer), inData)
      ensures |audioBuffer| < FramesPerBuffer ==> State() == old(State()) && messages == old(messages)
      ensures |audioBuffer| >= FramesPerBuffer ==>
        var block := audioBuffer[|audioBuffer| - FramesPerBuffer..];
        var step := Block(old(State()), MaxAbs(block), PeakFrequency(peakBin, FramesPerBuffer), now);
        State() == step.0 && messages == old(messages) + step.1
    {
      AppendAllIsWindow(audioBuffer, inData);
      audioBuffer := Window(audioBuffer + inData);
      if |audioBuffer| >= FramesPerBuffer {
        var block := audioBuffer[|audioBuffer| - FramesPerBuffer..];
        ProcessAudio(block, peakBin, now);
      }
    }

    /** One pass of the polling loop's silence check at time `now`; the state and queue follow `Poll`. */
    method SilenceCheck(now: real)
      modifies this
      ensures State() == Poll(old(State()), now).0 && messages == old(messages) + Poll(old(State()), now).1
      ensures audioBuffer == old(audioBuffer)
    {
      if now - lastSignalTime > SilenceTimeout && !silenceDetected && lastDetectedNote != "" {
        silenceDetected := true;
        messages := messages + [EndOfTransmission];
        lastDetectedNote := "";
      }
    }
  }
}
