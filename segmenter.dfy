/** The four-state debounce machine of the voice-activity splitter
    (NULL, PRE_V, VOICE, PRE_N). It groups classified frames into utterance
    segments. The source keeps its buffers in module-level variables that
    survive from one call to the next; here they are the fields of a
    `Session` object. */
module Segmenter {
  import opened Frames

  /** PRE_V turns into VOICE once the kept run is longer than this. */
  const VoiceInterval: nat := 22
  /** PRE_N emits once the counted silence is longer than this. */
  const SilenceInterval: nat := 33

  /** Voiced frames in a row that confirm an onset (the 23rd one does it). */
  const OnsetFrames: nat := VoiceInterval + 1
  /** Silent frames in a row that close a segment: the one that leaves VOICE
      is kept but not counted, then SilenceInterval + 1 counted ones. */
  const OffsetFrames: nat := SilenceInterval + 2
  /** Shortest segment the machine can emit. */
  const MinSegmentFrames: nat := OnsetFrames + OffsetFrames

  /** The status is a closed enumeration: the source's fall-back branch for
      an unknown status string cannot be reached. */
  datatype Status = Null | PreV | Voice | PreN

  /** The machine's whole state: the status (a local of the driving loop) and
      the three accumulators. */
  datatype Config = Config(status: Status, keep: seq<Frame>, silence: seq<Frame>,
                           voiceFrames: seq<seq<Frame>>)

  /** One step of the machine, for one classified frame. */
  function Transition(c: Config, isSpeech: bool, frame: Frame): (r: Config)
    ensures |r.voiceFrames| >= |c.voiceFrames| && r.voiceFrames[..|c.voiceFrames|] == c.voiceFrames
    ensures r.voiceFrames != c.voiceFrames <==>
              c.status == PreN && !isSpeech && |c.silence| >= SilenceInterval
    ensures r.voiceFrames != c.voiceFrames ==>
              r == Config(Null, [], c.silence + [frame], c.voiceFrames + [c.keep + [frame]])
  {
    match c.status
    case Null =>
      if isSpeech then c.(status := PreV, keep := [frame]) else c
    case PreV =>
      if isSpeech then
        var keep := c.keep + [frame];
        c.(status := if |keep| > VoiceInterval then Voice else PreV, keep := keep)
      else
        c.(status := Null, keep := [])
    case Voice =>
      if isSpeech then c.(keep := c.keep + [frame])
      else c.(status := PreN, keep := c.keep + [frame], silence := [])
    case PreN =>
      if isSpeech then
        c.(status := Voice, keep := c.keep + [frame])
      else
        var silence, keep := c.silence + [frame], c.keep + [frame];
        if |silence| > SilenceInterval then Config(Null, [], silence, c.voiceFrames + [keep])
        else c.(keep := keep, silence := silence)
  }

  /** The machine run over the first n frames and their classifications,
      in order, from configuration c. */
  function Run(c: Config, speech: seq<bool>, frames: seq<Frame>, n: nat): (r: Config)
    requires |speech| == |frames| && n <= |frames|
    ensures |r.voiceFrames| >= |c.voiceFrames| && r.voiceFrames[..|c.voiceFrames|] == c.voiceFrames
  {
    if n == 0 then c
    else
      var mid := Run(c, speech, frames, n - 1);
      var r := Transition(mid, speech[n - 1], frames[n - 1]);
      assert r.voiceFrames[..|mid.voiceFrames|][..|c.voiceFrames|] == r.voiceFrames[..|c.voiceFrames|];
      r
  }

  // ---------------------------------------------------------------------
  // The shape of what the machine keeps and emits, stated over positions
  // in the frame sequence.

  ghost predicate AllVoiced(speech: seq<bool>, a: int, b: int)
  {
    forall k | a <= k < b :: 0 <= k < |speech| && speech[k]
  }

  ghost predicate AllSilent(speech: seq<bool>, a: int, b: int)
  {
    forall k | a <= k < b :: 0 <= k < |speech| && !speech[k]
  }

  /** Frame s starts a run: it is the first frame or follows a silent one. */
  ghost predicate RunStart(speech: seq<bool>, s: int)
  {
    s == 0 || (0 < s <= |speech| && !speech[s - 1])
  }

  /** An emitted segment: a window frames[s..e] of the input that opens with
      a full onset run of voiced frames (starting a run) and closes with a
      full offset run of silent frames. */
  ghost predicate IsSegment(seg: seq<Frame>, speech: seq<bool>, frames: seq<Frame>)
  {
    && |seg| >= MinSegmentFrames
    && IsWindow(seg, frames)
    && RunStart(speech, Start(seg))
    && AllVoiced(speech, Start(seg), Start(seg) + OnsetFrames)
    && AllSilent(speech, End(seg) - OffsetFrames, End(seg))
  }

  /** What each status implies about the accumulators after i frames. */
  ghost predicate StatusInv(c: Config, speech: seq<bool>, frames: seq<Frame>, i: nat)
  {
    match c.status
    case Null =>
      RunStart(speech, i)
    case PreV =>
      && 1 <= |c.keep| <= VoiceInterval
      && EndsAt(c.keep, frames, i)
      && RunStart(speech, i - |c.keep|)
      && AllVoiced(speech, i - |c.keep|, i)
    case Voice =>
      && |c.keep| >= OnsetFrames
      && EndsAt(c.keep, frames, i)
      && RunStart(speech, i - |c.keep|)
      && AllVoiced(speech, i - |c.keep|, i - |c.keep| + OnsetFrames)
    case PreN =>
      && |c.silence| <= SilenceInterval
      && |c.keep| >= OnsetFrames + |c.silence| + 1
      && EndsAt(c.keep, frames, i)
      && EndsAt(c.silence, frames, i)
      && RunStart(speech, i - |c.keep|)
      && AllVoiced(speech, i - |c.keep|, i - |c.keep| + OnsetFrames)
      && AllSilent(speech, i - |c.silence| - 1, i)
  }

  /** Where the pending run starts; nothing emitted may reach past it. */
  function Cursor(c: Config, i: nat): int
  {
    if c.status == Null then i else i - |c.keep|
  }

  /** The invariant of a call that started in NULL with n0 segments already
      emitted by earlier calls, after i frames. */
  ghost predicate Inv(c: Config, speech: seq<bool>, frames: seq<Frame>, i: nat, n0: nat)
  {
    && |speech| == |frames|
    && i <= |frames|
    && n0 <= |c.voiceFrames|
    && StatusInv(c, speech, frames, i)
    && (forall j | n0 <= j < |c.voiceFrames| ::
          IsSegment(c.voiceFrames[j], speech, frames) && End(c.voiceFrames[j]) <= Cursor(c, i))
    && (forall j1, j2 | n0 <= j1 < j2 < |c.voiceFrames| ::
          |c.voiceFrames[j1]| > 0 && |c.voiceFrames[j2]| > 0 &&
          End(c.voiceFrames[j1]) <= Start(c.voiceFrames[j2]))
  }

  /** A step that emits nothing keeps the invariant once the new status is
      right and the pending run does not start earlier. */
  lemma QuietStepInv(c: Config, r: Config, speech: seq<bool>, frames: seq<Frame>, i: nat, n0: nat)
    requires Inv(c, speech, frames, i, n0) && i < |frames|
    requires r.voiceFrames == c.voiceFrames && Cursor(c, i) <= Cursor(r, i + 1)
    requires StatusInv(r, speech, frames, i + 1)
    ensures Inv(r, speech, frames, i + 1, n0)
  {
  }

  /** Emitting a segment that lies between the pending run's start and the
      new cursor keeps the invariant once the new status is right. */
  lemma AppendInv(c: Config, r: Config, seg: seq<Frame>, speech: seq<bool>, frames: seq<Frame>, i: nat, n0: nat)
    requires Inv(c, speech, frames, i, n0) && i < |frames|
    requires r.voiceFrames == c.voiceFrames + [seg] && IsSegment(seg, speech, frames)
    requires Cursor(c, i) <= Start(seg) && End(seg) <= Cursor(r, i + 1)
    requires StatusInv(r, speech, frames, i + 1)
    ensures Inv(r, speech, frames, i + 1, n0)
  {
    forall j | n0 <= j < |r.voiceFrames|
      ensures IsSegment(r.voiceFrames[j], speech, frames) && End(r.voiceFrames[j]) <= Cursor(r, i + 1)
    {
      if j < |c.voiceFrames| {
        assert r.voiceFrames[j] == c.voiceFrames[j];
      }
    }
    forall j1, j2 | n0 <= j1 < j2 < |r.voiceFrames|
      ensures |r.voiceFrames[j1]| > 0 && |r.voiceFrames[j2]| > 0 &&
              End(r.voiceFrames[j1]) <= Start(r.voiceFrames[j2])
    {
      assert r.voiceFrames[j1] == c.voiceFrames[j1];
      if j2 < |c.voiceFrames| {
        assert r.voiceFrames[j2] == c.voiceFrames[j2];
      }
    }
  }

  lemma EmitStepInv(c: Config, speech: seq<bool>, frames: seq<Frame>, i: nat, n0: nat)
    requires Inv(c, speech, frames, i, n0) && i < |frames| && Indexed(frames)
    requires c.status == PreN && !speech[i] && |c.silence| == SilenceInterval
    ensures Inv(Config(Null, [], c.silence + [frames[i]], c.voiceFrames + [c.keep + [frames[i]]]),
                speech, frames, i + 1, n0)
  {
    var r := Config(Null, [], c.silence + [frames[i]], c.voiceFrames + [c.keep + [frames[i]]]);
    var seg := c.keep + [frames[i]];
    assert seg == frames[i - |c.keep| .. i + 1];
    assert seg[0] == frames[i - |c.keep|];
    assert Start(seg) == i - |c.keep| && End(seg) == i + 1;
    assert IsSegment(seg, speech, frames);
    assert StatusInv(r, speech, frames, i + 1);
    AppendInv(c, r, seg, speech, frames, i, n0);
  }

  lemma NullStepInv(c: Config, speech: seq<bool>, frames: seq<Frame>, i: nat, n0: nat)
    requires Inv(c, speech, frames, i, n0) && i < |frames| && c.status == Null
    ensures Inv(Transition(c, speech[i], frames[i]), speech, frames, i + 1, n0)
  {
    var r := Transition(c, speech[i], frames[i]);
    if speech[i] {
      assert r.keep == frames[i .. i + 1];
    }
    QuietStepInv(c, r, speech, frames, i, n0);
  }

  lemma PreVStepInv(c: Config, speech: seq<bool>, frames: seq<Frame>, i: nat, n0: nat)
    requires Inv(c, speech, frames, i, n0) && i < |frames| && c.status == PreV
    ensures Inv(Transition(c, speech[i], frames[i]), speech, frames, i + 1, n0)
  {
    var r := Transition(c, speech[i], frames[i]);
    if speech[i] {
      assert r.keep == frames[i - |c.keep| .. i + 1];
    }
    QuietStepInv(c, r, speech, frames, i, n0);
  }

  lemma VoiceStepInv(c: Config, speech: seq<bool>, frames: seq<Frame>, i: nat, n0: nat)
    requires Inv(c, speech, frames, i, n0) && i < |frames| && c.status == Voice
    ensures Inv(Transition(c, speech[i], frames[i]), speech, frames, i + 1, n0)
  {
    var r := Transition(c, speech[i], frames[i]);
    assert r.keep == frames[i - |c.keep| .. i + 1];
    var s := i - |c.keep|;
    assert i + 1 - |r.keep| == s && |r.keep| >= OnsetFrames + 1;
    assert EndsAt(r.keep, frames, i + 1) && RunStart(speech, s) && AllVoiced(speech, s, s + OnsetFrames);
    if !speech[i] {
      assert r.status == PreN && r.silence == [];
      assert EndsAt(r.silence, frames, i + 1);
      assert AllSilent(speech, i, i + 1);
    }
    assert StatusInv(r, speech, frames, i + 1);
    QuietStepInv(c, r, speech, frames, i, n0);
  }

  /** Speech in PRE_N resumes VOICE. */
  lemma PreNResumeInv(c: Config, speech: seq<bool>, frames: seq<Frame>, i: nat, n0: nat)
    requires Inv(c, speech, frames, i, n0) && i < |frames| && c.status == PreN && speech[i]
    ensures Inv(Transition(c, speech[i], frames[i]), speech, frames, i + 1, n0)
  {
    var r := Transition(c, speech[i], frames[i]);
    assert r == c.(status := Voice, keep := c.keep + [frames[i]]);
    PreNResumeStatus(c, speech, frames, i);
    QuietStepInv(c, r, speech, frames, i, n0);
  }

  /** A voiced frame in PreN resumes the voiced run it interrupted. */
  lemma PreNResumeStatus(c: Config, speech: seq<bool>, frames: seq<Frame>, i: nat)
    requires |speech| == |frames| && i < |frames| && StatusInv(c, speech, frames, i)
    requires c.status == PreN && speech[i]
    ensures StatusInv(c.(status := Voice, keep := c.keep + [frames[i]]), speech, frames, i + 1)
  {
    EndsAtSnoc(c.keep, frames, i);
  }

  lemma PreNCountInv(c: Config, speech: seq<bool>, frames: seq<Frame>, i: nat, n0: nat)
    requires Inv(c, speech, frames, i, n0) && i < |frames| && c.status == PreN && !speech[i]
    requires |c.silence| < SilenceInterval
    ensures Inv(Transition(c, speech[i], frames[i]), speech, frames, i + 1, n0)
  {
    var r := Transition(c, speech[i], frames[i]);
    assert r == c.(keep := c.keep + [frames[i]], silence := c.silence + [frames[i]]);
    PreNCountStatus(c, speech, frames, i);
    QuietStepInv(c, r, speech, frames, i, n0);
  }

  /** A silent frame in PreN, short of the offset, extends both the run and
      the silence that ends it. */
  lemma PreNCountStatus(c: Config, speech: seq<bool>, frames: seq<Frame>, i: nat)
    requires |speech| == |frames| && i < |frames| && StatusInv(c, speech, frames, i)
    requires c.status == PreN && !speech[i] && |c.silence| < SilenceInterval
    ensures StatusInv(c.(keep := c.keep + [frames[i]], silence := c.silence + [frames[i]]),
                      speech, frames, i + 1)
  {
    EndsAtSnoc(c.keep, frames, i);
    EndsAtSnoc(c.silence, frames, i);
  }

  lemma PreNStepInv(c: Config, speech: seq<bool>, frames: seq<Frame>, i: nat, n0: nat)
    requires Inv(c, speech, frames, i, n0) && i < |frames| && c.status == PreN && Indexed(frames)
    ensures Inv(Transition(c, speech[i], frames[i]), speech, frames, i + 1, n0)
  {
    if speech[i] {
      PreNResumeInv(c, speech, frames, i, n0);
    } else if |c.silence| == SilenceInterval {
      EmitStepInv(c, speech, frames, i, n0);
    } else {
      PreNCountInv(c, speech, frames, i, n0);
    }
  }

  lemma TransitionInv(c: Config, r: Config, speech: seq<bool>, frames: seq<Frame>, i: nat, n0: nat)
    requires Inv(c, speech, frames, i, n0) && i < |frames| && Indexed(frames)
    requires r == Transition(c, speech[i], frames[i])
    ensures Inv(r, speech, frames, i + 1, n0)
  {
    match c.status
    case Null => NullStepInv(c, speech, frames, i, n0);
    case PreV => PreVStepInv(c, speech, frames, i, n0);
    case Voice => VoiceStepInv(c, speech, frames, i, n0);
    case PreN => PreNStepInv(c, speech, frames, i, n0);
  }

  /** The invariant holds after every prefix of a call's input. */
  lemma RunInv(c: Config, speech: seq<bool>, frames: seq<Frame>, i: nat)
    requires c.status == Null && Indexed(frames) && |speech| == |frames| && i <= |frames|
    ensures Inv(Run(c, speech, frames, i), speech, frames, i, |c.voiceFrames|)
  {
    for n := 0 to i
      invariant Inv(Run(c, speech, frames, n), speech, frames, n, |c.voiceFrames|)
    {
      TransitionInv(Run(c, speech, frames, n), Run(c, speech, frames, n + 1),
                    speech, frames, n, |c.voiceFrames|);
    }
  }

  // ---------------------------------------------------------------------
  // Properties of one call of the driving loop.

  /** A call only appends to the emitted list; every segment it appends is a
      window frames[s..e] of its own input that opens with 23 voiced frames
      starting a run and closes with 35 silent frames, so it is at least 58
      frames long; the segments come in input order and do not overlap; and a
      run still pending when the frames run out is not emitted: it is the
      tail of the input, after every emitted segment. */
  lemma CallSegments(c: Config, speech: seq<bool>, frames: seq<Frame>)
    requires c.status == Null && Indexed(frames) && |speech| == |frames|
    ensures var r := Run(c, speech, frames, |frames|);
      && r.voiceFrames[..|c.voiceFrames|] == c.voiceFrames
      && (forall j | |c.voiceFrames| <= j < |r.voiceFrames| ::
            IsSegment(r.voiceFrames[j], speech, frames))
      && (forall j1, j2 | |c.voiceFrames| <= j1 < j2 < |r.voiceFrames| ::
            |r.voiceFrames[j1]| > 0 && |r.voiceFrames[j2]| > 0 &&
            End(r.voiceFrames[j1]) <= Start(r.voiceFrames[j2]))
      && (r.status != Null ==>
            EndsAt(r.keep, frames, |frames|) && r.keep != [] &&
            forall j | |c.voiceFrames| <= j < |r.voiceFrames| ::
              |r.voiceFrames[j]| > 0 && End(r.voiceFrames[j]) <= |frames| - |r.keep|)
  {
    RunInv(c, speech, frames, |frames|);
  }

  /** In PRE_V the kept frames are exactly the current run of voiced frames,
      1 to 22 of them. */
  lemma PreVKeepsCurrentRun(c: Config, speech: seq<bool>, frames: seq<Frame>, i: nat)
    requires c.status == Null && Indexed(frames) && |speech| == |frames| && i <= |frames|
    ensures var r := Run(c, speech, frames, i);
      r.status == PreV ==>
        && 1 <= |r.keep| <= VoiceInterval
        && EndsAt(r.keep, frames, i)
        && RunStart(speech, i - |r.keep|)
        && AllVoiced(speech, i - |r.keep|, i)
  {
    RunInv(c, speech, frames, i);
  }

  /** From NULL or PRE_V, frame i confirms the onset exactly when it is the
      23rd voiced frame of a run. */
  lemma OnsetOnTwentyThirdVoicedFrame(c: Config, speech: seq<bool>, frames: seq<Frame>, i: nat)
    requires c.status == Null && Indexed(frames) && |speech| == |frames| && i < |frames|
    requires Run(c, speech, frames, i).status in {Null, PreV}
    ensures Run(c, speech, frames, i + 1).status == Voice <==>
              i + 1 >= OnsetFrames && AllVoiced(speech, i + 1 - OnsetFrames, i + 1)
              && RunStart(speech, i + 1 - OnsetFrames)
  {
    var b := Run(c, speech, frames, i);
    RunInv(c, speech, frames, i);
    var s := i + 1 - OnsetFrames;
    if i + 1 >= OnsetFrames && AllVoiced(speech, s, i + 1) && RunStart(speech, s) {
      assert speech[i - 1];
      assert b.status == PreV;
    }
  }

  /** A segment is emitted at frame i exactly when the machine is in PRE_N
      with 33 counted silent frames and frame i is silent: the 35th silent
      frame in a row after VOICE. The whole kept run, trailing silence
      included, is emitted; keep is emptied, the status returns to NULL and
      the silence buffer is not cleared. */
  lemma EmitOnThirtyFifthSilentFrame(c: Config, speech: seq<bool>, frames: seq<Frame>, i: nat)
    requires c.status == Null && Indexed(frames) && |speech| == |frames| && i < |frames|
    ensures var b, a := Run(c, speech, frames, i), Run(c, speech, frames, i + 1);
      && (|a.voiceFrames| > |b.voiceFrames| <==>
            b.status == PreN && !speech[i] && |b.silence| == SilenceInterval)
      && (|a.voiceFrames| > |b.voiceFrames| ==>
            && a.voiceFrames == b.voiceFrames + [b.keep + [frames[i]]]
            && a.status == Null && a.keep == []
            && a.silence == b.silence + [frames[i]]
            && AllSilent(speech, i + 1 - OffsetFrames, i + 1))
  {
    RunInv(c, speech, frames, i);
  }

  // ---------------------------------------------------------------------
  // The imperative machine.

  /** The segmenter's accumulators (module globals in the source). */
  class Session {
    var keep: seq<Frame>
    var silence: seq<Frame>
    var voiceFrames: seq<seq<Frame>>

    /** The state when the module is loaded. */
    constructor ()
      ensures keep == [] && silence == [] && voiceFrames == []
    {
      keep, silence, voiceFrames := [], [], [];
    }

    function State(status: Status): Config
      reads this
    {
      Config(status, keep, silence, voiceFrames)
    }

    method NullStatus(isSpeech: bool, frame: Frame) returns (next: Status)
      modifies this
      ensures isSpeech ==> next == PreV && keep == [frame]
      ensures !isSpeech ==> next == Null && keep == old(keep)
      ensures silence == old(silence) && voiceFrames == old(voiceFrames)
    {
      if !isSpeech {
        return Null;
      }
      keep := [];
      keep := keep + [frame];
      return PreV;
    }

    method VoiceStatus(isSpeech: bool, frame: Frame) returns (next: Status)
      modifies this
      ensures keep == old(keep) + [frame] && voiceFrames == old(voiceFrames)
      ensures isSpeech ==> next == Voice && silence == old(silence)
      ensures !isSpeech ==> next == PreN && silence == []
    {
      if isSpeech {
        keep := keep + [frame];
        return Voice;
      }
      keep := keep + [frame];
      silence := [];
      return PreN;
    }

    method PreNStatus(isSpeech: bool, frame: Frame) returns (next: Status)
      modifies this
      ensures isSpeech ==>
        next == Voice && keep == old(keep) + [frame] &&
        silence == old(silence) && voiceFrames == old(voiceFrames)
      ensures !isSpeech ==> silence == old(silence) + [frame]
      ensures !isSpeech && |silence| > SilenceInterval ==>
        next == Null && keep == [] && voiceFrames == old(voiceFrames) + [old(keep) + [frame]]
      ensures !isSpeech && |silence| <= SilenceInterval ==>
        next == PreN && keep == old(keep) + [frame] && voiceFrames == old(voiceFrames)
    {
      if !isSpeech {
        silence := silence + [frame];
        keep := keep + [frame];
        if |silence| > SilenceInterval {
          voiceFrames := voiceFrames + [keep];
          keep := [];
          return Null;
        }
        return PreN;
      }
      keep := keep + [frame];
      return Voice;
    }

    method PreVStatus(isSpeech: bool, frame: Frame) returns (next: Status)
      modifies this
      ensures silence == old(silence) && voiceFrames == old(voiceFrames)
      ensures isSpeech ==> keep == old(keep) + [frame] &&
                           next == (if |keep| > VoiceInterval then Voice else PreV)
      ensures !isSpeech ==> keep == [] && next == Null
    {
      if isSpeech {
        keep := keep + [frame];
        if |keep| > VoiceInterval {
          return Voice;
        }
        return PreV;
      }
      keep := [];
      return Null;
    }

    /** Feeds every frame, with its classification, through the machine,
        starting from NULL; the accumulators carry over from earlier calls. */
    method VadDding(speech: seq<bool>, frames: seq<Frame>)
      requires |speech| == |frames|
      modifies this
      ensures var r := Run(Config(Null, old(keep), old(silence), old(voiceFrames)), speech, frames, |frames|);
        keep == r.keep && silence == r.silence && voiceFrames == r.voiceFrames
    {
      ghost var c0 := State(Null);
      var status := Null;
      for i := 0 to |frames|
        invariant State(status) == Run(c0, speech, frames, i)
      {
        var isSpeech, frame := speech[i], frames[i];
        match status
        case Null => status := NullStatus(isSpeech, frame);
        case Voice => status := VoiceStatus(isSpeech, frame);
        case PreV => status := PreVStatus(isSpeech, frame);
        case PreN => status := PreNStatus(isSpeech, frame);
      }
    }
  }
}
