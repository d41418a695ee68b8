/** The padded sliding-window collector of the voice-activity splitter: a
    bounded ring buffer of recent (frame, is-speech) pairs and a
    TRIGGERED / NOTTRIGGERED flag decide which runs of frames are yielded. */
module Collector {
  import opened Frames

  /** A ring-buffer entry: a frame and its classification. */
  datatype Entry = Entry(frame: Frame, isSpeech: bool)

  /** Appending to a deque with a maximum length: once full, the oldest entry
      falls out; with maximum length 0 nothing is kept. */
  function PushBounded(ring: seq<Entry>, x: Entry, maxlen: nat): (r: seq<Entry>)
    requires |ring| <= maxlen
    ensures |r| == if |ring| < maxlen then |ring| + 1 else maxlen
  {
    if |ring| < maxlen then ring + [x]
    else if maxlen == 0 then []
    else ring[1..] + [x]
  }

  /** The classifications of the ring's entries, oldest first. */
  function Tags(ring: seq<Entry>): (r: seq<bool>)
    ensures |r| == |ring| && forall k :: 0 <= k < |ring| ==> r[k] == ring[k].isSpeech
  {
    seq(|ring|, k requires 0 <= k < |ring| => ring[k].isSpeech)
  }

  /** How many entries of the ring have classification b:
      `len([f for f, speech in ring_buffer if speech == b])`. */
  function CountSpeech(ring: seq<Entry>, b: bool): (n: nat)
    ensures n <= |ring|
  {
    if ring == [] then 0
    else CountSpeech(ring[..|ring| - 1], b) + (if ring[|ring| - 1].isSpeech == b then 1 else 0)
  }

  /** The count is the multiplicity of b among the ring's classifications. */
  lemma {:induction false} CountSpeechTags(ring: seq<Entry>, b: bool)
    ensures CountSpeech(ring, b) == multiset(Tags(ring))[b]
  {
    if ring != [] {
      var init := ring[..|ring| - 1];
      CountSpeechTags(init, b);
      assert Tags(ring) == Tags(init) + [ring[|ring| - 1].isSpeech];
    }
  }

  /** Every entry is counted once: voiced and unvoiced counts add up to the
      ring's size. */
  lemma {:induction false} CountSpeechComplement(ring: seq<Entry>)
    ensures CountSpeech(ring, true) + CountSpeech(ring, false) == |ring|
  {
    if ring != [] {
      CountSpeechComplement(ring[..|ring| - 1]);
    }
  }

  /** The source's test `count > 0.9 * maxlen`, in integers. */
  predicate OverNinetyPercent(count: nat, maxlen: nat)
  {
    10 * count > 9 * maxlen
  }

  function FramesOf(ring: seq<Entry>): (r: seq<Frame>)
    ensures |r| == |ring| && forall k :: 0 <= k < |ring| ==> r[k] == ring[k].frame
  {
    if ring == [] then [] else FramesOf(ring[..|ring| - 1]) + [ring[|ring| - 1].frame]
  }

  /** The collector's local state: the ring buffer, the flag, the frames
      collected since triggering and the segments yielded so far. */
  datatype CState = CState(ring: seq<Entry>, triggered: bool, voiced: seq<Frame>,
                           out: seq<seq<Frame>>)

  const Initial := CState([], false, [], [])

  /** One frame through the collector. */
  function CStep(st: CState, maxlen: nat, frame: Frame, isSpeech: bool): (r: CState)
    requires |st.ring| <= maxlen
    ensures |r.ring| <= maxlen
  {
    var ring := PushBounded(st.ring, Entry(frame, isSpeech), maxlen);
    if !st.triggered then
      if OverNinetyPercent(CountSpeech(ring, true), maxlen) then
        CState([], true, st.voiced + FramesOf(ring), st.out)
      else
        st.(ring := ring)
    else
      var voiced := st.voiced + [frame];
      if OverNinetyPercent(CountSpeech(ring, false), maxlen) then
        CState([], false, [], st.out + [voiced])
      else
        CState(ring, true, voiced, st.out)
  }

  /** The flag flips exactly when more than 90% of the updated window has
      the classification that ends the current state (voiced while waiting,
      unvoiced while triggered); every flip empties the ring, and a segment
      is yielded exactly on a flip back to NOTTRIGGERED. */
  lemma TriggerRule(st: CState, maxlen: nat, frame: Frame, isSpeech: bool)
    requires |st.ring| <= maxlen
    ensures var r := CStep(st, maxlen, frame, isSpeech);
      var ring := PushBounded(st.ring, Entry(frame, isSpeech), maxlen);
      && (r.triggered != st.triggered <==> OverNinetyPercent(CountSpeech(ring, !st.triggered), maxlen))
      && (r.triggered != st.triggered ==> r.ring == [])
      && (r.triggered == st.triggered ==> r.ring == ring)
      && (|r.out| > |st.out| <==> st.triggered && !r.triggered)
      && r.out[..|st.out|] == st.out && |r.out| <= |st.out| + 1
  {
    var r := CStep(st, maxlen, frame, isSpeech);
    assert r.out[..|st.out|] == st.out;
  }

  /** The collector run over the first n frames. */
  function CRun(maxlen: nat, speech: seq<bool>, frames: seq<Frame>, n: nat): (r: CState)
    requires |speech| == |frames| && n <= |frames|
    ensures |r.ring| <= maxlen
  {
    if n == 0 then Initial
    else CStep(CRun(maxlen, speech, frames, n - 1), maxlen, frames[n - 1], speech[n - 1])
  }

  /** Everything the collector yields, the pending frames last. */
  function Collect(maxlen: nat, speech: seq<bool>, frames: seq<Frame>): seq<seq<Frame>>
    requires |speech| == |frames|
  {
    var st := CRun(maxlen, speech, frames, |frames|);
    if st.voiced != [] then st.out + [st.voiced] else st.out
  }

  // ---------------------------------------------------------------------
  // The shape of what is yielded.

  /** The ring holds the (frame, classification) pairs just before position i. */
  ghost predicate RingEndsAt(ring: seq<Entry>, speech: seq<bool>, frames: seq<Frame>, i: nat)
  {
    && |speech| == |frames| && |ring| <= i <= |frames|
    && forall k :: 0 <= k < |ring| ==> ring[k] == Entry(frames[i - |ring| + k], speech[i - |ring| + k])
  }

  /** Where the frames not yet yielded start. */
  function Pending(st: CState, i: nat): int
  {
    if st.triggered then i - |st.voiced| else i - |st.ring|
  }

  ghost predicate CInv(st: CState, speech: seq<bool>, frames: seq<Frame>, i: nat)
  {
    && RingEndsAt(st.ring, speech, frames, i)
    && (st.triggered <==> st.voiced != [])
    && (st.triggered ==> EndsAt(st.voiced, frames, i))
    && (forall j | 0 <= j < |st.out| ::
          IsWindow(st.out[j], frames) && End(st.out[j]) <= Pending(st, i))
    && (forall j1, j2 | 0 <= j1 < j2 < |st.out| ::
          |st.out[j1]| > 0 && |st.out[j2]| > 0 && End(st.out[j1]) <= Start(st.out[j2]))
  }

  lemma PushEndsAt(ring: seq<Entry>, speech: seq<bool>, frames: seq<Frame>, i: nat, maxlen: nat)
    requires RingEndsAt(ring, speech, frames, i) && i < |frames| && |ring| <= maxlen
    ensures RingEndsAt(PushBounded(ring, Entry(frames[i], speech[i]), maxlen), speech, frames, i + 1)
  {
    var full := SnocEndsAt(ring, speech, frames, i);
    if |ring| < maxlen {
      assert PushBounded(ring, Entry(frames[i], speech[i]), maxlen) == full;
    } else if maxlen == 0 {
      assert PushBounded(ring, Entry(frames[i], speech[i]), maxlen) == [];
    } else {
      assert PushBounded(ring, Entry(frames[i], speech[i]), maxlen) == full[1..];
      DropFirstEndsAt(full, speech, frames, i + 1);
    }
  }

  /** Appending entry i to a ring that ends at i gives one that ends at i + 1. */
  lemma SnocEndsAt(ring: seq<Entry>, speech: seq<bool>, frames: seq<Frame>, i: nat)
    returns (full: seq<Entry>)
    requires RingEndsAt(ring, speech, frames, i) && i < |frames|
    ensures full == ring + [Entry(frames[i], speech[i])]
    ensures RingEndsAt(full, speech, frames, i + 1)
  {
    full := ring + [Entry(frames[i], speech[i])];
    forall k | 0 <= k < |full|
      ensures full[k] == Entry(frames[i + 1 - |full| + k], speech[i + 1 - |full| + k])
    {
      if k < |ring| {
        assert full[k] == ring[k];
      }
    }
  }

  /** Dropping the oldest entry keeps the ring ending at the same place. */
  lemma DropFirstEndsAt(ring: seq<Entry>, speech: seq<bool>, frames: seq<Frame>, i: nat)
    requires RingEndsAt(ring, speech, frames, i) && ring != []
    ensures RingEndsAt(ring[1..], speech, frames, i)
  {
    var r := ring[1..];
    forall k | 0 <= k < |r|
      ensures r[k] == Entry(frames[i - |r| + k], speech[i - |r| + k])
    {
      assert r[k] == ring[k + 1];
    }
  }

  lemma FramesOfEndsAt(ring: seq<Entry>, speech: seq<bool>, frames: seq<Frame>, i: nat)
    requires RingEndsAt(ring, speech, frames, i)
    ensures EndsAt(FramesOf(ring), frames, i)
  {
    var f := FramesOf(ring);
    forall k | 0 <= k < |ring| ensures f[k] == frames[i - |ring| .. i][k] {
    }
  }

  /** A step that yields nothing keeps the invariant when the pending frames
      do not start earlier. */
  lemma QuietCStepInv(st: CState, r: CState, speech: seq<bool>, frames: seq<Frame>, i: nat)
    requires CInv(st, speech, frames, i) && i < |frames|
    requires r.out == st.out && Pending(st, i) <= Pending(r, i + 1)
    requires RingEndsAt(r.ring, speech, frames, i + 1)
    requires (r.triggered <==> r.voiced != []) && (r.triggered ==> EndsAt(r.voiced, frames, i + 1))
    ensures CInv(r, speech, frames, i + 1)
  {
  }

  lemma YieldCStepInv(st: CState, speech: seq<bool>, frames: seq<Frame>, i: nat)
    requires CInv(st, speech, frames, i) && i < |frames| && Indexed(frames) && st.triggered
    ensures CInv(CState([], false, [], st.out + [st.voiced + [frames[i]]]), speech, frames, i + 1)
  {
    var seg := st.voiced + [frames[i]];
    var r := CState([], false, [], st.out + [seg]);
    assert seg == frames[i - |st.voiced| .. i + 1];
    assert seg[0] == frames[i - |st.voiced|];
    assert Start(seg) == i - |st.voiced| && End(seg) == i + 1;
    forall j | 0 <= j < |r.out|
      ensures IsWindow(r.out[j], frames) && End(r.out[j]) <= Pending(r, i + 1)
    {
      if j < |st.out| {
        assert r.out[j] == st.out[j];
      }
    }
    forall j1, j2 | 0 <= j1 < j2 < |r.out|
      ensures |r.out[j1]| > 0 && |r.out[j2]| > 0 && End(r.out[j1]) <= Start(r.out[j2])
    {
      assert r.out[j1] == st.out[j1];
      if j2 < |st.out| {
        assert r.out[j2] == st.out[j2];
      }
    }
  }

  lemma TriggerStepInv(st: CState, ring: seq<Entry>, speech: seq<bool>, frames: seq<Frame>, i: nat)
    requires CInv(st, speech, frames, i) && i < |frames| && !st.triggered
    requires RingEndsAt(ring, speech, frames, i + 1) && 0 < |ring| <= |st.ring| + 1
    ensures CInv(CState([], true, FramesOf(ring), st.out), speech, frames, i + 1)
  {
    var r := CState([], true, FramesOf(ring), st.out);
    FramesOfEndsAt(ring, speech, frames, i + 1);
    assert |r.voiced| == |ring|;
    assert Pending(st, i) <= Pending(r, i + 1);
    QuietCStepInv(st, r, speech, frames, i);
  }

  lemma IdleCStepInv(st: CState, maxlen: nat, speech: seq<bool>, frames: seq<Frame>, i: nat)
    requires CInv(st, speech, frames, i) && i < |frames| && |st.ring| <= maxlen && !st.triggered
    ensures CInv(CStep(st, maxlen, frames[i], speech[i]), speech, frames, i + 1)
  {
    var ring := PushBounded(st.ring, Entry(frames[i], speech[i]), maxlen);
    PushEndsAt(st.ring, speech, frames, i, maxlen);
    if OverNinetyPercent(CountSpeech(ring, true), maxlen) {
      assert st.voiced + FramesOf(ring) == FramesOf(ring);
      TriggerStepInv(st, ring, speech, frames, i);
    } else {
      QuietCStepInv(st, st.(ring := ring), speech, frames, i);
    }
  }

  lemma TriggeredCStepInv(st: CState, maxlen: nat, speech: seq<bool>, frames: seq<Frame>, i: nat)
    requires CInv(st, speech, frames, i) && i < |frames| && |st.ring| <= maxlen && st.triggered
    requires Indexed(frames)
    ensures CInv(CStep(st, maxlen, frames[i], speech[i]), speech, frames, i + 1)
  {
    var ring := PushBounded(st.ring, Entry(frames[i], speech[i]), maxlen);
    if OverNinetyPercent(CountSpeech(ring, false), maxlen) {
      YieldCStepInv(st, speech, frames, i);
    } else {
      var r := CState(ring, true, st.voiced + [frames[i]], st.out);
      assert r == CStep(st, maxlen, frames[i], speech[i]);
      PushEndsAt(st.ring, speech, frames, i, maxlen);
      EndsAtSnoc(st.voiced, frames, i);
      QuietCStepInv(st, r, speech, frames, i);
    }
  }

  lemma CStepInv(st: CState, r: CState, maxlen: nat, speech: seq<bool>, frames: seq<Frame>, i: nat)
    requires CInv(st, speech, frames, i) && i < |frames| && Indexed(frames) && |st.ring| <= maxlen
    requires r == CStep(st, maxlen, frames[i], speech[i])
    ensures CInv(r, speech, frames, i + 1)
  {
    if st.triggered {
      TriggeredCStepInv(st, maxlen, speech, frames, i);
    } else {
      IdleCStepInv(st, maxlen, speech, frames, i);
    }
  }

  /** The invariant holds after every prefix of the input. */
  lemma CRunInv(maxlen: nat, speech: seq<bool>, frames: seq<Frame>, i: nat)
    requires Indexed(frames) && |speech| == |frames| && i <= |frames|
    ensures CInv(CRun(maxlen, speech, frames, i), speech, frames, i)
  {
    InitialInv(speech, frames);
    for n := 0 to i
      invariant CInv(CRun(maxlen, speech, frames, n), speech, frames, n)
    {
      CStepInv(CRun(maxlen, speech, frames, n), CRun(maxlen, speech, frames, n + 1),
               maxlen, speech, frames, n);
    }
  }

  /** Before the first frame nothing is buffered and nothing yielded. */
  lemma InitialInv(speech: seq<bool>, frames: seq<Frame>)
    requires |speech| == |frames|
    ensures CInv(Initial, speech, frames, 0)
  {
  }

  /** Appending the pending run to the yielded ones keeps them in order. */
  lemma FlushPending(st: CState, frames: seq<Frame>)
    requires Indexed(frames) && st.voiced != [] && EndsAt(st.voiced, frames, |frames|)
    requires forall j | 0 <= j < |st.out| ::
               IsWindow(st.out[j], frames) && End(st.out[j]) <= |frames| - |st.voiced|
    requires forall j1, j2 | 0 <= j1 < j2 < |st.out| ::
               |st.out[j1]| > 0 && |st.out[j2]| > 0 && End(st.out[j1]) <= Start(st.out[j2])
    ensures var segs := st.out + [st.voiced];
      && (forall j | 0 <= j < |segs| :: IsWindow(segs[j], frames))
      && (forall j1, j2 | 0 <= j1 < j2 < |segs| ::
            |segs[j1]| > 0 && |segs[j2]| > 0 && End(segs[j1]) <= Start(segs[j2]))
      && End(segs[|segs| - 1]) == |frames|
  {
    var segs := st.out + [st.voiced];
    assert st.voiced[0] == frames[|frames| - |st.voiced|];
    forall j | 0 <= j < |segs| ensures IsWindow(segs[j], frames)
    {
      if j < |st.out| {
        assert segs[j] == st.out[j];
      }
    }
    forall j1, j2 | 0 <= j1 < j2 < |segs|
      ensures |segs[j1]| > 0 && |segs[j2]| > 0 && End(segs[j1]) <= Start(segs[j2])
    {
      assert segs[j1] == st.out[j1];
      if j2 < |st.out| {
        assert segs[j2] == st.out[j2];
      }
    }
  }

  /** Every yielded segment is a non-empty run of consecutive input frames;
      the segments come in input order and do not overlap; frames still
      collected when the input ends are yielded as a last segment that
      reaches the end of the input. */
  lemma CollectSegments(maxlen: nat, speech: seq<bool>, frames: seq<Frame>)
    requires Indexed(frames) && |speech| == |frames|
    ensures var segs := Collect(maxlen, speech, frames);
      && (forall j | 0 <= j < |segs| :: IsWindow(segs[j], frames))
      && (forall j1, j2 | 0 <= j1 < j2 < |segs| ::
            |segs[j1]| > 0 && |segs[j2]| > 0 && End(segs[j1]) <= Start(segs[j2]))
      && (CRun(maxlen, speech, frames, |frames|).triggered ==>
            |segs| > 0 && |segs[|segs| - 1]| > 0 && End(segs[|segs| - 1]) == |frames|)
  {
    CRunInv(maxlen, speech, frames, |frames|);
    var st := CRun(maxlen, speech, frames, |frames|);
    if st.triggered {
      FlushPending(st, frames);
    }
  }

  /** With a window of zero frames (padding shorter than one frame) the
      collector never triggers and yields nothing. */
  lemma {:induction false} ZeroWindowYieldsNothing(speech: seq<bool>, frames: seq<Frame>, n: nat)
    requires |speech| == |frames| && n <= |frames|
    ensures CRun(0, speech, frames, n) == Initial
    ensures n == |frames| ==> Collect(0, speech, frames) == []
  {
    if n > 0 {
      ZeroWindowYieldsNothing(speech, frames, n - 1);
    }
  }

  /** The imperative collector: the ring buffer, the flag and the collected
      frames are updated frame by frame; each yielded segment is the
      concatenated bytes of its frames. */
  method VadCollector(frameDurationMs: nat, paddingDurationMs: nat,
                      speech: seq<bool>, frames: seq<Frame>)
    returns (segments: seq<seq<byte>>)
    requires frameDurationMs > 0 && |speech| == |frames|
    ensures var segs := Collect(paddingDurationMs / frameDurationMs, speech, frames);
      |segments| == |segs| && forall k :: 0 <= k < |segs| ==> segments[k] == Join(segs[k])
  {
    var maxlen := paddingDurationMs / frameDurationMs;
    var ring: seq<Entry> := [];
    var triggered := false;
    var voiced: seq<Frame> := [];
    segments := [];
    ghost var out: seq<seq<Frame>> := [];
    for i := 0 to |frames|
      invariant CState(ring, triggered, voiced, out) == CRun(maxlen, speech, frames, i)
      invariant |segments| == |out| && forall k :: 0 <= k < |out| ==> segments[k] == Join(out[k])
    {
      ghost var before := CState(ring, triggered, voiced, out);
      var frame, isSpeech := frames[i], speech[i];
      if !triggered {
        ring := PushBounded(ring, Entry(frame, isSpeech), maxlen);
        var numVoiced := CountSpeech(ring, true);
        if 10 * numVoiced > 9 * maxlen {
          triggered := true;
          voiced := voiced + FramesOf(ring);
          ring := [];
        }
      } else {
        voiced := voiced + [frame];
        ring := PushBounded(ring, Entry(frame, isSpeech), maxlen);
        var numUnvoiced := CountSpeech(ring, false);
        if 10 * numUnvoiced > 9 * maxlen {
          triggered := false;
          segments := segments + [Join(voiced)];
          out := out + [voiced];
          ring := [];
          voiced := [];
        }
      }
      assert CState(ring, triggered, voiced, out) == CStep(before, maxlen, frame, isSpeech);
    }
    if voiced != [] {
      segments := segments + [Join(voiced)];
    }
  }
}
