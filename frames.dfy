/** The frame windower of the voice-activity splitter: raw 16-bit mono PCM
    bytes are cut into fixed-size, non-overlapping frames, in order. */
module Frames {

  newtype byte = x: int | 0 <= x < 256

  /** One frame of audio. The source stores a float timestamp and duration;
      here a frame carries its position in the frame sequence instead
      (its timestamp is `index * duration`). */
  datatype Frame = Frame(bytes: seq<byte>, index: nat)

  /** Sample rates that the WAV reader lets through. */
  const SupportedRates: set<nat> := {8000, 16000, 32000, 48000}

  /** Number of bytes in one frame: samples per frame times 2 bytes per sample. */
  function FrameBytes(sampleRate: nat, frameDurationMs: nat): (n: nat)
    requires sampleRate in SupportedRates
    ensures n * 500 == sampleRate * frameDurationMs
    ensures frameDurationMs > 0 ==> n > 0
  {
    sampleRate * frameDurationMs * 2 / 1000
  }

  /** Number of frames the windower yields: the loop runs while a frame
      *strictly* fits before the end of the buffer. */
  function FrameCount(n: nat, audioLength: nat): nat
    requires n > 0
  {
    if audioLength == 0 then 0 else (audioLength - 1) / n
  }

  /** frames[k] is the k-th n-byte window of audio, with index k. */
  ghost predicate Windowed(frames: seq<Frame>, audio: seq<byte>, n: nat)
  {
    forall k :: 0 <= k < |frames| ==>
      k * n + n <= |audio| && frames[k] == Frame(audio[k * n .. k * n + n], k)
  }

  /** Every frame sits at its own position in the sequence. */
  ghost predicate Indexed(frames: seq<Frame>)
  {
    forall k :: 0 <= k < |frames| ==> frames[k].index == k
  }

  /** xs is the window of frames that ends just before position i. */
  ghost predicate EndsAt(xs: seq<Frame>, frames: seq<Frame>, i: nat)
  {
    |xs| <= i <= |frames| && xs == frames[i - |xs| .. i]
  }

  /** A run ending at i, extended by frame i, ends at i + 1. */
  lemma EndsAtSnoc(xs: seq<Frame>, frames: seq<Frame>, i: nat)
    requires EndsAt(xs, frames, i) && i < |frames|
    ensures EndsAt(xs + [frames[i]], frames, i + 1)
  {
    assert frames[i - |xs| .. i + 1] == frames[i - |xs| .. i] + [frames[i]];
  }

  function Start(seg: seq<Frame>): nat
    requires seg != []
  {
    seg[0].index
  }

  function End(seg: seq<Frame>): nat
    requires seg != []
  {
    seg[0].index + |seg|
  }

  /** seg is a non-empty run of consecutive input frames, frames[Start..End]. */
  ghost predicate IsWindow(seg: seq<Frame>, frames: seq<Frame>)
  {
    seg != [] && End(seg) <= |frames| && seg == frames[Start(seg) .. End(seg)]
  }

  /** The bytes of a sequence of frames, concatenated in order. */
  function Join(frames: seq<Frame>): seq<byte>
  {
    if frames == [] then [] else Join(frames[..|frames| - 1]) + frames[|frames| - 1].bytes
  }

  lemma MulMono(x: int, y: int, n: nat)
    requires x <= y
    ensures x * n <= y * n
  {
    assert y * n - x * n == (y - x) * n;
  }

  /** Integer division is pinned down by the multiple just below. */
  lemma DivBracket(a: nat, n: nat, c: nat)
    requires n > 0 && c * n <= a < c * n + n
    ensures a / n == c
  {
    var q, r := a / n, a % n;
    assert a == q * n + r && 0 <= r < n;
    assert (q + 1) * n == q * n + n;
    assert (c + 1) * n == c * n + n;
    if q < c {
      MulMono(q + 1, c, n);
    } else if q > c {
      MulMono(c + 1, q, n);
    }
  }

  lemma DivBelow(a: nat, n: nat)
    requires n > 0
    ensures (a / n) * n <= a
  {
    assert a == (a / n) * n + a % n;
  }

  /** The next window extends a windowing. */
  lemma WindowedSnoc(frames: seq<Frame>, audio: seq<byte>, n: nat)
    requires Windowed(frames, audio, n) && |frames| * n + n <= |audio|
    ensures var c := |frames|;
      Windowed(frames + [Frame(audio[c * n .. c * n + n], c)], audio, n)
  {
    var c := |frames|;
    var next := frames + [Frame(audio[c * n .. c * n + n], c)];
    forall k | 0 <= k < |next| ensures k * n + n <= |audio| && next[k] == Frame(audio[k * n .. k * n + n], k) {
      if k < c {
        assert next[k] == frames[k];
      }
    }
  }

  /** Slices audio into frames of n bytes. The strict loop guard means that
      the last frame is dropped not only when it is partial but also when it
      ends exactly at the end of the buffer. */
  method FrameGenerator(n: nat, audio: seq<byte>) returns (frames: seq<Frame>)
    requires n > 0
    ensures |frames| == FrameCount(n, |audio|)
    ensures Windowed(frames, audio, n)
  {
    frames := [];
    var offset := 0;
    var index := 0;  // stands for the source's running timestamp
    while offset + n < |audio|
      invariant index == |frames| && offset == index * n
      invariant offset <= |audio| && (index > 0 ==> offset < |audio|)
      invariant Windowed(frames, audio, n)
      decreases |audio| - offset
    {
      WindowedSnoc(frames, audio, n);
      frames := frames + [Frame(audio[offset .. offset + n], index)];
      MulSucc(index, n);
      index := index + 1;
      offset := offset + n;
    }
    CountAtExit(|audio|, n, index);
  }

  lemma MulSucc(a: nat, n: nat)
    ensures (a + 1) * n == a * n + n
  {
  }

  /** When the windower stops after c frames, c is the frame count. */
  lemma CountAtExit(len: nat, n: nat, c: nat)
    requires n > 0 && c * n <= len && (c > 0 ==> c * n < len) && !(c * n + n < len)
    ensures c == FrameCount(n, len)
  {
    if len > 0 {
      DivBracket(len - 1, n, c);
    }
  }

  /** Every frame has exactly n bytes. */
  lemma FrameSize(frames: seq<Frame>, audio: seq<byte>, n: nat)
    requires Windowed(frames, audio, n)
    ensures forall k :: 0 <= k < |frames| ==> |frames[k].bytes| == n
  {
  }

  lemma {:induction false} JoinWindowed(frames: seq<Frame>, audio: seq<byte>, n: nat, j: nat)
    requires Windowed(frames, audio, n) && j <= |frames|
    ensures j * n <= |audio| && Join(frames[..j]) == audio[..j * n]
  {
    if j > 0 {
      JoinWindowed(frames, audio, n, j - 1);
      var p := (j - 1) * n;
      MulSucc(j - 1, n);
      assert frames[..j][..j - 1] == frames[..j - 1];
      assert frames[j - 1].bytes == audio[p .. p + n];
      PrefixSplit(audio, p, p + n);
    }
  }

  /** A prefix is a shorter prefix followed by the slice between them. */
  lemma PrefixSplit(s: seq<byte>, a: nat, b: nat)
    requires a <= b <= |s|
    ensures s[..b] == s[..a] + s[a .. b]
  {
  }

  /** The frames, glued back together, give back a strict prefix of a
      non-empty buffer: the tail that the windower never yields. */
  lemma JoinIsStrictPrefix(frames: seq<Frame>, audio: seq<byte>, n: nat)
    requires n > 0 && |audio| > 0
    requires Windowed(frames, audio, n) && |frames| == FrameCount(n, |audio|)
    ensures |frames| * n < |audio|
    ensures Join(frames) == audio[..|frames| * n]
  {
    var c, a := |frames|, |audio| - 1;
    assert c == a / n;
    DivBelow(a, n);
    assert c * n <= a;
    JoinWindowed(frames, audio, n, c);
    assert frames[..c] == frames;
  }

  /** A buffer holding exactly m whole frames yields only m - 1 of them. */
  lemma ExactMultipleLosesLastFrame(n: nat, m: nat)
    requires n > 0 && m > 0
    ensures FrameCount(n, m * n) == m - 1
  {
    assert (m - 1) * n + n == m * n;
    DivBracket(m * n - 1, n, m - 1);
  }

  /** The windower numbers its frames 0, 1, 2, ... */
  lemma WindowedIsIndexed(frames: seq<Frame>, audio: seq<byte>, n: nat)
    requires Windowed(frames, audio, n)
    ensures Indexed(frames)
  {
  }
}
