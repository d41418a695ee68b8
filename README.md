# Voice-activity splitting and corpus preparation, modelled in Dafny

The repository turns long recordings into numbered utterance clips with
transcripts, ready for training a speech-synthesis model. This project models
three of its scripts.

- `transition_engine/vad_split.py` is the voice-activity splitter. A frame
  windower cuts 16-bit mono PCM bytes into fixed-size frames
  (`frame_generator`). A four-state debounce machine groups the classified
  frames into utterance segments. Its states are NULL, PRE_V, VOICE and
  PRE_N (`_null_status`, `_pre_v_status`, `_voice_status`, `_pre_n_status`).
  `vad_dding` drives it, and it keeps its buffers `_keep`, `_silence` and
  `_voice_frames` in module globals. A second segmenter, `vad_collector`,
  uses a bounded ring buffer and a TRIGGERED flag.
- `transition_engine/merge_text.py` prepares the transcripts. It finds the
  `.txt` files of a directory (`get_text_files`). For each transcript line it
  takes the text after the first `.`, strips it, blanks its punctuation
  (`remove_punctuation`) and converts it to pinyin. It then writes a
  `audio_material/data/audio/<name>_mono_16000_<k>.wav|<pinyin>` line
  (`generate_text_file`).
- `transition_engine/train_valid.py` splits the resulting line list into
  training and validation lists (`get_train_valid`). It works in blocks of
  ten lines. From each block it draws two lines, with replacement, for
  validation. The block's other lines go to training.

Files:

- `frames.dfy` (module `Frames`): the frame windower.
- `segmenter.dfy` (module `Segmenter`): the debounce machine. `Transition`
  and `Run` are its specification. The class `Session` holds the three
  accumulators, with one method per status function and `VadDding`.
- `collector.dfy` (module `Collector`): the ring-buffer collector. `CStep`,
  `CRun` and `Collect` are its specification, and `VadCollector` is the
  imperative loop.
- `pystr.dfy` (module `PyStr`): the Python built-ins the text scripts use.
  These are `str.strip`, `str.split` with a one-character separator,
  `"".join`, `str.find`, `"%03d"`, string ordering and `list.sort`.
- `merge_text.dfy` (module `MergeText`) and `train_valid.dfy` (module
  `TrainValid`): the two text scripts.

The method `VadDding` is proved against the function `Run`. The lemmas
about `Run` then state what the segments look like:

- each is a contiguous window of the input;
- it opens with 23 voiced frames that start a run;
- it closes with 35 silent frames, so it is at least 58 frames long;
- segments come in input order and do not overlap;
- a run still open at the end of the input is never emitted.

In the same way, `VadCollector` is proved against `Collect`,
`GenerateTextFile` against `OutputLine` and `CleanText`, and
`GetTrainValid` against the block-wise `Train` and `Valid`.

Some descriptions of this splitter say more than the code does. They have
the emit step drop the last 35 frames of the kept run (the 33-frame silence
count plus two), discard short runs and clear the silence buffer. They also add a second pass that rejects
quiet segments by mean amplitude and trims their silent tails. None of this
is in `vad_split.py`. The model follows the code:

- the emit step appends the whole kept run, trailing silence included;
- the emit step empties `_keep` but leaves `_silence` as it is;
- there is no minimum length, no amplitude test and no trimming.

## Model

| member | source | states |
|---|---|---|
| Frames.FrameBytes | transition_engine/vad_split.py:58 | For a supported rate, the exact frame size in bytes is a whole number: n · 500 = rate · ms, and a positive duration gives a positive size. This is the source's value for 10, 20 and 30 ms frames; see "Left out" for the float rounding. |
| Frames.Join | transition_engine/vad_split.py:217 | `b''.join` of the frames' bytes, in order; `JoinWindowed` and `JoinIsStrictPrefix` show that the windower's frames join back to a prefix of the audio. |
| Frames.FrameGenerator | transition_engine/vad_split.py:50-65 | The loop yields exactly FrameCount(n, len) frames. Frame k is audio[k·n .. k·n+n] and carries position k, so the frames are in order, non-overlapping and back to back. |
| Frames.WindowedSnoc | transition_engine/vad_split.py:62-65 | One more iteration of the loop extends a correct windowing with the next n-byte window. |
| Frames.CountAtExit | transition_engine/vad_split.py:62 | When the strict guard `offset + n < len` fails after c frames, c is (len − 1) / n, or 0 for empty audio. |
| Frames.FrameSize | transition_engine/vad_split.py:63 | Every yielded frame holds exactly n bytes. |
| Frames.JoinWindowed | transition_engine/vad_split.py:63-65 | The first j frames, concatenated, are audio[..j·n]. |
| Frames.JoinIsStrictPrefix | transition_engine/vad_split.py:62-65 | For non-empty audio, all frames glued back together are a strict prefix of the audio. Some tail of at least one byte is never yielded. |
| Frames.ExactMultipleLosesLastFrame | transition_engine/vad_split.py:62 | A buffer of exactly m whole frames yields only m − 1 of them. |
| Frames.WindowedIsIndexed | transition_engine/vad_split.py:60-64 | Frame k carries position k. This stands in for the timestamp k · duration. |
| Segmenter.Transition | transition_engine/vad_split.py:75-130 | One status step only appends to the emitted list. It emits exactly when the status is PRE_N, the frame is silent and 33 silent frames are already counted. An emit appends the kept run plus this frame, empties keep, returns to NULL and keeps the silence buffer, with this frame added. |
| Segmenter.Run | transition_engine/vad_split.py:134-143 | Running the machine over a prefix of the frames never removes or changes an earlier emitted segment. |
| Segmenter.Session.constructor | transition_engine/vad_split.py:71-73 | The three accumulators start empty. |
| Segmenter.Session.NullStatus | transition_engine/vad_split.py:75-83 | A voiced frame starts a new kept run [frame] and goes to PRE_V. A silent frame stays in NULL. Nothing else changes. |
| Segmenter.Session.VoiceStatus | transition_engine/vad_split.py:85-95 | Either way the frame is kept. A voiced frame stays in VOICE. A silent frame goes to PRE_N with an empty silence count, so the frame that leaves VOICE is not counted. Nothing is emitted. |
| Segmenter.Session.PreNStatus | transition_engine/vad_split.py:97-116 | A voiced frame is kept and returns to VOICE without emitting. A silent frame is kept and counted. Once more than 33 are counted, the whole kept run is emitted, keep is emptied and the status is NULL. |
| Segmenter.Session.PreVStatus | transition_engine/vad_split.py:118-130 | A voiced frame is kept, and the status is VOICE once more than 22 frames are kept. A silent frame empties keep and returns to NULL without emitting. |
| Segmenter.Session.VadDding | transition_engine/vad_split.py:132-147 | After a call, the accumulators are those of Run started in NULL from the accumulators the call found. So earlier calls' segments are kept, and each call restarts in NULL. |
| Segmenter.NullStepInv | transition_engine/vad_split.py:75-83 | The NULL step keeps the segment invariant. |
| Segmenter.PreVStepInv | transition_engine/vad_split.py:118-130 | The PRE_V step keeps the segment invariant. The kept frames remain the current voiced run. |
| Segmenter.VoiceStepInv | transition_engine/vad_split.py:85-95 | The VOICE step keeps the segment invariant. The frame that leaves VOICE starts the silent run. |
| Segmenter.PreNResumeInv | transition_engine/vad_split.py:112-114 | A voiced frame in PRE_N keeps the invariant. |
| Segmenter.PreNResumeStatus | transition_engine/vad_split.py:112-114 | After a voiced frame in PRE_N, the run kept since the onset continues in VOICE. |
| Segmenter.PreNCountInv | transition_engine/vad_split.py:101-111 | A silent frame that does not reach the offset keeps the invariant. |
| Segmenter.PreNCountStatus | transition_engine/vad_split.py:101-111 | Such a frame extends both the kept run and the counted silence that ends it. |
| Segmenter.EmitStepInv | transition_engine/vad_split.py:104-108 | The emitted run is a segment of the input, it follows every earlier segment, and the invariant holds afterwards. |
| Segmenter.AppendInv | transition_engine/vad_split.py:105 | Appending a segment that lies between the pending run's start and the new cursor keeps earlier segments ordered and disjoint. |
| Segmenter.QuietStepInv | transition_engine/vad_split.py:136-143 | A step that emits nothing keeps the invariant when its new status is right. |
| Segmenter.PreNStepInv | transition_engine/vad_split.py:97-116 | Every PRE_N step keeps the invariant. |
| Segmenter.TransitionInv | transition_engine/vad_split.py:136-143 | Each dispatched step keeps the invariant. |
| Segmenter.RunInv | transition_engine/vad_split.py:134-143 | The invariant holds after every prefix of a call's input. |
| Segmenter.CallSegments | transition_engine/vad_split.py:132-147 | A call only appends. Every new segment is a window of the input that opens with 23 voiced frames starting a run and closes with 35 silent frames, so it has at least 58 frames. New segments are in input order and disjoint. A run pending at the end is the input's tail, after all emitted segments, and is not emitted. |
| Segmenter.PreVKeepsCurrentRun | transition_engine/vad_split.py:118-129 | In PRE_V, keep holds 1 to 22 frames. It is exactly the current run of consecutive voiced frames. |
| Segmenter.OnsetOnTwentyThirdVoicedFrame | transition_engine/vad_split.py:118-123 | From NULL or PRE_V, frame i enters VOICE exactly when it is the 23rd voiced frame of a run, in both directions. |
| Segmenter.EmitOnThirtyFifthSilentFrame | transition_engine/vad_split.py:101-108 | A segment is emitted at frame i exactly when the machine is in PRE_N with 33 counted silent frames and frame i is silent. The emitted segment is the kept run with frame i. Then keep is empty, the status is NULL, silence keeps frame i, and the last 35 frames are silent. |
| Collector.PushBounded | transition_engine/vad_split.py:180 | Appending to a deque with maximum length maxlen never exceeds maxlen. The oldest entry falls out when it is full, and with maxlen 0 nothing is kept. |
| Collector.CountSpeech | transition_engine/vad_split.py:192 | The number of ring entries with a given classification is at most the ring's size. |
| Collector.CountSpeechTags | transition_engine/vad_split.py:192 | The count is exactly how many of the ring's classifications equal the given one. |
| Collector.CountSpeechComplement | transition_engine/vad_split.py:192-210 | The voiced and unvoiced counts of a ring add up to its size, so each entry is counted by exactly one of the two tests. |
| Collector.OverNinetyPercent | transition_engine/vad_split.py:196 | The test `count > 0.9 * maxlen`, as 10 · count > 9 · maxlen; `TriggerRule` states where it flips the flag. |
| Collector.FramesOf | transition_engine/vad_split.py:202-203 | Copying the ring's frames keeps them in order, one per entry. |
| Collector.CStep | transition_engine/vad_split.py:186-219 | One frame through the collector keeps the ring within maxlen entries. |
| Collector.TriggerRule | transition_engine/vad_split.py:190-219 | The flag flips exactly when 10 × count > 9 × maxlen, counting voiced entries while waiting and unvoiced ones while triggered. Every flip clears the ring; otherwise the ring is the pushed ring. One segment is yielded exactly on a flip back to NOTTRIGGERED, and earlier ones are kept. |
| Collector.CRun | transition_engine/vad_split.py:186-219 | The ring never holds more than maxlen entries. |
| Collector.PushEndsAt | transition_engine/vad_split.py:191 | After a push, the ring holds the pairs of the frames just before the current position. |
| Collector.FramesOfEndsAt | transition_engine/vad_split.py:202-203 | The frames copied out of such a ring are the window of input frames just before the current position. |
| Collector.TriggerStepInv | transition_engine/vad_split.py:196-204 | Triggering starts the collected frames with the ring's frames, a window that ends at the current frame. |
| Collector.IdleCStepInv | transition_engine/vad_split.py:190-204 | A step while NOTTRIGGERED keeps the collector invariant. |
| Collector.YieldCStepInv | transition_engine/vad_split.py:214-219 | Detriggering yields the collected window after all earlier segments, and clears the ring and the collected frames. |
| Collector.TriggeredCStepInv | transition_engine/vad_split.py:205-219 | A step while TRIGGERED keeps the invariant. |
| Collector.QuietCStepInv | transition_engine/vad_split.py:186-219 | A step that yields nothing keeps the invariant when the pending start does not move back. |
| Collector.CStepInv | transition_engine/vad_split.py:186-219 | Every step keeps the invariant. |
| Collector.CRunInv | transition_engine/vad_split.py:186-219 | The invariant holds after every prefix of the input. |
| Collector.InitialInv | transition_engine/vad_split.py:180-185 | Before the first frame, nothing is buffered or yielded. |
| Collector.FlushPending | transition_engine/vad_split.py:225-226 | Yielding the leftover frames at the end adds a last window that reaches the end of the input, after every earlier segment. |
| Collector.CollectSegments | transition_engine/vad_split.py:186-226 | Every yielded segment is a non-empty run of consecutive input frames, and the segments are in input order and disjoint. If the input ends while TRIGGERED, the last segment reaches the end of the input. |
| Collector.ZeroWindowYieldsNothing | transition_engine/vad_split.py:177-196 | With a window of 0 frames the collector never triggers and yields nothing. |
| Collector.Collect | transition_engine/vad_split.py:186-226 | Everything yielded: the segments closed by detriggering, then the frames still collected at the end. `CollectSegments` proves they are non-empty, ordered, disjoint windows of the input. |
| Collector.VadCollector | transition_engine/vad_split.py:150-226 | The imperative loop yields, in order, the concatenated bytes of exactly the segments Collect describes. |
| PyStr.StripLeft | transition_engine/merge_text.py:45 | `str.lstrip()`; `StripLeftSuffix`, `StripLeftDropsSpace` and `StripLeftHead` characterise it. |
| PyStr.StripRight | transition_engine/merge_text.py:45 | `str.rstrip()`; `StripRightShape` characterises it. |
| PyStr.Strip | transition_engine/merge_text.py:45 | `str.strip()`; `StripShape` and `StripIdempotent` characterise it. |
| PyStr.StripLeftSuffix | transition_engine/merge_text.py:45 | lstrip returns a suffix of its input. |
| PyStr.StripLeftDropsSpace | transition_engine/merge_text.py:45 | What lstrip drops is whitespace. |
| PyStr.StripLeftHead | transition_engine/merge_text.py:45 | What lstrip returns does not start with whitespace. |
| PyStr.StripRightShape | transition_engine/merge_text.py:45 | rstrip returns a prefix whose cut-off tail is whitespace and whose last character is not. |
| PyStr.StripShape | transition_engine/merge_text.py:45 | strip returns a slice of its input with only whitespace cut on either side. The result neither starts nor ends with whitespace. |
| PyStr.StripIdempotent | transition_engine/train_valid.py:16 | Stripping twice is stripping once. |
| PyStr.Find | transition_engine/merge_text.py:44 | find returns the first occurrence: no separator before it, and the separator at it unless it is the end. |
| PyStr.FindAt | transition_engine/merge_text.py:44 | The first occurrence is unique: a position with no separator before it and one at it is find's result. |
| PyStr.SplitOn | transition_engine/merge_text.py:44 | split gives at least one piece, and no piece contains the separator. |
| PyStr.JoinWith | transition_engine/merge_text.py:44 | `sep.join(pieces)`; `JoinSplit` and `SplitJoin` show it inverts split. |
| PyStr.JoinSplit | transition_engine/merge_text.py:44 | Joining the split pieces with the separator gives the string back. |
| PyStr.SplitJoin | transition_engine/merge_text.py:44 | Splitting separator-free pieces joined with the separator gives the pieces back. |
| PyStr.RemoveAll | transition_engine/merge_text.py:44 | Deleting a character leaves none of it, and every other character keeps its count. |
| PyStr.RemoveAllAppend | transition_engine/merge_text.py:44 | Deletion distributes over concatenation. |
| PyStr.RemoveAllFree | transition_engine/merge_text.py:44 | Deleting an absent character changes nothing. |
| PyStr.Concat | transition_engine/merge_text.py:44 | `"".join(pieces)`; `ConcatSplit` and `AfterFirstSeparator` characterise it on split pieces. |
| PyStr.ConcatSplit | transition_engine/merge_text.py:44 | `"".join(s.split(c))` is s with every c deleted. |
| PyStr.SplitAtFirst | transition_engine/merge_text.py:44 | split's first piece is what precedes the first separator, and the rest is the split of what follows it. |
| PyStr.RemoveAtFirst | transition_engine/merge_text.py:44 | Deleting c from s is the part before the first c, then the deletion applied to what follows it. |
| PyStr.AfterFirstSeparator | transition_engine/merge_text.py:44 | `"".join(s.split(c)[1:])` is empty when c does not occur. Otherwise it is what follows the first c, with every later c deleted. |
| PyStr.LastPieceAfterSeparator | transition_engine/merge_text.py:39 | The last piece of `split("/")` is what follows the last separator. |
| PyStr.LexLe | transition_engine/merge_text.py:35 | Python's `<=` on strings; `LexRefl`, `LexTotal`, `LexTrans` and `LexAntisym` show it is a total order. |
| PyStr.LexRefl | transition_engine/merge_text.py:35 | String order is reflexive. |
| PyStr.LexTotal | transition_engine/merge_text.py:35 | String order is total. |
| PyStr.LexTrans | transition_engine/merge_text.py:35 | String order is transitive. |
| PyStr.LexAntisym | transition_engine/merge_text.py:35 | String order is antisymmetric. |
| PyStr.Insert | transition_engine/merge_text.py:35 | Inserting into a sorted list gives a sorted permutation of the list plus the new element. |
| PyStr.InsertFront | transition_engine/merge_text.py:35 | An element no greater than the head of a sorted list can go in front of it. |
| PyStr.InsertBehind | transition_engine/merge_text.py:35 | The head stays first when a larger element goes into the sorted tail. |
| PyStr.Sort | transition_engine/merge_text.py:35 | sort returns a sorted permutation of its input. |
| PyStr.SortMembers | transition_engine/merge_text.py:35 | Sorting keeps the length and exactly the same members. |
| PyStr.SortedTail | transition_engine/merge_text.py:35 | The tail of a sorted list is sorted. |
| PyStr.SortedSameHead | transition_engine/merge_text.py:35 | Two sorted arrangements of one multiset start with the same string. |
| PyStr.SortedUnique | transition_engine/merge_text.py:35 | A multiset has only one sorted arrangement. So any correct sort, Python's included, returns what Sort returns. |
| PyStr.Digits | transition_engine/merge_text.py:48 | `"%d"` gives at least one digit character, exactly one for numbers below 10, and starts with `0` only for 0: no leading zeros. |
| PyStr.Zeros | transition_engine/merge_text.py:48 | The padding is m zero characters. |
| PyStr.ParseDigits | transition_engine/merge_text.py:48 | Reading `"%d" % k` back gives k. |
| PyStr.DigitValueChar | transition_engine/merge_text.py:48 | Reading a digit character back gives its value. |
| PyStr.ParseAppend | transition_engine/merge_text.py:48 | Leading zeros do not change the number read. |
| PyStr.ParseZeros | transition_engine/merge_text.py:48 | A string of zeros reads as 0. |
| PyStr.Pad3 | transition_engine/merge_text.py:48 | `"%03d" % k`; `Pad3Shape` and `Pad3Injective` characterise it. |
| PyStr.Pad3Shape | transition_engine/merge_text.py:48 | `"%03d" % k` is all digits and at least 3 long, exactly 3 below 1000, and reads back as k. |
| PyStr.DigitsBelow | transition_engine/merge_text.py:48 | Numbers below 1000 have at most 3 digits. |
| PyStr.Pad3Injective | transition_engine/merge_text.py:48 | Distinct numbers give distinct `"%03d"` numerals. |
| MergeText.ReplaceChar | transition_engine/merge_text.py:10 | `replace` with one-character arguments maps character by character and keeps the length. |
| MergeText.RemovePunctuation | transition_engine/merge_text.py:9-23 | Each of the eleven punctuation characters becomes one space, and every other character stays in place. The length is unchanged. |
| MergeText.BlankPunctuation | transition_engine/merge_text.py:9-23 | The one-pass reference definition of punctuation blanking keeps the length. |
| MergeText.BlankPunctuationAt | transition_engine/merge_text.py:9-23 | The reference blanks each punctuation character in place and leaves the others. |
| MergeText.RemovePunctuationBlanks | transition_engine/merge_text.py:9-23 | The chain of eleven replacements equals the one-pass reference. |
| MergeText.PunctuationGone | transition_engine/merge_text.py:9-23 | No punctuation character survives. |
| MergeText.RemovePunctuationIdempotent | transition_engine/merge_text.py:9-23 | Removing punctuation twice is removing it once. |
| MergeText.IsTxtName | transition_engine/merge_text.py:32 | The test `f[-4:] == ".txt"`; `TxtNamesMembers` states which names it keeps. |
| MergeText.TxtNames | transition_engine/merge_text.py:32-33 | The filter keeps each `.txt` name as often as it occurs and drops every other name. |
| MergeText.TxtNamesMembers | transition_engine/merge_text.py:32-33 | A name is kept exactly when it is listed and ends in `.txt`. |
| MergeText.PathJoin | transition_engine/merge_text.py:34 | `os.path.join` of two POSIX components; `JoinAll` and `AudioPrefixOfTextFile` use it. |
| MergeText.JoinAll | transition_engine/merge_text.py:34 | The k-th path is the directory joined with the k-th name. |
| MergeText.JoinAllMembers | transition_engine/merge_text.py:34 | Every path comes from a name, and every name gives a path. |
| MergeText.GetTextFiles | transition_engine/merge_text.py:30-36 | The result is sorted. It holds exactly the directory joined with each listed `.txt` name, one entry per such name. |
| MergeText.CleanText | transition_engine/merge_text.py:44-46 | The text passed to pinyin conversion; `CleanTextShape` and `CleanTextHasNoPunctuation` characterise it. |
| MergeText.CleanTextShape | transition_engine/merge_text.py:44-46 | The text converted to pinyin is what follows the first `.`, with later dots deleted, whitespace stripped and punctuation blanked. A line with no `.` gives empty text. |
| MergeText.CleanTextHasNoPunctuation | transition_engine/merge_text.py:44-46 | The cleaned text has no punctuation and no `.`. |
| MergeText.DropLast4 | transition_engine/merge_text.py:39 | `[:-4]` drops the last four characters, giving the empty string for shorter names. |
| MergeText.AudioPrefix | transition_engine/merge_text.py:39 | `"%s_mono_16000" % origin.split("/")[-1][:-4]`; `AudioPrefixOfTextFile` characterises it. |
| MergeText.AudioPrefixOfTextFile | transition_engine/merge_text.py:39 | For a transcript path built by get_text_files, the clip prefix is the file name without `.txt`, followed by `_mono_16000`. |
| MergeText.OutputLine | transition_engine/merge_text.py:48 | One output line; `OutputLinesDistinct` shows distinct clip numbers give distinct lines. |
| MergeText.GenerateTextFile | transition_engine/merge_text.py:38-52 | There is one output line per input line, in order. Line k names clip k, zero-padded to 3 digits and counted from 0, and carries the pinyin of line k's cleaned text. |
| MergeText.OutputLinesDistinct | transition_engine/merge_text.py:48 | Two output lines of one transcript are equal only if they name the same clip number. |
| TrainValid.StripRange | transition_engine/train_valid.py:16-17 | The buffer of stripped lines from lo to hi holds hi − lo lines. |
| TrainValid.StripAll | transition_engine/train_valid.py:16 | There is one stripped line per input line. |
| TrainValid.StripRangeAt | transition_engine/train_valid.py:16-17 | Buffer entry t is input line lo + t, stripped. |
| TrainValid.StripRangeSlice | transition_engine/train_valid.py:16-17 | The buffer of stripped lines from lo to hi is the slice lo..hi of all stripped lines. |
| TrainValid.StripAllPrefix | transition_engine/train_valid.py:16-17 | Stripping a prefix of the lines gives that prefix of the stripped lines. |
| TrainValid.Block | transition_engine/train_valid.py:19 | A complete block has ten lines. |
| TrainValid.Chosen | transition_engine/train_valid.py:20 | `random.choices(block, k=2)` gives two entries, possibly the same one. |
| TrainValid.Without | transition_engine/train_valid.py:21 | The filter never lengthens the block. |
| TrainValid.WithoutCounts | transition_engine/train_valid.py:21 | Every line that was not drawn is kept as often as it occurs in the block, and no drawn line is kept. |
| TrainValid.WithoutAppend | transition_engine/train_valid.py:21 | The filter distributes over concatenation, so it keeps lines in block order. |
| TrainValid.WithoutSingle | transition_engine/train_valid.py:21 | A single line is kept exactly when it was not drawn. |
| TrainValid.WithoutMembers | transition_engine/train_valid.py:21 | The filter keeps exactly the block's lines that are not drawn. |
| TrainValid.Train | transition_engine/train_valid.py:21-22 | `_train` after b blocks; `TrainFromOwnBlock`, `BlockCovered` and `TailIgnored` characterise it. |
| TrainValid.Valid | transition_engine/train_valid.py:20-23 | `_valid` after b blocks; `ValidCount` and `ValidAt` characterise it. |
| TrainValid.GetTrainValid | transition_engine/train_valid.py:6-26 | The loop returns the training and validation lists of the |lines| / 10 complete blocks of stripped lines, each block split by its own draw. |
| TrainValid.ReadLine | transition_engine/train_valid.py:12-24 | Reading a line keeps the buffer at most 9 lines. At the tenth line the block is complete and has its draw. Taking the draw extends both lists with that block's share and empties the buffer. |
| TrainValid.ReadAll | transition_engine/train_valid.py:12-26 | At the end of the input, both lists hold every complete block's share, and a partial block is left in the buffer. |
| TrainValid.BlockCount | transition_engine/train_valid.py:19 | n = 10q + r with r < 10 means n holds exactly q complete blocks. |
| TrainValid.ValidCount | transition_engine/train_valid.py:23 | Each block adds exactly two validation entries. |
| TrainValid.ValidAt | transition_engine/train_valid.py:20-23 | Validation entries 2j and 2j+1 are the two draws from block j. |
| TrainValid.ValidFromOwnBlock | transition_engine/train_valid.py:20-23 | The same holds for every block at once. |
| TrainValid.TrainFromOwnBlock | transition_engine/train_valid.py:20-22 | Every training entry is a line of some block that equals neither draw from that block. |
| TrainValid.BlockCovered | transition_engine/train_valid.py:20-22 | Every line of a complete block is drawn for validation or goes to training. |
| TrainValid.TailIgnored | transition_engine/train_valid.py:19-24 | Lines after the last complete block change neither list. |
| TrainValid.BlockOfExtended | transition_engine/train_valid.py:19 | A complete block is unchanged by lines read after it. |
| TrainValid.StripRangeLocal | transition_engine/train_valid.py:16-17 | Stripping line by line looks only at the lines it strips. |
| TrainValid.IncompleteTailDropped | transition_engine/train_valid.py:19-26 | A trailing incomplete block reaches neither list. Both lists equal those of the first 10 · (|lines| / 10) lines. |
| TrainValid.BlockEntry | transition_engine/train_valid.py:19 | An entry of block j is one of input entries 10j to 10j + 9. |
| TrainValid.EntriesAreStrippedLines | transition_engine/train_valid.py:16-23 | Every entry of either list is the stripped form of an input line of a complete block. |

## Left out

- WAV input and output (`read_wave`, `write_wave`) and the three `main` functions are file and command-line plumbing. The sample-rate set {8000, 16000, 32000, 48000} that `read_wave` asserts survives as `FrameBytes`'s precondition.
- The webrtcvad classifier is a foreign library. Its answers are an input sequence of booleans, one per frame, consumed in order. Because the classifications are booleans, the `== 0` / `== 1` fall-through returns of the status functions cannot be reached.
- `vad_dding` dispatches on a status string. Here the status is a closed datatype, so the `ERROR _status` branch cannot be reached and is not modelled.
- Frame timestamps and durations are floats. A frame carries its position k instead, and its timestamp is k · duration.
- Frames.FrameBytes: the source computes `int(sample_rate * (ms / 1000.0) * 2)` in doubles, and the model computes `rate · ms · 2 / 1000` exactly on integers. The two agree at every supported rate for 10, 20 and 30 ms, the only frame durations the webrtcvad classifier accepts (the script uses 30). At 48000 Hz some other durations round down in doubles: at 9 ms the source gets 863 bytes and the model 864. The same one-byte gap occurs at 18, 36, 71, 72 and 141–145 ms, among others. The model does not capture these.
- The `0.9 * maxlen` tests in `vad_collector` are floats. They become the integer test 10 · count > 9 · maxlen. They agree because of where 9 · maxlen / 10 lies. When it is a whole number k, k is exact as a double and the rounded product cannot fall below k. Otherwise it lies at least 0.1 from every whole number, far more than the rounding error, so count compares with it the same way either way.
- `int(padding_duration_ms / frame_duration_ms)` is the integer quotient. Both durations are non-negative here.
- `Frames.FrameGenerator`: a frame size of 0 is excluded. With n = 0 and non-empty audio, the source's generator yields empty frames forever.
- `Collector.VadCollector`: a frame duration of 0 is excluded. The source raises ZeroDivisionError there.
- All `print` and `sys.stdout.write` diagnostics, including the trigger timestamps, are left out.
- Python generators (`frame_generator`, `vad_collector`) are modelled as functions that return the whole list of what they yield.
- The copy loop `for f, s in ring_buffer: voiced_frames.append(f)` is modelled as one append of the ring's frames.
- `transition_engine/vits_strings.py` and `transition_engine/vits_stringss.py` are not part of this model. They build torch models, load checkpoints, run GPU inference and scale numpy floats.
- `convert_pinyin` calls pypinyin, a foreign library. It is a function parameter `pinyin` of `GenerateTextFile`.
- `os.listdir` and the reading of transcript files are I/O. The directory listing and the file's lines are inputs, each line with its line break, as `readlines` and `readline` return them.
- `random.choices` is randomness. The draws are an input: one pair of positions in 0..9 per complete block.
- `os.path.join` is modelled for two POSIX components only.
- `list.sort()` (Timsort) is modelled as insertion sort. `PyStr.SortedUnique` shows that any correct sort gives the same list.
- Python compares strings by code point, and the model compares Dafny characters, which are Unicode scalar values. Surrogate code points cannot appear in a Dafny string.
- `str.strip()` uses the set of characters for which Python's `isspace()` holds, listed in `PyStr.Whitespace`.
- `_voice_frames` is a module global shared by every caller in one process. The model makes it a field of one `Session` object. It does not model two sessions sharing it.
