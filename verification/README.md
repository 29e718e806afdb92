# Verified model of a speech-to-text app

The repository is an Android speech-to-text app on top of whisper.cpp and CTranslate2. Under the tensor code sit
algorithms that decide what the app hears, keeps, samples, aligns and shows. This project models those algorithms in
Dafny and proves what they are for. The neural network is an oracle: any row of scores, or any choice of the next
token. Sample arithmetic is done in any commutative ring, or in real numbers; rounding of floats is not modelled.

Operations that change state in place are methods and classes here as well, and each is proved against a
specification function or a predicate; what the system promises is then proved about that specification, for every
input, every run or every interleaving.

| modules | part of the system |
|---|---|
| `Grammar`, `GrammarStacks`, `GrammarAccept`, `GrammarReject`, `PartialUtf8`, `GrammarText`, `GrammarSuppress` | whisper.cpp's grammar-constrained decoding: a nondeterministic pushdown machine over grammar stacks, the pruning of candidate tokens, the incremental UTF-8 decoder in front of them, and the penalty before and the acceptance after sampling |
| `KvCache`, `BeamReshuffle`, `DecodeWindow`, `WindowState` | the key/value cache with cells shared by several sequences, the reordering of beams, the attention mask and the life of one decode window |
| `Timestamps`, `DecoderOutcomes` | the timestamp masking rules, the update of a decoder after each token, what the decoders of a window come to, and the outer loop over windows |
| `VadDetect`, `VadSegments`, `VadCoverage`, `VadLimit`, `TimeMap`, `CopiedTimes` | voice activity detection, the passes over its segments, whether they lose speech, the cutting of speech, the map from processed to original time, and what it does to the times of copied speech |
| `Rings`, `ComplexRings`, `Fourier`, `FeatureFft`, `WhisperFft`, `ResidueFft`, `Reflection` | the two fast Fourier transforms over arbitrary commutative rings with a root of unity (with the integers modulo 401 as an instance), and reflecting reads |
| `Dtw` | the two implementations of dynamic time warping |
| `ByteTable`, `BpeMerge`, `TokenRoundTrip` | byte-level BPE encoding and the decoding of tokens |
| `UtfConverter` | conversion between UTF-8 and UTF-16 with replacement of malformed input |
| `GreedySearch`, `BeamSearch`, `LogitsProcessors` | CTranslate2's batched greedy search, its beam selection, and the suppression of repeated n-grams and banned sequences |
| `JobQueue`, `BufferedWrapper` | the bounded job queue with its workers, and the buffering wrapper, as steps that interleave |
| `Binary`, `Sequences`, `Arithmetic` | bytes, and facts about sequences and division used by the others |

Some promises turned out not to hold in general. The code is modelled as it is, with an input that shows the failure,
and the exact condition is proved:

* The code points that the grammar sees of well-formed text cut into tokens are its scalar values exactly if none of
  them is U+0000: texts are read as C strings, so a zero byte hides the rest of its token
  (`GrammarText.ScalarsExactlyIf`).
* Where a text is cut into tokens does not matter exactly if every byte fits where it stands; a byte that should
  continue a sequence is checked only at the start of a token (`PartialUtf8.CutsAgreeExactlyIf`, example in
  `PartialUtf8.SplitMatters`).
* The number of rolling context tokens is negative, and the prompt undefined, exactly if the carried prompt fills the
  budget (`DecodeWindow.RollingCountIsNegativeExactlyIf`). In the call that fills the carried prompt this takes a
  budget of one (`DecodeWindow.FirstCallFailsOnlyForBudgetOne`); in a later call, a budget that has shrunk to what
  was kept (`DecodeWindow.LaterCallFailsExactlyIf`).
* Every merge of every BPE sweep is that of the leftmost lowest-ranked pair exactly if the table is orderly, a
  condition on neighbouring entries (`BpeMerge.AlwaysBestExactlyIf`); it is if results rank after their merges. In a
  table that is not, "abab" is tokenized differently (`TokenRoundTrip.EarlyResultExample`).
* Tokens decode to the encoded text exactly if no token is taken for a special one
  (`TokenRoundTrip.RoundTripExactlyIf`, example in `TokenRoundTrip.SpecialTokenExample`).
* What the speech detector finds covers every chunk at or above the threshold, for all probabilities, exactly if no
  chunk can be speech and silence at once (a threshold from 0.01 on) or segments have no room for a pause
  (`VadCoverage.FoundCoversExactlyIf`, example in `VadCoverage.FadingIsCut`). After merging and padding it does so
  exactly in these cases or if the padding is at least a chunk and no gap of one chunk is left open
  (`VadCoverage.PaddingCoversExactlyIf`); the app's settings meet this (`VadCoverage.AppKeepsAllSpeech`).
* Rounding to centiseconds keeps segments inside the audio exactly if the audio's own length is not rounded up
  (`VadSegments.RoundingStaysExactlyIf`); with windows of 512 samples, exactly if the number of windows modulo 5 is
  below 3 (`VadSegments.WindowsOf512`).
* The buffer for the cut speech is large enough exactly if the silences of skipped segments make up for segments that
  start behind the last sample (`TimeMap.FitsExactlyIf`); the detector finds such a segment, and then the computed
  size can be negative (`TimeMap.RoundedStartMayNotFit`).
* Padding covers the samples at most that far from a segment, but not the middle one of an odd gap that it would fill
  (`VadSegments.PaddingCovers`).
* With a length limit a chunk of speech is lost exactly where a segment over the limit was cut off right before it
  (`VadLimit.LostExactlyIfCut`, example in `VadLimit.LostExample`).
* Whichever of equal processed times the sort keeps, the times of a copied segment map to the segment's own exactly if
  the segment behind the last copied one starts where it does (`CopiedTimes.CopiedTimesMapExactlyIf`); it does with
  an overlap or without empty segments (`CopiedTimes.AttachedUnlessEmpty`, example in `CopiedTimes.DetachedExample`).
* The cost table of dynamic time warping is optimal everywhere exactly if no cell has the tie c0 = c1 < c2, which the
  code resolves towards c2 (`Dtw.OptimalExactlyWithoutTies`, example in `Dtw.TieExample`).
* With two end ids the substitutes for finished beams can run out. For one list of candidates they suffice exactly if
  there are as many non-ends in its second half as ends in its first (`BeamSearch.SelectBeams`), and for every list of
  distinct candidates exactly if at most one word of the vocabulary is an end
  (`BeamSearch.SubstitutesSufficeExactlyIf`).
* When all workers have left, the job queue is empty exactly if some worker saw every job that entered
  (`JobQueue.EmptyExactlyIf`); a job that is put later stays (`JobQueue.LatePutStays`).
* The buffering loop can divide by zero exactly if the wrapper was made with a batch size of 0
  (`BufferedWrapper.DefinedExactlyIf`).

## Model

| member | source | states |
|---|---|---|
| Grammar.MatchChar | app/src/main/Whisper/src/whisper.cpp:5566-5588 | A character matches a class exactly if a listed character or range contains it (negated for a negated class), and the end position depends on the class alone, not on the character. |
| GrammarStacks.RankDecreases | app/src/main/Whisper/src/whisper.cpp:5642-5690 | Without left recursion (also through nullable rules) rules have ranks that fall along left corners; this is why expansion ends. |
| GrammarStacks.ExpandDecreases | app/src/main/Whisper/src/whisper.cpp:5642-5690 | Replacing a rule reference on top by any alternate makes the stack strictly lighter. |
| GrammarStacks.AdvanceStackInto | app/src/main/Whisper/src/whisper.cpp:5642-5693 | The recursive expansion terminates, never meets the position its assertion forbids, and appends exactly the specified stacks to the out-parameter. |
| GrammarStacks.AdvanceStackAdvanced | app/src/main/Whisper/src/whisper.cpp:5640-5693 | Every stack that comes out is empty or positioned at a character class. |
| GrammarStacks.AdvanceKeepsLanguage | app/src/main/Whisper/src/whisper.cpp:5640-5693 | A word is in the language of a stack exactly if it is in the language of one of the stacks it expands to. |
| GrammarAccept.AcceptChar | app/src/main/Whisper/src/whisper.cpp:5696-5725 | The loop over the stacks computes the specified successor stacks of a character. |
| GrammarAccept.AcceptIsDerivative | app/src/main/Whisper/src/whisper.cpp:5696-5725 | After accepting c, exactly those words w are in the language for which cw was in it before: the Brzozowski derivative, for every grammar, set of stacks and word. |
| GrammarAccept.AcceptToken | app/src/main/Whisper/src/whisper.cpp:5898-5903 | Accepting a token feeds all its code points but the terminating zero. |
| GrammarAccept.AcceptAllIsDerivative | app/src/main/Whisper/src/whisper.cpp:5898-5903 | Accepting a token is the derivative by its whole text. |
| GrammarAccept.InitGrammar | app/src/main/Whisper/src/whisper.cpp:5799-5837 | The loop over the alternates of the start rule collects the expanded stacks of each of them. |
| GrammarAccept.GrammarTracksStartRule | app/src/main/Whisper/src/whisper.cpp:5799-5837 | From initialisation on and after any accepted text u, the stacks' language holds w exactly if the start rule derives uw. |
| GrammarReject.MatchPartialChar | app/src/main/Whisper/src/whisper.cpp:5593-5638 | The test of an incomplete UTF-8 sequence against a class compares the interval of its possible completions with the listed ranges, with the code's treatment of negated classes and overlong starts. |
| GrammarReject.MatchesPartialExactlyIf | app/src/main/Whisper/src/whisper.cpp:5593-5638 | For ranges in order and values of 32 bits: a class lets an incomplete sequence through exactly if it matches some character that the sequence can become, a negated class exactly if it matches every one and there is one. |
| GrammarReject.RejectCandidatesForStack | app/src/main/Whisper/src/whisper.cpp:5737-5778 | The mutually recursive pruning terminates and keeps, with multiplicity, exactly the candidates that the stack rejects; none is lost, duplicated or left with a moved pointer. |
| GrammarReject.RejectCandidates | app/src/main/Whisper/src/whisper.cpp:5780-5797 | Folding over the stacks keeps exactly the candidates that every stack rejects; without stacks nothing is rejected. |
| GrammarReject.PruningAgrees | app/src/main/Whisper/src/whisper.cpp:5732-5797 | For a token without zero code points that ends on a code-point boundary, the pruning algorithm rejects it exactly if feeding it to the accepting algorithm leaves no stack. |
| GrammarReject.PruningIsSafe | app/src/main/Whisper/src/whisper.cpp:5732-5797 | No word of the language starts with a rejected token. |
| PartialUtf8.DecodeUtf8 | app/src/main/Whisper/src/whisper.cpp:5499-5553 | The loops of the decoder, which all stop at a zero byte, compute the specified code points and carried-over state, including the error state. |
| PartialUtf8.DecodeFeeds | app/src/main/Whisper/src/whisper.cpp:5499-5553 | On text whose visible bytes fit, decoding is running a one-byte-at-a-time machine from the carried-over state. |
| PartialUtf8.CutsAgreeExactlyIf | app/src/main/Whisper/src/whisper.cpp:5499-5553 | A text without zeros that does not start inside a sequence decodes alike wherever it is cut, in code points and carried-over state, exactly if every byte fits where it stands. |
| PartialUtf8.FeedEncoded | app/src/main/Whisper/src/whisper.cpp:5499-5553 | The machine reads the UTF-8 encoding of any scalar values as exactly those values and ends between sequences. |
| PartialUtf8.SplitMatters | app/src/main/Whisper/src/whisper.cpp:5509-5530 | An example: a byte that does not continue a sequence is accepted inside one token and refused at a token boundary. |
| GrammarText.AcceptTokenText | app/src/main/Whisper/src/whisper.cpp:5883-5905 | One token's text up to its first zero byte, decoded from the carried-over state, advances the grammar; special tokens and an empty set of stacks leave it alone. |
| GrammarText.TextsAreRead | app/src/main/Whisper/src/whisper.cpp:5883-5905 | For any token texts at all, the stacks end where accepting the code points ends that are found in the texts the grammar is shown (all but those that start with "[_"), and what is carried over is the decoder's. |
| GrammarText.ScalarsExactlyIf | app/src/main/Whisper/src/whisper.cpp:5499-5553 | What is found in well-formed UTF-8, cut anywhere, is its scalar values exactly if none of them is U+0000. |
| GrammarText.TokensAreScalars | app/src/main/Whisper/src/whisper.cpp:5883-5905 | However well-formed UTF-8 without U+0000 is cut into tokens, with special tokens that start with "[_" in between, the stacks end where accepting the scalar values one by one ends. |
| GrammarSuppress.Decoded | app/src/main/Whisper/src/whisper.cpp:5857-5866 | Every token with a nonempty text is offered for pruning exactly once, decoded from where the last token stopped. |
| GrammarSuppress.SuppressInvalidGrammar | app/src/main/Whisper/src/whisper.cpp:5839-5881 | The penalty is subtracted exactly once from exactly the tokens that every stack rejects; no other logit changes. |
| GrammarSuppress.SuppressedExactlyIf | app/src/main/Whisper/src/whisper.cpp:5839-5905 | A token without zero code points whose text does not start with "[_" and ends between sequences is penalised before sampling exactly if accepting it after sampling would leave no stack. |
| GrammarSuppress.StrayIsSuppressed | app/src/main/Whisper/src/whisper.cpp:5514-5523 | A token whose text starts with a byte that does not continue what was carried over is penalised. |
| Fourier.DecimationInTime | app/src/main/CTranslate2/whisper-feature-extractor.cpp:149-186 | In any commutative ring, a transform of factor * m points is the sum of the transforms of its interleaved parts, turned by powers of the root. |
| Fourier.EvenOdd | app/src/main/Whisper/src/whisper.cpp:3085-3101 | The radix-2 case with half a turn equal to -1, for both halves of the outputs. |
| FeatureFft.FftRoot | app/src/main/CTranslate2/whisper-feature-extractor.cpp:106-142 | The strided lookup in the 400-entry table is the given power of the root of the smaller transform, for every exponent. |
| FeatureFft.Direct | app/src/main/CTranslate2/whisper-feature-extractor.cpp:160-168 | The smallest size is transformed directly and writes only its slice. |
| FeatureFft.Combine | app/src/main/CTranslate2/whisper-feature-extractor.cpp:179-186 | From the transforms of the parts in the other buffer, the combination loop produces the transform of all samples and writes only its slice. |
| FeatureFft.Fft | app/src/main/CTranslate2/whisper-feature-extractor.cpp:149-186 | The mixed-radix transform, with output and scratch changing roles at each level, leaves X[k] = sum of x[t] w^(k t) in the output slice, in any commutative ring with w^400 = 1, and touches nothing outside its slices of both buffers. |
| WhisperFft.Dft | app/src/main/Whisper/src/whisper.cpp:3038-3058 | The naive transform from the sine and cosine tables writes the exact transform, interleaved, and nothing else. |
| WhisperFft.Combine | app/src/main/Whisper/src/whisper.cpp:3085-3101 | The butterflies on real and imaginary parts give the transform of all samples from those of the halves stored behind the outputs. |
| WhisperFft.Fft | app/src/main/Whisper/src/whisper.cpp:3060-3102 | The recursive transform uses only the N values behind its samples and its 8N output values, keeps its samples, and leaves the exact transform. |
| WhisperFft.TransformSamples | app/src/main/Whisper/src/whisper.cpp:3060-3102 | For every ring, tables and input: outputs 2k and 2k + 1 are the real and imaginary part of sum of x[t] w^(k t), and the samples are unchanged. |
| ResidueFft.RootTableExists | app/src/main/CTranslate2/whisper-feature-extractor.cpp:120-142 | The hypotheses of the mixed-radix transform have an instance: the powers of 3 modulo 401. |
| ResidueFft.TableExists | app/src/main/Whisper/src/whisper.cpp:2997-3036 | The hypotheses of the radix-2 transform have an instance with half a turn equal to -1. |
| Reflection.MirrorReflects | app/src/main/CTranslate2/whisper-feature-extractor.cpp:244-245 | Each of the two reflections of the loop leaves the triangle wave's value unchanged. |
| Reflection.ReflectedSample | app/src/main/CTranslate2/whisper-feature-extractor.cpp:240-247 | The loop ends for every index, however far outside, and reads the sample at the mirror position. |
| KvCache.Cache.Search | app/src/main/Whisper/src/whisper.cpp:1030-1058 | The wrap-around search ends from every head; it stops at the free run that comes first after the head, or only after no run is free anywhere. |
| KvCache.Cache.FindSlot | app/src/main/Whisper/src/whisper.cpp:1019-1068 | Succeeds exactly if enough contiguous cells are free somewhere; then it claims exactly the first such run after the head and changes no other cell; otherwise no cell changes. |
| KvCache.Cache.CellMax | app/src/main/Whisper/src/whisper.cpp:1071-1079 | The result bounds every used cell, and is tight when above 1. |
| KvCache.Cache.Clear | app/src/main/Whisper/src/whisper.cpp:1081-1089 | Every cell is unused afterwards. |
| KvCache.Cache.SeqRm | app/src/main/Whisper/src/whisper.cpp:1091-1121 | Exactly the cells in the range lose the sequence (or all of them), a cell becomes unused exactly when its last sequence goes, and the head moves to the first freed cell. |
| KvCache.Cache.SeqCp | app/src/main/Whisper/src/whisper.cpp:1123-1137 | Exactly the source's cells in the range gain the destination, and the search starts at the first cell again. |
| KvCache.RemovedOwns | app/src/main/Whisper/src/whisper.cpp:1091-1121 | A removal takes from the named sequence, or from all, exactly the positions between its bounds, of which a negative one is none. |
| KvCache.CopiedOwns | app/src/main/Whisper/src/whisper.cpp:1123-1137 | A copy gives the destination exactly the positions between its bounds that the source owns. |
| KvCache.ClaimRaisesMark | app/src/main/Whisper/src/whisper.cpp:1019-1068 | From a mark on that the head does not pass, let every cell be unused: then claiming the first run after the head raises this mark by the length of the batch at most. |
| BeamReshuffle.ReshuffleBeams | app/src/main/Whisper/src/whisper.cpp:7316-7338 | The two passes of copies and removals through temporary sequences amount to one simultaneous assignment of parents' cells. |
| BeamReshuffle.ReshuffleIsSimultaneous | app/src/main/Whisper/src/whisper.cpp:7316-7338 | Each live decoder ends with exactly its parent's old cells, finished decoders keep theirs, no temporary sequence survives, positions stay, and cells nobody owns become unused. |
| DecodeWindow.StartHolds | app/src/main/Whisper/src/whisper.cpp:7140-7203 | After the prompt is decoded once and shared, every decoder's cells hold the prompt at positions 0, 1, ... |
| DecodeWindow.SampleKeeps | app/src/main/Whisper/src/whisper.cpp:7287-7343 | Taking over parents keeps the invariant: token sequences and cells move together. |
| DecodeWindow.DecodeKeeps | app/src/main/Whisper/src/whisper.cpp:7451-7482 | A decoding step adds exactly one cell, at the next position and with the last token, to each live decoder. |
| DecodeWindow.EventKeeps | app/src/main/Whisper/src/whisper.cpp:7208-7482 | Every step of a window keeps the whole invariant. |
| DecodeWindow.EveryWindowHoldsHistory | app/src/main/Whisper/src/whisper.cpp:7108-7482 | In every reachable state each live decoder owns exactly one cell per position of its own history, with that position's token, and a cell is used exactly if someone owns it. |
| DecodeWindow.KvLength | app/src/main/Whisper/src/whisper.cpp:2876-2877 | The padded cell count is a multiple of the padding or the whole cache, less than one padding above the used cells or one padding, and leaves out no used cell. |
| DecodeWindow.FillMask | app/src/main/Whisper/src/whisper.cpp:2921-2936 | An entry is masked exactly if the cell is not the sequence's or lies later. |
| DecodeWindow.MaskShowsHistory | app/src/main/Whisper/src/whisper.cpp:2921-2936 | In every reachable state a decoder's mask row exposes exactly its own history up to the position, and no other decoder's private cell. |
| DecodeWindow.BuildPrompt | app/src/main/Whisper/src/whisper.cpp:7108-7134 | The prompt is the initial tokens, behind the marker, the whole carried prompt and as much of the end of the rolling context as fits the budget, if the context is used; it is undefined exactly if the carried prompt fills the budget. |
| DecodeWindow.RollingCountIsNegativeExactlyIf | app/src/main/Whisper/src/whisper.cpp:7111-7125 | For a positive budget, the count of rolling tokens is negative exactly if a carried prompt has at least as many tokens as the budget. |
| DecodeWindow.Context.Prepare | app/src/main/Whisper/src/whisper.cpp:6918-6965 | A call clears the context only on request, fills the carried prompt only when it is empty, cut to its budget, and puts a prompt that is not carried in front of the rolling context. |
| DecodeWindow.CarriedIsTheEnd | app/src/main/Whisper/src/whisper.cpp:6945-6956 | A carried prompt is the end of the initial one, as much of it as fits below the budget and at least one token. |
| DecodeWindow.FirstCallFailsOnlyForBudgetOne | app/src/main/Whisper/src/whisper.cpp:6945-7128 | In the call that fills the carried prompt the count is negative exactly for a budget of one. |
| DecodeWindow.LaterCallFailsExactlyIf | app/src/main/Whisper/src/whisper.cpp:6945-7128 | In a later call it is negative exactly if the budget is at most what the first call kept. |
| DecodeWindow.PositionsFit | app/src/main/Whisper/src/whisper.cpp:7108-7208 | In every run of events with at most as many decodings as the loop has iterations, after a prompt of at most half the text context and four tokens, every position is below the text context. |
| DecodeWindow.CacheHoldsWindow | app/src/main/Whisper/src/whisper.cpp:7147-7161 | The size that the code gives the cache for some decoders has a cell for the prompt and for every token of every decoder. |
| WindowState.State.Start | app/src/main/Whisper/src/whisper.cpp:7140-7203 | Clearing, decoding the prompt and sharing its cells gives the start state of a window, or fails exactly if the prompt does not fit. |
| WindowState.State.Resample | app/src/main/Whisper/src/whisper.cpp:7287-7360 | The code's order of cache calls and token copies has the effect of one sampling step, for beams and for independent decoders. |
| WindowState.State.DecodeNext | app/src/main/Whisper/src/whisper.cpp:7451-7482 | Batching the live decoders' last tokens is one decoding step; it takes the first free run after the head that is long enough, and fails, changing nothing, exactly if there is none. |
| WindowState.State.RunWindow | app/src/main/Whisper/src/whisper.cpp:7142-7485 | The code's own loop, for any sampler: a window starts exactly if the cache holds the prompt, from the shared prompt every state follows from the one before by what the sampler chooses or by decoding, holds the whole invariant and has every position below the text context; it succeeds exactly if it gets to where no decoder goes on or all iterations are done, fails only where no free run is long enough, and never fails if the prompt and every token of every decoder have a cell. |
| WindowState.State.WindowFromContext | app/src/main/Whisper/src/whisper.cpp:7108-7485 | The same with the prompt that the text context gives, for any budget, carried prompt and rolling context; the prompt is undefined exactly if the carried one fills the budget, and if it is defined, a cache of the size that the code allocates makes the window succeed. |
| Timestamps.LoadedVocabOk | app/src/main/Whisper/src/whisper.cpp:1624-1639 | The ids derived from the vocabulary size leave exactly 1501 timestamps behind all text and special tokens, for every size from 51864 on. |
| Timestamps.ApplyRules | app/src/main/Whisper/src/whisper.cpp:6298-6338 | The in-place masking adds exactly the tokens that the rules forbid and keeps what was masked before (with the limit rule of 6233-6238). |
| Timestamps.Decoder.Update | app/src/main/Whisper/src/whisper.cpp:7345-7427 | The branches on the decoder's fields compute the specified update of its state after a token, which DecoderOutcomes.UpdateReads explains from the tokens. |
| DecoderOutcomes.UpdateReads | app/src/main/Whisper/src/whisper.cpp:7345-7427 | After an update that does not go back in time the state is what the decoder's tokens make of it: whether it goes on, has completed or failed, its result length and its window step. |
| DecoderOutcomes.GoesBackExactlyIf | app/src/main/Whisper/src/whisper.cpp:7367-7377 | An update goes back in time, and fails, exactly for a timestamp before the last one with other tokens in between. |
| DecoderOutcomes.EveryRunReadsTokens | app/src/main/Whisper/src/whisper.cpp:7208-7427 | In every run: a live decoder has no end of text, is below the token limit and has no timestamp within 100 ms of the end; a completed one (several segments, timestamps, a loaded model) has its result end and its window move at its last timestamp, or without any takes all tokens of a chunk that reaches the end; one fails exactly if its text ends without a timestamp before that, or the iterations end without one in the second half of the chunk. |
| DecoderOutcomes.MaskedExactlyIf | app/src/main/Whisper/src/whisper.cpp:6298-6338 | The masks of a live decoder forbid exactly the tokens that would break a rule for the whole sequence: order, pairs, the start, the token limit. |
| Timestamps.UpdateKeeps | app/src/main/Whisper/src/whisper.cpp:7345-7427 | For any unmasked token the update keeps the sequence rules and cannot fail for going back in time. |
| Timestamps.IterationKeeps | app/src/main/Whisper/src/whisper.cpp:7287-7427 | The same for all decoders at once, with beams taken over from live parents. |
| Timestamps.EverySequenceKeepsRules | app/src/main/Whisper/src/whisper.cpp:7208-7427 | In every run each decoder's timestamps never decrease, never come three in a row, and text never follows a timestamp that follows text; its window step is between 2 and 3000. |
| Timestamps.SeekLoop | app/src/main/Whisper/src/whisper.cpp:7020-7764 | Whatever reachable decoders the windows choose, each window moves by what its decoder says, or to the end of the chunk or audio after a result that ends in a single timestamp; the loop strictly advances by 20 ms to 30 s per window and ends with at most 100 ms left. |
| VadDetect.Chunk | app/src/main/Whisper/src/whisper.cpp:5273-5340 | The branching body of the detection loop on its seven variables follows the state machine. |
| VadDetect.StepOk | app/src/main/Whisper/src/whisper.cpp:5273-5340 | In every reachable state, for every threshold and also with splits at the length limit, finished segments are ordered and do not overlap and end before the open one; they are nonempty for thresholds from 0.01 on. |
| VadDetect.StepExact | app/src/main/Whisper/src/whisper.cpp:5273-5340 | Without length limits a state describes exactly the stretches of speech found so far. |
| VadDetect.Detect | app/src/main/Whisper/src/whisper.cpp:5262-5346 | The loop on the code's variables finds the segments that the state machine finds. |
| VadDetect.DetectedOk | app/src/main/Whisper/src/whisper.cpp:5262-5346 | These segments are sorted, apart and inside the audio for every probability array and threshold; without length limits they are exactly the stretches from a speech chunk to the first long enough pause, and contain every speech chunk that is not silent as well. |
| VadSegments.MergeClose | app/src/main/Whisper/src/whisper.cpp:5347-5367 | Editing the segments in place with a repeated index computes the specified merge. |
| VadSegments.MergedOk | app/src/main/Whisper/src/whisper.cpp:5347-5367 | The merge leaves no gap below 200 ms; a sample is covered exactly if it was, or lay in such a gap. |
| VadSegments.DropShort | app/src/main/Whisper/src/whisper.cpp:5369-5378 | Erasing in place keeps exactly the long enough segments, in order. |
| VadSegments.Pad | app/src/main/Whisper/src/whisper.cpp:5393-5426 | The pass that edits a segment and its successor together computes the padded segments. |
| VadSegments.PaddedHolds | app/src/main/Whisper/src/whisper.cpp:5393-5426 | Padding adds to a segment exactly the samples at most that far from it and nearer to it than to its neighbour on that side. |
| VadSegments.PaddingCovers | app/src/main/Whisper/src/whisper.cpp:5393-5426 | A sample of the audio is covered exactly if it lies in a segment or at most the padding away from one, except the middle one of an odd gap shorter than twice the padding. |
| VadSegments.PaddedApart | app/src/main/Whisper/src/whisper.cpp:5393-5426 | Padded segments only grow, by at most the padding, stay apart and stay inside the audio. |
| VadSegments.RoundedSorted | app/src/main/Whisper/src/whisper.cpp:5428-5430 | Rounding to centiseconds keeps segments ordered and non-overlapping, inside the audio's rounded length. |
| VadSegments.RoundingStaysExactlyIf | app/src/main/Whisper/src/whisper.cpp:4469-4471 | Rounding to centiseconds keeps every end inside the audio exactly if the audio's length is less than half a centisecond above a whole one. |
| VadSegments.SegmentsStayExactlyIf | app/src/main/Whisper/src/whisper.cpp:5428-5430 | Rounded segments stay inside the audio exactly if none ends in the second half of the audio's last centisecond. |
| VadSegments.WindowsOf512 | app/src/main/Whisper/src/whisper.cpp:4469-4471 | For whole windows of 512 samples this depends on the number of windows modulo 5. |
| VadSegments.PaddedSpeechOk | app/src/main/Whisper/src/whisper.cpp:5211-5426 | The merged, kept and padded segments are sorted, apart and inside the audio for every threshold and length limit; so are the rounded ones inside the rounded length, and inside the audio unless its length is rounded up. |
| VadSegments.SegmentsFromProbs | app/src/main/Whisper/src/whisper.cpp:5211-5445 | The whole pass gives these segments, rounded to centiseconds, for every probability array and threshold; before rounding they cover exactly what padding adds to the segments found, merged and kept. |
| VadSegments.CollectSpeech | app/src/main/CTranslate2/whisper-vad-filter.cpp:72-90 | The output is exactly the samples that lie in some segment, in order and once each. |
| VadCoverage.CollectWhisperSpeech | app/src/main/CTranslate2/whisper-vad-filter.cpp:46-93 | With the app's settings and any threshold, the output is cut from segments that cover, before rounding, every chunk at or above the threshold; it reports speech exactly if there is any output. |
| VadCoverage.AppKeepsAllSpeech | app/src/main/CTranslate2/whisper-vad-filter.cpp:58-65 | The app's settings drop and split nothing exactly up to the length that stands for no limit, and meet the condition for covering all speech for every threshold and windows of up to 6400 samples. |
| VadCoverage.FoundCoversExactlyIf | app/src/main/Whisper/src/whisper.cpp:5262-5346 | Up to that length the segments found cover, for all probabilities, every chunk at or above the threshold exactly if no chunk can be speech and silence at once, or segments are too short to hold a pause or dropped when short. |
| VadCoverage.FadingIsCut | app/src/main/Whisper/src/whisper.cpp:5262-5346 | Otherwise speech that fades out is cut off before a chunk at the threshold. |
| VadCoverage.PaddingCoversExactlyIf | app/src/main/Whisper/src/whisper.cpp:5211-5426 | The padded segments do exactly in these cases, or if the padding is at least a chunk and no gap of one chunk is left open. |
| VadCoverage.ShortAreDropped | app/src/main/Whisper/src/whisper.cpp:5262-5346 | With a shortest length, up to the length limit, exactly the longer ones are found of the segments that are found without. |
| VadLimit.LostExactlyIfCut | app/src/main/Whisper/src/whisper.cpp:5284-5311 | With any length limit no segment is longer than the limit and a chunk, and a speech chunk lies in a segment exactly if no segment over the limit was cut off right before it. |
| VadLimit.LostExample | app/src/main/Whisper/src/whisper.cpp:5284-5311 | Four chunks of speech with a limit of one, of which the third is lost. |
| TimeMap.ComputeNeeded | app/src/main/Whisper/src/whisper.cpp:6694-6716 | The first loop counts the specified size. |
| TimeMap.FitsExactlyIf | app/src/main/Whisper/src/whisper.cpp:6684-6784 | What the second loop copies fits the counted size exactly if the silences of skipped segments cover how far segments start behind the last sample. |
| TimeMap.FitsIfStartsInside | app/src/main/Whisper/src/whisper.cpp:6684-6784 | It always fits when every segment starts before the end of the samples. |
| TimeMap.RoundedStartMayNotFit | app/src/main/Whisper/src/whisper.cpp:6694-6716 | A segment that the detector finds and rounding moves behind the samples makes the counted size negative. |
| TimeMap.CutSpeech | app/src/main/Whisper/src/whisper.cpp:6729-6784 | Every copy stays inside the buffer; each segment's samples, with its overlap and up to the last sample, stand at its offset in order, followed by silence, and the recorded points are those of the segments at their offsets. |
| TimeMap.TableIncreasing | app/src/main/Whisper/src/whisper.cpp:6786-6800 | Whichever tie the unstable sort keeps, the table strictly increases in processed time, never decreases in original time and has an entry for every recorded processed time. |
| TimeMap.RemoveDuplicates | app/src/main/Whisper/src/whisper.cpp:6792-6800 | The in-order removal keeps the first of equal processed times. |
| TimeMap.MapProcessedToOriginal | app/src/main/Whisper/src/whisper.cpp:7941-7980 | The binary search finds the neighbours of every time, and the answer lies on the line through them, less what an integer division cuts off; outside the table it is the first or last original time. |
| TimeMap.MappedMonotone | app/src/main/Whisper/src/whisper.cpp:7941-7980 | Later processed times never map to earlier original times, across all branches and integer divisions. |
| TimeMap.MappedExact | app/src/main/Whisper/src/whisper.cpp:7941-7980 | The map is exact at the table's points. |
| TimeMap.MappedBounded | app/src/main/Whisper/src/whisper.cpp:7941-7980 | The map stays between the first and the last original time. |
| TimeMap.BuiltTableMaps | app/src/main/Whisper/src/whisper.cpp:6722-6800 | Any table built from sorted segments increases, and the map over it keeps the order and stays between 0 and the end. |
| CopiedTimes.CopiedTimesMap | app/src/main/Whisper/src/whisper.cpp:6729-6800 | While the copy of a segment lasts, processed time maps to the segment's start plus the time since its offset, exactly for a segment inside the samples, else later by at most what lies behind them. |
| CopiedTimes.CopiedTimesMapExactlyIf | app/src/main/Whisper/src/whisper.cpp:6729-6800 | Every table that the unstable sort can give does so exactly if the segment behind the last copied one starts where this one does. |
| CopiedTimes.AttachedUnlessEmpty | app/src/main/Whisper/src/whisper.cpp:6729-6800 | This holds for every copied segment with an overlap, or without empty segments. |
| CopiedTimes.DetachedExample | app/src/main/Whisper/src/whisper.cpp:6729-6800 | An empty segment between two others, without overlap, for which it does not. |
| CopiedTimes.SampleKeepsItsTime | app/src/main/Whisper/src/whisper.cpp:6722-6800 | The time of each sample of such a copy maps back to the sample's own time, up to one centisecond for rounding. |
| Dtw.PathIsRoute | app/src/main/CTranslate2/upstream/src/dtw.cc:8-80 | The traced path is a monotone staircase from (0, 0) to the last cell of at most n + m - 1 cells whose weights add up to the table's entry. |
| Dtw.NeverBelowOptimum | app/src/main/CTranslate2/upstream/src/dtw.cc:52-77 | No entry undercuts the optimum. |
| Dtw.OptimumIsLeast | app/src/main/CTranslate2/upstream/src/dtw.cc:52-77 | The recurrence with a true minimum is a lower bound for every staircase. |
| Dtw.OptimumIsReached | app/src/main/CTranslate2/upstream/src/dtw.cc:52-77 | That lower bound is the weight of some staircase. |
| Dtw.PathIsBest | app/src/main/CTranslate2/upstream/src/dtw.cc:8-80 | Without the tie c0 = c1 < c2 no staircase is cheaper than the path found. |
| Dtw.OptimalExactlyWithoutTies | app/src/main/CTranslate2/upstream/src/dtw.cc:61-70 | Every entry is optimal exactly if no cell has that tie. |
| Dtw.TieExample | app/src/main/CTranslate2/upstream/src/dtw.cc:61-70 | The smallest matrix on which the path is not the best one. |
| Dtw.FillTables | app/src/main/CTranslate2/upstream/src/dtw.cc:45-77 | The nested loops fill both tables as specified. |
| Dtw.SetBorders | app/src/main/CTranslate2/upstream/src/dtw.cc:11-14 | Overwriting the borders of the trace makes the walk back well-defined and never reads an unset entry. |
| Dtw.NegativeDtw | app/src/main/CTranslate2/upstream/src/dtw.cc:8-80 | CTranslate2's version returns the traced path of the negated matrix. |
| Dtw.DtwAndBacktrace | app/src/main/Whisper/src/whisper.cpp:8712-8796 | whisper.cpp's version, which writes from the last of N + M - 1 rows upwards, never runs out of rows and returns the traced path. |
| Dtw.SamePath | app/src/main/Whisper/src/whisper.cpp:8712-8796 | Both implementations return the same path on negated input. |
| ByteTable.BuildTable | app/src/main/CTranslate2/whisper-prompt-tokenizer.cpp:38-50 | The two lists pair every byte with its code point. |
| ByteTable.CodeInjective | app/src/main/CTranslate2/whisper-prompt-tokenizer.cpp:38-55 | No two bytes share a code point. |
| ByteTable.CodeCounts | app/src/main/CTranslate2/whisper-prompt-tokenizer.cpp:38-50 | Printable bytes stand for themselves, the others for the code points from 256 on, numbered in order. |
| ByteTable.MakeByteEncoder | app/src/main/CTranslate2/whisper-prompt-tokenizer.cpp:38-55 | Every byte gets the UTF-8 form of its code point. |
| ByteTable.MakeByteDecoder | app/src/main/CTranslate2/whisper-token-decoder.cpp:25-44 | The decoder's table is the inverse of the code, with no other keys. |
| ByteTable.ReadCodePoints | app/src/main/CTranslate2/whisper-token-decoder.cpp:8-23 | The reader's loops compute the specified code points, also for malformed text. |
| ByteTable.ReadsCodePoint | app/src/main/CTranslate2/whisper-token-decoder.cpp:8-23 | The reader reads the UTF-8 of any code point back. |
| BpeMerge.LoadMerges | app/src/main/CTranslate2/whisper-prompt-tokenizer.cpp:67-107 | Loading fails exactly for an empty operand; otherwise each pair has the index of its first line as its rank, so ranks are distinct. |
| BpeMerge.FindBest | app/src/main/CTranslate2/whisper-prompt-tokenizer.cpp:120-129 | The scan finds the leftmost pair of lowest rank, or none exactly if no pair can be merged. |
| BpeMerge.Sweep | app/src/main/CTranslate2/whisper-prompt-tokenizer.cpp:132-141 | The loop that edits the pieces in place is the specified sweep: every occurrence from the left, looking again at each result. |
| BpeMerge.MergeAll | app/src/main/CTranslate2/whisper-prompt-tokenizer.cpp:120-142 | The outer loop gives what sweeping with the best pair until none is left gives. |
| BpeMerge.BatchedSpells | app/src/main/CTranslate2/whisper-prompt-tokenizer.cpp:120-142 | For every table, sweeping changes neither the text nor what the pieces spell, and ends only when no pair can be merged. |
| BpeMerge.AlwaysBestExactlyIf | app/src/main/CTranslate2/whisper-prompt-tokenizer.cpp:120-142 | Every merge of every sweep is that of the leftmost lowest-ranked pair at that moment exactly if the table is orderly: the result of a merge forms a pair of lower rank only where there was one before. |
| BpeMerge.TrainedIsOrderly | app/src/main/CTranslate2/whisper-prompt-tokenizer.cpp:120-142 | A table in which results rank after their merges is orderly. |
| BpeMerge.OrderlyBatched | app/src/main/CTranslate2/whisper-prompt-tokenizer.cpp:120-142 | With an orderly table, sweeping gives what repeatedly merging the single leftmost lowest-ranked pair gives. |
| TokenRoundTrip.EarlyResultExample | app/src/main/CTranslate2/whisper-prompt-tokenizer.cpp:120-142 | With the merges (ab, a), (a, b) the text "abab" becomes ab, ab, but aba, b when merging one by one. |
| TokenRoundTrip.Encode | app/src/main/CTranslate2/whisper-prompt-tokenizer.cpp:109-151 | The tokens are the last ones of the text's pieces after all merges, exactly as many as allowed or all of them; it is an error exactly if a piece is outside the vocabulary. |
| TokenRoundTrip.TokenizedSpells | app/src/main/CTranslate2/whisper-prompt-tokenizer.cpp:109-151 | The pieces of any text under any table spell it, and no two neighbours can be merged. |
| TokenRoundTrip.TokenizedOneByOne | app/src/main/CTranslate2/whisper-prompt-tokenizer.cpp:109-151 | With an orderly table they come from merging one pair at a time. |
| TokenRoundTrip.DecodeTokens | app/src/main/CTranslate2/whisper-token-decoder.cpp:48-61 | The nested loops decode token by token, skipping special tokens and unknown code points. |
| TokenRoundTrip.RoundTripExactlyIf | app/src/main/CTranslate2/whisper-token-decoder.cpp:48-61 | Decoding all tokens of a text gives it back exactly if no token is taken for a special one. |
| TokenRoundTrip.SpecialTokenExample | app/src/main/CTranslate2/whisper-token-decoder.cpp:48-61 | A loadable table that makes one special token of a text, which is then lost. |
| TokenRoundTrip.TruncatedIsSuffix | app/src/main/CTranslate2/whisper-prompt-tokenizer.cpp:148-150 | The last tokens of a text without special tokens decode to a suffix of it. |
| TokenRoundTrip.SpecialNeedsMarker | app/src/main/CTranslate2/whisper-token-decoder.cpp:52-53 | Only a text that contains the two opening characters of a special token can have a token that is taken for one. |
| TokenRoundTrip.RoundTrip | app/src/main/CTranslate2/whisper-prompt-tokenizer.cpp:109-151 | For every byte string without these two characters: encoding and decoding gives a suffix, and the whole text if fewer tokens than allowed came out; in general exactly if no token is special. |
| UtfConverter.ReadOne | app/src/main/NativeText/utf-converter.cpp:71-126 | One round of the converter reads as specified, in every branch. |
| UtfConverter.AcceptsExactly | app/src/main/NativeText/utf-converter.cpp:71-126 | It accepts exactly the sequences of section 4 of RFC 3629, with their value, and reads anything else as U+FFFD. |
| UtfConverter.Utf8ToUtf16 | app/src/main/NativeText/utf-converter.cpp:67-128 | The output is the UTF-16 encoding of what is read. |
| UtfConverter.OutputNoLonger | app/src/main/NativeText/utf-converter.cpp:67-128 | Every byte string converts to well-formed UTF-16 of no more units than bytes. |
| UtfConverter.Utf16ToUtf8 | app/src/main/NativeText/utf-converter.cpp:130-159 | The output is the UTF-8 encoding of what is read. |
| UtfConverter.OutputAtMostTriple | app/src/main/NativeText/utf-converter.cpp:130-159 | Every unit string converts to well-formed UTF-8 of at most three bytes per unit, so the reserved space suffices. |
| UtfConverter.Reads8 | app/src/main/NativeText/utf-converter.cpp:67-128 | Reading the UTF-8 encoding of any scalar values, behind any other text, gives them back. |
| UtfConverter.Reads16 | app/src/main/NativeText/utf-converter.cpp:130-159 | The same for the UTF-16 encoding of section 2.1 of RFC 2781. |
| UtfConverter.MutualInverses | app/src/main/NativeText/utf-converter.cpp:67-159 | On well-formed text the two conversions undo each other. |
| UtfConverter.RoundTripReplaces | app/src/main/NativeText/utf-converter.cpp:67-159 | To UTF-8 and back replaces exactly the unpaired surrogates of any unit string by U+FFFD. |
| GreedySearch.GetMaxStep | app/src/main/CTranslate2/upstream/src/decoding.cc:359-375 | The loop over the prefixes gives the largest step limit of any input. |
| GreedySearch.SampleRows | app/src/main/CTranslate2/upstream/src/decoding.cc:21-66 | Prefix tokens override the samples of their rows, found through the batch offsets, with score 0. |
| GreedySearch.ProcessRows | app/src/main/CTranslate2/upstream/src/decoding.cc:894-947 | One step updates each row's result once, and the selection lists exactly the rows that go on, in order. |
| GreedySearch.SteppedOk | app/src/main/CTranslate2/upstream/src/decoding.cc:948-970 | Compaction keeps the batch offsets injective and every row's state, history and sample together. |
| GreedySearch.StepKeepsCourse | app/src/main/CTranslate2/upstream/src/decoding.cc:844-970 | After a step and its compaction every row still ends, or has ended, with what its input ends with. |
| GreedySearch.Search | app/src/main/CTranslate2/upstream/src/decoding.cc:842-973 | For every oracle that depends only on a row's own history, each input of the batch ends with what its row alone ends with under the batch's step limit; with a positive length limit this is its answer. |
| GreedySearch.WholeYields | app/src/main/CTranslate2/upstream/src/decoding.cc:842-947 | The answer: the history forced by the prefix and then chosen after the start token and what came before, up to the first end id behind the prefix or the length limit; without a prefix that is not returned and end ids that are not included, and with the sum of the chosen scores. |
| GreedySearch.HistoryUnique | app/src/main/CTranslate2/upstream/src/decoding.cc:842-947 | There is exactly one such history. |
| GreedySearch.BatchIsSolo | app/src/main/CTranslate2/upstream/src/decoding.cc:842-973 | An input that has steps of its own ends in the batch exactly as in a batch of one, and is finalised exactly once. |
| GreedySearch.DecodeBatch | app/src/main/CTranslate2/upstream/src/decoding.cc:1000-1039 | For every call that passes the checks, each input of the batch gets its answer, exactly as in a call of its own, finalised once; a length limit of 0 and an input without start token are refused. |
| GreedySearch.BatchingIsInvisibleExactlyIf | app/src/main/CTranslate2/upstream/src/decoding.cc:842-973 | A remark on the search without these checks: batching equals solo runs for every oracle exactly if the limit is positive, or there are no steps, or every input has a prefix. |
| BeamSearch.SelectBeams | app/src/main/CTranslate2/upstream/src/decoding.cc:605-649 | The scan keeps each beam's place, and gives the n-th end the n-th candidate of the second half that is no end, while there is one; the chosen are distinct, and none ends exactly if there are enough. |
| BeamSearch.SubstitutesSuffice | app/src/main/CTranslate2/upstream/src/decoding.cc:447-449 | With one end id and distinct candidates there are always enough: at most one end per source beam. |
| BeamSearch.SubstitutesSufficeExactlyIf | app/src/main/CTranslate2/upstream/src/decoding.cc:447-449 | There are enough for every list of distinct candidates exactly if at most one word of the vocabulary is an end id. |
| BeamSearch.Register | app/src/main/CTranslate2/upstream/src/decoding.cc:616-636 | Exactly the first candidates that end, or all in the last step, are registered in order, each as the beam it extends with its word, less an end that is not included. |
| BeamSearch.Search | app/src/main/CTranslate2/upstream/src/decoding.cc:605-670 | Over whole runs each live beam is a beam of the step before, the one its chosen candidate comes from, with that candidate's word; no live beam contains the end id. The hypotheses are those registered step by step, up to the first step with enough of them or the last. |
| LogitsProcessors.NgramFinals | app/src/main/CTranslate2/upstream/src/decoding_utils.cc:75-106 | Exactly the tokens that would complete an n-gram already present are disabled. |
| LogitsProcessors.NoRepeatExactlyIf | app/src/main/CTranslate2/upstream/src/decoding_utils.cc:75-106 | A run repeats no n-gram exactly if it never samples a disabled token. |
| LogitsProcessors.Split | app/src/main/CTranslate2/upstream/src/decoding_utils.cc:108-117 | Single banned tokens and longer sequences are kept apart, empty ones dropped. |
| LogitsProcessors.SuppressedTokens | app/src/main/CTranslate2/upstream/src/decoding_utils.cc:119-153 | Exactly the tokens that would end a banned sequence are disabled. |
| LogitsProcessors.NoBannedExactlyIf | app/src/main/CTranslate2/upstream/src/decoding_utils.cc:119-153 | A run contains no banned sequence exactly if it never samples a token disabled at its step. |
| JobQueue.StepKeeps | app/src/main/CTranslate2/upstream/src/thread_pool.cc:37-76 | Every enabled step of posting, putting, getting, finishing, exiting and closing keeps the invariant. |
| JobQueue.EveryInterleaving | app/src/main/CTranslate2/upstream/src/thread_pool.cc:7-167 | In every interleaving the queue never exceeds its maximum, jobs leave in the order they entered and to exactly one worker each, and the counter equals posted but not destroyed jobs. |
| JobQueue.DrainedAtExit | app/src/main/CTranslate2/upstream/src/thread_pool.cc:46-76 | A worker leaves only a closed queue from which everything that entered before has been taken. |
| JobQueue.EmptyExactlyIf | app/src/main/CTranslate2/upstream/src/thread_pool.cc:37-129 | When all workers have left, the queue is empty exactly if some worker saw, when it left, every job that has entered. |
| JobQueue.LatePutStays | app/src/main/CTranslate2/upstream/src/thread_pool.cc:37-44 | An example: a job put after the last worker left is accepted and stays queued. |
| JobQueue.Queue.Put | app/src/main/CTranslate2/upstream/src/thread_pool.cc:37-44 | The critical section of put is the put step. |
| JobQueue.Queue.Get | app/src/main/CTranslate2/upstream/src/thread_pool.cc:46-64 | The critical section of get is the get step if there is a job, closed or not, and the exit step otherwise. |
| JobQueue.Queue.Close | app/src/main/CTranslate2/upstream/src/thread_pool.cc:66-76 | Closing is the close step, also a second time. |
| BufferedWrapper.StepKeeps | app/src/main/CTranslate2/upstream/src/buffered_translation_wrapper.cc:29-111 | Accepting, flushing, posting and stopping keep examples and promises in step. |
| BufferedWrapper.FlushSize | app/src/main/CTranslate2/upstream/src/buffered_translation_wrapper.cc:68-97 | A flush takes whole batches, everything when stopping, and something whenever there is something; it is undefined exactly where the code divides by zero. |
| BufferedWrapper.PostedInOrder | app/src/main/CTranslate2/upstream/src/buffered_translation_wrapper.cc:29-111 | In every interleaving the posted examples and promises are those of the first accepted requests, pair by pair, in order and once each. |
| BufferedWrapper.AllPostedAtEnd | app/src/main/CTranslate2/upstream/src/buffered_translation_wrapper.cc:20-111 | When the background loop has ended, every request accepted before the stop has been posted. |
| BufferedWrapper.DefinedExactlyIf | app/src/main/CTranslate2/upstream/src/buffered_translation_wrapper.cc:5-83 | Some run divides by zero exactly if the batch size is 0. |
| BufferedWrapper.Buffer.TranslateAsync | app/src/main/CTranslate2/upstream/src/buffered_translation_wrapper.cc:29-50 | The critical section of accepting is the accept step, and notifies exactly when the buffer is full. |
| BufferedWrapper.Buffer.TakeFront | app/src/main/CTranslate2/upstream/src/buffered_translation_wrapper.cc:68-97 | The critical section of the loop takes exactly the flush step's front of both queues, or stops where that would divide by zero. |

## Left out

- The Android side (Java classes, JNI bridges, asset copying), logging, configuration parsing, and loading of files and models.
- Tensor graphs, backends, attention, convolution, softmax and samplers: the network is an oracle.
- Floating-point rounding: transforms are over commutative rings, scores, costs and probabilities over real numbers, and times over integers. The sine and cosine tables are assumed to hold exact powers of a root of unity.
- Integer widths: positions, samples, ranks and ids are unbounded, so overflow at 32 or 64 bits is not modelled, except for the largest position of the cache and the length limit of the speech detector.
- Mel filters, windowing and the NEON code paths of the feature extractor; threads of the spectrogram.
- The logits filters other than the timestamp rules and the grammar penalty, and scoring, entropy and temperature fallback; which decoder wins a window is arbitrary.
- The regular-expression word split and greedy tokenizer of whisper.cpp, and the language tables.
- Token timestamps from voice length and energy, and segment texts and times; a first text token takes its time from `tid`, so t0 <= t1 is not claimed.
- Beam search of CTranslate2 beyond beam selection: forced prefixes, prefix bias, score normalisation and penalties, attention and logits outputs, and the flattening of several inputs into one batch.
- Other logits processors (repetition penalty, token suppression at the beginning) and the step callback of greedy search.
- Condition variables are modelled by steps that are enabled when the wait is over; a buffer's wait may end by timeout at any time. Liveness (that a waiting thread is eventually woken) is not claimed.
- Exceptions inside jobs and allocation failures.
- Padding, vocabulary, storage views, batch readers and the event hub: index tables and maps that no algorithm here depends on.
- GrammarReject.PruningAgrees: covers tokens that end on a code-point boundary; for a token that ends inside a sequence the code is conservative with negated classes (it refuses as soon as one listed range meets the interval), so no equivalence holds.
- DecodeWindow.EveryWindowHoldsHistory: a row of the key and value tensors is modelled by the token it was computed from, and parents of beams are arbitrary live decoders, so the sorting of beam candidates is not part of it.
- GrammarReject.MatchesPartialExactlyIf: asks for ranges that are not empty and for values whose completions fit 32 bits; the shift of larger ones wraps in the code and in MatchPartialChar.
- WindowState.State.RunWindow: the callbacks that abort a decoding are not part of it.
- Timestamps.EverySequenceKeepsRules: holds with timestamps enabled and for runs that sample only unmasked tokens.
- TimeMap.TableIncreasing: the sort is any permutation sorted by processed time.
- TimeMap.CutSpeech: asks for a buffer that the copies fit; FitsExactlyIf says when the size computed by the code is one.
- Dtw.OptimalExactlyWithoutTies: is about all entries; for the last entry alone the tie is only one way to miss the optimum, so there it goes one way (Dtw.PathIsBest).
- BpeMerge.LoadMerges: keys are pairs of pieces; the code joins them with a zero byte, which is the same as long as no piece contains one. Reading the JSON file is not modelled.
- GreedySearch.Search: the scores are those of one hypothesis per input, without normalisation.
- BeamSearch.Search: one input with its own candidate lists; candidates of a step are any distinct positions of the flattened scores.
- PartialUtf8.CutsAgreeExactlyIf: is about texts that do not start with a continuation byte, as no token does that follows a complete one; a text that does is malformed from its first byte.
- VadCoverage.CollectWhisperSpeech: coverage is stated for windows of at most 6400 samples and audio up to the length that stands for no limit, beyond which the code splits segments, and before rounding, which can cost half a centisecond at each end.
- VadDetect.DetectedOk: a chunk that is speech and silence at once, which takes a threshold below 0.01, is only sure to touch its segment before padding; VadCoverage.FadingIsCut is an example.
- VadLimit.LostExactlyIfCut: for thresholds from 0.01 on and segments of any length; where a segment over the limit is split, and that merging may join the parts again, is not part of it.
- VadCoverage.PaddingCoversExactlyIf: is about audio up to the length limit of segments, beyond which they are split, and about segments before rounding.
- BpeMerge.OrderlyBatched: goes one way; in a table that is not orderly some sweep makes another merge first, but results may still agree.
- BpeMerge.AlwaysBestExactlyIf: ranges over all sequences of pieces, not only over those that some text leads to.
