# liveStream: models and proofs

Dafny models of the parts of liveStream whose behaviour is hardest to see from the code,
and proofs of what they promise:

- percent-escaping, URL unescaping with its adjustments, and HTML escaping
  (`PercentEscape`, `UrlUnescape`, `UrlUnescapeRules`, `HtmlEscape`);
- the upload stream over a list of element readers, with initialisations and reads that may
  be suspended, resumed, aborted and reported late (`ElementsUpload`, `ElementsUploadRuns`,
  `ElementsUploadErrors`, `ElementsUploadLeftovers`, `ElementsUploadSchedule`, `ElementsUploadStream`), and the push-based chunked stream
  (`ChunkedUpload`, `ChunkedUploadStream`);
- the RobustMPC bitrate planner (`RobustMpc`, `RobustMpcReward`) and the Festive rule (`Festive`, `FestiveObject`);
- exponential backoff and its serialisation (`Backoff`, `BackoffCounts`, `BackoffSerializer`);
- the expiring cache (`ExpiringCache`, `ExpiringCacheRuns`);
- the Android network-change delegate (`NetworkNotifier`, `NetworkNotifierLedger`,
  `NetworkNotifierDelegate`) and the
  Linux address tracker (`AddressTracker`, `AddressTrackerObject`);
- the long-polling request pool and the interceptor that holds back the player's requests
  (`RequestPool`, `Interceptor`, `InterceptorTables`).

Code that updates fields or runs loops is modelled by classes and methods with the same
fields and loops. Each method is proved equal to a specification function or relation, and the
properties over whole runs are proved of that specification. `dafny verify dfyconfig.toml`
checks the project.

Conventions: bytes are integers from 0 to 255; times are integers in microseconds with the
saturation and overflow of 64 bits written out; `double` and Python floats are `real`. Clocks,
random numbers, decoded messages, responses of readers and their timing are parameters, and
every statement holds for all of them.

Where the code and its documentation differ, the code is modelled:

- The example in `expiring_cache.h` constructs a cache of capacity 0. Such a cache outgrows its
  capacity at the first `Put`; `BoundNeedsCapacity` states for which capacities the bound holds.
- The comment on `setBypass` says that a bypass works once. The set is never cleared:
  `BypassLasts` is a trace with two retries after one bypass, and `TablesRecord` states in
  general that a retry is let through whenever a bypass was set before it.
- `CanDiscard` is described as keeping entries with significant state.
  `DiscardWhileRejecting` states exactly when an entry that still rejects may be discarded, and
  `DiscardedTooEarly` is one.
- `escape.h` lists the exclamation mark and not the at sign for `EscapeUrlEncodedData`. The map
  has it the other way round; `UrlEncodedDiffersFromDocumentation` states that these two bytes
  are the only difference.
- `address_tracker_linux.h` says that the flags indicate whether the collections changed.
  `FlagWithoutChange` is a batch where a raised flag does not; `RaisedMeansChangedExactly`
  states for which batches it does.
- A connected default network that was never announced is possible if the invalid handle is
  reported connected. `InformsExactly` states that this is the only case.

## Model

| member | source | states |
|---|---|---|
| PercentEscape.CharmapMeanings | quic/chromium/src/net/base/escape.cc:413-461 | For every byte, which of the eight charmaps contain it, in terms of the character classes the comments name. |
| PercentEscape.UrlEncodedDiffersFromDocumentation | quic/chromium/src/net/base/escape.cc:441-445 | The form-content map agrees with its documentation on every byte but the exclamation mark and the at sign. |
| PercentEscape.Escape | quic/chromium/src/net/base/escape.cc:42-64 | The escaping loop computes the specification that the round-trip and meaning theorems are about. |
| PercentEscape.EscapedJoin | quic/chromium/src/net/base/escape.cc:42-64 | Without kept escapes a text is escaped piece by piece. |
| PercentEscape.EscapedByte | quic/chromium/src/net/base/escape.cc:42-64 | A byte is escaped exactly if the map holds it, as a percent sign and its two upper-case digits; a space may become a plus sign; any other byte is copied. |
| PercentEscape.KeepsOnlyEscapes | quic/chromium/src/net/base/escape.cc:42-64 | Keeping escapes makes no difference to a text that has none. |
| Bytes.HexDigitsByTable | quic/chromium/src/net/base/escape.cc:109-124 | The digits of either case, by their place in the usual order, are hex digits of that value, and no other byte is. |
| PercentEscape.TripleSpellsByte | quic/chromium/src/net/base/escape.cc:109-124 | An escape has a value exactly if its two characters are that value's digits in either case. |
| PercentEscape.CaseIsIrrelevant | quic/chromium/src/net/base/escape.cc:538-580 | Changing the case of the digits of any escapes does not change what a text unescapes to. |
| PercentEscape.UnescapeUnsignedByteAtIndex | quic/chromium/src/net/base/escape.cc:109-124 | Succeeds exactly at a well-formed escape of section 2.1 of RFC 3986 and yields its byte. |
| PercentEscape.UnescapeBinaryURLComponent | quic/chromium/src/net/base/escape.cc:538-580 | The binary unescaping loop decodes each escape once, left to right, and copies everything else. |
| PercentEscape.RoundTrip | quic/chromium/src/net/base/escape.cc:42-64 | Binary unescaping undoes escaping on every byte string, including the plus-for-space variant undone by the plus-replacing unescape. |
| PercentEscape.RoundTripExactly | quic/chromium/src/net/base/escape.cc:42-64 | Escaping is undone for all strings if and only if a condition on the charmap and the two plus flags holds. |
| PercentEscape.PublicEscapersRoundTrip | quic/chromium/src/net/base/escape.cc:465-497 | Which of the public escaping functions are reversible: all that do not keep escapes but the non-ASCII one, and the two that keep them exactly on texts without an escape. |
| PercentEscape.MeaningPreserved | quic/chromium/src/net/base/escape.cc:42-64 | In keep-escaped mode the escaped text unescapes to the same bytes as the original, whatever stray or overlapping percent signs it has. |
| PercentEscape.MeaningPreservedExactly | quic/chromium/src/net/base/escape.cc:42-64 | The keep-escaped mode preserves meaning for all strings if and only if the map escapes no hex digit and the plus flags agree with it. |
| PercentEscape.Idempotent | quic/chromium/src/net/base/escape.cc:42-64 | Escaping twice in keep-escaped mode is escaping once. |
| PercentEscape.KeptRoundTrip | quic/chromium/src/net/base/escape.cc:42-64 | In keep-escaped mode a text is recovered if and only if it holds no escape. |
| PercentEscape.KeepingEscapes | quic/chromium/src/net/base/escape.cc:477-497 | The external-handler and the NSURL escape are idempotent and preserve meaning for every string. |
| PercentEscape.ContainsEncodedBytes | quic/chromium/src/net/base/escape.cc:638-656 | Finds an escape of one of the given bytes if and only if there is one. |
| PercentEscape.UnescapeBinaryURLComponentSafe | quic/chromium/src/net/base/escape.cc:582-600 | Fails exactly if some escape encodes a control byte or, on request, a path separator; otherwise gives the binary unescape. |
| PercentEscape.SafeUnescapeAddsNothing | quic/chromium/src/net/base/escape.cc:582-600 | When the safe unescape succeeds, no forbidden byte occurs more often in the result than in the input. |
| UrlUnescape.MoreFlagsUnescapeMore | quic/chromium/src/net/base/escape.cc:174-298 | A code point safe under some rules is safe under every larger set of rules. |
| UrlUnescape.CollectBytes | quic/chromium/src/net/base/escape.cc:131-155 | Collects the bytes of the run of escapes that may form one character, and no more. |
| UrlUnescape.UnescapeUTF8CharacterAtIndex | quic/chromium/src/net/base/escape.cc:131-170 | Succeeds exactly on an escaped character that is valid by section 4 of RFC 3629 and yields its code point and bytes. |
| UrlUnescape.UnescapeSegment | quic/chromium/src/net/base/escape.cc:325-371 | One pass of the loop consumes one segment of the text: a raw byte, an undecodable escape, or a whole character kept or decoded by the rules. |
| UrlUnescape.UnescapeURLWithAdjustments | quic/chromium/src/net/base/escape.cc:305-378 | Output and adjustments are those of the left-to-right cut of the text into segments. |
| UrlUnescape.AdjustmentsDescribeOutput | quic/chromium/src/net/base/escape.cc:305-378 | The adjustments are in order and at least three apart, each marks a valid escape, the output is shorter by two per adjustment, and replacing exactly the marked escapes rebuilds the output. |
| UrlUnescape.MoreFlagsMarkMore | quic/chromium/src/net/base/escape.cc:305-378 | Enlarging the rules never keeps an escape that was decoded before. |
| UrlUnescape.BinaryExactlyWhenAllMarked | quic/chromium/src/net/base/escape.cc:305-378 | The result equals the binary unescape if and only if every escape of the text is marked. |
| UrlUnescapeRules.CharacterExactly | quic/chromium/src/net/base/escape.cc:131-170 | A character is read at a position exactly if the escapes there spell its encoding by section 3 of RFC 3629, for every scalar value. |
| UrlUnescapeRules.RulesByTable | quic/chromium/src/net/base/escape.cc:174-298 | Which code points are safe under which flags, as literal characters, ranges and flag bits. |
| UrlUnescapeRules.MarkedExactlyIfShown | quic/chromium/src/net/base/escape.cc:305-378 | Where the scan stops at an escaped character, its escapes are decoded exactly if it is one of the always safe ones, is allowed by the flag for its class, or lies beyond ASCII outside the banned ranges. |
| UrlUnescapeRules.MarkedIfUndecodable | quic/chromium/src/net/base/escape.cc:305-378 | Where the scan stops at an escape that starts no character, it is decoded whatever the flags. |
| HtmlEscape.AppendEscapedChar | quic/chromium/src/net/base/escape.cc:382-398 | Appends the entity of a special character and the character itself otherwise. |
| HtmlEscape.EntityTable | quic/chromium/src/net/base/escape.cc:382-398 | The entity of each of the five special characters, spelt out, and that no other character is escaped. |
| HtmlEscape.EscapeForHTML | quic/chromium/src/net/base/escape.cc:402-411 | Escapes character by character, leaving what has been written alone. |
| HtmlEscape.ReplaceCode | quic/chromium/src/net/base/escape.cc:619-633 | One position of the in-place scan keeps what the whole text decodes to. |
| HtmlEscape.UnescapeForHTML | quic/chromium/src/net/base/escape.cc:602-636 | The scan that rewrites its own text terminates and equals one left-to-right decoding pass. |
| HtmlEscape.UnescapeUndoesEscape | quic/chromium/src/net/base/escape.cc:602-636 | Unescaping undoes escaping for every text, including text that holds entity-like sequences. |
| HtmlEscape.EscapedIsWellEscaped | quic/chromium/src/net/base/escape.cc:402-411 | Escaped text has no bare special character and no ampersand outside an entity. |
| HtmlEscape.EscapeUndoesUnescape | quic/chromium/src/net/base/escape.cc:382-411 | Escaping undoes unescaping if and only if the text is well escaped. |
| ElementsUploadRuns.ServeKeeps | quic/chromium/src/net/base/elements_upload_data_stream.cc:138-149 | A reader's answer moves its next bytes into the buffer, in order, or records the error and moves nothing. |
| ElementsUploadRuns.ReadElementsKeeps | quic/chromium/src/net/base/elements_upload_data_stream.cc:100-126 | The read loop keeps delivered bytes plus buffer equal to what the readers before the cursor have given, whether it finishes or suspends. |
| ElementsUploadRuns.InitElementsKeeps | quic/chromium/src/net/base/elements_upload_data_stream.cc:65-86 | Initialisation rewinds the readers in order and sums all their lengths, whether it finishes, fails or suspends. |
| ElementsUploadRuns.ReadKeeps | quic/chromium/src/net/base/upload_data_stream.cc:68-90 | A read reports as many bytes as it delivers, zero only at the end, and an error only with no bytes and if the stream is stuck with it. |
| ElementsUploadRuns.LiveReadKeeps | quic/chromium/src/net/base/elements_upload_data_stream.cc:128-136 | A read completion that is still wanted resumes its own read and keeps the stream's invariant. |
| ElementsUploadRuns.LiveInitKeeps | quic/chromium/src/net/base/elements_upload_data_stream.cc:88-98 | An initialisation completion that is still wanted resumes at the next element and keeps the invariant. |
| ElementsUploadRuns.StepKeeps | quic/chromium/src/net/base/upload_data_stream.cc:48-120 | Every init, read, reset and completion, in any order, keeps the invariant that ties position, total, end flag and readers to the bytes delivered. |
| ElementsUploadRuns.DeliversConcatenation | quic/chromium/src/net/base/elements_upload_data_stream.cc:59-149 | In every run the bytes delivered since the last init are a prefix of the concatenated elements, and the end is signalled exactly when all of it has been delivered. |
| ElementsUploadRuns.StuckRead | quic/chromium/src/net/base/elements_upload_data_stream.cc:100-126 | After a reader's error every further read reports that error and nothing else. |
| ElementsUploadRuns.ErrorSticks | quic/chromium/src/net/base/elements_upload_data_stream.cc:100-149 | Over any run without init or reset an error freezes the stream: no byte is delivered and no reader is touched. |
| ElementsUploadErrors.AnswerTakesEffect | quic/chromium/src/net/base/elements_upload_data_stream.cc:138-149 | An error moves nothing and is recorded; a count within what is left and what fits is taken in full. |
| ElementsUploadErrors.PassEndsAtError | quic/chromium/src/net/base/elements_upload_data_stream.cc:100-126 | A pass of the read loop ends at the first negative answer, which becomes the error; without one it ends only with a full buffer, exhausted readers or a late answer. |
| ElementsUploadErrors.ErrorMovesNothing | quic/chromium/src/net/base/elements_upload_data_stream.cc:138-149 | The failing call leaves readers and buffer as they were when it was made. |
| ElementsUploadErrors.StepRecordsError | quic/chromium/src/net/base/elements_upload_data_stream.cc:100-149 | The event that brings an error ends its read, which reports the bytes put in before it or else the error itself. |
| ElementsUploadErrors.ErrorExactly | quic/chromium/src/net/base/elements_upload_data_stream.cc:59-149 | In every run the stream has an error exactly if some read since the last initialisation was answered by one; then it is that answer, it was the last, and no reader has been called since. |
| ElementsUploadErrors.InitEndsAtError | quic/chromium/src/net/base/elements_upload_data_stream.cc:65-86 | Initialisation ends at the first negative answer, which is its result; without one every reader is asked once. |
| ElementsUploadErrors.InitReports | quic/chromium/src/net/base/upload_data_stream.cc:144-162 | The client is told the result, and the stream can be read only if it is success. |
| ElementsUploadErrors.LateInitReports | quic/chromium/src/net/base/elements_upload_data_stream.cc:88-98 | A late negative answer ends the initialisation with it. |
| ElementsUploadLeftovers.LeftoverDoesNothing | quic/chromium/src/net/base/elements_upload_data_stream.cc:59-63 | A completion from before a reset tells the client nothing and changes nothing but which leftovers are in flight. |
| ElementsUploadLeftovers.StepAlike | quic/chromium/src/net/base/elements_upload_data_stream.cc:59-149 | From two states that differ only in leftovers every event tells the client the same and leads to two such states. |
| ElementsUploadLeftovers.LeftoversAreInvisible | quic/chromium/src/net/base/elements_upload_data_stream.cc:59-149 | Leaving all leftovers out of any run changes no output, no delivered byte and nothing else in the stream. |
| ElementsUploadLeftovers.RunsDifferInLeftovers | quic/chromium/src/net/base/elements_upload_data_stream.cc:59-149 | Two runs that differ in leftovers inserted or left out anywhere have the same outputs and end in the same state without leftovers. |
| ElementsUploadSchedule.ReadSettles | quic/chromium/src/net/base/elements_upload_data_stream.cc:100-136 | However often a read is suspended, resuming it ends with the result of the uninterrupted read. |
| ElementsUploadSchedule.InitSettles | quic/chromium/src/net/base/elements_upload_data_stream.cc:65-98 | However often an initialisation is suspended, resuming it ends with the result of the uninterrupted one. |
| ElementsUploadSchedule.OperationSettles | quic/chromium/src/net/base/upload_data_stream.cc:48-90 | Every client operation settles, at one time and with one result, whichever completions are late. |
| ElementsUploadSchedule.OperationOnwards | quic/chromium/src/net/base/upload_data_stream.cc:48-120 | What an init, read or reset has done plus what is still to come of it is what it does when all answers come at once. |
| ElementsUploadSchedule.CompletionOnwards | quic/chromium/src/net/base/elements_upload_data_stream.cc:88-149 | An awaited completion takes nothing from and adds nothing to what was still to come. |
| ElementsUploadSchedule.ScheduleSoFar | quic/chromium/src/net/base/elements_upload_data_stream.cc:59-149 | At every moment of every schedule, with late answers, leftovers and completions nobody owes, what the client has heard and is still to hear is what it hears when all answers come at once. |
| ElementsUploadSchedule.ScheduleIsIrrelevant | quic/chromium/src/net/base/elements_upload_data_stream.cc:59-149 | Every script of inits, reads and resets gives the same outputs, the same bytes and the same state up to leftovers, whichever answers come late and whichever leftovers arrive. |
| ElementsUploadSchedule.EveryScriptSettles | quic/chromium/src/net/base/elements_upload_data_stream.cc:65-149 | Every script of inits, reads and resets can be carried out to its end: nothing stays pending for ever. |
| ElementsUploadSchedule.ReadsReachEnd | quic/chromium/src/net/base/elements_upload_data_stream.cc:100-126 | With readers that do not fail, enough reads of any positive length deliver everything and reach the end, in every schedule. |
| ElementsUploadStream.ElementsUploadDataStream.InitElements | quic/chromium/src/net/base/elements_upload_data_stream.cc:65-86 | The object's loop is the specified initialisation, from any element on. |
| ElementsUploadStream.ElementsUploadDataStream.OnInitElementCompleted | quic/chromium/src/net/base/elements_upload_data_stream.cc:88-98 | The completion continues with the next element or reports. |
| ElementsUploadStream.ElementsUploadDataStream.ReadElements | quic/chromium/src/net/base/elements_upload_data_stream.cc:100-126 | The object's loop is the specified read, including skipped empty elements, full buffers and suspension. |
| ElementsUploadStream.ElementsUploadDataStream.ProcessReadResult | quic/chromium/src/net/base/elements_upload_data_stream.cc:138-149 | The object's fields after a reader's answer are the specified ones. |
| ElementsUploadStream.ElementsUploadDataStream.OnReadElementCompleted | quic/chromium/src/net/base/elements_upload_data_stream.cc:128-136 | The completion consumes its answer and goes on reading. |
| ElementsUploadStream.ElementsUploadDataStream.RunCallback | quic/chromium/src/net/base/elements_upload_data_stream.cc:59-63 | A callback bound before the last reset has no effect. |
| ElementsUploadStream.ElementsUploadDataStream.Init | quic/chromium/src/net/base/upload_data_stream.cc:48-66 | Resets, then initialises and reports or waits. |
| ElementsUploadStream.ElementsUploadDataStream.Read | quic/chromium/src/net/base/upload_data_stream.cc:68-90 | Reads or reports the end, and reports or waits. |
| ChunkedUpload.StepKeeps | quic/chromium/src/net/base/chunked_upload_data_stream.cc:43-119 | Every append, read, reset and init keeps what has been delivered equal to the data up to the cursor, and a read waits only at the end of unfinished data. |
| ChunkedUpload.AppendCompletesWaitingRead | quic/chromium/src/net/base/chunked_upload_data_stream.cc:43-63 | The next append completes a waiting read once, with the start of the new data, and raises the end flag exactly if that was the last of it. |
| ChunkedUpload.ReadTakesAllThatFits | quic/chromium/src/net/base/chunked_upload_data_stream.cc:73-119 | A read waits only at the end of unfinished data; otherwise it fills its buffer or takes all there is. |
| ChunkedUpload.DoneExactly | quic/chromium/src/net/base/chunked_upload_data_stream.cc:43-63 | Over every run appending is finished exactly once the last chunk has been appended; no reset takes that back. |
| ChunkedUpload.RunCollects | quic/chromium/src/net/base/chunked_upload_data_stream.cc:43-63 | Over a run the data is everything appended, in order; resets lose nothing. |
| ChunkedUpload.DeliversAppended | quic/chromium/src/net/base/chunked_upload_data_stream.cc:43-119 | In every run the bytes delivered since the last reset are a prefix of everything appended, and the end is signalled only when appending is finished and all has been delivered. |
| ChunkedUpload.ReadsReachEnd | quic/chromium/src/net/base/chunked_upload_data_stream.cc:73-119 | Once appending is finished, enough reads deliver everything and reach the end. |
| ChunkedUpload.EndStays | quic/chromium/src/net/base/upload_data_stream.cc:68-90 | After the end, reads deliver nothing and change nothing. |
| ChunkedUploadStream.ChunkedUploadDataStream.CopyChunks | quic/chromium/src/net/base/chunked_upload_data_stream.cc:92-108 | The copying loop over chunks and offsets is one slice of the concatenated chunks. |
| ChunkedUploadStream.ChunkedUploadDataStream.ReadChunk | quic/chromium/src/net/base/chunked_upload_data_stream.cc:92-119 | The chunked read refines the read of one flat string. |
| ChunkedUploadStream.ChunkedUploadDataStream.AppendData | quic/chromium/src/net/base/chunked_upload_data_stream.cc:43-63 | Appending a chunk refines appending to the flat string, and fills the buffer of a waiting read. |
| ChunkedUploadStream.ChunkedUploadDataStream.Read | quic/chromium/src/net/base/upload_data_stream.cc:68-90 | The base class read over the chunked stream refines the flat read. |
| RobustMpc.BufferConservation | exp/abr/robust_mpc.py:91-110 | Along every plan, start buffer plus chunk times plus rebuffering equals final buffer plus download times. |
| RobustMpc.SimMonotone | exp/abr/robust_mpc.py:91-110 | More starting buffer or more bandwidth never increases a plan's rebuffering nor lowers its final buffer. |
| RobustMpc.ProductOrdered | exp/abr/robust_mpc.py:82 | The plans are enumerated without repetition in lexicographic order. |
| RobustMpc.ProductComplete | exp/abr/robust_mpc.py:82 | Every plan is enumerated. |
| RobustMpc.SearchFinds | exp/abr/robust_mpc.py:78-120 | The running maximum ends at the first plan of maximal reward, if that beats the start value. |
| RobustMpc.DecisionIsOptimal | exp/abr/robust_mpc.py:78-122 | The decision is the first quality of the earliest reward-maximal plan over the truncated horizon if that reward is positive, and 0 otherwise. |
| RobustMpc.BestRewardMonotone | exp/abr/robust_mpc.py:78-120 | For a fixed index and last quality the best reward never falls with more buffer or more bandwidth. |
| RobustMpcReward.WaitsForWorstDeficit | exp/abr/robust_mpc.py:99-105 | A plan waits for exactly the worst deficit of playable time along it, the largest over its prefixes or zero. |
| RobustMpcReward.PlanRewardExactly | exp/abr/robust_mpc.py:107-117 | A plan's reward is its bit rates, less 4.3 per second of its worst deficit, less its switching, with rates per thousand. |
| RobustMpcReward.WaitingBalances | exp/abr/robust_mpc.py:99-105 | The waiting is what downloads and final buffer take beyond start buffer and played time. |
| RobustMpcReward.RewardAtMostRates | exp/abr/robust_mpc.py:107-117 | No plan earns more than its bit rates, and just that exactly if it never waits and never switches. |
| RobustMpcReward.DownloadTimeExactly | exp/abr/robust_mpc.py:95-97 | Download time times bandwidth is the size in bits. |
| RobustMpcReward.ChunkSizesByNumber | exp/abr/video.py:42-45 | Chunks are numbered from one, number zero is the last, and outside there is nothing. |
| RobustMpcReward.ChunkTimesAddUp | exp/abr/video.py:56-69 | The times of consecutive chunks add up to the distance of their starts. |
| RobustMpcReward.LastChunkTime | exp/abr/video.py:62-69 | The last chunk counts as long as the one before it. |
| RobustMpcReward.LooksAhead | exp/abr/robust_mpc.py:83 | A plan looks five chunks ahead or up to the last; past the end the slice shortens from the back. |
| RobustMpcReward.LastOfIsSuffix | exp/abr/robust_mpc.py:70-71 | The samples used are the last five. |
| RobustMpcReward.HarmonicMeanExactly | exp/abr/robust_mpc.py:70 | The harmonic mean times the sum of inverses is the number of samples. |
| RobustMpcReward.FutureBandwidthExactly | exp/abr/robust_mpc.py:70-73 | The estimate times one plus the worst recent error is the harmonic mean, unless that falls below the floor of 0.1. |
| RobustMpcReward.PredictionErrorExactly | exp/abr/robust_mpc.py:62-67 | The error times the measured bandwidth is its distance from the last estimate, and zero before there is one. |
| RobustMpc.HarmonicMeanBounded | exp/abr/robust_mpc.py:70 | The harmonic mean lies between any bounds on the samples. |
| RobustMpc.FutureBandwidthBounded | exp/abr/robust_mpc.py:55-74 | The bandwidth planned with lies between the floor and the harmonic mean of the last five samples. |
| RobustMpc.SimulatePlan | exp/abr/robust_mpc.py:85-117 | The inner loop computes the reward of the plan's simulation. |
| RobustMpc.SearchPlans | exp/abr/robust_mpc.py:78-120 | The outer loop computes the decision and stays within the qualities of the video. |
| RobustMpc.Mpc.Process | exp/abr/robust_mpc.py:34-130 | The histories grow by the floored bandwidth, its prediction error and the harmonic mean, and the decision is the optimal one for them. |
| Backoff.JitterRange | quic/chromium/src/net/base/backoff_entry.cc:138-146 | Jitter takes off at most its fraction of the exponential delay and never adds to it. |
| Backoff.DurationIsCapped | quic/chromium/src/net/base/backoff_entry.cc:148-151 | The checked conversion equals the rounded delay capped at the largest 64-bit value. |
| Backoff.ReleaseTimeIsCapped | quic/chromium/src/net/base/backoff_entry.cc:159-184 | The checked sum equals the exact sum capped by the maximum backoff and the largest value, if and only if it does not overflow downwards. |
| Backoff.FailureReleaseExact | quic/chromium/src/net/base/backoff_entry.cc:34-62 | A counted failure moves the horizon to the capped delay from now, or leaves it if that is later. |
| Backoff.ReportKeeps | quic/chromium/src/net/base/backoff_entry.cc:34-62 | One report never moves the horizon back and keeps it within the configured bound. |
| Backoff.HorizonOverRuns | quic/chromium/src/net/base/backoff_entry.cc:34-184 | Over every run of reports under a clock that does not go back, the horizon never decreases, has reached the last report, and stays within the larger of the maximum backoff and the always-used initial delay. |
| Backoff.HorizonMonotone | quic/chromium/src/net/base/backoff_entry.cc:34-62 | At any two moments of a run from a fresh entry the later horizon is no earlier, and each is within the bound. |
| BackoffCounts.CountIsLargestExcess | quic/chromium/src/net/base/backoff_entry.cc:34-62 | Over every run from a fresh entry the failure count is the largest excess of failures over successes among the ends of the run. |
| BackoffCounts.CountDependsOnOutcomes | quic/chromium/src/net/base/backoff_entry.cc:34-62 | The failure count depends on the outcomes alone. |
| BackoffCounts.FailuresThenSuccesses | quic/chromium/src/net/base/backoff_entry.cc:34-62 | Failures and then successes leave the failures not made up for, and never fewer than none. |
| BackoffCounts.SuccessExactly | quic/chromium/src/net/base/backoff_entry.cc:43-61 | A success takes one failure back and moves the horizon to now, or to the initial delay from now if that always applies. |
| BackoffCounts.IgnoredFailureExactly | quic/chromium/src/net/base/backoff_entry.cc:121-135 | A failure that is to be ignored counts but asks for no delay. |
| BackoffCounts.DelaySequence | quic/chromium/src/net/base/backoff_entry.cc:121-146 | The ignored failures ask for nothing or the initial delay, the next for the initial delay, and each one more multiplies it. |
| BackoffCounts.JitterExactly | quic/chromium/src/net/base/backoff_entry.cc:138-146 | The delay is the base delay less the random share of the jitter factor. |
| BackoffCounts.DiscardExactly | quic/chromium/src/net/base/backoff_entry.cc:83-106 | Past its release an entry may go exactly once its lifetime and, if it remembers failures, the longest backoff have passed unused. |
| Backoff.DiscardStays | quic/chromium/src/net/base/backoff_entry.cc:83-106 | An entry that may be discarded may still be discarded later. |
| Backoff.DiscardWhileRejecting | quic/chromium/src/net/base/backoff_entry.cc:83-106 | An entry may be discarded while it still rejects requests if and only if less than a millisecond is left and it need not be kept at all. |
| Backoff.DiscardedTooEarly | quic/chromium/src/net/base/backoff_entry.cc:83-106 | A policy, an entry and a moment for which that happens. |
| BackoffSerializer.BackoffEntry.CalculateReleaseTime | quic/chromium/src/net/base/backoff_entry.cc:121-157 | The object's computation is the specified release time. |
| BackoffSerializer.BackoffEntry.InformOfRequest | quic/chromium/src/net/base/backoff_entry.cc:34-62 | The object's state after a report is the specified one. |
| BackoffSerializer.Deserialize | quic/chromium/src/net/base/backoff_entry_serializer.cc:43-95 | Rejects exactly the malformed values; otherwise replaying the failures and setting the release time gives the specified entry, whatever the random numbers. |
| BackoffSerializer.SecondsRoundTrip | quic/chromium/src/net/base/backoff_entry_serializer.cc:22-41 | Saving a duration as seconds and reading it back loses nothing. |
| BackoffSerializer.StoredForm | quic/chromium/src/net/base/backoff_entry_serializer.cc:22-41 | The stored list: version 1, the failure count, the remaining seconds, and the wall-clock release time. |
| BackoffSerializer.AcceptedExactly | quic/chromium/src/net/base/backoff_entry_serializer.cc:43-74 | Exactly which values are accepted, and which items the fields come from. |
| BackoffSerializer.RoundTrip | quic/chromium/src/net/base/backoff_entry_serializer.cc:22-95 | A saved entry comes back with its failure count and the smallest of the wall-clock remainder, the saved remainder and the cap, unless its absolute time is negative. |
| BackoffSerializer.RemainingNeverGrows | quic/chromium/src/net/base/backoff_entry_serializer.cc:69-93 | The remaining time after restoring never exceeds the saved one, whatever the wall clock did. |
| BackoffSerializer.ReleasePreserved | quic/chromium/src/net/base/backoff_entry_serializer.cc:69-93 | When both clocks advance together the release time is preserved if and only if the rest of it is within the cap. |
| BackoffSerializer.RewoundClock | quic/chromium/src/net/base/backoff_entry_serializer.cc:69-93 | When the wall clock goes back the saved remaining time is used. |
| ExpiringCache.Cache.Get | quic/chromium/src/net/base/expiring_cache.h:127-139 | Finds a valid entry, and removes and reports an expired one. |
| ExpiringCache.Cache.Compact | quic/chromium/src/net/base/expiring_cache.h:179-198 | Expired entries go first and alone if that makes room, others only until there is room, and each is reported. |
| ExpiringCache.Cache.Put | quic/chromium/src/net/base/expiring_cache.h:142-159 | Replaces in place, or compacts a full cache and inserts. |
| ExpiringCacheRuns.PutEvicts | quic/chromium/src/net/base/expiring_cache.h:142-198 | A put that makes room evicts only expired entries if there are any and otherwise exactly one, and keeps the capacity. |
| ExpiringCacheRuns.BoundNeedsCapacity | quic/chromium/src/net/base/expiring_cache.h:142-198 | Every put keeps the size within the capacity if and only if the capacity is at least one. |
| ExpiringCacheRuns.ZeroCapacityOverflows | quic/chromium/src/net/base/expiring_cache.h:142-159 | The concrete first put that overflows a cache of capacity zero. |
| ExpiringCacheRuns.NeverTooBig | quic/chromium/src/net/base/expiring_cache.h:127-198 | In every run the cache never exceeds a capacity of at least one. |
| ExpiringCacheRuns.GetReturnsLastPut | quic/chromium/src/net/base/expiring_cache.h:127-159 | In every run, what a get finds is the value last put for the key, and it is still valid. |
| ExpiringCacheRuns.NothingLeavesUnreported | quic/chromium/src/net/base/expiring_cache.h:127-206 | In every run and for every key, each insertion is still there, was cleared, or was reported to the handler exactly once. |
| NetworkNotifier.PurgeKeepsActive | quic/chromium/src/net/android/network_change_notifier_delegate_android.cc:255-281 | A purge leaves exactly the old networks that are active, sends one disconnection per removed network, and clears the default if and only if it was removed. |
| NetworkNotifier.StepReplays | quic/chromium/src/net/android/network_change_notifier_delegate_android.cc:149-281 | Each signal's notifications turn the old set of connected networks into the new one. |
| NetworkNotifier.RunReplays | quic/chromium/src/net/android/network_change_notifier_delegate_android.cc:149-281 | Over every run the notifications rebuild the set of connected networks without a duplicate connection or disconnection, and name only connected networks. |
| NetworkNotifier.ConnectionsAlternate | quic/chromium/src/net/android/network_change_notifier_delegate_android.cc:201-253 | Between two connections of one network observers are told of its disconnection. |
| NetworkNotifier.StepInforms | quic/chromium/src/net/android/network_change_notifier_delegate_android.cc:149-253 | Each signal keeps what observers infer about the default in agreement with the delegate. |
| NetworkNotifier.RunInforms | quic/chromium/src/net/android/network_change_notifier_delegate_android.cc:149-281 | In every reachable state a connected default other than the invalid handle is the last one announced and not lost since, even if it became the default before it connected; and an announced default that was not lost is connected. |
| NetworkNotifier.InformsExactly | quic/chromium/src/net/android/network_change_notifier_delegate_android.cc:149-281 | For any set of handles, every run whose networks stay in it keeps a connected default the announced one if and only if the invalid handle is not in the set. |
| NetworkNotifier.InvalidHandleUnannounced | quic/chromium/src/net/android/network_change_notifier_delegate_android.cc:239-253 | The run from an empty map that makes the invalid handle a connected, unannounced default. |
| NetworkNotifierLedger.KindIsLastSignalled | quic/chromium/src/net/android/network_change_notifier_delegate_android.cc:201-281 | After every run a network is connected with the kind of its last connect signal exactly if no later signal took it away. |
| NetworkNotifierLedger.ChangeNamesDefault | quic/chromium/src/net/android/network_change_notifier_delegate_android.cc:149-180 | The default is the one the last change of type named, unless it was lost since; the type is the one it gave, or unknown if out of range. |
| NetworkNotifierLedger.AnnouncedWhenUp | quic/chromium/src/net/android/network_change_notifier_delegate_android.cc:149-253 | A default is announced exactly when it comes to be both default and connected, and once. |
| NetworkNotifierLedger.RunPasses | quic/chromium/src/net/android/network_change_notifier_delegate_android.cc:149-237 | Over every run each change of type is passed on, and each warning about a connected network, and no others. |
| NetworkNotifierDelegate.Delegate.NotifyConnectionTypeChanged | quic/chromium/src/net/android/network_change_notifier_delegate_android.cc:149-180 | State and notifications after a change of type or default are the specified ones. |
| NetworkNotifierDelegate.Delegate.NotifyOfNetworkConnect | quic/chromium/src/net/android/network_change_notifier_delegate_android.cc:201-223 | Duplicate signals update the type and notify nobody; a delayed default is announced now. |
| NetworkNotifierDelegate.Delegate.NotifyOfNetworkSoonToDisconnect | quic/chromium/src/net/android/network_change_notifier_delegate_android.cc:225-237 | Warns only about a connected network and changes nothing. |
| NetworkNotifierDelegate.Delegate.NotifyOfNetworkDisconnect | quic/chromium/src/net/android/network_change_notifier_delegate_android.cc:239-253 | Clears the default even for an unknown network, and notifies only about a known one. |
| NetworkNotifierDelegate.Delegate.CollectDisconnected | quic/chromium/src/net/android/network_change_notifier_delegate_android.cc:263-278 | The nested loops list each connected network that is not active once. |
| NetworkNotifierDelegate.Delegate.NotifyPurgeActiveNetworkList | quic/chromium/src/net/android/network_change_notifier_delegate_android.cc:255-281 | The second loop is the disconnection of the listed networks one after another. |
| Interceptor.TablesRecord | dash/src/component/intercept.ts:248-306 | The tables hold exactly what the trace says: announced, answered, opened, bypassed and hooked. |
| Interceptor.SlotsHoldLatest | dash/src/component/intercept.ts:308-346 | A segment's slot holds exactly the latest request held back for it. |
| Interceptor.ServesExactlyDue | dash/src/component/intercept.ts:185-346 | A request is answered at most once, with its own segment's response, and exactly if it was held back and was sent after the response or was the latest when it arrived. |
| Interceptor.NativeExactlyUncaught | dash/src/component/intercept.ts:308-346 | A request goes to the network exactly if it was not held back. |
| Interceptor.AskedOnce | dash/src/component/intercept.ts:272-306 | Without a bypass the request callback is called once per segment, however often the player retries. |
| Interceptor.AskedExactly | dash/src/component/intercept.ts:272-306 | The request callback is called for a segment's first request and for each retry after a bypass, and for nothing else. |
| Interceptor.BypassLasts | dash/src/component/intercept.ts:248-306 | A trace in which one bypass lets two retries through. |
| InterceptorTables.Tables.OnIntercept | dash/src/component/intercept.ts:185-197 | Stores the response and answers the request held back, if there is one. |
| InterceptorTables.Tables.OpenRequest | dash/src/component/intercept.ts:272-306 | Hooks the request unless it is a retry under a bypass. |
| InterceptorTables.Tables.SendRequest | dash/src/component/intercept.ts:308-346 | Holds back, answers at once, or sends natively. |
| RequestPool.RunBalances | dash/src/controller/request.ts:82-134 | Over every run each segment up to the index is in flight, finished or lost, the counter is issued minus succeeded and at most the pool size, and between events the pool is full or everything is requested. |
| RequestPool.NeverStalls | dash/src/controller/request.ts:82-134 | With fewer losses than pool slots some request is in flight until all are issued, and when none is, everything not lost has finished. |
| RequestPool.RunOrderly | dash/src/controller/request.ts:82-134 | Over every run each segment is requested exactly once and in order, and answered at most once and after its request. |
| RequestPool.RendezvousIsExact | dash/src/apps/server_side.ts:165-221 | Over every run of pool, interceptor and player together each player request is answered at most once and exactly if it is due. |
| RequestPool.RefillIsRequest | dash/src/controller/request.ts:110-125 | The controller's recursion is the pool part of the joint run. |
| RequestPool.RequestController.Fill | dash/src/controller/request.ts:110-125 | The recursive request sends the next segments in order until the pool is full or all are issued. |
| RequestPool.RequestController.OnResourceSuccess | dash/src/controller/request.ts:100-105 | The response is passed on before its slot is reused. |
| AddressTracker.LinkMessageMeans | quic/chromium/src/net/base/address_tracker_linux.cc:408-437 | A link message of a watched interface puts it online exactly if it is up, lower-up, running and not the loopback; one without change but with the wireless attribute means nothing. |
| AddressTracker.AddressMessageMeans | quic/chromium/src/net/base/address_tracker_linux.cc:365-394 | An address message of a watched interface stores what it says, deprecated if it says so or its preferred lifetime is over. |
| AddressTracker.RemovalMeans | quic/chromium/src/net/base/address_tracker_linux.cc:395-451 | A removal of a watched interface's address or link removes it and nothing else. |
| AddressTracker.SpuriousPairIsOneChange | quic/chromium/src/net/base/address_tracker_linux.cc:377-394 | Of two messages about an address that differ only in the deprecated flag, without preferred lifetime, the second is no change. |
| AddressTracker.TunnelMeans | quic/chromium/src/net/base/address_tracker_linux.cc:472-481 | Tunnels are the interfaces whose name starts with tun. |
| AddressTracker.StopMeans | quic/chromium/src/net/base/address_tracker_linux.cc:352-364 | Nothing behind an end, an error or a malformed message is read. |
| AddressTracker.MessageFlagsExact | quic/chromium/src/net/base/address_tracker_linux.cc:341-457 | For one message each flag is raised exactly if the address map, the online links or the online tunnels changed. |
| AddressTracker.ClearFlagsMeanUnchanged | quic/chromium/src/net/base/address_tracker_linux.cc:341-457 | For any batch a clear flag means that what it watches is unchanged. |
| AddressTracker.BatchFlagsExact | quic/chromium/src/net/base/address_tracker_linux.cc:341-457 | A batch raises the address, link or tunnel flag if and only if some message before the stop says something that was not so before the batch. |
| AddressTracker.BatchChangesExactly | quic/chromium/src/net/base/address_tracker_linux.cc:341-457 | A batch changes the addresses, links or tunnels if and only if the last message about one of them says something new. |
| AddressTracker.RaisedMeansChangedExactly | quic/chromium/src/net/base/address_tracker_linux.cc:341-457 | For each flag, being raised means a change if and only if no message before the stop says anything new or the last one about something does. |
| AddressTracker.FlagWithoutChange | quic/chromium/src/net/base/address_tracker_linux.cc:365-406 | A batch whose flag is raised although nothing changed in the end. |
| AddressTracker.ReadIsOneBatch | quic/chromium/src/net/base/address_tracker_linux.cc:303-336 | A read of several buffers is one batch of the messages before each stop, so the exact conditions hold for reads. |
| AddressTracker.LastWriterWins | quic/chromium/src/net/base/address_tracker_linux.cc:341-457 | After a batch each address and each link is as the last message about it says, up to the message that stops the batch. |
| AddressTracker.HandlingTwiceIsOnce | quic/chromium/src/net/base/address_tracker_linux.cc:341-457 | Handling the same batch a second time changes nothing. |
| AddressTracker.IgnoredIsInvisible | quic/chromium/src/net/base/address_tracker_linux.cc:341-457 | Leaving out all messages about ignored interfaces gives the same state and the same flags. |
| AddressTracker.IgnoredNeverEnters | quic/chromium/src/net/base/address_tracker_linux.cc:280-287 | In no run does an ignored interface enter the address map or the online links. |
| AddressTracker.ReadFlags | quic/chromium/src/net/base/address_tracker_linux.cc:303-339 | A read of any number of buffers that raises no flag has changed nothing. |
| AddressTrackerObject.Tracker.IgnoreWirelessChange | quic/chromium/src/net/base/address_tracker_linux.cc:30-37 | Finds a wireless attribute in a message that changes nothing. |
| AddressTrackerObject.Tracker.HandleMessage | quic/chromium/src/net/base/address_tracker_linux.cc:341-457 | The loop over a buffer is the specified batch. |
| AddressTrackerObject.Tracker.ReadMessages | quic/chromium/src/net/base/address_tracker_linux.cc:303-336 | The flags start clear and collect over all buffers of a read. |
| Festive.MovesTowardsTarget | dash/src/algo/festive.ts:111-169 | For any scores the quality stays on the ladder, moves at most one level, towards the target and never past it. |
| Festive.UpSwitchIsPatient | dash/src/algo/festive.ts:111-169 | In every run, for any scores, an up-switch from level q follows at least q + 1 decisions in a row at q with a higher target. |
| Festive.CountExactly | dash/src/algo/festive.ts:120-158 | In every run the count is the number of decisions in a row up to now that kept the quality and aimed higher. |
| Festive.PatientMeansMore | dash/src/algo/festive.ts:17 | A level below ten waits for one more decision than its number, and one from ten on for ever. |
| Festive.StaysOnLadder | dash/src/algo/festive.ts:111-169 | In every run the quality is one of the ladder's. |
| Festive.UpSwitchExactly | dash/src/algo/festive.ts:69-169 | With the rule's own scores an up-switch happens if and only if the target is higher, the patience is used up, and the ladder step outweighs the recent changes. |
| Festive.DownSwitchExactly | dash/src/algo/festive.ts:69-169 | With the rule's own scores a down-switch happens if and only if the target is lower, the bandwidth is not zero, and twelve times the ladder step exceeds the power of two of the recent changes times the divisor. |
| Festive.RestlessNeverClimbs | dash/src/algo/festive.ts:79-100 | Four changes among the last five segments are the most there can be, and rule out every up-switch. |
| Festive.RecentChangesCounted | dash/src/algo/festive.ts:79-97 | The changes counted are those between neighbours among the last five indices. |
| FestiveObject.Festive.SelectQuality | dash/src/algo/festive.ts:54-63 | The downward loop finds the best quality within the bitrate, and the lowest if there is none. |
| FestiveObject.Festive.CountChanges | dash/src/algo/festive.ts:79-97 | The loop counts the changes of logged quality within the horizon. |
| FestiveObject.Festive.GetDecision | dash/src/algo/festive.ts:111-169 | Each decision is the specified one for the selected target and the rule's own scores, and is logged. |

## Left out

- Backoff.HorizonOverRuns: does not model 32-bit wrap-around of the failure count, which needs two thousand million reports.
- Backoff.JitterRange: floating-point rounding, infinities and NaN are not modelled; delays are reals.
- RobustMpc.SearchPlans: floating-point rounding is not modelled; rewards are reals, and the first reward computed before the search, which is only logged, is left out.
- Festive.UpSwitchExactly: floating-point rounding is not modelled; a zero divisor is, as two equal infinite scores.
- UrlUnescape.UnescapeUTF8CharacterAtIndex: the decoder library is not part of this model; valid characters are those of section 4 of RFC 3629.
- Backoff.DiscardWhileRejecting: the conversion to whole milliseconds belongs to a library that is not part of this model and is taken to truncate towards zero.
- BackoffSerializer.Deserialize: the conversion between numbers and their decimal strings belongs to a library that is not part of this model; the value holds the numbers, or marks them malformed.
- ElementsUploadRuns.DeliversConcatenation: the concrete element readers are left out; a reader gives some of its next bytes or an error, at once or later, as its interface requires.
- ElementsUploadSchedule.ScheduleIsIrrelevant: an operation that is cut short by a reset or a new initialisation is compared up to the cut, by `ScheduleSoFar`, because how many answers it consumed before is part of the schedule.
- ExpiringCache.Cache.Compact: the order in which the map is walked is left open; the statements hold for every order.
- NetworkNotifierDelegate.Delegate.CollectDisconnected: the order in which the map is walked is left open.
- InterceptorTables.Tables.OpenRequest: a player request object is opened once and sent once, and the parsing of segment numbers out of URLs is left out.
- RequestPool.RunBalances: an abort and a failure both leave the counter as it is and appear as one kind of loss.
- AddressTracker.LastWriterWins: the decoding of netlink bytes is left out; messages come decoded, and interface names are a fixed function.
- `UnescapeAndDecodeUTF8URLComponentWithAdjustments` and `DataURL::Parse` rest on libraries outside the repository.
- The current connection type of the address tracker, which comes from `GetNetworkListImpl`, and its callbacks.
- The bandwidth notifications of the network delegate, which keep no state.
- The interceptor's progress events and the header requests, which only forward values.
- Key store, traffic statistics, cellular signal and negotiate authentication under `net/android`: calls into Java.
- Experiments, plots, learned models, crawler, sockets and player hooks: input, output and library glue.
- Datagram buffers, address lists, authentication records and feature flags, which hold values and move no state.
