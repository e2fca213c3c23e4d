# Persistence windows and the integer block codec, in Dafny

This project models two parts of influxdb and proves properties of them.

**Persistence windows** (`persistence_windows/src/persistence_windows.rs`).
A partition records which of its unpersisted writes fall in which window.
Writes join the *open* window. A window open for the closed-window period
(at most 30 seconds) moves to the *closed* queue. A closed window older than
the late-arrival period folds into the single *persistable* window, unless
a flush handle has frozen it. A flush handle names the persistable window's
newest row timestamp, the number of closed windows present, and the
sequence ranges that will stay unpersisted. Flushing drops the persistable
window and truncates those closed windows to rows after the timestamp. The
state also answers queries: the sequence ranges per sequencer, summaries,
the minimum window, the timestamp extremes and the persistable row count.

**Integer block codec** (`src/encoders/integer.rs`).
A block of `i64` values is first turned into zig-zag encoded wrapping
deltas. It is then written in one of three layouts:
- run-length encoded, when there are more than two values and every delta
  after the first is the same;
- uncompressed, when a delta exceeds the simple8b maximum;
- simple8b packed, otherwise.

The decoder reads the layout from the block's first nibble.

Files:
- `common.dfy`: `Option`, `Result`, `Max`, `Min`.
- `clock.dfy`: `Time` as the `i64` nanosecond range, `Duration`, and the
  checked clock operations.
- `window.dfy`: `Window` and its operations.
- `chain.dfy`: the ordering invariant of a run of windows, truncation, and
  the first-window search.
- `persistence.dfy`: `PersistenceWindows` and its operations, the invariant
  `Valid`, and `FlushHandle`.
- `persistence_proofs.dfy`: lemmas relating the operations.
- `persistence_examples.dfy`: the source's unit tests, restated as lemmas.
- `persistence_findings.dfy`: `flush` and `new` as written, with the inputs
  that show their defects.
- `words.dfy`: 64-bit words, two's-complement reinterpretation, wrapping,
  and big-endian bytes.
- `zigzag.dfy`, `varint.dfy`: zig-zag and LEB128 varints.
- `integer_codec.dfy`: the encoder and decoders.
- `integer_codec_proofs.dfy`: the round trips.
- `integer_codec_findings.dfy`: `decode_simple8b` as written.

Where the source asserts on its caller's arguments, the model returns an
error: in `add_range`, rows out of order or a sequence number that is not
increasing. Where it asserts on its own bookkeeping, the model has a
precondition instead: the window merges, and the flush handle's
consistency. The invariant `Valid` proves those preconditions always hold.

## Model

| member | source | states |
|---|---|---|
| Clock.AsSecs | persistence_windows/src/persistence_windows.rs:117 | `Duration::as_secs` is the number of whole seconds, the fraction dropped |
| Clock.CheckedDurationSince | persistence_windows/src/persistence_windows.rs:550-561 | the duration since an earlier time exists exactly when that time is not later, and adds back to `now` |
| Clock.CheckedAdd | persistence_windows/src/persistence_windows.rs:360 | adding a duration succeeds exactly when the sum stays within `Time::MAX`, and is then the sum |
| Windows.Single | persistence_windows/src/persistence_windows.rs:466-472 | a new window records no sequencer without a sequence, and otherwise exactly that sequencer with the range `number..number` |
| Windows.New | persistence_windows/src/persistence_windows.rs:459-482 | `Window::new` takes the write time as its first and last write, keeps the row count and row range, and is well formed exactly when `min_time <= max_time` |
| Windows.MergeSequencers | persistence_windows/src/persistence_windows.rs:535-546 | merging the sequencer maps records every sequencer of either window, with the first map's minimum where it has one and the second map's maximum where it has one |
| Windows.AddRange | persistence_windows/src/persistence_windows.rs:486-520 | `Window::add_range` moves the last write time, adds the row count, widens the row range to exactly the larger one, and for the write's sequencer keeps the old minimum (or starts at the number), sets the number as maximum, and leaves every other sequencer untouched |
| Windows.AddWindow | persistence_windows/src/persistence_windows.rs:523-547 | `add_window` keeps the first write time, takes the other's last write, sums the rows, takes the wider row range, and records the sequencers of both: each keeps the first window's minimum if it had one, and takes the other's maximum if it has one |
| Windows.AddRangeIsAddWindow | persistence_windows/src/persistence_windows.rs:486-547 | adding a range equals merging in the window `Window::new` would make of it |
| Windows.AddWindowWellFormed | persistence_windows/src/persistence_windows.rs:523-547 | merging a later well-formed window into a well-formed one gives a well-formed window |
| Windows.AddWindowOrder | persistence_windows/src/persistence_windows.rs:523-547 | a merged window stays after every window both parts follow, and before every window both parts precede |
| Windows.PersistableByAge | persistence_windows/src/persistence_windows.rs:550-561 | a window is persistable exactly when it is at least the late-arrival period old; an older window is persistable whenever a younger one is; a persistable window is closeable when the closing period is the shorter |
| Chains.Trim | persistence_windows/src/persistence_windows.rs:361-369 | truncating the counted windows never adds a window |
| Chains.TrimConcat | persistence_windows/src/persistence_windows.rs:361-370 | truncation works window by window, so truncating a concatenation truncates each part in order |
| Chains.TrimKeepsLive | persistence_windows/src/persistence_windows.rs:361-369 | every window whose newest row is at or after `new_min` survives truncation, with its oldest row raised to `new_min` |
| Chains.TrimOnlyLive | persistence_windows/src/persistence_windows.rs:361-369 | every window truncation yields has a row at or after `new_min` and is such a raised survivor |
| Chains.TrimMembers | persistence_windows/src/persistence_windows.rs:361-369 | a window survives truncation, with its oldest row raised to `new_min`, exactly when its newest row is at or after `new_min`, and every surviving window is such a window |
| Chains.TrimRaises | persistence_windows/src/persistence_windows.rs:361-369 | every window kept after truncation has its row range at or after `new_min` |
| Chains.TrimExtremes | persistence_windows/src/persistence_windows.rs:361-369 | truncation keeps every window when all reach `new_min`, and drops all when none does |
| Chains.TrimRows | persistence_windows/src/persistence_windows.rs:361-369 | truncation never increases the row count |
| Chains.TrimChain | persistence_windows/src/persistence_windows.rs:361-370 | truncating the front of an ordered run of windows keeps the run ordered and well formed |
| Chains.TrimBounded | persistence_windows/src/persistence_windows.rs:361-369 | truncation keeps every window within the last write time and the recorded sequence maxima |
| Chains.FirstMinFound | persistence_windows/src/persistence_windows.rs:279-290 | the search finds a minimum exactly when some window newer than the flush time holds the sequencer, and the minimum is that window's |
| Chains.FirstMinIsFirst | persistence_windows/src/persistence_windows.rs:279-290 | when window `i` qualifies, the search succeeds with the minimum of a qualifying window no later than `i` |
| Chains.FirstMinLeast | persistence_windows/src/persistence_windows.rs:279-295 | in an ordered run, the first minimum found is the least among qualifying windows, and it does not exceed the recorded maximum (the assertion at line 293) |
| Chains.FirstMinAfterTrim | persistence_windows/src/persistence_windows.rs:283-287 | searching the windows truncated at `flush_time + 1` finds what searching past `flush_time` found |
| Chains.FirstMinNothingNewer | persistence_windows/src/persistence_windows.rs:283-287 | no window is newer than a `Time::MAX` flush time |
| Chains.LeadingPersistableIsAll | persistence_windows/src/persistence_windows.rs:432-438 | in an ordered run, the rows of the leading persistable windows are the rows of all persistable windows |
| Chains.NoPersistableRows | persistence_windows/src/persistence_windows.rs:432-438 | with no persistable window there are no persistable rows |
| Persistence.New | persistence_windows/src/persistence_windows.rs:111-133 | corrected: a new state is valid and empty, not frozen, has the closing period `min(late, 30s)`, first and last write `now`, and no sequencer |
| Persistence.SetLateArrivalPeriod | persistence_windows/src/persistence_windows.rs:136-139 | changing the late-arrival period keeps the state valid and resets the closing period to `min(late, 30s)`, nothing else |
| Persistence.MarkSeenAndPersisted | persistence_windows/src/persistence_windows.rs:144-155 | every checkpoint sequencer is recorded, no recorded maximum drops, each maximum is at least the checkpoint's, each comes from the state or the checkpoint, and the windows do not change |
| Persistence.MoveOpen | persistence_windows/src/persistence_windows.rs:321-324 | the open window moves to the back of the closed queue, the window sequence is unchanged, and a valid state stays valid |
| Persistence.CloseOpen | persistence_windows/src/persistence_windows.rs:224-232 | the open window closes exactly when it is closeable, and the window sequence is unchanged |
| Persistence.PersistKeeps | persistence_windows/src/persistence_windows.rs:238-251 | folding closed windows into the persistable one keeps the chain, the bounds and the row total |
| Persistence.PersistTakes | persistence_windows/src/persistence_windows.rs:238-251 | the fold takes exactly a persistable prefix of the closed queue, stops at the first window that is not persistable, and yields no persistable window only when there was none and nothing was taken |
| Persistence.RotateImpl | persistence_windows/src/persistence_windows.rs:223-252 | rotation keeps the state valid and the row total, closes the open window exactly when closeable, leaves a frozen persistable window and the existing closed prefix alone, otherwise leaves no persistable window at the front of the closed queue, and never removes the persistable window; while frozen it only closes the open window |
| Persistence.RotateTakes | persistence_windows/src/persistence_windows.rs:238-251 | when not frozen, rotation takes exactly the leading run of persistable windows from the closed queue (after closing the open window) and leaves the rest of the queue as it was |
| Persistence.AddRange | persistence_windows/src/persistence_windows.rs:167-216 | refused exactly for a reversed row range (reported first) or a stale sequence number; otherwise the state stays valid, the write time is `max(last, now)`, the sequencer's maximum becomes the number, rows grow by the count, the open window holds the write, and a frozen prefix is kept |
| Persistence.SequencerNumbersInner | persistence_windows/src/persistence_windows.rs:262-303 | one entry per recorded sequencer, whose maximum is the recorded maximum |
| Persistence.FlushHandleImpl | persistence_windows/src/persistence_windows.rs:317-336 | no handle and no change while frozen; otherwise the open window is closed and rotated, rows are kept, a handle exists exactly when a persistable window does, and it freezes the state, counts every closed window, carries the persistable window's newest row, and carries the ranges with the persistable window skipped; the resulting state is the open window moved, then rotated, then frozen exactly when a handle is returned |
| Persistence.FlushedClosedEffect | persistence_windows/src/persistence_windows.rs:359-374 | corrected: the closed queue after a flush stays ordered and bounded, ends with the windows closed after the handle, has only rows after the timestamp in the counted ones, and loses rows at most |
| Persistence.FlushedCounted | persistence_windows/src/persistence_windows.rs:359-374 | corrected: in front of the windows closed since the handle, a flush keeps each counted window with a row after the timestamp, its oldest row raised past the timestamp, and nothing else; at `Time::MAX` it keeps none of them |
| Persistence.Flush | persistence_windows/src/persistence_windows.rs:339-375 | corrected: a flush keeps the state valid, removes the persistable window and the freeze, keeps every window closed since the handle, leaves counted windows only with rows after the timestamp, and drops at least the persistable window's rows |
| Persistence.FlushKeeps | persistence_windows/src/persistence_windows.rs:359-374 | corrected: in front of the windows closed since the handle, a flush keeps exactly the counted windows with a row after the timestamp, each with its oldest row raised past it; at `Time::MAX` it keeps none |
| Persistence.Summaries | persistence_windows/src/persistence_windows.rs:396-404 | one summary per window, oldest first, copying its times and rows |
| Persistence.IsEmpty | persistence_windows/src/persistence_windows.rs:407-409 | empty exactly when there is no persistable, closed or open window |
| PersistenceProofs.MarkSeenKeepsValid | persistence_windows/src/persistence_windows.rs:144-155 | replaying a checkpoint keeps the state valid |
| PersistenceProofs.LastWriteNeverDecreases | persistence_windows/src/persistence_windows.rs:174-175 | an accepted write is made at `max(time_of_last_write, now)`, so the clock going back moves nothing back |
| PersistenceProofs.RotateLeavesNothingPersistable | persistence_windows/src/persistence_windows.rs:223-252 | after rotating an unfrozen state, no closed or open window is persistable |
| PersistenceProofs.HandleSurvives | persistence_windows/src/persistence_windows.rs:74-90 | while a handle is outstanding, writes, rotation, replay and a new late-arrival period keep it valid for flushing, and no second handle is issued |
| PersistenceProofs.SequencerNumbersMeaning | persistence_windows/src/persistence_windows.rs:262-303 | each sequencer's range has the recorded maximum; its minimum is absent exactly when no searched window newer than the flush time holds the sequencer; otherwise it is the least minimum among those windows, belongs to one of them, and is at most the maximum |
| PersistenceProofs.UnseenSequencerHasNoMinimum | persistence_windows/src/persistence_windows.rs:255-303 | a sequencer recorded but in no window reports no minimum and its maximum |
| PersistenceProofs.FlushedFirstMin | persistence_windows/src/persistence_windows.rs:339-375 | after flushing a fresh handle, the first window holding a sequencer is the first one newer than the flushed timestamp |
| PersistenceProofs.FlushMatchesCheckpoint | persistence_windows/src/persistence_windows.rs:1513-1548 | flushing a handle straight after taking it leaves exactly the sequence ranges its checkpoint predicted, in every valid state |
| PersistenceProofs.FlushedNumbers | persistence_windows/src/persistence_windows.rs:317-375 | the same for any valid state with no open window whose handle counts every closed window and carries the ranges with the persistable window skipped |
| PersistenceProofs.PersistableRowCountCountsAll | persistence_windows/src/persistence_windows.rs:432-438 | `persistable_row_count` equals the rows of all persistable windows |
| PersistenceProofs.SummedRowsOf | persistence_windows/src/persistence_windows.rs:396-404 | summaries carry the windows' row counts |
| PersistenceProofs.SummariesInWriteOrder | persistence_windows/src/persistence_windows.rs:396-404 | summaries come in write order, each with ordered ranges, positive rows and times no later than the last write, and they sum to the rows held |
| PersistenceProofs.MinimumUnpersistedMeaning | persistence_windows/src/persistence_windows.rs:386-419 | the minimum age and sequence ranges exist exactly when the state is not empty; both come from one and the same window, the age being that window's first write and the ranges its sequencer numbers; that first write is the earliest of all windows; the reported sequence numbers are all below those of later windows |
| PersistenceProofs.LeastMinTimeIsLeast | persistence_windows/src/persistence_windows.rs:422-424 | the least row timestamp is at most every window's and is one window's |
| PersistenceProofs.GreatestMaxTimeIsGreatest | persistence_windows/src/persistence_windows.rs:427-429 | the greatest row timestamp is at least every window's and is one window's |
| PersistenceProofs.UnpersistedTimestampsMeaning | persistence_windows/src/persistence_windows.rs:421-429 | the minimum and maximum unpersisted timestamps exist exactly when the state is not empty, and are the least and greatest row timestamps held |
| PersistenceExamples.TimeGoesBackwards | persistence_windows/src/persistence_windows.rs:587-606 | a write at 1ns then one at 0ns are both accepted, and the second is taken at 1ns |
| PersistenceExamples.MinTimeAfterMaxTimeRefused | persistence_windows/src/persistence_windows.rs:608-619 | a write with its oldest row after its newest is refused as such |
| PersistenceExamples.StaleSequenceRefused | persistence_windows/src/persistence_windows.rs:184-193 | a write whose number does not exceed its sequencer's maximum is refused |
| PersistenceExamples.MarkSeenExample | persistence_windows/src/persistence_windows.rs:1550-1583 | the two replayed checkpoints of the test leave ranges `1: (None, 2)` and `2: (None, 3)` |
| PersistenceExamples.FlushMinMaxFirstWrite | persistence_windows/src/persistence_windows.rs:1587-1593 | the test's first write opens the expected window |
| PersistenceExamples.FlushMinMaxFirstRotation | persistence_windows/src/persistence_windows.rs:1594-1600 | at 30s rotation closes the first window and makes it the persistable window |
| PersistenceExamples.FlushMinMaxSecondWrite | persistence_windows/src/persistence_windows.rs:1594-1600 | at 30s the first window becomes persistable and the second write opens a window |
| PersistenceExamples.FlushMinMaxRotation | persistence_windows/src/persistence_windows.rs:1602-1603 | at 33s the second window closes but is too young to persist |
| PersistenceExamples.FlushMinMaxSequencerNumbers | persistence_windows/src/persistence_windows.rs:1603 | past a `Time::MAX` flush time no window holds the sequencer |
| PersistenceExamples.FlushMinMaxHandle | persistence_windows/src/persistence_windows.rs:1602-1604 | the handle counts one closed window and carries `Time::MAX` |
| PersistenceExamples.FlushMinMaxTimestamp | persistence_windows/src/persistence_windows.rs:1585-1613 | the handle and its checkpoint carry `Time::MAX`, and the flush leaves no closed and no persistable window |
| PersistenceFindings.FlushAsWritten | persistence_windows/src/persistence_windows.rs:339-375 | as written, a flush with timestamp `Time::MAX` drops every closed window; below it, it agrees with `Flush` |
| PersistenceFindings.FlushAsWrittenDropsLaterWindows | persistence_windows/src/persistence_windows.rs:371-374 | with a `Time::MAX` handle and windows closed after it, the as-written flush loses their rows and the corrected one keeps them |
| PersistenceFindings.ScenarioFirstWrite | persistence_windows/src/persistence_windows.rs:167-216 | the scenario's first write opens its window |
| PersistenceFindings.ScenarioHandle | persistence_windows/src/persistence_windows.rs:317-336 | at 30s the handle carries `Time::MAX` and counts no closed window |
| PersistenceFindings.ScenarioSecondWrite | persistence_windows/src/persistence_windows.rs:167-216 | a write behind the handle opens a new window |
| PersistenceFindings.ScenarioThirdWrite | persistence_windows/src/persistence_windows.rs:223-252 | the next write closes that window behind the frozen persistable one |
| PersistenceFindings.ScenarioLosesWrite | persistence_windows/src/persistence_windows.rs:371-374 | after the as-written flush the first unpersisted number is 3, skipping the unpersisted 2; the corrected flush reports 2 |
| PersistenceFindings.NewAsWritten | persistence_windows/src/persistence_windows.rs:116-117 | as written, `new` fails when the closing period has no whole second; when it succeeds it is `New` |
| PersistenceFindings.NewAsWrittenPanicsBelowOneSecond | persistence_windows/src/persistence_windows.rs:116-117 | the division by zero happens exactly for late-arrival periods under one second, for which `New` is still valid and empty |
| Words.AsI64 | src/encoders/integer.rs:97-99 | `u as i64` is `u` below 2^63 and `u - 2^64` above |
| Words.AsU64 | src/encoders/integer.rs:90-92 | `v as u64` is `v` when non-negative and `v + 2^64` when negative |
| Words.ReinterpretRoundTrip | src/encoders/integer.rs:87-99 | the two casts are inverse |
| Words.UnsignedSubIsSignedSub | src/encoders/integer.rs:28 | `wrapping_sub` on the unsigned readings, read back as `i64`, is the wrapped signed difference |
| Words.WrapDifferenceRecovers | src/encoders/integer.rs:154 | adding the wrapped difference back to `a` with wrap-around gives `b` |
| Words.BigEndianRoundTrip | src/encoders/integer.rs:61 | reading back `n` big-endian bytes of a value below 256^n gives the value |
| Words.BytesRoundTrip | src/encoders/integer.rs:61 | `u64::from_be_bytes(to_be_bytes(u)) == u` |
| Words.WordsRoundTrip | src/encoders/integer.rs:60-62 | splitting concatenated big-endian words gives the words back |
| ZigZag.Encode | src/encoders/integer.rs:77-79 | a non-negative `v` becomes `2v`, and a negative one `-2v - 1` |
| ZigZag.Decode | src/encoders/integer.rs:83-85 | an even `u` becomes `u / 2`, and an odd one `-(u / 2) - 1` |
| ZigZag.RoundTrip | src/encoders/integer.rs:73-85 | zig-zag decoding and encoding are inverse both ways |
| ZigZag.EncodeInjective | src/encoders/integer.rs:77-79 | distinct values encode differently |
| ZigZag.Examples | src/encoders/integer.rs:221-232 | the values of the zig-zag test |
| Varint.Encode | src/encoders/integer.rs:115-120 | a varint has at least one byte |
| Varint.EncodeShape | src/encoders/integer.rs:115-120 | only the last byte of a varint lacks the continuation bit |
| Varint.Decode | src/encoders/integer.rs:169-177 | decoding never consumes more bytes than given |
| Varint.DecodeStopsAtFirstTerminator | src/encoders/integer.rs:169-177 | decoding consumes nothing exactly when no byte lacks the continuation bit, and otherwise stops at the first one that does |
| Varint.RoundTrip | src/encoders/integer.rs:115-120 | a varint followed by anything decodes to its value, consuming exactly its bytes |
| IntegerCodec.Deltas | src/encoders/integer.rs:25-33 | one delta per value |
| IntegerCodec.MaxOfIsMaximum | src/encoders/integer.rs:29-31 | the running maximum bounds every delta and is one of them |
| IntegerCodec.ComputeDeltas | src/encoders/integer.rs:25-33 | the backward loop computes the deltas and the maximum of all but the first |
| IntegerCodec.EncodeRle | src/encoders/integer.rs:106-122 | an RLE body has at least 11 bytes and a zero first byte |
| IntegerCodec.EncodeAll | src/encoders/integer.rs:19-23 | the block is empty exactly when the input is |
| IntegerCodec.EncodeAllFormat | src/encoders/integer.rs:19-71 | the header nibble is RLE exactly when the deltas after the first are constant, uncompressed exactly when otherwise some delta exceeds the simple8b maximum, and an uncompressed block has 8 bytes per value |
| IntegerCodec.DecodeUncompressed | src/encoders/integer.rs:140-159 | an uncompressed body is refused exactly when empty or not a multiple of 8 bytes, and gives one value per 8 bytes |
| IntegerCodec.RleRun | src/encoders/integer.rs:187-192 | the run has `count` values |
| IntegerCodec.DecodeRle | src/encoders/integer.rs:163-194 | a body under 8 bytes is refused as such; a decoded run needs at least 10 bytes and starts with the stored first value |
| IntegerCodec.DecodeSimple8b | src/encoders/integer.rs:196-215 | corrected: refused exactly under 8 bytes; otherwise the stored first value followed by one value per unpacked delta |
| IntegerCodec.DecodeAll | src/encoders/integer.rs:125-138 | an empty block decodes to nothing; a nibble above 2 is refused; otherwise the nibble picks the body decoder |
| IntegerCodecProofs.DeltaMeaning | src/encoders/integer.rs:26-33 | the first delta decodes to the first value, and each later one to the wrapped difference from its predecessor |
| IntegerCodecProofs.RleChosenIffConstantStep | src/encoders/integer.rs:35-51 | RLE is chosen exactly when there are more than two values and every step equals the first |
| IntegerCodecProofs.RleRunClosedForm | src/encoders/integer.rs:187-192 | the k-th value of a run is the first plus k deltas, wrapped |
| IntegerCodecProofs.PrefixSumsRecoverValues | src/encoders/integer.rs:149-157 | summing the decoded deltas from 0 with wrap-around gives back the values |
| IntegerCodecProofs.RleRunIsValues | src/encoders/integer.rs:35-50 | when RLE is chosen, the run of the first value and step is the input |
| IntegerCodecProofs.DecodeRleBadDelta | src/encoders/integer.rs:169-172 | a body of at least 8 bytes is refused for its delta exactly when no later byte ends a varint |
| IntegerCodecProofs.RleRunNext | src/encoders/integer.rs:183-191 | each value of a run is the previous one plus the delta, with wrapping |
| IntegerCodecProofs.RleRunSteps | src/encoders/integer.rs:188-191 | throughout a run, each value is the previous one plus the delta, with wrapping |
| IntegerCodecProofs.DecodeRleRun | src/encoders/integer.rs:163-194 | on any body, trailing bytes included, a decoded run has the decoded count (modulo 2^64) of values, starts from the stored first value, and steps by the decoded delta, with wrapping |
| IntegerCodecProofs.DecodeRleValue | src/encoders/integer.rs:163-194 | the `k`th decoded value is the first plus `k` decoded deltas, with wrapping |
| IntegerCodecProofs.DecodeRleBody | src/encoders/integer.rs:163-194 | an RLE body of value, delta and count decodes to the run they describe |
| IntegerCodecProofs.RleBlockLayout | src/encoders/integer.rs:45-49 | an RLE block is the header, the first value's bytes, and the delta and count varints |
| IntegerCodecProofs.RoundTripRle | src/encoders/integer.rs:35-50 | an RLE block decodes to its input |
| IntegerCodecProofs.RoundTripUncompressed | src/encoders/integer.rs:53-63 | an uncompressed block decodes to its input |
| IntegerCodecProofs.RoundTripSimple8b | src/encoders/integer.rs:66-70 | a simple8b block decodes to its input when the packer round-trips the deltas |
| IntegerCodecProofs.RoundTrip | src/encoders/integer.rs:19-71 | every block decodes to its input, given a packer that round-trips |
| IntegerCodecProofs.UncompressedExample | src/encoders/integer.rs:246-261 | the uncompressed test's input is stored uncompressed in 33 bytes and decodes back |
| IntegerCodecProofs.RleExample | src/encoders/integer.rs:283-286 | the "delta negative" RLE test's input is stored as RLE and decodes back |
| IntegerCodecFindings.CheckedSums | src/encoders/integer.rs:209-213 | the running sums with a plain `+=`, one per delta, when none overflows |
| IntegerCodecFindings.CheckedSumsAreWrappingSums | src/encoders/integer.rs:209-213 | without overflow, `+=` gives the wrapping sums |
| IntegerCodecFindings.DecodeSimple8bAsWritten | src/encoders/integer.rs:196-215 | as written: refused under 9 bytes; otherwise appends the first value and one value per unpacked delta to `dst` |
| IntegerCodecFindings.DecodeAllAsWritten | src/encoders/integer.rs:125-138 | as written, appending to `dst`; it agrees with `DecodeAll` off the simple8b path |
| IntegerCodecFindings.AsWrittenAgreesWithoutDefects | src/encoders/integer.rs:196-215 | with at least 9 bytes, an empty `dst` and no overflow, the as-written decoder agrees with the corrected one |
| IntegerCodecFindings.TwoValueBlock | src/encoders/integer.rs:25-33 | the layout of a two-value simple8b block |
| IntegerCodecFindings.OverflowAsWritten | src/encoders/integer.rs:211 | `[i64::MIN, i64::MAX]` is stored as simple8b and, as written, overflows on decode |
| IntegerCodecFindings.OverflowCorrected | src/encoders/integer.rs:211 | with a wrapping add it decodes back |
| IntegerCodecFindings.SingleValueAsWritten | src/encoders/integer.rs:197-199 | a one-value simple8b block has 9 bytes and, as written, is refused |
| IntegerCodecFindings.SingleValueCorrected | src/encoders/integer.rs:197-199 | with the 8-byte bound it decodes back |
| IntegerCodecFindings.StaleStartAsWritten | src/encoders/integer.rs:209 | decoding `[0, 1]` after `[5]`, as written, appends `[0, 6]` |
| IntegerCodecFindings.StaleStartCorrected | src/encoders/integer.rs:209 | starting from the decoded first value appends `[0, 1]` |

## Left out

- The simple8b bit packer is not part of this model. `Simple8b` is any pair of functions between words and bytes. The round trips assume the pair round-trips.
- The `integer_encoding` crate is not part of this model. Varints are modelled as LEB128.
- Varint.Decode: malformed input is decoded by the model's own convention, not the crate's. An unterminated varint consumes nothing (`n = 0`), and a varint longer than ten bytes is read in full with no overflow check, its value then reduced to 64 bits.
- `Vec` capacity, reservation and `dst.truncate(0)` have no effect on values, so they are left out.
- `encode_all`'s returned `Result` is left out. It fails only in the packer, which is not modelled.
- The `TimeProvider` is left out. Each operation takes the clock reading `now` as an argument.
- `add_range` reads the clock twice, at lines 175 and 220. The model uses one reading for both.
- `flush_handle` and `flush_all_handle` only pass `now` or `Time::MAX` to `flush_handle_impl`. They are represented by `FlushHandleImpl`.
- The `PartitionAddr` and the table and partition names of checkpoints are left out. No operation reads them.
- The `FreezeHandle` and `Freezable` are modelled as the `frozen` flag. A handle that is dropped without a flush is not modelled. `Flush` clears the flag.
- Sequencer ids (`u32`), sequence numbers (`u64`) and `usize` counts are modelled as unbounded naturals.
- The row-count sums of `add_range`, `add_window` and `persistable_row_count` therefore cannot overflow in the model.
- Persistence.SequencerNumbersInner: the early return at lines 266-268 discards its value, so the model has no such branch. An empty state still reports every sequencer, with no minimum.
- `windows` and `minimum_window` are the helpers `WindowsOf` and `MinimumWindow`. Their properties are stated through `Summaries`, `IsEmpty` and `MinimumUnpersistedMeaning`.
- Several operations are plain functions whose properties are stated by a separate member, so they have no row of their own:
  - Persistence.SequencerNumbers (lines 255-257): by `SequencerNumbersInner` and `PersistenceProofs.SequencerNumbersMeaning`.
  - Persistence.MinimumUnpersistedSequence, Persistence.MinimumUnpersistedAge (lines 411-419): by `PersistenceProofs.MinimumUnpersistedMeaning`.
  - Persistence.MinimumUnpersistedTimestamp, Persistence.MaximumUnpersistedTimestamp (lines 421-429): by `PersistenceProofs.UnpersistedTimestampsMeaning`, `LeastMinTimeIsLeast` and `GreatestMaxTimeIsGreatest`.
  - Persistence.PersistableRowCount (lines 431-438): by `PersistenceProofs.PersistableRowCountCountsAll`.
  - Persistence.Persist, the loop at lines 238-251: by `PersistKeeps`, `PersistTakes` and `RotateTakes`.
  - Persistence.FlushedClosed (lines 359-374): by `FlushedClosedEffect` and `FlushedCounted`.
  - IntegerCodec.PrefixSums (src/encoders/integer.rs lines 149-157): by `IntegerCodecProofs.PrefixSumsRecoverValues`.
  - IntegerCodec.UseRle (lines 35-43): by `IntegerCodecProofs.RleChosenIffConstantStep`.
  - IntegerCodec.MaxOf (lines 29-31): by `IntegerCodec.MaxOfIsMaximum`.
- The unit tests that inspect window internals are not restated. `FlushMatchesCheckpoint` and `RotateLeavesNothingPersistable` state their properties for every valid state.
- The concurrency of the real system is left out. The model runs one operation at a time.

## Findings

| source | as written | input that shows it | evidently intended | confidence | as-written member | corrected member |
|---|---|---|---|---|---|---|
| persistence_windows/src/persistence_windows.rs:371-374 | a flush whose timestamp is `Time::MAX` clears every closed window, including those closed after the handle was taken | late period 30s; write seq 1 covering all timestamps at 0; handle at 30s; writes seq 2 at 30s and seq 3 at 60s; flush | drop only the `closed_count` windows the handle counted, keeping later ones | high, not executed | PersistenceFindings.ScenarioLosesWrite | Persistence.Flush |
| persistence_windows/src/persistence_windows.rs:116-117 | `late_arrival_period.as_secs() / closed_window_period.as_secs()` divides by zero | `new` with a late arrival period of 500ms (or 0) | a capacity hint that cannot fail | high, not executed | PersistenceFindings.NewAsWrittenPanicsBelowOneSecond | Persistence.New |
| src/encoders/integer.rs:211 | `next += zig_zag_decode(*v)` overflows | `encode_all([i64::MIN, i64::MAX])` then `decode_all` | `wrapping_add`, as in `decode_uncompressed` and `decode_rle` | high, not executed | IntegerCodecFindings.OverflowAsWritten | IntegerCodecFindings.OverflowCorrected |
| src/encoders/integer.rs:197 | `src.len() < 9` refuses a block with only the first value | `encode_all([x])`, if simple8b packs no values to no bytes | `src.len() < 8` | medium, not executed | IntegerCodecFindings.SingleValueAsWritten | IntegerCodecFindings.SingleValueCorrected |
| src/encoders/integer.rs:209 | `let mut next = dst[0]` starts from the first value already in `dst` | `decode_all` of `encode_all([0, 1])` into `dst = [5]` gives `[5, 0, 6]` | start from the value just decoded | medium, not executed | IntegerCodecFindings.StaleStartAsWritten | IntegerCodecFindings.StaleStartCorrected |
