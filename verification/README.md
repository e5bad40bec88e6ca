# Verified cores of the remote desktop engine

This project models the deterministic cores of a remote desktop engine in Dafny and proves what they
are for: that video survives an unordered, lossy channel, that frames play in order and on time, that no
key is left stuck, that input is injected only with permission, and that two peers agree on being ready.
Clock readings are arguments everywhere, as in the source. `dafny verify dfyconfig.toml` checks it all.

Each component has three layers. A pure specification step says what one call does to the whole state.
A class, or a method with loops, mirrors the code and is proved equal to that step. Lemmas over runs of
the step, sequences of calls of any length, prove the guarantees. The main results, hardest first:

- **Video wire path** (`Fragments`, `Control`, `WireLayout`, `Reassembly`, `Delivery`, `Splices`, `Copies`):
  end-to-end round trip over raw bytes, exactly which frames can come out of any interleaving, bounded state,
  and exactly when a frame comes out again.
- **Frame sink** (`FrameSink`, `FrameSinkProgress`): conservation, no lost wakeup and latest-frame-wins over all
  interleavings of the atomic actions of any number of threads, and liveness under every fair one.
- **Readiness handshake** (`Handshake`, `HandshakeExact`): success of either peer means both were open, over all
  two-peer runs; exactly what each side sends.
- **Jitter buffer** (`Jitter`, `JitterProofs`, `JitterExact`): order, timing, accounting and progress over every run.
- **Input** (`KeyState`, `Injection`, `InjectionLimits`, `InjectionExact`, `InjectorObject`): tracked keys agree with
  the operating system exactly when the 32-key table is not overrun; exactly which calls a run makes; admitted rates.
- **Host authorization** (`HostSession`, `HostExact`): exactly when a grant is issued and what it still permits.
- **Codec** (`Control`, `ControlProofs`, `WireLayout`, `Utf8`): a frame round-trips if and only if it is well formed,
  and its bytes are laid out as the format says.
- **Arithmetic and scanning** (`Scaling`, `ScalingLimits`, `AnnexB`, `Serial`, `Rates`, `RatesExact`,
  `LinkSim`, `LinkExact`).

Where the code and its own comments disagree, the model follows the code:

- `push` is documented to return false when the buffer is full; it returns true even when the frame just
  pushed is the one evicted (crates/rda-decode/src/jitter.rs:165-220).
  `JitterProofs.PushedIsEvictedExactly` says when. Such a frame can still delay the ones queued behind it:
  `JitterProofs.EvictedLeavesNoTraceExactly`.
- The `stale` counter of the reassembler counts duplicates, not late fragments
  (crates/rda-decode/src/reassembly.rs:182-187). See `ReassemblyProofs.StaleCountsDuplicates`.
- A key-down beyond 32 held keys is refused by the tracker but still sent to the backend
  (crates/rda-input/src/lib.rs:302-309). `Injection.AgreementExactly` gives the exact condition.
- The readiness loop can return successfully without having announced itself
  (crates/rda-session/src/negotiate.rs:264-282). `Handshake.SuccessAnnouncedExactly` says when.
- `complete_pin_auth` is documented as the only function that issues a grant; the token path issues one too
  (crates/rda-host/src/session.rs:274, crates/rda-host/src/session.rs:412-418). A first-contact key is pinned
  before the binding is verified, so a failed binding still leaves it pinned. See `HostSession.GrantedExactly`,
  `HostSession.PinnedExactly` and `HostSession.UnverifiedKeyStaysPinned`.
- The resampler's sums are 32-bit words that wrap in release builds. `ScalingLimits.StaysInsideExactly` gives the
  exact box size up to which that cannot be seen.
- Enlarging is documented to be nearest-neighbour; it is so exactly for whole multiples
  (crates/rda-encode/src/convert.rs:376). See `Scaling.NearestNeighbourExactly`.

## Model

| member | source | states |
|---|---|---|
| `Delivery.WireRoundTrip` | crates/rda-proto/src/control.rs:758-784 | For any frame of at most 2 MiB: its fragments, encoded under any valid headers and mixed in any order with duplicates and other bytes, decode and reassemble to exactly its bytes, kind, layer and timestamp at the datagram that brings the last missing fragment, and to nothing earlier. The other bytes are arbitrary: malformed, of other frames or, once a fragment of this frame has arrived, of conflicting fragments under the same id. Assumes a frame id not already partial, arrivals within 400 ms of the first fragment and at most 15 other partial frames. Still excluded: foreign fragments under the same id that come first, or that agree with the frame about timestamp and count |
| `Delivery.LastFragmentDelivers` | crates/rda-decode/src/reassembly.rs:130-210 | The same delivery guarantee, with the kind the sender gave the frame, at the level of accepted payloads, from every state that satisfies the invariant, conflicting same-id fragments included |
| `Splices.EmittedExactly` | crates/rda-decode/src/reassembly.rs:130-224 | Whatever set of frames is sent, a frame can come out of some run, with any loss, reordering, duplication, expiry and eviction, if and only if it is a mixture: fragment k from any sent frame with one common id, timestamp and count, under the kind and layer of one of those frames |
| `Splices.FaithfulExactly` | crates/rda-decode/src/reassembly.rs:164-195 | Every output of every run was sent if and only if every such mixture happens to be a sent frame |
| `Splices.FaithfulByPairs` | crates/rda-decode/src/reassembly.rs:164-195 | When no two ids share a timestamp: every output of every run was sent if and only if replacing one fragment of a sent frame of several fragments by the same fragment of another with the same id, timestamp and count always gives a sent frame |
| `Splices.ReuseIsFaithfulExactly` | crates/rda-decode/src/reassembly.rs:164-195 | Two frames that share id, timestamp and count are never spliced if and only if they have one fragment or differ in at most one respect: one fragment, or the kind and layer |
| `Splices.SinglesAreFaithful` | crates/rda-decode/src/reassembly.rs:149-162 | One-fragment frames are never spliced, whatever they share |
| `Splices.EveryOutputWasSent` | crates/rda-decode/src/reassembly.rs:77-195 | The special case over every run: if id, timestamp and count identify a sent frame, every emitted frame equals a sent frame |
| `Delivery.ReuseSplices` | crates/rda-decode/src/reassembly.rs:164-195 | A witness: two-fragment frames that share id, timestamp and count and differ in both fragments, and the two events that splice them into a frame nobody sent |
| `Delivery.CopyIsDeliveredAgain` | crates/rda-decode/src/reassembly.rs:149-171 | At most once is false: a late copy of a one-fragment frame delivers it a second time |
| `Copies.EmittedAtMostArrivals` | crates/rda-decode/src/reassembly.rs:130-224 | Over every run, with loss, duplication, expiry, eviction and conflicting fragments: a frame is emitted at most as often as each of its fragments arrived, so at most once if some fragment arrived once |
| `Copies.DeliveredAgainExactly` | crates/rda-decode/src/reassembly.rs:130-210 | In calm runs a frame comes out a second time if and only if the events after the prefix that first completed it contain every one of its fragments again |
| `Copies.DeliveredExactly` | crates/rda-decode/src/reassembly.rs:130-210 | In a calm run a fragment of the frame releases it at some point if and only if every fragment arrives |
| `ReassemblyProofs.StaleCountsDuplicates` | crates/rda-decode/src/reassembly.rs:164-187 | Accepting a payload raises the `stale` counter exactly when a held, unexpired frame with the same count and timestamp already has that slot filled |
| `ReassemblyProofs.AnsweredAndCountedExactly` | crates/rda-decode/src/reassembly.rs:130-195 | A frame comes out exactly when the fragment is all that was missing, and every video fragment, every frame that comes out and every disagreement about count or timestamp is counted once |
| `ReassemblyProofs.OthersSparedExactly` | crates/rda-decode/src/reassembly.rs:197-224 | Of the other frames held, an accepted fragment costs those past the timeout and, beyond them, only the oldest, when sixteen others are left; the rest are untouched |
| `ReassemblyProofs.ReachableStateIsBounded` | crates/rda-decode/src/reassembly.rs:144-224 | In every reachable state at most 16 partial frames are held, each with at least one and not all slots filled and a fill count equal to its occupied slots; none is older than 400 ms after a fragment; frames opened = completed + incomplete + in flight |
| `ReassemblyProofs.AcceptKeepsInv` | crates/rda-decode/src/reassembly.rs:130-210 | One accept keeps the invariant and adds exactly one frame to the account when it opens one |
| `ReassemblyProofs.AcceptLeavesNoneExpired` | crates/rda-decode/src/reassembly.rs:213-224 | After a fragment no held frame is older than the timeout |
| `Reassembly.Reassembler.AcceptFragment` | crates/rda-decode/src/reassembly.rs:130-210 | The method body computes the specification step `Accept` on map, counters and result |
| `Reassembly.Reassembler.PlaceFragment` | crates/rda-decode/src/reassembly.rs:149-196 | Single-fragment shortcut, consistency check, duplicate check and store, in the order of the code |
| `Reassembly.Reassembler.EnforceCap` | crates/rda-decode/src/reassembly.rs:197-208 | The eviction loop removes the oldest partial frames until at most 16 remain, counting each as incomplete |
| `Reassembly.Reassembler.OldestId` | crates/rda-decode/src/reassembly.rs:200-205 | The scan returns the first-seen partial frame, the smallest id among equals |
| `Reassembly.Reassembler.ExpireOld` | crates/rda-decode/src/reassembly.rs:213-224 | The expiry loop removes exactly the frames past the timeout and counts them |
| `Fragments.FragmentsCover` | crates/rda-proto/src/control.rs:758-784 | A sendable frame yields 1 to 128 fragments, each accepted by the decoder and carrying its own index, whose data concatenate to the frame |
| `ControlProofs.RoundTripExactly` | crates/rda-proto/src/control.rs:814-832 | A frame survives encode then decode unchanged if and only if it is well formed |
| `ControlProofs.AcceptedIsStable` | crates/rda-proto/src/control.rs:827-832 | Whatever bytes the decoder accepts, re-encoding and decoding the result gives the same frame |
| `ControlProofs.OverlongTextArrives` | crates/rda-proto/src/control.rs:1187-1216 | Legal text of any length arrives as its longest prefix of whole codepoints within 1024 bytes |
| `ControlProofs.OverlongErrorArrives` | crates/rda-proto/src/control.rs:873-1094 | The same for error messages and their 256-byte cap |
| `ControlProofs.PayloadReturns` | crates/rda-proto/src/control.rs:861-1390 | Every acceptable payload of all 18 kinds decodes from its encoding to itself |
| `ControlProofs.HeaderReturns` | crates/rda-proto/src/control.rs:240-265 | A valid header is recovered from its eight bytes and leaves the body untouched |
| `WireLayout.FrameLaidOut` | crates/rda-proto/src/control.rs:814-1094 | The wire format itself: version, flags and type byte, sequence and timestamp, then for each of the 18 kinds which numbers stand where, how wide and under which code, big-endian, then data or text |
| `Control.DecodeFrame` | crates/rda-proto/src/control.rs:827-832 | Whatever is accepted is well formed |
| `Control.DecodePayload` | crates/rda-proto/src/control.rs:1057-1390 | An accepted payload has the type of its code and satisfies every validity rule, so encoding it again is lossless |
| `Control.ValidateUsage` | crates/rda-proto/src/control.rs:1409-1437 | One range test per page: accepts exactly the usages 0x01 to 0xE7 of the keyboard page and 0x01 to 0x29C of the consumer page, and names the usage on a known page, the page otherwise, as the field at fault |
| `Control.CheckVideo` | crates/rda-proto/src/control.rs:1323-1371 | Accepts a fragment exactly when count, index, kind and length are within their limits |
| `Control.CheckCursor` | crates/rda-proto/src/control.rs:1258-1322 | Accepts a cursor shape exactly when its size, hotspot, format and data length are consistent |
| `ControlReader.Reader.Take` | crates/rda-proto/src/control.rs:136-147 | Advances the position by what was read, or fails with the exact shortfall and leaves the position |
| `ControlReader.Reader.TakeUsages` | crates/rda-proto/src/control.rs:1162-1186 | The key list loop reads and validates usage by usage and agrees with the value-level parser, error for error |
| `ControlReader.Reader.TakeSync` | crates/rda-proto/src/control.rs:1162-1186 | Reading a key snapshot through the cursor gives the result of the value-level decoder |
| `ControlReader.Reader.TakeVideo` | crates/rda-proto/src/control.rs:1323-1371 | Reading a video fragment through the cursor gives the result of the value-level decoder |
| `Utf8.TruncateUtf8` | crates/rda-proto/src/control.rs:1397-1406 | The back-up loop returns the encoding of the longest prefix that fits |
| `Utf8.TruncatedIsLongest` | crates/rda-proto/src/control.rs:1397-1406 | The truncated text is a prefix, fits the cap, and no longer prefix does; nonempty text stays nonempty for caps of at least four bytes |
| `Utf8.BoundaryIsPrefixEnd` | crates/rda-proto/src/control.rs:1397-1406 | A byte offset is a character boundary exactly when it ends the encoding of some prefix |
| `Utf8.DecodeEncode` | crates/rda-proto/src/control.rs:1187-1216 | Decoding inverts encoding for every text, section 3 of RFC 3629 |
| `Utf8.EncodeDecode` | crates/rda-proto/src/control.rs:1187-1216 | Encoding inverts decoding: the accepted byte strings are exactly the encodings |
| `Utf8.CharLaidOut` | crates/rda-proto/src/control.rs:1187-1216 | The byte lengths, marks and payload bits of every codepoint, section 3 of RFC 3629 |
| `JitterProofs.RunKeepsInv` | crates/rda-decode/src/jitter.rs:166-314 | In every reachable state the queue is sorted by timestamp and by deadline, holds at most 120 frames, none below the last played timestamp, each due at least 15 ms after it arrived, and the target is in [15, 200] |
| `JitterProofs.PlayedInOrder` | crates/rda-decode/src/jitter.rs:181-302 | Between resets played timestamps never go backwards, whatever the arrival order and evictions |
| `JitterProofs.PlayedStrictly` | crates/rda-decode/src/jitter.rs:181-196 | Distinct pushed timestamps come out strictly increasing |
| `JitterProofs.PlayedOnTime` | crates/rda-decode/src/jitter.rs:166-302 | Every frame a run plays is the queued entry in front of what the poll leaves, and an earlier operation pushed it, at least 15 ms before and with no reset since; that entry is at most 500 ms past its deadline, and if more than 100 ms late nothing left in the queue is due |
| `JitterProofs.EveryFrameAccounted` | crates/rda-decode/src/jitter.rs:166-314 | accepted = played + late + overflow + reordered + queued + cleared by resets, over every run |
| `JitterProofs.DecaysSlowly` | crates/rda-decode/src/jitter.rs:223-238 | Over any run on a nondecreasing clock the target gives back at most 5 ms per elapsed second |
| `JitterProofs.PollMakesProgress` | crates/rda-decode/src/jitter.rs:256-302 | On a nondecreasing clock a poll at least 200 ms after the last push takes a frame off a nonempty buffer |
| `JitterExact.TargetExactly` | crates/rda-decode/src/jitter.rs:223-238 | The delay target after a push: observed jitter above it is adopted at once up to 200 ms, otherwise 5 ms are given back per whole second down to 15 ms; a late frame changes nothing |
| `JitterExact.QueueExactly` | crates/rda-decode/src/jitter.rs:189-253 | The whole queue after a push: the new frame in timestamp order, due no earlier than now plus the target and than any frame before it, later frames due no earlier than that delay, and of 121 frames the first discardable one gone, else the front |
| `JitterExact.MarksExactly` | crates/rda-decode/src/jitter.rs:166-220 | What a push answers and which marks it leaves, late frames included |
| `JitterExact.PollExactly` | crates/rda-decode/src/jitter.rs:256-302 | Which frames a poll takes off a queue: all that are more than 100 ms late with a due successor, then the one reached, dropped beyond 500 ms, played if due; nothing else |
| `JitterExact.StarvedExactly` | crates/rda-decode/src/jitter.rs:256-302 | When a poll reports starvation, and the time it notes |
| `JitterExact.CountedExactly` | crates/rda-decode/src/jitter.rs:166-302 | What each call adds to each of the six counters |
| `JitterExact.ResetExactly` | crates/rda-decode/src/jitter.rs:308-314 | A reset starts over but for the delay target and the counters |
| `JitterProofs.PushedIsEvictedExactly` | crates/rda-decode/src/jitter.rs:166-253 | A push that is not rejected always returns true; the frame it evicts is the one pushed if and only if 120 frames are queued and either the new one is discardable with no discardable frame queued up to its timestamp, or nothing is discardable and every queued frame is later. The queue then holds the same frames, those with a later timestamp due no earlier than the evicted one would have been |
| `JitterProofs.EvictedLeavesNoTraceExactly` | crates/rda-decode/src/jitter.rs:189-218 | Such a push leaves the queue as it was if and only if no queued frame is later, or the first later one is not due before the evicted one would have been |
| `JitterProofs.EvictedPushDelays` | crates/rda-decode/src/jitter.rs:189-253 | A run that shows the delay: 120 frames due at 15 ms are all due at 1015 ms after an earlier frame is pushed at 1000 ms and evicted at once |
| `JitterProofs.PushedCanBeEvicted` | crates/rda-decode/src/jitter.rs:166-253 | A run that shows it: after 120 base-layer frames an upper-layer frame is reported as taken in and is gone |
| `Jitter.JitterBuffer.PushFrame` | crates/rda-decode/src/jitter.rs:166-220 | The method computes the specification step `Push` on the whole state |
| `Jitter.JitterBuffer.InsertFrame` | crates/rda-decode/src/jitter.rs:189-215 | Search, insertion and deadline repair together give the specified queue |
| `Jitter.JitterBuffer.FindPosition` | crates/rda-decode/src/jitter.rs:192-196 | The search returns the first position whose timestamp is later |
| `Jitter.JitterBuffer.RepairDeadlines` | crates/rda-decode/src/jitter.rs:213-215 | The repair loop raises each later deadline to at least the one before it |
| `Jitter.JitterBuffer.EnforceCapacity` | crates/rda-decode/src/jitter.rs:241-253 | The eviction loop removes the first discardable frame, else the oldest, until 120 remain, counting each |
| `Jitter.JitterBuffer.AdaptTarget` | crates/rda-decode/src/jitter.rs:223-238 | Growth at once, decay by whole seconds, clamped |
| `Jitter.JitterBuffer.PollNext` | crates/rda-decode/src/jitter.rs:256-302 | The catch-up loop, the stale drop, starvation and playout compute the specification step `Poll` |
| `Jitter.JitterBuffer.ResetBuffer` | crates/rda-decode/src/jitter.rs:308-314 | Clears queue, watermark and arrival marks and keeps target and counters |
| `Injection.AgreementExactly` | crates/rda-input/src/lib.rs:185-352 | Over every sequence of events, takeovers, teardowns and display changes, the keys the backend has down equal the tracked keys at every point if and only if no accepted key-down arrives while 32 other keys are held after the modifier sync |
| `Injection.StepAgreesExactly` | crates/rda-input/src/lib.rs:276-316 | From agreement, one operation keeps it exactly when it is not such a key-down |
| `Injection.OverflowNeedsFullTable` | crates/rda-input/src/state.rs:58-63 | Such a key-down needs 32 other keys already held, which a caller can see beforehand |
| `Injection.OverflowStrandsKey` | crates/rda-input/src/lib.rs:302-309 | After such a key-down even releasing everything leaves that key down |
| `Injection.OverflowHappens` | crates/rda-input/src/lib.rs:276-323 | An overflow is reachable: from the start, a snapshot of 32 keys and the key-down of one more mapped key end in disagreement |
| `Injection.RunContained` | crates/rda-input/src/lib.rs:154-352 | Over every run at most 32 keys are tracked, and none while the local user has control |
| `Injection.TakeoverLeavesNothingDown` | crates/rda-input/src/lib.rs:154-163 | In every run that fits the table, local control means the backend has no key down |
| `Injection.NothingWithoutPermission` | crates/rda-input/src/lib.rs:191-194 | Without the input permission or under local control nothing reaches the backend, and input events are refused |
| `Injection.DenormaliseLandsExactly` | crates/rda-input/src/lib.rs:69-78 | Every position lands on the display and the extremes are its edges, if and only if the far edge is representable in 32 bits |
| `InjectionLimits.KeyCallsExactly` | crates/rda-input/src/lib.rs:154-352 | Over every run the backend is told to press, or to release, a key if and only if some operation does so: a key event that passed every check, a snapshot for the keys by which it differs from the held ones, a modifier sync for the unclaimed ones, a takeover or teardown for all held |
| `InjectionLimits.StepKeysExactly` | crates/rda-input/src/lib.rs:185-385 | The same for one operation from any state: exactly the keys pressed and released |
| `InjectionLimits.PressesAreChecked` | crates/rda-input/src/lib.rs:276-325 | Every key call of every run is for a valid usage; every press is of a mapped key in a permitted combination or of a key some admitted snapshot lists |
| `InjectionLimits.SnapshotSkipsTable` | crates/rda-input/src/lib.rs:312-325 | A witness: with no key mapped at all a snapshot still presses its keys |
| `InjectionExact.EventExactly` | crates/rda-input/src/lib.rs:185-376 | What one event does: the reason it is turned away for, or the answer its content gets, the counters, and on Ok the calls in order: modifier releases or reconciliation, then pointer positions scaled to the first display with its id, buttons, motion, scrolling, keys, committed text |
| `InjectionExact.RunCallsExactly` | crates/rda-input/src/lib.rs:154-385 | Over every run the backend is told exactly what the operations make, one after the other |
| `InjectionExact.AxisExactly` | crates/rda-input/src/lib.rs:69-78 | Every coordinate: the pixel that share of the width or height reaches, from the origin of the display, within 32 bits |
| `InjectionExact.ControlFollowsTakeovers` | crates/rda-input/src/lib.rs:145-163 | Over every run the last takeover says who has control, and the last display change which displays there are |
| `InjectorObject.Injector.ApplyEvent` | crates/rda-input/src/lib.rs:185-342 | The method computes the specification step `Apply`: keys, backend calls, rate windows, counters and result |
| `InjectorObject.Injector.PerformEvent` | crates/rda-input/src/lib.rs:196-338 | Every event kind issues the specified calls in the specified order |
| `InjectorObject.Injector.KeyEvent` | crates/rda-input/src/lib.rs:276-311 | Page, usage and policy checks, modifier sync, then tracking and the backend call |
| `InjectorObject.Injector.AdmitEvent` | crates/rda-input/src/lib.rs:354-376 | Permission first, then the rate window of the class, with the refusal counted |
| `InjectorObject.Injector.SetLocalControl` | crates/rda-input/src/lib.rs:154-163 | Taking control releases whatever is held |
| `InjectorObject.Injector.SetDisplays` | crates/rda-input/src/lib.rs:145-147 | Replaces the displays and nothing else |
| `InjectorObject.Injector.ReleaseHeld` | crates/rda-input/src/lib.rs:345-352 | Tells the backend every release, in order |
| `KeyState.ReconcileReachesTarget` | crates/rda-input/src/state.rs:112-129 | The actions take the held set exactly to the snapshot, one action per differing key |
| `KeyState.ReconcileIsMinimal` | crates/rda-input/src/state.rs:112-129 | No list of actions that reaches the snapshot is shorter |
| `KeyState.ReleasesComeFirst` | crates/rda-input/src/state.rs:112-129 | Every release precedes every press |
| `KeyState.ReconcileIsIdempotent` | crates/rda-input/src/state.rs:112-129 | A second reconcile against the same snapshot does nothing |
| `KeyState.TargetIsBounded` | crates/rda-input/src/state.rs:112-129 | A snapshot never leaves more than 32 keys held |
| `KeyState.MaskLeavesConjunction` | crates/rda-input/src/state.rs:138-151 | Afterwards the modifier mask is the old mask AND the claimed one, and only unclaimed modifiers were released |
| `KeyState.ReleaseAllClears` | crates/rda-input/src/state.rs:155-162 | Nothing is held afterwards and each held key is released once |
| `KeyState.ModifiersGoLast` | crates/rda-input/src/state.rs:155-162 | No modifier is released before a key it may be modifying |
| `KeyState.Keys.PressKey` | crates/rda-input/src/state.rs:58-63 | Adds the key unless 32 are held, and reports whether the set changed |
| `KeyState.Keys.Reconcile` | crates/rda-input/src/state.rs:112-129 | Filters and caps the snapshot and returns the specified actions |
| `KeyState.Keys.ReconcileModifiers` | crates/rda-input/src/state.rs:138-151 | The pass over the eight modifiers removes exactly the unclaimed ones |
| `KeyState.Keys.ReleaseAll` | crates/rda-input/src/state.rs:155-162 | Sorting the held keys by (is a modifier, usage) yields the releases of the other keys and then of the modifiers, each ascending, and nothing stays held |
| `KeyState.SortSplitsModifiers` | crates/rda-input/src/state.rs:158-160 | Sorting any set of keys in that order is the ascending non-modifiers followed by the ascending modifiers |
| `InjectionLimits.AnySecondInjectsAtMostTwice` | crates/rda-input/src/lib.rs:185-376 | In any 1000 ms stretch of any injector run, permissions, takeovers and refusals included, at most twice the limit of each event class is admitted |
| `InjectionLimits.AdmittedAsWindow` | crates/rda-input/src/lib.rs:354-376 | The events of a class an injector run admits are those its rate window admits at the times the run draws on it |
| `Rates.AnySecondAdmitsAtMostTwice` | crates/rda-input/src/grant.rs:200-213 | On a nondecreasing clock any 1000 ms interval of any run admits at most twice the limit |
| `Rates.AtMostTwice` | crates/rda-input/src/grant.rs:200-213 | The same from any window state |
| `Rates.TwiceIsReached` | crates/rda-input/src/grant.rs:200-213 | The factor two is attained for every positive limit |
| `RatesExact.AdmittedExactly` | crates/rda-input/src/grant.rs:200-213 | Over every run an event is admitted if and only if fewer than the limit arrived in its window before it |
| `RatesExact.RefusalsCounted` | crates/rda-input/src/grant.rs:200-213 | Every refusal is counted |
| `Rates.RateWindow.AllowEvent` | crates/rda-input/src/grant.rs:200-213 | The method computes the specification step on start, count and drop counter |
| `Rates.KeyframesArePaced` | crates/rda-encode/src/rate.rs:179-204 | Over every run full keyframes are at least 1000 ms apart and requests = keyframes + recoveries + suppressed |
| `RatesExact.RequestExactly` | crates/rda-encode/src/rate.rs:179-204 | A request is answered with a recovery exactly from the last acknowledged reference, else with a keyframe exactly when none was granted within a second, which cuts the budget for 200 ms |
| `RatesExact.PacerCountsExactly` | crates/rda-encode/src/rate.rs:179-204 | Over every run each answer is counted by its kind, and the budget cut ends 200 ms after the last keyframe |
| `Rates.KeyframePacer.OnRecoveryRequest` | crates/rda-encode/src/rate.rs:179-204 | Recovery when the acknowledged reference is usable, else a paced keyframe or suppression |
| `HostSession.EveryRunIsSafe` | crates/rda-host/src/session.rs:192-468 | In every reachable state a grant exists exactly when established and a pending key exactly when its confirmation is awaited; finished sessions never come back; capabilities only shrink |
| `HostSession.GrantsAreEarned` | crates/rda-host/src/session.rs:192-432 | Every PIN grant was preceded, in order, by in-time consent, a PAKE round, and a matching tag with an unchanged key and a verified binding, and stays within the consent; every token grant by a verified token and binding, within the token; both within the request |
| `HostSession.StepSafe` | crates/rda-host/src/session.rs:192-468 | No single operation breaks the invariant, revives a session, widens a grant or replaces a pinned key |
| `HostSession.PinnedExactly` | crates/rda-host/src/session.rs:283-361 | Over every run a device is in the address book at the end if and only if it was there at the start or some operation confirmed the pending key for it, whether or not its binding verified |
| `HostSession.UnverifiedKeyStaysPinned` | crates/rda-host/src/session.rs:313-337 | A run that ends in failure for an unverified binding and leaves the presented key pinned |
| `HostSession.GrantedExactly` | crates/rda-host/src/session.rs:283-432 | Over every run a grant by a method is held at some point if and only if some operation met what the method takes: for a token, a verified token and binding while consent or authentication is open; for a PIN, the pending key's tag while confirmation is awaited, an unchanged identity key and a verified binding |
| `HostSession.GrantAppearsExactly` | crates/rda-host/src/session.rs:283-432 | Operation by operation: a grant by a method appears exactly at an operation that meets those conditions |
| `HostSession.IssuedOnce` | crates/rda-host/src/session.rs:283-432 | No run issues two grants, by either method |
| `HostExact.GrantPermitsExactly` | crates/rda-host/src/session.rs:435-447 | Over every run a grant still held permits a capability if and only if it did when issued and every restriction since then permits it |
| `HostExact.IssuedExactly` | crates/rda-host/src/session.rs:283-432 | A new grant permits exactly what was requested and what the token allows or the user consented to, for the session's peer |
| `HostExact.ClosedExactly` | crates/rda-host/src/session.rs:453-468 | Over every run a session is closed if and only if some operation closed it, for the first reason given, with no grant or pending key left |
| `HostExact.AnswersExactly` | crates/rda-host/src/session.rs:192-432 | The answer of each of the four calls that can fail and the phase it leaves: refused out of its phase, otherwise the first check that fails names the error, and Ok when none does |
| `HostExact.AuditExactly` | crates/rda-host/src/session.rs:192-468 | The audit log of every run, entry by entry |
| `HostSession.PeerKeyVouchedExactly` | crates/rda-host/src/session.rs:313-355 | After a PIN grant the presented key is the one pinned for the session's peer if and only if the presented device is that peer or the peer was already pinned with that key; the book is consulted for the presented device only |
| `HostSession.GrantsAreProvenByPeer` | crates/rda-crypto/src/binding.rs:240-269 | Every grant of every run is for the session's peer and was issued on a binding proof signed by that very device, whichever device the address book was consulted for |
| `HostSession.OtherDeviceIsGranted` | crates/rda-host/src/session.rs:313-355 | A run that grants the session's peer, on that peer's binding proof, while another device's key is the one pinned |
| `HostSession.TokenAlsoGrants` | crates/rda-host/src/session.rs:367-432 | A witness: a run in which the token path alone issues a grant |
| `HostSessionObject.Host.Consent` | crates/rda-host/src/session.rs:192-234 | State check, timeout, denial and consent as specified, audit record included |
| `HostSessionObject.Host.BeginPin` | crates/rda-host/src/session.rs:244-270 | Keeps the derived key pending and authorises nothing |
| `HostSessionObject.Host.CompletePin` | crates/rda-host/src/session.rs:283-361 | The four checks in order, each failure terminal, and the grant only after all of them |
| `HostSessionObject.Host.UseToken` | crates/rda-host/src/session.rs:367-432 | Token, then binding, then a grant clamped to the request |
| `HostSessionObject.Host.RestrictTo` | crates/rda-host/src/session.rs:435-447 | Narrows an existing grant and records it |
| `HostSessionObject.Host.CloseWith` | crates/rda-host/src/session.rs:453-468 | Drops grant and pending key; closing twice changes nothing |
| `HostSessionObject.AddressBook.CheckAndPin` | crates/rda-crypto/src/identity.rs:197-207 | Pins on first contact, never replaces a pinned key, reports a change |
| `HostSessionObject.AuditLog.Record` | crates/rda-input/src/grant.rs:381-386 | The entries in memory are always the last recorded ones, up to the capacity |
| `Caps.SessionCaps.ClampTo` | crates/rda-proto/src/caps.rs:221-229 | The greatest capabilities within both operands: within each, and containing whatever is within both |
| `Handshake.SuccessMeansBothOpened` | crates/rda-session/src/negotiate.rs:240-389 | In every run of two pumps, if either returns successfully then both peers had every channel open |
| `Handshake.SuccessAnnouncedExactly` | crates/rda-session/src/negotiate.rs:264-386 | Over every run, a side that has succeeded has announced itself if and only if some event it consumed before its last one was a channel opening, or a tick while connected, with all its channels open |
| `Handshake.UnannouncedSuccessHappens` | crates/rda-session/src/negotiate.rs:264-282 | A run exists in which the controller succeeds without ever announcing itself |
| `Handshake.UnannouncedHoldsOther` | crates/rda-session/src/negotiate.rs:276-282 | While a side has not announced, the other cannot have succeeded |
| `Handshake.StrandedForever` | crates/rda-session/src/negotiate.rs:264-282 | After an unannounced success no continuation lets the other side succeed |
| `Handshake.CandidatesInOrder` | crates/rda-session/src/negotiate.rs:243-397 | On the offer-expecting side the candidates handed over, followed by those held back, are those that arrived, in order and once each, and none is handed over before the offer is accepted |
| `Handshake.EarlyFramesKept` | crates/rda-session/src/negotiate.rs:262-388 | Frames that arrive early are kept in order and returned on success |
| `HandshakeExact.SentExactly` | crates/rda-session/src/negotiate.rs:240-389 | Over every run what each side has sent, in order: the controller's offer, then announcements and replies as its moves made it |
| `HandshakeExact.AnswersAndCandidatesExactly` | crates/rda-session/src/negotiate.rs:299-360 | The host answers each offer it accepts once and the controller none; each side passes on its local candidates in order and once each; nothing else is sent but announcements |
| `HandshakeExact.AnnouncedAtMostOnce` | crates/rda-session/src/negotiate.rs:276-282 | No side announces itself twice, and one that has announced itself and not failed has sent the message |
| `HandshakeExact.IterationEndsExactly` | crates/rda-session/src/negotiate.rs:264-389 | How an iteration ends: which check or event names the failure, and success exactly when connected, open and the other side ready |
| `HandshakeExact.ControllerCandidates` | crates/rda-session/src/negotiate.rs:243-340 | The controller hands over every candidate that arrives, at once and in order |
| `Handshake.Pump.Iteration` | crates/rda-session/src/negotiate.rs:264-389 | One pass of the loop computes the specification step `Iterate`: flags, buffers, sent messages and status, with the channels read separately at each timer check and at the event |
| `Handshake.Pump.Receive` | crates/rda-session/src/negotiate.rs:299-340 | Each signaling message has the specified effect |
| `Handshake.Pump.CheckAndAnnounce` | crates/rda-session/src/negotiate.rs:266-294 | Deadlines and the announcement at the top of the loop |
| `Handshake.Pump.DrainPending` | crates/rda-session/src/negotiate.rs:391-397 | The drain loop hands over every buffered candidate in order |
| `Scaling.BoxIsOverlap` | crates/rda-encode/src/convert.rs:391-397 | The box of a destination cell is exactly the source cells whose extent overlaps it |
| `Scaling.BoxesHaveNoGaps` | crates/rda-encode/src/convert.rs:391-397 | For all positive sizes the boxes start at the first cell, leave no gap and end at the last |
| `Scaling.BoxInRange` | crates/rda-encode/src/convert.rs:391-397 | Every box is nonempty and inside the source |
| `Scaling.NothingIsCropped` | crates/rda-encode/src/convert.rs:379-428 | Every readable source pixel is averaged into the destination pixel over it |
| `Scaling.OutputAt` | crates/rda-encode/src/convert.rs:399-424 | Every pixel of the returned buffer is what the 32-bit accumulators make of its box, which is the true average, rounded down, for boxes of at most 16 843 009 readable pixels |
| `Scaling.OutputWithinBox` | crates/rda-encode/src/convert.rs:399-424 | For boxes of at most 16 843 009 readable pixels each output channel lies between the smallest and largest value of its box |
| `Scaling.SameSizeIsCopy` | crates/rda-encode/src/convert.rs:379-428 | At equal sizes an untruncated image is copied exactly, byte for byte, without its row padding |
| `Scaling.NearestNeighbourExactly` | crates/rda-encode/src/convert.rs:376-397 | Every box is a single cell if and only if the new size is a whole multiple of the old one |
| `ScalingLimits.StaysInsideExactly` | crates/rda-encode/src/convert.rs:399-424 | For a complete buffer, the output of a box stays within its pixels for all pixel data if and only if the box has at most 16 843 009 pixels; rows must be distinct only where the pixel count itself reaches 2^32 |
| `Scaling.WhiteTurnsBlack` | crates/rda-encode/src/convert.rs:399-424 | One pixel more than that and an all-white box comes out black |
| `Scaling.SmallRatiosAverage` | crates/rda-encode/src/convert.rs:391-415 | A bound on the two size ratios under which every destination pixel is a true average |
| `Scaling.EveryBoxHasPixels` | crates/rda-encode/src/convert.rs:418-420 | In an untruncated image no destination pixel is left at zero for want of source pixels |
| `Scaling.ScaleBgra` | crates/rda-encode/src/convert.rs:379-428 | The nested loops return the specified buffer, wrapped sums included, for every size, stride and buffer length, zero and truncated ones included |
| `Scaling.SumRow` | crates/rda-encode/src/convert.rs:402-415 | The innermost loop adds exactly the pixels inside the buffer, in words that wrap |
| `Scaling.TallyBox` | crates/rda-encode/src/convert.rs:399-416 | The loops accumulate exactly the readable pixels of the box |
| `Scaling.WritePixel` | crates/rda-encode/src/convert.rs:417-424 | One pixel is written and nothing else changes; an empty box leaves zeroes |
| `LinkSim.EveryPacketAccounted` | crates/rda-netsim/src/link.rs:187-288 | sent = delivered + lost + overflowed, and the packets accepted are, as a multiset, those handed out and those in flight |
| `LinkSim.PollDelivers` | crates/rda-netsim/src/link.rs:260-288 | On any clock a poll hands out accepted packets only, each after it was sent and not before its delivery time, in delivery order |
| `LinkSim.DelayIsBounded` | crates/rda-netsim/src/link.rs:187-246 | On a nondecreasing clock the one-way delay is at most 8000 times queue bytes over bandwidth, plus the largest drawn delay |
| `LinkSim.PlainLinkIsFifo` | crates/rda-netsim/src/link.rs:187-288 | Without jitter and reordering what came out followed by what is in flight is what was accepted, in send order, and nothing is counted as reordered |
| `LinkSim.PollIsPunctual` | crates/rda-netsim/src/link.rs:260-288 | Whatever is handed out was due and whatever stays was not |
| `LinkExact.SendExactly` | crates/rda-netsim/src/link.rs:187-255 | What a send does: overflow exactly when the packet does not fit behind the bytes still waiting, loss exactly as drawn, and otherwise the exact landing time from size, rate, backlog and drawn delay |
| `LinkExact.LinkIsNoFaster` | crates/rda-netsim/src/link.rs:209-246 | Over every run no packet gets through sooner than its size takes at the rate of the link, after it was sent and after every packet before it was through |
| `LinkExact.CountersExactly` | crates/rda-netsim/src/link.rs:187-246 | Over every run the counters of packets and bytes offered, lost and overflowed, and the total and largest latency |
| `LinkExact.ReorderedExactly` | crates/rda-netsim/src/link.rs:273-284 | Over every run the packets counted as reordered are those handed out after one that was sent later |
| `LinkSim.Simulator.SendPacket` | crates/rda-netsim/src/link.rs:187-246 | Drain, overflow, loss and launch compute the specification step `Send` |
| `LinkSim.Simulator.PollDue` | crates/rda-netsim/src/link.rs:260-288 | The split loop, the sort and the reorder bookkeeping compute the specification step `Poll` |
| `FrameSink.FramesAreConserved` | crates/rda-capture/src/sink.rs:77-121 | Over all interleavings of any number of threads: produced = consumed + dropped + slot occupancy + frames in the hands of calls between two actions |
| `FrameSink.CountersExactly` | crates/rda-capture/src/sink.rs:77-121 | Over all interleavings `produced` counts the frames passed to publish and `consumed` those handed back |
| `FrameSink.NewestAmongReceivers` | crates/rda-capture/src/sink.rs:77-121 | With one publisher and any number of receivers the frames, in the order they were taken, stand at increasing positions of the published ones, each handed to exactly one receiver or still carried by it; the newest is in the slot or, when the slot is empty, was the last one taken |
| `FrameSink.NewestIsNeverLost` | crates/rda-capture/src/sink.rs:77-121 | With one receiver besides, the same holds of the frames in the order they are returned |
| `FrameSink.NoLostWakeup` | crates/rda-capture/src/sink.rs:77-121 | While any receiver is parked and the slot is full, some other thread is still to notify or is an awake receiver on its way to the slot |
| `FrameSinkProgress.FairScheduleRelieves` | crates/rda-capture/src/sink.rs:77-126 | Liveness: from every reachable state with a parked receiver and a full slot, under every schedule of six rounds in which each thread gets a turn, with any calls, cancellations and further turns in between, some step takes the frame, wakes a receiver or drops the waiting receive |
| `FrameSinkProgress.FirstParkedFirstWoken` | crates/rda-capture/src/sink.rs:77-121 | Over all interleavings a notification wakes the receiver that has been parked longest |
| `FrameSink.ParkedReceiverIsRelieved` | crates/rda-capture/src/sink.rs:77-121 | From the same states at most four actions, all of one alert thread or of the lock holder, suffice to empty the slot or wake a receiver |
| `FrameSink.PublisherIsAboutToNotify` | crates/rda-capture/src/sink.rs:110-121 | With one receiver, a full slot while it is parked means a publisher is about to notify it |
| `FrameSink.SomeoneCanMove` | crates/rda-capture/src/sink.rs:73-89 | A call that is not parked can take its next action, or waits for a lock whose holder can |
| `FrameSink.RunKeepsInv` | crates/rda-capture/src/sink.rs:77-126 | Mutual exclusion, exact waiter queue, wakeup, counting and order hold in every reachable state, cancelled receives included |
| `FrameSink.PublishUninterrupted` | crates/rda-capture/src/sink.rs:77-89 | The atomic actions of one publish, run without interruption, have the effect of the whole call |
| `FrameSink.TryRecvUninterrupted` | crates/rda-capture/src/sink.rs:100-108 | The same for a receive |
| `FrameSink.Channel.Publish` | crates/rda-capture/src/sink.rs:77-89 | Replaces the slot, counts an overwritten frame as dropped, wakes the longest waiter or stores one permit |
| `FrameSink.Channel.TryRecv` | crates/rda-capture/src/sink.rs:100-108 | Returns and empties the slot and counts a frame as consumed |
| `AnnexB.SplitInvertsJoinExactly` | crates/rda-decode/src/decoder.rs:138-167 | Joining units by any mix of 3- and 4-byte codes and splitting gives the same list if and only if every unit is nonempty and free of start codes and none ends in a zero right before a 3-byte code (Annex B of ITU-T H.264) |
| `AnnexB.SplitOfJoin` | crates/rda-decode/src/decoder.rs:138-167 | What comes back from any join of code-free units: all of it but the zeroes that 3-byte codes take and units left empty |
| `AnnexB.SplitIsOrderly` | crates/rda-decode/src/decoder.rs:138-167 | For every input the units are nonempty, ordered, disjoint stretches of it, free of start codes |
| `AnnexB.NoneMissed` | crates/rda-decode/src/decoder.rs:138-158 | Every start code in the input lies in one the scan found |
| `AnnexB.TrailingZeroIsLost` | crates/rda-decode/src/decoder.rs:138-167 | A witness: a trailing zero before a 3-byte code is lost |
| `AnnexB.FindStarts` | crates/rda-decode/src/decoder.rs:142-157 | The index loop finds the start codes of the specification |
| `AnnexB.CutBodies` | crates/rda-decode/src/decoder.rs:159-166 | The second loop cuts out exactly the nonempty bodies between the start codes |
| `AnnexB.SplitAnnexB` | crates/rda-decode/src/decoder.rs:138-167 | Both loops together compute the specified units |
| `Serial.AcceptsExactlyNewMaxima` | crates/rda-proto/src/seq.rs:64-76 | On any run whose arrivals stay within half the space of the highest, an arrival is accepted exactly when it is above everything before it (section 3.2 of RFC 1982) |
| `Serial.NewerRefines` | crates/rda-proto/src/seq.rs:26-31 | Within half the space the 16-bit comparison is the comparison of the unbounded counters |
| `Serial.HalfAheadIsStale` | crates/rda-proto/src/seq.rs:26-31 | The bound is tight: exactly half the space ahead is newer in neither direction |
| `Serial.TracksHighest` | crates/rda-proto/src/seq.rs:64-76 | The tracker holds the wire value of the highest counter seen |
| `Serial.SerialTracker.Accept` | crates/rda-proto/src/seq.rs:64-76 | The method computes the specification step |

## Left out

- Jitter percentile, degradation ladder and bitrate estimator: foreign to the modelled files; the observed percentile is an argument of `push`.
- Cryptographic primitives: PAKE rounds, token verification and the role and signature of a binding proof are outcomes supplied with each operation; the confirmation tag is an arbitrary function of the key. The short authentication string and the PIN's own expiry and attempt counter are not modelled.
- Floating point: relative motion stays in eighths of a pixel, and the link's loss, delay and reorder draws are arguments of `send`, so its random generator and loss-burst state are absent.
- 64-bit clocks and counters are unbounded naturals; overflow near the end of their range is not modelled.
- Backend failures: the injector's backend always succeeds; `ReleaseGuard` and `SyncWatchdog` are thin wrappers around what is modelled.
- The HID key table is a parameter set of mapped usages; clipboard events have no budget here because `apply` never draws on theirs.
- Control.EncodePayload, Control.DecodePayload: modelled on values; appending to a buffer and the moving read position are captured in class form only for the cursor's primitives, key snapshots and video fragments.
- Codec messages whose bodies are not part of the binary control codec keep their bytes as an opaque payload, as the source does; `MalformedCounter` is not modelled.
- Scaling: the wrapping sums are those of a release build; a debug build stops with an overflow instead.
- Scaling.SumRow, Scaling.ScaleRow, Scaling.ScaleRows, Scaling.WritePixel: the nested loops are split into one method per level.
- Colour conversion (`bgra_to_planar`, `luma`, `chroma`, `average_block`) would add only per-pixel arithmetic.
- Handshake: envelopes of other sessions, the payloads of descriptions and the timers' lengths are abstracted; timers fire at any time the environment chooses. Progress of the handshake is not claimed, since it is false.
- Candidate buffering on the controller side: its remote description counts as set from the start.
- FrameSink: the notification primitive is modelled by its documented behaviour (one stored permit, first-come waiters, a dropped wakeup passes on); memory reordering of the relaxed counters is not modelled, since each counter is only ever incremented.
- LinkSim: the `ready` buffer is omitted because it is empty between calls.
- Rate ladder updates, bits per frame and scaled dimensions, parameter-set detection, the signaling registry, network, capture, codec and window code, serialization of signaling messages: easy members or input and output.
