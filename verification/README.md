# Verified model of the QMK core

A Dafny model of seven parts of the QMK keyboard firmware that hold state, wrap, or play tricks with bits, with proofs
of what they promise over every run and every input. Code that works step by step on variables is modelled as classes
and methods with loops; each such method is proved to compute a function on values, and the theorems are about those
functions. What an operation does is stated twice, once as such a function and once without it: on the events, requests or
bytes that went in and what came out.

| part | what it is | functions on values | theorems | in place |
|---|---|---|---|---|
| tap/hold resolver | decides whether a key was tapped or held, with a waiting ring | `TappingModel` | `TappingRuns`, `TappingTaps`, `TappingRolls` | `Tapping` |
| deferred executor | tokens and periodic callbacks over a 32-bit clock (`Timer`) | `DeferredModel` | `DeferredRuns`, `DeferredBounds`, `DeferredCalls` | `Deferred` |
| layer cache and hand swap | a release undoes its own press | `LayerModel`, `HandSwapModel` | the same | `Layers`, `HandSwap` |
| matrix task | snapshots to events, with a ghost filter | `MatrixModel` | `MatrixRuns` | `Matrix` |
| persistent store | keymap, macros, VIA, paged EEPROM and flash | `StoreModel`, `MacroModel`, `PagedModel` | `KeymapProofs`, `MacroProofs`, `ViaProofs`, `PagedModel` | `Store`, `Paged` |
| encoders | Gray-code decoder and event queue | `QuadratureModel` | the same | `Encoder` |
| UF2 converter | binary and Intel HEX to UF2 and back | `Uf2Model` | `Uf2Proofs`, `Uf2Bytes`, `Uf2Lengths`, `Uf2Exact`, `Uf2Magic`, `Uf2Families` | `Uf2` |

`Bytes`, `Bitwise`, `Division`, `Keys`, `Optional` and `Ring` hold what the parts share: bytes and 16-bit words, bit
operators on natural numbers, division, key positions, missing values and ring buffers. `dafny verify dfyconfig.toml` checks
everything.

## How to read the model

- Handing a record to `process_record` appends it to an output trace, together with the reason. Whether a key is a tap
  key, its terms, and the per-key options are arbitrary functions of that trace and the key, because the layer state
  that they depend on changes with what was emitted. No order between emissions of different calls is claimed beyond
  what the theorems say.
- A deferred callback is an arbitrary function from the calls so far to requests against the table and a returned
  delay. The token counter is shared by all tables: requests to other tables may leave it anywhere at any time. The
  unbounded clock is the reference; a run is timely when no 32-bit time difference that the executor takes is out of
  range, and `DeferredBounds` says which bounds on requests, replies and pass times give that.
- A layer state has `1 << MAX_LAYER_BITS` bits, as the three widths of the firmware have. The hooks that may change a
  layer state are covered by runs that set it to anything.
- The chips behind the EEPROM and flash drivers wrap inside a page, are busy after a write, and on SPI need an enable
  before each write. A bus may fail at any step of any chunk.
- Python exceptions and `struct.error` become `None` or `Failed`.

## What turned out false

- A delay below 2^31 ms is not enough for 32-bit time: asked for by a callback, after the pass has read the clock, it can
  lie 2^31 ms after the pass and runs in that very pass (`DeferredBounds.SamePassFails`). What is needed is that the
  trigger time lies less than 2^31 ms after the pass (`DeferredBounds.DecisionExact`, `DeferredBounds.TimelyExactly`).
- The comment at quantum/dynamic_keymap.c:289-290 says that playing a macro cannot go past the buffer. It does when the
  buffer holds exactly as many zero bytes as the macro number asked for (`MacroProofs.OverrunExact`,
  `MacroProofs.OverrunHappens`). The model stops there.
- A macro with an unknown code after a known one sends left-over scratch bytes as well (`MacroProofs.SentExactly`,
  `MacroProofs.StaleByteHappens`).
- The pulse count of an encoder with a resolution above 127 wraps before it reaches the resolution
  (`QuadratureModel.ConservationFails`).
- A chunk of 256 bytes or more is never copied to the end by the I2C driver, whose loop counts in 8 bits
  (`PagedModel.AllCopiedExactly`).
- HEX records that go back to an earlier page are encoded without complaint, but the file cannot be decoded
  (`Uf2Exact.HexDecodesExactly`, `Uf2Exact.BackwardsFails`).
- Selecting one family of a UF2 file of two also yields zeros for the gaps of the other
  (`Uf2Families.FamilySelected`, `Uf2Families.GapHappens`).
- A block with a bad magic number is said to be skipped (util/uf2conv.py:52), but building the message adds a string
  and a number and raises an exception (`Uf2Magic.SkippedExactly`, `Uf2Magic.BadMagicHappens`).

## Model

| member | source | states |
|---|---|---|
| `Tapping.TapResolver.ActionTappingProcess` | quantum/action_tapping.c:80-113 | One call on the in-place tapping key and eight-slot ring does exactly what `TappingModel.Exec` says: process, queue or clear on overflow, then drain; the drain loop terminates because each turn shortens the ring |
| `Tapping.TapResolver.ProcessTapping` | quantum/action_tapping.c:166-433 | The three-state decision, every branch, as a function of the old state and the record; the record that the original updates in place is handed back |
| `Tapping.TapResolver.ProcessWhileUndecided` | quantum/action_tapping.c:202-292 | First tap, interference by a typed key, early release of an older key, interruption by a press |
| `Tapping.TapResolver.ProcessWhileTapped` | quantum/action_tapping.c:294-379 | Release of the tapped key, a new tap key with or without a made-up release, other events, within and after the term |
| `Tapping.TapResolver.ProcessWhileReleased` | quantum/action_tapping.c:383-432 | A further tap, a restart, other keys, timeout after the release, as `TappingModel.Process` has them; which presses repeat a tap, and when a key is forgotten, is said on events in `TappingTaps.TapsRepeat` and `TappingTaps.NextTapExact` |
| `Tapping.TapResolver.WaitingBufferEnq` | quantum/action_tapping.c:439-455 | Appends at the back of a queue of capacity 7, accepts and drops ticks, and refuses exactly when 7 records wait, then changing nothing |
| `Tapping.TapResolver.WaitingBufferTyped` | quantum/action_tapping.c:470-477 | True if and only if a waiting record of the same key has the opposite direction |
| `Tapping.TapResolver.WaitingBufferScanTap` | quantum/action_tapping.c:494-521 | Settles an undecided key with the first waiting release of it inside the term, marking both, and otherwise changes nothing |
| `Tapping.TapResolver.DrainOne` | quantum/action_tapping.c:101-109 | One turn of the drain loop: drop the oldest record, or write it back and stop |
| `TappingRuns.RunKeeps` | quantum/action_tapping.c:62-113 | Every reachable state keeps the invariant: waiting records are real events, waiting presses have count 0, counts stay at most 15, a released tapping key has count above 0, and a key that is down with count 1 has its own marked release waiting |
| `TappingRuns.ExecKeeps` | quantum/action_tapping.c:88-94 | A call keeps the invariant, and an overflow leaves no tapping key and an empty ring |
| `TappingRuns.Conservation` | quantum/action_tapping.c:166-433 | In a run without overflow every real event is emitted, waiting or the undecided tapping key exactly as often as it came in; only the made-up releases are extra |
| `TappingRuns.WaitingIsFifo` | quantum/action_tapping.c:101-109 | What waits after a call is a suffix of what waited before plus the new event at the back: events leave in arrival order |
| `TappingRuns.RunJustified` | quantum/action_tapping.c:166-422 | In every run each emission has its reason, judged by the terms in force at that moment: a press passed on as it is is no tap key; a tap needs a release of that key within its term; a hold an event or tick past the term, a permissive hold or a hold-on-other-key press; a further tap a press within both terms of an uninterrupted release of the same key, and its count is one more, at most 15 |
| `TappingRuns.OnlyTimeHolds` | quantum/action_tapping.c:219-288 | With permissive hold and hold-on-other-key off, a tap key emitted with count 0 was settled by an event or tick that came in and whose 16-bit time difference reaches the term, and no key is settled by another |
| `TappingRuns.LateEventHolds` | quantum/action_tapping.c:334-342 | A tick or event whose 16-bit time difference reaches the term settles the undecided key as a hold in that call |
| `TappingRuns.PromptReleaseTaps` | quantum/action_tapping.c:202-214 | A release of the undecided key within the term settles it as a tap in that call |
| `TappingRuns.RunFrom` | quantum/action_tapping.c:302-323 | Everything emitted, and every reason for a decision, really came in; only made-up releases did not |
| `TappingTaps.TapsRepeat` | quantum/action_tapping.c:202-422 | Taps of one key in a row, within the terms: each press and release is delivered once and in order, from the second on in its own call, with its place in the row, at most 15, as count; the first press when it is released |
| `TappingTaps.NextTapExact` | quantum/action_tapping.c:383-432 | After n taps in a row and any typing of other keys, which is delivered as it is, one more press is delivered at once with count n + 1 (at most 15) if and only if the last release came in time, no other key went down since, nothing came after the term of the release, and the press is within both terms of it; any other press delivers nothing and starts anew |
| `TappingTaps.HarmlessRun` | quantum/action_tapping.c:166-433 | While no key is undecided, every event that is not about the tapping key and not the press of a tap key is delivered at once, as it is and in order; ticks deliver nothing |
| `TappingTaps.RepeatingKey` | quantum/action_tapping.c:294-379 | A key that is down for the n-th time lets all such typing through; its own release carries its count and is remembered if it is in time; another tap key going down first brings a made-up release, at that time, of a key tapped more than once |
| `TappingRolls.RollWaits` | quantum/action_tapping.c:233-292 | While a tap key is undecided, typing that settles nothing delivers nothing and waits in order |
| `TappingRolls.RollSettles` | quantum/action_tapping.c:202-342 | Each of the four events that settle the undecided key (its release within the term, a late event or tick, another press with hold-on-other-key, the release of a key typed since with permissive hold) delivers the key first, as tap or hold, then all typing since in its order, then the event; nothing waits any more and nothing is lost |
| `TappingRolls.RollOverflows` | quantum/action_tapping.c:88-94 | The eighth event that has to wait clears key and ring, after the key was delivered if the event settled it |
| `TappingRolls.OldReleasePasses` | quantum/action_tapping.c:233-265 | The release of a key that went down before the undecided one is delivered at once unless the firmware keeps it back; a tick within the term changes nothing |
| `TappingRolls.RolledTaps` | quantum/action_tapping.c:302-323 | Rolling over two tap keys: when the first is let go of while the second is down it is delivered as a complete tap at once, and the second is undecided from then on |
| `TappingRolls.TapInsideHold` | quantum/action_tapping.c:494-521 | When a hold is settled by time, a second tap key pressed and released in time meanwhile is a tap, delivered before what was typed between its press and its release |
| `TappingRuns.TapIsNeverStranded` | quantum/action_tapping.c:302-323 | A key registered as a single tap can be abandoned safely: a release of it, marked with count 1, waits now, and after any further events short of an overflow that release still waits marked or has been emitted since with a count of at least 1 |
| `Deferred.DeferredExecutor.TokenUsable` | quantum/deferred_exec.c:18-28 | True if and only if the token is not 0 and in no slot |
| `Deferred.DeferredExecutor.AllocateToken` | quantum/deferred_exec.c:30-40 | The in-place search over the wrapping 8-bit counter finds what the bounded probe of the model finds, and terminates |
| `Deferred.DeferredExecutor.DeferExec` | quantum/deferred_exec.c:46-73 | First free slot, new token, trigger time in 32 bits; refusals change at most the counter |
| `Deferred.DeferredExecutor.ExtendDeferredExec` | quantum/deferred_exec.c:75-93 | Moves the trigger of the entry with that token and reports whether there was one |
| `Deferred.DeferredExecutor.CancelDeferredExec` | quantum/deferred_exec.c:95-116 | Does what `DeferredModel.DoCancel` says, which `DeferredCalls.CancelExact` pins entry by entry: true if and only if the token is non-zero and in use, its entry emptied and every other one kept |
| `Deferred.DeferredExecutor.RunSlot` | quantum/deferred_exec.c:126-154 | One slot of a pass, with a callback that may defer, extend and cancel on the same table before its slot is looked at again |
| `Deferred.DeferredExecutor.Task` | quantum/deferred_exec.c:118-157 | A whole pass, at most once per millisecond |
| `DeferredRuns.AllocationExact` | quantum/deferred_exec.c:30-40 | The allocator fails if and only if all 255 tokens are in use |
| `DeferredRuns.FreeSlotGetsToken` | quantum/deferred_exec.c:30-40 | Pigeonhole: a table of at most 255 slots with a free one always gets a token |
| `DeferredRuns.DeferSucceeds` | quantum/deferred_exec.c:46-73 | A request gets a token if and only if delay and callback are proper and a slot is free, and the token is new |
| `DeferredRuns.RunDistinct` | quantum/deferred_exec.c:46-157 | Live tokens stay pairwise distinct through any interleaving of requests and passes, whatever the callbacks do |
| `DeferredRuns.NotAfterExact` | platforms/timer.h:27-30 | The signed 32-bit comparison means the comparison of true times if and only if they are less than 2^31 ms apart |
| `DeferredRuns.WrappingRefinesUnbounded` | quantum/deferred_exec.c:118-157 | In a timely run the executor on the wrapping clock makes the same calls in the same order as one on an unbounded clock, with equal trigger times modulo 2^32 |
| `DeferredBounds.DecisionExact` | quantum/deferred_exec.c:131 | A live entry less than 2^32 from the pass runs on the 32-bit clock just when it should if and only if it is less than 2^31 ahead and at most 2^31 late |
| `DeferredBounds.SamePassFails` | quantum/deferred_exec.c:118-157 | A callback that asks for 2^31-1 ms one millisecond after the pass read the clock: the new entry runs in the same pass on the 32-bit clock, and not on an unbounded one |
| `DeferredBounds.TimelyExactly` | quantum/deferred_exec.c:46-157 | If outside passes delays are below 2^31 and time does not go back, passes are less than 2^31 apart, and every trigger time a callback asks for (with the delay it returns, where that is added) is less than 2^31 after its pass, then a run is timely if and only if no pass comes to an entry more than 2^31 late |
| `DeferredBounds.SteadyIsPrompt` | quantum/deferred_exec.c:141-146 | If passes are at most a gap apart and callbacks do not want to be repeated sooner than that, lateness never adds up beyond the gap |
| `DeferredBounds.WrappingRefinesInBounds` | quantum/deferred_exec.c:118-157 | Under those bounds on requests, replies and pass times alone, the 32-bit executor does exactly what one on an unbounded clock does |
| `DeferredRuns.PassCalls` | quantum/deferred_exec.c:118-157 | A pass calls each slot at most once, in slot order, and only entries whose time has come |
| `DeferredRuns.PassCallsOnce` | quantum/deferred_exec.c:126-154 | A pass calls a live periodic entry exactly once when it is due and not otherwise |
| `DeferredRuns.NoDrift` | quantum/deferred_exec.c:141-146 | However late the passes are, the k-th call of a callback that always returns d receives the k-th beat of the first trigger time |
| `DeferredRuns.BeatIsMultiple` | quantum/deferred_exec.c:141-146 | The k-th beat is the first trigger time plus k times d |
| `DeferredCalls.CancelExact` | quantum/deferred_exec.c:95-116 | Cancelling succeeds if and only if the token is non-zero and in use; the token is then in no slot, its entry is empty and every other entry is unchanged |
| `DeferredCalls.CancelSilences` | quantum/deferred_exec.c:95-157 | After a token was cancelled no pass calls it, whatever else is requested, by callbacks too, until a deferral hands that token out again |
| `DeferredCalls.ExtendExact` | quantum/deferred_exec.c:75-93 | Extending succeeds if and only if the delay is positive and the token in use; only the trigger time of its entry changes, to the time of the request plus the delay, in 32 bits |
| `DeferredCalls.DeferExact` | quantum/deferred_exec.c:30-73 | A deferral that succeeds fills the first free slot with exactly the trigger time, callback and argument asked for, under the first usable token counting up from the current one; one that fails changes no entry |
| `DeferredCalls.PassExact` | quantum/deferred_exec.c:118-157 | An entry that callbacks leave alone is called by a pass if and only if its time has come, and then once, with its own callback, argument and trigger time; afterwards it is due again the returned delay after its trigger time, or gone when that is 0; a pass in the same millisecond does nothing |
| `DeferredCalls.DeferredThenCalled` | quantum/deferred_exec.c:46-157 | From request to call: the first pass at or after the deadline calls what was deferred with what was given, and nothing before that does, whatever else is requested |
| `DeferredCalls.ReusedSlotKept` | quantum/deferred_exec.c:136-139 | An entry that a callback puts in place of its own is left alone, whatever delay it returns |
| `Layers.LayerSwitch.UpdateSourceLayersCacheImpl` | quantum/action_layer.c:232-238 | The exclusive-or splice per plane stores the bits of the layer for one entry and keeps those of every other entry, also of the seven that share its bytes |
| `Layers.LayerSwitch.ReadSourceLayersCacheImpl` | quantum/action_layer.c:244-254 | Gathers the bits of one entry from the planes |
| `Layers.PlanesRoundTrip` | quantum/action_layer.c:232-254 | A layer below `1 << MAX_LAYER_BITS` comes back from its planes |
| `Layers.SplicedBit` | quantum/action_layer.c:236 | The splice replaces one bit of a byte and keeps the others |
| `Layers.LayerSwitch.UpdateSourceLayersCache` | quantum/action_layer.c:260-272 | Refines an update of a table from key to layer; keys outside the matrix change nothing |
| `Layers.LayerSwitch.ReadSourceLayersCache` | quantum/action_layer.c:277-289 | Refines a lookup in that table; 0 outside the matrix |
| `Layers.LayerSwitch.LayerSwitchGetLayer` | quantum/action_layer.c:323-343 | The downward loop with masks returns the topmost layer of the model |
| `Layers.LayerSwitch.StoreOrGetAction` | quantum/action_layer.c:299-317 | Action and new table of a press, a release and an uncached event |
| `Layers.LayerSwitch.ProcessRecordNocache` | quantum/action.c:219-223 | An event handled with the cache disabled changes nothing and takes the action of the current layers |
| `LayerModel.TopmostExact` | quantum/action_layer.c:323-343 | The layer found is on (by state or default) and not transparent, no layer above it is, and 0 is the fallback |
| `LayerModel.PressExact` | quantum/action_layer.c:299-343 | In every run a press executes the action of the highest layer that the latest changes left on, as a layer or as a default layer, and on which the key is not transparent, with layer 0 as the last resort |
| `LayerModel.TopmostFits` | quantum/action_layer.c:323-343 | A layer that can be found always fits the bits that the cache keeps, whatever MAX_LAYER is |
| `LayerModel.CacheHoldsLatest` | quantum/action_layer.c:299-317 | After any run the table holds, for every matrix key, the layer of its latest press |
| `LayerModel.ReleaseMatchesPress` | quantum/action_layer.c:292-317 | Under any interleaving of layer changes and key events, the release of a matrix key executes the action of its latest press |
| `LayerModel.ReleasesExactly` | quantum/keymap_common.c:200-219 | In every run every release of a key executes the action of its latest press if and only if the key is in the matrix or no layer that can be on gives it another action than layer 0; the cited lookup gives keys outside the matrix, encoders and DIP switches aside, one code on all layers |
| `LayerModel.UncachedDiffers` | quantum/action_layer.c:301-303 | With the cache disabled a layer change between press and release can change the action |
| `HandSwap.HandSwapper.ShouldSwapHands` | quantum/action.c:146-152 | A press follows the flag, a release the bit of its key |
| `HandSwap.HandSwapper.SetSwapHandsState` | quantum/action.c:154-163 | Sets or clears one truth value and no other |
| `HandSwap.HandSwapper.ProcessHandSwap` | quantum/action.c:185-198 | Delivers and remembers as `HandSwapModel` says, for matrix keys and others; where that is, read off the steps alone, is `HandSwapModel.PressDelivered` and `HandSwapModel.ReleaseDelivered` |
| `HandSwapModel.MarksLatest` | quantum/action.c:185-198 | After any run a key is marked if and only if swapping was on at its latest press |
| `HandSwapModel.PressDelivered` | quantum/action.c:185-198 | In every run the press of a matrix key is delivered at its place on the other hand if and only if the latest change turned swapping on, and in its own place otherwise, as is every key outside the matrix |
| `HandSwapModel.ReleaseDelivered` | quantum/action.c:146-198 | In every run the release of a matrix key is delivered at its place on the other hand if and only if swapping was on when the key last went down |
| `HandSwapModel.ReleaseFollowsPress` | quantum/action.c:185-198 | However the flag changes in between, a release is delivered at the position of the latest press of its key |
| `Matrix.MatrixScanner.GetRealKeys` | quantum/keyboard.c:223-233 | Exactly the bits of pressed columns that the keymap defines |
| `Matrix.MatrixScanner.PopcountMoreThanOne` | quantum/keyboard.c:235-238 | True if and only if two different bits are set |
| `Matrix.MatrixScanner.HasGhostInRow` | quantum/keyboard.c:240-262 | The optimised test is true if and only if some other row shares two pressed real columns with the row |
| `Matrix.MatrixScanner.ReportRow` | quantum/keyboard.c:569-580 | One event per changed column, in column order, with the new state |
| `Matrix.MatrixScanner.TaskRow` | quantum/keyboard.c:561-583 | A row without change or with a ghost is skipped, otherwise reported and remembered |
| `Matrix.MatrixScanner.MatrixTask` | quantum/keyboard.c:533-586 | The whole task, including the early return when nothing changed, and its result |
| `MatrixRuns.RunFaithful` | quantum/keyboard.c:533-586 | Over any sequence of scans, replaying the events from the all-released matrix gives the remembered matrix, and the events of every key alternate |
| `MatrixRuns.ScanExact` | quantum/keyboard.c:561-583 | After a scan a row without ghosts equals what was scanned; a ghosted row is as before and emits nothing |
| `MatrixRuns.ScanInOrder` | quantum/keyboard.c:569-580 | A scan reports its changes row by row and column by column, each key at most once, and hands all of them to the action code or none |
| `MatrixRuns.NoChangeNoEvents` | quantum/keyboard.c:542-553 | The early return loses nothing: a scan without change would do nothing |
| `MatrixRuns.GhostsComeInPairs` | quantum/keyboard.c:249-261 | The ghost relation is symmetric: the row that a ghosted row shares columns with is ghosted too |
| `Store.KeymapStore.GetKeycode` | quantum/dynamic_keymap.c:113-120 | Reads the big-endian pair of a key, 0 out of range |
| `Store.KeymapStore.SetKeycode` | quantum/dynamic_keymap.c:122-128 | Makes the two byte updates of a key, none out of range |
| `Store.KeymapStore.GetEncoder` | quantum/dynamic_keymap.c:135-142 | Reads the pair of an encoder direction |
| `Store.KeymapStore.SetEncoderKeycode` | quantum/dynamic_keymap.c:144-150 | Makes the two byte updates of an encoder direction |
| `Store.KeymapStore.Reset` | quantum/dynamic_keymap.c:153-168 | The exact sequence of byte updates of a keymap reset |
| `Store.KeymapStore.MacroReset` | quantum/dynamic_keymap.c:248-255 | The exact sequence of byte updates of a macro reset |
| `Store.KeymapStore.GetBuffer` | quantum/dynamic_keymap.c:170-183 | Bytes of a region by offset and size, zeros beyond its end |
| `Store.KeymapStore.WriteBuffer` | quantum/dynamic_keymap.c:185-196 | The byte updates of a buffer write, nothing beyond the end of the region |
| `Store.KeymapStore.MacroSend` | quantum/dynamic_keymap.c:257-340 | The player over the macro buffer with its 8-byte scratch, every index in range, sends the strings of the model |
| `KeymapProofs.KeyOfIndex` | quantum/dynamic_keymap.c:108-111 | Addresses are injective: layer, row and column follow from the rank of a key |
| `KeymapProofs.IndexOfKey` | quantum/dynamic_keymap.c:108-111 | Every rank below the number of keys belongs to a key |
| `KeymapProofs.KeysTile` | quantum/dynamic_keymap.c:108-111 | Every byte of the keymap belongs to a key |
| `KeymapProofs.KeysDisjoint` | quantum/dynamic_keymap.c:108-111 | Different keys have disjoint bytes |
| `KeymapProofs.KeycodeIsBufferPair` | quantum/dynamic_keymap.h:30-38 | The keycode of a key is the big-endian pair at twice its rank of any buffer read that covers it |
| `KeymapProofs.SetKeyReads` | quantum/dynamic_keymap.c:122-128 | A key set is read back, and every other key reads as before |
| `KeymapProofs.SetKeyStays` | quantum/dynamic_keymap.c:122-128 | Setting a key, in or out of range, changes no byte outside the keymap |
| `KeymapProofs.SetBufferExact` | quantum/dynamic_keymap.c:185-196 | Which bytes a buffer write of any offset and size changes, and to what |
| `KeymapProofs.BufferReadsWritten` | quantum/dynamic_keymap.c:170-196 | Reading any part of a region after a buffer write gives what was written where it fell in the region, the old bytes elsewhere, and zeros beyond the region |
| `KeymapProofs.SetBufferStays` | quantum/dynamic_keymap.c:185-196 | No keymap buffer write touches encoder, macro or VIA bytes |
| `KeymapProofs.BufferRoundTrip` | quantum/dynamic_keymap.c:185-196 | A keymap encoded and sent through the buffer is read back key by key |
| `MacroProofs.SkipExact` | quantum/dynamic_keymap.c:271-285 | Skipping finds the start of macro id if and only if the buffer holds id zero bytes |
| `MacroProofs.SendWithin` | quantum/dynamic_keymap.c:291-339 | Playing reads only the string at its start and its terminator |
| `MacroProofs.OverrunExact` | quantum/dynamic_keymap.c:262-292 | A byte past the buffer is asked for if and only if the buffer holds exactly id zero bytes, and nothing is sent if it holds fewer; the comment at lines 289-290 says the first cannot happen |
| `MacroProofs.OverrunHappens` | quantum/dynamic_keymap.c:289-292 | A buffer and a macro number for which it does |
| `MacroProofs.DoneExactly` | quantum/dynamic_keymap.c:291-339 | Playing comes to the terminator if and only if the string is a sequence of well-formed tokens: a plain byte; prefix, key code and a byte; prefix, delay code, at most four bytes and a bar; prefix and any other code |
| `MacroProofs.SentExactly` | quantum/dynamic_keymap.c:257-340 | A macro that exists is played to its end if and only if its tokens are well formed, and is then sent byte for byte if and only if no unknown code follows a known one in it |
| `MacroProofs.TokensSent` | quantum/dynamic_keymap.c:291-339 | A macro in which no unknown code follows a known one is sent token by token, each as one string, up to its end or up to the first malformed token, where playing stops |
| `MacroProofs.IgnoredExactly` | quantum/dynamic_keymap.c:257-285 | Nothing is played if and only if the number is too large, the buffer is empty or does not end in a zero byte, or it holds fewer zero bytes than the number |
| `MacroProofs.WellFormedSent` | quantum/dynamic_keymap.c:298-338 | A macro of plain bytes and well-formed tokens with the four known codes is sent byte for byte |
| `MacroProofs.StaleByteHappens` | quantum/dynamic_keymap.c:298-338 | A macro for which left-over scratch bytes are sent |
| `Store.KeymapStore.EepromIsValid` | quantum/via.c:62-69 | Whether the three magic bytes match the build date |
| `Store.KeymapStore.EepromSetValid` | quantum/via.c:73-82 | The three magic updates in order |
| `Store.KeymapStore.GetLayoutOptions` | quantum/via.c:121-131 | Options read most significant byte first in 32 bits |
| `Store.KeymapStore.SetLayoutOptions` | quantum/via.c:135-144 | Options written least significant byte first, from the end |
| `Store.KeymapStore.EeconfigInitVia` | quantum/via.c:106-117 | The complete, ordered list of byte updates of a reset |
| `Store.KeymapStore.ViaInit` | quantum/via.c:93-104 | A boot leaves a valid store alone and resets any other |
| `ViaProofs.InitResets` | quantum/via.c:106-117 | An uninterrupted reset gives exactly the reset image: magic, options, keymap, encoders, macros; all else kept |
| `ViaProofs.CutIsInvalid` | quantum/via.c:106-117 | A reset cut after its first and before its last byte update leaves a store that is judged invalid |
| `ViaProofs.CrashSafe` | quantum/via.c:93-117 | However often a reset is cut off, at whatever byte, a store judged valid is the untouched old one or the complete reset image, and the next complete boot leaves one of the two |
| `ViaProofs.ValidForSameDay` | quantum/via.c:57-117 | A store that is valid for one build is valid for another if and only if both have the same year, month and day digits; otherwise booting resets it |
| `ViaProofs.EncoderIsPair` | quantum/dynamic_keymap.c:131-142 | The keycode of an encoder direction is the big-endian pair at four times the rank of the encoder, clockwise first |
| `ViaProofs.SetEncoderReads` | quantum/dynamic_keymap.c:144-150 | An encoder direction that was set is read back, and every other one reads as before |
| `ViaProofs.SetEncoderStays` | quantum/dynamic_keymap.c:144-150 | Setting an encoder, in or out of range, changes no byte outside the encoder map |
| `ViaProofs.ResetReadsKeys` | quantum/dynamic_keymap.c:153-168 | The reset image reads as the default keymap |
| `ViaProofs.ResetReadsEncoders` | quantum/dynamic_keymap.c:153-168 | The reset image reads as the default encoder map |
| `ViaProofs.ResetReadsRest` | quantum/via.c:106-117 | The reset image is valid, has no macros and keeps what a reset does not own |
| `ViaProofs.OptionsRoundTrip` | quantum/via.c:121-144 | Layout options of 1 to 4 bytes are read back as set, modulo their width |
| `Paged.FillTargetAddress` | drivers/eeprom/eeprom_i2c.c:49-55 | The address bytes, least significant last |
| `Paged.I2cWriteBlock` | drivers/eeprom/eeprom_i2c.c:105-148 | Any length at any address in range, and any page size for which the copying loop ends: one linear write in the end, on a chip whose page writes wrap and that ignores writes while busy; every transaction stays in one page |
| `Paged.I2cReadBlock` | drivers/eeprom/eeprom_i2c.c:89-95 | Returns the bytes at the address of an idle chip |
| `Paged.I2cWriteThenRead` | drivers/eeprom/eeprom_i2c.c:89-148 | A range written and read reads as written, and no other byte has changed |
| `Paged.I2cErase` | drivers/eeprom/eeprom_i2c.c:73-82 | Every byte is zero afterwards, whether or not the chip holds whole pages only |
| `Paged.SpiWriteChunk` | drivers/eeprom/eeprom_spi.c:167-208 | Wait, enable, write: the chunk is written, or a failing step leaves the memory alone |
| `Paged.SpiWriteBlock` | drivers/eeprom/eeprom_spi.c:155-225 | Exactly a prefix that ends at a page boundary, or at the end, is written, all of it on a reliable bus |
| `Paged.FlashWriteRange` | drivers/flash/flash_spi.c:323-383 | The same for flash, where a write clears bits only; success if and only if everything was written and the closing steps went well, and then the chip is idle and not enabled |
| `Paged.SpiReadBlock` | drivers/eeprom/eeprom_spi.c:119-153 | The bytes at the address, because the busy chip is waited for, or zeros when it cannot be reached |
| `Paged.SpiWriteThenRead` | drivers/eeprom/eeprom_spi.c:119-225 | A range written and read reads as written, on flash if it was erased, and no other byte has changed |
| `PagedModel.AllCopiedExactly` | drivers/eeprom/eeprom_i2c.c:115-125 | The loop that copies a chunk with an 8-bit counter ends for every chunk of a write if and only if the first chunk has at most 255 bytes and so has the rest of the write or the page |
| `PagedModel.AddressRoundTrip` | drivers/flash/flash_spi.c:128-132 | An address that fits its bytes reaches the chip unchanged |
| `PagedModel.AddressBytesInOrder` | drivers/flash/flash_spi.c:128-132 | The bytes of an address go out with the most significant first |
| `PagedModel.CutExactly` | drivers/eeprom/eeprom_spi.c:160-213 | A loop whose chunk of a given number fails has written exactly the chunks before it: nothing, or all that lies before the end of as many pages |
| `PagedModel.PageWriteIsLinear` | drivers/eeprom/eeprom_i2c.c:113-117 | A page write that stays in its page is a linear write |
| `PagedModel.CellWraps` | drivers/eeprom/eeprom_i2c.c:113-117 | One byte more would land at the start of the same page |
| `PagedModel.ChunksAreLinear` | drivers/flash/flash_spi.c:327-366 | Split writes compose to one linear write of what got through |
| `PagedModel.CutAtPage` | drivers/eeprom/eeprom_spi.c:160-213 | An aborted loop stops at a page boundary |
| `PagedModel.WriteAllIsLinear` | drivers/flash/flash_spi.c:327-366 | Both together, for the whole loop and any failing step |
| `PagedModel.ReadsBack` | drivers/flash/flash_spi.c:357 | After the write the range reads as written, on flash with exactly those bits set that were set before as well, and everything else as before |
| `Encoder.QuadratureDriver.StateChange` | drivers/encoder/encoder_quadrature.c:161-198 | Pulses, events and queue after one change, in int8_t; other encoders untouched |
| `Encoder.QuadratureDriver.Read` | drivers/encoder/encoder_quadrature.c:200-207 | History and pulses after one sample; a repeated sample changes nothing |
| `QuadratureModel.Conservation` | drivers/encoder/encoder_quadrature.c:72-207 | For resolutions 1 to 127, after every sample the pulses are below the resolution and the deltas so far equal resolution times (counter-clockwise minus clockwise events) plus the pulses |
| `QuadratureModel.ConservationFails` | drivers/encoder/encoder_quadrature.c:174-193 | For every resolution from 128 on a run breaks that law, because the pulse count wraps |
| `QuadratureModel.TurnIsPhase` | drivers/encoder/encoder_quadrature.c:72 | While one pin changes at a time, the deltas add up to the Gray-code phase difference modulo 4 |
| `QuadratureModel.TurnCountsSteps` | drivers/encoder/encoder_quadrature.c:72 | On any path the deltas count the steps one Gray-code phase on less those one phase back; a sample without change and one in which both pins change count nothing |
| `QuadratureModel.ThereAndBackCancels` | drivers/encoder/encoder_quadrature.c:161-207 | Any path followed by its reverse ends with no pulses and as many events one way as the other |
| `QuadratureModel.RemIsRemainder` | drivers/encoder/encoder_quadrature.c:193 | The remainder by repeated subtraction is the one of truncating division |
| `Encoder.EncoderQueue.Full` | quantum/encoder.c:85-87 | Full if and only if all but one slot are taken |
| `Encoder.EncoderQueue.Empty` | quantum/encoder.c:93-95 | Empty if and only if nothing is queued |
| `Encoder.EncoderQueue.QueueEvent` | quantum/encoder.c:101-116 | Appends, or refuses when full; the invariant that the counters differ by the ring length modulo 256 is kept |
| `Encoder.EncoderQueue.DequeueEvent` | quantum/encoder.c:118-133 | Takes the oldest event, or reports an empty queue |
| `Encoder.EncoderQueue.Drain` | quantum/encoder.c:25-28 | Empties the queue and keeps the invariant of the counters |
| `Encoder.EncoderQueue.HandleQueue` | quantum/encoder.c:30-57 | Handles everything queued, in order |
| `Uf2.MemoryBlock.Encode` | util/uf2conv.py:149-166 | The 512 bytes of a page, or nothing when a header word does not fit 32 bits |
| `Uf2.StoreByte` | util/uf2conv.py:194-200 | A byte goes to the current block in place, or to a new block when the page changes |
| `Uf2.Converter.ConvertToUf2` | util/uf2conv.py:121-142 | Returns the file of `Uf2Model`, or nothing if a block address does not fit 32 bits; the file is pinned byte by byte in `Uf2Bytes.FileBlockBytes`, the condition in `Uf2Bytes.FitsExactly` |
| `Uf2.Converter.DecodeBlock` | util/uf2conv.py:49-108 | One block: skipped, rejected, padded, selected, and the confusion of families at the last block |
| `Uf2.Converter.ConvertFromUf2` | util/uf2conv.py:37-109 | The decoder over a whole file, its output and the start address it leaves, also after an exception |
| `Uf2.Converter.ConvertFromHexToUf2` | util/uf2conv.py:168-205 | The reader over all records up to the end record and the encoded file; its pages, base and start address, also after an exception, are those of the records alone by `Uf2Proofs.ReaderWrites` and `Uf2Proofs.ReaderStart` |
| `Uf2Proofs.FileRoundTrip` | util/uf2conv.py:37-142 | Any contents that fit come back zero-padded to a multiple of 256, at their start address, for any family |
| `Uf2Proofs.ChainDecodes` | util/uf2conv.py:37-109 | A file of blocks of one family that ascend within the gap limit decodes to their payloads with the gaps zeroed |
| `Uf2Proofs.ReaderWrites` | util/uf2conv.py:168-205 | The reader fails if and only if a field is missing before the end record. Otherwise its pages are those of exactly the writes that the records describe: data bytes from the base address of the latest record of type 4 (times 65536) or type 2 (times 16) plus the offset of the record; and its start address is that of the first data record |
| `Uf2Proofs.ReaderStart` | util/uf2conv.py:170-193 | The start address left behind, also after an exception, is that of the first data record before the end or the exception |
| `Uf2Proofs.HexDecodes` | util/uf2conv.py:37-205 | HEX records that visit pages in ascending order within the gap limit come back as the memory they describe: from the first page start, last write wins, unset bytes zero |
| `Uf2Bytes.FileBlockBytes` | util/uf2conv.py:121-142 | Block k of the file of a binary, byte by byte: both start magics, the flags, start + 256k, 256, k, the number of blocks and the family as little-endian words, 256 bytes of the contents padded with zeros, zeros, and the end magic |
| `Uf2Bytes.FitsExactly` | util/uf2conv.py:134-136 | The contents can be written if and only if every block address fits 32 bits |
| `Uf2Bytes.PageBlockBytes` | util/uf2conv.py:149-166 | The same for block k of the file of a page list, with the device-type flag and the extension bytes 08 29 A7 C8 and the device type, or zeros |
| `Uf2Bytes.PagesFitExactly` | util/uf2conv.py:149-205 | The pages of HEX records can be written if and only if every address written to fits 32 bits |
| `Uf2Lengths.FlashDecodes` | util/uf2conv.py:49-109 | A file of one family, with payloads of any length and blocks not meant for flash anywhere in it, decodes if and only if every other block has at most 476 bytes and follows the one before it within the gap limit; it gives exactly their payloads with the gaps zeroed, and for another selected family the gaps alone |
| `Uf2Exact.DecodesExactly` | util/uf2conv.py:68-80 | A file of like blocks of one family, in any order, decodes if and only if each block follows the one before it, word-aligned and at most 10 MiB further on |
| `Uf2Exact.HexDecodesExactly` | util/uf2conv.py:37-205 | The file made of HEX records, if it can be made, decodes if and only if consecutive bytes that the records store never go back to an earlier page and never skip more than 10 MiB |
| `Uf2Exact.BackwardsFails` | util/uf2conv.py:37-205 | Any two records that store a byte on one page and then a byte on an earlier one make a file that cannot be decoded |
| `Uf2Magic.BadMagicFails` | util/uf2conv.py:51-53 | No file with a block with a bad magic number decodes |
| `Uf2Magic.SkippedExactly` | util/uf2conv.py:51-53 | A file decodes as it would without its bad blocks if and only if it has none, or what is left cannot be decoded either |
| `Uf2Magic.BadMagicHappens` | util/uf2conv.py:51-53 | A block that decodes, and fails with 512 zeros after it |
| `Uf2Families.TwoFamiliesDecode` | util/uf2conv.py:61-80 | What each selection extracts from a file of two families |
| `Uf2Families.FamilySelected` | util/uf2conv.py:61-108 | Selecting a family gives exactly its image if and only if the other family leaves no gaps (zeros for gaps are written for either), with its start address; selecting none gives nothing |
| `Uf2Families.GapHappens` | util/uf2conv.py:68-80 | A file of two families for which selecting the first gives 256 bytes too many |

## Left out

- `TappingRuns.WaitingIsFifo`: speaks of the waiting ring only; the order of all output is claimed only for the situations of `TappingTaps` and `TappingRolls`, because after the drain loop stops with no tapping key a new event is handled before the ring.
- `Paged.I2cWriteBlock`: speaks of the writes that end; chips that put address bits in the device address are not modelled, and I2C calls do not fail.
- `Uf2.Converter.ConvertToUf2`: requires that the start address is set, as it is before every conversion of one run of the script.
- `ViaProofs.CrashSafe`: assumes that the build date has decimal digits where the magic bytes come from; keyboard-level overrides of the VIA hooks are not modelled.
- `process_record` writing back into its record, the tap hint, COMBO, REPEAT_KEY, AUTO_SHIFT and RETRO_SHIFT in tapping; `clear_keyboard` on overflow.
- Nested runs of the deferred task from inside a callback, a null table, and the wrappers of the basic API.
- Encoder positions in the layer cache and in hand swapping: both directions share one entry there.
- The layer operations by mask, layer hooks, tri-layer, STRICT_LAYER_RELEASE and NO_ACTION_LAYER builds.
- `matrix_can_read`, tick generation, scan-rate counting, printing, and the LED side of `switch_events`.
- The truncation of layer, row and column loop counters and of 16-bit offsets; stores are assumed to fit the address space.
- `eeprom_update_byte` wear: whether an equal byte is written is not distinguished, only the contents and the order of updates.
- Busy-wait deadlines, failures in the middle of an SPI transfer, flash erase, write-protect pins and GPIO.
- ENCODER_DEFAULT_POS, split keyboards, pin reading and the request to drain in the encoder code.
- Splitting Intel HEX text into lines and digits, the HEX checksum (the script ignores it), the C array output, drives, files, family names and printed headers in the UF2 script.
- `quantum/crc.c` and `eeconfig_init_quantum`, whose properties would be of another kind; report sending, LED, audio, mouse and other effects on hardware.
