# A verified model of the QMK key-event engine and its stores

QMK firmware turns a matrix of switches into key events, decides which presses are taps and
which are holds, keeps modifiers and layers consistent, runs deferred callbacks, and keeps
keymaps and macros in EEPROM or flash. This project models those parts in Dafny and proves what
they promise over every run, every input and every interruption. `dafny verify dfyconfig.toml`
checks all of it.

The code that works by changing things in place is modelled as classes and methods with loops
(`TapHoldRing`, `SourceLayers`, `Engine`, `HandSwap`, `Matrix`, `DeferredExec`, `MacroBuffer`,
`Eeprom`, `ViaStore`, `MacroStrings`, `PageDrivers`, `EncoderReader`, `Uf2Convert`). Each is
proved equal to a specification on values (`TapHold`, `BoardState`, `Deferred`, `DynamicMacro`,
`KeymapStore`, `Via`, `PageWrites`, `Encoder`, `Uf2`, `Uf2Files`, `HexText`), and the laws are proved about
the specification.

| files | part of the firmware |
|---|---|
| KeyEvents, Actions, ActionWords | key events, records, action codes |
| TapHold, TapHoldLedger, TapHoldOrder, TapHoldStall, TapHoldLiveness, TapHoldTaps, TapHoldChoice, TapHoldPairs, TapHoldRelease, TapHoldTrace, TapHoldMixup, TapHoldOverflow, TapHoldRing | tap/hold resolver |
| SourceLayers, LayerWord, BoardState, Engine, HandSwap, SwapClash | source-layer cache, modifiers and layers, hand swap |
| MatrixBits, Matrix, Pipeline | matrix scan, and the path from matrix to modifiers and layers |
| Deferred, DeferredClock, DeferredExec | deferred executor |
| DynamicMacro, MacroBuffer | two-ended macro recorder |
| Arith, Wrappers, BigEndian, Eeprom, KeymapStore, Via, ViaStore, MacroStrings | persistent keymap, its initialisation, stored macro strings |
| PageWrites, PageDrivers | page-split writes of the EEPROM and flash drivers |
| Encoder, EncoderReader | quadrature encoders |
| Uf2, Uf2Families, Uf2Files, HexText, HexAddresses, Uf2Convert | UF2 converter |

## Where the code does less than it seems to promise

Each of these is kept as the code has it; the lemmas named give a failing input, or exactly the
inputs that fail, and the law is proved for the others.

- The tap/hold resolver does not always deliver in order of arrival. `JoinsEndOfLine` gives the
  exact condition, `OrderCanBreak` a run (two mod-tap keys and a stall of the main loop) in which
  a plain key's release is delivered before its press.
- A press processed as a tap can be released as a hold, which does not take its keycode off
  (`TapReleasedAsHold`, with all terms as they are by default). Over alternating runs in turn,
  presses and releases in the log, and the tags of the releases that still wait, match after every
  decision if and only if each tap is decided by the key's own release (`MatchesExactly`); decision
  by decision that is `BeginsTapExactly` and `TapsFirstExactly`. (A tag that does not match is not
  yet a press released wrongly.) What a caller can rule out is the one branch behind it: a key that
  is re-pressed too late for a quick tap, or after another key, becomes the tapping key without a
  look at the waiting records (quantum/action_tapping.c:401-403). `ReleasedAsPressed` proves that
  presses and releases match in every run in which that branch takes no key up whose waiting release
  would make it a tap, the tapping term of an undecided key does not grow, and nothing waits as long
  as the 16-bit clock takes to go round.
- A ring overflow clears modifiers and keys but not the layers (quantum/action_tapping.c:88-95,
  quantum/action.c:1076-1107). What is left on afterwards is exactly the layers that were on
  (`OverflowLeavesLayers`); a momentary layer stays on with all keys up when its key's release was
  among the records thrown away (`LayerStaysOn`; over runs, `OverflowInRun`). Pressing and releasing
  that key once more frees the layer if and only if its new press resolves to a layer on which the
  key holds it too (`PressReleaseFrees`).
- While a row that may show ghosts differs from what was last reported, the scan counts as changed
  in every round, so no tick is generated (quantum/keyboard.c:504-528) and no time-out of the
  resolver comes to pass, however long the keys are held. A steady scan gives ticks if and only if
  no row is held back (`SteadyRound`); `FourthCorner` is an input, `HeldBackStopsTimeouts` the
  consequence.
- Switching hand swap while keys are down can make two keys act as one position, and a keycode can
  stay on with all keys up (`ClashSticks`). The changes of the matrix still alternate after swapping
  if and only if no key is pressed that acts as a position another key acts as
  (`AlternatesExactly`), in particular when swapping is switched at rest (`RestMeansNoClash`).
- A deferred delay of 2^31 ms or more is due at once (`DueAtOnce`).
- The macro sender reads behind the macro area when the area holds exactly as many NULs as
  strings to skip, although its comment says that it cannot (`OverrunExactly`, `OverrunHappens`);
  and after a longer escape it sends a stale byte behind an escape of unknown kind
  (`SendsTheMacro`, `StaleByteSent`).
- The I2C EEPROM driver takes the bus address from the start of a block, so on a chip that holds
  address bits there, as the header suggests for the AT24M02, a block that crosses into the next
  64 KiB goes to the wrong place (`BlockWriteExactly`).
- The same driver copies a chunk with an index of one byte, so a chunk of 256 bytes or more is
  copied for ever (drivers/eeprom/eeprom_i2c.c:115-117). A block comes to be sent if and only if
  the pages are shorter, or neither its first chunk nor what follows is that long (`SentExactly`,
  and both conditions together in `BlockWriteExactly`); on a chip with pages of 256 bytes no whole
  page is ever sent (`WholePageStuck`), and erasing it changes nothing (`Erase`).
- An encoder resolution of 128 or more overflows the signed step counter (`WideResolutionOverflows`).
- The UF2 reader means to skip a block with a bad magic number, but building the message adds a
  number to a string, which raises an exception (util/uf2conv.py:51-53): a file decodes as if such
  blocks were skipped if and only if it has none (`ForeignBlocksRefused`, `ForeignBlockAlone`).
- With a family selected, the UF2 reader still fills the gaps inside other families' blocks: the
  selected images come out one behind the other if and only if no other family has gaps
  (`OwnImagesExactly`). Several families without a selection are refused only if the last block is
  one that is flashed; a block that is not flashed behind them hides the mixture (`MixtureHidden`).
- The HEX reader looks at the first character of every line, so a text of lines that each end with
  a newline is read if and only if an end record stops the reader before the empty line behind
  the last newline (`TextRoundTrip`); `NewlineIsFatal` is a text of one record.

## Model

| member | source | states |
|---|---|---|
| `TapHoldRing.Resolver.Enq` | quantum/action_tapping.c:439-455 | refuses exactly a non-tick when seven records wait; otherwise the record joins the end of the ring, ticks are never stored |
| `TapHoldRing.Resolver.IsTyped` | quantum/action_tapping.c:470-477 | true exactly when the ring holds the opposite event of the same key |
| `TapHoldRing.Resolver.Scan` | quantum/action_tapping.c:494-521 | hands on an undecided tapping key as a tap exactly when its release waits within the term, tagging the first such release |
| `TapHoldRing.Resolver.ProcessTapping` | quantum/action_tapping.c:166-433 | the in-place decision procedure computes `TapHold.Step`: new tapping key, ring, log, record and whether it was consumed |
| `TapHoldRing.Resolver.ActionTappingProcess` | quantum/action_tapping.c:80-113 | offer, store or overflow, then drain with a moving tail index equals `TapHold.Process` |
| `TapHoldRing.RingPush` | quantum/action_tapping.c:439-450 | storing at the head index modulo 8 appends to the queue the two indices stand for |
| `TapHoldRing.RingPop` | quantum/action_tapping.c:101-109 | moving the tail index modulo 8 removes the queue's first record and nothing else |
| `TapHoldLedger.StepLedger` | quantum/action_tapping.c:166-433 | one decision delivers a record, keeps it as the undecided key, or leaves everything in place; only a release let through passes the undecided key |
| `TapHoldLedger.RunKeepsInv` | quantum/action_tapping.c:62-113 | after every run the ring is bounded, holds no tick and no tagged press, and a released tapping key was tapped |
| `TapHoldLedger.RunConserves` | quantum/action_tapping.c:80-113 | conservation: delivered, pending and overflowed events together are exactly the events that arrived, as multisets, for every run |
| `TapHoldLedger.RunSynthetics` | quantum/action_tapping.c:302-322 | every made-up release ends a press that was handed on before with a tap count above one, and carries its key and tap state |
| `TapHoldOrder.ConsumedExactlyWhen` | quantum/action_tapping.c:166-433 | with records waiting, a new event is consumed exactly when the entry condition does not hold |
| `TapHoldOrder.JoinsEndOfLine` | quantum/action_tapping.c:80-113 | an arriving event takes its place at the end of the line if and only if the ring is empty, the tapping key undecided, or a released tapping key timed out |
| `TapHoldOrder.ProcessOrder` | quantum/action_tapping.c:80-113 | one call entered in turn keeps the order of everything but the releases it lets through; when keys alternate, it keeps that of all events of each key |
| `TapHoldOrder.RunOrder` | quantum/action_tapping.c:101-109 | the same over every run entered in turn: on each of these channels what was delivered, followed by what is waiting, is what arrived |
| `TapHoldOrder.OnlyLetThroughMoves` | quantum/action_tapping.c:241-269 | over every run entered in turn everything but the releases let through keeps its place among all events; and those are releases that the action of their key does not hold back, so a retained modifier or layer release stays in place |
| `TapHoldStall.OrderCanBreak` | quantum/action_tapping.c:335-342 | a concrete alternating run after which a release was delivered before its press |
| `TapHoldStall.EnteredOutOfTurn` | quantum/action_tapping.c:335-342 | its last call is entered outside the condition |
| `TapHoldLiveness.TickProgress` | quantum/action_tapping.c:335-346 | while anything is pending, a tick past the tapping term strictly lowers the rank of ring length and tapping key |
| `TapHoldLiveness.LateTicksEmpty` | quantum/action_tapping.c:101-109 | 23 ticks later than every pending press leave nothing pending, on the wrapping 16-bit clock |
| `TapHoldTaps.QuickTapsCount` | quantum/action_tapping.c:389-400 | n quick taps with any ticks between are delivered as n pairs of press and release, the i-th tagged min(i, 15) |
| `TapHoldChoice.Decides` | quantum/action_tapping.c:190-332 | what makes an undecided key a tap or a hold, over every run of ticks and other keys that leave it waiting and one event more: past the term it is a hold; its own release in term makes it a tap with count 1; another key's press makes it a hold if and only if hold-on-other-key-press says so; the release of a key pressed since, if and only if permissive hold says so; the release of a key pressed before goes past it if and only if that key is not retained; else nothing is handed on |
| `TapHoldChoice.AfterTap` | quantum/action_tapping.c:384-433 | after a tap the same key pressed again is one tap more if and only if it comes in the quick-tap term and uninterrupted, else it waits anew; other tap keys wait, all else is handed on, and a press of those interrupts |
| `TapHoldChoice.AfterLateTap` | quantum/action_tapping.c:384-433 | past the term a tap is forgotten |
| `TapHoldChoice.DuringTap` | quantum/action_tapping.c:289-332 | while a tap is down, its release is handed on with its count; another tap key is taken up, behind a made-up release if and only if the count is above one; all else is handed on |
| `TapHoldChoice.LooksAhead` | quantum/action_tapping.c:494-521 | a tap key taken up with records waiting is a tap at once if and only if a release of it waits in its term, and the first such is tagged |
| `TapHoldChoice.AtRest` | quantum/action_tapping.c:166-189 | at rest every event that starts no decision is handed on at once |
| `TapHoldPairs.StepIsOneOf` | quantum/action_tapping.c:166-433 | every decision is one of ten moves: wait, hold, first tap, further tap, end of a tap, pass, overtake, begin, begin as a tap, forget |
| `TapHoldPairs.ConsumedGood` | quantum/action_tapping.c:166-433 | a record consumed from the front of the queue, unless it begins as a tap, is processed so that a press is of a key that is up, a release as its press was, and tags of waiting releases still match |
| `TapHoldPairs.UnconsumedExactly` | quantum/action_tapping.c:202-292 | a decision that leaves the record waiting keeps all that exactly when, if it was a first tap, the release that decided it is the first of its key |
| `TapHoldPairs.TapsFirstExactly` | quantum/action_tapping.c:202-210 | after a first tap of the undecided key, presses and releases match if and only if the release that decided it is the first waiting of its key |
| `TapHoldPairs.BeginsTapExactly` | quantum/action_tapping.c:494-521 | after a press found to be a tap by looking ahead, they match if and only if the release found is the key's own |
| `TapHoldRelease.MatchesExactly` | quantum/action_tapping.c:80-113 | over every run of alternating keys arriving in turn, presses and releases in the log and the tags of waiting releases match after every decision if and only if each tap is decided by the key's own release |
| `TapHoldRelease.ReleasedAsPressed` | quantum/action_tapping.c:80-113 | over every such run in which no key is taken up again past a waiting release that would make it a tap (and the clock does not go round while events wait), every press is released as the tap or hold it was processed as |
| `TapHoldMixup.TapReleasedAsHold` | quantum/action_tapping.c:401-403 | a concrete run in turn and in time under default terms, with nothing left waiting, in which a key is taken up that way and a press processed as a tap is released as a hold |
| `TapHoldOverflow.LayerStaysOn` | quantum/action_tapping.c:88-95 | a concrete run after which all keys are up, nothing waits, and a momentary layer is on: its key's release was in the ring that overflowed |
| `SourceLayers.AssignBit` | quantum/action_layer.c:232-238 | the xor/negate trick sets exactly the wanted bit value |
| `SourceLayers.AssignKeepsOthers` | quantum/action_layer.c:232-238 | and leaves every other bit of the byte |
| `SourceLayers.GatherBits` | quantum/action_layer.c:244-254 | collecting one bit per slice gives back the stored layer number |
| `SourceLayers.LayerCache.UpdateEntry` | quantum/action_layer.c:232-238 | an entry holds the layer, cut to the bits there are, and no other entry changes |
| `SourceLayers.LayerCache.ReadEntry` | quantum/action_layer.c:244-254 | reads what the entry holds |
| `SourceLayers.LayerCache.Update` | quantum/action_layer.c:260-271 | the bit-sliced cache is a map from matrix keys to layers: the written key changes, all others keep theirs, keys outside are ignored |
| `SourceLayers.LayerCache.Read` | quantum/action_layer.c:277-289 | reads that map, 0 outside the matrix |
| `BoardState.TopLayer` | quantum/action_layer.c:323-343 | the highest active layer on which the key is not transparent, else layer 0 |
| `BoardState.NothingStuck` | quantum/action.c:389-418 | in every run in which no key is pressed twice without a release and each is released as what it was pressed, each modifier bit, keycode and layer that is on is held by a key now down, whatever layers changed and whatever was cleared in between |
| `BoardState.AllUpAllOff` | quantum/action.c:634-636 | when all keys are up, all modifiers, keycodes and momentary layers are off |
| `BoardState.HeldIsOn` | quantum/action.c:389-418 | what a pressed key holds is on, and stays on until a key that holds the same is released or it is cleared |
| `BoardState.PressReleaseFrees` | quantum/action_layer.c:299-317 | from any board, pressing a key and releasing it later, whatever other keys do between, takes off exactly what it holds on the layer its press resolves to; so what was left on is freed if and only if it is among that |
| `Engine.KeymapIsValid` | quantum/keymap_common.c:196-208 | whatever the keymap, a position outside the matrix holds nothing |
| `ActionWords.EveryWord` | quantum/action_code.h:119-163 | every action word is built from a kind, four modifier bits and a code, and in one way |
| `ActionWords.TapWords` | quantum/action.c:1136-1158 | which words, by kind and code, start a tap-or-hold decision |
| `ActionWords.RetainedWords` | quantum/action_tapping.c:242-265 | which words, by kind, modifiers, code and tap count, hold a release back |
| `ActionWords.ModifiedKeyHolds` | quantum/action.c:389-418 | a key with modifiers holds its keycode and, as weak modifiers, the four bits of its word, left as 0 to 3 and right as 4 to 7; a modifier key or none holds them as real ones |
| `ActionWords.ModTapHolds` | quantum/action.c:512-539 | a tapped mod-tap key holds its keycode, or its one modifier bit; a held one holds exactly its modifier bits |
| `ActionWords.LayerTapHolds` | quantum/action.c:692-714 | a tapped layer-tap key holds its keycode; a held one its layer, none from layer 16 on |
| `ActionWords.MomentaryHolds` | quantum/action.c:634-636 | a momentary layer key holds its layer |
| `ActionWords.LayerModsHold` | quantum/action.c:608-616 | a layer-with-modifiers key holds its layer and all eight modifier bits |
| `Engine.KeyEngine.StoreOrGetAction` | quantum/action_layer.c:299-317 | a press resolves on the current layers and remembers them, a release resolves on the remembered layer |
| `Engine.KeyEngine.LayerSwitchGetLayer` | quantum/action_layer.c:323-343 | the downward search finds `TopLayer` |
| `Engine.KeyEngine.AddMods` | quantum/action_util.c:342-344 | exactly the given modifier bits are added to those on |
| `Engine.KeyEngine.DelMods` | quantum/action_util.c:349-351 | exactly the given modifier bits are removed |
| `Engine.KeyEngine.AddWeakMods` | quantum/action_util.c:378-380 | the same for weak modifiers |
| `Engine.KeyEngine.DelWeakMods` | quantum/action_util.c:385-387 | the same for weak modifiers |
| `Engine.KeyEngine.ClearWeak` | quantum/action_util.c:399-401 | no weak modifier is on, all else is unchanged |
| `Engine.KeyEngine.ClearKeyboard` | quantum/action.c:1076-1107 | modifiers, weak modifiers and keys are off, the layers stay as they are |
| `Engine.KeyEngine.LayerOn` | quantum/action_layer.c:168-170 | the bit set by shift and or switches exactly that layer on, none for a layer beyond the word |
| `Engine.KeyEngine.LayerOff` | quantum/action_layer.c:176-178 | the bit cleared by shift and and-not switches exactly that layer off |
| `Engine.KeyEngine.RegisterCode` | quantum/action.c:884-948 | registers a basic keycode or sets a modifier's bit, and nothing else |
| `Engine.KeyEngine.UnregisterCode` | quantum/action.c:954-1005 | undoes exactly that |
| `Engine.KeyEngine.ProcessKey` | quantum/action.c:391-418 | press and release add and remove the same modifiers and keycode; weak modifiers go with keys, real ones with modifier keys |
| `Engine.KeyEngine.ProcessLayerTap` | quantum/action.c:617-730 | a momentary or layer-tap key adds and removes the same layer or keycode |
| `Engine.KeyEngine.ProcessAction` | quantum/action.c:365-730 | for every action that holds while down, press adds and release removes exactly its share; what the share is, `ActionWords` tells from the bits of the word |
| `Engine.KeyEngine.ProcessRecord` | quantum/action.c:269-309 | the engine on bit masks and the bit-sliced cache computes `BoardState.ProcessRecord` |
| `HandSwap.ReleaseFollowsPress` | quantum/action.c:146-213 | a release is swapped if and only if the key's last press was, however swapping was switched in between |
| `HandSwap.PressFollowsSwitch` | quantum/action.c:146-176 | a press is swapped if and only if swapping was last switched on |
| `HandSwap.AlternatesExactly` | quantum/action.c:185-213 | the alternating changes of the matrix alternate at the positions acted on if and only if no key is pressed that acts as a position another key acts as |
| `HandSwap.RestMeansNoClash` | quantum/action.c:166-176 | which does not happen when hands are switched only while no key is down |
| `SwapClash.ClashSticks` | quantum/action.c:185-213 | a concrete run that switches hands in between and leaves a keycode on with all keys up |
| `HandSwap.Swapper.SetSwapState` | quantum/action.c:154-163 | sets one bit of the array and no other |
| `HandSwap.Swapper.ProcessHandSwap` | quantum/action.c:185-213 | the bit array refines a set of swapped keys; the event's key is mirrored exactly when it is to be swapped |
| `MatrixBits.MoreThanOneCols` | quantum/keyboard.c:227-230 | clearing the lowest set bit leaves something exactly when two different columns are pressed |
| `Matrix.GhostMeansRectangle` | quantum/keyboard.c:232-254 | a row shows ghosts if and only if it is a side of a rectangle of four pressed real keys |
| `Matrix.Scanner.HasGhostInRow` | quantum/keyboard.c:232-254 | the loop over the other rows decides exactly that |
| `Matrix.ReportedDifferences` | quantum/keyboard.c:504-557 | a scan reports exactly the differences of the rows that are not withheld |
| `Matrix.ScanReportsOnce` | quantum/keyboard.c:504-557 | within a scan no key is reported twice |
| `Matrix.ScanInOrder` | quantum/keyboard.c:532-554 | changes are reported row by row, column by column |
| `Matrix.EventStream` | quantum/keyboard.c:504-557 | over every sequence of scans the reported events alternate per key, starting with a press, and replaying them gives exactly the remembered matrix |
| `Matrix.Scanner.MatrixTask` | quantum/keyboard.c:488-557 | one round executes the events of the changes and updates the remembered matrix accordingly; without a change, or a matrix that cannot be read, at most one tick a millisecond; without processing here, the changes but no events |
| `Matrix.RoundExactly` | quantum/keyboard.c:488-557 | a round with changes executes them one for one with the times the clock gives; one without executes exactly one tick, at its time, if and only if the millisecond moved on |
| `Matrix.LoopTimes` | quantum/keyboard.c:504-557 | over all rounds every event executed carries the time of a round it comes from |
| `Matrix.LoopLastTick` | quantum/keyboard.c:488-495 | over all rounds, what a tick is measured against is the last tick executed |
| `Matrix.ScanSettles` | quantum/keyboard.c:532-554 | after a scan every row that is not withheld is as reported; a withheld row is held back exactly when it differed before |
| `Matrix.SteadyRound` | quantum/keyboard.c:510-528 | the same scan once more reports nothing, and gives ticks if and only if no row is held back |
| `Matrix.HeldBackStopsTicks` | quantum/keyboard.c:510-528 | while a row is held back and the matrix stays as it is, no event is executed, over any number of rounds at any times |
| `Matrix.FourthCorner` | quantum/keyboard.c:232-254 | the fourth corner of a rectangle of keys is such a case |
| `Pipeline.PassesThrough` | quantum/action_tapping.c:166-189 | without tap keys the resolver hands every event on at once, unchanged and in order |
| `Pipeline.LoopCarries` | quantum/keyboard.c:504-557 | over any rounds of the main loop the events executed, ticks left out, carry exactly the changes the scans report |
| `Pipeline.HeldBackStopsTimeouts` | quantum/keyboard.c:510-528 | while a row is held back the resolver stays as it is, an undecided key undecided |
| `Pipeline.LogDrivesBoard` | quantum/action.c:70-107 | however weak modifiers are cleared and default layers changed between the records of a log in which presses and releases match, the operations alternate and the board's keys down are the log's |
| `Pipeline.TapKeysToBoard` | quantum/keyboard.c:504-557 | from matrix through the resolver to modifiers and layers, for every keymap with tap keys, every timing, every setting and every placement of the clearing of weak modifiers: what is on is held by a key that is down; with nothing waiting such a key is pressed in the remembered matrix, and nothing is on when none is (under the conditions of `ReleasedAsPressed`) |
| `Pipeline.MatrixToBoard` | quantum/keyboard.c:504-557 | the same without tap keys, under no assumption on arrival: what is on is held by a key pressed in the remembered matrix, and nothing is on when none is |
| `Pipeline.SwappedToBoard` | quantum/action.c:75-100 | the same with hands swapped at any times and no clash: what is on is held by a position some pressed key acts as, and nothing is on when no key is pressed |
| `Pipeline.OverflowLeavesLayers` | quantum/action_tapping.c:88-95 | after a call that overflows the ring exactly the layers that were on are left on, each held by a key down in the log; the last event of such a key is its press, or was thrown away |
| `Pipeline.OverflowInRun` | quantum/action_tapping.c:80-95 | the same over a run of alternating keys in turn whose last call overflows: exactly the layers are left on, each held by a key whose last event is its press or a release thrown away |
| `Deferred.AllocateExactly` | quantum/deferred_exec.c:30-40 | the wrapping search fails if and only if every token is taken, and finds only usable ones |
| `Deferred.AllocateSucceeds` | quantum/deferred_exec.c:30-40 | with a free slot in a table of at most 255 entries it succeeds (pigeonhole) |
| `Deferred.AllocateNearest` | quantum/deferred_exec.c:30-40 | the token given out is the next usable one behind the last |
| `Deferred.RunKeepsDistinct` | quantum/deferred_exec.c:46-151 | over every sequence of defer, extend, cancel and task, live tokens are pairwise distinct |
| `Deferred.DeferSucceeds` | quantum/deferred_exec.c:46-73 | deferring succeeds if and only if a slot is free, with a token that no live entry had |
| `Deferred.DeferRefuses` | quantum/deferred_exec.c:46-73 | without a delay or a callback nothing is queued and nothing changes |
| `Deferred.DeferFills` | quantum/deferred_exec.c:46-73 | what succeeds fills the first free slot, due after the delay on the wrapping clock, and no other |
| `Deferred.CancelUndoesDefer` | quantum/deferred_exec.c:95-116 | cancelling what was just deferred restores the table |
| `Deferred.ExtendSucceeds` | quantum/deferred_exec.c:75-93 | extending succeeds if and only if the delay is positive and the token live, and moves that deadline alone |
| `Deferred.CancelSucceeds` | quantum/deferred_exec.c:95-116 | cancelling succeeds if and only if the token is live, and frees that entry alone |
| `DeferredClock.DueAtOnce` | quantum/deferred_exec.c:62-66 | a new entry is due at once if and only if its delay is 2^31 or more |
| `DeferredClock.ThrottleExactly` | quantum/deferred_exec.c:118-123 | the throttle lets a run through exactly when the true time advanced |
| `DeferredClock.TaskRefines` | quantum/deferred_exec.c:118-151 | a task run on the wrapping clock, throttle included, does what it would on an unbounded one and makes the same calls |
| `DeferredClock.CallsAreExact` | quantum/deferred_exec.c:126-149 | a run calls exactly the entries whose true deadline has come, each once, in table order |
| `DeferredClock.ClockNeverMatters` | quantum/deferred_exec.c:46-151 | over every timely run of defer, extend, cancel and throttled tasks the wrapping table is the image of a table with unbounded deadlines, and the callbacks called are the same, in the same order |
| `DeferredClock.RepeatsKeepPace` | quantum/deferred_exec.c:130-148 | after any number of repeats the deadline is the first one plus all returned delays modulo 2^32, at most one call per run |
| `DeferredExec.Executor.TokenCanBeUsed` | quantum/deferred_exec.c:18-28 | true exactly for a valid token that no entry has |
| `DeferredExec.Executor.AllocateToken` | quantum/deferred_exec.c:30-40 | the 8-bit wrapping loop terminates with `Allocate` and leaves the last token tried |
| `DeferredExec.Executor.DeferExec` | quantum/deferred_exec.c:46-73 | fills the first free slot, or changes nothing but the token counter |
| `DeferredExec.Executor.ExtendDeferredExec` | quantum/deferred_exec.c:75-93 | moves the deadline of the token's entry and nothing else |
| `DeferredExec.Executor.CancelDeferredExec` | quantum/deferred_exec.c:95-116 | frees the token's entry and nothing else |
| `DeferredExec.Executor.ExecTask` | quantum/deferred_exec.c:118-151 | visits all entries in place and calls what is due, or does nothing if throttled |
| `DynamicMacro.RecordsFromFirstPress` | quantum/dynamic_macro.h:104-122 | what is recorded is the typed events from the first press on, as far as there is room |
| `DynamicMacro.TrimForm` | quantum/dynamic_macro.h:128-142 | ending a recording drops exactly the presses at its end |
| `DynamicMacro.RunKeepsInv` | quantum/dynamic_macro.h:154-260 | in every run saved macros are empty or start with a press and end with a release, and together fit the buffer |
| `DynamicMacro.SessionPlaysBack` | quantum/dynamic_macro.h:154-260 | start, type anything, stop, play: what plays is the typed events from the first press, cut to the room, without trailing presses; the other macro is untouched |
| `DynamicMacro.SessionPlays` | quantum/dynamic_macro.h:154-260 | by positions: what plays starts at the first press, takes what the other macro leaves room for, and stops behind the last release of that |
| `DynamicMacro.GoesOn` | quantum/dynamic_macro.h:193-260 | a key is kept from further processing exactly when it is a stop or play key while recording, or the release of a start or play key else |
| `DynamicMacro.ReactsTo` | quantum/dynamic_macro.h:193-260 | records are played only by the release of a play key while nothing is recorded, and macros change only as recordings start, go on and stop |
| `MacroBuffer.Recorder.PlayCells` | quantum/dynamic_macro.h:77-93 | plays the cells of one macro in the order they were recorded, in either direction |
| `MacroBuffer.Recorder.RecordKey` | quantum/dynamic_macro.h:104-122 | stores a record without touching the other macro's cells |
| `MacroBuffer.Recorder.TrimEnd` | quantum/dynamic_macro.h:128-142 | walks back over exactly the presses at the end |
| `MacroBuffer.Recorder.ProcessRecord` | quantum/dynamic_macro.h:154-260 | the shared array with two end pointers, which keep 0 <= end <= other end + 1 <= size, computes `DynamicMacro.Handle` |
| `Eeprom.SomePrefix` | drivers/eeprom/eeprom_driver.c:60-65 | however power runs out, exactly a prefix of the writes took effect, skipped writes included |
| `Eeprom.EnoughPower` | drivers/eeprom/eeprom_driver.c:60-65 | with power for all of them, all writes take effect |
| `Eeprom.NoChangeNoCost` | drivers/eeprom/eeprom_driver.c:60-65 | writes of what is there already cost nothing |
| `Eeprom.Chip.UpdateByte` | drivers/eeprom/eeprom_driver.c:60-65 | writes only if different, with the effect of the write |
| `BigEndian.NumberRoundTrip` | quantum/via.c:121-144 | layout options are read back as written, cut to the bytes there are |
| `BigEndian.FirstByteCountsMost` | quantum/via.c:121-144 | the first byte counts most |
| `KeymapStore.KeyAddressFormula` | quantum/dynamic_keymap.c:108-111 | a key's address is the one the firmware computes field by field |
| `KeymapStore.EncoderAddressFormula` | quantum/dynamic_keymap.c:130-133 | so is an encoder's, clockwise first |
| `KeymapStore.KeyIndexInjective` | quantum/dynamic_keymap.c:108-111 | different keys have different places |
| `KeymapStore.CellsDisjoint` | quantum/dynamic_keymap.c:108-133 | the two-byte cells of different keys and encoder directions do not overlap |
| `KeymapStore.SetThenGet` | quantum/dynamic_keymap.c:113-150 | reading after writing gives the new keycode for that cell and the old one for every other |
| `KeymapStore.BulkReadsKeycodes` | quantum/dynamic_keymap.c:170-183 | bulk reading gives the big-endian stream of the keycodes, zeros beyond it |
| `KeymapStore.BulkWriteIsConfined` | quantum/dynamic_keymap.c:185-196 | bulk writing never changes an encoder, macro or configuration byte |
| `KeymapStore.BulkWriteThenRead` | quantum/dynamic_keymap.c:170-196 | bulk reading gives back what bulk writing wrote |
| `KeymapStore.AreaWriteThenRead` | quantum/dynamic_keymap.c:222-246 | the same for any area, in particular the macro buffer |
| `Via.ValidOnlyAtEnds` | quantum/via.c:62-117 | after any prefix of an initialisation's byte writes, from any contents, the magic is valid only if nothing or everything was written |
| `Via.AllCellsAre` | quantum/dynamic_keymap.c:153-168 | the reset loops reach every key and encoder and nothing else |
| `Via.InitResets` | quantum/via.c:106-117 | a complete initialisation leaves valid magic, default options, the image's keycodes and empty macros, whatever the store held |
| `Via.InitIsAllOrNothing` | quantum/via.c:93-117 | an initialisation cut off anywhere that ends valid changed nothing or did everything |
| `Via.ValidMeansTrusted` | quantum/via.c:62-117 | crash consistency: through any number of interrupted boots and resets and any edits, a valid store was valid at the start or fully reset at some step, with nothing but edits since |
| `Via.BootResets` | quantum/via.c:93-117 | with enough power a boot fully resets a store that is not valid, and it leaves a valid one alone |
| `Via.ResetResets` | quantum/via.c:106-117 | with enough power a reset fully resets any store |
| `Via.BootRecovers` | quantum/via.c:93-117 | after any steps cut off anywhere, one boot with enough power ends valid: as before if it was, else fully reset |
| `ViaStore.Store.IsStoreValid` | quantum/via.c:62-69 | true exactly when all three magic bytes are this build's |
| `ViaStore.Store.SetValid` | quantum/via.c:73-82 | writes the magic bytes, or 0xFF three times, in order |
| `ViaStore.Store.GetLayoutOptions` | quantum/via.c:121-131 | the big-endian number in the options bytes |
| `ViaStore.Store.SetLayoutOptions` | quantum/via.c:135-144 | issues the writes whose round trip `NumberRoundTrip` proves |
| `ViaStore.Store.GetKeycode` | quantum/dynamic_keymap.c:113-142 | the cell's keycode, KC_NO for a cell there is not |
| `ViaStore.Store.SetKeycode` | quantum/dynamic_keymap.c:122-150 | issues the two byte writes of a cell, none for a cell there is not |
| `ViaStore.Store.GetAreaBytes` | quantum/dynamic_keymap.c:170-183 | the copying loop reads the area, padded with zeros |
| `ViaStore.Store.SetAreaBytes` | quantum/dynamic_keymap.c:185-196 | the copying loop issues exactly the writes inside the area |
| `ViaStore.Store.KeymapReset` | quantum/dynamic_keymap.c:153-168 | the nested loops issue exactly the writes of all cells, layer by layer |
| `ViaStore.Store.MacroReset` | quantum/dynamic_keymap.c:248-255 | the moving pointer issues zeros for the whole macro area |
| `ViaStore.Store.EeconfigInitVia` | quantum/via.c:106-117 | issues exactly `Via.InitWrites`, also when power fails |
| `ViaStore.Store.ViaInit` | quantum/via.c:93-104 | a boot changes a valid store not at all and initialises any other |
| `MacroStrings.SkipDropsStrings` | quantum/dynamic_keymap.c:275-284 | skipping id NULs succeeds exactly when there are id strings, and drops exactly those |
| `MacroStrings.OverrunExactly` | quantum/dynamic_keymap.c:257-292 | the sender reads behind the area if and only if the area is terminated and holds exactly id NULs |
| `MacroStrings.QuietExactly` | quantum/dynamic_keymap.c:257-284 | nothing is sent exactly for a macro number there is not, an area that is not terminated, or too few strings |
| `MacroStrings.CutsAt` | quantum/dynamic_keymap.c:297-338 | where a macro is cut: three bytes for a tap, down or up, a delay at its first bar among the five places, two for an unknown kind, one for a plain byte |
| `MacroStrings.OverrunHappens` | quantum/dynamic_keymap.c:275-284 | an area that makes it happen |
| `MacroStrings.SendsTheMacro` | quantum/dynamic_keymap.c:286-340 | what is sent is the id-th NUL-separated string cut into its pieces exactly when no escape of unknown kind follows a longer one, and these pieces make up the whole string exactly when all its escapes are whole |
| `MacroStrings.StaleByteSent` | quantum/dynamic_keymap.c:298-338 | for every keycode and unknown kind, a tap followed by such an escape sends the tap's keycode again |
| `MacroStrings.MacroSend` | quantum/dynamic_keymap.c:257-340 | the pointer loop with its eight-byte buffer computes `Send`, with every read inside the area unless `Overrun` and every buffer index in bounds |
| `PageWrites.ProgramInPage` | drivers/eeprom/eeprom_i2c.c:97-133 | a chunk that stays in its page lands byte for byte although the chip's counter wraps in the page |
| `PageWrites.ChunkFits` | drivers/eeprom/eeprom_i2c.c:107-112 | no chunk crosses a page end, and all but the last end at one |
| `PageWrites.SentExactly` | drivers/eeprom/eeprom_i2c.c:115-117 | all chunks of a block come to be sent if and only if the pages have fewer than 256 bytes, or its first chunk and the rest have |
| `PageWrites.InsideWindow` | drivers/eeprom/eeprom_i2c.c:97-133 | the chunks together are a plain block write, however many pages they span, if each is short enough to be copied |
| `PageWrites.BlockWriteExactly` | drivers/eeprom/eeprom_i2c.c:97-133 | the I2C write ends, as a plain block write for every memory, if and only if the pages have fewer than 256 bytes, or first chunk and rest have, and the block stays in one bus-address window |
| `PageWrites.WholePageStuck` | drivers/eeprom/eeprom_i2c.c:115-117 | on a chip with pages of 256 bytes the write of a whole page gets stuck, for every page and memory, and changes nothing |
| `PageWrites.ReachedEndsPage` | drivers/eeprom/eeprom_spi.c:147-217 | a write that fails in between leaves nothing, everything, or a prefix that ends at a page end |
| `PageWrites.RepeatCompletes` | drivers/flash/flash_spi.c:316-376 | repeating a flash write that was cut off anywhere gives what one complete write gives |
| `PageDrivers.PagedChip.FillTargetAddress` | drivers/eeprom/eeprom_i2c.c:48-54 | the packet's address bytes decode to the address, cut to the bytes there are |
| `PageDrivers.PagedChip.CopyChunk` | drivers/eeprom/eeprom_i2c.c:115-117 | copies a chunk behind the address if it has fewer than 256 bytes; otherwise its one-byte index is back at zero before the end |
| `PageDrivers.PagedChip.WriteBlock` | drivers/eeprom/eeprom_i2c.c:97-133 | the loop on packets computes `BlockWrite`, and ends exactly when `IsSent` |
| `PageDrivers.PagedChip.UpdateBlock` | drivers/eeprom/eeprom_driver.c:52-58 | a block that already reads back as given is left alone, any other is written with `BlockWrite`, which may not end; if it ends inside one bus-address window, the memory is as after a plain write |
| `PageDrivers.PagedChip.Erase` | drivers/eeprom/eeprom_i2c.c:65-74 | with pages of fewer than 256 bytes every byte is zero, also on chips with several windows; with longer ones it does not end and nothing is changed |
| `PageDrivers.PagedChip.SpiWriteBlock` | drivers/eeprom/eeprom_spi.c:147-217 | after the first failing bus operation exactly the pages before it are written |
| `PageDrivers.PagedChip.FlashWriteBlock` | drivers/flash/flash_spi.c:316-376 | success exactly when all bus operations succeed; in any case a prefix of the block had its bits cleared |
| `PageDrivers.FlashedAll` | drivers/flash/flash_spi.c:316-376 | all bytes reach the chip exactly when there are enough operations for them |
| `PageDrivers.CostIs` | drivers/flash/flash_spi.c:316-376 | a flash write takes one operation per byte and three per page touched |
| `PageDrivers.FlashWriteMeans` | drivers/flash/flash_spi.c:316-376 | over erased flash a successful write reads back as written, and a failed one can be repeated |
| `Encoder.TableIsQuarter` | quantum/encoder.c:61 | the lookup table is the quarter step forward, back or none between two pin states |
| `Encoder.StepsAreClicks` | quantum/encoder.c:190-260 | for every pin history, the quarter steps are resolution times the net clicks plus a rest below the resolution, and the counter holds the clicks |
| `Encoder.BackCancels` | quantum/encoder.c:61 | going back over any path takes every step back |
| `Encoder.ThereAndBack` | quantum/encoder.c:190-260 | turning any way and back from rest hands on no clicks on balance |
| `Encoder.ForwardIsUp` | quantum/encoder.c:61 | four forward steps are one click up, four back one down |
| `Encoder.WideResolutionOverflows` | quantum/encoder.c:190-246 | for every resolution from 128 on, a forward turn ends with no click up and no step counted |
| `Encoder.CatchesUpExactly` | quantum/encoder.c:276-299 | a fetch from the other half hands on exactly the missed clicks if and only if they fit a signed byte |
| `Encoder.NothingMissed` | quantum/encoder.c:276-299 | over any number of fetches no click is missed, through counter overflows |
| `EncoderReader.Encoders.Update` | quantum/encoder.c:190-246 | one encoder takes a step, its clicks are handed on, others are untouched |
| `EncoderReader.Encoders.Read` | quantum/encoder.c:248-260 | every encoder takes the step of its own pins, clicks come in index order |
| `EncoderReader.ClicksAreFollowed` | quantum/encoder.c:190-260 | over any number of polls the clicks handed on for each encoder, up less down, are those of its own pins |
| `EncoderReader.Encoders.CatchUp` | quantum/encoder.c:276-299 | the two loops end with the other half's count and have handed on the signed difference |
| `EncoderReader.Encoders.UpdateRaw` | quantum/encoder.c:276-301 | all counts of the other half end as fetched, and no others change |
| `EncoderReader.FetchHandsOn` | quantum/encoder.c:276-301 | on a fetch each encoder hands on, up less down, the signed difference of its counts |
| `Uf2.BlockRoundTrip` | util/uf2conv.py:121-142 | the header words and the payload of an encoded block are read back |
| `Uf2.BlockBytes` | util/uf2conv.py:121-142 | the bytes of a block: magic numbers at both ends, address and family with the least significant byte first |
| `Uf2.DecodesImage` | util/uf2conv.py:37-109 | a file of encoded blocks is accepted exactly when they ascend with gaps the reader allows, and decodes to their bytes with zeros in the gaps |
| `Uf2.OneBlockDecodes` | util/uf2conv.py:47-80 | one flashed block decodes to as many bytes as its header says, up to 476, and is an error beyond |
| `Uf2.ForeignBlocksRefused` | util/uf2conv.py:48-53 | a file whose other blocks are acceptable decodes as if those with a bad magic were skipped if and only if there are none, and is an error otherwise |
| `Uf2.ForeignBlockAlone` | util/uf2conv.py:48-53 | a single such block is an error, although the empty file is not |
| `Uf2Families.SelectionDecodes` | util/uf2conv.py:37-109 | a file of segments of several families decodes, for a selected one, to its images and the other segments' gaps, starting where its last segment does |
| `Uf2Families.EncodedBlock` | util/uf2conv.py:121-142 | encoded blocks, however numbered, are such segments' blocks |
| `Uf2Families.OwnImagesExactly` | util/uf2conv.py:60-80 | that is the selected images one behind the other if and only if no other family has gaps |
| `Uf2Families.MixtureGivesNothing` | util/uf2conv.py:104-108 | several families without a selection give nothing |
| `Uf2Families.MixtureHidden` | util/uf2conv.py:54-56 | unless a block that is not flashed comes behind them |
| `Uf2Files.BinaryRoundTrip` | util/uf2conv.py:121-142 | a binary comes back zero-padded to a multiple of 256, with its start address |
| `Uf2Files.BlocksInOrder` | util/uf2conv.py:168-205 | the pages of a HEX file are in order exactly when its bytes come page by page upwards |
| `Uf2Files.HexRoundTrip` | util/uf2conv.py:168-205 | a HEX file turned into UF2 decodes exactly then, to every byte at its address and zeros elsewhere |
| `HexText.TextRoundTrip` | util/uf2conv.py:173-189 | a text of lines that write records, in either case and with or without carriage returns, is read as these records exactly when they are acceptable up to an end record |
| `HexText.NewlineIsFatal` | util/uf2conv.py:173-175 | a record without an end record is read, and is an error with a newline behind it |
| `HexText.DigitsAre` | util/uf2conv.py:179-181 | the sixteen digits in either case, and no others |
| `HexAddresses.ByteLands` | util/uf2conv.py:182-199 | byte k of a data record goes to the record's address plus k above the base that the last record of type 4 (times 2^16) or 2 (times 16) set, in order |
| `HexAddresses.NothingElse` | util/uf2conv.py:182-199 | no checksum and nothing behind an end record is written |
| `HexAddresses.TextToImage` | util/uf2conv.py:168-205 | from text to image: a data byte whose address no later one has is found at that address |
| `Uf2Convert.ConvertToUf2` | util/uf2conv.py:121-142 | the loop computes `ToUf2`, an error exactly when an address does not fit its word |
| `Uf2Convert.ConvertFromUf2` | util/uf2conv.py:37-109 | the reader with its variables computes `Decode`, errors included |
| `Uf2Convert.HexReader.Put` | util/uf2conv.py:194-199 | filling pages in place gathers the bytes as `PlaceBytes` does |
| `Uf2Convert.ConvertFromHex` | util/uf2conv.py:168-205 | splitting lines, reading digits and records and encoding the pages computes `ReadText` and `HexToUf2`, errors included |

## Left out

- Tap/hold options RETRO_SHIFT and COMBO and the swap-hands tap hint; `process_record` is modelled as appending to a log and assumed not to change the record it is given.
- ReleasedAsPressed: a key may be taken up again past a waiting release and the run still come out right; `MatchesExactly` has the exact condition, this one the branch to look at.
- ProcessRecord: the actions left out of ProcessAction are excluded here too.
- ProcessAction: layer actions that outlast the key (toggle, one-shot, tap-toggle, set-clear, bit operations), mouse keys and media usages are not modelled.
- RegisterCode: locking keys, system, consumer and mouse codes are not modelled.
- UnregisterCode: neither are they here.
- ProcessLayerTap: tap-toggle, off-on, set-clear and one-shot operations, which outlast the key or act on its release.
- The host report and its six-key limit: registered keycodes are a set.
- The two layer words are numbers with shift, or and and-not written out on them, a matrix row a sequence of booleans; modifiers and the two bit arrays are bytes.
- Weak user and keyboard hooks, the `process_*` feature chain, debug output, LEDs and timing of delays.
- Encoders as keys (ENCODER_MAP_ENABLE), which have keycodes outside the matrix and a second source-layer cache with the same two functions.
- Playing a dynamic macro also clears the keyboard and saves and restores the layers; only the records played are modelled.
- Deferred callbacks that call the executor again, and records changed while a macro plays.
- via_init's keyboard hook, the raw HID command dispatcher, and the extra invalidation before an explicit reset command.
- MacroSend: what follows a read behind the macro area is not modelled; it is the outcome `Overrun`.
- WriteBlock: bus failures that the I2C driver ignores, and the write-protect pin.
- SpiWriteBlock: the busy-wait loop is one operation that succeeds or fails.
- ENCODER_DEFAULT_POS, and encoder_inerrupt_read, where several pulses build up before one check.
- ConvertFromHex: a sign or blank that Python's int() takes in place of a digit is an error in the model; the printed summary and the start address set for it.
- The CRC, GPIO expanders, displays, haptics, Bluetooth, USB hub, mouse keys, words per minute, colours, joystick and key tables: register plumbing or small finite domains that would only add easy members.
