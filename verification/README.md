# Verification of the Silkroad server

Dafny models of six parts of the server and proofs about them. `dafny verify dfyconfig.toml` checks
everything.

1. **Inventory, change log, optimiser, table.** `Inventories.Inventory` edits a slot map in place and
   records changes; `Changes` is the log optimiser for any change type; `InventoryChanges` is the merge
   table and the effect of each change; `InventoryOptimizer` (one-slot changes), `Absorptions` (all
   kinds, replayed by their slots) and `TableAbsorptions` (judged by the table) say what the optimiser does to
   inventory logs, `BrokenLogs` where it goes wrong; `ItemTables` is `character_items` with the statements of
   each change; `SideBySide` is the write without an order; `Persistence` joins them into sessions. An edit is
   described by a step function (`MoveStep`, `AddStep`), the class methods are proved to do exactly that, and
   replay, conservation and persistence are proved about the steps. Replay is strict: a change that is not
   legal where it stands stops it; replay by slots looks at the slots only, not at the data.
2. **Handshake and cipher.** `PowMod`, `Security`, `Handshake`. The block cipher is a parameter, a keyed
   pair of inverse functions. 64 bit values are their little-endian bytes.
3. **Frames.** `Frames`, `Codec`, `StreamReaders`: wire form, incremental decoding of any byte stream,
   massive packets.
4. **Login admission.** `Admission` is a machine of atomic steps in which play tokens drop at any moment;
   `LoginQueues` runs the code statement by statement, with players leaving in between, and records a run
   of that machine.
5. **Derived serialiser.** `Schema` holds writer, sizer and reader as interpreters over one recursive
   description of a type, `SchemaLaws` their laws, `SchemaCode` the emitted loops over a buffer.
6. **Visibility and experience.** `RegionLookup`, `VisibilityDeltas`, `ExperienceLoop`. Coordinates are
   reals.

What came out false of the code is stated with an input, and with its exact condition unless a bullet says
otherwise:

- The optimiser promises that an optimised log has the effect of the log (changes.rs:52-56). That holds for
  every log of additions, data changes and removals (`InventoryOptimizerSound`). It does not hold with moves:
  `MovesBreakTheOptimizer` folds a move too far, `DataBreaksTheOptimizer` a data change; nor with swaps:
  `CancellationGoesOn` cancels an addition across one. All leave the wrong table, and `MovedThenStackedLosesAnItem` is a whole session.
  - Replayed by slots, one absorption is right if and only if it is `Absorbable` (`AbsorptionExact`,
    `CancelledSwapExact`). Over a whole run every working list keeps the effect if and only if every absorption
    is right (`EveryIterationKeepsEffect`), and then the table ends right (`AnyLogOnTable`); for the last list
    alone that is sufficient and not necessary (`WrongAbsorptionsMayCancel`).
  - The table is more forgiving: an insert overwrites, an update of an empty slot does nothing, a move to a taken
    slot is refused. There the condition is exact for data changes, where it is the same (`DataOnTable`), for
    additions (`AdditionOnTable`), and for moves whose source is next filled by an addition
    (`MoveOverAdditionOnTable`) or by another move with nothing else touching the two (`MoveOverMoveOnTable`);
    for other moves `Absorbable` is sufficient.
- The periodic write runs its statements side by side. For additions, data changes and removals that is right in
  every order if and only if no slot was emptied and filled again since the last write: `SideBySideExact`;
  `RefilledSlotIsLost` is an order that loses an item.
- Two proper swaps in the same order are reported incompatible, and a swap of a slot with itself followed
  by a swap of that slot is reported cancelled, because inventory.rs:275 compares `first` with
  `other_first` twice: `MergeTableSound`. Recorded logs never contain a swap of a slot with itself:
  `RecordedSwapsAreProper`.
- `move_item` drops both items without recording it when stacking gives up: `MoveIsRecorded`. It conserves what
  there is exactly for the moves of `Conserving` (`MoveConservesExactly`). Otherwise it loses items
  (`BothStacksAreLost`) or creates them (`ItemsAreCreated`), as `MoveLoss` says; a client can ask for both.
- A packet survives the frame layer exactly up to 15 bits of content: `FrameRoundTripExact`,
  `MassivePacketSurvives`; the chunks of `create_for` hold the payload exactly under the condition of
  `PayloadIsKept`.
- The derived reader reads back what was written exactly for the values of `SchemaLaws.Fits`; the derived
  size is off by `SchemaLaws.Surplus`, for example one byte short for the two-byte list length at
  silkroad-protocol/src/spawn.rs:99, and for a two-byte text unless it is ASCII (`WideTextNeedsAscii`).
- A massive header announcing no containers makes the next container underflow the count: `UnderflowsExactly`.
- A client value whose square passes 63 bits overflows a product, and a wrong key panics as well, both in the
  handshake: `OnlyTheFirstSquare`, `PanicsExactly`.
- A modulus of 1 makes the handshake disagree when exactly one secret is zero: `SecretsAgree`.
- The nine regions are enough exactly up to a radius of one region: `RadiusLimit`.

The visibility lists rely on one send per update, which is how the systems are scheduled
(silkroad-agent/src/game/mod.rs:84 and 107): spawns are sent before despawns, so with two updates before one
send an entity that left and came back would be lost (`VisibilityDeltas.Visibility.Send`).

Where an input of the code is outside the model's preconditions, the code panics or overflows there: an
inventory has more than 12 slots; the counters of the experience loop do not overflow; a reservation lives for
at least a second; the viewer's region has neighbours. Fixed width arithmetic follows the checked (debug)
profile: an overflow is a panic, and where it is an answer of the model it is `Overflow` or `Panic`.

## Model

| member | source | states |
|---|---|---|
| Changes.MergeRecursive | silkroad-game-base/src/changes.rs:77-107 | the loop over a popped vector and a linked list used at both ends computes the walk |
| Changes.MergeNext | silkroad-game-base/src/changes.rs:81-103 | what one answer of `merge` does to the working list, in log order |
| Changes.Optimize | silkroad-game-base/src/changes.rs:67-74 | the fold computes `Optimized`; logs of at most one entry stay |
| Changes.OptimizedIsSound | silkroad-game-base/src/changes.rs:52-74 | for every change type with the laws and every log legal on a state: same effect, and no two entries of one key that could still merge |
| Changes.Optimized | silkroad-game-base/src/changes.rs:52-74 | the optimised log is never longer |
| Changes.WalkIsSound | silkroad-game-base/src/changes.rs:77-107 | one call keeps the effect although a merged entry goes last: the absorbed entry commutes with what it jumps over |
| Changes.WalkSettled | silkroad-game-base/src/changes.rs:99-103 | after a cancellation the rest of the walk changes nothing |
| Changes.Slide | silkroad-game-base/src/changes.rs:96-105 | a change that commutes with every entry of a stretch can be read before or after it |
| Changes.LastAnswerDecides | silkroad-game-base/src/changes.rs:81-103 | the last entry that the change is not left alone with decides: stop, go on with the merged change last, or go on with what stood between |
| Changes.WalkAppends | silkroad-game-base/src/changes.rs:87-90 | a change that every entry is left alone with goes to the end |
| Changes.OptimizeGrows | silkroad-game-base/src/changes.rs:67-74 | a longer log is what the rest was optimised to with its last change walked through |
| Changes.OrderIsIrrelevant | silkroad-agent/src/persistence/mod.rs:138-157 | changes of distinct keys have one effect in whatever order they are applied |
| SkillBooks.SkillLaws | silkroad-agent/src/comp/skill.rs:42-50 | `LearnedSkill::merge` keyed by group satisfies the optimiser's laws |
| SkillBooks.SkillsWrittenInAnyOrder | silkroad-agent/src/comp/skill.rs:42-76 | the written list has at most one entry per group and gives the right levels in any order |
| SkillBooks.SkillBook.LearnSkill | silkroad-agent/src/comp/skill.rs:24-27 | sets the level of the group, appends to the log, keeps the log replayable |
| SkillBooks.SkillBook.TakeChanges | silkroad-agent/src/comp/skill.rs:52-61 | hands out a log that replays from the last written skills to the current ones |
| InventoryChanges.MergeTableSound | silkroad-game-base/src/inventory.rs:111-293 | all five kinds, all slot maps: a merged change has the effect of both and a cancelled pair none, if and only if the pair is not a self-swap followed by a proper swap of that slot |
| InventoryChanges.MergeAnswers | silkroad-game-base/src/inventory.rs:111-293 | for every pair, legal or not, which of the four answers it gets, by the slots where the changes start and end |
| InventoryChanges.UnchangedExactly | silkroad-game-base/src/inventory.rs:111-293 | a legal pair is left alone if and only if its slots are separate or it is one of four kinds of pair, all with a move |
| InventoryChanges.UnchangedCommutes | silkroad-game-base/src/changes.rs:40-45 | changes answered Unchanged are indifferent to their order if and only if their slots are separate or the first is a self-move |
| InventoryChanges.EffectIsLocal | silkroad-game-base/src/inventory.rs:87-109 | a change touches its own slots only and depends on them only |
| InventoryOptimizer.OneSlotLaws | silkroad-game-base/src/inventory.rs:111-293 | additions, data changes and removals satisfy the optimiser's laws |
| InventoryOptimizer.InventoryOptimizerSound | silkroad-game-base/src/changes.rs:52-107 | every legal log of those keeps its effect and leaves per slot one entry, or a removal followed by an addition |
| InventoryChanges.FoldFits | silkroad-game-base/src/inventory.rs:111-293 | what a merged or cancelled pair does to the slots does not depend on the data it starts from |
| Absorptions.AbsorptionExact | silkroad-game-base/src/changes.rs:96-105 | replayed by slots, folding an addition, a data change or a move into a later change keeps the effect of a working list if and only if it is absorbable |
| Absorptions.CancelledSwapExact | silkroad-game-base/src/inventory.rs:273-290 | two swaps that cancel across changes the second is indifferent to: right if and only if the first is proper or the second swaps like with like |
| Absorptions.EveryIterationKeepsEffect | silkroad-game-base/src/changes.rs:77-107 | replayed by slots, over the whole run on a log that cancels clear swaps only, every working list keeps the effect if and only if every absorption is right |
| Absorptions.AnyLogSoundWhenRight | silkroad-game-base/src/changes.rs:52-107 | a log of all five kinds that fits keeps its effect when every absorption along the run is right; sufficient, not necessary |
| TableAbsorptions.AnyLogOnTable | silkroad-agent/src/persistence/mod.rs:173-179 | and then the optimised log leaves the table matching the inventory |
| TableAbsorptions.DataOnTable | silkroad-agent/src/comp/inventory.rs:56-66 | a folded data change leaves the table right if and only if the two data are stored alike or the item does not end in another slot as it was |
| TableAbsorptions.AdditionOnTable | silkroad-agent/src/comp/inventory.rs:45-55 | a folded addition leaves the table right if and only if its item is back in its slot, as added if it is moved on, or is gone and what the later change leaves is stored like it |
| TableAbsorptions.MoveOverAdditionOnTable | silkroad-agent/src/comp/inventory.rs:67-80 | a move folded over an addition to its source: right if and only if the moved item is removed next and its source is empty, or it is gone and the later change moves a slot onto itself |
| TableAbsorptions.MoveOverMoveOnTable | silkroad-agent/src/comp/inventory.rs:67-80 | a move folded over another move into its source: right if and only if the item goes on to where the other came from and both are stored alike |
| TableAbsorptions.TakenSourceIsEmptied | silkroad-agent/src/comp/inventory.rs:81-89 | a move folded into a removal is wrong whenever its source is taken in the end, whatever stands between |
| BrokenLogs.WrongAbsorptionsMayCancel | silkroad-game-base/src/changes.rs:96-105 | a log that keeps its effect although one absorption on the way is wrong |
| BrokenLogs.MovesBreakTheOptimizer | silkroad-game-base/src/inventory.rs:183-213 | a three-entry log whose optimised form loses an item in every matching table, because a move is folded |
| BrokenLogs.DataBreaksTheOptimizer | silkroad-game-base/src/inventory.rs:217-234 | a four-entry log whose optimised form leaves an old amount in every matching table, because a data change is folded across moves |
| BrokenLogs.CancellationGoesOn | silkroad-game-base/src/changes.rs:102-104 | a five-entry log without moves and data changes whose optimised form loses an item in every matching table, because the walk goes on after a cancellation |
| BrokenLogs.RefilledSlotIsLost | silkroad-agent/src/persistence/mod.rs:138-157 | a log and an order of its statements after which an added item is missing |
| SideBySide.SideBySideExact | silkroad-agent/src/persistence/mod.rs:138-157 | a legal one-slot log, optimised and written without an order, ends matching in every order if and only if no slot occurs twice in it |
| SideBySide.SeparateInAnyOrder | silkroad-agent/src/persistence/mod.rs:138-157 | changes of all kinds that touch different slots leave one table in every order |
| Inventories.ChangeStackSize | silkroad-game-base/src/inventory.rs:37-59 | when a stack changes, to what, and which error otherwise |
| Inventories.SearchEmpty | silkroad-game-base/src/inventory.rs:333-339 | the lowest free slot, or proof that there is none |
| Inventories.FirstOpen | silkroad-game-base/src/inventory.rs:432-435 | a listed slot below its maximum, or proof that all are full |
| Inventories.Inventory.constructor | silkroad-game-base/src/inventory.rs:304-311 | an empty inventory with an empty log |
| Inventories.Inventory.MoveItems | silkroad-game-base/src/inventory.rs:341-409 | new slot map, recorded changes and answer of `move_item`, errors included |
| Inventories.Inventory.StackTakenItems | silkroad-game-base/src/inventory.rs:347-387 | the stacking branch, with both items out of the map |
| Inventories.Inventory.AddItems | silkroad-game-base/src/inventory.rs:431-492 | new slot map, recorded changes and answer of `add_item`, for every order of the hash map |
| Inventories.Inventory.FillStack | silkroad-game-base/src/inventory.rs:434-482 | adding to an open stack, with the overflow placed in a free slot |
| Inventories.Inventory.TakeChanges | silkroad-game-base/src/inventory.rs:526-532 | hands out the log and starts a new one |
| InventoryLaws.MoveIsRecorded | silkroad-game-base/src/inventory.rs:341-409 | for all stacks and maxima, replaying the recorded changes gives the new slot map if and only if stacking does not give up; then both items are gone |
| InventoryAnswers.MoveRecordsExactly | silkroad-game-base/src/inventory.rs:341-409 | the recorded changes of a move, entry by entry, from the slot maps before and after |
| InventoryAnswers.AnswerIsWhatMoved | silkroad-game-base/src/inventory.rs:341-409 | the answer of a move is what the target gained, or what was asked for when nothing stacks |
| InventoryAnswers.AnswerFits | silkroad-game-base/src/inventory.rs:347-387 | stacking moves what was asked for when it fits, else what fits |
| InventoryAnswers.MoveErrors | silkroad-game-base/src/inventory.rs:341-409 | a missing item if and only if the source is empty; the causes of the other errors |
| InventoryAnswers.MoveErrorsExact | silkroad-game-base/src/inventory.rs:347-387 | for stacks within maxima up to 32767, when each stacking error is answered |
| InventoryAnswers.AddGoesWhere | silkroad-game-base/src/inventory.rs:431-492 | an addition fills the first listed open stack of its id and variance, with the rest in the lowest free slot from 13; without one it takes that slot, or answers None when all below the size are taken |
| InventoryLaws.BothStacksAreLost | silkroad-game-base/src/inventory.rs:372-384 | an amount above the source stack makes stacking give up: two stacks are gone and the log fills one of them |
| InventoryLaws.AddIsRecorded | silkroad-game-base/src/inventory.rs:431-492 | replaying the recorded changes gives the new slot map, for every order of the hash map |
| InventoryLaws.MoveKeepsStacks | silkroad-game-base/src/inventory.rs:341-409 | stacks within maxima up to 32767 stay within them and no third slot changes |
| InventoryLaws.AddKeepsStacks | silkroad-game-base/src/inventory.rs:431-492 | stack limits kept, entries only in free slots behind the equipment, only an open matching stack changes |
| InventoryLaws.MoveAccounts | silkroad-game-base/src/inventory.rs:341-409 | totals of every id, exactly: only the moved id changes, by the stated loss |
| InventoryLaws.MoveConservesExactly | silkroad-game-base/src/inventory.rs:341-409 | a move keeps the quantity of every id if and only if it stacks nothing, not all fits, exactly the source stack is asked for, or there was nothing to lose |
| InventoryLaws.FullMoveConserves | silkroad-game-base/src/inventory.rs:341-409 | moving a whole stack within maxima up to 32767 conserves every quantity |
| InventoryLaws.ItemsAreCreated | silkroad-game-base/src/inventory.rs:355-365 | an amount above the source stack that fits the target creates items |
| InventoryLaws.RecordedSwapsAreProper | silkroad-game-base/src/inventory.rs:388-395 | a swap of a slot with itself is never recorded |
| InventoryLaws.AddAccounts | silkroad-game-base/src/inventory.rs:431-492 | totals after every addition, exactly: Some adds the item, None what the open stack still took and strictly less, an overflow and other ids nothing |
| ItemTables.ItemTable.ApplyChange | silkroad-agent/src/comp/inventory.rs:42-154 | runs the statements of a change until one fails |
| ItemTables.StatementsDo | silkroad-agent/src/comp/inventory.rs:42-154 | what the statements of any change do to a table, fitting or not |
| ItemTables.StatementsRefineChange | silkroad-agent/src/comp/inventory.rs:42-154 | a change that fits never breaks the unique key, not between statements either, and ends matching the changed inventory; other characters keep their rows |
| ItemTables.SwapParks | silkroad-agent/src/comp/inventory.rs:118-151 | the three updates of a swap through slot -1 succeed one by one and exchange what the two slots hold |
| ItemTables.LogRefinesReplay | silkroad-agent/src/persistence/mod.rs:173-179 | applying a log that fits change by change ends matching its replay |
| ItemTables.MatchesBoth | silkroad-agent/src/comp/inventory.rs:45-55 | rows match two inventories at once exactly when both are stored alike |
| ItemTables.RowRoundTrip | silkroad-agent/src/comp/inventory.rs:46-54 | a row reads back as the item, signed columns included, if and only if its data is of the kind of its id |
| ItemTables.StoredColumns | silkroad-agent/src/comp/inventory.rs:45-55 | every column of a row, with the signed casts |
| ItemTables.FromDb | silkroad-agent/src/comp/inventory.rs:158-176 | the loop over rows loads `LoadSlots` |
| ItemTables.LoadReadsMatch | silkroad-agent/src/comp/inventory.rs:158-194 | loading rows that match an inventory gives that inventory |
| ItemTables.LastRowIsLoaded | silkroad-agent/src/comp/inventory.rs:158-176 | of two rows that read as one slot the later one is loaded |
| Persistence.PersistenceCollection.Collect | silkroad-agent/src/persistence/mod.rs:129-136 | appends the recorded changes and empties the source |
| Persistence.PersistenceCollection.ApplyExit | silkroad-agent/src/persistence/mod.rs:159-182 | applies the optimised collection in order and empties it |
| Persistence.StepKeepsSync | silkroad-agent/src/persistence/mod.rs:129-182 | every faithful addition, move, tick, periodic write and last write keeps: table plus unwritten changes give the slot map |
| Persistence.MoveKeepsSyncExactly | silkroad-agent/src/persistence/mod.rs:129-136 | a move keeps it if and only if stacking does not give up |
| Persistence.WriteKeepsSyncExactly | silkroad-agent/src/persistence/mod.rs:138-157 | a periodic write of one-slot changes keeps it in every order if and only if no slot occurs twice in the optimised log |
| Persistence.SessionIsPersisted | silkroad-agent/src/persistence/mod.rs:129-182 | after any faithful run of events, with periodic writes in any order of their statements, a last tick and the write of the exit path leave a table that matches and loads the final inventory |
| Persistence.StackingSessionIsPersisted | silkroad-agent/src/persistence/mod.rs:129-182 | the same for every session of additions and moves onto stacks that take them, cut into ticks in any way, with periodic writes in which no slot occurs twice |
| Persistence.MovedThenStackedLosesAnItem | silkroad-agent/src/persistence/mod.rs:159-182 | a session of a move, a pick-up and a stacking move after which a held item is not in the table |
| PowMod.GPowXModP | silkroad-security/src/security.rs:426-438 | for every 32 bit modulus, exponent and base the loop returns the modular power, or panics exactly on the modulus 0 and on a product past 64 bits |
| PowMod.FastPowerIsPower | silkroad-security/src/security.rs:426-438 | square and multiply is the power |
| PowMod.ProductsStaySmall | silkroad-security/src/security.rs:426-438 | below 2^31 no product reaches 2^62 although the base starts unreduced |
| PowMod.SecretsAgree | silkroad-security/src/security.rs:157-169 | where nothing panics, both sides' powers of what they received agree if and only if the modulus is at least 2 or the secrets are zero together |
| PowMod.DrawnNeverPanics | silkroad-security/src/security.rs:105-108 | with the masked random values nothing panics but on the modulus 0 |
| PowMod.OnlyTheFirstSquare | silkroad-security/src/security.rs:426-438 | with a modulus below 2^31 a product overflows if and only if the square of the base does |
| PowMod.PowerModAnswers | silkroad-security/src/security.rs:426-438 | the exponent 0 always answers; otherwise it panics exactly on the modulus 0 and on a product from 2^63 up |
| Security.TransformKeyInPlace | silkroad-security/src/security.rs:440-454 | the in-place byte edits compute the transformed key |
| Security.CountBytes | silkroad-security/src/security.rs:235-251 | the second and third seed byte are never zero |
| Security.CycleValue | silkroad-security/src/security.rs:253-260 | thirty-two rounds |
| Security.SilkroadSecurity.InitializeRandom | silkroad-security/src/security.rs:93-126 | state and data of the start, for all random values |
| Security.SilkroadSecurity.Challenge | silkroad-security/src/security.rs:157-208 | state and answer of `start_challenge`, errors included |
| Security.SilkroadSecurity.Accept | silkroad-security/src/security.rs:217-233 | state and answer of `accept_challenge` |
| Security.OneKeyIsAccepted | silkroad-security/src/security.rs:157-185 | exactly one client key is accepted; any other leaves the state alone |
| Security.OutOfTurn | silkroad-security/src/security.rs:93-97 | every step in the wrong state is refused with its error and leaves the state alone |
| Security.MismatchTells | silkroad-security/src/security.rs:177-185 | a wrong key is answered with the received and the expected proof |
| Security.HandshakeAgrees | silkroad-security/src/security.rs:157-233 | a mirroring client is accepted, reads the challenge it expects, and both hold the same session key |
| Security.FindEncryptedLength | silkroad-security/src/security.rs:362-370 | the least multiple of eight that is not smaller |
| Security.SilkroadSecurity.CryptInPlace | silkroad-security/src/security.rs:283-304 | the buffer becomes its block-wise image, or an error leaves it alone |
| Security.SilkroadSecurity.CryptChunks | silkroad-security/src/security.rs:348-351 | every chunk is rewritten once, in place |
| Security.SilkroadSecurity.Encrypt | silkroad-security/src/security.rs:313-326 | pads with zeros and encrypts |
| Security.EncryptionRoundTrip | silkroad-security/src/security.rs:270-356 | decrypting an encrypted message gives it back with zeros up to the block boundary |
| Security.EncryptedBlocks | silkroad-security/src/security.rs:313-351 | every eight bytes of the encrypted form are those of the zero-padded data under the session key |
| Security.DecryptedBlocks | silkroad-security/src/security.rs:270-304 | the same for decrypting, with both errors |
| Security.PaddedAt | silkroad-security/src/security.rs:318-325 | the padding, byte by byte |
| Security.TransformedByte | silkroad-security/src/security.rs:440-454 | every byte of a transformed key comes from its byte of the value and of the key, both halves alike |
| Security.TransformByteIs | silkroad-security/src/security.rs:440-454 | the byte xor the 8 bit sum of itself, the key's byte and the key byte |
| Security.CycleBits | silkroad-security/src/security.rs:253-260 | one round rotates by one bit and puts the parity of six bits at the bottom |
| Security.CountBytesExactly | silkroad-security/src/security.rs:235-251 | the three count bytes from rounds 32, 64, 96 and 128 |
| Security.LeBytesValue | silkroad-security/src/security.rs:455-462 | the bytes of a number, lowest first |
| Handshake.DoHandshake | silkroad-network/src/security_setup.rs:19-68 | messages sent, state and ending for every list of responses |
| Handshake.EstablishedExactlyWhenProved | silkroad-network/src/security_setup.rs:19-68 | whatever the client sends, encryption is established if and only if it proved the key and confirmed |
| Handshake.PanicsExactly | silkroad-network/src/security_setup.rs:19-68 | the server panics if and only if the random values cannot be powered or the client opens with a key that is not the accepted one |
| Handshake.EndingsExactly | silkroad-network/src/security_setup.rs:42-66 | when the stream failed, when a packet was not expected, and how many messages were sent |
| Handshake.HonestClientCompletes | silkroad-network/src/security_setup.rs:19-68 | a client that uses nothing but the first message completes the handshake, and the server ends with the session key, count and checksum seeds of that message |
| Frames.Serialize | silkroad-network/src/frame.rs:227-283 | the buffer filled from the front is the wire form |
| Frames.WireSize | silkroad-network/src/frame.rs:182-218 | `packet_size` is the number of bytes written, for every frame |
| Frames.PacketBytes | silkroad-network/src/frame.rs:227-256 | a plain packet byte by byte |
| Frames.EncryptedPacketBytes | silkroad-network/src/frame.rs:237-248 | an encrypted packet byte by byte, and the errors without established security |
| Frames.HeaderBytes | silkroad-network/src/frame.rs:257-272 | a massive header byte by byte |
| Frames.ContainerBytes | silkroad-network/src/frame.rs:273-280 | a massive container byte by byte |
| Frames.EncryptedNeedsSecurity | silkroad-network/src/frame.rs:126-145 | an encrypted frame without established security is an error |
| Frames.FrameRoundTripExact | silkroad-network/src/frame.rs:106-180 | parsing a wire form followed by anything gives the frame and its size if and only if it is framable |
| Frames.ReceivedData | silkroad-network/src/frame.rs:237-248 | encrypted data comes back followed by fewer than eight zeros |
| Frames.PrefixIsIncomplete | silkroad-network/src/frame.rs:110-126 | every strict prefix of a frame is Incomplete |
| Frames.AnswerIsFinal | silkroad-network/src/frame.rs:106-180 | any other answer does not depend on the bytes that follow |
| Codec.FrameDecoder.Decode | silkroad-network/src/codec.rs:43-53 | takes one frame off the buffer or leaves the buffer alone |
| Codec.FrameDecoder.DecodeAll | silkroad-network/src/codec.rs:43-53 | repeated decoding drains the buffer |
| Codec.ChunkingIsIrrelevant | silkroad-network/src/codec.rs:43-53 | for every byte stream, well formed or not, the frames, the error and the kept bytes do not depend on the chunks |
| Codec.StreamRoundTrip | silkroad-network/src/codec.rs:18-53 | framable frames written and cut into chunks in any way come out in order, with an empty buffer |
| Codec.DrainWire | silkroad-network/src/frame.rs:106-283 | a list of frames comes out as it went in if and only if every frame is framable |
| Codec.CreateFor | silkroad-network/src/frame.rs:70-100 | the loop splits off the containers of `FramesFor` |
| Codec.PayloadIsKept | silkroad-network/src/frame.rs:72-87 | the containers hold the payload if and only if it fits one chunk or fills all of them |
| Codec.MassivePacketSurvives | silkroad-network/src/frame.rs:70-100 | a massive packet gets through if and only if its payload is at most 0x7FFE bytes |
| Codec.MassiveFramesExactly | silkroad-network/src/frame.rs:70-87 | the header, the number of containers and what each of them looks like |
| Codec.OrdinaryIsWritten | silkroad-network/src/frame.rs:88-99 | a packet that is not massive is one frame, which needs security if and only if it is encrypted |
| Codec.OrdinaryPacketSurvives | silkroad-network/src/frame.rs:88-99 | it gets through if and only if it is below 0x8000 bytes and not of opcode 0x600D, with its opcode, encryption and bytes, and zeros behind when encrypted |
| StreamReaders.StreamReader.Next | silkroad-network/src/stream.rs:78-117 | pending state, frames left and answer of one call |
| StreamReaders.BodyIsDelivered | silkroad-network/src/stream.rs:95-108 | containers between packets are delivered under the announced opcode and exactly the difference stays owed |
| StreamReaders.MassivePacketIsDelivered | silkroad-network/src/stream.rs:78-117 | after a header, nothing is pending if and only if the last announced container arrived |
| StreamReaders.UnderflowsExactly | silkroad-network/src/stream.rs:97-108 | reading a header and any containers and packets after it underflows the count if and only if none was announced and there is one |
| StreamReaders.MassivePacketArrives | silkroad-network/src/stream.rs:78-117 | framed, chunked, decoded and read, a payload up to 0x7FFE bytes is delivered once and unchanged |
| StreamReaders.OrdinaryPacketArrives | silkroad-network/src/stream.rs:78-84 | the same path for a packet that is not massive |
| StreamReaders.SecondHeaderIsRefused | silkroad-network/src/stream.rs:85-94 | a header while containers are owed is refused and nothing changes |
| StreamReaders.UnreadableContainerStaysOwed | silkroad-network/src/stream.rs:95-108 | a container that cannot be read does not count |
| Admission.StepKeepsInv | silkroad-agent/src/population/queue.rs:47-109 | every atomic step of the lock holder or of a leaving player keeps the invariant |
| Admission.AdmissionIsSafe | silkroad-agent/src/population/capacity.rs:42-94 | in every state of every interleaving: capacity while the lock is free, one above at most, no underflow, queued equals stored, tokens and users distinct |
| Admission.OneAboveIsReached | silkroad-agent/src/population/queue.rs:96-101 | a run that passes one above the capacity |
| LoginQueues.LoginQueue.ReserveSpot | silkroad-agent/src/population/queue.rs:47-87 | the list, the lifetime and the answer, each error with its cause, as a run of the machine with players leaving in between |
| LoginQueues.LoginQueue.HandInReservation | silkroad-agent/src/population/queue.rs:89-104 | the reservation of the token is taken out, or there is none |
| LoginQueues.LoginQueue.Cleanup | silkroad-agent/src/population/queue.rs:106-109 | retains exactly the reservations that have not timed out |
| LoginQueues.LoginQueue.AddQueue | silkroad-agent/src/population/capacity.rs:42-87 | the check with its two loads, and the increment |
| LoginQueues.LoginQueue.DrawToken | silkroad-agent/src/population/queue.rs:66-77 | a token not in use, or eleven draws that all were |
| SchemaLaws.RoundTripIsExact | silkroad-serde-derive/src/deserialize.rs:9-118 | over every readable description a value followed by anything is read back, with the rest left, if and only if it fits |
| SchemaLaws.FieldIsExact | silkroad-serde-derive/src/deserialize.rs:120-218 | the same for every kind of field |
| SchemaLaws.TextExact | silkroad-serde-derive/src/deserialize.rs:130-151 | a text is read back if and only if its 16 bit length counts the units written |
| SchemaLaws.WideTextNeedsAscii | silkroad-serde-derive/src/deserialize.rs:130-151 | a two-byte text whose UTF-8 form fits the prefix is read back if and only if it is ASCII |
| SchemaLaws.WideSizeNeedsAscii | silkroad-serde-derive/src/size.rs:99-104 | a two-byte text is sized right if and only if it is ASCII |
| SchemaLaws.SizeIsExact | silkroad-serde-derive/src/size.rs:9-147 | `byte_size` is the number of bytes written plus the stated surplus, for every list type and header size |
| SchemaLaws.MarkedRoundTrip | silkroad-serde-derive/src/serialize.rs:99-139 | "break" and "has-more" lists are read back by a reader of their markers |
| SchemaLaws.LengthIsWritten | silkroad-serde-derive/src/serialize.rs:131-143 | a list with a length starts with the number of its items in 1, 2, 4 or 8 bytes |
| SchemaLaws.FlagsAreWritten | silkroad-serde-derive/src/serialize.rs:152-176 | flags and the flag of an option are a one or a zero |
| SchemaLaws.IntRoundTrip | silkroad-serde/src/lib.rs:12-32 | little-endian numbers are read back |
| SchemaLaws.LowByteFirst | silkroad-serde/src/lib.rs:12-32 | the written bytes, the first one counting least, are the number |
| SchemaLaws.FieldsInOrder | silkroad-serde-derive/src/serialize.rs:9-48 | fields are written one after the other |
| SchemaLaws.ItemsInOrder | silkroad-serde-derive/src/serialize.rs:99-139 | items are written one after the other |
| SchemaLaws.PrefixesAreWritten | silkroad-serde-derive/src/serialize.rs:59-76 | the tag of an enum and the length of a text come first |
| SchemaCode.WriteTo | silkroad-serde-derive/src/serialize.rs:9-48 | the emitted writer appends the written form |
| SchemaCode.WriteFieldTo | silkroad-serde-derive/src/serialize.rs:50-186 | the same for every kind of field |
| SchemaCode.WriteItemsTo | silkroad-serde-derive/src/serialize.rs:99-139 | the loop over a list |
| SchemaCode.ReadFrom | silkroad-serde-derive/src/deserialize.rs:9-118 | the emitted reader advances as `ReadTy` says |
| SchemaCode.ReadListFrom | silkroad-serde-derive/src/deserialize.rs:160-172 | a list behind its length byte |
| SchemaCode.ReadItemsFrom | silkroad-serde-derive/src/deserialize.rs:166-169 | the loop over the items |
| RegionLookup.NeighboursCover | silkroad-navmesh/src/region.rs:7-20 | nothing within a radius of one region lies outside the nine regions |
| RegionLookup.RadiusLimit | silkroad-agent/src/game/visibility.rs:48-60 | the nine regions are enough for every inner viewer if and only if the radius is at most one region |
| RegionLookup.NeighboursExactly | silkroad-navmesh/src/region.rs:7-20 | the nine regions are those at most one apart in either direction |
| RegionLookup.RegionHolds | silkroad-game-base/src/pos.rs:147-151 | the region of a position on the map is the square it stands in |
| RegionLookup.WithinExactly | silkroad-agent/src/comp/pos.rs:55-59 | strictly nearer on the ground than the radius, and not the viewer |
| RegionLookup.GroupByRegion | silkroad-agent/src/game/visibility.rs:38-46 | every entity is in the group of its region and nowhere else |
| RegionLookup.EntitiesInRange | silkroad-agent/src/game/visibility.rs:48-60 | the lookup finds exactly the other entities within the radius |
| VisibilityDeltas.Visibility.Update | silkroad-agent/src/game/visibility.rs:62-83 | the radius set becomes what was seen and both differences are appended |
| VisibilityDeltas.Visibility.Send | silkroad-agent/src/game/visibility.rs:196-206 | what the client then knows is right if and only if nothing removed came back |
| VisibilityDeltas.Visibility.Ticks | silkroad-agent/src/game/visibility.rs:48-83 | over every run of frames, following what was sent on the way reproduces what is in the radius |
| ExperienceLoop.ReceiveExperience | silkroad-agent/src/game/exp.rs:63-80 | terminates, conserves experience and skill experience, stops where no level can be paid |
| ExperienceLoop.LevelUpAll | silkroad-agent/src/game/exp.rs:74-80 | passes exactly the requirements that the experience pays for |
| ExperienceLoop.Experienced.ConvertSp | silkroad-agent/src/comp/exp.rs:69-73 | whole points leave, the rest stays below 400 |
| ExperienceLoop.Experienced.TryLevelUp | silkroad-agent/src/comp/exp.rs:57-67 | pays the requirement if and only if it can |
| ExperienceLoop.ClimbEnds | silkroad-agent/src/game/exp.rs:74-80 | the climb ends below the next requirement or at an unmapped level |
| ExperienceLoop.LevelCommandIsExact | silkroad-agent/src/chat/command/system.rs:80-106 | the granted amount lands on the target level with nothing left if and only if every level on the way is mapped |
| ExperienceLoop.LevelCommandGrants | silkroad-agent/src/chat/command/system.rs:88-106 | below the current requirement the command does grant |
| ExperienceLoop.LevelCommandAnswers | silkroad-agent/src/chat/command/system.rs:80-98 | when the command grants nothing |

## Left out

- Persistence.SessionIsPersisted: a periodic write is over before the next event; statements of two writes that overlap, and the statements of a swap between those of other changes, are outside it (`Separate` leaves swaps out).
- TableAbsorptions.MoveOverMoveOnTable: other changes of the slots of the two moves behind the refused one; each of them may hit another row or be refused in turn, so what the table holds is only known by running it.
- Absorptions.AnyLogSoundWhenRight: no condition on single absorptions is necessary for the result of a whole run (`BrokenLogs.WrongAbsorptionsMayCancel`); the exact statement about runs is `EveryIterationKeepsEffect`.
- Absorptions.EveryIterationKeepsEffect: of swaps it covers only those cancelled clear of what stands between; a swap can reach its counterpart over other changes of its slots only after an earlier cancellation in the same walk, and whether that is right depends on what the slots hold.
- ExperienceLoop.ReceiveExperience: one event; the loop over events and the lookup of components are plumbing.
- LoginQueues.LoginQueue.ReserveSpot: the two readings of the clock and the random draws are parameters; a lifetime of zero, which panics with the lock held, is outside its precondition.
- SchemaLaws.RoundTripIsExact: lists other than those with a length of one byte and options of size 0 are written and sized but not read back, because the derived reader always expects a length byte or a flag.
- SchemaLaws.RoundTripIsExact: the text encodings are parameters, strict decoders with their encoders; of UTF-8 and UTF-16 only the width of each character is modelled.
- VisibilityDeltas.Visibility.Send: what a spawn message holds, and that entities the sender no longer finds are not announced.
- RegionLookup.EntitiesInRange: floating point rounding, and the check that a region around the viewer has players.
- `Inventory::remove_item` shrinks a stack without recording it and goes on after the amount is met, so neither replay nor conservation holds for it.
- `generate_count_byte` and the commented-out checksum, which the framing does not use.
- Malformed frames beyond their error: an index past the end of a short massive frame is the error `OutOfBounds`.
- The content of client packets: turning bytes into a packet is a parameter of the reader.
- Experience distribution, mastery, combat, skills' parameters, type ids, gateway, chat, database plumbing and scheduling.
