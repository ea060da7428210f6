# mbes level engine, modelled in Dafny

This project models the core of *mbes*, a grid puzzle game in the Boulder
Dash / Supaplex family.

**The level.** A level is a `w`-by-`h` toroidal grid of cells. It holds:

- one player;
- rocks and items that fall and roll;
- six kinds of bomb;
- wall-following "dudes";
- portals and jump portals;
- rock generators, destroyers and deleters.

**A frame.** `exec_frame` advances the level by one frame in four steps:

1. It scans the grid from the bottom row up, left to right in each row. Every cell goes through eight ordered rules: explosion decay, destroyer/deleter, red-bomb fuse, attenuation of empty space, falling, rolling, the dude's left-wall walk and the rock generator.
2. It fires the pending explosions due on this frame. Each one blasts its square and may chain further explosions six frames later.
3. It resolves the player's impulse: collect, win, cross a portal, push, pull, eat, drop a bomb.
4. It clears every "moved" flag and closes the frame with a frame marker in the undo log.

**Rewind.** Every change the game can undo is appended to the undo log. A rewind pops entries from the end of the log and applies the inverse of each one.

**Completion and recordings.** Besides the engine, the project models two parts of the level-completion code:

- the completion record and its upgrade from the two older record layouts;
- the bit-level serializer and deserializer, and the recording format built on them.

The recording format is a 4-byte version tag, a 32-bit little-endian frame count, then four bits per frame.

Module layout:

| file | module | what it holds |
|---|---|---|
| cells.dfy | Cells | impulses and their direction tables, cell kinds, explosion kinds, the cell record and its kind predicates |
| grid.dfy | Grid | row-major addressing and the wrap-around index of `at` |
| undo_log.dfy | UndoLog | explosion records, log entries, the meaning of rewinding (which entries are popped, how each is inverted) |
| events.dfy | Events | frame events and their 64-bit flag word |
| stats.dfy | Stats | specification functions of the read-only grid statistics |
| maturation.dfy | Maturation | the invariant of the explosion-maturation scan and its step lemmas |
| level.dfy | Level | class `LevelState`: constructor, the frame pipeline rule by rule, rewind, statistics |
| completion.dfy | Completion | completion records and their upgrades |
| bits.dfy | Bits | bit and byte packing, unsigned values, little-endian 32-bit words |
| recording.dfy | Recording | classes `BitSerializer` and `BitDeserializer`, the recording codec and its round trip |

Modelling conventions:

- **Level state.** `LevelState` keeps `w`, `h` and the `cells` array fixed. The pending-explosion list and the undo log are `seq` fields that the methods reassign.
- **Events.** A frame's events are a set of `Event` values. `Events.Flags` gives the 64-bit word the game returns, and `Events.FlagsBit` ties the two together.
- **Out-of-range dude.** A dude whose facing lies outside the direction tables makes the source throw in the middle of a frame. The model reports this as the outcome `DudeFacingOutOfRange`. The cells already changed stay changed, and no frame marker is written.
- **Code over description.** Where a plain description of the game and the code differ, the model follows the code:
  - A destroyer schedules an explosion of the default radius 1 (level.cc:410), not radius 0.
  - A deleter logs its own cell rather than the one it clears (level.cc:414-415), so rewind does not bring the cleared cell back.
  - Undoing a `CreateExplosion` removes every equal pending explosion (level.cc:769-776).
  - Undoing an `ExecuteExplosion` appends the explosion at the end of the list.
  - The player's coordinates are brought back into the grid only when the player is alive (level.cc:716-723).

## Model

| member | source | states |
|---|---|---|
| Cells.ImpulseOf | level.hh:16-22 | the table lookup by impulse code gives back the impulse with that code |
| Cells.ImpulseCodes | level.hh:16-22 | impulse codes fit in three bits and index their impulse |
| Cells.StepsScale | level.cc:20-21 | z steps in a direction are z times the direction's offset, for the jump-portal search |
| Cells.DirectionTables | level.cc:20-30 | a right turn undoes a left turn, two left turns are the opposite, opposite is an involution that negates the offset, and real directions have unit offsets |
| Cells.ExplosionKindCodes | level.hh:73-78 | explosion kinds are exactly the codes 0..3, Normal being 0 |
| Cells.NewCell | level.hh:103 | `cell_state(type)` has parameter 0 and is not moved |
| Cells.DefaultCell | level.cc:34 | `cell_state()` is Empty with parameter 1, not moved |
| Cells.BlastProduct | level.cc:556-564 | a blast turns a cell into Explosion exactly for a normal blast, into a non-destroyable cell exactly for a block blast, and never into a volatile cell |
| Cells.BlastedIdempotent | level.cc:544-565 | a cell blasted twice by one kind is as if blasted once; indestructible cells are untouched |
| Cells.KindFacts | level.cc:40-137 | the relations between the kind predicates that the rules rely on (volatile implies destroyable, pushable cells are not edible, portals or pullable, and so on) |
| Grid.AreaIsProduct | level.cc:193 | the grid holds w * h cells |
| Grid.FlatIsRowMajor | level.cc:263 | the in-range cell (x, y) sits at y * w + x |
| Grid.FlatBound | level.cc:263 | in-range coordinates address a cell inside the grid |
| Grid.FlatInjective | level.cc:263 | distinct in-range coordinates address distinct cells |
| Grid.Norm | level.cc:257-262 | adding the extent until not negative, then reducing, lands in [0, n) |
| Grid.NormMod | level.cc:257-263 | that normalisation is the non-negative remainder |
| Grid.Index | level.cc:256-264 | `at` always addresses a cell inside the grid |
| Grid.IndexInRange | level.cc:263 | in-range coordinates address their own row-major slot |
| Grid.IndexPeriodic | level.cc:256-264 | the grid wraps around: moving by a whole width or height addresses the same cell |
| Grid.IndexNorm | level.cc:716-723 | normalised player coordinates address the same cell as the raw ones |
| Grid.IndexEqual | level.cc:256-264 | two coordinate pairs address the same cell exactly when they agree modulo the extents |
| Events.EventBits | level.hh:80-92 | every event has a single bit of its own and distinct events have disjoint bits |
| Events.FlagsBit | level.hh:80-92 | an event's bit is set in the event word exactly when the event occurred |
| Events.ExplosionEvents | level.cc:542 | a fired explosion reports only Exploded or ItemExploded |
| Events.ExplosionEventsIff | level.cc:541-542 | ItemExploded is reported exactly when an item explosion fired, Exploded exactly when another kind fired |
| UndoLog.DefaultExplosion | level.hh:126-127 | an explosion record defaults to radius 1 and the normal kind |
| UndoLog.ExtendsKeepsMarkers | level.cc:284-298 | logging cells and explosions leaves the frame markers as they were |
| UndoLog.CloseFrame | level.cc:738-739 | closing a frame with the marker of f + 1 extends the markers 0..f to 0..f+1 |
| UndoLog.NoMarkersIff | level.hh:152-161 | a run of entries has no marker frames exactly when it holds no frame marker |
| UndoLog.RewindPoint | level.cc:750-751 | rewind stops at the last frame marker not later than the target, and no later entry is such a marker |
| UndoLog.RewindToFrame | level.cc:749-800 | with markers 0..f, rewind stops on the marker of min(target, f) and keeps the seeded marker of frame 0 |
| UndoLog.RewindAfterFrame | level.cc:738-751 | rewinding a just-closed frame to its own number stops at its closing marker |
| UndoLog.RemoveAll | level.cc:769-776 | undoing an explosion's creation erases exactly the pending explosions equal to it |
| UndoLog.RemoveAllMultiset | level.cc:769-776 | erasing drops every copy of the explosion and keeps every other pending explosion with its multiplicity |
| UndoLog.RemoveAllAbsent | level.cc:769-776 | erasing an explosion that is not pending changes nothing |
| UndoLog.RemoveAllShrinks | level.cc:769-776 | erasing a pending explosion shortens the list |
| UndoLog.FiredMembers | level.cc:541 | the explosions fired on frame f are exactly the pending ones due on f; the rest are kept |
| UndoLog.FiredSplit | level.cc:539-574 | maturation splits the list into fired and kept without losing or inventing entries |
| UndoLog.FiredAppendLate | level.cc:552-553 | explosions chained for a later frame do not change what fires now |
| UndoLog.ScheduledExtends | level.cc:293-298 | scheduling only appends, to the list and to the log, and opens no frame |
| UndoLog.GrownNotOverdue | level.cc:688 | scheduling for the next frame leaves nothing overdue |
| UndoLog.UnfiredNotOverdue | level.cc:539-574 | once frame f has matured, nothing pending is due before f + 1 |
| UndoLog.UndoEntry | level.cc:754-794 | undoing one entry keeps the grid's size |
| UndoLog.UndoSuffix | level.cc:750-797 | undoing a run of entries keeps the grid's size; what the run restores is stated by `UndoSuffixRestores` |
| UndoLog.RestoredCell | level.cc:750-765 | the cell a run restores at an index is the logged cell of the earliest entry of the run that logged that index, or the current cell when none did |
| UndoLog.UndoSuffixRestores | level.cc:750-797 | undoing a run restores every cell from the earliest entry that logged it, raises the items remaining by the item entries undone, moves the red bombs down by the pick-ups and up by the drops undone, and leaves the pending explosions and the player's coordinates alone when no entry of the run concerns them |
| UndoLog.CounterEntriesInvert | level.cc:783-793 | undoing GetItem, GetRedBomb and DropRedBomb exactly inverts the counter change each was logged with |
| UndoLog.CellEntryInverts | level.cc:758-765 | undoing a cell entry restores the logged cell and, for the player, its coordinates and a cleared loss frame |
| UndoLog.CreateThenUndo | level.cc:767-777 | undoing the creation of a new explosion removes it and keeps the explosions not equal to it |
| UndoLog.ExecuteThenUndo | level.cc:779-781 | undoing an execution puts the explosion back in the list and leaves the cells alone |
| Stats.SumBound | level.cc:321-357 | a weighted count is at most the largest weight times the number of cells |
| Stats.CountPositive | level.cc:335-345 | the count of a kind is positive exactly when such a cell exists |
| Stats.ItemsDecompose | level.cc:321-333 | the item count is the number of items plus nine per item dude and per blue bomb |
| Stats.Diff | level.cc:366-367 | each cell contributes at most two differing pairs |
| Stats.RowEntropyBound | level.cc:365-368 | a row of n cells contributes at most 2n |
| Stats.RowsEntropyBound | level.cc:364-369 | m rows contribute at most 2 * w * m |
| Stats.EntropyBound | level.cc:359-371 | the entropy is at most twice the number of cells |
| Stats.UniformEntropy | level.cc:359-371 | a grid of one kind of cell has entropy 0 |
| Maturation.FireStep | level.cc:541-570 | firing a due entry keeps the scan invariant: it leaves the list, is logged as executed, and its chains are appended for frame + 6 |
| Maturation.PassOver | level.cc:571-573 | passing over an entry that is not due keeps the invariant and advances the cursor |
| Maturation.ScanExhausted | level.cc:539-540 | a scan whose cursor has reached the end has seen every entry |
| Maturation.ScanDone | level.cc:539-574 | at the end of the scan, exactly the due explosions were fired, the rest were kept in order, and only chains for frame + 6 were added |
| Level.Logged | level.cc:284-287 | the logged copy of a cell has its moved flag cleared and nothing else changed |
| Level.JumpExitFirst | level.cc:612-623 | the jump-portal search finds the nearest matching portal in range, and none is skipped |
| Level.JumpExitStep | level.cc:616-623 | one step of the search: a matching portal ends it, any other cell passes it on |
| Level.YellowRowExact | level.cc:685-691 | a row's trigger explosions are exactly one default explosion per yellow bomb in the row |
| Level.YellowRowsExact | level.cc:684-692 | the trigger schedules exactly one default explosion per yellow bomb of the grid |
| Level.YellowGrown | level.cc:684-692 | the trigger schedules for the next frame only and opens no frame |
| Level.ChainOf | level.cc:546-554 | a blast chains at most one explosion per square, exactly on a destroyable, volatile, off-centre cell |
| Level.ChainFromSquare | level.cc:544-567 | a chained explosion is radius 1, six frames later, of the parent's kind unless the parent is normal, placed on its square |
| Level.BlastedAtAdd | level.cc:544-565 | blasting a square that an earlier visit already blasted leaves the first result |
| Level.PutBlock | level.cc:198 | sets exactly one cell to a block |
| Level.WallRows | level.cc:197-200 | draws the top and bottom walls |
| Level.WallColumns | level.cc:201-204 | draws the left and right walls |
| Level.NewGrid | level.cc:193-207 | a fresh grid is walled in by blocks, with the default cell inside and the player placed when both coordinates are non-negative |
| Level.LevelState.constructor | level.cc:190-211 | a new level is walled, holds its player, has zeroed counters, and its log is exactly the marker of frame 0 |
| Level.NewDefaultLevel | level.hh:183-184 | a level built with the default arguments is 60 by 24 with the player's cell at (1, 1) and only the frame-0 marker in its log |
| Level.LevelState.PortalAhead | level.cc:617-618 | whether the cell z steps ahead accepts a move back towards the player |
| Level.LevelState.WriteCellToUndoLog | level.cc:284-287 | appends the cell at (x, y), moved flag cleared; opens no frame |
| Level.LevelState.ScheduleExplosion | level.cc:293-298 | appends the explosion to the list and its creation to the log |
| Level.LevelState.DecayExplosion | level.cc:397-404 | rule 0: an explosion is logged, fades by 16 and becomes empty space once spent |
| Level.LevelState.DestroyOrDeleteAbove | level.cc:406-416 | rule 1: a destroyer schedules a default explosion on the occupied cell above; a deleter logs itself and empties that cell |
| Level.LevelState.FuseRedBomb | level.cc:418-425 | rule 2: a lit red bomb is logged and counts up by 16, and is scheduled to explode this frame once at 256 |
| Level.LevelState.Attenuate | level.cc:427-439 | rule 3: empty space attenuates while below 256 or next to attenuating space, without being logged |
| Level.LevelState.Fall | level.cc:441-468 | rule 4: an unmoved falling object drops into empty space (both squares logged, ObjectFalling), or lands |
| Level.LevelState.Shift | level.cc:443-448 | a cell moves to its target, marked moved, leaving empty space; target logged first |
| Level.LevelState.Land | level.cc:450-467 | landing detonates a volatile cell below, schedules a falling bomb for two frames later, and brings the object to rest, logging and reporting only a real landing |
| Level.LevelState.Roll | level.cc:470-484 | rule 5: a round falling object on a round cell rolls left if both cells to its left are empty, else right under the same test |
| Level.LevelState.StepDude | level.cc:486-514 | rule 6: an unmoved dude is logged, then walks; a facing outside the tables stops the frame |
| Level.LevelState.Walk | level.cc:490-513 | the dude is logged again and turns left into empty space unless it has just turned, moves forward into empty space, or turns right |
| Level.LevelState.GenerateRock | level.cc:516-534 | rule 7: a blocked generator resets its count; a free one counts up and drops a rock at 16 |
| Level.LevelState.Replace | level.cc:525-529 | logs a cell, then overwrites it |
| Level.LevelState.DropRock | level.cc:525-529 | the generator is logged and reset, and a rock is put below it after logging that square |
| Level.LevelState.TickCell | level.cc:397-439 | rules 0-3 only append to the log, and schedule only for this frame |
| Level.LevelState.MoveCell | level.cc:441-534 | rules 4-7 only append to the log, schedule for this frame or two frames on, and report only motion events |
| Level.LevelState.RollWalkGenerate | level.cc:470-534 | rules 5-7 only append to the log; they stop only on a dude facing out of range |
| Level.LevelState.ScanGrid | level.cc:395-536 | the cell scan appends to the log, schedules nothing overdue, reports motion events only, and is cut short only by a dude facing out of range |
| Level.LevelState.BlastSquare | level.cc:546-565 | one square of a blast: blasted and logged, with the chain rule applied to its former cell |
| Level.LevelState.BlastVisit | level.cc:546-565 | one square of a blast, stated against the grid before the blast began |
| Level.LevelState.BlastRow | level.cc:545-566 | one row of a blast: every square of the row is reached, nothing outside the blast's square |
| Level.LevelState.Blast | level.cc:544-567 | every square within the radius is blasted, every other cell kept, and each chained explosion follows the chain rule |
| Level.LevelState.Fire | level.cc:541-570 | a fired explosion is blasted, logged as executed and erased, and its chains are appended for frame + 6 |
| Level.LevelState.FireDue | level.cc:541-570 | firing at the cursor keeps the maturation invariant |
| Level.LevelState.ScanPending | level.cc:539-574 | the maturation loop ends with its invariant and every entry visited |
| Level.LevelState.MatureExplosions | level.cc:539-574 | exactly the explosions due now are logged as executed, in order; the others stay in order, and only chains for frame + 6 are added; the events match the kinds fired |
| Level.LevelState.Collect | level.cc:588-603 | an item is counted off and logged, a red bomb counted and logged; the player wins exactly at the exit with no bomb debt and no item left |
| Level.LevelState.NearestPortal | level.cc:616-623 | the loop finds the nearest cell, from two steps on, that accepts a move back |
| Level.LevelState.FindPortalExit | level.cc:605-630 | a plain portal exits two steps on; a jump portal exits one step beyond the nearest match, or nowhere |
| Level.LevelState.MovePlayerTo | level.cc:632-648 | the player moves (both squares logged) and leaves a fused red bomb when a drop is armed, else empty space |
| Level.LevelState.Push | level.cc:653-666 | a push moves the target two steps ahead exactly when that square is empty; otherwise nothing changes |
| Level.LevelState.PushIfPushable | level.cc:653-666 | the push step only appends to the log, reports at most ObjectPushed and keeps the player's cell |
| Level.LevelState.Pull | level.cc:669-680 | a pull swaps the player and the target after logging both, and moves the player |
| Level.LevelState.PullOrEat | level.cc:669-713 | after a pull or an eat the player sits on the target, otherwise where it was |
| Level.LevelState.TriggerRow | level.cc:686-690 | schedules the row's yellow bombs, left to right, for the next frame |
| Level.LevelState.TriggerYellowBombs | level.cc:684-692 | schedules every yellow bomb, row by row, for the next frame |
| Level.LevelState.EatEffects | level.cc:684-695 | a yellow trigger sets off every yellow bomb; a circuit reports CircuitEaten |
| Level.LevelState.Eat | level.cc:683-712 | eating moves the player onto the eaten cell |
| Level.LevelState.PushPullOrEat | level.cc:650-714 | the non-portal move leaves the player on the target or where it was, and schedules only for the next frame |
| Level.LevelState.Advance | level.cc:605-714 | a portal with an empty exit carries the player there; otherwise it ends on the target or where it was |
| Level.LevelState.PlayerActs | level.cc:577-715 | the player's move keeps the player's cell, lands where a portal or a step takes it, and never undoes a win |
| Level.LevelState.NormalizePlayer | level.cc:716-723 | the player's coordinates come into the grid and address the same cell |
| Level.LevelState.ResolvePlayerAction | level.cc:576-729 | a living player stays alive and in range; a lost player changes nothing (grid, log, pending list, position, counters, win and drop flags) but records its loss frame once |
| Level.LevelState.ClearMovedFlags | level.cc:731-736 | every cell's moved flag is cleared and nothing else changes |
| Level.LevelState.RunRules | level.cc:395-574 | if no pending explosion was overdue before the frame, none is overdue after the cell rules and maturation |
| Level.LevelState.FinishFrame | level.cc:576-736 | no cell is left moved, the player is in range or unmoved, and the loss frame is set once |
| Level.LevelState.CompleteFrame | level.cc:576-741 | the frame count grows by one and the log ends with exactly one new marker carrying it |
| Level.LevelState.ExecFrame | level.cc:387-742 | a completed frame counts one frame, closes the log with its marker, clears every moved flag and, if no pending explosion was overdue before, leaves none overdue; the log invariant holds either way |
| Level.LevelState.ErasePending | level.cc:769-776 | the erase loop removes exactly the entries equal to the explosion, keeping order |
| Level.LevelState.UndoLast | level.cc:753-796 | popping one entry applies its inverse to the restorable state |
| Level.LevelState.UndoUntil | level.cc:750-797 | the loop pops exactly to the rewind point, undoing the popped entries from the end |
| Level.LevelState.RewindFramesUntil | level.cc:749-800 | rewinds to the last marker not after the target, sets the frame count to min(target, frames executed), and keeps the log invariant; the restored grid and counters follow from `UndoSuffixRestores` |
| Level.LevelState.RewindFrames | level.cc:744-747 | a relative rewind is clamped at frame 0 |
| Level.LevelState.Tally | level.cc:321-357 | a row-by-row scan sums the weights of all cells |
| Level.LevelState.TallyRow | level.cc:324-330 | one row adds its cells' weights to the rows above |
| Level.LevelState.CountItems | level.cc:321-333 | counts items, plus nine per item dude and per blue bomb |
| Level.LevelState.CountCellsOfType | level.cc:335-345 | the count is positive exactly when a cell of the kind exists |
| Level.LevelState.CountAttenuatedSpace | level.cc:347-357 | counts the empty cells whose attenuation has started |
| Level.LevelState.RowPairs | level.cc:365-368 | sums the differing right and down neighbours along one row |
| Level.LevelState.ComputeEntropy | level.cc:359-371 | the entropy is the number of differing neighbour pairs, at most two per cell |
| Level.LevelState.Validate | level.cc:373-383 | a level is valid exactly when some cell holds the player |
| Level.LevelState.ComputePlayerCoordinates | level.cc:802-812 | the player goes to the first player cell in row-major order, and stays put when there is none |
| Completion.StateCodes | level_completion.hh:14-19 | the stored state codes are 0, 1, 2, one per state |
| Completion.DefaultCompletion | level_completion.cc:14-17 | a record never attempted has no bonus and is the worst on every less-is-better counter |
| Completion.FromV1 | level_completion.cc:19-23 | a first-layout record keeps its six fields, with entropy and rewinds unknown |
| Completion.FromV2 | level_completion.cc:25-29 | a second-layout record keeps its seven fields, with rewinds unknown |
| Completion.UpgradesKeepFields | level_completion.cc:19-29 | upgrading loses nothing: the older layout reads back unchanged |
| Completion.UpgradePathsAgree | level_completion.hh:21-52 | the first- and second-layout upgrades fill the fields both lack with the same unknown value |
| Completion.UpgradeImage | level_completion.cc:19-29 | the upgrades are exactly the records whose missing fields are unknown |
| Bits.MaskOr | level_completion.cc:115-117 | setting one bit leaves every other bit alone |
| Bits.ByteRoundTrip | level_completion.cc:113-117 | eight bits packed into a byte and a byte spread into bits are inverse |
| Bits.Pack | level_completion.cc:108-119 | bit-by-bit writing yields ceil(bits / 8) bytes |
| Bits.PackBit | level_completion.cc:113-117 | bit k of the output is the k-th bit written, MSB first, and the padding is zero |
| Bits.PackSnocAligned | level_completion.cc:109-111 | a bit written on a byte boundary starts a fresh zero byte |
| Bits.PackSnocInside | level_completion.cc:113-118 | any other bit is or-ed, when set, into the last byte |
| Bits.PackAppend | level_completion.cc:121-127 | after whole bytes, further output is packed on its own |
| Bits.PackBytes | level_completion.cc:121-127 | whole bytes spread into bits and packed again are unchanged |
| Bits.NatBitsVal | level_completion.cc:179 | a code below 2^n written in n bits reads back as itself |
| Bits.BitsValNat | level_completion.cc:179 | bits read as a number and written again are unchanged |
| Bits.ValRoundTrip | level_completion.cc:179 | a byte and its unsigned value determine each other |
| Bits.ValWeights | level_completion.cc:148 | a byte's value is the sum of the weights of its set bits, MSB first |
| Bits.BitsVal8 | level_completion.cc:148 | the value of eight bits is the sum of the weights of the set ones |
| Bits.LE32RoundTrip | level_completion.cc:179-202 | a 32-bit count stored little-endian reads back as itself |
| Bits.FromLE32RoundTrip | level_completion.cc:179-202 | four bytes read as a count and stored again are unchanged |
| Recording.Count32 | level_completion.cc:201 | the stored count is the frame count truncated to 32 bits |
| Recording.VersionTagIsWord | level_completion.cc:171-198 | the version word 0x43454345 is stored as the bytes "ECEC" the reader checks |
| Recording.ToRaw | level_completion.cc:206 | an action's raw form keeps the drop flag and a code below 8 |
| Recording.ToActions | level_completion.cc:185-188 | raw frames with an impulse code read back as the actions they came from |
| Recording.ToRawInjective | level_completion.cc:185-209 | distinct actions are stored differently, and storing is undone by reading |
| Recording.Raws | level_completion.cc:204-210 | the raw forms of a recording, frame by frame |
| Recording.ActionsBitsAt | level_completion.cc:204-210 | bit t of frame j sits at bit 4j + t of the frames' bits |
| Recording.CodeBits | level_completion.cc:185-209 | the three code bits written, high bit first, read back as the impulse code |
| Recording.Encode | level_completion.cc:195-213 | a recording takes 8 header bytes plus ceil(4n / 8) bytes |
| Recording.ReadBitAt | level_completion.cc:143-151 | a bit read fails exactly at the end of the data |
| Recording.DecodeActions | level_completion.cc:182-190 | a successful read returns exactly count frames |
| Recording.DecodeEncode | level_completion.cc:167-213 | loading a saved recording returns its first count mod 2^32 frames |
| Recording.RoundTrip | level_completion.cc:167-213 | a recording of fewer than 2^32 frames loads back unchanged |
| Recording.DecodeHeaderErrors | level_completion.cc:170-178 | a wrong version tag or a missing count is refused with its own error |
| Recording.BitSerializer.constructor | level_completion.cc:105 | a serializer starts empty at offset 0 |
| Recording.BitSerializer.WriteBit | level_completion.cc:108-119 | one bit is appended, and the data stays the packed bits |
| Recording.BitSerializer.WriteFrame | level_completion.cc:205-209 | the drop flag, then impulse bits 2, 1, 0 are appended |
| Recording.BitSerializer.WriteBytes | level_completion.cc:121-127 | raw bytes are refused off a byte boundary, and otherwise appended with the offset advanced 8 per byte |
| Recording.BitDeserializer.constructor | level_completion.cc:140 | a deserializer starts at offset 0 over its data |
| Recording.BitDeserializer.ReadBit | level_completion.cc:143-151 | returns the bit at the offset, MSB first, and advances; fails at the end of the data |
| Recording.BitDeserializer.ReadBytes | level_completion.cc:153-160 | refused off a byte boundary; otherwise returns at most size bytes and advances by the bytes returned |
| Recording.BitDeserializer.ReadFrame | level_completion.cc:184-188 | reads the drop flag and three code bits |
| Recording.WriteHeader | level_completion.cc:198-202 | writes the version tag and the count, little-endian |
| Recording.WriteFrames | level_completion.cc:204-210 | writes every frame's four bits in order |
| Recording.SaveRecording | level_completion.cc:195-213 | saving produces exactly the encoding of the recording |
| Recording.LoadRecording | level_completion.cc:167-193 | loading returns exactly the decoding of the file |

## Left out

- File I/O is not modelled. This covers `cell_state::read/write`, `explosion_info::read/write`, `level_state::read/write`, `load_levels` and `save_levels` (level.cc:139-172, 213-254, 816-847). It also covers the completion-state files (level_completion.cc:31-99) and `load_file`/`save_file`. They dump raw structs with host padding and byte order. The recording codec is modelled on byte strings instead.
- The little-endian host assumption behind reading the count (level_completion.cc:179) is made explicit as `LE32`.
- `player_is_losing`, `updates_per_second` and `player_lose_buffer` are floating-point pacing and fade values and are left out. The loss frame itself is kept.
- Rendering, audio, text drawing, the timer and main.cc's globals and completion-stat merge are not part of this model.
- 32-bit and 64-bit wrap-around is not modelled. Coordinates, counters, cell parameters and frame numbers are unbounded integers. The recording's 32-bit count is the exception: it is truncated explicitly.
- An out-of-range dude facing makes the source throw from `vector::at`. The model returns the outcome `DudeFacingOutOfRange` rather than an exception.
- Loaded impulse codes 5 to 7 are not valid impulses. They are kept as raw codes (`RawActions`) rather than cast to an enum value.
- Frame events are modelled as a set. The 64-bit word is a function of that set (`Events.Flags`).
- Level.LevelState.PlayerActs: states only that a win is never undone. The exact win rule is stated on `Collect`, which the move calls first.
- Level.LevelState.PushPullOrEat: states where the player ends up and that its cell is kept. The exact cell changes are stated on `Push`, `Pull`, `Eat` and `MovePlayerTo`.
- Level.LevelState.PullOrEat: states where the player ends up, not the exact cells. Those are stated on `Pull`, `Eat` and `MovePlayerTo`.
- Level.LevelState.PushIfPushable: states the events and the kept player cell. The cell changes are stated on `Push`.
- Level.LevelState.Eat: states the player's new position and the scheduling bound. The cells are stated on `MovePlayerTo`, the effects on `EatEffects`.
- Level.LevelState.Advance: states the player's position, not the cells.
- Level.LevelState.TickCell: states only the log and scheduling bounds. The effect of each rule is stated on `DecayExplosion`, `DestroyOrDeleteAbove`, `FuseRedBomb` and `Attenuate`.
- Level.LevelState.MoveCell: states only the log, scheduling and event bounds. Each rule's effect is stated on `Fall`, `Roll`, `StepDude` and `GenerateRock`.
- Level.LevelState.RollWalkGenerate: states only log growth and when the frame is cut short.
- Level.LevelState.ScanGrid: states the log, scheduling and event bounds of the whole scan, not the resulting grid.
- Level.LevelState.RunRules: states log growth, not the resulting grid. It states that nothing is overdue after the frame only if nothing was overdue before it.
- Level.LevelState.FinishFrame: does not state the exact player move. That is stated on `ResolvePlayerAction` and below.
- Level.LevelState.ExecFrame: does not state the exact events word or grid of a frame. Those are stated rule by rule on the members above. "Nothing overdue" is stated only given nothing overdue before the frame. Whether every reachable state has no overdue explosion is not proved: that is not part of `Valid()`, and the constructor and the rewind are not shown to keep it. An explosion that is already overdue is never fired, because maturation fires only those due on the current frame (level.cc:541).
- Level.LevelState.MatureExplosions: does not restate the blasted cells. They are stated per explosion on `Blast`.
- UndoLog.ExecuteThenUndo: states membership of the restored explosion, not its position at the end of the list.
- UndoLog.UndoEntry: its own contract states only the size of the grid. Its meaning is stated by `CounterEntriesInvert`, `CellEntryInverts`, `CreateThenUndo` and `ExecuteThenUndo`.
- Level.LevelState.ResolvePlayerAction: does not state the player's full move. That is stated on `PlayerActs` and below.
