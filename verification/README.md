# Platformer engine core, modelled in Dafny

The repository is a small browser platformer engine in two variants that
share one core:

- `src/engine/engine.js`: entity types are keyed by their map symbol. There
  is one global slot list of entities. `checkCollision` filters that list by
  a list of types and uses a tolerance of 1/1000000. Modelled in module
  `SymbolEngine`.
- `src/engine.js`: entity types are numbered in registration order, and map
  symbols point at those numbers. Besides the global list, each type keeps a
  collision list of its own entities. An entity therefore carries two
  back-indices, `index` and `collisionIndex`. `checkCollision` scans the
  collision list of one type and uses a tolerance of 1/10000. Modelled in
  module `TypedEngine`.

Shared modules:

- `Slots`: the slot list behind `utils.unorderedList`. A slot holds a live
  item or a tombstone. The module provides add, remove, write-back, the
  first-match scan and the list of matching indices.
- `Bodies`: position, bounding box and speeds of an entity, and the merge of
  a type's default state into a fresh record.
- `Geometry`: the box of an entity and the overlap test with its tolerance.
- `Motion`: the two-phase move (horizontal stop, vertical landing or bounce,
  then translation), stated on bodies.
- `Clock`: the frame clock update of the game loop.
- `Keys`: the key table and the key-down, key-up and end-of-frame
  transitions.
- `AsciiMap`: the cells of an ASCII map whose character is a registered
  symbol.

Entities are values. The source mutates the stored object in place; the
model writes the changed record back into its slot(s) (`Store`). Object
identity (`entity !== other`) is modelled by the global `index`. The slot
that `add` picks is a free slot (a tombstone, or one past the end) chosen by
`Slots.Alloc`. The model asserts no reuse policy beyond one assumption:
the choice depends only on the list's contents, so two lists with equal
contents but different removal histories get the same slot. `AddEntity` and
`CreateMap` are ghost functions. Coordinates are `real`: the tolerance
guards of the overlap test are kept, but IEEE-754 rounding is not modelled.

The central invariant of `TypedEngine.Valid` says both back-indices of every
live entity point at that entity, and every live entry of a collision list
has that list's type. Registration, `addEntity`, `destroyEntity`, the
write-back of a moved entity and `createMap` all preserve it.

Behaviours worth stating explicitly:
- Registering a symbol twice is not rejected. In `src/engine/engine.js` the
  new entry replaces the old one. In `src/engine.js` the symbol is re-pointed
  at a new type number and the old type stays in the list.
- `utils.unorderedList`'s code is not part of this model, so no slot reuse
  policy is asserted: `add` picks some free slot.
- The clock's raw delta includes the factor 0.001 (milliseconds to seconds).
  Update functions run before the clock update, not after it.
- The vertical probe uses the `speedX` left after the horizontal phase.
- `removeEntity` in `src/engine/engine.js` tombstones one slot, because that
  variant has no collision lists.
- `createMap` makes exactly one slot live per registered map character (in
  `src/engine.js`, one slot of the global list and one of the type's
  collision list) and no other.

## Model

| member | source | states |
|---|---|---|
| Slots.Alloc | src/engine/engine.js:166 | the index `add` returns names a slot that held no live item (a tombstone or the end of the list) |
| Slots.Place | src/engine/engine.js:166 | after `add`, the chosen slot holds the item, the list grows only when the slot was the end, and every other slot is unchanged |
| Slots.Remove | src/engine/engine.js:172 | `remove(i)` tombstones slot `i`; the length and all other slots are unchanged, so indices held elsewhere stay valid |
| Slots.Write | src/engine/engine.js:181-182 | writing a changed record back touches its own slot only |
| Slots.PlaceAddsOneLiveIndex | src/engine/engine.js:166 | `add` makes exactly one more slot live, and that slot was not live before |
| Slots.RemoveDropsOneLiveIndex | src/engine/engine.js:172 | `remove` makes exactly the removed slot not live |
| Slots.WriteKeepsLiveIndices | src/engine/engine.js:181-182 | writing a changed record back over a live slot makes no slot live or dead |
| Slots.PlaceKeepsLive | src/engine/engine.js:166 | `add` leaves every live item where it was |
| Slots.FirstFrom | src/engine/engine.js:363-392 | the scan from slot `i` returns a live accepted slot with no live accepted slot between `i` and it, or none when no live slot from `i` on is accepted |
| Slots.FirstWhere | src/engine/engine.js:363-392 | the first live slot in index order whose item is accepted; `None` exactly when no live slot is accepted |
| Slots.IndicesFrom | src/engine/engine.js:227-235 | the matching live slots from `i` on, strictly increasing, containing an index exactly when its slot is live and accepted |
| Slots.FirstIsHeadOfIndices | src/engine/engine.js:363-392 | the first-match scan agrees with the list of all matches: no match exactly when that list is empty, otherwise its head |
| Bodies.InitialBody | src/engine/engine.js:147-165 | a fresh record has every core field zero unless the type's default state overrides it, in which case it has the override (the box as a whole) |
| Geometry.OverlapIsDeepOnEverySide | src/engine/engine.js:368-387 | two boxes collide exactly when they overlap by more than the tolerance on each of the four sides |
| Geometry.ShallowContactDoesNotCollide | src/engine/engine.js:380-387 | boxes that touch, or overlap by no more than the tolerance on some side, do not collide |
| Geometry.OverlapSymmetric | src/engine/engine.js:380-387 | the overlap test gives the same answer with the two boxes swapped |
| Geometry.QueryFromEitherSide | src/engine/engine.js:368-376 | probing `a` shifted by `(dx, dy)` against `b` equals probing `b` shifted by `(-dx, -dy)` against `a` |
| Motion.AfterHorizontal | src/engine/engine.js:403-418 | on a horizontal hit while moving right, the right edge meets the wall's left edge; otherwise the left edge meets the wall's right edge; `speedX` becomes 0; without a hit nothing changes |
| Motion.AfterVertical | src/engine/engine.js:427-443 | on a vertical hit while falling, the bottom edge meets the wall's top and `speedY` becomes 0; otherwise the top edge meets the wall's bottom and `speedY` becomes -0.5 times itself; without a hit nothing changes |
| Motion.Resolve | src/engine/engine.js:395-449 | every outcome of a move: flush stops on hit sides, the bounce speed applied after the snap, and plain translation by speed times `deltaTime` on free axes with speeds unchanged |
| Motion.StopsClearTheirWalls | src/engine/engine.js:403-446 | after a move, the entity does not collide with the walls that stopped it (for non-negative `deltaTime`) |
| Clock.Clamp | src/engine.js:152-154 | the clamped delta is at most 0.1; a raw delta over 0.1 becomes 0.016, any other is kept |
| Clock.Tick | src/engine/engine.js:245-252 | `deltaTime` is at most 0.1, equals 0.016 when the scaled raw delta exceeds 0.1 and the raw delta otherwise; `totalTime` grows by exactly `deltaTime`; the frame time is recorded |
| Clock.RunAccumulates | src/engine/engine.js:251 | over many frames, `totalTime` grows by the sum of the per-frame deltas |
| Clock.RunMonotone | src/engine/engine.js:246-251 | with non-decreasing timestamps and non-negative speed, `totalTime` never decreases and grows by at most 0.1 per frame |
| Clock.StallRecordsNominalFrame | src/engine/engine.js:248-249 | a two-second stall at a time speed above 0.05 is recorded as one 0.016 frame |
| Keys.InitialKeys | src/engine.js:70-74 | the table holds exactly the five key codes, all released with no pending edge |
| Keys.KeyDown | src/engine.js:76-85 | a key-down marks the key down and sets `wentDown` exactly when it was not down (or already set); other keys and `wentUp` are unchanged |
| Keys.KeyUp | src/engine.js:87-96 | a key-up marks the key up and sets `wentUp` exactly when it was down (or already set); other keys and `wentDown` are unchanged |
| Keys.ClearInputs | src/engine.js:145-148 | the end-of-frame clear resets both edge flags of every key and keeps `isDown` |
| Keys.ClearStartsFreshFrame | src/engine.js:145-148 | after the end-of-frame clear, which keeps `isDown`, each edge flag ends the next frame set exactly when one of that frame's events pressed or released the key |
| Keys.UnknownCodeIgnored | src/engine.js:78-80 | events for codes outside the table leave it unchanged |
| Keys.WentDownRecordsPress | src/engine.js:76-85 | within a frame, `wentDown` ends set exactly when some key-down event arrived while the key was up |
| Keys.WentUpRecordsRelease | src/engine.js:87-96 | within a frame, `wentUp` ends set exactly when some key-up event arrived while the key was down |
| Keys.PressSetsWentDown | src/engine.js:76-85 | a key-down that finds the key up sets `wentDown`, and no later event of the frame clears it |
| Keys.WentDownHasPress | src/engine.js:76-85 | in a frame that starts with `wentDown` clear, a set `wentDown` names a key-down event that found the key up |
| Keys.ReleaseSetsWentUp | src/engine.js:87-96 | a key-up that finds the key down sets `wentUp`, and no later event of the frame clears it |
| Keys.WentUpHasRelease | src/engine.js:87-96 | in a frame that starts with `wentUp` clear, a set `wentUp` names a key-up event that found the key down |
| AsciiMap.RowCellsExact | src/engine/engine.js:178-179 | a row yields exactly its characters that are registered symbols, left to right |
| AsciiMap.RowsCellsExact | src/engine/engine.js:176-179 | rows from `y` on yield exactly their registered characters, in row-major order |
| AsciiMap.MapCellsExact | src/engine/engine.js:175-186 | the map yields one cell per registered character and nothing else, in row-major order |
| AsciiMap.HollowBoxHasTenWalls | src/engine/engine.js:175-186 | a 4-by-3 hollow box of walls yields ten cells |
| SymbolEngine.AddEntityType | src/engine/engine.js:133-144 | registration returns the symbol, maps it to the new type, keeps every other registration and keeps the world valid |
| SymbolEngine.LastRegistrationWins | src/engine/engine.js:139-142 | registering a symbol again is the same as registering only the last definition |
| SymbolEngine.AddEntity | src/engine/engine.js:146-169 | the new record is the type's default state over zero fields, sits in a previously free slot that it records, and no other slot changes |
| SymbolEngine.RemoveEntity | src/engine/engine.js:171-173 | removal tombstones the entity's slot only and keeps the world valid |
| SymbolEngine.AddThenRemoveRestoresLiveSlots | src/engine/engine.js:146-173 | adding an entity and removing it leaves the same set of live slots |
| SymbolEngine.Store | src/engine/engine.js:181-182 | writing a changed entity back changes only its own slot |
| SymbolEngine.CheckCollision | src/engine/engine.js:356-393 | a hit is a live entity other than the querier, of one of the listed types, overlapping the shifted box; every earlier such slot misses; `None` exactly when nothing collides |
| SymbolEngine.HitIsStored | src/engine/engine.js:363-389 | in a valid world a hit is stored at the slot it records and has a registered type |
| SymbolEngine.MoveAndCheckForObstacles | src/engine/engine.js:395-449 | the horizontal probe is at `(speedX*dt, 0)`; the vertical probe is at the horizontally resolved position, with x offset 0 after a horizontal hit; the body ends as the two-phase move prescribes and nothing else of the entity changes |
| SymbolEngine.MoveEntity | src/engine/engine.js:395-449 | moving a stored entity changes only its own slot, leaves the type registry as it was, and keeps the world valid |
| SymbolEngine.UpdateOrder | src/engine/engine.js:227-235 | the game loop visits, in increasing slot order, exactly the live entities whose type has an update function |
| SymbolEngine.Spawn | src/engine/engine.js:179-183 | one registered map character yields one fresh entity of that type at column and row times the tile size, in a previously free slot |
| SymbolEngine.CreateMap | src/engine/engine.js:175-186 | one entity per registered map character, in row-major order, at column and row times the tile size, each in its own previously free slot; no live entity is disturbed, no other slot becomes live, and the world stays valid |
| SymbolEngine.CreateMapAddsOnePerCell | src/engine/engine.js:175-186 | the number of live slots grows by exactly the number of registered map characters |
| SymbolEngine.HollowBoxSpawnsTenEntities | src/engine/engine.js:175-186 | the 4-by-3 hollow box of walls, built in an empty world, gives exactly ten live entities |
| TypedEngine.WithCollisionList | src/engine.js:49 | replacing one type's collision list leaves every other type, the symbols and the global list unchanged |
| TypedEngine.AddEntityType | src/engine.js:101-110 | registration returns the previous number of types, appends a type with an empty collision list and points the symbol at it |
| TypedEngine.AddEntityTypePreservesValid | src/engine.js:101-110 | registering a type keeps every back-index valid |
| TypedEngine.DuplicateSymbolRepointed | src/engine.js:108 | registering a symbol twice points it at the newer type; the older type keeps its number |
| TypedEngine.AddEntity | src/engine.js:25-53 | the new record is the type's default state over zero fields, sits in a free slot of the global list at `index` and in a free slot of its type's collision list at `collisionIndex` |
| TypedEngine.AddEntityPreservesValid | src/engine.js:25-53 | `addEntity` keeps both back-indices of every live entity pointing at that entity |
| TypedEngine.DestroyEntity | src/engine.js:55-60 | destroying tombstones exactly the entity's global slot and its collision slot; every other slot of both lists is unchanged |
| TypedEngine.DestroyEntityPreservesValid | src/engine.js:55-60 | destroying a stored entity keeps both back-indices of every remaining live entity pointing at it |
| TypedEngine.AddThenDestroyRestoresLiveSlots | src/engine.js:25-60 | adding an entity and destroying it leaves the same live slots in the global list and in the type's collision list |
| TypedEngine.Store | src/engine.js:222-258 | the moved entity is written into both of its slots and nothing else changes |
| TypedEngine.StorePreservesValid | src/engine.js:222-258 | writing back a changed copy of a stored entity, with the same slots and type, keeps the world valid |
| TypedEngine.CheckCollision | src/engine.js:184-213 | a hit is a live entry of the requested type's collision list, other than the querier, overlapping the shifted box; every earlier entry misses; `None` exactly when nothing collides |
| TypedEngine.ReadsOnlyItsCollisionList | src/engine.js:185-186 | the query result depends on the requested type's collision list only |
| TypedEngine.HitIsStoredOfType | src/engine.js:186-209 | in a valid world a hit is a stored entity of the requested type and never the querier |
| TypedEngine.MoveAndCheckForObstacles | src/engine.js:215-261 | the horizontal probe is at `(speedX*dt, 0)`; the vertical probe uses the `speedX` left after the horizontal phase, so its offset is `(0, speedY*dt)` after a horizontal hit; the body ends as the two-phase move prescribes |
| TypedEngine.MoveEntity | src/engine.js:215-261 | moving a stored entity rewrites its own global slot and its own collision slot only; every other slot, every type's other data and the symbol table are unchanged, and the world stays valid |
| TypedEngine.UpdateOrder | src/engine.js:132-140 | the game loop visits, in increasing slot order, exactly the live entities whose type has an update function |
| TypedEngine.SpawnKeepsValid | src/engine.js:176-178 | adding an entity for a map cell and placing it keeps the world valid |
| TypedEngine.Spawn | src/engine.js:174-178 | one registered map character yields one fresh entity of the type the symbol points at, at column and row times the tile size, in free slots of both lists |
| TypedEngine.CreateMap | src/engine.js:170-182 | one entity per registered map character, in row-major order, at column and row times the tile size, each in slots of its own; no live entity is disturbed, no other slot of the global list or of any collision list becomes live, and the world stays valid |
| TypedEngine.CreateMapAddsOnePerCell | src/engine.js:170-182 | the number of live slots of the global list grows by exactly the number of registered map characters |
| TypedEngine.CreateMapFillsOneCollisionList | src/engine.js:170-182 | when every symbol points at one type, that type's live collision slots grow by exactly the number of registered map characters |
| TypedEngine.EmptyWorldFilledByMap | src/engine.js:170-182 | a map built in a world with no live entity, whose symbols all name one type with an empty collision list, has exactly one live entity per registered map character, all in that type's collision list |
| TypedEngine.HollowBoxSpawnsTenEntities | src/engine.js:170-182 | the 4-by-3 hollow box of walls, built in an empty world with one type, gives exactly ten live entities, all in that type's collision list |

## Left out

- Rendering, sprites, text, the camera and canvas set-up: they only draw. The frame counter of `drawSprite` is tied to drawing.
- `src/assets.js`: image and sound imports.
- Audio (`loadSound`, `playSound`, `stopSound`): these are calls into the browser.
- `performance.now` and `requestAnimationFrame`: timestamps are parameters of `Clock.Tick`, and one call is one frame.
- `document.onkeydown`/`onkeyup` wiring: key events are parameters of `Keys.KeyDown`/`Keys.KeyUp`.
- `utils.unorderedList`'s code is not part of this model. Only the behaviour used by the engine is assumed: `add` returns a free slot and `remove` tombstones one.
- Slots.Alloc: does not state which free slot is chosen, because `utils.unorderedList`'s code is not part of this model; the choice is assumed to depend only on the list's contents, not on the order of earlier removals.
- Update functions are user code. A type records only whether it has one (`Callback` handle). The loop is modelled as the sequence of slots it visits (`UpdateOrder`). Changes to the list made by update functions during the loop are not modelled.
- Floating-point rounding: coordinates, speeds and times are `real`.
- `Object.assign` of a default state: only the core fields (`x`, `y`, `bbox` as a whole, speeds) and opaque extra fields are modelled. A default state that overrides `type`, `index`, `collisionIndex` or `isInitialized` is not modelled, and neither is the sharing of one `bbox` object between entities.
- SymbolEngine.CheckCollision: identity is compared by slot index. An entity that was removed and whose slot was reused would compare equal to the new occupant, while the source compares objects.
- TypedEngine.CheckCollision: identity is compared by global slot index. A destroyed querier whose global slot was reused by an entity of the queried type skips that entity, while the source compares objects and would test it. The source's TypeError for an unregistered type number (`src/engine.js:185-186`) is replaced by a precondition that the type is registered.
- TypedEngine.MoveAndCheckForObstacles: inherits both limits of `TypedEngine.CheckCollision`: identity by global slot index, and a precondition that the obstacle type is registered instead of the source's TypeError.
- AsciiMap.RowCells: Dafny strings index Unicode scalar values, while `row.length` and `row[x]` index UTF-16 code units. The model and the source agree only on rows whose characters are all below U+10000. For a character above that, the columns after it differ, and a registered symbol above U+10000 spawns in the model but never in the source.
- SymbolEngine.CreateMap: `src/engine/engine.js:180` reads the global `_entityTypesObj` rather than its parameter. The public API always passes that global, so the model uses one registry.
- SymbolEngine.MoveAndCheckForObstacles: `src/engine/engine.js:421` reads the global `_entityList` rather than the parameter; the public API always passes that global, so the model uses one list. It also inherits identity by slot index from `SymbolEngine.CheckCollision`.
- SymbolEngine.AddEntity, TypedEngine.AddEntity: an unregistered type makes the source throw while reading `defaultState`. The model requires a registered type instead of modelling the exception.
- TypedEngine.DestroyEntity: destroying an entity twice, or through an out-of-date copy, is outside `DestroyEntityPreservesValid`, whose precondition requires the entity to be stored.
- Clock.Tick: does not state the converse "0.016 only when the raw delta exceeds 0.1", because a raw delta of exactly 0.016 is also kept as 0.016.
- Settings `gravity` and `pixelsPerMeter` are read only by game code and drawing.
