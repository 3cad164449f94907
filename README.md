# bevy-slime-dodge core, modelled in Dafny

This project models three parts of the game bevy-slime-dodge and proves what
each part promises.

- **Chunk streaming** (`src/levels/chunks.rs`). A level kind keeps a
  `ChunkController`, a set of spawned chunk coordinates. `spawn_chunks` turns
  the camera's translation into a chunk coordinate with truncating `i32`
  division. It then walks a 4 by 4 window around that chunk, row by row. Each
  coordinate missing from the set is inserted, and `spawn_chunk` creates its
  16 by 16 tile entities and places the chunk at its world origin.
  `despawn_chunks` removes the chunk of every queried entity that is farther
  than the despawn range from the camera. `delete_chunks` clears the set.
  `TileData::get_tiles` yields all six terrain sets or nothing.
- **Navigation grid** (`src/procgen/navigation.rs`). `GRID_SIZE` spans
  `2 * distance + 1` chunks per axis. `rebuild_nav_grid` marks every grid
  cell passable. `update_nav_grid_agent_pos` runs only when the procgen timer
  has just finished and chunk positions exist. It takes the lexicographically
  smallest chunk position as the anchor. Each character whose transform
  changed gets the grid cell of its translation relative to that anchor,
  through a saturating `as u32` cast.
- **Sprite animation** (`src/characters/animation.rs`,
  `src/characters/animation/player.rs`, `src/characters/animation/npc.rs`).
  The `MovementAnimation` component is a state machine over a repeating
  timer, a frame and an idling/walking state. The player and the slime
  implement it identically and differ only in their constants. One class
  therefore models both, parameterised by the constants. Generic systems tick
  the timers, choose the state and the sprite flip from the movement intent,
  copy the atlas index into the sprite, and play step sounds.

Modelling choices:

- `f32` values are exact `real`s.
- Rust's `as` casts are written out in module `Num`. Float to `i32`
  truncates toward zero and saturates. Float to `u32` saturates, with NaN
  and negative values giving 0.
- `i32` division truncates toward zero (`Num.TruncDiv`). It yields no chunk
  where the source panics on a zero divisor.
- Float division by zero follows IEEE 754: a positive dividend gives +inf, a
  negative one -inf and zero gives NaN. The saturating cast then applies.
- Entities are numbers handed out by a counter, which stands for Bevy's
  entity allocator. A query is a sequence of the matched entities'
  components.
- Bevy's repeating `Timer` is a small value type in milliseconds (module
  `Timer`). It finishes on the tick that reaches its duration and keeps the
  remainder.
- `DESPAWN_RANGE`, `PROCGEN_DISTANCE`, the procgen `CHUNK_SIZE` and
  `ProcGenController.positions` belong to modules outside this model. They
  are parameters here. The positions map is the sequence of its values.

Facts about the code that shape the model:

- The `Chunk` marker sits on each tile entity, not on the chunk's container
  (`src/levels/chunks.rs:203`). So `despawn_chunks`'s query items are tile
  entities, and each far one is despawned on its own.
- The camera's chunk is computed with truncating division, not floored
  division. Chunk 0 therefore stretches one chunk to each side of the origin
  (`Chunks.CameraInsideChunk`).
- A character's grid cell is cast with `as u32`, which saturates. A
  character left of the anchor chunk's origin gets column 0
  (`Navigation.LeftOfAnchorInColumnZero`). Along y the offset is taken with
  the chunk's width, so row 0 is given when `translation.y / tile.y` is below
  `anchor.y * CHUNK_SIZE.x` (`Navigation.BelowAnchorInRowZero`). With
  non-square chunks that is not the same as being below the anchor chunk's
  origin (`Navigation.BelowOriginNotRowZero`).

Behaviour of the code that is stated as lemmas:

- The player's sound frame 9 is never shown: walking frames run 0 to 7.
- The slime's only sound frame, 3, is never shown: its walking frames run
  0 to 2. The slime's step sound therefore never plays.
- The slime's walking atlas index reaches 3, one past the 3 columns of its
  sprite sheet.
- `spawn_chunks` truncates the tile size and `despawn_chunks` does not. With
  a fractional tile size, despawn can recover a different chunk from a
  spawned chunk's origin: with tiles 16.5 high, chunk (1, 0) is recovered as
  (0, 0).
- The agent projection offsets y by the anchor's y times `CHUNK_SIZE.x`. A
  character on the anchor chunk's origin is therefore in row
  `anchor.y * (CHUNK_SIZE.y - CHUNK_SIZE.x)`, saturated at 0. With 16 by 8
  chunks and anchor (0, -1) that is row 8, not row 0.
- Both chunk systems build the tile size as `(tile_height, tile_width)`, with
  x and y swapped. Spawn and despawn swap the same way, so the round trip
  still holds.

## Model

| member | source | states |
|---|---|---|
| Num.TruncDiv | src/levels/chunks.rs:122 | The quotient of `i32` division: the remainder is smaller than the divisor and never has the opposite sign of the dividend. |
| Num.TruncToI32 | src/levels/chunks.rs:111 | The `f32 as i32` cast truncates in-range values toward zero, and saturates to `i32::MAX` above the range and `i32::MIN` below it. |
| Timer.NewRepeating | src/characters/animation/player.rs:71 | A new repeating timer with a positive duration is valid, and no tick shorter than that duration finishes it. It starts with nothing elapsed. |
| Timer.Tick | src/characters/animation/player.rs:91 | A tick finishes the timer exactly when the accumulated time reaches the duration. A finished tick drops whole periods and keeps the remainder below the duration. A valid timer stays valid. |
| Timer.TickSplits | src/characters/animation/player.rs:91 | Two ticks that do not finish the timer equal one tick of their sum. |
| MovementAnimation.IdlingAnim | src/characters/animation/player.rs:69-75 | `idling()` is frame 0 of the idle state with a new repeating timer of the idle interval, nothing elapsed. It satisfies the frame invariant and is not changed. |
| MovementAnimation.WalkingAnim | src/characters/animation/player.rs:77-83 | `walking()` is frame 0 of the walking state with a new repeating timer of the walking interval, nothing elapsed. It satisfies the frame invariant and is not changed. |
| MovementAnimation.Fresh | src/characters/animation/player.rs:105-108 | The value `update_state` installs for a state: that state, frame 0, a new timer of that state's interval, valid, not changed. |
| MovementAnimation.Ticked | src/characters/animation/player.rs:90-100 | `update_timer` keeps the frame invariant and the state. The animation changes exactly when the tick finishes the timer. Only then does the frame advance by one modulo the state's frame count; otherwise it is kept. |
| MovementAnimation.WithState | src/characters/animation/player.rs:103-110 | `update_state` keeps the invariant and sets the requested state. The same state leaves the value untouched. A new state resets to that state's fresh value, frame 0. |
| MovementAnimation.AtlasIndexIdentifies | src/characters/animation/player.rs:118-123 | With one idle frame, two valid animations have the same atlas index exactly when they show the same frame of the same state. |
| MovementAnimation.ChangedIffFrameMoves | src/characters/animation/player.rs:113-115 | `changed()` after a tick holds exactly when the frame moved, in a state with more than one frame. A single-frame state stays on frame 0. |
| MovementAnimation.Run | src/characters/animation/player.rs:90-110 | The frame invariant holds after any sequence of `update_timer` and `update_state` calls, and the last requested state is the current one. |
| MovementAnimation.AtlasIndexRange | src/characters/animation/player.rs:118-123 | A valid animation's atlas index is below the idle frame count while idling, and between 1 and the walking frame count while walking. |
| MovementAnimation.WithStateIdempotent | src/characters/animation/player.rs:103-110 | Requesting the same state twice equals requesting it once. |
| MovementAnimation.TickedFrames | src/characters/animation/player.rs:90-100 | Any number of frame-length ticks keeps the frame invariant and the state. |
| MovementAnimation.TickedFramesAdvance | src/characters/animation/player.rs:90-100 | From a period boundary, `n` ticks of one frame interval each advance the frame by `n` modulo the frame count. Each of them changes the animation. |
| MovementAnimation.Animation.Idling | src/characters/animation/player.rs:69-75 | The `idling()` component holds the idle state's fresh value and is valid. |
| MovementAnimation.Animation.Walking | src/characters/animation/player.rs:77-83 | The `walking()` component holds the walking state's fresh value and is valid. |
| MovementAnimation.Animation.New | src/characters/animation/player.rs:85-87 | `new()` is `idling()`. |
| MovementAnimation.Animation.UpdateTimer | src/characters/animation/player.rs:90-100 | The component's new value is `Ticked` of its old value, and it stays valid. |
| MovementAnimation.Animation.UpdateState | src/characters/animation/player.rs:103-110 | The component's new value is `WithState` of its old value, and it stays valid. |
| AnimationSystems.UpdateAnimationTimer | src/characters/animation.rs:85-92 | Every queried animation is ticked by the same delta, and all stay valid. |
| AnimationSystems.RequestedState | src/characters/animation.rs:107-111 | The requested state is idling if and only if the intent is the zero vector. |
| AnimationSystems.FlipAfter | src/characters/animation.rs:102-105 | The sprite faces left when moving left and right when moving right. A zero horizontal intent keeps the flip. |
| AnimationSystems.ProcessedCount | src/characters/animation.rs:98-101 | The entities before the first one without a translation all have one. That first one, if any, has none. |
| AnimationSystems.UpdateAnimationMovement | src/characters/animation.rs:95-114 | Entities before the first missing translation get the flip and state their intent asks for. That entity and all after it are untouched, because the system returns there. Atlas indices never change. |
| AnimationSystems.ApplyIntent | src/characters/animation.rs:102-112 | For one entity: flip from the intent's x, state from whether the intent is zero, atlas untouched. |
| AnimationSystems.UpdateAnimationAtlas | src/characters/animation.rs:117-128 | A sprite without an atlas is skipped. Otherwise its index becomes the animation's atlas index exactly when the animation changed, and is kept otherwise. The flip is never touched. |
| AnimationSystems.StepSoundOnTick | src/characters/animation.rs:144-148 | After a tick, the step-sound condition holds exactly when the animation walks, the tick finishes the walking interval, and the next walking frame is a sound frame. |
| AnimationSystems.NoStepSoundOnStateChange | src/characters/animation.rs:144-148 | A state change resets the timer, so the step-sound condition does not hold after it. |
| AnimationSystems.TriggerStepSoundEffect | src/characters/animation.rs:143-157 | Sounds are spawned, in query order, for exactly the entities that walk, changed, and show a sound frame. With no step sounds, the first such entity panics. |
| PlayerAnimation.PlayerAtlasIndexInLayout | src/characters/animation/player.rs:118-123 | With the player's constants, every atlas index lies within the 9-column sheet: 0 while idle, 1 to 8 while walking. |
| PlayerAnimation.PlayerStepSoundOnlyOnFrame5 | src/characters/animation/player.rs:31 | Of the sound frames 5 and 9, only 5 can trigger. Frame 9 is never reached. |
| PlayerAnimation.PlayerStepSoundFires | src/characters/animation/player.rs:31 | Frame 5 does trigger a step sound: on the 5th frame interval after walking starts, and every 8th after that. |
| SlimeAnimation.SlimeAtlasIndexRange | src/characters/animation/npc.rs:114-119 | With the slime's constants, the atlas index is 0 while idle and 1, 2 or 3 while walking. |
| SlimeAnimation.SlimeAtlasIndexLeavesLayout | src/characters/npc.rs:38 | Two frame intervals into walking, and every third interval after that, the slime's atlas index is 3, outside its 3-column sheet. |
| SlimeAnimation.SlimeStepSoundNeverFires | src/characters/animation/npc.rs:27 | The slime's sound frame 3 is never shown, so its step-sound condition never holds. |
| Chunks.GetTiles | src/levels/chunks.rs:49-67 | The result is present if and only if all six terrain sets are present. It is then exactly those six sets. |
| Num.TruncDivOfNonNegative | src/levels/chunks.rs:122 | For a non-negative dividend and a positive divisor, `i32` division equals Euclidean division. |
| Num.TruncDivNegate | src/levels/chunks.rs:122 | Negating the dividend negates the `i32` quotient. |
| Num.FloorDivToI32 | src/levels/chunks.rs:164-167 | The floored float quotient cast to `i32` stays within `i32`. |
| Num.FloorDivToI32Floor | src/levels/chunks.rs:164-167 | For a non-zero divisor the cast gives the floor of the quotient when it fits in `i32`. Division by zero gives `i32::MAX` for a positive dividend and `i32::MIN` for a negative one. |
| Chunks.CameraChunk | src/levels/chunks.rs:120-122 | The camera chunk exists exactly when both truncated tile sizes are non-zero; otherwise the division panics. |
| Chunks.CameraInsideChunk | src/levels/chunks.rs:120-122 | For positive tile sizes the camera's truncated position lies in its chunk's cell. The cell reaches toward zero, so chunk 0 covers both sides of the origin. |
| Chunks.WindowOrder | src/levels/chunks.rs:125-126 | The loop visits `4 * 4` coordinates. |
| Chunks.WindowOrderAt | src/levels/chunks.rs:125-126 | The coordinate visited at row `r`, column `c` is `(px - 2 + c, py - 2 + r)`. |
| Chunks.WindowOrderExact | src/levels/chunks.rs:125-126 | The loop visits exactly the half-open window `[px-2, px+2) x [py-2, py+2)`, none of its coordinates twice. |
| Chunks.AbsentExact | src/levels/chunks.rs:127 | The coordinates that get a chunk are exactly the visited ones that were not already present, each once. |
| Chunks.SecondPassSpawnsNothing | src/levels/chunks.rs:127-136 | Once the window is present, a pass with the same camera chunk spawns no chunk. |
| Chunks.TileEntityDistinct | src/levels/chunks.rs:198-213 | Each tile of a chunk gets its own entity, numbered after the container and within its block. |
| Chunks.SpawnChunk | src/levels/chunks.rs:183-237 | The chunk has 16 x 16 tiles, the i-th being entity `container + 1 + i` at a position of the chunk, with the texture and pointing to the container. Every storage slot holds its own tile entity, and each tile is stored at its position. The container keeps the tile size and sits at `position * 16 * tile_size`, at `LEVEL_Z`. |
| Chunks.SpawnedContainers | src/levels/chunks.rs:129-135 | The i-th spawned chunk's container is entity `next + i * 257`. The counter advances by 257 per spawned chunk. The counter stands for Bevy's allocator; it never reuses an id, where Bevy may reuse a freed one. |
| Chunks.FarEntities | src/levels/chunks.rs:159-172 | An entity is despawned if and only if it is queried beyond the despawn range. |
| Chunks.FarChunksExact | src/levels/chunks.rs:163-169 | A coordinate is removed if and only if some queried entity beyond the range recovers to it. |
| Chunks.RecoverChunk | src/levels/chunks.rs:164-167 | The floored recovery formula maps a chunk's origin back to the chunk, for any non-zero tile size. |
| Chunks.SpawnDespawnRoundTrip | src/levels/chunks.rs:164-167 | For whole, non-zero tile sizes, despawn recovers from a spawned chunk's origin the chunk it was spawned for. |
| Chunks.FractionalTileLosesChunk | src/levels/chunks.rs:111 | With tiles 16.5 high, the chunk spawned for (1, 0) is recovered as (0, 0). |
| Chunks.TileSizeSwapsAxes | src/levels/chunks.rs:111 | Both systems take the tile size as `(tile_height, tile_width)`: with tiles 32 wide and 16 high, chunk (1, 1) is placed at (256, 512) and recovered as (1, 1). |
| Chunks.ChunkOriginInjective | src/levels/chunks.rs:217-221 | For a non-zero tile size, two chunks have the same origin exactly when they are the same chunk. |
| Chunks.ChunkOfPointInside | src/levels/chunks.rs:164-167 | For a positive tile size, every translation inside a chunk's square recovers that chunk. |
| Chunks.BeyondRangeMonotone | src/levels/chunks.rs:161-163 | A translation beyond a range is beyond every smaller non-negative range. |
| Chunks.BeyondRangeAtCamera | src/levels/chunks.rs:161-163 | The camera's own translation is beyond the range exactly when the range is negative. |
| Chunks.ChunkController.constructor | src/levels/chunks.rs:76-81 | A new controller holds no chunk. |
| Chunks.ChunkController.SpawnChunks | src/levels/chunks.rs:98-139 | With tile data, all six tile sets and non-zero truncated tile sizes it completes. Without tile data it panics, with a tile set missing it returns, and with a zero truncated tile size it panics. In each of these cases nothing changes. Otherwise the set becomes the old set plus the window. Exactly the window's formerly absent coordinates get a chunk, in visiting order. Each is a full `spawn_chunk` chunk: 16 x 16 tiles with texture 8, the truncated tile size, placed at its origin, with consecutive entity blocks. |
| Chunks.ChunkController.SpawnWindow | src/levels/chunks.rs:124-138 | The nested loop adds the window to the set and spawns one full chunk (16 x 16 tiles, texture 8, the tile size, its origin) per formerly absent coordinate, in order. |
| Chunks.ChunkController.VisitRow | src/levels/chunks.rs:126-137 | The inner loop over one row of the window inserts that row's coordinates and spawns a full chunk (16 x 16 tiles, texture 8, the tile size, its origin) for each formerly absent one, in order. |
| Chunks.ChunkController.VisitChunk | src/levels/chunks.rs:127-136 | One loop step inserts the coordinate and, exactly when it was absent, spawns for it a full chunk: 16 x 16 tiles with texture 8, the tile size, at its origin. |
| Chunks.ChunkController.DespawnChunks | src/levels/chunks.rs:144-173 | Without tile data it panics and changes nothing. Otherwise it removes exactly the chunks recovered from far entities and despawns exactly the far entities, in query order. |
| Chunks.ChunkController.DeleteChunks | src/levels/chunks.rs:175-180 | The set becomes empty; no entity is despawned. |
| Navigation.GridHoldsChunks | src/procgen/navigation.rs:31-34 | The grid holds the generated region: cell `j` of the `i`-th of the `2 * distance + 1` chunks along an axis is a grid cell. |
| Navigation.RebuildNavGrid | src/procgen/navigation.rs:63-76 | Every cell of the `GRID_SIZE` region becomes `Passable(1)`, and no other cell is written. |
| Navigation.MinByKey | src/procgen/navigation.rs:110-114 | The anchor exists exactly when there are positions. It is one of them, and precedes every position in (x, then y) order. |
| Navigation.LexMinUnique | src/procgen/navigation.rs:110-114 | Only one position can precede all others, so the anchor does not depend on iteration order. |
| Navigation.FloorToU32 | src/procgen/navigation.rs:123-128 | The `as u32` cast of the floored value never exceeds `u32::MAX`. |
| Navigation.FloorToU32Bounds | src/procgen/navigation.rs:123-128 | For a non-zero tile size the cast floors an in-range value and turns a negative value into 0. |
| Navigation.FloorToU32Exact | src/procgen/navigation.rs:123-128 | For a non-zero tile size, a value in `[n, n + 1)` with `n` below `u32::MAX` casts to `n`. |
| Navigation.AgentPosOfCell | src/procgen/navigation.rs:123-129 | A character's cell is `n` on an axis when its translation in tiles lies in `[o + n, o + n + 1)`, with `o` the anchor's offset. The y offset uses the chunk's width. |
| Navigation.NavTileSizeSwapsAxes | src/procgen/navigation.rs:107 | The tile size is `(tile_height, tile_width)`: with tiles 32 wide and 16 high, a character at (32, 32) from anchor (0, 0) is in cell (2, 1). |
| Navigation.AnchorOriginCell | src/procgen/navigation.rs:123-129 | With square chunks and a non-zero tile size, a character on the anchor chunk's origin is in cell (0, 0, 0). |
| Navigation.AnchorNextTileCell | src/procgen/navigation.rs:123-129 | One tile further along x from the anchor chunk's origin is cell (1, 0, 0). |
| Navigation.AnchorOriginRow | src/procgen/navigation.rs:126-128 | A character on the anchor chunk's origin is in row `anchor.y * (height - width)`, saturated at 0, because y is offset with the chunk's width. |
| Navigation.NonSquareChunkShiftsY | src/procgen/navigation.rs:126 | With 16 by 8 chunks, a character on the origin of anchor (0, -1) lands in row 8, because y is offset with the chunk's width. |
| Navigation.AgentPosInsideGrid | src/procgen/navigation.rs:123-129 | With square chunks, a character inside the region the grid spans from the anchor lands in a cell of the grid. |
| Navigation.LeftOfAnchorInColumnZero | src/procgen/navigation.rs:124-125 | A character left of the anchor's origin lands in column 0, because the cast saturates. |
| Navigation.BelowAnchorInRowZero | src/procgen/navigation.rs:126-128 | A character whose tile coordinate along y is below `anchor.y * CHUNK_SIZE.x` gets row 0, because the cast saturates. |
| Navigation.BelowOriginNotRowZero | src/procgen/navigation.rs:126-128 | With 16 by 8 chunks and anchor (0, -1), a character at y = -9, below the anchor chunk's origin at y = -8, is in row 7. |
| Navigation.UpdateNavGridAgentPos | src/procgen/navigation.rs:85-131 | Once the timer just finished, positions exist and tile data is loaded, it syncs. It changes nothing before the timer just finished, with no chunk positions, or (panicking) without tile data. Otherwise every changed character gets the cell of its translation relative to the anchor. Every other entity keeps its position, or its absence of one. |

## Left out

- Floating point: `f32` arithmetic is exact real arithmetic. Rounding, overflow to infinity in products and the float distance computation are not modelled. The distance test compares squares, which is exact for reals.
- Integer width: the `i32` product `chunk_size * tile_size` in the camera's chunk is unbounded here. An overflowing product, which panics in a debug build, is not modelled. Window coordinates near the `i32` bounds are not modelled either.
- Chunks.CameraChunk: its contract states only when the chunk exists. Where the chunk lies is stated by `Chunks.CameraInsideChunk`.
- Num.FloorDivToI32: its contract states only the `i32` bounds. The value it recovers is stated by `Chunks.RecoverChunk` and `Chunks.SpawnDespawnRoundTrip`.
- The `warn_once!` message logged when a tile set is missing (`src/levels/chunks.rs:115`) is I/O and is left out; only the early return is modelled.
- Timer: time is counted in whole milliseconds, so sub-millisecond parts of a frame's delta are lost.
- Navigation.FloorToU32: its contract states only the `u32` bound. How it floors is stated by `Navigation.FloorToU32Bounds` and `Navigation.FloorToU32Exact`.
- Chunks.ChunkController.SpawnChunks: the storage arrays of the spawned chunks are described by `Chunks.SpawnChunk` only; the system's contract states each chunk's values (tiles, texture, tile size, transform, entities), not its storage array's contents.
- Bevy ECS plumbing: `Commands`, the child hierarchy, `DespawnOnExit`, plugins and system ordering are left out. Spawning is a counter of entity numbers, and despawning is the list of despawned entities.
- `TilemapBundle`: its grid size, texture handle and render settings are left out. A spawned chunk keeps its container, transform, tile size, storage and tiles.
- The despawn query is an input. Whether tile entities carry a `Transform` is decided by the tilemap library, which is not part of this model.
- `spawn_nav_grid` and `grid.build()` belong to the navigation library, which is not part of this model. The grid is a two-dimensional array of cell values (one layer).
- Bevy's `Timer` is not part of this model. The animation uses the small timer of module `Timer`, and the procgen timer's `just_finished` is a boolean input.
- `get_frame` and `get_state` are field reads of the component's value, with nothing to state.
- Which step sound `choose` picks is random and left out. Only whether a sound is spawned is modelled.
- The character controller's translation, the sprite and the texture atlas are reduced to the fields the systems read and write.
