/**
 * Chunk streaming for one level kind: the controller's set of spawned chunk
 * coordinates, spawning the missing chunks of a square window around the
 * camera, despawning chunk entities far from the camera, and clearing the
 * set on teardown.
 *
 * Entities are numbered: a spawn takes the next free numbers from a counter
 * that stands for Bevy's entity allocator. A query is the sequence of the
 * matched entities with the components the system reads.
 */
module Chunks {
  import opened Num

  /** The six terrain tile sets, present together. */
  datatype TileSets = TileSets(
    fullDirt: set<UVec2>,
    fullGrass: set<UVec2>,
    cornerOuterGrassToDirt: set<UVec2>,
    cornerOuterDirtToGrass: set<UVec2>,
    sideDirtAndGrass: set<UVec2>,
    diagStripeGrassInDirt: set<UVec2>)

  /** The level's tile data asset; each terrain set may be missing from the file. */
  datatype TileData = TileData(
    tileWidth: real,
    tileHeight: real,
    fullDirt: Option<set<UVec2>>,
    fullGrass: Option<set<UVec2>>,
    cornerOuterGrassToDirt: Option<set<UVec2>>,
    cornerOuterDirtToGrass: Option<set<UVec2>>,
    sideDirtAndGrass: Option<set<UVec2>>,
    diagStripeGrassInDirt: Option<set<UVec2>>)

  /**
   * `TileData::get_tiles`: all six sets or nothing. It yields the sets
   * exactly when every one of them is present.
   */
  function GetTiles(d: TileData): (r: Option<TileSets>)
    ensures r.Some? <==>
              && d.fullDirt.Some? && d.fullGrass.Some?
              && d.cornerOuterGrassToDirt.Some? && d.cornerOuterDirtToGrass.Some?
              && d.sideDirtAndGrass.Some? && d.diagStripeGrassInDirt.Some?
    ensures r.Some? ==>
              r.value == TileSets(d.fullDirt.value, d.fullGrass.value,
                                  d.cornerOuterGrassToDirt.value, d.cornerOuterDirtToGrass.value,
                                  d.sideDirtAndGrass.value, d.diagStripeGrassInDirt.value)
  {
    var fullDirt :- d.fullDirt;
    var fullGrass :- d.fullGrass;
    var cornerOuterGrassToDirt :- d.cornerOuterGrassToDirt;
    var cornerOuterDirtToGrass :- d.cornerOuterDirtToGrass;
    var sideDirtAndGrass :- d.sideDirtAndGrass;
    var diagStripeGrassInDirt :- d.diagStripeGrassInDirt;
    Some(TileSets(fullDirt, fullGrass, cornerOuterGrassToDirt, cornerOuterDirtToGrass,
                  sideDirtAndGrass, diagStripeGrassInDirt))
  }

  /** `CHUNK_SIZE`: a chunk is 16 by 16 tiles. */
  const ChunkSize: int := 16
  /** `RENDER_DISTANCE`, in chunks. */
  const RenderDistance: int := 2
  /** The side of the spawn window, in chunks. */
  const WindowSide: int := 2 * RenderDistance
  /** The texture index every spawned tile gets. */
  const PlaceholderTexture: nat := 8
  /** `LEVEL_Z`. */
  const LevelZ: real := 1.0
  /** A chunk's container entity followed by one entity per tile. */
  const EntitiesPerChunk: nat := 1 + 16 * 16

  /**
   * The tile size `spawn_chunks` uses: `(tile_height as i32, tile_width as i32)`,
   * so its x component comes from the height and its y from the width.
   */
  function SpawnTileSize(d: TileData): IVec2
  {
    IVec2(TruncToI32(d.tileHeight), TruncToI32(d.tileWidth))
  }

  /** The same truncated size as floats, as `spawn_chunk` receives it. */
  function SpawnTileVec(d: TileData): Vec2
  {
    Vec2(SpawnTileSize(d).x as real, SpawnTileSize(d).y as real)
  }

  /** The tile size `despawn_chunks` uses: `(tile_height, tile_width)`, not truncated. */
  function DespawnTileSize(d: TileData): Vec2
  {
    Vec2(d.tileHeight, d.tileWidth)
  }

  /**
   * The camera's chunk: its translation truncated to integers, divided by the
   * chunk's size in world units with Rust's truncating `/`. The division
   * panics, and there is no chunk, when a truncated tile size is 0.
   */
  function CameraChunk(camera: Vec2, tile: IVec2): (r: Option<IVec2>)
    ensures r.Some? <==> tile.x != 0 && tile.y != 0
  {
    if tile.x == 0 || tile.y == 0 then None
    else
      var cam := IVec2(TruncToI32(camera.x), TruncToI32(camera.y));
      Some(IVec2(TruncDiv(cam.x, ChunkSize * tile.x), TruncDiv(cam.y, ChunkSize * tile.y)))
  }

  /**
   * Truncating division by a positive size: the quotient has the dividend's
   * sign and the dividend lies in the quotient's cell, that cell reaching
   * toward zero.
   */
  lemma TruncDivCell(a: int, d: int)
    requires d > 0
    ensures var q := TruncDiv(a, d);
            && (a >= 0 ==> q >= 0 && q * d <= a < q * d + d)
            && (a < 0 ==> q <= 0 && q * d - d < a <= q * d)
  {
    var q := TruncDiv(a, d);
    CellOfRemainder(a, d, q * d);
    NegativeMulBelow(q, d);
    NegativeMulBelow(-q, d);
  }

  /** A negative multiple of a positive `d` is at most `-d`. */
  lemma NegativeMulBelow(q: int, d: int)
    requires d > 0
    ensures q < 0 ==> q * d <= -d
    ensures q < 0 ==> -q * d >= d
  {
    if q < 0 {
      MulAtLeast(-q, d);
    }
  }

  /** The remainder bounds of truncating division, with the product `m` taken as a whole. */
  lemma CellOfRemainder(a: int, d: int, m: int)
    requires d > 0 && Abs(a - m) < d && (a - m == 0 || (a - m < 0 <==> a < 0))
    ensures a >= 0 ==> m <= a < m + d
    ensures a < 0 ==> m - d < a <= m
  {
  }

  /**
   * For positive tile sizes the camera's truncated position lies in the
   * chunk `CameraChunk` names, except that chunk 0 reaches one chunk to each
   * side of the origin, because the division truncates instead of flooring.
   */
  lemma CameraInsideChunk(camera: Vec2, tile: IVec2)
    requires tile.x > 0 && tile.y > 0
    ensures var p := CameraChunk(camera, tile).value;
            var cx, dx := TruncToI32(camera.x), ChunkSize * tile.x;
            var cy, dy := TruncToI32(camera.y), ChunkSize * tile.y;
            && (cx >= 0 ==> p.x >= 0 && p.x * dx <= cx < p.x * dx + dx)
            && (cx < 0 ==> p.x <= 0 && p.x * dx - dx < cx <= p.x * dx)
            && (cy >= 0 ==> p.y >= 0 && p.y * dy <= cy < p.y * dy + dy)
            && (cy < 0 ==> p.y <= 0 && p.y * dy - dy < cy <= p.y * dy)
  {
    TruncDivCell(TruncToI32(camera.x), ChunkSize * tile.x);
    TruncDivCell(TruncToI32(camera.y), ChunkSize * tile.y);
  }

  /** The square window of chunks kept around the camera's chunk. */
  predicate InWindow(center: IVec2, c: IVec2)
  {
    && center.x - RenderDistance <= c.x < center.x + RenderDistance
    && center.y - RenderDistance <= c.y < center.y + RenderDistance
  }

  /** The window in the order `spawn_chunks` visits it: row by row, x within y. */
  function WindowOrder(center: IVec2): (s: seq<IVec2>)
    ensures |s| == WindowSide * WindowSide
  {
    seq(WindowSide * WindowSide, i requires 0 <= i < WindowSide * WindowSide =>
      IVec2(center.x - RenderDistance + i % WindowSide, center.y - RenderDistance + i / WindowSide))
  }

  /** The coordinate visited after `k` steps of the nested loop. */
  lemma WindowOrderAt(center: IVec2, row: int, col: int)
    requires 0 <= row < WindowSide && 0 <= col < WindowSide
    ensures row * WindowSide + col < |WindowOrder(center)|
    ensures WindowOrder(center)[row * WindowSide + col] ==
              IVec2(center.x - RenderDistance + col, center.y - RenderDistance + row)
  {
    DivModUnique(row * WindowSide + col, WindowSide, row, col);
  }

  /** `s` is a prefix of `t`. */
  ghost predicate IsPrefix(s: seq<IVec2>, t: seq<IVec2>)
  {
    |s| <= |t| && forall i :: 0 <= i < |s| ==> s[i] == t[i]
  }

  /**
   * Extending a prefix of a sequence without repetitions by the next element:
   * that element has not been visited, and the result is again a prefix.
   */
  lemma PrefixNext(visited: seq<IVec2>, order: seq<IVec2>)
    requires IsPrefix(visited, order) && |visited| < |order| && Distinct(order)
    ensures order[|visited|] !in visited
    ensures IsPrefix(visited + [order[|visited|]], order)
  {
  }

  /** The visited prefix grows by one row per pass of the outer loop. */
  lemma NextRow(row: int)
    ensures (row + 1) * WindowSide == row * WindowSide + WindowSide
  {
  }

  /** The loop visits exactly the window: 16 coordinates, none twice. */
  lemma WindowOrderExact(center: IVec2)
    ensures forall c :: c in WindowOrder(center) <==> InWindow(center, c)
    ensures Distinct(WindowOrder(center))
  {
    var s := WindowOrder(center);
    forall c | InWindow(center, c)
      ensures c in s
    {
      var row, col := c.y - center.y + RenderDistance, c.x - center.x + RenderDistance;
      WindowOrderAt(center, row, col);
    }
    WindowOrderDistinct(center);
  }

  /** No coordinate of the window is visited twice. */
  lemma WindowOrderDistinct(center: IVec2)
    ensures Distinct(WindowOrder(center))
  {
    var s := WindowOrder(center);
    forall i, j | 0 <= i < j < |s|
      ensures s[i] != s[j]
    {
      DivModUnique(i, WindowSide, i / WindowSide, i % WindowSide);
      DivModUnique(j, WindowSide, j / WindowSide, j % WindowSide);
    }
  }

  function Elems(s: seq<IVec2>): set<IVec2>
  {
    set c | c in s
  }

  /**
   * The coordinates of `s`, in order, that are not in `present`: the ones
   * `spawn_chunks` inserts and spawns a chunk for.
   */
  function Absent(s: seq<IVec2>, present: set<IVec2>): seq<IVec2>
  {
    if |s| == 0 then []
    else Absent(s[..|s| - 1], present) + (if s[|s| - 1] in present then [] else [s[|s| - 1]])
  }

  /**
   * `Absent` keeps exactly the coordinates of `s` outside `present`, and
   * keeps them distinct when `s` is.
   */
  lemma {:induction false} AbsentExact(s: seq<IVec2>, present: set<IVec2>)
    ensures forall c :: c in Absent(s, present) <==> c in s && c !in present
    ensures Distinct(s) ==> Distinct(Absent(s, present))
  {
    if |s| > 0 {
      var init, last := s[..|s| - 1], s[|s| - 1];
      AbsentExact(init, present);
      assert s == init + [last];
      assert forall c :: c in s <==> c in init || c == last;
      if Distinct(s) {
        assert Distinct(init);
        assert last !in init;
      }
    }
  }

  /**
   * Streaming is idempotent: once the window is present, a pass with the
   * same camera chunk spawns nothing.
   */
  lemma SecondPassSpawnsNothing(center: IVec2, present: set<IVec2>)
    ensures Absent(WindowOrder(center), present + Elems(WindowOrder(center))) == []
  {
    AbsentOfCovered(WindowOrder(center), present + Elems(WindowOrder(center)));
  }

  /** Nothing is missing from a set that covers the sequence. */
  lemma {:induction false} AbsentOfCovered(s: seq<IVec2>, present: set<IVec2>)
    requires forall c :: c in s ==> c in present
    ensures Absent(s, present) == []
  {
    if |s| > 0 {
      AbsentOfCovered(s[..|s| - 1], present);
    }
  }

  /** A tile of a chunk: the `Chunk` marker and a `TileBundle`. */
  datatype TileBundle = TileBundle(entity: Entity, position: UVec2, texture: nat, tilemap: Entity)

  /**
   * What `spawn_chunk` creates: a container entity with its tile storage
   * and transform, and one child entity per tile.
   */
  datatype ChunkEntity = ChunkEntity(
    container: Entity,
    transform: Vec3,
    tileSize: Vec2,
    storage: array2<Option<Entity>>,
    tiles: seq<TileBundle>)

  /** A chunk's world origin: `position * CHUNK_SIZE * tile_size`, at `LEVEL_Z`. */
  function ChunkOrigin(position: IVec2, tileSize: Vec2): Vec3
  {
    Vec3(AxisOrigin(position.x, tileSize.x), AxisOrigin(position.y, tileSize.y), LevelZ)
  }

  /** One component of a chunk's origin. */
  function AxisOrigin(position: int, tile: real): real
  {
    position as real * ChunkSize as real * tile
  }

  /** The entity `spawn_chunk` spawns for tile `(x, y)`: x-major after the container. */
  function TileEntity(container: Entity, x: nat, y: nat): Entity
  {
    container + 1 + x * ChunkSize + y
  }

  /** Every tile of a chunk has its own entity, numbered after the container. */
  lemma TileEntityDistinct(container: Entity, x: nat, y: nat, x': nat, y': nat)
    requires x < ChunkSize && y < ChunkSize && x' < ChunkSize && y' < ChunkSize
    ensures container < TileEntity(container, x, y) < container + EntitiesPerChunk
    ensures TileEntity(container, x, y) == TileEntity(container, x', y') ==> x == x' && y == y'
  {
    if TileEntity(container, x, y) == TileEntity(container, x', y') {
      DivModUnique(x * ChunkSize + y, ChunkSize, x, y);
      DivModUnique(x' * ChunkSize + y', ChunkSize, x', y');
    }
  }

  /**
   * The values `spawn_chunk` gives a chunk for `position`: its container,
   * its transform at the chunk's origin, its tile size, and 16 x 16 tiles,
   * the i-th being entity `container + 1 + i` at a position of the chunk,
   * with the given texture and pointing to the container.
   */
  predicate ChunkValue(chunk: ChunkEntity, container: Entity, position: IVec2, tileSize: Vec2, texture: nat)
  {
    && chunk.container == container
    && chunk.transform == ChunkOrigin(position, tileSize) && chunk.tileSize == tileSize
    && |chunk.tiles| == ChunkSize * ChunkSize
    && forall i :: 0 <= i < |chunk.tiles| ==>
         var t := chunk.tiles[i];
         && t.entity == container + 1 + i
         && t.texture == texture && t.tilemap == container
         && t.position.x < ChunkSize && t.position.y < ChunkSize
         && t.entity == TileEntity(container, t.position.x, t.position.y)
  }

  /**
   * `spawn_chunk`: every one of the 16 x 16 storage slots holds its own tile
   * entity, each tile points back to the container, and the container sits
   * at the chunk's world origin.
   */
  method SpawnChunk(position: IVec2, tileSize: Vec2, texture: nat, nextEntity: Entity)
    returns (chunk: ChunkEntity, next: Entity)
    ensures ChunkValue(chunk, nextEntity, position, tileSize, texture)
    ensures next == nextEntity + EntitiesPerChunk
    ensures fresh(chunk.storage)
    ensures chunk.storage.Length0 == ChunkSize && chunk.storage.Length1 == ChunkSize
    ensures forall x, y :: 0 <= x < ChunkSize && 0 <= y < ChunkSize ==>
              chunk.storage[x, y] == Some(TileEntity(nextEntity, x, y))
    ensures forall i :: 0 <= i < |chunk.tiles| ==>
              var t := chunk.tiles[i];
              chunk.storage[t.position.x, t.position.y] == Some(t.entity)
  {
    var container := nextEntity;
    var storage := new Option<Entity>[ChunkSize, ChunkSize]((_, _) => None);
    var tiles: seq<TileBundle> := [];
    for x := 0 to ChunkSize
      invariant |tiles| == x * ChunkSize
      invariant forall x', y' :: 0 <= x' < x && 0 <= y' < ChunkSize ==>
                  storage[x', y'] == Some(TileEntity(container, x', y'))
      invariant forall i :: 0 <= i < |tiles| ==>
                  var t := tiles[i];
                  && t.entity == container + 1 + i
                  && t.texture == texture && t.tilemap == container
                  && t.position.x < x && t.position.y < ChunkSize
                  && t.entity == TileEntity(container, t.position.x, t.position.y)
                  && storage[t.position.x, t.position.y] == Some(t.entity)
    {
      for y := 0 to ChunkSize
        invariant |tiles| == x * ChunkSize + y
        invariant forall x', y' :: 0 <= x' < x && 0 <= y' < ChunkSize ==>
                    storage[x', y'] == Some(TileEntity(container, x', y'))
        invariant forall y' :: 0 <= y' < y ==> storage[x, y'] == Some(TileEntity(container, x, y'))
        invariant forall i :: 0 <= i < |tiles| ==>
                    var t := tiles[i];
                    && t.entity == container + 1 + i
                    && t.texture == texture && t.tilemap == container
                    && (t.position.x < x || (t.position.x == x && t.position.y < y))
                    && t.position.y < ChunkSize
                    && t.entity == TileEntity(container, t.position.x, t.position.y)
                    && storage[t.position.x, t.position.y] == Some(t.entity)
      {
        var entity := TileEntity(container, x, y);
        tiles := tiles + [TileBundle(entity, UVec2(x, y), texture, container)];
        storage[x, y] := Some(entity);
      }
    }
    var transform := ChunkOrigin(position, tileSize);
    chunk := ChunkEntity(container, transform, tileSize, storage, tiles);
    next := container + EntitiesPerChunk;
  }

  /**
   * `spawned[i]` is the chunk `spawn_chunk` creates for `missing[i]`, with
   * the placeholder texture; the chunks take consecutive blocks of entity numbers
   * from `nextEntity` on, and `next` is the first number after the last block.
   */
  ghost predicate SpawnedFor(spawned: seq<ChunkEntity>, missing: seq<IVec2>, tileSize: Vec2,
                             nextEntity: Entity, next: Entity)
  {
    && |spawned| == |missing|
    && (forall i :: 0 <= i < |spawned| ==>
          ChunkValue(spawned[i], spawned[i].container, missing[i], tileSize, PlaceholderTexture))
    && (|spawned| == 0 ==> next == nextEntity)
    && (|spawned| > 0 ==>
          spawned[0].container == nextEntity &&
          next == spawned[|spawned| - 1].container + EntitiesPerChunk)
    && forall i :: 0 <= i < |spawned| - 1 ==>
         spawned[i + 1].container == spawned[i].container + EntitiesPerChunk
  }

  /**
   * The i-th spawned chunk's container is entity `nextEntity + i * 257`, and
   * the counter moves on by 257 entities per spawned chunk.
   */
  lemma SpawnedContainers(spawned: seq<ChunkEntity>, missing: seq<IVec2>, tileSize: Vec2,
                           nextEntity: Entity, next: Entity)
    requires SpawnedFor(spawned, missing, tileSize, nextEntity, next)
    ensures forall i :: 0 <= i < |spawned| ==> spawned[i].container == nextEntity + i * EntitiesPerChunk
    ensures next == nextEntity + |spawned| * EntitiesPerChunk
  {
    forall i | 0 <= i < |spawned|
      ensures spawned[i].container == nextEntity + i * EntitiesPerChunk
    {
      ContainerAt(spawned, missing, tileSize, nextEntity, next, i);
    }
    if |spawned| > 0 {
      var n := |spawned| - 1;
      ContainerAt(spawned, missing, tileSize, nextEntity, next, n);
      assert (n + 1) * EntitiesPerChunk == n * EntitiesPerChunk + EntitiesPerChunk;
    }
  }

  /** The container of the i-th spawned chunk, by induction on `i`. */
  lemma {:induction false} ContainerAt(spawned: seq<ChunkEntity>, missing: seq<IVec2>, tileSize: Vec2,
                                       nextEntity: Entity, next: Entity, i: nat)
    requires SpawnedFor(spawned, missing, tileSize, nextEntity, next) && i < |spawned|
    ensures spawned[i].container == nextEntity + i * EntitiesPerChunk
    decreases i
  {
    if i > 0 {
      ContainerAt(spawned, missing, tileSize, nextEntity, next, i - 1);
      assert spawned[i].container == spawned[i - 1].container + EntitiesPerChunk;
      assert i * EntitiesPerChunk == (i - 1) * EntitiesPerChunk + EntitiesPerChunk;
    }
  }

  /** Visiting one more coordinate of the window keeps `SpawnedFor`. */
  lemma SpawnedForStep(before: seq<ChunkEntity>, after: seq<ChunkEntity>, visited: seq<IVec2>, c: IVec2,
                       present: set<IVec2>, tileSize: Vec2, nextEntity: Entity, next: Entity, next': Entity)
    requires SpawnedFor(before, Absent(visited, present), tileSize, nextEntity, next)
    requires c in present ==> after == before && next' == next
    requires c !in present ==>
               && |after| == |before| + 1 && after[..|before|] == before
               && next' == next + EntitiesPerChunk
               && ChunkValue(after[|before|], next, c, tileSize, PlaceholderTexture)
    ensures SpawnedFor(after, Absent(visited + [c], present), tileSize, nextEntity, next')
  {
    AbsentSnoc(visited, c, present);
    var missing := Absent(visited, present);
    if c !in present {
      assert forall i :: 0 <= i < |before| ==> after[i] == before[i];
      assert forall i :: 0 <= i < |missing| ==> (missing + [c])[i] == missing[i];
    }
  }

  /** Visiting `c` after `s` appends `c` to the missing coordinates exactly when it is absent. */
  lemma AbsentSnoc(s: seq<IVec2>, c: IVec2, present: set<IVec2>)
    ensures Absent(s + [c], present) == Absent(s, present) + (if c in present then [] else [c])
  {
    assert (s + [c])[..|s|] == s;
  }

  /** Why a system returned early or panicked. */
  datatype Panic = TileDataNotLoaded | DivideByZero
  datatype Status = Done | MissingTileData | Panicked(reason: Panic)

  /** One entity of `despawn_chunks`'s query: an entity with the `Chunk` marker and a transform. */
  datatype ChunkQueryItem = ChunkQueryItem(entity: Entity, translation: Vec2)

  /**
   * Whether `distance(camera, position) > range`, compared on squares: the
   * Euclidean distance is never negative, so every distance exceeds a
   * negative range.
   */
  predicate BeyondRange(camera: Vec2, position: Vec2, range: real)
  {
    var dx, dy := camera.x - position.x, camera.y - position.y;
    range < 0.0 || dx * dx + dy * dy > range * range
  }

  /** The chunk `despawn_chunks` recovers from a translation: a floored float division. */
  function ChunkOfTranslation(position: Vec2, tileSize: Vec2): IVec2
  {
    IVec2(AxisChunk(position.x, tileSize.x), AxisChunk(position.y, tileSize.y))
  }

  /** One component of the chunk recovered from a translation. */
  function AxisChunk(position: real, tile: real): int
  {
    FloorDivToI32(position, ChunkSize as real * tile)
  }

  /** The chunks recovered from the query's entities beyond the range. */
  function FarChunks(query: seq<ChunkQueryItem>, camera: Vec2, tileSize: Vec2, range: real): set<IVec2>
  {
    if |query| == 0 then {}
    else
      var last := query[|query| - 1];
      FarChunks(query[..|query| - 1], camera, tileSize, range) +
        (if BeyondRange(camera, last.translation, range)
         then {ChunkOfTranslation(last.translation, tileSize)} else {})
  }

  /** The query's entities beyond the range, in query order. */
  function FarEntities(query: seq<ChunkQueryItem>, camera: Vec2, range: real): (r: seq<Entity>)
    ensures forall e :: e in r <==>
              exists i :: 0 <= i < |query| && query[i].entity == e &&
                          BeyondRange(camera, query[i].translation, range)
  {
    if |query| == 0 then []
    else
      var last := query[|query| - 1];
      var init := query[..|query| - 1];
      assert forall i :: 0 <= i < |init| ==> init[i] == query[i];
      FarEntities(init, camera, range) +
        (if BeyondRange(camera, last.translation, range) then [last.entity] else [])
  }

  /** Exactly the far entities' chunks are removed. */
  lemma {:induction false} FarChunksExact(query: seq<ChunkQueryItem>, camera: Vec2, tileSize: Vec2, range: real, c: IVec2)
    ensures c in FarChunks(query, camera, tileSize, range) <==>
              exists i :: 0 <= i < |query| && BeyondRange(camera, query[i].translation, range) &&
                          ChunkOfTranslation(query[i].translation, tileSize) == c
  {
    if |query| > 0 {
      var init := query[..|query| - 1];
      FarChunksExact(init, camera, tileSize, range, c);
      assert forall i :: 0 <= i < |init| ==> init[i] == query[i];
    }
  }

  /** Multiplying by a non-zero real and dividing by it again is the identity. */
  lemma MulDivCancel(a: real, b: real)
    requires b != 0.0
    ensures (a * b) / b == a
  {
  }

  lemma FloorOfInt(c: int)
    ensures (c as real).Floor == c
  {
  }

  /** The chunk recovered from a chunk's origin along one axis, for a non-zero tile size. */
  lemma RecoverAxis(c: int, t: real)
    requires I32Min <= c <= I32Max && t != 0.0
    ensures AxisChunk(AxisOrigin(c, t), t) == c
  {
    assert ChunkSize as real == 16.0;
    var size := 16.0 * t;
    assert c as real * 16.0 * t == c as real * size;
    MulDivCancel(c as real, size);
    FloorOfInt(c);
    assert ChunkSize as real * t == size != 0.0;
    assert (c as real * ChunkSize as real * t) / (ChunkSize as real * t) == c as real;
  }

  /** A chunk is recovered from its own origin when the same non-zero tile size is used. */
  lemma RecoverChunk(c: IVec2, t: Vec2)
    requires I32Min <= c.x <= I32Max && I32Min <= c.y <= I32Max
    requires t.x != 0.0 && t.y != 0.0
    ensures var o := ChunkOrigin(c, t);
            ChunkOfTranslation(Vec2(o.x, o.y), t) == c
  {
    RecoverAxis(c.x, t.x);
    RecoverAxis(c.y, t.y);
  }

  /**
   * Spawn and despawn agree on whole-number tile sizes: the chunk recovered
   * from a spawned chunk's origin is the chunk it was spawned for.
   */
  lemma SpawnDespawnRoundTrip(c: IVec2, h: int, w: int, d: TileData)
    requires I32Min <= c.x <= I32Max && I32Min <= c.y <= I32Max
    requires I32Min <= h <= I32Max && I32Min <= w <= I32Max && h != 0 && w != 0
    requires d.tileHeight == h as real && d.tileWidth == w as real
    ensures var o := ChunkOrigin(c, SpawnTileVec(d));
            ChunkOfTranslation(Vec2(o.x, o.y), DespawnTileSize(d)) == c
  {
    TruncToI32OfWhole(h);
    TruncToI32OfWhole(w);
    assert SpawnTileVec(d) == DespawnTileSize(d);
    RecoverChunk(c, DespawnTileSize(d));
  }

  /**
   * With a fractional tile size the two disagree: for tiles 16.5 high,
   * `spawn_chunks` places chunk (1, 0) at x = 256 (16 truncated tiles), and
   * `despawn_chunks` recovers chunk 0 from it.
   */
  lemma FractionalTileLosesChunk()
    ensures var d := TileData(16.0, 16.5, None, None, None, None, None, None);
            var o := ChunkOrigin(IVec2(1, 0), SpawnTileVec(d));
            ChunkOfTranslation(Vec2(o.x, o.y), DespawnTileSize(d)) == IVec2(0, 0)
  {
    var d := TileData(16.0, 16.5, None, None, None, None, None, None);
    assert (16.5).Floor == 16;
    assert (16.0).Floor == 16;
    var o := ChunkOrigin(IVec2(1, 0), SpawnTileVec(d));
    assert o.x == 256.0;
    assert (256.0 / 264.0).Floor == 0;
  }

  /**
   * Both systems build the tile size as `(tile_height, tile_width)`: with
   * tiles 32 wide and 16 high, chunk (1, 1) is placed at (256, 512), and
   * despawn recovers (1, 1) from there.
   */
  lemma TileSizeSwapsAxes()
    ensures var d := TileData(32.0, 16.0, None, None, None, None, None, None);
            && SpawnTileSize(d) == IVec2(16, 32)
            && DespawnTileSize(d) == Vec2(16.0, 32.0)
            && ChunkOrigin(IVec2(1, 1), SpawnTileVec(d)) == Vec3(256.0, 512.0, LevelZ)
            && ChunkOfTranslation(Vec2(256.0, 512.0), DespawnTileSize(d)) == IVec2(1, 1)
  {
    TruncToI32OfWhole(16);
    TruncToI32OfWhole(32);
    assert (256.0 / 256.0).Floor == 1;
    assert (512.0 / 512.0).Floor == 1;
  }

  /** Distinct chunks have distinct origins, for a non-zero tile size. */
  lemma ChunkOriginInjective(c: IVec2, c': IVec2, t: Vec2)
    requires t.x != 0.0 && t.y != 0.0
    ensures ChunkOrigin(c, t) == ChunkOrigin(c', t) <==> c == c'
  {
    AxisOriginInjective(c.x, c'.x, t.x);
    AxisOriginInjective(c.y, c'.y, t.y);
  }

  lemma AxisOriginInjective(a: int, b: int, t: real)
    requires t != 0.0
    ensures AxisOrigin(a, t) == AxisOrigin(b, t) ==> a == b
  {
    var s := ChunkSize as real * t;
    assert AxisOrigin(a, t) == a as real * s;
    assert AxisOrigin(b, t) == b as real * s;
    if a != b {
      assert (a - b) as real * s == a as real * s - b as real * s;
      assert (a - b) as real * s != 0.0;
    }
  }

  /**
   * Every point of a chunk's square maps back to that chunk: for a positive
   * tile size, a translation in `[c * 16 * t, (c + 1) * 16 * t)` on each axis
   * recovers `c`.
   */
  lemma ChunkOfPointInside(c: IVec2, t: Vec2, p: Vec2)
    requires I32Min <= c.x <= I32Max && I32Min <= c.y <= I32Max
    requires t.x > 0.0 && t.y > 0.0
    requires AxisOrigin(c.x, t.x) <= p.x < AxisOrigin(c.x + 1, t.x)
    requires AxisOrigin(c.y, t.y) <= p.y < AxisOrigin(c.y + 1, t.y)
    ensures ChunkOfTranslation(p, t) == c
  {
    AxisChunkInside(c.x, t.x, p.x);
    AxisChunkInside(c.y, t.y, p.y);
  }

  lemma AxisChunkInside(c: int, t: real, p: real)
    requires I32Min <= c <= I32Max && t > 0.0
    requires AxisOrigin(c, t) <= p < AxisOrigin(c + 1, t)
    ensures AxisChunk(p, t) == c
  {
    var s := ChunkSize as real * t;
    assert AxisOrigin(c, t) == c as real * s;
    assert AxisOrigin(c + 1, t) == c as real * s + s;
    DivBetween(p, s, c as real);
    FloorDivToI32Floor(p, s, c);
  }

  /** A value between `c * s` and `(c + 1) * s` divides by a positive `s` to between `c` and `c + 1`. */
  lemma DivBetween(p: real, s: real, c: real)
    requires s > 0.0 && c * s <= p < c * s + s
    ensures c <= p / s < c + 1.0
  {
    var q := p / s;
    assert q * s == p;
    MulSign(c - q, s);
    MulSign(q - (c + 1.0), s);
    assert (c - q) * s == c * s - q * s;
    assert (q - (c + 1.0)) * s == q * s - c * s - s;
  }

  /** The sign of a product with a positive factor. */
  lemma MulSign(x: real, s: real)
    requires s > 0.0
    ensures x > 0.0 ==> x * s > 0.0
    ensures x >= 0.0 ==> x * s >= 0.0
  {
  }

  /** A point beyond a range is beyond every smaller non-negative range. */
  lemma BeyondRangeMonotone(camera: Vec2, position: Vec2, range: real, range': real)
    requires 0.0 <= range <= range'
    ensures BeyondRange(camera, position, range') ==> BeyondRange(camera, position, range)
  {
    assert range * range <= range * range' <= range' * range';
  }

  /** The camera's own position is beyond the range exactly when the range is negative. */
  lemma BeyondRangeAtCamera(camera: Vec2, range: real)
    ensures BeyondRange(camera, camera, range) <==> range < 0.0
  {
  }

  /** `ChunkController<T>`: the coordinates of the chunks spawned for a level kind. */
  class ChunkController {
    var chunks: set<IVec2>

    constructor ()
      ensures chunks == {}
    {
      chunks := {};
    }

    /**
     * `spawn_chunks`: panics without the tile data asset, or when a
     * truncated tile size is 0; does nothing unless all terrain sets are
     * configured; otherwise inserts every coordinate of the window around
     * the camera's chunk and spawns one chunk for each that was missing.
     */
    method SpawnChunks(data: Option<TileData>, camera: Vec2, nextEntity: Entity)
      returns (status: Status, spawned: seq<ChunkEntity>, next: Entity)
      modifies this
      ensures data.None? ==> status == Panicked(TileDataNotLoaded)
      ensures data.Some? && GetTiles(data.value).None? ==> status == MissingTileData
      ensures (data.Some? && GetTiles(data.value).Some? &&
               CameraChunk(camera, SpawnTileSize(data.value)).None?) ==> status == Panicked(DivideByZero)
      ensures (data.Some? && GetTiles(data.value).Some? &&
               CameraChunk(camera, SpawnTileSize(data.value)).Some?) ==> status == Done
      ensures status != Done ==> chunks == old(chunks) && spawned == [] && next == nextEntity
      ensures status == Done ==>
                && data.Some? && GetTiles(data.value).Some?
                && CameraChunk(camera, SpawnTileSize(data.value)).Some?
                && var p := CameraChunk(camera, SpawnTileSize(data.value)).value;
                   && chunks == old(chunks) + Elems(WindowOrder(p))
                   && (forall c :: c in chunks <==> c in old(chunks) || InWindow(p, c))
                   && SpawnedFor(spawned, Absent(WindowOrder(p), old(chunks)), SpawnTileVec(data.value),
                                 nextEntity, next)
    {
      if data.None? {
        return Panicked(TileDataNotLoaded), [], nextEntity;
      }
      var d := data.value;
      var tileSize := SpawnTileSize(d);
      var tiles := GetTiles(d);
      if tiles.None? {
        return MissingTileData, [], nextEntity;
      }
      var position := CameraChunk(camera, tileSize);
      if position.None? {
        return Panicked(DivideByZero), [], nextEntity;
      }
      var p := position.value;
      var tileVec := Vec2(tileSize.x as real, tileSize.y as real);
      spawned, next := SpawnWindow(p, tileVec, nextEntity);
      WindowOrderExact(p);
      status := Done;
    }

    /**
     * The nested loop of `spawn_chunks` over the window around `p`, row by
     * row: each coordinate is inserted, and a chunk is spawned when the
     * insertion added it.
     */
    method SpawnWindow(p: IVec2, tileVec: Vec2, nextEntity: Entity)
      returns (spawned: seq<ChunkEntity>, next: Entity)
      modifies this
      ensures chunks == old(chunks) + Elems(WindowOrder(p))
      ensures SpawnedFor(spawned, Absent(WindowOrder(p), old(chunks)), tileVec, nextEntity, next)
    {
      ghost var visited: seq<IVec2> := [];
      ghost var row := 0;
      spawned, next := [], nextEntity;
      for y := p.y - RenderDistance to p.y + RenderDistance
        invariant row == y - (p.y - RenderDistance)
        invariant |visited| == row * WindowSide && IsPrefix(visited, WindowOrder(p))
        invariant chunks == old(chunks) + Elems(visited)
        invariant SpawnedFor(spawned, Absent(visited, old(chunks)), tileVec, nextEntity, next)
      {
        spawned, next, visited := VisitRow(p, y, row, tileVec, spawned, next, visited, old(chunks), nextEntity);
        NextRow(row);
        row := row + 1;
      }
      assert visited == WindowOrder(p);
    }

    /**
     * The inner loop of `spawn_chunks` over row `y` of the window around
     * `p`, the `row`-th row visited.
     */
    method VisitRow(p: IVec2, y: int, ghost row: int, tileVec: Vec2, spawned: seq<ChunkEntity>, next: Entity,
                    ghost visited: seq<IVec2>, ghost initial: set<IVec2>, ghost nextEntity: Entity)
      returns (spawned': seq<ChunkEntity>, next': Entity, ghost visited': seq<IVec2>)
      requires 0 <= row < WindowSide && y == p.y - RenderDistance + row
      requires |visited| == row * WindowSide && IsPrefix(visited, WindowOrder(p))
      requires chunks == initial + Elems(visited)
      requires SpawnedFor(spawned, Absent(visited, initial), tileVec, nextEntity, next)
      modifies this
      ensures |visited'| == row * WindowSide + WindowSide && IsPrefix(visited', WindowOrder(p))
      ensures chunks == initial + Elems(visited')
      ensures SpawnedFor(spawned', Absent(visited', initial), tileVec, nextEntity, next')
    {
      spawned', next', visited' := spawned, next, visited;
      for x := p.x - RenderDistance to p.x + RenderDistance
        invariant |visited'| == row * WindowSide + (x - (p.x - RenderDistance)) && IsPrefix(visited', WindowOrder(p))
        invariant chunks == initial + Elems(visited')
        invariant SpawnedFor(spawned', Absent(visited', initial), tileVec, nextEntity, next')
      {
        var c := IVec2(x, y);
        WindowOrderAt(p, row, x - (p.x - RenderDistance));
        WindowOrderDistinct(p);
        PrefixNext(visited', WindowOrder(p));
        spawned', next' := VisitChunk(c, tileVec, spawned', next', visited', initial, nextEntity);
        visited' := visited' + [c];
      }
    }

    /**
     * The body of `spawn_chunks`'s nested loop for coordinate `c`: it is
     * inserted, and a chunk is spawned for it when it was not present yet.
     * `visited` are the coordinates of the window handled before, and
     * `initial` the set before the loop.
     */
    method VisitChunk(c: IVec2, tileVec: Vec2, spawned: seq<ChunkEntity>, next: Entity,
                      ghost visited: seq<IVec2>, ghost initial: set<IVec2>, ghost nextEntity: Entity)
      returns (spawned': seq<ChunkEntity>, next': Entity)
      requires chunks == initial + Elems(visited) && c !in visited
      requires SpawnedFor(spawned, Absent(visited, initial), tileVec, nextEntity, next)
      modifies this
      ensures chunks == initial + Elems(visited + [c])
      ensures SpawnedFor(spawned', Absent(visited + [c], initial), tileVec, nextEntity, next')
    {
      spawned', next' := spawned, next;
      if c !in chunks {
        chunks := chunks + {c};
        var chunk;
        chunk, next' := SpawnChunk(c, tileVec, PlaceholderTexture, next);
        spawned' := spawned + [chunk];
      }
      SpawnedForStep(spawned, spawned', visited, c, initial, tileVec, nextEntity, next, next');
      assert Elems(visited + [c]) == Elems(visited) + {c};
    }

    /**
     * `despawn_chunks`: panics without the tile data asset; otherwise every
     * queried entity beyond `range` of the camera is despawned and the chunk
     * recovered from its translation is removed from the set. Nothing else
     * changes.
     */
    method DespawnChunks(data: Option<TileData>, camera: Vec2, query: seq<ChunkQueryItem>, range: real)
      returns (status: Status, despawned: seq<Entity>)
      modifies this
      ensures data.None? ==>
                status == Panicked(TileDataNotLoaded) && chunks == old(chunks) && despawned == []
      ensures data.Some? ==>
                && status == Done
                && chunks == old(chunks) - FarChunks(query, camera, DespawnTileSize(data.value), range)
                && despawned == FarEntities(query, camera, range)
    {
      if data.None? {
        return Panicked(TileDataNotLoaded), [];
      }
      var tileSize := DespawnTileSize(data.value);
      despawned := [];
      for i := 0 to |query|
        invariant chunks == old(chunks) - FarChunks(query[..i], camera, tileSize, range)
        invariant despawned == FarEntities(query[..i], camera, range)
      {
        assert query[..i + 1][..i] == query[..i];
        var item := query[i];
        if BeyondRange(camera, item.translation, range) {
          var chunk := ChunkOfTranslation(item.translation, tileSize);
          chunks := chunks - {chunk};
          despawned := despawned + [item.entity];
        }
      }
      assert query[..|query|] == query;
      return Done, despawned;
    }

    /** `delete_chunks`: the set is emptied; entities are left alone. */
    method DeleteChunks()
      modifies this
      ensures chunks == {}
    {
      chunks := {};
    }
  }
}
