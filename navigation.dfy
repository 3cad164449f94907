/**
 * Navigation-grid synchronisation for a procedurally generated level: the
 * grid's size, marking every cell passable after new chunks were generated,
 * the anchor chunk the grid is laid out from, and each moved character's
 * grid-local tile position.
 *
 * The procgen module's chunk size, generation distance and tile data are
 * parameters here, and the controller's map of generated chunk positions is
 * the sequence of its values in iteration order.
 */
module Navigation {
  import opened Num


  /** `GRID_SIZE`: the grid spans `2 * distance + 1` chunks along each axis. */
  function GridSize(chunkSize: UVec2, procgenDistance: nat): UVec2
  {
    UVec2(chunkSize.x * (procgenDistance * 2 + 1), chunkSize.y * (procgenDistance * 2 + 1))
  }

  /** bevy_northstar's cell value. */
  datatype Nav = Impassable | Passable(cost: nat)

  /**
   * The grid holds the generated region: cell `j` of the `i`-th of the
   * `2 * distance + 1` chunks along an axis is a cell of the grid.
   */
  lemma GridHoldsChunks(chunkSize: UVec2, procgenDistance: nat, i: nat, j: nat)
    requires i < procgenDistance * 2 + 1
    ensures j < chunkSize.x ==> i * chunkSize.x + j < GridSize(chunkSize, procgenDistance).x
    ensures j < chunkSize.y ==> i * chunkSize.y + j < GridSize(chunkSize, procgenDistance).y
  {
    var n := procgenDistance * 2 + 1;
    assert (i + 1) * chunkSize.x == i * chunkSize.x + chunkSize.x;
    assert (i + 1) * chunkSize.y == i * chunkSize.y + chunkSize.y;
    assert n * chunkSize.x == (i + 1) * chunkSize.x + (n - (i + 1)) * chunkSize.x;
    assert n * chunkSize.y == (i + 1) * chunkSize.y + (n - (i + 1)) * chunkSize.y;
  }

  /**
   * `rebuild_nav_grid` on the grid's single layer: every cell of the
   * `GRID_SIZE` region becomes `Passable(1)` and every other cell keeps its
   * value.
   */
  method RebuildNavGrid(grid: array2<Nav>, chunkSize: UVec2, procgenDistance: nat)
    requires GridSize(chunkSize, procgenDistance).x <= grid.Length0
    requires GridSize(chunkSize, procgenDistance).y <= grid.Length1
    modifies grid
    ensures forall x, y :: 0 <= x < grid.Length0 && 0 <= y < grid.Length1 ==>
              grid[x, y] == if x < GridSize(chunkSize, procgenDistance).x &&
                               y < GridSize(chunkSize, procgenDistance).y
                            then Passable(1) else old(grid[x, y])
  {
    var size := GridSize(chunkSize, procgenDistance);
    for x := 0 to size.x
      invariant forall i, j :: 0 <= i < grid.Length0 && 0 <= j < grid.Length1 ==>
                  grid[i, j] == if i < x && j < size.y then Passable(1) else old(grid[i, j])
    {
      for y := 0 to size.y
        invariant forall i, j :: 0 <= i < grid.Length0 && 0 <= j < grid.Length1 ==>
                    grid[i, j] == if (i < x && j < size.y) || (i == x && j < y) then Passable(1)
                                  else old(grid[i, j])
      {
        grid[x, y] := Passable(1);
      }
    }
  }

  /** The key `min_by_key` compares: x first, then y. */
  predicate LexLe(a: IVec2, b: IVec2)
  {
    a.x < b.x || (a.x == b.x && a.y <= b.y)
  }

  /**
   * `positions.values().min_by_key(|pos| (pos.x, pos.y))`: no anchor for no
   * positions, and otherwise a position no other one precedes.
   */
  function MinByKey(values: seq<IVec2>): (r: Option<IVec2>)
    ensures r.Some? <==> |values| > 0
    ensures r.Some? ==> r.value in values
    ensures r.Some? ==> forall v :: v in values ==> LexLe(r.value, v)
  {
    if |values| == 0 then None
    else
      match MinByKey(values[1..])
      case None => Some(values[0])
      case Some(m) =>
        assert forall v :: v in values ==> v == values[0] || v in values[1..];
        if LexLe(m, values[0]) && m != values[0] then Some(m) else Some(values[0])
  }

  /** The anchor is unique: two positions that both precede all others are equal. */
  lemma LexMinUnique(values: seq<IVec2>, a: IVec2, b: IVec2)
    requires a in values && b in values
    requires forall v :: v in values ==> LexLe(a, v)
    requires forall v :: v in values ==> LexLe(b, v)
    ensures a == b
  {
    assert LexLe(a, b) && LexLe(b, a);
  }

  /** The part of the procgen tile data used here. */
  datatype TileDims = TileDims(tileWidth: real, tileHeight: real)

  /**
   * `(a / b - offset).floor() as u32` on floats. Dividing by a zero tile size
   * gives +inf, -inf or NaN: +inf saturates to `u32::MAX`, the other two cast
   * to 0. Negative values saturate to 0.
   */
  function FloorToU32(a: real, b: real, offset: real): (r: nat)
    ensures r <= U32Max
  {
    if b == 0.0 then (if a > 0.0 then U32Max else 0)
    else SatU32((a / b - offset).Floor)
  }

  /**
   * For a non-zero divisor the cast floors the value when it is in range,
   * and yields 0 for a negative value.
   */
  lemma FloorToU32Bounds(a: real, b: real, offset: real)
    requires b != 0.0
    ensures var r := FloorToU32(a, b, offset);
            && (0.0 <= a / b - offset < U32Max as real ==> r as real <= a / b - offset < r as real + 1.0)
            && (a / b - offset < 0.0 ==> r == 0)
  {
  }

  /**
   * The grid cell of a character at `translation`, relative to the anchor
   * chunk. The y offset uses the chunk's x size, as the source does.
   */
  function AgentPosOf(translation: Vec2, tile: Vec2, anchor: IVec2, chunkSize: UVec2): UVec3
  {
    UVec3(AxisCell(translation.x, tile.x, anchor.x, chunkSize.x),
          AxisCell(translation.y, tile.y, anchor.y, chunkSize.x),
          0)
  }

  /** One component of a character's cell: `(t / tile - anchor * width).floor() as u32`. */
  function AxisCell(t: real, tile: real, anchor: int, width: nat): nat
  {
    FloorToU32(t, tile, anchor as real * width as real)
  }

  /** The tile size the system uses: `(tile_height, tile_width)`. */
  function NavTileSize(d: TileDims): Vec2
  {
    Vec2(d.tileHeight, d.tileWidth)
  }

  /** One floor: a value in `[n, n + 1)` for a whole `n` in range floors to `n`. */
  lemma FloorToU32Exact(a: real, b: real, offset: real, n: nat)
    requires b != 0.0 && n < U32Max
    requires n as real <= a / b - offset < n as real + 1.0
    ensures FloorToU32(a, b, offset) == n
  {
  }

  /**
   * The projection of a character: its cell is `n` on an axis exactly when
   * its translation, in tiles, lies in `[o + n, o + n + 1)` with `o` the
   * anchor's offset (the y offset taken with the chunk's width).
   */
  lemma AgentPosOfCell(translation: Vec2, tile: Vec2, anchor: IVec2, chunkSize: UVec2, n: UVec2)
    requires tile.x != 0.0 && tile.y != 0.0 && n.x < U32Max && n.y < U32Max
    requires var o := anchor.x as real * chunkSize.x as real;
             o + n.x as real <= translation.x / tile.x < o + n.x as real + 1.0
    requires var o := anchor.y as real * chunkSize.x as real;
             o + n.y as real <= translation.y / tile.y < o + n.y as real + 1.0
    ensures AgentPosOf(translation, tile, anchor, chunkSize) == UVec3(n.x, n.y, 0)
  {
    FloorToU32Exact(translation.x, tile.x, anchor.x as real * chunkSize.x as real, n.x);
    FloorToU32Exact(translation.y, tile.y, anchor.y as real * chunkSize.x as real, n.y);
  }

  /**
   * The tile size is `(tile_height, tile_width)`: with tiles 32 wide and 16
   * high, a character at (32, 32) from anchor chunk (0, 0) is in cell
   * (2, 1), not (1, 2).
   */
  lemma NavTileSizeSwapsAxes()
    ensures NavTileSize(TileDims(32.0, 16.0)) == Vec2(16.0, 32.0)
    ensures AgentPosOf(Vec2(32.0, 32.0), NavTileSize(TileDims(32.0, 16.0)), IVec2(0, 0), UVec2(16, 16))
              == UVec3(2, 1, 0)
  {
    FloorToU32Exact(32.0, 16.0, 0.0, 2);
    FloorToU32Exact(32.0, 32.0, 0.0, 1);
  }

  /**
   * With square chunks and a non-zero tile size, a character standing on
   * the anchor chunk's origin is in cell (0, 0, 0).
   */
  lemma AnchorOriginCell(tile: Vec2, anchor: IVec2, chunkSize: UVec2)
    requires tile.x != 0.0 && tile.y != 0.0 && chunkSize.x == chunkSize.y
    ensures var origin := Vec2(anchor.x as real * chunkSize.x as real * tile.x,
                               anchor.y as real * chunkSize.y as real * tile.y);
            AgentPosOf(origin, tile, anchor, chunkSize) == UVec3(0, 0, 0)
  {
    CellOfOrigin(anchor.x, chunkSize.x, tile.x);
    CellOfOrigin(anchor.y, chunkSize.x, tile.y);
  }

  /** One tile along x from the anchor chunk's origin is cell (1, 0, 0). */
  lemma AnchorNextTileCell(tile: Vec2, anchor: IVec2, chunkSize: UVec2)
    requires tile.x != 0.0 && tile.y != 0.0 && chunkSize.x == chunkSize.y
    ensures var origin := Vec2(anchor.x as real * chunkSize.x as real * tile.x,
                               anchor.y as real * chunkSize.y as real * tile.y);
            AgentPosOf(Vec2(origin.x + tile.x, origin.y), tile, anchor, chunkSize) == UVec3(1, 0, 0)
  {
    CellOfNextTile(anchor.x, chunkSize.x, tile.x);
    CellOfOrigin(anchor.y, chunkSize.x, tile.y);
  }

  /** A point on the anchor's origin along one axis is in cell 0. */
  lemma CellOfOrigin(anchor: int, width: nat, t: real)
    requires t != 0.0
    ensures AxisCell(anchor as real * width as real * t, t, anchor, width) == 0
  {
    var o := anchor as real * width as real;
    DivUnique(o * t, t, o);
    FloorToU32Exact(o * t, t, o, 0);
  }

  /** One tile further along an axis is cell 1. */
  lemma CellOfNextTile(anchor: int, width: nat, t: real)
    requires t != 0.0
    ensures AxisCell(anchor as real * width as real * t + t, t, anchor, width) == 1
  {
    var o := anchor as real * width as real;
    assert (o + 1.0) * t == o * t + t;
    DivUnique(o * t + t, t, o + 1.0);
    FloorToU32Exact(o * t + t, t, o, 1);
  }

  /**
   * With chunks 16 wide and 8 high the y projection is off: a character on
   * the origin of anchor chunk (0, -1) is placed 8 cells up instead of in
   * row 0, because the y offset is taken with the chunk's width.
   */
  lemma NonSquareChunkShiftsY()
    ensures var chunkSize, anchor, tile := UVec2(16, 8), IVec2(0, -1), Vec2(1.0, 1.0);
            var origin := Vec2(0.0, anchor.y as real * chunkSize.y as real * tile.y);
            AgentPosOf(origin, tile, anchor, chunkSize) == UVec3(0, 8, 0)
  {
    FloorToU32Exact(0.0, 1.0, 0.0, 0);
    FloorToU32Exact(-8.0, 1.0, -16.0, 8);
  }

  /**
   * The row of a character on the anchor chunk's origin: the y offset uses
   * the chunk's width, so the row is `anchor.y * (height - width)`, cast
   * with saturation. It is 0 for square chunks, for anchor row 0, and
   * whenever that product is negative.
   */
  lemma AnchorOriginRow(tile: Vec2, anchor: IVec2, chunkSize: UVec2)
    requires tile.y != 0.0
    ensures var oy := anchor.y as real * chunkSize.y as real * tile.y;
            AgentPosOf(Vec2(0.0, oy), tile, anchor, chunkSize).y
              == SatU32(anchor.y * (chunkSize.y - chunkSize.x))
  {
    var k := anchor.y * (chunkSize.y - chunkSize.x);
    var oy := anchor.y as real * chunkSize.y as real * tile.y;
    DivUnique(oy, tile.y, anchor.y as real * chunkSize.y as real);
    assert anchor.y as real * chunkSize.y as real - anchor.y as real * chunkSize.x as real == k as real;
    assert (k as real).Floor == k;
  }

  /**
   * The grid covers the generated region: with square chunks and a positive
   * tile size, a character inside the `2 * distance + 1` chunks that start at
   * the anchor lies in a cell of the grid.
   */
  lemma AgentPosInsideGrid(translation: Vec2, tile: Vec2, anchor: IVec2, chunkSize: UVec2, procgenDistance: nat)
    requires tile.x > 0.0 && tile.y > 0.0 && chunkSize.x == chunkSize.y
    requires var size := GridSize(chunkSize, procgenDistance);
             && size.x < U32Max
             && anchor.x as real * chunkSize.x as real <= translation.x / tile.x
             && translation.x / tile.x < anchor.x as real * chunkSize.x as real + size.x as real
             && anchor.y as real * chunkSize.x as real <= translation.y / tile.y
             && translation.y / tile.y < anchor.y as real * chunkSize.x as real + size.y as real
    ensures var p := AgentPosOf(translation, tile, anchor, chunkSize);
            var size := GridSize(chunkSize, procgenDistance);
            p.x < size.x && p.y < size.y && p.z == 0
  {
    var size := GridSize(chunkSize, procgenDistance);
    AxisCellBelow(translation.x, tile.x, anchor.x, chunkSize.x, size.x);
    AxisCellBelow(translation.y, tile.y, anchor.y, chunkSize.x, size.y);
  }

  /** Along one axis, a value less than `n` cells past the anchor's origin lands in a cell below `n`. */
  lemma AxisCellBelow(t: real, tile: real, anchor: int, width: nat, n: nat)
    requires tile != 0.0 && n < U32Max
    requires anchor as real * width as real <= t / tile < anchor as real * width as real + n as real
    ensures AxisCell(t, tile, anchor, width) < n
  {
    var o := anchor as real * width as real;
    assert 0.0 <= t / tile - o < n as real;
    FloorToU32Bounds(t, tile, o);
  }

  /**
   * The `as u32` cast saturates: a character left of the anchor chunk's
   * origin is placed in column 0 rather than at a negative cell.
   */
  lemma LeftOfAnchorInColumnZero(translation: Vec2, tile: Vec2, anchor: IVec2, chunkSize: UVec2)
    requires tile.x != 0.0
    requires translation.x / tile.x < anchor.x as real * chunkSize.x as real
    ensures AgentPosOf(translation, tile, anchor, chunkSize).x == 0
  {
    FloorToU32Bounds(translation.x, tile.x, anchor.x as real * chunkSize.x as real);
  }

  /**
   * The saturating cast along y: a character whose tile coordinate lies
   * below the anchor's y offset, which is taken with the chunk's width,
   * gets row 0.
   */
  lemma BelowAnchorInRowZero(translation: Vec2, tile: Vec2, anchor: IVec2, chunkSize: UVec2)
    requires tile.y != 0.0
    requires translation.y / tile.y < anchor.y as real * chunkSize.x as real
    ensures AgentPosOf(translation, tile, anchor, chunkSize).y == 0
  {
    FloorToU32Bounds(translation.y, tile.y, anchor.y as real * chunkSize.x as real);
  }

  /**
   * With chunks 16 wide and 8 high, being below the anchor chunk's origin
   * does not give row 0: for anchor (0, -1) the origin is at y = -8, and a
   * character at y = -9 is in row 7.
   */
  lemma BelowOriginNotRowZero()
    ensures AgentPosOf(Vec2(0.0, -9.0), Vec2(1.0, 1.0), IVec2(0, -1), UVec2(16, 8)).y == 7
  {
    FloorToU32Exact(-9.0, 1.0, -16.0, 7);
  }

  /** One entity of the characters query: its id, translation and change tick. */
  datatype CharacterItem = CharacterItem(entity: Entity, translation: Vec2, changed: bool)

  /**
   * How a run of the system ends: synced, returned early (timer or
   * positions), or panicked in `expect` because the tile data is not loaded.
   */
  datatype SyncStatus = Synced | TimerPending | NoPositions | TileDataPanic

  /**
   * `update_nav_grid_agent_pos`: returns before the procgen timer just
   * finished and while no chunk positions are recorded, panics without the
   * tile data, and otherwise gives every changed character the cell of its
   * translation relative to the anchor. `agentPos` maps each entity to its
   * `AgentPos` component; characters that did not move keep theirs.
   */
  method UpdateNavGridAgentPos(timerJustFinished: bool, positions: seq<IVec2>, data: Option<TileDims>,
                               characters: seq<CharacterItem>, chunkSize: UVec2,
                               agentPos: map<Entity, UVec3>)
    returns (status: SyncStatus, r: map<Entity, UVec3>)
    requires forall i, j :: 0 <= i < j < |characters| ==> characters[i].entity != characters[j].entity
    ensures !timerJustFinished ==> status == TimerPending
    ensures timerJustFinished && |positions| == 0 ==> status == NoPositions
    ensures timerJustFinished && |positions| > 0 && data.None? ==> status == TileDataPanic
    ensures timerJustFinished && |positions| > 0 && data.Some? ==> status == Synced
    ensures status != Synced ==> r == agentPos
    ensures status == Synced ==>
              && data.Some? && MinByKey(positions).Some?
              && (forall i :: 0 <= i < |characters| && characters[i].changed ==>
                    var c := characters[i];
                    c.entity in r &&
                    r[c.entity] == AgentPosOf(c.translation, NavTileSize(data.value),
                                              MinByKey(positions).value, chunkSize))
              && (forall e :: (forall i :: 0 <= i < |characters| && characters[i].changed ==>
                                 characters[i].entity != e) ==>
                    (e in r <==> e in agentPos) && (e in r ==> r[e] == agentPos[e]))
  {
    if !timerJustFinished {
      return TimerPending, agentPos;
    }
    if |positions| == 0 {
      return NoPositions, agentPos;
    }
    if data.None? {
      return TileDataPanic, agentPos;
    }
    var tile := NavTileSize(data.value);
    var anchor := MinByKey(positions).value;
    r := agentPos;
    for i := 0 to |characters|
      invariant forall k :: 0 <= k < i && characters[k].changed ==>
                  characters[k].entity in r &&
                  r[characters[k].entity] == AgentPosOf(characters[k].translation, tile, anchor, chunkSize)
      invariant forall e :: (forall k :: 0 <= k < i && characters[k].changed ==> characters[k].entity != e) ==>
                  (e in r <==> e in agentPos) && (e in r ==> r[e] == agentPos[e])
    {
      var c := characters[i];
      if !c.changed {
        continue;
      }
      r := r[c.entity := AgentPosOf(c.translation, tile, anchor, chunkSize)];
    }
    status := Synced;
  }
}
