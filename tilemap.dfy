/** `lib/map/tilemap.ts`: which tiles of the map a camera viewport shows, and the list of
    those tiles the renderer draws. */
module Tilemap {
  import opened MapData

  /** The inclusive ranges of tile columns and rows in view; empty when a minimum exceeds its
      maximum. */
  datatype ViewportBounds = ViewportBounds(minX: int, maxX: int, minY: int, maxY: int)

  function Max(a: int, b: int): int { if a >= b then a else b }
  function Min(a: int, b: int): int { if a <= b then a else b }

  /** `getVisibleTiles(...)`: the tiles under the viewport's left and right (top and bottom)
      edges, clamped to the map. */
  function GetVisibleTiles(cameraOffsetX: int, cameraOffsetY: int, viewportWidth: int, viewportHeight: int)
    : (b: ViewportBounds)
    ensures 0 <= b.minX && b.maxX <= MapWidthTiles - 1
    ensures 0 <= b.minY && b.maxY <= MapHeightTiles - 1
  {
    var worldMinX := cameraOffsetX;
    var worldMaxX := cameraOffsetX + viewportWidth;
    var worldMinY := cameraOffsetY;
    var worldMaxY := cameraOffsetY + viewportHeight;
    ViewportBounds(
      Max(0, worldMinX / TileSize), Min(MapWidthTiles - 1, worldMaxX / TileSize),
      Max(0, worldMinY / TileSize), Min(MapHeightTiles - 1, worldMaxY / TileSize))
  }

  /** A map column is in the bounds exactly when its pixels reach past the viewport's left
      edge and it starts no further right than the right edge (the right edge counts as
      inside); likewise for rows. */
  lemma VisibleTilesTouchViewport(cameraOffsetX: int, cameraOffsetY: int, viewportWidth: int,
                                  viewportHeight: int, tileX: int, tileY: int)
    ensures var b := GetVisibleTiles(cameraOffsetX, cameraOffsetY, viewportWidth, viewportHeight);
      b.minX <= tileX <= b.maxX <==>
        && 0 <= tileX < MapWidthTiles
        && cameraOffsetX < tileX * TileSize + TileSize
        && tileX * TileSize <= cameraOffsetX + viewportWidth
    ensures var b := GetVisibleTiles(cameraOffsetX, cameraOffsetY, viewportWidth, viewportHeight);
      b.minY <= tileY <= b.maxY <==>
        && 0 <= tileY < MapHeightTiles
        && cameraOffsetY < tileY * TileSize + TileSize
        && tileY * TileSize <= cameraOffsetY + viewportHeight
  {
    FloorBounds(cameraOffsetX, tileX);
    FloorBounds(cameraOffsetX + viewportWidth, tileX);
    FloorBounds(cameraOffsetY, tileY);
    FloorBounds(cameraOffsetY + viewportHeight, tileY);
  }

  /** `a / 32` is the floor of the quotient: tile `t` starts at or before `a` exactly when
      `t` is at most that floor. */
  lemma FloorBounds(a: int, t: int)
    ensures t <= a / TileSize <==> t * TileSize <= a
    ensures a / TileSize <= t <==> a < t * TileSize + TileSize
  {
    var q := a / TileSize;
    assert q * TileSize <= a < q * TileSize + TileSize;
    if t <= q { assert t * TileSize <= q * TileSize; }
    if t > q { assert t * TileSize >= q * TileSize + TileSize; }
    if q <= t { assert q * TileSize + TileSize <= t * TileSize + TileSize; }
    if q > t { assert t * TileSize + TileSize <= q * TileSize; }
  }

  /** One entry of `getVisibleTileData`. */
  datatype TileData = TileData(tileX: int, tileY: int, tileId: int, worldX: int, worldY: int)

  /** The entry for the tile in column `tileX` and row `tileY`. */
  function Entry(tileX: int, tileY: int): TileData
    requires 0 <= tileX < MapWidthTiles && 0 <= tileY < MapHeightTiles
  {
    TileData(tileX, tileY, Map()[tileY][tileX], tileX * TileSize, tileY * TileSize)
  }

  /** The number of columns in the bounds. */
  function Width(b: ViewportBounds): nat {
    if b.minX <= b.maxX then b.maxX - b.minX + 1 else 0
  }

  /** The number of rows in the bounds. */
  function Height(b: ViewportBounds): nat {
    if b.minY <= b.maxY then b.maxY - b.minY + 1 else 0
  }

  /** Where the tile (`tileX`, `tileY`) sits in a row-by-row listing of the bounds. */
  function Slot(b: ViewportBounds, tileX: int, tileY: int): int {
    (tileY - b.minY) * Width(b) + (tileX - b.minX)
  }

  predicate InBounds(b: ViewportBounds, tileX: int, tileY: int) {
    b.minX <= tileX <= b.maxX && b.minY <= tileY <= b.maxY
  }

  /** `getVisibleTileData(...)`: every tile of the bounds exactly once, row by row and, within
      a row, left to right, each with its map cell and its pixel position; nothing when the
      bounds are empty. */
  method GetVisibleTileData(cameraOffsetX: int, cameraOffsetY: int, viewportWidth: int, viewportHeight: int)
    returns (tiles: seq<TileData>)
    ensures var b := GetVisibleTiles(cameraOffsetX, cameraOffsetY, viewportWidth, viewportHeight);
      && (b.minX > b.maxX || b.minY > b.maxY ==> tiles == [])
      && (b.minX <= b.maxX && b.minY <= b.maxY ==>
            |tiles| == (b.maxY - b.minY + 1) * (b.maxX - b.minX + 1))
    ensures var b := GetVisibleTiles(cameraOffsetX, cameraOffsetY, viewportWidth, viewportHeight);
      forall tileX, tileY :: InBounds(b, tileX, tileY) ==>
        0 <= Slot(b, tileX, tileY) < |tiles| && tiles[Slot(b, tileX, tileY)] == Entry(tileX, tileY)
    ensures var b := GetVisibleTiles(cameraOffsetX, cameraOffsetY, viewportWidth, viewportHeight);
      forall k :: 0 <= k < |tiles| ==>
        InBounds(b, tiles[k].tileX, tiles[k].tileY) && tiles[k] == Entry(tiles[k].tileX, tiles[k].tileY)
  {
    var bounds := GetVisibleTiles(cameraOffsetX, cameraOffsetY, viewportWidth, viewportHeight);
    var w := Width(bounds);
    tiles := [];
    var tileY := bounds.minY;
    while tileY <= bounds.maxY
      invariant bounds.minY <= tileY <= bounds.minY + Height(bounds)
      invariant |tiles| == (tileY - bounds.minY) * w
      invariant forall tx, ty :: InBounds(bounds, tx, ty) && ty < tileY ==>
        0 <= Slot(bounds, tx, ty) < |tiles| && tiles[Slot(bounds, tx, ty)] == Entry(tx, ty)
      invariant forall k :: 0 <= k < |tiles| ==>
        InBounds(bounds, tiles[k].tileX, tiles[k].tileY) && tiles[k] == Entry(tiles[k].tileX, tiles[k].tileY)
    {
      tiles := VisitRow(bounds, tileY, tiles);
      tileY := tileY + 1;
    }
  }

  /** The inner loop of `getVisibleTileData`: appends row `tileY` of the bounds. */
  method VisitRow(bounds: ViewportBounds, tileY: int, before: seq<TileData>) returns (tiles: seq<TileData>)
    requires 0 <= bounds.minX && bounds.maxX <= MapWidthTiles - 1
    requires 0 <= bounds.minY && bounds.maxY <= MapHeightTiles - 1
    requires bounds.minY <= tileY <= bounds.maxY
    requires |before| == (tileY - bounds.minY) * Width(bounds)
    requires forall tx, ty :: InBounds(bounds, tx, ty) && ty < tileY ==>
      0 <= Slot(bounds, tx, ty) < |before| && before[Slot(bounds, tx, ty)] == Entry(tx, ty)
    requires forall k :: 0 <= k < |before| ==>
      InBounds(bounds, before[k].tileX, before[k].tileY) && before[k] == Entry(before[k].tileX, before[k].tileY)
    ensures |tiles| == (tileY + 1 - bounds.minY) * Width(bounds)
    ensures forall tx, ty :: InBounds(bounds, tx, ty) && ty <= tileY ==>
      0 <= Slot(bounds, tx, ty) < |tiles| && tiles[Slot(bounds, tx, ty)] == Entry(tx, ty)
    ensures forall k :: 0 <= k < |tiles| ==>
      InBounds(bounds, tiles[k].tileX, tiles[k].tileY) && tiles[k] == Entry(tiles[k].tileX, tiles[k].tileY)
  {
    tiles := before;
    var tileX := bounds.minX;
    while tileX <= bounds.maxX
      invariant bounds.minX <= tileX <= bounds.minX + Width(bounds)
      invariant |tiles| == Slot(bounds, tileX, tileY)
      invariant tiles[..|before|] == before
      invariant forall tx :: bounds.minX <= tx < tileX ==>
        0 <= Slot(bounds, tx, tileY) < |tiles| && tiles[Slot(bounds, tx, tileY)] == Entry(tx, tileY)
      invariant forall k :: 0 <= k < |tiles| ==>
        InBounds(bounds, tiles[k].tileX, tiles[k].tileY) && tiles[k] == Entry(tiles[k].tileX, tiles[k].tileY)
    {
      var tileId := Map()[tileY][tileX];
      var worldX := tileX * TileSize;
      var worldY := tileY * TileSize;
      tiles := tiles + [TileData(tileX, tileY, tileId, worldX, worldY)];
      tileX := tileX + 1;
    }
    assert |tiles| == (tileY + 1 - bounds.minY) * Width(bounds);
    forall tx, ty | InBounds(bounds, tx, ty) && ty < tileY
      ensures 0 <= Slot(bounds, tx, ty) < |tiles| && tiles[Slot(bounds, tx, ty)] == Entry(tx, ty)
    {
      assert tiles[Slot(bounds, tx, ty)] == tiles[..|before|][Slot(bounds, tx, ty)];
    }
  }
}
