/** `lib/map/mapData.ts`: the 125 by 125 tile grid of the world (32 pixels per tile) and the
    lookup from a world position to the tile under it. */
module MapData {

  const TileSize: int := 32
  const MapWidthTiles: int := 125
  const MapHeightTiles: int := 125

  /** The outer wall: the border of the square of tiles from 20 to 104 on both axes. */
  predicate OnWall(x: int, y: int) {
    && 20 <= x <= 104 && 20 <= y <= 104
    && (x == 20 || x == 104 || y == 20 || y == 104)
  }

  /** The two carpeted squares, strictly inside 30..50 and 75..95 on both axes. */
  predicate OnCarpet(x: int, y: int) {
    || (30 < x < 50 && 30 < y < 50)
    || (75 < x < 95 && 75 < y < 95)
  }

  /** The layout of the office: carpet (2) on the two carpeted squares, a wall (10) around
      the wooden floor (1), and grass (0) outside. */
  function CellAt(x: int, y: int): (r: int)
    ensures r in {0, 1, 2, 10}
    ensures r == 10 <==> OnWall(x, y)
    ensures r == 2 <==> OnCarpet(x, y)
    ensures !OnWall(x, y) && !OnCarpet(x, y) ==> r == if 20 < x < 105 && 20 < y < 105 then 1 else 0
  {
    if OnCarpet(x, y) then 2
    else if OnWall(x, y) then 10
    else if 20 < x < 105 && 20 < y < 105 then 1
    else 0
  }

  /** `MAP_DATA`: row `y`, column `x` holds the cell at (`x`, `y`). */
  function Map(): (r: seq<seq<int>>)
    ensures |r| == MapHeightTiles
    ensures forall y :: 0 <= y < |r| ==> |r[y]| == MapWidthTiles
    ensures forall y, x :: 0 <= y < |r| && 0 <= x < |r[y]| ==> r[y][x] == CellAt(x, y)
  {
    seq(MapHeightTiles, y => seq(MapWidthTiles, x => CellAt(x, y)))
  }

  /** `generateMapData()`: row by row, each cell starts as floor or grass and is then
      overwritten by a wall and by carpet where those lie. */
  method GenerateMapData() returns (grid: seq<seq<int>>)
    ensures grid == Map()
  {
    grid := [];
    for y := 0 to MapHeightTiles
      invariant |grid| == y
      invariant forall j :: 0 <= j < y ==> grid[j] == Map()[j]
    {
      var row: seq<int> := [];
      for x := 0 to MapWidthTiles
        invariant |row| == x
        invariant forall i :: 0 <= i < x ==> row[i] == CellAt(i, y)
      {
        var cell: int;
        if x > 20 && x < 105 && y > 20 && y < 105 {
          cell := 1;
        } else {
          cell := 0;
        }
        if x == 20 || x == 104 || y == 20 || y == 104 {
          if x >= 20 && x <= 104 && y >= 20 && y <= 104 {
            cell := 10;
          }
        }
        if x > 30 && x < 50 && y > 30 && y < 50 {
          cell := 2;
        }
        if x > 75 && x < 95 && y > 75 && y < 95 {
          cell := 2;
        }
        row := row + [cell];
      }
      assert row == Map()[y];
      grid := grid + [row];
    }
  }

  /** `getTileAtWorldPos(worldX, worldY)`: the cell under the pixel, found by flooring each
      coordinate divided by the tile size (Dafny's `/` by a positive divisor is the floor);
      any position off the 4000 by 4000 map reads as grass. */
  function GetTileAtWorldPos(worldX: int, worldY: int): (r: int)
    ensures 0 <= worldX < MapWidthTiles * TileSize && 0 <= worldY < MapHeightTiles * TileSize ==>
      && 0 <= worldX / TileSize < MapWidthTiles && 0 <= worldY / TileSize < MapHeightTiles
      && r == CellAt(worldX / TileSize, worldY / TileSize)
    ensures worldX < 0 || worldX >= 4000 || worldY < 0 || worldY >= 4000 ==> r == 0
  {
    var tileX := worldX / TileSize;
    var tileY := worldY / TileSize;
    if tileY >= 0 && tileY < |Map()| && tileX >= 0 && tileX < |Map()[tileY]| then
      Map()[tileY][tileX]
    else
      0
  }

  /** `isWorldPosWalkable(worldX, worldY)`: the tile is looked up but ignored, so every
      position counts as walkable. */
  function IsWorldPosWalkable(worldX: int, worldY: int): (r: bool)
    ensures r
  {
    var tileId := GetTileAtWorldPos(worldX, worldY);
    true
  }
}
