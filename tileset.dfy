/** `lib/map/tileset.ts`: what each tile id of the map means, how it is drawn and whether it
    can be walked on. */
module Tileset {

  /** A tile definition: its id, name, CSS colour and walkability. */
  datatype TileDefinition = TileDefinition(id: int, name: string, color: string, walkable: bool)

  /** `TILESET`: five floor tiles, two walls and water. */
  const Tiles: map<int, TileDefinition> := map[
    0 := TileDefinition(0, "grass", "#90EE90", true),
    1 := TileDefinition(1, "wood_floor", "#DEB887", true),
    2 := TileDefinition(2, "carpet", "#CD5C5C", true),
    3 := TileDefinition(3, "tile_floor", "#F5F5DC", true),
    4 := TileDefinition(4, "concrete", "#C0C0C0", true),
    10 := TileDefinition(10, "wall", "#654321", false),
    11 := TileDefinition(11, "brick_wall", "#8B4513", false),
    20 := TileDefinition(20, "water", "#4169E1", false)
  ]

  /** The ids the table defines. */
  const DefinedIds: set<int> := {0, 1, 2, 3, 4, 10, 11, 20}

  /** The table is keyed by exactly those ids, and every entry carries its own key as id. */
  lemma TilesKeyedById()
    ensures Tiles.Keys == DefinedIds
    ensures forall k :: k in Tiles ==> Tiles[k].id == k
  {
  }

  /** `getTile(id)`: `TILESET[id] || TILESET[0]`. Every entry is an object, hence truthy, so
      only a missing id falls back to grass. */
  function GetTile(id: int): (r: TileDefinition)
    ensures id in DefinedIds ==> r == Tiles[id]
    ensures id !in DefinedIds ==> r == Tiles[0] && r.name == "grass"
    ensures r.id == if id in DefinedIds then id else 0
  {
    if id in Tiles then Tiles[id] else Tiles[0]
  }

  /** `isTileWalkable(tileId)`. */
  function IsTileWalkable(tileId: int): (r: bool)
    ensures r <==> tileId !in {10, 11, 20}
  {
    var tile := GetTile(tileId);
    tile.walkable
  }
}
