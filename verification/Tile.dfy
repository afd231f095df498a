/** Tile states and integer grid positions (Tile.cs, Unity's Vector2Int). */
module Tile {

  /** The states a tile can be in. */
  datatype TileType = Normal | Obstacle | Start | End

  /** An integer 2-D vector: a grid position or an offset between two positions. */
  datatype Pos = Pos(x: int, y: int) {

    function Plus(d: Pos): Pos {
      Pos(x + d.x, y + d.y)
    }

    /** The offset that leads from this position to `q`. */
    function OffsetTo(q: Pos): Pos {
      Pos(q.x - x, q.y - y)
    }
  }

  const Up := Pos(0, 1)
  const Down := Pos(0, -1)
  const Left := Pos(-1, 0)
  const Right := Pos(1, 0)
}
