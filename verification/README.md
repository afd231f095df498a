# Grid path finding: Dafny model

This project models the grid-and-path logic of a small Unity demo that
compares two path finders on a tile grid: a drunkard's walk and an A*
scaffold. It proves properties of that model. The Unity scaffolding is
left out.

- **Grid (`Map`, Assets/Scripts/Map.cs).** The map is a `sizeX` by
  `sizeY` array of tiles, indexed `[x][y]`. Each tile has a `TileType`
  (Normal, Obstacle, Start or End) and a route-overlay flag. The map also
  stores:
  - the start position;
  - the destination position;
  - the route to display, which is `None` until an algorithm has produced one.

  The model covers the operations that work on this state:
  - the fixed table of eight directions;
  - the test for whether a tile can be stepped on (`IsValidTile`);
  - setting the start and the destination, so that each stays unique;
  - placing a block of obstacles;
  - painting with a mouse click;
  - resetting the grid;
  - filling the grid from the rows of a level text;
  - clearing and showing the route overlay.

  The grid is an immutable value: every operation takes a `MapState` and
  returns the new one. The whole-grid operations keep the nested
  column/row loops of the original, with loop invariants that say which
  tiles change and that no other tile does.
- **Drunkard's walk (`MapDrunk`, Assets/Scripts/MapDrunk.cs).** From the
  start, the walk repeatedly collects the valid neighbours of the current
  tile in direction order and moves to one of them at random. It stops at
  the destination or after 999 iterations. The random choice is an oracle
  `roll(k, n)`: the index in `[0, n)` that the `k`-th draw picks. The
  predicate `IsDrunkWalk` says which paths the walk can produce for a
  given oracle.
- **A\* scaffold (`MapAStar`, Assets/Scripts/MapAStar.cs).** This part
  covers:
  - the per-tile search record and its cost;
  - the shadow grid of fresh records;
  - the search-loop guard;
  - the reconstruction of the route by following predecessor links back
    from the destination.

  The search itself is an unwritten exercise in the original: the open
  list is never seeded and the loop body is empty. The model keeps it
  that way, so the search as written always yields an empty route.
  Reconstruction is proved for any shadow grid whose links are well
  founded: a predecessor is always strictly closer to the start. Under
  that condition it yields the unique route to the destination.

The modules are `Wrappers` (an `Option` type), `Tile` (`TileType`, grid
positions and the four unit offsets), `Map`, `MapDrunk` and `MapAStar`.

Where the original would throw, the model has a precondition instead. This
covers indexing outside the grid, an out-of-range obstacle rectangle, and
a start or destination off the grid.

Two behaviours of the original that a reader may not expect, both kept by
the model:
- A tile holding Start is not a valid tile. `IsValidTile` accepts only Normal and
  End tiles, so the drunkard's walk never steps onto a tile that holds
  Start (or an Obstacle). It can return to `startPos` once that tile no
  longer holds Start: after the destination or a Normal tile is painted
  over it, or after a level without a Start is loaded.
- Loading a level does not reject short rows or unknown characters. It
  reads the first row's length as the width and indexes every row up to
  that width. The model therefore requires every row to be at least that
  long (`RowsCover`), and a character's type is whatever the lookup
  returns.

## Model

| member | source | states |
|---|---|---|
| Map.AllDirections | Assets/Scripts/Map.cs:37-45 | the table holds exactly eight pairwise-distinct non-zero offsets with components in {-1, 0, 1}, in the order up, up-left, up-right, down, down-left, down-right, left, right |
| Map.DirectionIndexInverse | Assets/Scripts/Map.cs:37-45 | the place `DirectionIndex` gives a king's move holds that move, so every king's move is in the table |
| Map.DirectionIndexOfTable | Assets/Scripts/Map.cs:37-45 | each entry of the direction table is found at its own place, so the table and `DirectionIndex` are inverse |
| Map.IsValidTile | Assets/Scripts/Map.cs:200-215 | a position is valid exactly when it lies on the grid and its tile is neither the start nor an obstacle, so an off-grid position is never valid and is never indexed |
| Map.Sweep | Assets/Scripts/Map.cs:165-174 | the nested loop over the whole grid applies its per-tile update to every tile and changes no other field of the map |
| Map.ClearState | Assets/Scripts/Map.cs:165-174 | every tile in the given state becomes Normal, every other tile keeps its state, and no overlay changes |
| Map.SetStartPos | Assets/Scripts/Map.cs:161-177 | afterwards the target is the only Start tile and `startPos` points to it; a former start becomes Normal; End tiles other than the target stay End; every other state and every overlay is unchanged |
| Map.SetDestPos | Assets/Scripts/Map.cs:180-196 | afterwards the target is the only End tile and `destPos` points to it; a Start on the target becomes End, so a grid whose only Start was there has none left; every other state and every overlay is unchanged |
| Map.PlaceObstacle | Assets/Scripts/Map.cs:149-158 | every tile in the rectangle becomes an Obstacle and every tile outside it is unchanged; an empty rectangle changes nothing, and a non-empty one must lie on the grid |
| Map.TileClick | Assets/Scripts/Map.cs:243-279 | the clicked tile takes the drawing state; painting Start or End first turns every other tile of that state Normal and moves `startPos` or `destPos`; painting Normal or Obstacle touches only the clicked tile |
| Map.ClearGrid | Assets/Scripts/Map.cs:282-295 | every overlay is off and every tile is Normal, except a Start at (0, 0) and an End at the opposite corner; on a one-tile grid that tile ends as End |
| Map.ClearDisplay | Assets/Scripts/Map.cs:218-227 | every overlay is off and nothing else changes |
| Map.DisplayRoute | Assets/Scripts/Map.cs:230-239 | the overlay turns on at the route's tiles and stays as it was elsewhere, and no state changes; without a route nothing changes at all |
| Map.ClearThenDisplay | Assets/Scripts/Map.cs:218-239 | clearing and then displaying leaves each overlay on exactly where the route passes, with every state unchanged |
| Map.InitGrid | Assets/Scripts/Map.cs:103-118 | the new grid is `width` by `height` tiles, every one of them fresh |
| Map.LastOfKind | Assets/Scripts/Map.cs:354-371 | the position it returns has been read and has the requested kind, and no later read position has that kind; with no result, no read position has that kind |
| Map.FilledStateNext | Assets/Scripts/Map.cs:360-374 | reading one more tile gives that tile its kind and turns an earlier Start (or End) Normal when the new tile has the same kind |
| Map.FillStep | Assets/Scripts/Map.cs:360-374 | painting the next tile of the level extends the fill invariant by exactly that tile |
| Map.FillTile | Assets/Scripts/Map.cs:360-374 | reading the next character moves the start or the destination when its kind is Start or End, and then sets the tile's state |
| Map.RowEnd | Assets/Scripts/Map.cs:354-358 | having read a row to its end is the same as having read every row before the next one |
| Map.FillRow | Assets/Scripts/Map.cs:356-375 | reading a whole row, column by column, extends the fill invariant to the start of the next row |
| Map.LoadLevel | Assets/Scripts/Map.cs:350-376 | the grid becomes `rows[0]` wide and `rows` high; every tile gets the kind its character maps to, except that only the last Start and the last End read keep their state, and `startPos`/`destPos` point to them (or keep their old value when there is none); every overlay is off; with no rows nothing changes |
| Map.FilledStateMeaning | Assets/Scripts/Map.cs:360-374 | a loaded tile is Start (End) exactly when it is the last Start (End) read; other kinds are copied as they are; a tile whose kind occurs only once keeps it |
| MapDrunk.Candidates | Assets/Scripts/MapDrunk.cs:42-49 | the candidates collected over a run of directions are valid neighbours of the current tile, at most one per direction, in increasing direction order |
| MapDrunk.PrependCandidate | Assets/Scripts/MapDrunk.cs:42-49 | putting the candidate of an earlier direction in front keeps the list in direction order |
| MapDrunk.CandidatesComplete | Assets/Scripts/MapDrunk.cs:42-49 | every valid neighbour in one of the directions is collected |
| MapDrunk.Neighbours | Assets/Scripts/MapDrunk.cs:39-49 | at most eight tiles, each a valid tile one king's move away from the current one |
| MapDrunk.NeighboursInOrder | Assets/Scripts/MapDrunk.cs:39-49 | the neighbours come in the order of the direction table, and every valid tile one king's move away is among them, diagonals included whatever the orthogonal tiles hold |
| MapDrunk.DrunkWalkExtend | Assets/Scripts/MapDrunk.cs:52-57 | when the current tile has neighbours, the drawn index lies in `[0, count)` and appending the drawn neighbour extends the walk |
| MapDrunk.DrunkWalkStep | Assets/Scripts/MapDrunk.cs:42-56 | every tile of a walk is a valid tile, so never a tile that holds Start or an Obstacle; it is one king's move from the tile before it (the start, for the first); and it is the candidate the oracle drew among that tile's neighbours |
| MapDrunk.FreedStartIsNeighbour | Assets/Scripts/MapDrunk.cs:42-49 | once the tile at `startPos` holds Normal or End instead of Start, it is a neighbour the walk may draw from any tile one king's move away |
| MapDrunk.DrunkWalkStuck | Assets/Scripts/MapDrunk.cs:52-59 | from a start with no valid neighbour the walk adds nothing |
| MapDrunk.CalculateDrunkardsWalk | Assets/Scripts/MapDrunk.cs:27-61 | the stored route is a walk for the given oracle of at most 999 tiles; the destination can only be its last tile; a walk that stops short of 999 tiles without the destination ended on a tile with no valid neighbour; no tile of the grid changes |
| MapAStar.FreshTile | Assets/Scripts/MapAStar.cs:86-101 | a fresh record stands for its tile, has no predecessor and zero distances, so its cost is 0 |
| MapAStar.CreateShadowTiles | Assets/Scripts/MapAStar.cs:16-24 | the shadow grid is `sizeX` by `sizeY` and entry `[x][y]` is a fresh record for the tile at (x, y) |
| MapAStar.SearchStops | Assets/Scripts/MapAStar.cs:40-48 | the search continues only while the open list is non-empty and does not hold the destination, so with an open list that is never seeded it stops at once |
| MapAStar.BackChain | Assets/Scripts/MapAStar.cs:65-70 | following predecessors back from a tile meets that tile first, then each tile's predecessor in turn, and ends at a tile whose predecessor is a root; it is empty exactly when the tile has no predecessor, and the distance from the start falls strictly along it |
| MapAStar.Reverse | Assets/Scripts/MapAStar.cs:72 | the reversed list has the same length, with element `i` taken from position `n - 1 - i` |
| MapAStar.ReversedChainIsRoute | Assets/Scripts/MapAStar.cs:63-73 | a chain walked back from the destination, once reversed, is a route to it |
| MapAStar.ReversedDistances | Assets/Scripts/MapAStar.cs:63-73 | once the chain is reversed, the distance from the start strictly grows along the route |
| MapAStar.ReconstructPath | Assets/Scripts/MapAStar.cs:63-73 | the result is a route to the destination: it ends at the destination, each tile is the predecessor of the next, the first tile's predecessor is a root that is left out, and it is empty when the destination has no predecessor; the distance from the start strictly grows along it, so no tile repeats |
| MapAStar.RouteFront | Assets/Scripts/MapAStar.cs:65-70 | dropping the destination from a route to it leaves a route to its predecessor, which is strictly closer to the start |
| MapAStar.ReverseCons | Assets/Scripts/MapAStar.cs:72 | reversing a list puts its first element last |
| MapAStar.RouteUnique | Assets/Scripts/MapAStar.cs:63-73 | there is only one route to a tile: it is the reversed chain of predecessors |
| MapAStar.DisplayPath | Assets/Scripts/MapAStar.cs:59-73 | the stored route is the reconstructed route when the destination is on the open list and empty otherwise; no tile changes; the shadow grid is constrained only when the route is reconstructed |
| MapAStar.CalculateAStar | Assets/Scripts/MapAStar.cs:36-76 | as written, the open list is never seeded, so the loop stops at once and the stored route is empty; nothing else changes; the shadow grid only has to be indexed by the start and destination, so a grid left stale by loading a level of another size is accepted |
| MapAStar.RunPathfindingAlgorithm | Assets/Scripts/MapAStar.cs:118-123 | after clearing, searching and displaying, every overlay is off, no tile state changes and the stored route is empty, also on a stale shadow grid that the start and destination index |

## Left out

- Unity presentation is not modelled: sprite sizing, tile instantiation and
  destruction, camera fitting, and tile colours (Assets/Scripts/Map.cs:84-101,
  113-145, the `Type` setter in Tile.cs, and `GetTypeColor`). It is floating
  point and engine calls.
- The Unity lifecycle and input are not modelled: the `Start`/`Update`
  overrides, the demo layout placed in `Map.Start`, the `KeyCode.D` trigger
  and the UI button setters. These only call the modelled operations or
  assign the drawing state, which is a parameter of `TileClick` here.
- Reading the level text is not modelled: the `TextAsset` access, the missing
  asset check, `Debug.Log` and the platform-dependent line split. `LoadLevel`
  takes the rows as a given sequence of strings.
- GameData's `GetTypeFromChar` is not part of this model. Its lookup is the
  `charType` parameter.
- Unity's `Random.Range` is the oracle `roll` (see `IsDice`).
- The A* expansion step (heuristic, open/closed list updates) does not exist
  in the original, so it is not invented here. `CalculateAStar` models the
  code as written. `ReconstructPath` is modelled for every well-linked
  shadow grid.
- MapAStar.ReconstructPath: on a shadow grid with a cycle of predecessor
  links, the original loop never ends. The model requires well-founded links
  (`WellLinked`: a predecessor is strictly closer to the start). This is a
  sufficient condition for the loop to end, not a necessary one: the loop
  ends exactly when the chain of predecessors from `end` is acyclic.
  `WellLinked` also excludes grids where that chain is acyclic but some
  record, on the chain or not, has a negative `distFromStart`, a
  `distFromStart` that does not strictly fall along its link, or a
  `displayTile` other than its own position. For example, `end.prev` may be
  a record `a` with no predecessor, with `distFromStart` 0 for both. The
  original returns `[end]` there, but the model does not cover that grid.
- A tile's link to its display object is the tile's grid position. Map.cs
  and Tile.cs come from different revisions: Map.cs uses `State`, `Pos` and
  `RouteOverlay`, which Tile.cs does not declare (it has `Type`). A tile is
  therefore a plain record of state and overlay, keyed by its coordinate.
- Map.InitGrid: a freshly instantiated tile is taken to be Normal with the
  overlay off. That is the default of the prefab's fields, which is not
  visible in the source.
- Map.TileClick: painting Normal or Obstacle over the start tile leaves
  `startPos` pointing at a tile that is no longer Start, exactly as in the
  original. The model states this and does not repair it.
- Integer overflow is not modelled: `int` arithmetic on positions and
  distances is unbounded here. The grid sizes and the 999-step budget keep
  every value far from the 32-bit limits.
