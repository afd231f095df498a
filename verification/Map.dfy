/**
  The tile grid shared by the path algorithms (Map.cs): the eight movement
  directions, the validity test for a step, the painting operations that keep
  a single start and a single destination, the route overlay, and filling the
  grid from the rows of a level text.

  The grid is a value: every operation takes a `MapState` and returns the
  new one. Indexing outside the grid, which throws in the original, is a
  precondition here.
*/
module Map {
  import opened Wrappers
  import opened Tile

  /** One tile: its state and whether the route overlay is shown on it. */
  datatype Cell = Cell(state: TileType, overlay: bool)

  /** A newly instantiated tile. */
  const FreshCell := Cell(Normal, false)

  /**
    The fields of the map: its size, the tiles indexed `cells[x][y]`, the
    start and destination positions, and the route to display (`None` until
    an algorithm has produced one).
  */
  datatype MapState = MapState(
    sizeX: nat,
    sizeY: nat,
    cells: seq<seq<Cell>>,
    startPos: Pos,
    destPos: Pos,
    pathTiles: Option<seq<Pos>>)
  {
    /** The tile array really is `sizeX` by `sizeY`. */
    predicate Valid() {
      |cells| == sizeX && forall x :: 0 <= x < sizeX ==> |cells[x]| == sizeY
    }

    predicate Contains(p: Pos) {
      0 <= p.x < sizeX && 0 <= p.y < sizeY
    }

    function At(p: Pos): Cell
      requires Valid() && Contains(p)
    {
      cells[p.x][p.y]
    }
  }

  /** `m` with the tile at `p` replaced by `c`. */
  function SetCell(m: MapState, p: Pos, c: Cell): (r: MapState)
    requires m.Valid() && m.Contains(p)
    ensures r.Valid() && r == m.(cells := r.cells)
    ensures r.At(p) == c
    ensures forall q :: m.Contains(q) && q != p ==> r.At(q) == m.At(q)
  {
    m.(cells := m.cells[p.x := m.cells[p.x][p.y := c]])
  }

  /** `m` with the state of the tile at `p` set to `t`, as the `State` setter does. */
  function SetState(m: MapState, p: Pos, t: TileType): (r: MapState)
    requires m.Valid() && m.Contains(p)
    ensures r.Valid() && r == m.(cells := r.cells)
    ensures r.At(p) == m.At(p).(state := t)
    ensures forall q :: m.Contains(q) && q != p ==> r.At(q) == m.At(q)
  {
    SetCell(m, p, m.At(p).(state := t))
  }

  // ---------------------------------------------------------------------------
  // Directions

  /** A non-zero offset whose components are each -1, 0 or 1: one king's move. */
  predicate IsUnitStep(d: Pos) {
    -1 <= d.x <= 1 && -1 <= d.y <= 1 && d != Pos(0, 0)
  }

  /**
    The eight directions a path may step in, in the fixed order up, up-left,
    up-right, down, down-left, down-right, left, right: eight distinct
    non-zero offsets with components in {-1, 0, 1}.
  */
  function AllDirections(): (dirs: seq<Pos>)
    ensures |dirs| == 8
    ensures forall i, j :: 0 <= i < j < |dirs| ==> dirs[i] != dirs[j]
    ensures forall i :: 0 <= i < |dirs| ==> IsUnitStep(dirs[i])
    ensures dirs[0] == Up && dirs[1] == Up.Plus(Left) && dirs[2] == Up.Plus(Right)
    ensures dirs[3] == Down && dirs[4] == Down.Plus(Left) && dirs[5] == Down.Plus(Right)
    ensures dirs[6] == Left && dirs[7] == Right
  {
    [Up, Up.Plus(Left), Up.Plus(Right),
     Down, Down.Plus(Left), Down.Plus(Right),
     Left, Right]
  }

  /**
    The place of `d` in `AllDirections()`, or 8 when `d` is not one of the
    eight unit steps.
  */
  function DirectionIndex(d: Pos): (k: nat)
    ensures k <= 8
    ensures k < 8 <==> IsUnitStep(d)
  {
    if !IsUnitStep(d) then 8
    else if d.y == 0 then (if d.x < 0 then 6 else 7)
    else (if d.y > 0 then 0 else 3) + (if d.x == 0 then 0 else if d.x < 0 then 1 else 2)
  }

  /** The place `DirectionIndex` gives a unit step holds that step, so the table holds every unit step. */
  lemma DirectionIndexInverse(d: Pos)
    ensures IsUnitStep(d) ==> AllDirections()[DirectionIndex(d)] == d
    ensures IsUnitStep(d) ==> d in AllDirections()
  {
    if IsUnitStep(d) {
      assert AllDirections()[DirectionIndex(d)] == d;
    }
  }

  /** `DirectionIndex` finds each entry of the table at its own place. */
  lemma DirectionIndexOfTable(j: nat)
    requires j < 8
    ensures DirectionIndex(AllDirections()[j]) == j
  {
  }

  /** `q` is one of the eight neighbours of `p`. */
  predicate IsStep(p: Pos, q: Pos) {
    IsUnitStep(p.OffsetTo(q))
  }

  // ---------------------------------------------------------------------------
  // Queries

  /**
    Whether a step may land on `p`: it must lie on the grid and its tile must
    hold Normal or End, so a tile holding Start or an Obstacle is refused.
  */
  function IsValidTile(m: MapState, p: Pos): (valid: bool)
    requires m.Valid()
    ensures valid ==> m.Contains(p)
    ensures valid <==> m.Contains(p) && m.At(p).state != Start && m.At(p).state != Obstacle
  {
    if 0 <= p.x && 0 <= p.y && p.x < m.sizeX && p.y < m.sizeY then
      m.cells[p.x][p.y].state == Normal || m.cells[p.x][p.y].state == End
    else
      false
  }

  // ---------------------------------------------------------------------------
  // Whole-grid loops

  /**
    The column-by-column, row-by-row loop of the whole-grid operations:
    applies `f` to every tile and changes nothing else.
  */
  method Sweep(m: MapState, f: Cell -> Cell) returns (r: MapState)
    requires m.Valid()
    ensures r.Valid() && r == m.(cells := r.cells)
    ensures forall p :: m.Contains(p) ==> r.At(p) == f(m.At(p))
  {
    var cells := m.cells;
    var x := 0;
    while x < m.sizeX
      invariant 0 <= x <= m.sizeX
      invariant |cells| == m.sizeX
      invariant forall i :: 0 <= i < m.sizeX ==> |cells[i]| == m.sizeY
      invariant forall i, j :: 0 <= i < m.sizeX && 0 <= j < m.sizeY ==>
                  cells[i][j] == if i < x then f(m.cells[i][j]) else m.cells[i][j]
    {
      var y := 0;
      while y < m.sizeY
        invariant 0 <= y <= m.sizeY
        invariant |cells| == m.sizeX
        invariant forall i :: 0 <= i < m.sizeX ==> |cells[i]| == m.sizeY
        invariant forall i, j :: 0 <= i < m.sizeX && 0 <= j < m.sizeY ==>
                    cells[i][j] == if i < x || (i == x && j < y) then f(m.cells[i][j]) else m.cells[i][j]
      {
        cells := cells[x := cells[x][y := f(cells[x][y])]];
        y := y + 1;
      }
      x := x + 1;
    }
    r := m.(cells := cells);
  }

  /** Turns every tile in state `t` back to Normal; nothing else changes. */
  method ClearState(m: MapState, t: TileType) returns (r: MapState)
    requires m.Valid()
    ensures r.Valid() && r == m.(cells := r.cells)
    ensures forall p :: m.Contains(p) ==> r.At(p).overlay == m.At(p).overlay
    ensures forall p :: m.Contains(p) ==>
              r.At(p).state == if m.At(p).state == t then Normal else m.At(p).state
  {
    r := Sweep(m, (c: Cell) => if c.state == t then c.(state := Normal) else c);
  }

  // ---------------------------------------------------------------------------
  // Start and destination

  /**
    Makes `p` the only Start tile and records it as `startPos`; the former
    start becomes Normal and every other tile keeps its state.
  */
  method SetStartPos(m: MapState, p: Pos) returns (r: MapState)
    requires m.Valid() && m.Contains(p)
    ensures r.Valid() && r == m.(cells := r.cells, startPos := p)
    ensures forall q :: m.Contains(q) ==> (r.At(q).state == Start <==> q == p)
    ensures forall q :: m.Contains(q) ==>
              (r.At(q).state == End <==> m.At(q).state == End && q != p)
    ensures forall q :: m.Contains(q) && q != p ==>
              r.At(q).state == if m.At(q).state == Start then Normal else m.At(q).state
    ensures forall q :: m.Contains(q) ==> r.At(q).overlay == m.At(q).overlay
  {
    r := m.(startPos := p);
    r := ClearState(r, Start);
    r := SetState(r, p, Start);
  }

  /**
    Makes `p` the only End tile and records it as `destPos`; the former
    destination becomes Normal and every other tile keeps its state. Put on
    the start tile, it leaves the grid without any Start.
  */
  method SetDestPos(m: MapState, p: Pos) returns (r: MapState)
    requires m.Valid() && m.Contains(p)
    ensures r.Valid() && r == m.(cells := r.cells, destPos := p)
    ensures forall q :: m.Contains(q) ==> (r.At(q).state == End <==> q == p)
    ensures forall q :: m.Contains(q) ==>
              (r.At(q).state == Start <==> m.At(q).state == Start && q != p)
    ensures forall q :: m.Contains(q) && q != p ==>
              r.At(q).state == if m.At(q).state == End then Normal else m.At(q).state
    ensures forall q :: m.Contains(q) ==> r.At(q).overlay == m.At(q).overlay
  {
    r := m.(destPos := p);
    r := ClearState(r, End);
    r := SetState(r, p, End);
  }

  // ---------------------------------------------------------------------------
  // Painting

  /** The rectangle `[px, px + w) x [py, py + h)` covers `q`. */
  predicate InRect(q: Pos, px: int, py: int, w: int, h: int) {
    px <= q.x < px + w && py <= q.y < py + h
  }

  /**
    Makes every tile of the rectangle `[px, px + w) x [py, py + h)` an
    obstacle and leaves every other tile as it was. A non-empty rectangle must
    lie inside the grid.
  */
  method PlaceObstacle(m: MapState, px: int, py: int, w: int, h: int) returns (r: MapState)
    requires m.Valid()
    requires w <= 0 || h <= 0 || (0 <= px && px + w <= m.sizeX && 0 <= py && py + h <= m.sizeY)
    ensures r.Valid() && r == m.(cells := r.cells)
    ensures forall q :: m.Contains(q) ==>
              r.At(q).state == if InRect(q, px, py, w, h) then Obstacle else m.At(q).state
    ensures forall q :: m.Contains(q) ==> r.At(q).overlay == m.At(q).overlay
  {
    r := m;
    var x := px;
    while x < px + w
      invariant x == px || px < x <= px + w
      invariant r.Valid() && r == m.(cells := r.cells)
      invariant forall q :: m.Contains(q) ==>
                  r.At(q) == if px <= q.x < x && py <= q.y < py + h then m.At(q).(state := Obstacle) else m.At(q)
    {
      var y := py;
      while y < py + h
        invariant y == py || py < y <= py + h
        invariant r.Valid() && r == m.(cells := r.cells)
        invariant forall q :: m.Contains(q) ==>
                    r.At(q) == if (px <= q.x < x && py <= q.y < py + h) || (q.x == x && py <= q.y < y)
                               then m.At(q).(state := Obstacle) else m.At(q)
      {
        r := SetState(r, Pos(x, y), Obstacle);
        y := y + 1;
      }
      x := x + 1;
    }
  }

  /**
    A click on tile `clicked` paints it with `drawState`. Painting Start or End
    first turns every other tile of that state back to Normal and moves
    `startPos` or `destPos`; painting Normal or Obstacle touches the clicked
    tile only.
  */
  method TileClick(m: MapState, drawState: TileType, clicked: Pos) returns (r: MapState)
    requires m.Valid() && m.Contains(clicked)
    ensures r.Valid()
    ensures r == m.(cells := r.cells,
                    startPos := if drawState == Start then clicked else m.startPos,
                    destPos := if drawState == End then clicked else m.destPos)
    ensures r.At(clicked).state == drawState
    ensures forall q :: m.Contains(q) && q != clicked ==>
              r.At(q).state == if (drawState == Start || drawState == End) && m.At(q).state == drawState
                               then Normal else m.At(q).state
    ensures forall q :: m.Contains(q) ==> r.At(q).overlay == m.At(q).overlay
  {
    r := m;
    if drawState == Start {
      r := r.(startPos := clicked);
      r := ClearState(r, Start);
    }
    if drawState == End {
      r := r.(destPos := clicked);
      r := ClearState(r, End);
    }
    r := SetState(r, clicked, drawState);
  }

  /**
    Resets the grid: every tile Normal with the overlay off, then the start
    at the top-left corner (0, 0) and the destination at the opposite corner.
    On a one-tile grid the destination overwrites the start.
  */
  method ClearGrid(m: MapState) returns (r: MapState)
    requires m.Valid() && m.sizeX >= 1 && m.sizeY >= 1
    ensures r.Valid()
    ensures r == m.(cells := r.cells, startPos := Pos(0, 0), destPos := Pos(m.sizeX - 1, m.sizeY - 1))
    ensures forall q :: m.Contains(q) ==> !r.At(q).overlay
    ensures forall q :: m.Contains(q) ==>
              r.At(q).state == if q == r.destPos then End else if q == r.startPos then Start else Normal
  {
    r := Sweep(m, (c: Cell) => FreshCell);
    r := SetStartPos(r, Pos(0, 0));
    r := SetDestPos(r, Pos(m.sizeX - 1, m.sizeY - 1));
  }

  // ---------------------------------------------------------------------------
  // Route overlay

  /** Turns the route overlay off on every tile; tile states are untouched. */
  method ClearDisplay(m: MapState) returns (r: MapState)
    requires m.Valid()
    ensures r.Valid() && r == m.(cells := r.cells)
    ensures forall q :: m.Contains(q) ==> r.At(q) == m.At(q).(overlay := false)
  {
    r := Sweep(m, (c: Cell) => c.(overlay := false));
  }

  /** Every tile of the route to display lies on the grid. */
  predicate RouteOnGrid(m: MapState) {
    m.pathTiles.Some? ==> forall i :: 0 <= i < |m.pathTiles.value| ==> m.Contains(m.pathTiles.value[i])
  }

  /** The route to display runs through `q`. */
  predicate OnRoute(m: MapState, q: Pos) {
    m.pathTiles.Some? && q in m.pathTiles.value
  }

  /**
    Turns the overlay on at every tile of `pathTiles`, leaving the overlay
    elsewhere and all tile states as they were; without a route nothing
    changes.
  */
  method DisplayRoute(m: MapState) returns (r: MapState)
    requires m.Valid() && RouteOnGrid(m)
    ensures m.pathTiles.None? ==> r == m
    ensures r.Valid() && r == m.(cells := r.cells)
    ensures forall q :: m.Contains(q) ==> r.At(q).state == m.At(q).state
    ensures forall q :: m.Contains(q) ==> (r.At(q).overlay <==> m.At(q).overlay || OnRoute(m, q))
  {
    r := m;
    if m.pathTiles.Some? {
      var path := m.pathTiles.value;
      var i := 0;
      while i < |path|
        invariant 0 <= i <= |path|
        invariant r.Valid() && r == m.(cells := r.cells)
        invariant forall q :: m.Contains(q) ==> r.At(q).state == m.At(q).state
        invariant forall q :: m.Contains(q) ==> (r.At(q).overlay <==> m.At(q).overlay || q in path[..i])
      {
        assert path[..i + 1] == path[..i] + [path[i]];
        r := SetCell(r, path[i], r.At(path[i]).(overlay := true));
        i := i + 1;
      }
      assert path[..i] == path;
    }
  }

  /**
    Clearing the overlay and then displaying the route leaves the overlay on
    exactly at the tiles of the route.
  */
  lemma ClearThenDisplay(m: MapState, cleared: MapState, shown: MapState)
    requires m.Valid() && cleared.Valid() && cleared == m.(cells := cleared.cells)
    requires forall q :: m.Contains(q) ==> cleared.At(q) == m.At(q).(overlay := false)
    requires shown.Valid() && shown == cleared.(cells := shown.cells)
    requires forall q :: cleared.Contains(q) ==> shown.At(q).state == cleared.At(q).state
    requires forall q :: cleared.Contains(q) ==> (shown.At(q).overlay <==> cleared.At(q).overlay || OnRoute(cleared, q))
    ensures forall q :: m.Contains(q) ==> shown.At(q) == Cell(m.At(q).state, OnRoute(m, q))
  {
  }

  // ---------------------------------------------------------------------------
  // Loading a level

  /**
    A fresh grid of `width` by `height` Normal tiles with the overlay off, as
    built when a level is loaded; the start, destination and route fields are
    left as they were.
  */
  function InitGrid(m: MapState, width: nat, height: nat): (r: MapState)
    ensures r.Valid() && r.sizeX == width && r.sizeY == height
    ensures r == m.(sizeX := width, sizeY := height, cells := r.cells)
    ensures forall p :: r.Contains(p) ==> r.At(p) == FreshCell
  {
    m.(sizeX := width, sizeY := height, cells := seq(width, _ => seq(height, _ => FreshCell)))
  }

  /** Every row of the level text holds at least `width` characters. */
  predicate RowsCover(rows: seq<string>, width: nat) {
    forall row :: 0 <= row < |rows| ==> width <= |rows[row]|
  }

  /** The tile type the level text gives to position `p` (column `p.x`, row `p.y`). */
  function Kind(rows: seq<string>, charType: char -> TileType, p: Pos): TileType
    requires 0 <= p.y < |rows| && 0 <= p.x < |rows[p.y]|
  {
    charType(rows[p.y][p.x])
  }

  /** `p` comes before `q` when the grid is read row by row, each row left to right. */
  predicate ReadBefore(p: Pos, q: Pos) {
    p.y < q.y || (p.y == q.y && p.x < q.x)
  }

  /**
    Position `p` of a `width`-column level has been read once the fill has
    reached column `col` of row `row`.
  */
  predicate Read(rows: seq<string>, width: nat, p: Pos, row: int, col: int) {
    0 <= p.x < width && 0 <= p.y < |rows| && (p.y < row || (p.y == row && p.x < col))
  }

  /**
    The last position of kind `t` among those read before column `col` of
    row `row`, if there is one.
  */
  function LastOfKind(rows: seq<string>, charType: char -> TileType, width: nat, t: TileType,
                      row: nat, col: nat): (last: Option<Pos>)
    requires RowsCover(rows, width)
    requires row <= |rows| && col <= width && (row == |rows| ==> col == 0)
    decreases row, col
    ensures last.Some? ==> Read(rows, width, last.value, row, col)
    ensures last.Some? ==> Kind(rows, charType, last.value) == t
    ensures last.Some? ==> forall q :: Read(rows, width, q, row, col) && ReadBefore(last.value, q) ==>
                             Kind(rows, charType, q) != t
    ensures last.None? ==> forall q :: Read(rows, width, q, row, col) ==> Kind(rows, charType, q) != t
  {
    if col > 0 then
      if Kind(rows, charType, Pos(col - 1, row)) == t then Some(Pos(col - 1, row))
      else LastOfKind(rows, charType, width, t, row, col - 1)
    else if row > 0 then
      LastOfKind(rows, charType, width, t, row - 1, width)
    else
      None
  }

  /**
    The state the fill gives to a position read before column `col` of row
    `row`: its kind, except that of several Start (or End) positions only the
    last one read keeps that state and the earlier ones are Normal.
  */
  function FilledState(rows: seq<string>, charType: char -> TileType, width: nat,
                       row: nat, col: nat, p: Pos): TileType
    requires RowsCover(rows, width)
    requires row <= |rows| && col <= width && (row == |rows| ==> col == 0)
    requires Read(rows, width, p, row, col)
  {
    var t := Kind(rows, charType, p);
    if (t == Start || t == End) && LastOfKind(rows, charType, width, t, row, col) != Some(p) then Normal
    else t
  }

  /** The grid part of the fill invariant: read tiles are filled, the rest still fresh. */
  ghost predicate FilledUpTo(m: MapState, g: MapState, rows: seq<string>, charType: char -> TileType,
                       row: nat, col: nat)
    requires |rows| > 0 && RowsCover(rows, |rows[0]|)
    requires row <= |rows| && col <= |rows[0]| && (row == |rows| ==> col == 0)
  {
    var width := |rows[0]|;
    && g.Valid() && g.sizeX == width && g.sizeY == |rows|
    && g == m.(sizeX := g.sizeX, sizeY := g.sizeY, cells := g.cells, startPos := g.startPos, destPos := g.destPos)
    && (forall p {:trigger g.At(p)} :: g.Contains(p) ==>
          g.At(p) == Cell(if Read(rows, width, p, row, col) then FilledState(rows, charType, width, row, col, p)
                          else Normal, false))
    && g.startPos == LastOfKind(rows, charType, width, Start, row, col).GetOr(m.startPos)
    && g.destPos == LastOfKind(rows, charType, width, End, row, col).GetOr(m.destPos)
  }

  /**
    Reading column `col` of row `row` gives that tile its kind and turns an
    earlier Start (or End) Normal when the new tile is of the same kind.
  */
  lemma FilledStateNext(rows: seq<string>, charType: char -> TileType, width: nat,
                        row: nat, col: nat, p: Pos)
    requires RowsCover(rows, width) && row < |rows| && col < width
    requires Read(rows, width, p, row, col + 1)
    ensures var tile := Kind(rows, charType, Pos(col, row));
            FilledState(rows, charType, width, row, col + 1, p) ==
              if p == Pos(col, row) then tile
              else if (tile == Start || tile == End) && Kind(rows, charType, p) == tile then Normal
              else FilledState(rows, charType, width, row, col, p)
  {
  }

  /**
    Painting the tile at column `col` of row `row` with its kind, after
    turning the other tiles of that kind Normal when it is Start or End,
    extends the fill by that one tile.
  */
  lemma FillStep(m: MapState, g: MapState, r: MapState, rows: seq<string>, charType: char -> TileType,
                 row: nat, col: nat)
    requires |rows| > 0 && RowsCover(rows, |rows[0]|)
    requires row < |rows| && col < |rows[0]|
    requires FilledUpTo(m, g, rows, charType, row, col)
    requires var tile := Kind(rows, charType, Pos(col, row));
             && r.Valid()
             && r == g.(cells := r.cells,
                        startPos := if tile == Start then Pos(col, row) else g.startPos,
                        destPos := if tile == End then Pos(col, row) else g.destPos)
             && r.At(Pos(col, row)) == Cell(tile, false)
             && forall q :: g.Contains(q) && q != Pos(col, row) ==>
                  r.At(q) == if (tile == Start || tile == End) && g.At(q).state == tile
                             then g.At(q).(state := Normal) else g.At(q)
    ensures FilledUpTo(m, r, rows, charType, row, col + 1)
  {
    var width := |rows[0]|;
    forall p | r.Contains(p)
      ensures r.At(p) == Cell(if Read(rows, width, p, row, col + 1)
                              then FilledState(rows, charType, width, row, col + 1, p) else Normal, false)
    {
      if Read(rows, width, p, row, col + 1) {
        FilledStateNext(rows, charType, width, row, col, p);
      }
    }
  }

  /**
    Reads the character at column `col` of row `row`: a Start or End kind
    first moves the start or destination there, then the tile takes its kind.
  */
  method FillTile(m: MapState, g: MapState, rows: seq<string>, charType: char -> TileType,
                  row: nat, col: nat) returns (r: MapState)
    requires |rows| > 0 && RowsCover(rows, |rows[0]|)
    requires row < |rows| && col < |rows[0]|
    requires FilledUpTo(m, g, rows, charType, row, col)
    ensures FilledUpTo(m, r, rows, charType, row, col + 1)
  {
    var here := Pos(col, row);
    var tile := Kind(rows, charType, here);
    r := g;
    if tile == Start {
      r := SetStartPos(r, here);
    }
    if tile == End {
      r := SetDestPos(r, here);
    }
    r := SetState(r, here, tile);
    FillStep(m, g, r, rows, charType, row, col);
  }

  /** Having read row `row` to its end is having read every row before `row + 1`. */
  lemma RowEnd(m: MapState, g: MapState, rows: seq<string>, charType: char -> TileType, row: nat)
    requires |rows| > 0 && RowsCover(rows, |rows[0]|) && row < |rows|
    requires FilledUpTo(m, g, rows, charType, row, |rows[0]|)
    ensures FilledUpTo(m, g, rows, charType, row + 1, 0)
  {
    var width := |rows[0]|;
    assert LastOfKind(rows, charType, width, Start, row + 1, 0) == LastOfKind(rows, charType, width, Start, row, width);
    assert LastOfKind(rows, charType, width, End, row + 1, 0) == LastOfKind(rows, charType, width, End, row, width);
    forall p | Read(rows, width, p, row + 1, 0)
      ensures Read(rows, width, p, row, width)
      ensures FilledState(rows, charType, width, row + 1, 0, p) == FilledState(rows, charType, width, row, width, p)
    {
    }
    forall p | Read(rows, width, p, row, width)
      ensures Read(rows, width, p, row + 1, 0)
    {
    }
  }

  /** Reads row `row` of the level, column by column. */
  method FillRow(m: MapState, g: MapState, rows: seq<string>, charType: char -> TileType, row: nat)
    returns (r: MapState)
    requires |rows| > 0 && RowsCover(rows, |rows[0]|) && row < |rows|
    requires FilledUpTo(m, g, rows, charType, row, 0)
    ensures FilledUpTo(m, r, rows, charType, row + 1, 0)
  {
    var numColumns := |rows[0]|;
    r := g;
    var col := 0;
    while col < numColumns
      invariant 0 <= col <= numColumns
      invariant FilledUpTo(m, r, rows, charType, row, col)
    {
      r := FillTile(m, r, rows, charType, row, col);
      col := col + 1;
    }
    RowEnd(m, r, rows, charType, row);
  }

  /**
    Loads a level from its text rows: the grid is rebuilt `|rows[0]|` wide and
    `|rows|` high and filled row by row, left to right, each tile taking the
    type `charType` gives its character. Where several characters give Start
    (or End), the last one read wins and `startPos` (or `destPos`) points to
    it; with none, the old position is kept. No rows: nothing changes.
  */
  method LoadLevel(m: MapState, rows: seq<string>, charType: char -> TileType) returns (r: MapState)
    requires |rows| > 0 ==> RowsCover(rows, |rows[0]|)
    ensures |rows| == 0 ==> r == m
    ensures |rows| > 0 ==> r.Valid() && r.sizeX == |rows[0]| && r.sizeY == |rows|
    ensures |rows| > 0 ==> r == m.(sizeX := r.sizeX, sizeY := r.sizeY, cells := r.cells,
                                   startPos := r.startPos, destPos := r.destPos)
    ensures |rows| > 0 ==> forall p :: r.Contains(p) ==>
              r.At(p) == Cell(FilledState(rows, charType, |rows[0]|, |rows|, 0, p), false)
    ensures |rows| > 0 ==> r.startPos == LastOfKind(rows, charType, |rows[0]|, Start, |rows|, 0).GetOr(m.startPos)
    ensures |rows| > 0 ==> r.destPos == LastOfKind(rows, charType, |rows[0]|, End, |rows|, 0).GetOr(m.destPos)
  {
    if |rows| == 0 {
      return m;
    }
    var numRows := |rows|;
    var numColumns := |rows[0]|;
    r := InitGrid(m, numColumns, numRows);
    var row := 0;
    while row < numRows
      invariant 0 <= row <= numRows
      invariant FilledUpTo(m, r, rows, charType, row, 0)
    {
      r := FillRow(m, r, rows, charType, row);
      row := row + 1;
    }
  }

  /**
    What a loaded tile holds: it is Start (End) exactly when it is the last
    Start (End) character read, any other kind is copied as it is, and a
    tile whose kind no other tile of the level shares keeps its kind.
  */
  lemma FilledStateMeaning(rows: seq<string>, charType: char -> TileType, p: Pos)
    requires |rows| > 0 && RowsCover(rows, |rows[0]|) && Read(rows, |rows[0]|, p, |rows|, 0)
    ensures var width := |rows[0]|;
            var filled := FilledState(rows, charType, width, |rows|, 0, p);
            && (filled == Start <==> LastOfKind(rows, charType, width, Start, |rows|, 0) == Some(p))
            && (filled == End <==> LastOfKind(rows, charType, width, End, |rows|, 0) == Some(p))
            && (Kind(rows, charType, p) != Start && Kind(rows, charType, p) != End ==> filled == Kind(rows, charType, p))
            && ((forall q :: Read(rows, width, q, |rows|, 0) && Kind(rows, charType, q) == Kind(rows, charType, p) ==> q == p)
                ==> filled == Kind(rows, charType, p))
  {
  }
}
