/**
  The A* scaffolding (MapAStar.cs): a shadow grid of search records, one per
  tile, the search-loop guard, and the reconstruction of the route from the
  destination's chain of predecessor links.

  The search itself is not written in the program: the open list is never
  seeded and the expansion step is empty, so as written the search always
  leaves an empty route. The reconstruction is modelled for any shadow grid
  whose links are well founded.
*/
module MapAStar {
  import opened Wrappers
  import opened Tile
  import opened Map

  /**
    The search record of one tile: the tile it stands for, the tile it was
    reached from (a position in the shadow grid, or None), the distance
    travelled from the start and the estimate of the distance still to go.
  */
  datatype AStarTile = AStarTile(displayTile: Pos, prev: Option<Pos>, distFromStart: int, distFromEnd: int)
  {
    /** How promising the tile is; lower is better. */
    function Cost(): int {
      distFromStart + distFromEnd
    }
  }

  /** A fresh record for the tile at `p`. */
  function NewAStarTile(p: Pos): AStarTile {
    AStarTile(p, None, 0, 0)
  }

  /**
    A fresh record stands for its tile, has no predecessor and no distance
    either way, so its cost is 0.
  */
  lemma FreshTile(p: Pos)
    ensures var t := NewAStarTile(p);
            t.displayTile == p && t.prev == None && t.distFromStart == 0 && t.distFromEnd == 0 && t.Cost() == 0
  {
  }

  /** The shadow grid has one record per tile of `m`, indexed `[x][y]`. */
  predicate Shaped(m: MapState, tiles: seq<seq<AStarTile>>) {
    |tiles| == m.sizeX && forall x :: 0 <= x < |tiles| ==> |tiles[x]| == m.sizeY
  }

  /**
    `p` indexes the shadow grid `tiles`, whatever the size of the tile grid
    it was built for.
  */
  predicate Indexes(tiles: seq<seq<AStarTile>>, p: Pos) {
    0 <= p.x < |tiles| && 0 <= p.y < |tiles[p.x]|
  }

  /** The record of the tile at `p`. */
  function TileAt(m: MapState, tiles: seq<seq<AStarTile>>, p: Pos): AStarTile
    requires Shaped(m, tiles) && m.Contains(p)
  {
    tiles[p.x][p.y]
  }

  /**
    Builds the shadow grid: a `sizeX` by `sizeY` array whose entry `[x][y]`
    is a fresh record linked to the tile at `(x, y)`.
  */
  method CreateShadowTiles(m: MapState) returns (tiles: seq<seq<AStarTile>>)
    requires m.Valid()
    ensures Shaped(m, tiles)
    ensures forall p :: m.Contains(p) ==> TileAt(m, tiles, p) == NewAStarTile(p)
  {
    tiles := [];
    var x := 0;
    while x < m.sizeX
      invariant 0 <= x <= m.sizeX && |tiles| == x
      invariant forall i :: 0 <= i < x ==> |tiles[i]| == m.sizeY
      invariant forall i, j :: 0 <= i < x && 0 <= j < m.sizeY ==> tiles[i][j] == NewAStarTile(Pos(i, j))
    {
      var column: seq<AStarTile> := [];
      var y := 0;
      while y < m.sizeY
        invariant 0 <= y <= m.sizeY && |column| == y
        invariant forall j :: 0 <= j < y ==> column[j] == NewAStarTile(Pos(x, j))
      {
        column := column + [NewAStarTile(Pos(x, y))];
        y := y + 1;
      }
      tiles := tiles + [column];
      x := x + 1;
    }
  }

  /**
    The record at `p` stands for the tile at `p`, lies at a non-negative
    distance from the start, and a predecessor, if any, is a tile of the grid
    strictly closer to the start.
  */
  predicate Linked(m: MapState, tiles: seq<seq<AStarTile>>, p: Pos)
    requires Shaped(m, tiles) && m.Contains(p)
  {
    var t := TileAt(m, tiles, p);
    && t.displayTile == p
    && 0 <= t.distFromStart
    && (t.prev.Some? ==> m.Contains(t.prev.value) && TileAt(m, tiles, t.prev.value).distFromStart < t.distFromStart)
  }

  /**
    Every record of the shadow grid is linked as above, so following
    predecessors always ends, at a record without one.
  */
  ghost predicate WellLinked(m: MapState, tiles: seq<seq<AStarTile>>) {
    m.Valid() && Shaped(m, tiles) && forall p {:trigger Linked(m, tiles, p)} :: m.Contains(p) ==> Linked(m, tiles, p)
  }

  /** The search goes on while tiles remain to be checked and the destination is not among them. */
  predicate SearchContinues(open: seq<Pos>, end: Pos) {
    |open| > 0 && end !in open
  }

  /**
    The search stops exactly when no tile is left to check or the
    destination is about to be checked; with an open list that is never
    seeded it stops before its first step.
  */
  lemma SearchStops(open: seq<Pos>, end: Pos)
    ensures !SearchContinues(open, end) <==> open == [] || end in open
    ensures !SearchContinues([], end)
  {
  }

  /**
    The tiles met walking back from `p` along predecessor links, `p` first,
    stopping before the first tile that has no predecessor.
  */
  function BackChain(m: MapState, tiles: seq<seq<AStarTile>>, p: Pos): (chain: seq<Pos>)
    requires WellLinked(m, tiles) && m.Contains(p)
    ensures IsBackChain(m, tiles, p, chain)
    ensures forall i, j {:trigger TileAt(m, tiles, chain[i]), TileAt(m, tiles, chain[j])} :: 0 <= i < j < |chain| ==>
              TileAt(m, tiles, chain[j]).distFromStart < TileAt(m, tiles, chain[i]).distFromStart
    decreases TileAt(m, tiles, p).distFromStart
  {
    var t := TileAt(m, tiles, p);
    match t.prev
    case None => []
    case Some(q) =>
      assert Linked(m, tiles, p);
      [t.displayTile] + BackChain(m, tiles, q)
  }

  /** `prev` is a tile of the grid that has no predecessor: where a route starts. */
  predicate IsRoot(m: MapState, tiles: seq<seq<AStarTile>>, prev: Option<Pos>)
    requires Shaped(m, tiles)
  {
    prev.Some? && m.Contains(prev.value) && TileAt(m, tiles, prev.value).prev.None?
  }

  /**
    `path` is a route to `end` as the predecessor links describe it: it ends
    at `end`, each tile is the predecessor of the tile after it, and the
    first tile's predecessor is a root, which the route leaves out. It is
    empty exactly when `end` has no predecessor.
  */
  ghost predicate IsRouteTo(m: MapState, tiles: seq<seq<AStarTile>>, end: Pos, path: seq<Pos>)
    requires WellLinked(m, tiles) && m.Contains(end)
  {
    && (forall i :: 0 <= i < |path| ==> m.Contains(path[i]))
    && (path == [] <==> TileAt(m, tiles, end).prev.None?)
    && (path != [] ==> path[|path| - 1] == end && IsRoot(m, tiles, TileAt(m, tiles, path[0]).prev))
    && (forall i {:trigger TileAt(m, tiles, path[i])} :: 0 < i < |path| ==> TileAt(m, tiles, path[i]).prev == Some(path[i - 1]))
  }

  /** `s` back to front. */
  function Reverse<T>(s: seq<T>): (r: seq<T>)
    ensures |r| == |s|
    ensures forall i :: 0 <= i < |s| ==> r[i] == s[|s| - 1 - i]
  {
    if s == [] then [] else Reverse(s[1..]) + [s[0]]
  }

  /**
    `chain` is what walking back from `end` meets: `end` first, each tile
    followed by its predecessor, down to a tile whose predecessor is a root;
    empty exactly when `end` has no predecessor.
  */
  ghost predicate IsBackChain(m: MapState, tiles: seq<seq<AStarTile>>, end: Pos, chain: seq<Pos>)
    requires WellLinked(m, tiles) && m.Contains(end)
  {
    && (forall i :: 0 <= i < |chain| ==> m.Contains(chain[i]))
    && (chain == [] <==> TileAt(m, tiles, end).prev.None?)
    && (chain != [] ==> chain[0] == end && IsRoot(m, tiles, TileAt(m, tiles, chain[|chain| - 1]).prev))
    && (forall i {:trigger TileAt(m, tiles, chain[i])} :: 0 <= i < |chain| - 1 ==>
          TileAt(m, tiles, chain[i]).prev == Some(chain[i + 1]))
  }

  /** A chain walked back from `end`, reversed, is a route to `end`. */
  lemma ReversedChainIsRoute(m: MapState, tiles: seq<seq<AStarTile>>, end: Pos, chain: seq<Pos>)
    requires WellLinked(m, tiles) && m.Contains(end) && IsBackChain(m, tiles, end, chain)
    ensures IsRouteTo(m, tiles, end, Reverse(chain))
  {
    var path := Reverse(chain);
    forall i | 0 < i < |path|
      ensures TileAt(m, tiles, path[i]).prev == Some(path[i - 1])
    {
      var k := |chain| - 1 - i;
      assert path[i] == chain[k] && path[i - 1] == chain[k + 1];
      assert TileAt(m, tiles, chain[k]).prev == Some(chain[k + 1]);
    }
  }

  /** Reversing a chain along which the distance from the start strictly falls makes it strictly grow. */
  lemma ReversedDistances(m: MapState, tiles: seq<seq<AStarTile>>, chain: seq<Pos>)
    requires Shaped(m, tiles) && forall i :: 0 <= i < |chain| ==> m.Contains(chain[i])
    requires forall i, j {:trigger TileAt(m, tiles, chain[i]), TileAt(m, tiles, chain[j])} :: 0 <= i < j < |chain| ==>
               TileAt(m, tiles, chain[j]).distFromStart < TileAt(m, tiles, chain[i]).distFromStart
    ensures var path := Reverse(chain);
            forall i, j {:trigger TileAt(m, tiles, path[i]), TileAt(m, tiles, path[j])} :: 0 <= i < j < |path| ==>
              TileAt(m, tiles, path[i]).distFromStart < TileAt(m, tiles, path[j]).distFromStart
  {
    var path := Reverse(chain);
    forall i, j | 0 <= i < j < |path|
      ensures TileAt(m, tiles, path[i]).distFromStart < TileAt(m, tiles, path[j]).distFromStart
    {
      assert path[i] == chain[|chain| - 1 - i] && path[j] == chain[|chain| - 1 - j];
    }
  }

  /**
    Follows the predecessor links back from `end`, collecting each tile that
    has a predecessor, and reverses the result: the route from just after the
    root to `end`. Along it the distance from the start strictly grows, so
    no tile appears twice.
  */
  method ReconstructPath(m: MapState, tiles: seq<seq<AStarTile>>, end: Pos) returns (path: seq<Pos>)
    requires WellLinked(m, tiles) && m.Contains(end)
    ensures IsRouteTo(m, tiles, end, path)
    ensures forall i, j {:trigger TileAt(m, tiles, path[i]), TileAt(m, tiles, path[j])} :: 0 <= i < j < |path| ==>
              TileAt(m, tiles, path[i]).distFromStart < TileAt(m, tiles, path[j]).distFromStart
  {
    var back: seq<Pos> := [];
    var current := end;
    while TileAt(m, tiles, current).prev.Some?
      invariant m.Contains(current)
      invariant forall i :: 0 <= i < |back| ==> m.Contains(back[i])
      invariant back == [] ==> current == end
      invariant back != [] ==> back[0] == end && TileAt(m, tiles, back[|back| - 1]).prev == Some(current)
      invariant forall i {:trigger TileAt(m, tiles, back[i])} :: 0 <= i < |back| - 1 ==>
                  TileAt(m, tiles, back[i]).prev == Some(back[i + 1])
      invariant forall i, j {:trigger TileAt(m, tiles, back[i]), TileAt(m, tiles, back[j])} :: 0 <= i < j < |back| ==>
                  TileAt(m, tiles, back[j]).distFromStart < TileAt(m, tiles, back[i]).distFromStart
      invariant forall i {:trigger TileAt(m, tiles, back[i])} :: 0 <= i < |back| ==>
                  TileAt(m, tiles, current).distFromStart < TileAt(m, tiles, back[i]).distFromStart
      decreases TileAt(m, tiles, current).distFromStart
    {
      var t := TileAt(m, tiles, current);
      assert Linked(m, tiles, current);
      back := back + [t.displayTile];
      current := t.prev.value;
    }
    assert IsBackChain(m, tiles, end, back);
    path := Reverse(back);
    ReversedChainIsRoute(m, tiles, end, back);
    ReversedDistances(m, tiles, back);
  }

  /** Dropping `end` from a route to `end` leaves a route to its predecessor. */
  lemma RouteFront(m: MapState, tiles: seq<seq<AStarTile>>, end: Pos, path: seq<Pos>)
    requires WellLinked(m, tiles) && m.Contains(end)
    requires IsRouteTo(m, tiles, end, path) && TileAt(m, tiles, end).prev.Some?
    ensures var q := TileAt(m, tiles, end).prev.value;
            && m.Contains(q) && 0 <= TileAt(m, tiles, q).distFromStart < TileAt(m, tiles, end).distFromStart
            && path == path[..|path| - 1] + [end]
            && IsRouteTo(m, tiles, q, path[..|path| - 1])
  {
    var q := TileAt(m, tiles, end).prev.value;
    var front := path[..|path| - 1];
    assert Linked(m, tiles, end);
    assert Linked(m, tiles, q);
    if front != [] {
      if |front| == 1 {
        assert TileAt(m, tiles, q).prev == TileAt(m, tiles, path[0]).prev;
      } else {
        assert TileAt(m, tiles, q).prev == TileAt(m, tiles, path[|front| - 1]).prev == Some(path[|front| - 2]);
      }
    }
  }

  /** Reversing a sequence that starts with `x` puts `x` last. */
  lemma ReverseCons<T>(x: T, s: seq<T>)
    ensures Reverse([x] + s) == Reverse(s) + [x]
  {
    assert ([x] + s)[1..] == s;
  }

  /**
    A route to `end` is unique: it is the reversed chain of predecessors of
    `end`, so any two routes to the same tile are equal.
  */
  lemma {:induction false} RouteUnique(m: MapState, tiles: seq<seq<AStarTile>>, end: Pos, path: seq<Pos>)
    requires WellLinked(m, tiles) && m.Contains(end)
    requires IsRouteTo(m, tiles, end, path)
    ensures path == Reverse(BackChain(m, tiles, end))
    decreases TileAt(m, tiles, end).distFromStart
  {
    var t := TileAt(m, tiles, end);
    if t.prev.Some? {
      var q := t.prev.value;
      RouteFront(m, tiles, end, path);
      RouteUnique(m, tiles, q, path[..|path| - 1]);
      assert Linked(m, tiles, end);
      assert BackChain(m, tiles, end) == [end] + BackChain(m, tiles, q);
      ReverseCons(end, BackChain(m, tiles, q));
    }
  }

  /**
    Builds the route to display once the search is over: the route to `end`
    when the destination is on the open list, an empty route otherwise. No
    tile of the grid changes. Only the reconstruction reads the shadow grid,
    so only it asks anything of it.
  */
  method DisplayPath(m: MapState, tiles: seq<seq<AStarTile>>, open: seq<Pos>, end: Pos) returns (r: MapState)
    requires end in open ==> WellLinked(m, tiles) && m.Contains(end)
    ensures r.pathTiles.Some? && r == m.(pathTiles := r.pathTiles)
    ensures end !in open ==> r.pathTiles.value == []
    ensures end in open ==> IsRouteTo(m, tiles, end, r.pathTiles.value)
  {
    var path: seq<Pos> := [];
    if end in open {
      path := ReconstructPath(m, tiles, end);
    }
    r := m.(pathTiles := Some(path));
  }

  /**
    The search as written: the open list is never seeded, so the loop stops
    at once, the destination is not on the open list, and the route is
    empty; no tile of the grid changes. The shadow grid need not match the
    tile grid (it is built once, and a later level may have another size):
    the start and destination only have to index it.
  */
  method CalculateAStar(m: MapState, tiles: seq<seq<AStarTile>>) returns (r: MapState)
    requires Indexes(tiles, m.startPos) && Indexes(tiles, m.destPos)
    ensures r == m.(pathTiles := Some([]))
  {
    var start := tiles[m.startPos.x][m.startPos.y];
    var end := m.destPos;
    var open: seq<Pos> := [];
    var closed: seq<Pos> := [];
    // The search loop is never entered: its guard is false on the empty open list.
    SearchStops(open, end);
    assert !SearchContinues(open, end);
    r := DisplayPath(m, tiles, open, end);
  }

  /**
    Clears the overlay, runs the search and displays its route: as the
    search finds no route, every overlay ends off, no tile state changes and
    the stored route is empty.
  */
  method RunPathfindingAlgorithm(m: MapState, tiles: seq<seq<AStarTile>>) returns (r: MapState)
    requires m.Valid() && Indexes(tiles, m.startPos) && Indexes(tiles, m.destPos)
    ensures r.Valid() && r == m.(cells := r.cells, pathTiles := Some([]))
    ensures forall q :: m.Contains(q) ==> r.At(q) == m.At(q).(overlay := false)
  {
    var cleared := ClearDisplay(m);
    var searched := CalculateAStar(cleared, tiles);
    r := DisplayRoute(searched);
  }
}
