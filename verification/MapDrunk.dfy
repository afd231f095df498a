/**
  The drunkard's walk (MapDrunk.cs): from the start, repeatedly step to a
  randomly chosen valid neighbour until the destination is reached or a step
  budget of 999 iterations runs out.

  The random choice is an oracle `roll(k, n)`: the index in `[0, n)` that the
  `k`-th draw (counting from 0) picks among `n` candidates.
*/
module MapDrunk {
  import opened Wrappers
  import opened Tile
  import opened Map

  /** The number of iterations the walk may spend before giving up. */
  const SanityCheck := 999

  /** `roll` always returns an index among the `n` candidates it is given. */
  ghost predicate IsDice(roll: (nat, nat) -> nat) {
    forall k, n :: 0 < n ==> roll(k, n) < n
  }

  /**
    The valid neighbours of `current` in the directions `dirs`, a suffix of
    `AllDirections()`, listed in direction order.
  */
  function Candidates(m: MapState, current: Pos, dirs: seq<Pos>): (adjacent: seq<Pos>)
    requires m.Valid() && |dirs| <= 8 && dirs == AllDirections()[8 - |dirs|..]
    ensures |adjacent| <= |dirs|
    ensures forall i :: 0 <= i < |adjacent| ==>
              IsValidTile(m, adjacent[i]) && IsStep(current, adjacent[i])
              && 8 - |dirs| <= DirectionIndex(current.OffsetTo(adjacent[i]))
    ensures forall i, j :: 0 <= i < j < |adjacent| ==>
              DirectionIndex(current.OffsetTo(adjacent[i])) < DirectionIndex(current.OffsetTo(adjacent[j]))
  {
    if dirs == [] then []
    else
      var pos := current.Plus(dirs[0]);
      DirectionIndexOfTable(8 - |dirs|);
      assert current.OffsetTo(pos) == dirs[0] == AllDirections()[8 - |dirs|];
      assert dirs[1..] == AllDirections()[8 - |dirs[1..]|..];
      var rest := Candidates(m, current, dirs[1..]);
      if IsValidTile(m, pos) then
        PrependCandidate(m, current, 8 - |dirs|, pos, rest);
        [pos] + rest
      else rest
  }

  /** Putting a valid neighbour in direction `lo` before candidates of later directions keeps them in order. */
  lemma PrependCandidate(m: MapState, current: Pos, lo: int, pos: Pos, rest: seq<Pos>)
    requires m.Valid() && IsValidTile(m, pos) && IsStep(current, pos) && DirectionIndex(current.OffsetTo(pos)) == lo
    requires forall i :: 0 <= i < |rest| ==>
               IsValidTile(m, rest[i]) && IsStep(current, rest[i]) && lo + 1 <= DirectionIndex(current.OffsetTo(rest[i]))
    requires forall i, j :: 0 <= i < j < |rest| ==>
               DirectionIndex(current.OffsetTo(rest[i])) < DirectionIndex(current.OffsetTo(rest[j]))
    ensures forall i :: 0 <= i < |[pos] + rest| ==>
              IsValidTile(m, ([pos] + rest)[i]) && IsStep(current, ([pos] + rest)[i])
              && lo <= DirectionIndex(current.OffsetTo(([pos] + rest)[i]))
    ensures forall i, j :: 0 <= i < j < |[pos] + rest| ==>
              DirectionIndex(current.OffsetTo(([pos] + rest)[i])) < DirectionIndex(current.OffsetTo(([pos] + rest)[j]))
  {
  }

  /** Every valid neighbour in one of the directions `dirs` is a candidate. */
  lemma {:induction false} CandidatesComplete(m: MapState, current: Pos, dirs: seq<Pos>, j: nat)
    requires m.Valid() && |dirs| <= 8 && dirs == AllDirections()[8 - |dirs|..]
    requires j < |dirs| && IsValidTile(m, current.Plus(dirs[j]))
    ensures current.Plus(dirs[j]) in Candidates(m, current, dirs)
    decreases |dirs|
  {
    if j > 0 {
      assert dirs[1..] == AllDirections()[8 - |dirs[1..]|..];
      assert dirs[j] == dirs[1..][j - 1];
      CandidatesComplete(m, current, dirs[1..], j - 1);
    }
  }

  /**
    The tiles the walk may move to from `current`: valid neighbours of it,
    collected over the directions of `AllDirections()` in turn.
  */
  function Neighbours(m: MapState, current: Pos): (adjacent: seq<Pos>)
    requires m.Valid()
    ensures |adjacent| <= 8
    ensures forall i :: 0 <= i < |adjacent| ==> IsStep(current, adjacent[i]) && IsValidTile(m, adjacent[i])
  {
    Candidates(m, current, AllDirections())
  }

  /**
    The neighbours come in the order of `AllDirections()`, and every valid
    neighbour of `current` is among them.
  */
  lemma NeighboursInOrder(m: MapState, current: Pos, q: Pos)
    requires m.Valid()
    ensures var adjacent := Neighbours(m, current);
            forall i, j :: 0 <= i < j < |adjacent| ==>
              DirectionIndex(current.OffsetTo(adjacent[i])) < DirectionIndex(current.OffsetTo(adjacent[j]))
    ensures IsStep(current, q) && IsValidTile(m, q) ==> q in Neighbours(m, current)
  {
    if IsStep(current, q) && IsValidTile(m, q) {
      var j := DirectionIndex(current.OffsetTo(q));
      DirectionIndexInverse(current.OffsetTo(q));
      assert current.Plus(AllDirections()[j]) == q;
      CandidatesComplete(m, current, AllDirections(), j);
    }
  }

  /** The tile the walk stands on before its `i`-th step: the start, then each tile added. */
  function Before(start: Pos, path: seq<Pos>, i: nat): Pos
    requires i <= |path|
  {
    if i == 0 then start else path[i - 1]
  }

  /**
    `path` is what the walk from `start` adds when the `k`-th draw picks the
    candidate `roll(k, n)` among the `n` neighbours of the tile it stands on:
    each tile added is the drawn neighbour of the tile before it.
  */
  ghost predicate IsDrunkWalk(m: MapState, roll: (nat, nat) -> nat, start: Pos, path: seq<Pos>)
    requires m.Valid()
    decreases |path|
  {
    if path == [] then true
    else
      var k := |path| - 1;
      var adjacent := Neighbours(m, Before(start, path, k));
      && IsDrunkWalk(m, roll, start, path[..k])
      && 0 < |adjacent|
      && roll(k, |adjacent|) < |adjacent|
      && path[k] == adjacent[roll(k, |adjacent|)]
  }

  /** A walk extends by the neighbour the next draw picks, when there is one. */
  lemma DrunkWalkExtend(m: MapState, roll: (nat, nat) -> nat, start: Pos, path: seq<Pos>)
    requires m.Valid() && IsDice(roll) && IsDrunkWalk(m, roll, start, path)
    ensures var adjacent := Neighbours(m, Before(start, path, |path|));
            0 < |adjacent| ==>
              && roll(|path|, |adjacent|) < |adjacent|
              && IsDrunkWalk(m, roll, start, path + [adjacent[roll(|path|, |adjacent|)]])
  {
    var adjacent := Neighbours(m, Before(start, path, |path|));
    if 0 < |adjacent| {
      var next := path + [adjacent[roll(|path|, |adjacent|)]];
      assert next[..|path|] == path;
      assert Before(start, next, |path|) == Before(start, path, |path|);
    }
  }

  /**
    Tile `i` of a drunkard's walk is a valid tile (so never a tile that holds
    Start or an Obstacle), a neighbour of the tile before it, diagonals included, and
    the candidate the oracle drew among that tile's neighbours.
  */
  lemma {:induction false} DrunkWalkStep(m: MapState, roll: (nat, nat) -> nat, start: Pos, path: seq<Pos>, i: nat)
    requires m.Valid() && IsDrunkWalk(m, roll, start, path) && i < |path|
    ensures IsValidTile(m, path[i]) && IsStep(Before(start, path, i), path[i])
    ensures var adjacent := Neighbours(m, Before(start, path, i));
            roll(i, |adjacent|) < |adjacent| && path[i] == adjacent[roll(i, |adjacent|)]
    decreases |path|
  {
    var k := |path| - 1;
    if i < k {
      var prefix := path[..k];
      DrunkWalkStep(m, roll, start, prefix, i);
      assert Before(start, path, i) == Before(start, prefix, i) && path[i] == prefix[i];
    }
  }

  /**
    `startPos` is an ordinary neighbour once its tile no longer holds Start
    (after the destination or a Normal tile is painted over it, or a level
    without a Start is loaded), so a walk may step back onto it.
  */
  lemma FreedStartIsNeighbour(m: MapState, t: Pos)
    requires m.Valid() && m.Contains(m.startPos) && IsStep(t, m.startPos)
    requires m.At(m.startPos).state == Normal || m.At(m.startPos).state == End
    ensures m.startPos in Neighbours(m, t)
  {
    NeighboursInOrder(m, t, m.startPos);
  }

  /** A walk from a tile without valid neighbours cannot take a single step. */
  lemma DrunkWalkStuck(m: MapState, roll: (nat, nat) -> nat, start: Pos, path: seq<Pos>)
    requires m.Valid() && IsDrunkWalk(m, roll, start, path) && Neighbours(m, start) == []
    ensures path == []
  {
    if path != [] {
      DrunkWalkStep(m, roll, start, path, 0);
    }
  }

  /**
    Walks randomly from `startPos` and stores the tiles stepped on as
    `pathTiles`; no tile of the grid changes. Each step goes to the
    neighbour the oracle draws among the valid neighbours of the previous
    tile; the walk stops as soon as the destination is added, so the
    destination can only be the last tile, and it never takes more than 999
    steps. A walk that stops short of the budget without reaching the
    destination ended on a tile with no valid neighbour.
  */
  method CalculateDrunkardsWalk(m: MapState, roll: (nat, nat) -> nat) returns (r: MapState)
    requires m.Valid() && m.Contains(m.startPos) && m.Contains(m.destPos)
    requires IsDice(roll)
    ensures r.pathTiles.Some? && r == m.(pathTiles := r.pathTiles)
    ensures IsDrunkWalk(m, roll, m.startPos, r.pathTiles.value)
    ensures |r.pathTiles.value| <= SanityCheck
    ensures forall i :: 0 <= i < |r.pathTiles.value| - 1 ==> r.pathTiles.value[i] != m.destPos
    ensures m.destPos !in r.pathTiles.value && |r.pathTiles.value| < SanityCheck ==>
              Neighbours(m, Before(m.startPos, r.pathTiles.value, |r.pathTiles.value|)) == []
  {
    var start := m.startPos;
    var end := m.destPos;
    var current := start;
    var sanityCheck := SanityCheck;
    var path: seq<Pos> := [];
    while end !in path && sanityCheck > 0
      invariant 0 <= sanityCheck <= SanityCheck
      invariant |path| + sanityCheck <= SanityCheck
      invariant current == Before(start, path, |path|)
      invariant IsDrunkWalk(m, roll, start, path)
      invariant forall i :: 0 <= i < |path| - 1 ==> path[i] != end
      invariant |path| + sanityCheck < SanityCheck ==> Neighbours(m, current) == []
      decreases sanityCheck
    {
      var adjacent := Neighbours(m, current);
      if |adjacent| > 0 {
        var newCurrent := adjacent[roll(|path|, |adjacent|)];
        DrunkWalkExtend(m, roll, start, path);
        path := path + [newCurrent];
        current := newCurrent;
      }
      sanityCheck := sanityCheck - 1;
    }
    r := m.(pathTiles := Some(path));
  }
}
