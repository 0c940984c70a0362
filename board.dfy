/**
 * The board: the tile map, the spare tile and the connectivity graph computed
 * when the board is created. Inserting the spare changes the tile map and the
 * spare but leaves the graph as it was; moving a token asks that graph.
 */
module Boards {
  import opened Errors
  import opened Tiles
  import opened Grid
  import opened Insertion
  import opened Connectivity
  import opened Setup

  class Board {
    var placed: map<Location, PlacedTile>
    var spare: Tile
    var graph: BoardGraph

    /** A full 7x7 board, a graph over the same cells, and each token on at most one tile. */
    ghost predicate Valid()
      reads this
    {
      IsGrid(placed) && graph.components.Keys == placed.Keys && TokensUnique(placed)
    }

    /**
     * A new board: the fixed tiles at rotation Zero carrying the start tokens of the
     * players in the game, the shuffled free tiles at the shuffled free locations
     * (each redrawn until it passes the edge rule), the last shuffled free tile as
     * the spare, and the graph labelled over the finished tile map.
     */
    constructor (participants: set<Player>, freeRotations: seq<Rotation>, tilePerm: seq<nat>, freeOrder: seq<Location>,
                 draw: nat -> Rotation, labelOrder: seq<Location>)
      requires |freeRotations| == |FreeTiles| && IsPermutation(tilePerm, |FreeTiles|)
      requires IsFreeOrder(freeOrder)
      requires Fair(draw)
      requires Distinct(labelOrder) && forall l :: l in labelOrder <==> InGrid(l)
      ensures Valid()
      ensures NewTiles(placed, spare, participants, freeRotations, tilePerm, freeOrder)
      ensures Labels(placed, graph.components, RootsOf(placed, labelOrder))
    {
      var m, extra := NewPlacement(participants, freeRotations, tilePerm, freeOrder, draw);
      var g := LabelGrid(m, labelOrder);
      placed := m;
      spare := extra;
      graph := g;
    }

    /**
     * Shifts line `idx` by one cell away from its push-in end: the spare, turned
     * to `rotation`, enters at the push-in cell carrying the tokens of the tile
     * pushed out at the far end, which becomes the new spare. Fails, changing
     * nothing, when the turned spare would open off the board or the push-out
     * cell holds no tile.
     */
    method RotateCommon(idx: nat, rotation: Rotation, reverse: bool, idxIsX: bool) returns (r: Result<()>)
      requires LineComplete(placed, idx, reverse, idxIsX)
      modifies this
      ensures Applied(Rotated(old(placed), old(spare), idx, rotation, reverse, idxIsX), old(placed), old(spare), placed, spare, r)
      ensures graph == old(graph)
    {
      var pushInAt := Cell(idx, if reverse then 6 else 0, idxIsX);
      var pushOutAt := Cell(idx, if reverse then 0 else 6, idxIsX);
      var toPushIn := PlacedTile(spare, rotation, {});
      if !TilePlacementOk(pushInAt, toPushIn) {
        return Err(InvalidPlacement);
      }
      if pushOutAt !in placed {
        return Err(InvalidLocation);
      }
      var pushedOut := placed[pushOutAt];
      toPushIn := toPushIn.(players := pushedOut.players);
      var tiles := ShiftLine(placed, idx, reverse, idxIsX, toPushIn);
      RotatedSucceeds(placed, spare, idx, rotation, reverse, idxIsX);
      placed := tiles;
      spare := pushedOut.tile;
      return Ok(());
    }

    /** Pushes the spare into row `y` from the right, shifting the row left. */
    method RotateLeft(y: nat, rotation: Rotation) returns (r: Result<()>)
      requires LineComplete(placed, y, true, false)
      modifies this
      ensures Applied(Rotated(old(placed), old(spare), y, rotation, true, false), old(placed), old(spare), placed, spare, r)
      ensures graph == old(graph)
    {
      r := RotateCommon(y, rotation, true, false);
    }

    /** Pushes the spare into row `y` from the left, shifting the row right. */
    method RotateRight(y: nat, rotation: Rotation) returns (r: Result<()>)
      requires LineComplete(placed, y, false, false)
      modifies this
      ensures Applied(Rotated(old(placed), old(spare), y, rotation, false, false), old(placed), old(spare), placed, spare, r)
      ensures graph == old(graph)
    {
      r := RotateCommon(y, rotation, false, false);
    }

    /** Pushes the spare into column `x` from the bottom, shifting the column up. */
    method RotateUp(x: nat, rotation: Rotation) returns (r: Result<()>)
      requires LineComplete(placed, x, true, true)
      modifies this
      ensures Applied(Rotated(old(placed), old(spare), x, rotation, true, true), old(placed), old(spare), placed, spare, r)
      ensures graph == old(graph)
    {
      r := RotateCommon(x, rotation, true, true);
    }

    /** Pushes the spare into column `x` from the top, shifting the column down. */
    method RotateDown(x: nat, rotation: Rotation) returns (r: Result<()>)
      requires LineComplete(placed, x, false, true)
      modifies this
      ensures Applied(Rotated(old(placed), old(spare), x, rotation, false, true), old(placed), old(spare), placed, spare, r)
      ensures graph == old(graph)
    {
      r := RotateCommon(x, rotation, false, true);
    }

    /**
     * Inserts the spare at entry location `at`, turned to `rotation`: odd columns
     * of the top and bottom edges, odd rows of the left and right edges. Any other
     * location is an error. The graph is not recomputed.
     */
    method InsertSpare(at: Location, rotation: Rotation) returns (r: Result<()>)
      requires Valid()
      modifies this
      ensures Shiftable(old(placed), at)
      ensures Applied(SpareInserted(old(placed), old(spare), at, rotation), old(placed), old(spare), placed, spare, r)
      ensures graph == old(graph) && Valid()
    {
      InsertionKeepsBoard(placed, spare, at, rotation);
      ghost var res := SpareInserted(placed, spare, at, rotation);
      if at.y == 0 && at.x % 2 == 1 {
        assert res == Rotated(placed, spare, at.x, rotation, false, true);
        r := RotateDown(at.x, rotation);
      } else if at.x == 6 && at.y % 2 == 1 {
        assert res == Rotated(placed, spare, at.y, rotation, true, false);
        r := RotateLeft(at.y, rotation);
      } else if at.y == 6 && at.x % 2 == 1 {
        assert res == Rotated(placed, spare, at.x, rotation, true, true);
        r := RotateUp(at.x, rotation);
      } else if at.x == 0 && at.y % 2 == 1 {
        assert res == Rotated(placed, spare, at.y, rotation, false, false);
        r := RotateRight(at.y, rotation);
      } else {
        assert res == Err(InvalidLocation);
        r := Err(InvalidLocation);
      }
    }

    /**
     * Moves `player`'s token to `moveTo`: finds the tile the players view shows it
     * on, asks the graph whether that tile and `moveTo` are connected, then takes
     * the token off the one tile and puts it on the other.
     */
    method MovePlayer(player: Player, moveTo: Location, last: map<Location, Player>) returns (r: Result<()>)
      requires Valid() && ViewChoice(placed, last)
      modifies this
      ensures match Moved(old(placed), old(graph), player, moveTo, last)
        case Ok(m) => r == Ok(()) && placed == m
        case Err(e) => r == Err(e) && placed == old(placed)
      ensures spare == old(spare) && graph == old(graph) && Valid()
    {
      var view := PlayersView(placed, last);
      ViewShowsPlayerOnce(placed, last);
      ghost var outcome := Moved(placed, graph, player, moveTo, last);
      var found := ShownAt(view, player);
      if found.None? {
        assert outcome == Err(PlayerNotFound);
        return Err(PlayerNotFound);
      }
      var from := found.value;
      var connected := IsConnected(graph, from, moveTo);
      if connected.Err? {
        assert outcome == Err(connected.error);
        return Err(connected.error);
      }
      if !connected.value {
        assert outcome == Err(NoPath);
        return Err(NoPath);
      }
      assert outcome == Ok(Relocated(placed, from, moveTo, player));
      ghost var m0 := placed;
      var lifted := placed[from].(players := placed[from].players - {player});
      placed := placed[from := lifted];
      var landed := placed[moveTo].(players := placed[moveTo].players + {player});
      placed := placed[moveTo := landed];
      assert placed == Relocated(m0, from, moveTo, player);
      MoveKeepsTokensUnique(m0, from, moveTo, player);
      return Ok(());
    }
  }

  /** The location the view shows `player` at, if any. */
  function ShownAt(view: map<Location, Player>, player: Player): (r: Option<Location>)
    requires forall a, b :: a in view && b in view && view[a] == view[b] ==> a == b
    ensures r.Some? <==> exists l :: l in view && view[l] == player
    ensures r.Some? ==> r.value in view && view[r.value] == player
  {
    if exists l :: l in view && view[l] == player then
      var l :| l in view && view[l] == player;
      Some(l)
    else None
  }

  /** `placed` with `player`'s token taken off `from` and put on `to`. */
  function Relocated(placed: map<Location, PlacedTile>, from: Location, to: Location, player: Player): (m: map<Location, PlacedTile>)
    requires from in placed && to in placed
    ensures m.Keys == placed.Keys
    ensures player in m[to].players && (from != to ==> player !in m[from].players)
  {
    var lifted := placed[from := placed[from].(players := placed[from].players - {player})];
    lifted[to := lifted[to].(players := lifted[to].players + {player})]
  }

  /**
   * Moving the token of the only tile holding it: the tiles stay where they are,
   * the token is on `to` and on no other tile, every other token stays put.
   */
  lemma MoveKeepsTokensUnique(placed: map<Location, PlacedTile>, from: Location, to: Location, player: Player)
    requires from in placed && to in placed && player in placed[from].players && TokensUnique(placed)
    ensures var m := Relocated(placed, from, to, player);
      && m.Keys == placed.Keys
      && (forall l <- placed.Keys :: m[l].tile == placed[l].tile && m[l].rotation == placed[l].rotation)
      && (forall l <- placed.Keys :: player in m[l].players <==> l == to)
      && (forall l <- placed.Keys :: m[l].players - {player} == placed[l].players - {player})
      && TokensUnique(m)
  {
    var m := Relocated(placed, from, to, player);
    forall a, b, p | a in m && b in m && p in m[a].players && p in m[b].players
      ensures a == b
    {
      if p != player {
        assert p in placed[a].players && p in placed[b].players;
      }
    }
  }

  /**
   * Moving `player` to `moveTo`: an error when the view does not show the player,
   * the graph does not label both cells, or labels them differently; otherwise the
   * board with the token relocated.
   */
  function Moved(placed: map<Location, PlacedTile>, g: BoardGraph, player: Player, moveTo: Location, last: map<Location, Player>)
    : (r: Result<map<Location, PlacedTile>>)
    requires ViewChoice(placed, last) && TokensUnique(placed) && g.components.Keys == placed.Keys
    ensures r == Err(PlayerNotFound) <==> forall l <- PlayersView(placed, last).Keys :: PlayersView(placed, last)[l] != player
    ensures r.Ok? <==> exists from :: from in PlayersView(placed, last) && PlayersView(placed, last)[from] == player
                                      && IsConnected(g, from, moveTo) == Ok(true)
    ensures r.Ok? ==> forall from :: from in placed && player in placed[from].players ==>
                        IsConnected(g, from, moveTo) == Ok(true) && r.value == Relocated(placed, from, moveTo, player)
    ensures r == Err(NoPath) <==> exists from :: from in PlayersView(placed, last) && PlayersView(placed, last)[from] == player
                                      && IsConnected(g, from, moveTo) == Ok(false)
    ensures r == Err(InvalidLocation) <==>
              moveTo !in g.components && exists from :: from in PlayersView(placed, last) && PlayersView(placed, last)[from] == player
  {
    var view := PlayersView(placed, last);
    ViewShowsPlayerOnce(placed, last);
    match ShownAt(view, player)
    case None => Err(PlayerNotFound)
    case Some(from) =>
      match IsConnected(g, from, moveTo)
      case Err(e) => Err(e)
      case Ok(connected) =>
        if connected then Ok(Relocated(placed, from, moveTo, player)) else Err(NoPath)
  }

  /**
   * The line shift on the tile map: the push-out tile taken off, the push-in
   * cell's tile carried along the line by the shifting loop, and `toPushIn` put
   * down at the push-in cell.
   */
  method ShiftLine(m: map<Location, PlacedTile>, idx: nat, reverse: bool, idxIsX: bool, toPushIn: PlacedTile)
    returns (tiles: map<Location, PlacedTile>)
    requires forall i :: 0 <= i < 7 ==> Cell(idx, i, idxIsX) in m
    ensures tiles == Slide(m, Line(idx, reverse, idxIsX), toPushIn)
  {
    ghost var cs := Line(idx, reverse, idxIsX);
    LineDistinct(idx, reverse, idxIsX);
    var pushInAt := Cell(idx, if reverse then 6 else 0, idxIsX);
    var pushOutAt := Cell(idx, if reverse then 0 else 6, idxIsX);
    tiles := m - {pushOutAt};
    var moving := tiles[pushInAt];
    tiles := tiles - {pushInAt};
    tiles := ShiftCells(tiles, idx, reverse, idxIsX, moving);
    tiles := tiles[pushInAt := toPushIn];
    SlideCharacterized(m, cs, toPushIn, tiles);
  }

  /**
   * The shifting loop of a line shift, after both end cells have been taken off:
   * walking the line from its second cell to the push-out cell, each cell gets the
   * tile carried from the previous one and hands its own tile on.
   */
  method ShiftCells(tiles: map<Location, PlacedTile>, idx: nat, reverse: bool, idxIsX: bool, first: PlacedTile)
    returns (shifted: map<Location, PlacedTile>)
    requires var cs := Line(idx, reverse, idxIsX);
      Distinct(cs) && cs[0] !in tiles && cs[6] !in tiles && forall t :: 1 <= t < 6 ==> cs[t] in tiles
    ensures var cs := Line(idx, reverse, idxIsX);
      && shifted.Keys == tiles.Keys + {cs[6]}
      && shifted[cs[1]] == first
      && (forall t :: 1 < t < 7 ==> shifted[cs[t]] == tiles[cs[t - 1]])
      && (forall l :: l in tiles && l !in cs ==> shifted[l] == tiles[l])
  {
    ghost var cs := Line(idx, reverse, idxIsX);
    shifted := tiles;
    var moving := Some(first);
    for k := 1 to 7
      invariant Shifting(tiles, cs, first, k, shifted, moving)
    {
      var moveTo := Cell(idx, if reverse then 6 - k else k, idxIsX);
      assert moveTo == cs[k];
      ShiftStep(tiles, cs, first, k, shifted, moving);
      var displaced := if moveTo in shifted then Some(shifted[moveTo]) else None;
      shifted := shifted[moveTo := moving.value];
      moving := displaced;
    }
  }

  /**
   * The shifting loop before moving into `cs[k]`: cells `cs[1..k]` hold their new
   * tiles, the rest of the line still holds the old ones, and `moving` carries the
   * tile for `cs[k]`.
   */
  ghost predicate Shifting(tiles: map<Location, PlacedTile>, cs: seq<Location>, first: PlacedTile, k: nat,
                           shifted: map<Location, PlacedTile>, moving: Option<PlacedTile>)
  {
    && |cs| == 7 && Distinct(cs) && cs[0] !in tiles && cs[6] !in tiles && (forall t :: 1 <= t < 6 ==> cs[t] in tiles)
    && 1 <= k <= 7
    && shifted.Keys == tiles.Keys + (if k < 7 then {} else {cs[6]})
    && (k > 1 ==> shifted[cs[1]] == first)
    && (forall t :: 1 < t < k ==> shifted[cs[t]] == tiles[cs[t - 1]])
    && (forall t :: k <= t < 6 ==> shifted[cs[t]] == tiles[cs[t]])
    && (k < 7 ==> moving == if k == 1 then Some(first) else Some(tiles[cs[k - 1]]))
    && (forall l :: l in tiles && l !in cs ==> shifted[l] == tiles[l])
  }

  /** Moving the carried tile into `cs[k]` and picking up what stood there keeps `Shifting`. */
  lemma ShiftStep(tiles: map<Location, PlacedTile>, cs: seq<Location>, first: PlacedTile, k: nat,
                  shifted: map<Location, PlacedTile>, moving: Option<PlacedTile>)
    requires Shifting(tiles, cs, first, k, shifted, moving) && k < 7
    ensures var displaced := if cs[k] in shifted then Some(shifted[cs[k]]) else None;
      Shifting(tiles, cs, first, k + 1, shifted[cs[k] := moving.value], displaced)
  {
  }

  /**
   * `placed1`, `spare1` and `r` are what applying `res` to `placed0`, `spare0`
   * leaves: its board and spare on success, the unchanged ones with its error otherwise.
   */
  ghost predicate Applied(res: Result<Insertion>, placed0: map<Location, PlacedTile>, spare0: Tile,
                          placed1: map<Location, PlacedTile>, spare1: Tile, r: Result<()>)
  {
    match res
    case Ok(after) => r == Ok(()) && placed1 == after.placed && spare1 == after.spare
    case Err(e) => r == Err(e) && placed1 == placed0 && spare1 == spare0
  }

  /** Labels a full grid's tile map, searching from the cells in `order`. */
  method LabelGrid(m: map<Location, PlacedTile>, order: seq<Location>) returns (g: BoardGraph)
    requires IsGrid(m)
    requires Distinct(order) && forall l :: l in order <==> InGrid(l)
    ensures g.components.Keys == m.Keys
    ensures Labels(m, g.components, RootsOf(m, order))
  {
    ghost var roots;
    g, roots := FromBoard(m, order);
  }

  /**
   * `m` and `extra` are the tiles of a new board: every fixed tile at its
   * location at rotation Zero with its start tokens; free tile `tilePerm[k]`
   * without tokens at `freeOrder[k]`, keeping its first rotation when that
   * already passes the edge rule; the last shuffled free tile as the spare; and
   * every placed tile passing the edge rule.
   */
  ghost predicate NewTiles(m: map<Location, PlacedTile>, extra: Tile, participants: set<Player>,
                           freeRotations: seq<Rotation>, tilePerm: seq<nat>, freeOrder: seq<Location>)
    requires |freeRotations| == |FreeTiles| && IsPermutation(tilePerm, |FreeTiles|)
    requires IsFreeOrder(freeOrder)
  {
    && (forall i :: 0 <= i < 16 ==> FixedLocations()[i] in m && m[FixedLocations()[i]] == FixedPlaced(i, participants))
    && (forall k :: 0 <= k < 33 ==>
      var at, t := freeOrder[k], tilePerm[k];
      && at in m && m[at].tile == FreeTiles[t] && m[at].players == {}
      && (TilePlacementOk(at, PlacedTile(FreeTiles[t], freeRotations[t], {})) ==> m[at].rotation == freeRotations[t]))
    && extra == FreeTiles[tilePerm[33]]
    && (forall l <- m.Keys :: TilePlacementOk(l, m[l]))
  }

  /**
   * The tile map and spare of a new board, before the graph is labelled: fixed
   * tiles with their start tokens, free tiles at the shuffled free locations.
   */
  method NewPlacement(participants: set<Player>, freeRotations: seq<Rotation>, tilePerm: seq<nat>, freeOrder: seq<Location>,
                      draw: nat -> Rotation)
    returns (m: map<Location, PlacedTile>, extra: Tile)
    requires |freeRotations| == |FreeTiles| && IsPermutation(tilePerm, |FreeTiles|)
    requires IsFreeOrder(freeOrder)
    requires Fair(draw)
    ensures IsGrid(m) && TokensUnique(m)
    ensures NewTiles(m, extra, participants, freeRotations, tilePerm, freeOrder)
  {
    var fixedPairs := FixedPlacement(participants);
    var fitted;
    fitted, extra := FreePlacement(freeRotations, tilePerm, freeOrder, draw);
    m := Collect(fixedPairs + fitted);
    ghost var fixedMap, freeMap := Collect(fixedPairs), Collect(fitted);
    CollectAppend(fixedPairs, fitted);
    FixedMap(participants);
    FreeMap(fitted);
    AssembledBoard(participants, fixedMap, freeMap);
    forall l <- m.Keys
      ensures TilePlacementOk(l, m[l])
    {
      if l in fixedMap {
        var i :| 0 <= i < 16 && FixedLocations()[i] == l;
        FixedTilesPassEdgeRule(m[l].players);
      } else {
        var k :| 0 <= k < 33 && fitted[k].0 == l;
      }
    }
    forall i | 0 <= i < 16
      ensures FixedLocations()[i] in m && m[FixedLocations()[i]] == FixedPlaced(i, participants)
    {
      assert FixedLocations()[i] in fixedMap;
    }
    forall k | 0 <= k < 33
      ensures var at, t := freeOrder[k], tilePerm[k];
        && at in m && m[at].tile == FreeTiles[t] && m[at].players == {}
        && (TilePlacementOk(at, PlacedTile(FreeTiles[t], freeRotations[t], {})) ==> m[at].rotation == freeRotations[t])
    {
      assert fitted[k].0 in freeMap && fitted[k].0 == freeOrder[k];
    }
  }

  /**
   * The free side of a new board: the free tiles with their first rotations,
   * shuffled; the last one set aside as the spare; the rest paired with the
   * shuffled free locations and turned until each passes the edge rule.
   */
  method FreePlacement(freeRotations: seq<Rotation>, tilePerm: seq<nat>, freeOrder: seq<Location>, draw: nat -> Rotation)
    returns (fitted: seq<(Location, PlacedTile)>, extra: Tile)
    requires |freeRotations| == |FreeTiles| && IsPermutation(tilePerm, |FreeTiles|)
    requires IsFreeOrder(freeOrder)
    requires Fair(draw)
    ensures |fitted| == 33 && DistinctKeys(fitted)
    ensures forall l :: (exists k :: 0 <= k < 33 && fitted[k].0 == l) <==> InGrid(l) && !IsFixedLocation(l)
    ensures forall k :: 0 <= k < 33 ==>
      var t := tilePerm[k];
      && fitted[k].0 == freeOrder[k]
      && fitted[k].1.tile == FreeTiles[t] && fitted[k].1.players == {}
      && TilePlacementOk(fitted[k].0, fitted[k].1)
      && (TilePlacementOk(fitted[k].0, PlacedTile(FreeTiles[t], freeRotations[t], {})) ==> fitted[k].1.rotation == freeRotations[t])
    ensures extra == FreeTiles[tilePerm[33]]
  {
    var freeTiles := seq(|FreeTiles|, k requires 0 <= k < |FreeTiles| => PlacedTile(FreeTiles[k], freeRotations[k], {}));
    freeTiles := Shuffle(freeTiles, tilePerm);
    extra := freeTiles[|freeTiles| - 1].tile;
    freeTiles := freeTiles[..|freeTiles| - 1];
    var pairs := Zip(freeOrder, freeTiles);
    FreePairsFit(pairs, freeOrder, freeTiles);
    var next;
    fitted, next := FitRotations(pairs, draw, 0);
    forall l | InGrid(l) && !IsFixedLocation(l)
      ensures exists k :: 0 <= k < 33 && fitted[k].0 == l
    {
      var k :| 0 <= k < 33 && freeOrder[k] == l;
      assert fitted[k].0 == l;
    }
  }

  /** Free tiles always have a closed side, and corners always hold fixed tiles. */
  lemma FreePairsFit(pairs: seq<(Location, PlacedTile)>, ls: seq<Location>, ts: seq<PlacedTile>)
    requires forall l <- ls :: InGrid(l) && !IsFixedLocation(l)
    requires forall t <- ts :: t.tile in FreeTiles
    requires |pairs| <= |ls| && |pairs| <= |ts| && forall k :: 0 <= k < |pairs| ==> pairs[k] == (ls[k], ts[k])
    ensures forall k :: 0 <= k < |pairs| ==> HasClosedSide(pairs[k].1.tile) && !IsCorner(pairs[k].0)
  {
    FreeTilesHaveClosedSide();
    forall k | 0 <= k < |pairs|
      ensures HasClosedSide(pairs[k].1.tile) && !IsCorner(pairs[k].0)
    {
      assert ts[k] in ts && ls[k] in ls;
      FixedLocationsAreEvenCells(ls[k]);
    }
  }

  /** Pairs whose locations are all different. */
  predicate DistinctKeys(pairs: seq<(Location, PlacedTile)>)
  {
    forall i, j :: 0 <= i < j < |pairs| ==> pairs[i].0 != pairs[j].0
  }

  lemma CollectDistinctKeys(pairs: seq<(Location, PlacedTile)>)
    requires DistinctKeys(pairs)
    ensures forall k :: 0 <= k < |pairs| ==> pairs[k].0 in Collect(pairs) && Collect(pairs)[pairs[k].0] == pairs[k].1
  {
    var m := Collect(pairs);
    forall k | 0 <= k < |pairs|
      ensures pairs[k].0 in m && m[pairs[k].0] == pairs[k].1
    {
      assert forall j :: k < j < |pairs| ==> pairs[j].0 != pairs[k].0;
    }
  }

  /** Collecting a chain of pairs is collecting each part, the later part winning on shared keys. */
  lemma {:induction false} CollectAppend(a: seq<(Location, PlacedTile)>, b: seq<(Location, PlacedTile)>)
    ensures Collect(a + b) == Collect(a) + Collect(b)
    decreases |b|
  {
    if |b| == 0 {
      assert a + b == a;
    } else {
      var n := |b| - 1;
      var ab := a + b;
      assert ab[..|ab| - 1] == a + b[..n] && ab[|ab| - 1] == b[n];
      CollectLast(ab);
      CollectLast(b);
      CollectAppend(a, b[..n]);
      UnionUpdate(Collect(a), Collect(b[..n]), b[n].0, b[n].1);
    }
  }

  /** Collecting a non-empty list is collecting all but its last pair, then adding that pair. */
  lemma CollectLast(p: seq<(Location, PlacedTile)>)
    requires |p| > 0
    ensures Collect(p) == Collect(p[..|p| - 1])[p[|p| - 1].0 := p[|p| - 1].1]
  {
  }

  /** Updating a union updates its right-hand part. */
  lemma UnionUpdate<K, V>(x: map<K, V>, y: map<K, V>, k: K, v: V)
    ensures (x + y)[k := v] == x + y[k := v]
  {
  }

  /**
   * The fixed tiles collected: exactly the fixed locations, each with its fixed
   * tile at rotation Zero, tokens only as the start rule gives them, and no
   * player's start marking on two of them.
   */
  lemma FixedMap(participants: set<Player>)
    ensures var mf := Collect(FixedPlacement(participants));
      && (forall l :: l in mf <==> IsFixedLocation(l))
      && (forall i :: 0 <= i < 16 ==> mf[FixedLocations()[i]] == FixedPlaced(i, participants))
      && (forall l <- mf.Keys :: mf[l].players == StartPlayers(mf[l].tile.marking, participants))
      && StartMarkingsUnique(mf)
  {
    var fp := FixedPlacement(participants);
    FixedLocationsDistinct();
    assert DistinctKeys(fp) by {
      forall i, j | 0 <= i < j < |fp| ensures fp[i].0 != fp[j].0 {
        assert fp[i].0 == FixedLocations()[i] && fp[j].0 == FixedLocations()[j];
      }
    }
    CollectDistinctKeys(fp);
    var mf := Collect(fp);
    forall l
      ensures l in mf <==> IsFixedLocation(l)
    {
      if IsFixedLocation(l) {
        var i :| 0 <= i < 16 && FixedLocations()[i] == l;
        assert fp[i].0 == l;
      }
    }
    StartTilesDistinct();
    forall a, b, p | a in mf && b in mf && mf[a].tile.marking == Some(PlayerStart(p)) && mf[b].tile.marking == Some(PlayerStart(p))
      ensures a == b
    {
      var i :| 0 <= i < 16 && FixedLocations()[i] == a;
      var j :| 0 <= j < 16 && FixedLocations()[j] == b;
    }
  }

  /** The fitted free pairs collected: exactly the free locations, each with its fitted tile and no token. */
  lemma FreeMap(fitted: seq<(Location, PlacedTile)>)
    requires DistinctKeys(fitted)
    requires forall l :: (exists k :: 0 <= k < |fitted| && fitted[k].0 == l) <==> InGrid(l) && !IsFixedLocation(l)
    requires forall k :: 0 <= k < |fitted| ==> fitted[k].1.players == {}
    ensures var mr := Collect(fitted);
      && (forall l :: l in mr <==> InGrid(l) && !IsFixedLocation(l))
      && (forall l <- mr.Keys :: mr[l].players == {})
      && (forall k :: 0 <= k < |fitted| ==> mr[fitted[k].0] == fitted[k].1)
  {
    CollectDistinctKeys(fitted);
  }

  /** No player's start marking appears on two tiles of `m`. */
  ghost predicate StartMarkingsUnique(m: map<Location, PlacedTile>)
  {
    forall a, b, p :: a in m && b in m && m[a].tile.marking == Some(PlayerStart(p)) && m[b].tile.marking == Some(PlayerStart(p)) ==> a == b
  }

  /** The fixed map and the fitted free map together cover the grid, with tokens only on start tiles. */
  lemma AssembledBoard(participants: set<Player>, mf: map<Location, PlacedTile>, mr: map<Location, PlacedTile>)
    requires forall l :: l in mf <==> IsFixedLocation(l)
    requires forall l :: l in mr <==> InGrid(l) && !IsFixedLocation(l)
    requires forall l <- mf.Keys :: mf[l].players == StartPlayers(mf[l].tile.marking, participants)
    requires StartMarkingsUnique(mf)
    requires forall l <- mr.Keys :: mr[l].players == {}
    ensures IsGrid(mf + mr) && TokensUnique(mf + mr)
    ensures forall l <- mf.Keys :: (mf + mr)[l] == mf[l]
  {
    var m := mf + mr;
    forall l
      ensures l in m <==> InGrid(l)
    {
      FixedLocationsAreEvenCells(l);
    }
    forall a, b, p | a in m && b in m && p in m[a].players && p in m[b].players
      ensures a == b
    {
      assert a in mf && b in mf;
    }
  }
}
