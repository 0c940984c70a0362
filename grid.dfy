/**
 * The 7x7 location space, the fixed and free tile pools, the edge rule and the
 * read-only queries over a board's tile map: neighbours, the players view and
 * the item at a location.
 */
module Grid {
  import opened Errors
  import opened Tiles

  /** A board coordinate: column x and row y (row 0 is the top edge). */
  datatype Location = Location(x: nat, y: nat)

  predicate InGrid(l: Location)
  {
    l.x < 7 && l.y < 7
  }

  /** A tile map that covers exactly the 49 cells of the board. */
  ghost predicate IsGrid(placed: map<Location, PlacedTile>)
  {
    forall l :: l in placed <==> InGrid(l)
  }

  predicate Distinct<T(==)>(s: seq<T>)
  {
    forall i, j :: 0 <= i < j < |s| ==> s[i] != s[j]
  }

  /** Row-major order: by row, then by column. */
  predicate RowMajorBefore(a: Location, b: Location)
  {
    a.y < b.y || (a.y == b.y && a.x < b.x)
  }

  /** Every location of the board, each once, ordered by row and then by column. */
  function Locations(): (ls: seq<Location>)
    ensures |ls| == 49
    ensures forall l :: l in ls <==> InGrid(l)
  {
    var ls := seq(49, i requires 0 <= i < 49 => Location(i % 7, i / 7));
    forall l | InGrid(l)
      ensures l in ls
    {
      CellIndex(l.x, l.y);
      assert ls[l.y * 7 + l.x] == l;
    }
    ls
  }

  /** Locations() lists the board row by row, each row by column, so no location twice. */
  lemma LocationsRowMajor()
    ensures forall i, j :: 0 <= i < j < |Locations()| ==> RowMajorBefore(Locations()[i], Locations()[j])
    ensures Distinct(Locations())
  {
    var ls := Locations();
    forall i, j | 0 <= i < j < 49
      ensures RowMajorBefore(ls[i], ls[j])
    {
      CellOrder(i, j);
    }
    forall i, j | 0 <= i < j < |ls|
      ensures ls[i] != ls[j]
    {
      RowMajorDistinct(ls, i, j);
    }
  }

  lemma CellIndex(x: nat, y: nat)
    requires x < 7 && y < 7
    ensures y * 7 + x < 49 && (y * 7 + x) % 7 == x && (y * 7 + x) / 7 == y
  {
  }

  lemma CellOrder(i: nat, j: nat)
    requires i < j < 49
    ensures i / 7 < j / 7 || (i / 7 == j / 7 && i % 7 < j % 7)
  {
  }

  /** A sequence in strict row-major order has no repeated element. */
  lemma RowMajorDistinct(ls: seq<Location>, i: nat, j: nat)
    requires forall a, b :: 0 <= a < b < |ls| ==> RowMajorBefore(ls[a], ls[b])
    requires i < |ls| && j < |ls| && i != j
    ensures ls[i] != ls[j]
  {
    if i < j {
      assert RowMajorBefore(ls[i], ls[j]);
    } else {
      assert RowMajorBefore(ls[j], ls[i]);
    }
  }

  /** The tiles bound to the board, at rotation Zero, in the order the game lists them. */
  const FixedTiles: seq<(Location, Tile)> := [
    (Location(0, 0), WithStart(CornerRightDown, Player1)),
    (Location(2, 0), WithItem(TeeDown, Goblet)),
    (Location(4, 0), WithItem(TeeDown, Sword)),
    (Location(6, 0), WithStart(CornerLeftDown, Player2)),
    (Location(0, 2), WithItem(TeeRight, Sack)),
    (Location(2, 2), WithItem(TeeRight, Keys)),
    (Location(4, 2), WithItem(TeeDown, Gem)),
    (Location(6, 2), WithItem(TeeLeft, Helmet)),
    (Location(0, 4), WithItem(TeeRight, Book)),
    (Location(2, 4), WithItem(TeeUp, Crown)),
    (Location(4, 4), WithItem(TeeLeft, Chest)),
    (Location(6, 4), WithItem(TeeLeft, Candle)),
    (Location(0, 6), WithStart(CornerRightUp, Player3)),
    (Location(2, 6), WithItem(TeeUp, Potion)),
    (Location(4, 6), WithItem(TeeUp, Ring)),
    (Location(6, 6), WithStart(CornerLeftUp, Player4))
  ]

  /** The tiles that circulate through the board and the spare slot. */
  const FreeTiles: seq<Tile> := [
    WithItem(CornerRightDown, Spider), WithItem(TeeUp, Ghost), WithItem(TeeUp, Unicorn),
    WithItem(TeeUp, Gnome), WithItem(CornerRightDown, Cat), WithItem(CornerRightDown, Owl),
    WithItem(TeeUp, Genie), WithItem(CornerLeftDown, Mouse), WithItem(CornerRightDown, Lizard),
    WithItem(TeeUp, Bat), WithItem(TeeUp, Dragon), WithItem(CornerRightDown, Beetle),
    LineVertical, LineVertical, LineVertical, LineVertical, LineVertical, LineVertical,
    LineVertical, LineVertical, LineVertical, LineVertical, LineVertical, LineVertical,
    CornerRightUp, CornerRightUp, CornerRightUp, CornerRightUp, CornerRightUp,
    CornerRightUp, CornerRightUp, CornerRightUp, CornerRightUp, CornerRightUp
  ]

  function FixedLocations(): (ls: seq<Location>)
    ensures |ls| == |FixedTiles| == 16
    ensures forall i :: 0 <= i < 16 ==> ls[i] == FixedTiles[i].0
  {
    seq(16, i requires 0 <= i < 16 => FixedTiles[i].0)
  }

  predicate IsFixedLocation(l: Location)
  {
    l in FixedLocations()
  }

  /** The fixed tiles sit exactly at the cells whose two coordinates are both even. */
  lemma FixedLocationsAreEvenCells(l: Location)
    ensures IsFixedLocation(l) <==> InGrid(l) && l.x % 2 == 0 && l.y % 2 == 0
  {
    var fl := FixedLocations();
    if InGrid(l) && l.x % 2 == 0 && l.y % 2 == 0 {
      var i := (l.y / 2) * 4 + l.x / 2;
      assert fl[i] == l;
    }
  }

  predicate IsCorner(l: Location)
  {
    (l.x == 0 || l.x == 6) && (l.y == 0 || l.y == 6)
  }

  /** No opening of the rotated tile leads off the board at `at`. */
  predicate StaysOnBoard(at: Location, t: Tile)
  {
    !(at.y == 0 && t.up) && !(at.y == 6 && t.down) && !(at.x == 0 && t.left) && !(at.x == 6 && t.right)
  }

  /** The edge rule: corner, then edge, then interior cases, as the game checks them. */
  function TilePlacementOk(at: Location, pt: PlacedTile): (ok: bool)
    ensures ok <==> StaysOnBoard(at, Openings(pt))
  {
    var t := Openings(pt);
    if at == Location(0, 0) then !t.up && !t.left
    else if at == Location(6, 0) then !t.up && !t.right
    else if at == Location(6, 6) then !t.down && !t.right
    else if at == Location(0, 6) then !t.down && !t.left
    else if at.y == 6 then !t.down
    else if at.y == 0 then !t.up
    else if at.x == 0 then !t.left
    else if at.x == 6 then !t.right
    else true
  }

  /** What the edge rule rejects at the four corners and the four edges, and that it accepts anything inside. */
  lemma EdgeRuleCases(pt: PlacedTile, at: Location)
    ensures var t := Openings(pt);
      && (t.up && t.left ==> !TilePlacementOk(Location(0, 0), pt))
      && (t.up && t.right ==> !TilePlacementOk(Location(6, 0), pt))
      && (t.down && t.right ==> !TilePlacementOk(Location(6, 6), pt))
      && (t.down && t.left ==> !TilePlacementOk(Location(0, 6), pt))
      && (at.y == 6 && t.down ==> !TilePlacementOk(at, pt))
      && (at.y == 0 && t.up ==> !TilePlacementOk(at, pt))
      && (at.x == 0 && t.left ==> !TilePlacementOk(at, pt))
      && (at.x == 6 && t.right ==> !TilePlacementOk(at, pt))
      && (0 < at.x < 6 && 0 < at.y < 6 ==> TilePlacementOk(at, pt))
  {
  }

  /** Every fixed tile passes the edge rule at its own location at rotation Zero. */
  lemma FixedTilesPassEdgeRule(players: set<Player>)
    ensures forall i :: 0 <= i < |FixedTiles| ==> TilePlacementOk(FixedTiles[i].0, PlacedTile(FixedTiles[i].1, Zero, players))
  {
  }

  /** Every free tile has a side that is closed. */
  lemma FreeTilesHaveClosedSide()
    ensures forall i :: 0 <= i < |FreeTiles| ==> HasClosedSide(FreeTiles[i])
  {
  }

  /**
   * The first rotation that passes the edge rule. Away from the corners at most one
   * direction is forbidden, so a tile with a closed side always has one.
   */
  function FittingRotation(t: Tile, at: Location): (r: Rotation)
    requires HasClosedSide(t) && !IsCorner(at)
    ensures TilePlacementOk(at, PlacedTile(t, r, {}))
  {
    if TilePlacementOk(at, PlacedTile(t, Zero, {})) then Zero
    else if TilePlacementOk(at, PlacedTile(t, Clockwise90, {})) then Clockwise90
    else if TilePlacementOk(at, PlacedTile(t, Clockwise180, {})) then Clockwise180
    else Clockwise270
  }

  /**
   * `n` is a neighbour of `at` as the game computes it: orthogonally adjacent, both
   * present and with facing openings. Down and right links are only looked for
   * while the coordinate plus one is below 6.
   */
  predicate Linked(placed: map<Location, PlacedTile>, at: Location, n: Location)
  {
    && at in placed && n in placed
    && var a, b := Openings(placed[at]), Openings(placed[n]);
    || (n.x == at.x && n.y + 1 == at.y && a.up && b.down)
    || (n.x == at.x && n.y == at.y + 1 && at.y + 1 < 6 && a.down && b.up)
    || (n.y == at.y && n.x + 1 == at.x && a.left && b.right)
    || (n.y == at.y && n.x == at.x + 1 && at.x + 1 < 6 && a.right && b.left)
  }

  /** A link joins two orthogonally adjacent cells, and never leads down into row 6 or right into column 6. */
  lemma LinkedAdjacent(placed: map<Location, PlacedTile>, at: Location, n: Location)
    requires Linked(placed, at, n)
    ensures (n.x == at.x && (n.y + 1 == at.y || n.y == at.y + 1)) || (n.y == at.y && (n.x + 1 == at.x || n.x == at.x + 1))
    ensures n.y == at.y + 1 ==> n.y < 6
    ensures n.x == at.x + 1 ==> n.x < 6
  {
  }

  /** The position of a neighbour in the listing order up, down, left, right. */
  function DirectionRank(at: Location, n: Location): nat
  {
    if n.y + 1 == at.y then 0
    else if n.y == at.y + 1 then 1
    else if n.x + 1 == at.x then 2
    else 3
  }

  /** The neighbours of `at`, listed up, down, left, right; an error when `at` holds no tile. */
  function Neighbors(placed: map<Location, PlacedTile>, at: Location): (r: Result<seq<Location>>)
    ensures r.Err? <==> at !in placed
    ensures r.Ok? ==> forall n :: n in r.value <==> Linked(placed, at, n)
    ensures r.Ok? ==> |r.value| <= 4
    ensures r.Ok? ==> forall i, j :: 0 <= i < j < |r.value| ==> DirectionRank(at, r.value[i]) < DirectionRank(at, r.value[j])
  {
    if at !in placed then Err(InvalidLocation)
    else
      DirectionLinks(placed, at);
      Ok(UpNeighbor(placed, at) + DownNeighbor(placed, at) + LeftNeighbor(placed, at) + RightNeighbor(placed, at))
  }

  /** The cell above `at`, when both tiles open towards each other. */
  function UpNeighbor(placed: map<Location, PlacedTile>, at: Location): seq<Location>
    requires at in placed
  {
    if at.y > 0 then
      var u := Location(at.x, at.y - 1);
      if u in placed && Openings(placed[at]).up && Openings(placed[u]).down then [u] else []
    else []
  }

  /** The cell below `at`, unless that is row 6 or the tiles do not open towards each other. */
  function DownNeighbor(placed: map<Location, PlacedTile>, at: Location): seq<Location>
    requires at in placed
  {
    if at.y + 1 < 6 then
      var d := Location(at.x, at.y + 1);
      if d in placed && Openings(placed[at]).down && Openings(placed[d]).up then [d] else []
    else []
  }

  /** The cell left of `at`, when both tiles open towards each other. */
  function LeftNeighbor(placed: map<Location, PlacedTile>, at: Location): seq<Location>
    requires at in placed
  {
    if at.x > 0 then
      var l := Location(at.x - 1, at.y);
      if l in placed && Openings(placed[at]).left && Openings(placed[l]).right then [l] else []
    else []
  }

  /** The cell right of `at`, unless that is column 6 or the tiles do not open towards each other. */
  function RightNeighbor(placed: map<Location, PlacedTile>, at: Location): seq<Location>
    requires at in placed
  {
    if at.x + 1 < 6 then
      var rt := Location(at.x + 1, at.y);
      if rt in placed && Openings(placed[at]).right && Openings(placed[rt]).left then [rt] else []
    else []
  }

  /** Each direction lists at most the one linked cell on that side of `at`. */
  lemma DirectionLinks(placed: map<Location, PlacedTile>, at: Location)
    requires at in placed
    ensures |UpNeighbor(placed, at)| <= 1 && forall n <- UpNeighbor(placed, at) :: DirectionRank(at, n) == 0
    ensures |DownNeighbor(placed, at)| <= 1 && forall n <- DownNeighbor(placed, at) :: DirectionRank(at, n) == 1
    ensures |LeftNeighbor(placed, at)| <= 1 && forall n <- LeftNeighbor(placed, at) :: DirectionRank(at, n) == 2
    ensures |RightNeighbor(placed, at)| <= 1 && forall n <- RightNeighbor(placed, at) :: DirectionRank(at, n) == 3
    ensures forall n :: Linked(placed, at, n) <==>
      n in UpNeighbor(placed, at) || n in DownNeighbor(placed, at) || n in LeftNeighbor(placed, at) || n in RightNeighbor(placed, at)
  {
  }

  /** On the board, a reported neighbour lies in row 6 (column 6) only when `at` does too. */
  lemma NeighborsIntoLastRowOrColumn(placed: map<Location, PlacedTile>, at: Location, n: Location)
    requires InGrid(at)
    requires Neighbors(placed, at).Ok? && n in Neighbors(placed, at).value
    ensures n.y == 6 ==> at.y == 6
    ensures n.x == 6 ==> at.x == 6
  {
  }

  /**
   * The row-5/row-6 link is one-way: the row-6 cell lists the row-5 cell above it,
   * but the row-5 cell never lists the cell below it.
   */
  lemma NeighborsAsymmetricAtRowSix(placed: map<Location, PlacedTile>, x: nat)
    requires Location(x, 5) in placed && Location(x, 6) in placed
    requires Openings(placed[Location(x, 5)]).down && Openings(placed[Location(x, 6)]).up
    ensures Location(x, 5) in Neighbors(placed, Location(x, 6)).value
    ensures Location(x, 6) !in Neighbors(placed, Location(x, 5)).value
  {
    assert Linked(placed, Location(x, 6), Location(x, 5));
  }

  /** The same one-way link between columns 5 and 6. */
  lemma NeighborsAsymmetricAtColumnSix(placed: map<Location, PlacedTile>, y: nat)
    requires Location(5, y) in placed && Location(6, y) in placed
    requires Openings(placed[Location(5, y)]).right && Openings(placed[Location(6, y)]).left
    ensures Location(5, y) in Neighbors(placed, Location(6, y)).value
    ensures Location(6, y) !in Neighbors(placed, Location(5, y)).value
  {
    assert Linked(placed, Location(6, y), Location(5, y));
  }

  /** `last` names, for every tile holding tokens, one of them: the one the view keeps. */
  predicate ViewChoice(placed: map<Location, PlacedTile>, last: map<Location, Player>)
  {
    forall l :: l in placed && placed[l].players != {} ==> l in last && last[l] in placed[l].players
  }

  /**
   * The players view: one entry per tile that holds a token. `last` says which token
   * of each tile's set the enumeration yields last; that one overwrites the others.
   */
  function PlayersView(placed: map<Location, PlacedTile>, last: map<Location, Player>): (view: map<Location, Player>)
    requires ViewChoice(placed, last)
    ensures forall l :: l in view <==> l in placed && placed[l].players != {}
    ensures forall l :: l in view ==> view[l] in placed[l].players
  {
    map l | l in placed && placed[l].players != {} :: last[l]
  }

  /**
   * Two tokens on one tile collapse into one entry: a player sharing its only tile
   * with a token that the enumeration yields later is absent from the view.
   */
  lemma PlayersViewHidesSharedToken(placed: map<Location, PlacedTile>, last: map<Location, Player>, at: Location, p: Player)
    requires ViewChoice(placed, last)
    requires at in placed && p in placed[at].players && last[at] != p
    requires forall l :: l in placed && l != at ==> p !in placed[l].players
    ensures forall l :: l in PlayersView(placed, last) ==> PlayersView(placed, last)[l] != p
  {
    var view := PlayersView(placed, last);
    forall l | l in view
      ensures view[l] != p
    {
      if l != at {
        assert view[l] in placed[l].players;
      }
    }
  }

  /** No player's token stands on two tiles. */
  ghost predicate TokensUnique(placed: map<Location, PlacedTile>)
  {
    forall a, b, p :: a in placed && b in placed && p in placed[a].players && p in placed[b].players ==> a == b
  }

  /** With each token on at most one tile, the view shows each player at most once. */
  lemma ViewShowsPlayerOnce(placed: map<Location, PlacedTile>, last: map<Location, Player>)
    requires ViewChoice(placed, last) && TokensUnique(placed)
    ensures var view := PlayersView(placed, last);
      forall a, b :: a in view && b in view && view[a] == view[b] ==> a == b
  {
  }

  /** The item shown at `at`, if any; an error when `at` holds no tile. */
  function ItemAt(placed: map<Location, PlacedTile>, at: Location): (r: Result<Option<Item>>)
    ensures r.Err? <==> at !in placed
    ensures r.Ok? ==> (r.value.Some? <==> at in placed && placed[at].tile.marking.Some? && placed[at].tile.marking.value.ItemMarking?)
    ensures r.Ok? && r.value.Some? ==> placed[at].tile.marking == Some(ItemMarking(r.value.value))
  {
    if at in placed then
      match placed[at].tile.marking
      case Some(ItemMarking(item)) => Ok(Some(item))
      case _ => Ok(None)
    else Err(InvalidLocation)
  }
}
