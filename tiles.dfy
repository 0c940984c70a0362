/**
 * Tile geometry: the four openings of a tile, its optional marking, the four
 * clockwise rotations and the effective openings of a placed tile.
 */
module Tiles {
  import opened Errors

  datatype Item =
    | Chest | Gnome | Dragon | Unicorn | Ghost | Candle | Cat | Keys
    | Book | Spider | Crown | Sword | Goblet | Mouse | Ring | Potion
    | Beetle | Owl | Gem | Genie | Bat | Sack | Helmet | Lizard

  datatype Player = Player1 | Player2 | Player3 | Player4

  /** A tile shows either a collectible item or the home corner of a player. */
  datatype Marking = ItemMarking(item: Item) | PlayerStart(player: Player)

  /** The raw openings of a tile, in the tile's own frame. */
  datatype Tile = Tile(marking: Option<Marking>, up: bool, right: bool, down: bool, left: bool)

  datatype Rotation = Zero | Clockwise90 | Clockwise180 | Clockwise270

  /** A tile on the board: its rotation and the set of player tokens standing on it. */
  datatype PlacedTile = PlacedTile(tile: Tile, rotation: Rotation, players: set<Player>)

  /** The tile with its openings as seen on the board once the rotation is applied. */
  function Openings(pt: PlacedTile): (o: Tile)
    ensures o.marking == pt.tile.marking
  {
    var t := pt.tile;
    match pt.rotation
    case Zero => t
    case Clockwise90 => Tile(t.marking, t.left, t.up, t.right, t.down)
    case Clockwise180 => Tile(t.marking, t.down, t.left, t.up, t.right)
    case Clockwise270 => Tile(t.marking, t.right, t.down, t.left, t.up)
  }

  /** One clockwise quarter turn: what pointed left now points up, up points right, and so on. */
  function QuarterTurn(t: Tile): (r: Tile)
    ensures r.marking == t.marking
    ensures (r.up, r.right, r.down, r.left) == (t.left, t.up, t.right, t.down)
  {
    Tile(t.marking, t.left, t.up, t.right, t.down)
  }

  /** The rotation one quarter turn further clockwise. */
  function Next(r: Rotation): Rotation
  {
    match r
    case Zero => Clockwise90
    case Clockwise90 => Clockwise180
    case Clockwise180 => Clockwise270
    case Clockwise270 => Zero
  }

  function OpenCount(t: Tile): (n: nat)
    ensures n <= 4
  {
    (if t.up then 1 else 0) + (if t.right then 1 else 0) + (if t.down then 1 else 0) + (if t.left then 1 else 0)
  }

  /** Rotation Zero is the identity and 90, 180 and 270 are one, two and three quarter turns. */
  lemma RotationsAreQuarterTurns(t: Tile, players: set<Player>)
    ensures Openings(PlacedTile(t, Zero, players)) == t
    ensures Openings(PlacedTile(t, Clockwise90, players)) == QuarterTurn(t)
    ensures Openings(PlacedTile(t, Clockwise180, players)) == QuarterTurn(QuarterTurn(t))
    ensures Openings(PlacedTile(t, Clockwise270, players)) == QuarterTurn(QuarterTurn(QuarterTurn(t)))
    ensures QuarterTurn(QuarterTurn(QuarterTurn(QuarterTurn(t)))) == t
  {
  }

  /** Advancing the rotation by one step turns the effective openings by a quarter, so four steps from any rotation come back. */
  lemma NextIsQuarterTurn(pt: PlacedTile)
    ensures Openings(pt.(rotation := Next(pt.rotation))) == QuarterTurn(Openings(pt))
    ensures Next(Next(Next(Next(pt.rotation)))) == pt.rotation
  {
  }

  /** Rotation keeps the marking and the number of open sides. */
  lemma RotationKeepsMarkingAndOpenCount(pt: PlacedTile)
    ensures Openings(pt).marking == pt.tile.marking
    ensures OpenCount(Openings(pt)) == OpenCount(pt.tile)
  {
  }

  // The tile shapes of the game, unmarked.
  const CornerRightDown := Tile(None, false, true, true, false)
  const CornerLeftDown := Tile(None, false, false, true, true)
  const CornerLeftUp := Tile(None, true, false, false, true)
  const CornerRightUp := Tile(None, true, true, false, false)
  const TeeLeft := Tile(None, true, false, true, true)
  const TeeRight := Tile(None, true, true, true, false)
  const TeeUp := Tile(None, true, true, false, true)
  const TeeDown := Tile(None, false, true, true, true)
  const LineVertical := Tile(None, true, false, true, false)
  const LineHorizontal := Tile(None, false, true, false, true)

  function WithItem(t: Tile, item: Item): Tile
  {
    t.(marking := Some(ItemMarking(item)))
  }

  function WithStart(t: Tile, p: Player): Tile
  {
    t.(marking := Some(PlayerStart(p)))
  }

  /** A tile has a closed side when at least one of its four openings is shut. */
  predicate HasClosedSide(t: Tile)
  {
    !t.up || !t.right || !t.down || !t.left
  }
}
