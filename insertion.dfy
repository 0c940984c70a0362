/**
 * Sliding insertion as a function of the board: which line an entry location
 * selects, how the line shifts, and what is conserved. The Board class's
 * insertion method is proved to compute exactly this.
 */
module Insertion {
  import opened Errors
  import opened Tiles
  import opened Grid

  /** Cell `i` of line `idx`: column idx when `idxIsX`, row idx otherwise. */
  function Cell(idx: nat, i: nat, idxIsX: bool): Location
  {
    if idxIsX then Location(idx, i) else Location(i, idx)
  }

  /** The line's cells in push order: the push-in end first, the push-out end last. */
  function Line(idx: nat, reverse: bool, idxIsX: bool): (cs: seq<Location>)
    ensures |cs| == 7
    ensures forall t :: 0 <= t < 7 ==> cs[t] == Cell(idx, if reverse then 6 - t else t, idxIsX)
  {
    seq(7, t requires 0 <= t < 7 => Cell(idx, if reverse then 6 - t else t, idxIsX))
  }

  lemma LineDistinct(idx: nat, reverse: bool, idxIsX: bool)
    ensures Distinct(Line(idx, reverse, idxIsX))
  {
  }

  /**
   * The line after sliding: the first cell gets `ins` and every later cell the tile
   * that stood one cell earlier (all taken from `m`).
   */
  function Slide(m: map<Location, PlacedTile>, cs: seq<Location>, ins: PlacedTile): (r: map<Location, PlacedTile>)
    requires |cs| > 0 && forall c <- cs :: c in m
    ensures r.Keys == m.Keys
    decreases |cs|
  {
    if |cs| == 1 then m[cs[0] := ins]
    else Slide(m, cs[..|cs| - 1], ins)[cs[|cs| - 1] := m[cs[|cs| - 2]]]
  }

  /** Slide, cell by cell. */
  lemma {:induction false} SlideAt(m: map<Location, PlacedTile>, cs: seq<Location>, ins: PlacedTile)
    requires |cs| > 0 && (forall c <- cs :: c in m) && Distinct(cs)
    ensures Slide(m, cs, ins).Keys == m.Keys
    ensures Slide(m, cs, ins)[cs[0]] == ins
    ensures forall t :: 0 < t < |cs| ==> Slide(m, cs, ins)[cs[t]] == m[cs[t - 1]]
    ensures forall l :: l in m && l !in cs ==> Slide(m, cs, ins)[l] == m[l]
    decreases |cs|
  {
    if |cs| > 1 {
      var pre := cs[..|cs| - 1];
      assert forall c <- pre :: c in cs;
      SlideAt(m, pre, ins);
      forall t | 0 < t < |cs| - 1
        ensures Slide(m, cs, ins)[cs[t]] == m[cs[t - 1]]
      {
        assert pre[t] == cs[t] && pre[t - 1] == cs[t - 1];
        assert cs[t] != cs[|cs| - 1];
      }
    }
  }

  /** A map that agrees with a slide cell by cell is that slide. */
  lemma SlideCharacterized(m: map<Location, PlacedTile>, cs: seq<Location>, ins: PlacedTile, m': map<Location, PlacedTile>)
    requires |cs| > 0 && (forall c <- cs :: c in m) && Distinct(cs)
    requires m'.Keys == m.Keys && m'[cs[0]] == ins
    requires forall t :: 0 < t < |cs| ==> m'[cs[t]] == m[cs[t - 1]]
    requires forall l :: l in m && l !in cs ==> m'[l] == m[l]
    ensures m' == Slide(m, cs, ins)
  {
    SlideAt(m, cs, ins);
    var s := Slide(m, cs, ins);
    forall l | l in m'
      ensures m'[l] == s[l]
    {
      if l in cs {
        var t :| 0 <= t < |cs| && cs[t] == l;
        if t > 0 {
          assert m'[cs[t]] == m[cs[t - 1]] == s[cs[t]];
        }
      }
    }
  }

  /**
   * The slide an entry location selects, as (index, reverse, index-is-column):
   * odd columns of the top and bottom edges, odd rows of the left and right edges.
   */
  function EntrySlide(at: Location): (r: Option<(nat, bool, bool)>)
    ensures InGrid(at) ==> (r.Some? <==> at in EntryPoints)
    ensures r.Some? ==> Line(r.value.0, r.value.1, r.value.2)[0] == at
  {
    if at.y == 0 && at.x % 2 == 1 then Some((at.x, false, true))       // push a column down
    else if at.x == 6 && at.y % 2 == 1 then Some((at.y, true, false))  // push a row left
    else if at.y == 6 && at.x % 2 == 1 then Some((at.x, true, true))   // push a column up
    else if at.x == 0 && at.y % 2 == 1 then Some((at.y, false, false)) // push a row right
    else None
  }

  /** The twelve places where the spare may be pushed in. */
  const EntryPoints: set<Location> := {
    Location(1, 0), Location(3, 0), Location(5, 0), Location(6, 1), Location(6, 3), Location(6, 5),
    Location(1, 6), Location(3, 6), Location(5, 6), Location(0, 1), Location(0, 3), Location(0, 5)
  }

  /** The selected line starts at the entry location itself. */
  lemma EntrySlideStartsAtEntry(at: Location)
    requires EntrySlide(at).Some?
    ensures var (idx, reverse, idxIsX) := EntrySlide(at).value; Line(idx, reverse, idxIsX)[0] == at
  {
  }

  /** When the push-out cell is present, so is every cell of the line (the shift unwraps each one). */
  predicate LineComplete(placed: map<Location, PlacedTile>, idx: nat, reverse: bool, idxIsX: bool)
  {
    Cell(idx, if reverse then 0 else 6, idxIsX) in placed ==> forall i :: 0 <= i < 7 ==> Cell(idx, i, idxIsX) in placed
  }

  predicate Shiftable(placed: map<Location, PlacedTile>, at: Location)
  {
    EntrySlide(at).Some? ==> var (idx, reverse, idxIsX) := EntrySlide(at).value; LineComplete(placed, idx, reverse, idxIsX)
  }

  lemma GridShiftable(placed: map<Location, PlacedTile>, at: Location)
    requires IsGrid(placed)
    ensures Shiftable(placed, at)
  {
  }

  /** The board and spare after a successful insertion. */
  datatype Insertion = Insertion(placed: map<Location, PlacedTile>, spare: Tile)

  /**
   * Shifting line `idx`: reject a spare rotation that opens off the board at the
   * push-in cell, then an absent push-out cell; otherwise slide the line, put the
   * rotated spare at the push-in cell carrying the pushed-out tile's players, and
   * make the pushed-out tile the spare.
   */
  function Rotated(placed: map<Location, PlacedTile>, spare: Tile, idx: nat, rotation: Rotation, reverse: bool, idxIsX: bool)
    : (r: Result<Insertion>)
    requires LineComplete(placed, idx, reverse, idxIsX)
    ensures var cs := Line(idx, reverse, idxIsX);
      r.Ok? <==> TilePlacementOk(cs[0], PlacedTile(spare, rotation, {})) && cs[6] in placed
    ensures !TilePlacementOk(Line(idx, reverse, idxIsX)[0], PlacedTile(spare, rotation, {})) ==> r == Err(InvalidPlacement)
    ensures var cs := Line(idx, reverse, idxIsX);
      r.Ok? ==> r.value.placed.Keys == placed.Keys && r.value.spare == placed[cs[6]].tile
  {
    var cs := Line(idx, reverse, idxIsX);
    var toPushIn := PlacedTile(spare, rotation, {});
    if !TilePlacementOk(cs[0], toPushIn) then Err(InvalidPlacement)
    else if cs[6] !in placed then Err(InvalidLocation)
    else
      var pushedOut := placed[cs[6]];
      Ok(Insertion(Slide(placed, cs, toPushIn.(players := pushedOut.players)), pushedOut.tile))
  }

  /** When both checks pass, the shift is the slide with the pushed-out tile's players carried in. */
  lemma RotatedSucceeds(placed: map<Location, PlacedTile>, spare: Tile, idx: nat, rotation: Rotation, reverse: bool, idxIsX: bool)
    requires LineComplete(placed, idx, reverse, idxIsX)
    requires var cs := Line(idx, reverse, idxIsX);
      TilePlacementOk(cs[0], PlacedTile(spare, rotation, {})) && cs[6] in placed
    ensures var cs := Line(idx, reverse, idxIsX);
      Rotated(placed, spare, idx, rotation, reverse, idxIsX)
        == Ok(Insertion(Slide(placed, cs, PlacedTile(spare, rotation, placed[cs[6]].players)), placed[cs[6]].tile))
  {
  }

  /** Inserting the spare at `at` with `rotation`. */
  function SpareInserted(placed: map<Location, PlacedTile>, spare: Tile, at: Location, rotation: Rotation): (r: Result<Insertion>)
    requires Shiftable(placed, at)
    ensures EntrySlide(at).None? ==> r == Err(InvalidLocation)
    ensures r.Ok? ==> r.value.placed.Keys == placed.Keys
  {
    match EntrySlide(at)
    case None => Err(InvalidLocation)
    case Some((idx, reverse, idxIsX)) => Rotated(placed, spare, idx, rotation, reverse, idxIsX)
  }

  /**
   * On a full board, insertion succeeds exactly at the twelve entry points and only
   * when the rotated spare passes the edge rule there; the error says which check failed.
   */
  lemma InsertionOutcome(placed: map<Location, PlacedTile>, spare: Tile, at: Location, rotation: Rotation)
    requires IsGrid(placed)
    ensures Shiftable(placed, at)
    ensures SpareInserted(placed, spare, at, rotation).Ok?
        <==> at in EntryPoints && TilePlacementOk(at, PlacedTile(spare, rotation, {}))
    ensures at in EntryPoints && !TilePlacementOk(at, PlacedTile(spare, rotation, {}))
        ==> SpareInserted(placed, spare, at, rotation) == Err(InvalidPlacement)
    ensures at !in EntryPoints ==> SpareInserted(placed, spare, at, rotation).Err?
  {
    GridShiftable(placed, at);
    if EntrySlide(at).Some? {
      EntrySlideStartsAtEntry(at);
    }
  }

  /** Insertion keeps a full board full and keeps every token on at most one tile. */
  lemma InsertionKeepsBoard(placed: map<Location, PlacedTile>, spare: Tile, at: Location, rotation: Rotation)
    requires IsGrid(placed) && TokensUnique(placed)
    ensures Shiftable(placed, at)
    ensures var res := SpareInserted(placed, spare, at, rotation);
      res.Ok? ==> res.value.placed.Keys == placed.Keys && IsGrid(res.value.placed) && TokensUnique(res.value.placed)
  {
    GridShiftable(placed, at);
    if SpareInserted(placed, spare, at, rotation).Ok? {
      InsertionShifts(placed, spare, at, rotation);
      InsertionKeepsTokensUnique(placed, spare, at, rotation);
    }
  }

  /**
   * A successful insertion shifts the line one step away from the push-in end, puts the
   * old spare at the requested rotation at the push-in cell with the pushed-out tile's
   * players, makes the pushed-out tile the spare and touches nothing off the line.
   */
  lemma InsertionShifts(placed: map<Location, PlacedTile>, spare: Tile, at: Location, rotation: Rotation)
    requires Shiftable(placed, at) && SpareInserted(placed, spare, at, rotation).Ok?
    ensures EntrySlide(at).Some?
    ensures var (idx, reverse, idxIsX) := EntrySlide(at).value;
      var pushOut := Cell(idx, if reverse then 0 else 6, idxIsX);
      var after := SpareInserted(placed, spare, at, rotation).value;
      && pushOut in placed
      && after.placed.Keys == placed.Keys
      && (forall i :: 0 <= i <= 6 ==> Cell(idx, i, idxIsX) in placed)
      && after.placed[at] == PlacedTile(spare, rotation, placed[pushOut].players)
      && after.spare == placed[pushOut].tile
      && (!reverse ==> forall i :: 1 <= i <= 6 ==> after.placed[Cell(idx, i, idxIsX)] == placed[Cell(idx, i - 1, idxIsX)])
      && (reverse ==> forall i :: 0 <= i <= 5 ==> after.placed[Cell(idx, i, idxIsX)] == placed[Cell(idx, i + 1, idxIsX)])
      && (forall l :: l in placed && l !in Line(idx, reverse, idxIsX) ==> after.placed[l] == placed[l])
  {
    var (idx, reverse, idxIsX) := EntrySlide(at).value;
    var cs := Line(idx, reverse, idxIsX);
    EntrySlideStartsAtEntry(at);
    LineDistinct(idx, reverse, idxIsX);
    var ins := PlacedTile(spare, rotation, placed[cs[6]].players);
    SlideAt(placed, cs, ins);
    var after := Slide(placed, cs, ins);
    forall i | 0 <= i <= 6
      ensures Cell(idx, i, idxIsX) in placed
    {
      assert Cell(idx, i, idxIsX) == cs[if reverse then 6 - i else i];
    }
    if !reverse {
      forall i | 1 <= i <= 6
        ensures after[Cell(idx, i, idxIsX)] == placed[Cell(idx, i - 1, idxIsX)]
      {
        assert cs[i] == Cell(idx, i, idxIsX) && cs[i - 1] == Cell(idx, i - 1, idxIsX);
      }
    } else {
      forall i | 0 <= i <= 5
        ensures after[Cell(idx, i, idxIsX)] == placed[Cell(idx, i + 1, idxIsX)]
      {
        assert cs[6 - i] == Cell(idx, i, idxIsX) && cs[6 - i - 1] == Cell(idx, i + 1, idxIsX);
      }
    }
  }

  /**
   * The cell whose tokens end up at `l` after sliding `cs`: the previous cell of
   * the line, the last cell for the push-in cell, and `l` itself off the line.
   */
  ghost function SlideSource(cs: seq<Location>, l: Location): Location
    requires |cs| > 0
  {
    if l == cs[0] then cs[|cs| - 1]
    else if l in cs then
      var t :| 0 < t < |cs| && cs[t] == l;
      cs[t - 1]
    else l
  }

  lemma SlideSourceTokens(m: map<Location, PlacedTile>, cs: seq<Location>, ins: PlacedTile, l: Location)
    requires |cs| > 0 && (forall c <- cs :: c in m) && Distinct(cs)
    requires ins.players == m[cs[|cs| - 1]].players && l in m
    ensures SlideSource(cs, l) in m && l in Slide(m, cs, ins) && Slide(m, cs, ins)[l].players == m[SlideSource(cs, l)].players
  {
    SlideAt(m, cs, ins);
  }

  lemma SlideSourceInjective(cs: seq<Location>, a: Location, b: Location)
    requires |cs| > 0 && Distinct(cs) && SlideSource(cs, a) == SlideSource(cs, b)
    ensures a == b
  {
    if a in cs && b in cs {
      var i :| 0 <= i < |cs| && cs[i] == a;
      var j :| 0 <= j < |cs| && cs[j] == b;
      var si := if i == 0 then |cs| - 1 else i - 1;
      var sj := if j == 0 then |cs| - 1 else j - 1;
      assert SlideSource(cs, a) == cs[si] && SlideSource(cs, b) == cs[sj];
    }
  }

  /** A slide that carries the pushed-out tokens to the push-in cell keeps every token on one tile. */
  lemma SlideKeepsTokensUnique(m: map<Location, PlacedTile>, cs: seq<Location>, ins: PlacedTile)
    requires |cs| > 0 && (forall c <- cs :: c in m) && Distinct(cs)
    requires ins.players == m[cs[|cs| - 1]].players && TokensUnique(m)
    ensures TokensUnique(Slide(m, cs, ins))
  {
    var after := Slide(m, cs, ins);
    SlideAt(m, cs, ins);
    forall a, b, p | a in after && b in after && p in after[a].players && p in after[b].players
      ensures a == b
    {
      SlideSourceTokens(m, cs, ins, a);
      SlideSourceTokens(m, cs, ins, b);
      SlideSourceInjective(cs, a, b);
    }
  }

  /** Insertion moves tokens with their tiles, so no token ends up on two tiles. */
  lemma InsertionKeepsTokensUnique(placed: map<Location, PlacedTile>, spare: Tile, at: Location, rotation: Rotation)
    requires Shiftable(placed, at) && SpareInserted(placed, spare, at, rotation).Ok? && TokensUnique(placed)
    ensures TokensUnique(SpareInserted(placed, spare, at, rotation).value.placed)
  {
    var (idx, reverse, idxIsX) := EntrySlide(at).value;
    var cs := Line(idx, reverse, idxIsX);
    var pushedOut := placed[cs[6]];
    var ins := PlacedTile(spare, rotation, pushedOut.players);
    assert SpareInserted(placed, spare, at, rotation) == Ok(Insertion(Slide(placed, cs, ins), pushedOut.tile));
    LineDistinct(idx, reverse, idxIsX);
    SlideKeepsTokensUnique(placed, cs, ins);
  }

  /** The multiset of `f` over the tiles at `locs`. */
  function Bag<T>(m: map<Location, PlacedTile>, locs: seq<Location>, f: PlacedTile -> multiset<T>): multiset<T>
    decreases |locs|
  {
    if locs == [] then multiset{}
    else (if locs[0] in m then f(m[locs[0]]) else multiset{}) + Bag(m, locs[1..], f)
  }

  function TileOf(pt: PlacedTile): multiset<Tile>
  {
    multiset{pt.tile}
  }

  function TokensOf(pt: PlacedTile): multiset<Player>
  {
    multiset(pt.players)
  }

  /** `locs` lists every cell of `m` exactly once (an enumeration of the map, in any order). */
  ghost predicate Enumerates(locs: seq<Location>, m: map<Location, PlacedTile>)
  {
    Distinct(locs) && forall l :: l in locs <==> l in m
  }

  /** The tiles at `locs`, as a multiset. */
  function TilesAt(m: map<Location, PlacedTile>, locs: seq<Location>): multiset<Tile>
  {
    Bag(m, locs, TileOf)
  }

  /** The tokens standing at `locs`, as a multiset (one element per token). */
  function TokensAt(m: map<Location, PlacedTile>, locs: seq<Location>): multiset<Player>
  {
    Bag(m, locs, TokensOf)
  }

  lemma {:induction false} BagAgree<T>(m1: map<Location, PlacedTile>, m2: map<Location, PlacedTile>, locs: seq<Location>, f: PlacedTile -> multiset<T>)
    requires forall l <- locs :: (l in m1 <==> l in m2) && (l in m1 ==> m1[l] == m2[l])
    ensures Bag(m1, locs, f) == Bag(m2, locs, f)
    decreases |locs|
  {
    if locs != [] {
      assert forall l <- locs[1..] :: l in locs;
      BagAgree(m1, m2, locs[1..], f);
    }
  }

  /** Replacing the tile at one listed cell swaps its contribution. */
  lemma {:induction false} BagUpdate<T>(m: map<Location, PlacedTile>, locs: seq<Location>, f: PlacedTile -> multiset<T>, k: Location, v: PlacedTile)
    requires k in m && k in locs && Distinct(locs)
    ensures Bag(m[k := v], locs, f) + f(m[k]) == Bag(m, locs, f) + f(v)
    decreases |locs|
  {
    if locs[0] == k {
      assert forall l <- locs[1..] :: l != k by {
        forall l <- locs[1..] ensures l != k {
          var j :| 0 <= j < |locs[1..]| && locs[1..][j] == l;
          assert locs[j + 1] == l;
        }
      }
      BagAgree(m[k := v], m, locs[1..], f);
    } else {
      assert k in locs[1..];
      assert Distinct(locs[1..]) by {
        forall i, j | 0 <= i < j < |locs[1..]| ensures locs[1..][i] != locs[1..][j] {
          assert locs[1..][i] == locs[i + 1] && locs[1..][j] == locs[j + 1];
        }
      }
      BagUpdate(m, locs[1..], f, k, v);
      var head := if locs[0] in m then f(m[locs[0]]) else multiset{};
      var rest, rest' := Bag(m, locs[1..], f), Bag(m[k := v], locs[1..], f);
      assert Bag(m, locs, f) == head + rest;
      assert Bag(m[k := v], locs, f) == head + rest';
      calc {
        Bag(m[k := v], locs, f) + f(m[k]);
        (head + rest') + f(m[k]);
        head + (rest' + f(m[k]));
        head + (rest + f(v));
        (head + rest) + f(v);
        Bag(m, locs, f) + f(v);
      }
    }
  }

  /** Sliding swaps the pushed-out tile's contribution for the inserted one's. */
  lemma {:induction false} BagSlide<T>(m: map<Location, PlacedTile>, cs: seq<Location>, ins: PlacedTile, locs: seq<Location>, f: PlacedTile -> multiset<T>)
    requires |cs| > 0 && Distinct(cs) && (forall c <- cs :: c in m && c in locs) && Distinct(locs)
    ensures Bag(Slide(m, cs, ins), locs, f) + f(m[cs[|cs| - 1]]) == Bag(m, locs, f) + f(ins)
    decreases |cs|
  {
    if |cs| == 1 {
      BagUpdate(m, locs, f, cs[0], ins);
    } else {
      var pre, c, p := cs[..|cs| - 1], cs[|cs| - 1], cs[|cs| - 2];
      assert forall x <- pre :: x in cs;
      assert p == pre[|pre| - 1];
      BagSlide(m, pre, ins, locs, f);
      var s := Slide(m, pre, ins);
      SlideAt(m, pre, ins);
      assert c !in pre;
      BagUpdate(s, locs, f, c, m[p]);
    }
  }

  /**
   * A successful insertion keeps the cell set, the multiset of tiles on the board
   * plus the spare, and the multiset of tokens (so the total token count), counted
   * over any enumeration of the board.
   */
  lemma InsertionConserves(placed: map<Location, PlacedTile>, spare: Tile, at: Location, rotation: Rotation, locs: seq<Location>)
    requires Shiftable(placed, at) && SpareInserted(placed, spare, at, rotation).Ok?
    requires Enumerates(locs, placed)
    ensures var after := SpareInserted(placed, spare, at, rotation).value;
      && after.placed.Keys == placed.Keys
      && TilesAt(after.placed, locs) + multiset{after.spare} == TilesAt(placed, locs) + multiset{spare}
      && TokensAt(after.placed, locs) == TokensAt(placed, locs)
      && |TokensAt(after.placed, locs)| == |TokensAt(placed, locs)|
  {
    var (idx, reverse, idxIsX) := EntrySlide(at).value;
    var cs := Line(idx, reverse, idxIsX);
    var pushedOut := placed[cs[6]];
    var ins := PlacedTile(spare, rotation, pushedOut.players);
    assert SpareInserted(placed, spare, at, rotation) == Ok(Insertion(Slide(placed, cs, ins), pushedOut.tile));
    LineDistinct(idx, reverse, idxIsX);
    SlideConserves(placed, cs, ins, locs);
  }

  /** Sliding a line keeps the cells; the tile pushed out is traded for the one pushed in. */
  lemma SlideConserves(m: map<Location, PlacedTile>, cs: seq<Location>, ins: PlacedTile, locs: seq<Location>)
    requires |cs| > 0 && Distinct(cs) && (forall c <- cs :: c in m) && Enumerates(locs, m)
    ensures Slide(m, cs, ins).Keys == m.Keys
    ensures TilesAt(Slide(m, cs, ins), locs) + multiset{m[cs[|cs| - 1]].tile} == TilesAt(m, locs) + multiset{ins.tile}
    ensures ins.players == m[cs[|cs| - 1]].players ==> TokensAt(Slide(m, cs, ins), locs) == TokensAt(m, locs)
  {
    SlideAt(m, cs, ins);
    BagSlide(m, cs, ins, locs, TileOf);
    BagSlide(m, cs, ins, locs, TokensOf);
    if ins.players == m[cs[|cs| - 1]].players {
      var before, after, c := TokensAt(m, locs), TokensAt(Slide(m, cs, ins), locs), TokensOf(ins);
      assert after + c == before + c;
      assert forall p :: after[p] == (after + c)[p] - c[p] == (before + c)[p] - c[p] == before[p];
    }
  }

  const Blank := Tile(None, false, false, false, false)

  /** A board of closed tiles with one vertical line at (1,5); it passes the edge rule everywhere. */
  function EdgeRuleWitness(): (m: map<Location, PlacedTile>)
    ensures IsGrid(m)
    ensures forall l :: l in m ==> TilePlacementOk(l, m[l])
  {
    map l | l in Locations() :: PlacedTile(if l == Location(1, 5) then LineVertical else Blank, Zero, {})
  }

  /**
   * Insertion re-checks the edge rule only for the pushed-in tile: pushing column 1
   * down moves the vertical line onto the bottom edge, where it opens off the board.
   */
  lemma EdgeRuleNotPreserved()
    ensures var m := EdgeRuleWitness();
      var r := SpareInserted(m, Blank, Location(1, 0), Zero);
      && Shiftable(m, Location(1, 0))
      && r.Ok?
      && !TilePlacementOk(Location(1, 6), r.value.placed[Location(1, 6)])
  {
    var m := EdgeRuleWitness();
    InsertionOutcome(m, Blank, Location(1, 0), Zero);
    InsertionShifts(m, Blank, Location(1, 0), Zero);
    assert Cell(1, 6, true) == Location(1, 6) && Cell(1, 5, true) == Location(1, 5);
  }
}
