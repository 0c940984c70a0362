/**
 * The pieces a new board is assembled from: the fixed tiles with their start
 * tokens, the free locations, shuffles, the pairing of free locations with
 * free tiles, and the redraw loop that turns free tiles until they pass the
 * edge rule.
 *
 * Randomness is a parameter: a shuffle is a permutation of indices, the first
 * rotation of each free tile is a sequence, and redraws read a rotation source
 * `draw` at increasing positions.
 */
module Setup {
  import opened Errors
  import opened Tiles
  import opened Grid

  /** The starting token set of a fixed tile: its player's token when that player is in the game. */
  function StartPlayers(marking: Option<Marking>, participants: set<Player>): (s: set<Player>)
    ensures s == {} || (exists p :: marking == Some(PlayerStart(p)) && p in participants && s == {p})
    ensures forall p :: marking == Some(PlayerStart(p)) && p in participants ==> s == {p}
  {
    match marking
    case Some(PlayerStart(p)) => if p in participants then {p} else {}
    case _ => {}
  }

  /** The fixed tile `FixedTiles[i]` placed at rotation Zero with its start tokens. */
  function FixedPlaced(i: nat, participants: set<Player>): (pt: PlacedTile)
    requires i < |FixedTiles|
    ensures pt.tile == FixedTiles[i].1 && pt.rotation == Zero
    ensures pt.players == StartPlayers(FixedTiles[i].1.marking, participants)
  {
    PlacedTile(FixedTiles[i].1, Zero, StartPlayers(FixedTiles[i].1.marking, participants))
  }

  /** The fixed tiles placed at their locations, in the order they are listed. */
  function FixedPlacement(participants: set<Player>): (pairs: seq<(Location, PlacedTile)>)
    ensures |pairs| == 16
    ensures forall i :: 0 <= i < 16 ==> pairs[i] == (FixedLocations()[i], FixedPlaced(i, participants))
  {
    seq(16, i requires 0 <= i < 16 => (FixedLocations()[i], FixedPlaced(i, participants)))
  }

  /** No two fixed tiles are the start tile of the same player. */
  lemma StartTilesDistinct()
    ensures forall i, j, p ::
      (0 <= i < 16 && 0 <= j < 16 && FixedTiles[i].1.marking == Some(PlayerStart(p)) && FixedTiles[j].1.marking == Some(PlayerStart(p)))
      ==> i == j
  {
  }

  /** The fixed tiles are listed in row-major order, so no location twice. */
  lemma FixedLocationsDistinct()
    ensures Distinct(FixedLocations())
  {
    var fl := FixedLocations();
    forall i, j | 0 <= i < j < 16
      ensures RowMajorBefore(fl[i], fl[j])
    {
    }
    forall i, j | 0 <= i < j < 16
      ensures fl[i] != fl[j]
    {
      RowMajorDistinct(fl, i, j);
    }
  }

  /** The locations of a list of pairs, in order. */
  function KeysOf(pairs: seq<(Location, PlacedTile)>): (ks: seq<Location>)
    ensures |ks| == |pairs| && forall k :: 0 <= k < |pairs| ==> ks[k] == pairs[k].0
  {
    seq(|pairs|, k requires 0 <= k < |pairs| => pairs[k].0)
  }

  /** The locations of `ls` that none of `fixedPairs` occupies, in their order. */
  function Unclaimed(ls: seq<Location>, fixedPairs: seq<(Location, PlacedTile)>): (r: seq<Location>)
    ensures forall l :: l in r <==> l in ls && l !in KeysOf(fixedPairs)
    ensures Distinct(ls) ==> Distinct(r)
  {
    if |ls| == 0 then []
    else (if ls[0] in KeysOf(fixedPairs) then [] else [ls[0]]) + Unclaimed(ls[1..], fixedPairs)
  }

  /** The cells no fixed tile occupies, in row-major order: where free tiles go. */
  function FreeLocations(fixedPairs: seq<(Location, PlacedTile)>): seq<Location>
  {
    Unclaimed(Locations(), fixedPairs)
  }

  lemma FixedPlacementKeys(participants: set<Player>)
    ensures forall l :: l in KeysOf(FixedPlacement(participants)) <==> IsFixedLocation(l)
  {
    var fp := FixedPlacement(participants);
    forall l | IsFixedLocation(l)
      ensures l in KeysOf(fp)
    {
      var i :| 0 <= i < 16 && FixedLocations()[i] == l;
      assert KeysOf(fp)[i] == l;
    }
  }

  lemma {:induction false} DistinctCard<T>(s: seq<T>)
    requires Distinct(s)
    ensures |set x | x in s| == |s|
  {
    if |s| > 0 {
      assert Distinct(s[1..]);
      DistinctCard(s[1..]);
      assert (set x | x in s) == {s[0]} + (set x | x in s[1..]);
      assert s[0] !in (set x | x in s[1..]);
    }
  }

  /**
   * The free cells are exactly the cells without a fixed tile, each once; there
   * are 33 of them, one fewer than the free tiles, the extra one being the spare.
   */
  lemma FreeLocationsCount(participants: set<Player>)
    ensures var free := FreeLocations(FixedPlacement(participants));
      && Distinct(free) && |free| == |FreeTiles| - 1 == 33
      && forall l :: l in free <==> InGrid(l) && !IsFixedLocation(l)
  {
    LocationsRowMajor();
    FixedPlacementKeys(participants);
    FreeCount(Locations(), FixedPlacement(participants));
  }

  lemma FreeCount(all: seq<Location>, fixedPairs: seq<(Location, PlacedTile)>)
    requires Distinct(all) && |all| == 49 && forall l :: l in all <==> InGrid(l)
    requires forall l :: l in KeysOf(fixedPairs) <==> IsFixedLocation(l)
    ensures Distinct(Unclaimed(all, fixedPairs)) && |Unclaimed(all, fixedPairs)| == 33
  {
    var fixed := FixedLocations();
    var free := Unclaimed(all, fixedPairs);
    FixedLocationsDistinct();
    DistinctCard(all);
    DistinctCard(fixed);
    DistinctCard(free);
    var A, F, R := set x | x in all, set x | x in fixed, set x | x in free;
    forall l | l in F ensures l in A {
      FixedLocationsAreEvenCells(l);
    }
    assert A == R + F;
    assert R * F == {};
  }

  /** `order` lists every cell without a fixed tile exactly once: an arrangement of the free locations. */
  ghost predicate IsFreeOrder(order: seq<Location>)
  {
    |order| == |FreeTiles| - 1 && Distinct(order) && forall l :: l in order <==> InGrid(l) && !IsFixedLocation(l)
  }

  /** `p` is a permutation of 0 .. n-1: the order a shuffle leaves n elements in. */
  predicate IsPermutation(p: seq<nat>, n: nat)
  {
    && |p| == n
    && (forall k :: 0 <= k < n ==> p[k] < n)
    && Distinct(p)
    && (forall j :: 0 <= j < n ==> j in p)
  }

  /** `s` rearranged by `p`: position k takes the element at `p[k]`. */
  function Shuffle<T(!new)>(s: seq<T>, p: seq<nat>): (r: seq<T>)
    requires IsPermutation(p, |s|)
    ensures |r| == |s|
    ensures forall k :: 0 <= k < |s| ==> r[k] == s[p[k]]
    ensures forall x :: x in r <==> x in s
    ensures Distinct(s) ==> Distinct(r)
  {
    var r := seq(|s|, k requires 0 <= k < |s| => s[p[k]]);
    ShuffleIsPermutation(s, p, r);
    r
  }

  lemma ShuffleIsPermutation<T(!new)>(s: seq<T>, p: seq<nat>, r: seq<T>)
    requires IsPermutation(p, |s|) && |r| == |s| && forall k :: 0 <= k < |s| ==> r[k] == s[p[k]]
    ensures forall x :: x in r <==> x in s
  {
    forall x | x in s ensures x in r {
      var j :| 0 <= j < |s| && s[j] == x;
      assert j in p;
      var k :| 0 <= k < |s| && p[k] == j;
      assert r[k] == x;
    }
  }

  /** Shuffling the free locations by any permutation gives an arrangement of them. */
  lemma ShuffledFreeLocations(participants: set<Player>, locPerm: seq<nat>)
    requires IsPermutation(locPerm, |FreeTiles| - 1)
    ensures |FreeLocations(FixedPlacement(participants))| == |locPerm|
    ensures IsFreeOrder(Shuffle(FreeLocations(FixedPlacement(participants)), locPerm))
  {
    FreeLocationsCount(participants);
  }

  /** Free location k paired with free tile k, up to the shorter of the two. */
  function Zip(ls: seq<Location>, ts: seq<PlacedTile>): (pairs: seq<(Location, PlacedTile)>)
    ensures |pairs| == if |ls| < |ts| then |ls| else |ts|
    ensures forall k :: 0 <= k < |pairs| ==> pairs[k] == (ls[k], ts[k])
  {
    if |ls| == 0 || |ts| == 0 then []
    else [(ls[0], ts[0])] + Zip(ls[1..], ts[1..])
  }

  /**
   * The tile map gathered from a list of (location, tile) pairs: every listed
   * location is a key, and a location listed more than once keeps its last tile.
   */
  function Collect(pairs: seq<(Location, PlacedTile)>): (m: map<Location, PlacedTile>)
    ensures forall l :: l in m <==> exists k :: 0 <= k < |pairs| && pairs[k].0 == l
    ensures forall k :: 0 <= k < |pairs| && (forall j :: k < j < |pairs| ==> pairs[j].0 != pairs[k].0) ==> m[pairs[k].0] == pairs[k].1
  {
    if |pairs| == 0 then map[]
    else
      var last := pairs[|pairs| - 1];
      var m := Collect(pairs[..|pairs| - 1]);
      assert forall k :: 0 <= k < |pairs| - 1 ==> pairs[..|pairs| - 1][k] == pairs[k];
      m[last.0 := last.1]
  }

  /** Rotation `r` comes up again at some position from `n` on. */
  ghost predicate Recurs(draw: nat -> Rotation, n: nat, r: Rotation)
  {
    exists m: nat :: n <= m && draw(m) == r
  }

  /** A rotation source in which every rotation keeps coming up. */
  ghost predicate Fair(draw: nat -> Rotation)
  {
    forall n: nat, r: Rotation :: Recurs(draw, n, r)
  }

  /**
   * Redraws the rotation of each paired tile, reading `draw` from position
   * `start` on, until the tile passes the edge rule at its location; tiles that
   * already pass keep their rotation. Returns the pairs and the next unread position.
   */
  method FitRotations(pairs: seq<(Location, PlacedTile)>, draw: nat -> Rotation, start: nat)
    returns (fitted: seq<(Location, PlacedTile)>, next: nat)
    requires Fair(draw)
    requires forall k :: 0 <= k < |pairs| ==> HasClosedSide(pairs[k].1.tile) && !IsCorner(pairs[k].0)
    ensures |fitted| == |pairs| && start <= next
    ensures forall k :: 0 <= k < |pairs| ==>
      fitted[k].0 == pairs[k].0 && fitted[k].1 == pairs[k].1.(rotation := fitted[k].1.rotation)
    ensures forall k :: 0 <= k < |pairs| ==> TilePlacementOk(fitted[k].0, fitted[k].1)
    ensures forall k :: 0 <= k < |pairs| && TilePlacementOk(pairs[k].0, pairs[k].1) ==> fitted[k] == pairs[k]
  {
    fitted := pairs;
    next := start;
    for k := 0 to |pairs|
      invariant |fitted| == |pairs| && start <= next
      invariant forall j :: 0 <= j < |pairs| ==>
        fitted[j].0 == pairs[j].0 && fitted[j].1 == pairs[j].1.(rotation := fitted[j].1.rotation)
      invariant forall j :: 0 <= j < k ==> TilePlacementOk(fitted[j].0, fitted[j].1)
      invariant forall j :: 0 <= j < |pairs| && (k <= j || TilePlacementOk(pairs[j].0, pairs[j].1)) ==> fitted[j] == pairs[j]
    {
      var (at, pt) := fitted[k];
      ghost var wanted := FittingRotation(pt.tile, at);
      assert Recurs(draw, next, wanted);
      ghost var target :| next <= target && draw(target) == wanted;
      while !TilePlacementOk(at, pt)
        invariant pt == pairs[k].1.(rotation := pt.rotation)
        invariant pt == pairs[k].1 || !TilePlacementOk(at, pairs[k].1)
        invariant start <= next
        invariant !TilePlacementOk(at, pt) ==> next <= target
        decreases if TilePlacementOk(at, pt) then 0 else target - next + 1
      {
        pt := pt.(rotation := draw(next));
        next := next + 1;
      }
      fitted := fitted[k := (at, pt)];
    }
  }
}
