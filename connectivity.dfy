/**
 * Component labelling of the board graph: a depth-first search from every
 * location, in the order the board's cells are enumerated, gives each location
 * the number of the search that first reached it. Two locations are "connected"
 * when they carry the same number.
 *
 * The neighbour relation (`Grid.Linked`) is not symmetric next to the last row
 * and column, so reachability is directed; the lemmas here say exactly what the
 * labels mean in that setting.
 */
module Connectivity {
  import opened Errors
  import opened Tiles
  import opened Grid

  /** Label of the component of each labelled location. */
  datatype BoardGraph = BoardGraph(components: map<Location, int>)

  /** `p` is a walk along neighbour links. */
  ghost predicate IsPath(placed: map<Location, PlacedTile>, p: seq<Location>)
  {
    |p| > 0 && forall i :: 0 <= i < |p| - 1 ==> Linked(placed, p[i], p[i + 1])
  }

  /** `b` can be walked to from `a`. */
  ghost predicate Reach(placed: map<Location, PlacedTile>, a: Location, b: Location)
  {
    exists p :: IsPath(placed, p) && p[0] == a && p[|p| - 1] == b
  }

  lemma ReachSelf(placed: map<Location, PlacedTile>, a: Location)
    ensures Reach(placed, a, a)
  {
    assert IsPath(placed, [a]);
  }

  lemma ReachStep(placed: map<Location, PlacedTile>, a: Location, b: Location, c: Location)
    requires Linked(placed, a, b) && Reach(placed, b, c)
    ensures Reach(placed, a, c)
  {
    var p :| IsPath(placed, p) && p[0] == b && p[|p| - 1] == c;
    var q := [a] + p;
    assert forall i :: 0 < i < |q| - 1 ==> q[i] == p[i - 1] && q[i + 1] == p[i];
    assert IsPath(placed, q);
  }

  /**
   * Every link leads to a labelled location with a label no larger: a search that
   * finished has visited everything reachable from what it labelled.
   */
  ghost predicate Closed(placed: map<Location, PlacedTile>, comps: map<Location, int>)
  {
    forall a, b :: a in comps && Linked(placed, a, b) ==> b in comps && comps[b] <= comps[a]
  }

  /**
   * `comps` is a labelling of `placed` by searches started at `roots`, in order:
   * search `i` started at `roots[i]` and labelled only what it could reach.
   */
  ghost predicate Labels(placed: map<Location, PlacedTile>, comps: map<Location, int>, roots: seq<Location>)
    ensures Labels(placed, comps, roots) ==> Distinct(roots)
  {
    && comps.Keys == placed.Keys
    && (forall l <- comps.Keys :: 0 <= comps[l] < |roots| && Reach(placed, roots[comps[l]], l))
    && (forall i :: 0 <= i < |roots| ==> roots[i] in comps && comps[roots[i]] == i)
    && Closed(placed, comps)
  }

  /** Walking never increases the label in a closed labelling. */
  lemma {:induction false} PathLabels(placed: map<Location, PlacedTile>, comps: map<Location, int>, p: seq<Location>)
    requires Closed(placed, comps) && IsPath(placed, p) && p[0] in comps
    ensures p[|p| - 1] in comps && comps[p[|p| - 1]] <= comps[p[0]]
    decreases |p|
  {
    if |p| > 1 {
      assert Linked(placed, p[0], p[1]);
      assert IsPath(placed, p[1..]);
      PathLabels(placed, comps, p[1..]);
    }
  }

  lemma ReachLabels(placed: map<Location, PlacedTile>, comps: map<Location, int>, a: Location, b: Location)
    requires Closed(placed, comps) && a in comps && Reach(placed, a, b)
    ensures b in comps && comps[b] <= comps[a]
  {
    var p :| IsPath(placed, p) && p[0] == a && p[|p| - 1] == b;
    PathLabels(placed, comps, p);
  }

  /**
   * The label of a location is the index of the first search root that reaches
   * it; in particular the labelling is determined by the roots.
   */
  lemma LabelIsFirstReachingRoot(placed: map<Location, PlacedTile>, comps: map<Location, int>, roots: seq<Location>, l: Location)
    requires Labels(placed, comps, roots) && l in placed
    ensures 0 <= comps[l] < |roots| && Reach(placed, roots[comps[l]], l)
    ensures forall j :: 0 <= j < comps[l] ==> !Reach(placed, roots[j], l)
  {
    forall j | 0 <= j < comps[l] && Reach(placed, roots[j], l)
      ensures false
    {
      ReachLabels(placed, comps, roots[j], l);
    }
  }

  /**
   * Marks `at` and everything reachable from it that is not yet visited with
   * `id`, depth first.
   */
  method DfsUtil(placed: map<Location, PlacedTile>, at: Location, visited: set<Location>, comps: map<Location, int>, id: int)
    returns (visited': set<Location>, comps': map<Location, int>)
    requires at in placed
    requires visited == comps.Keys && visited <= placed.Keys
    requires forall l <- comps.Keys :: comps[l] <= id
    ensures visited' == comps'.Keys && visited <= visited' <= placed.Keys && at in visited'
    ensures forall l <- comps.Keys :: comps'[l] == comps[l]
    ensures forall l <- comps'.Keys - comps.Keys :: comps'[l] == id && Reach(placed, at, l)
    ensures forall l, n :: l in comps'.Keys - comps.Keys && Linked(placed, l, n) ==> n in comps'
    decreases placed.Keys - visited
  {
    visited', comps' := visited, comps;
    if at !in visited {
      visited' := visited' + {at};
      comps' := comps'[at := id];
      ReachSelf(placed, at);
      var ns := LinkedFrom(placed, at);
      for i := 0 to |ns|
        invariant visited' == comps'.Keys && visited + {at} <= visited' <= placed.Keys
        invariant forall l <- comps.Keys :: comps'[l] == comps[l]
        invariant forall l <- comps'.Keys - comps.Keys :: comps'[l] == id && Reach(placed, at, l)
        invariant forall l, n :: l in comps'.Keys - comps.Keys - {at} && Linked(placed, l, n) ==> n in comps'
        invariant forall j :: 0 <= j < i ==> ns[j] in comps'
      {
        var before := comps';
        visited', comps' := DfsUtil(placed, ns[i], visited', comps', id);
        assert before.Keys <= comps'.Keys && ns[i] in comps';
        forall l | l in comps'.Keys - before.Keys
          ensures Reach(placed, at, l)
        {
          ReachStep(placed, at, ns[i], l);
        }
      }
    }
  }

  /** The neighbours of a placed cell, unwrapped: exactly the cells it links to. */
  method LinkedFrom(placed: map<Location, PlacedTile>, at: Location) returns (ns: seq<Location>)
    requires at in placed
    ensures forall n :: n in ns <==> Linked(placed, at, n)
    ensures forall n <- ns :: n in placed
  {
    ns := Neighbors(placed, at).value;
  }

  /**
   * Labels every location of `placed`, starting a new search (with the next
   * label) at each location of `order` that no earlier search reached; `order`
   * is the enumeration order of the board's cells.
   */
  method FromBoard(placed: map<Location, PlacedTile>, order: seq<Location>) returns (g: BoardGraph, ghost roots: seq<Location>)
    requires Distinct(order) && forall l :: l in order <==> l in placed
    ensures g.components.Keys == placed.Keys
    ensures Labels(placed, g.components, roots)
    ensures roots == RootsOf(placed, order)
  {
    var components: map<Location, int> := map[];
    var visited: set<Location> := {};
    var id := -1;
    roots := [];
    for i := 0 to |order|
      invariant visited == components.Keys
      invariant id == |roots| - 1
      invariant PartialLabels(placed, components, roots, order)
      invariant forall j :: 0 <= j < i ==> order[j] in components
      invariant roots == RootsOf(placed, order[..i])
    {
      LabelledIffCovered(placed, components, roots, order, order[i]);
      RootsStep(placed, order, i);
      if order[i] !in visited {
        id := id + 1;
        ghost var before := components;
        visited, components, roots := Search(placed, order, order[i], visited, components, id, roots);
        forall j | 0 <= j <= i
          ensures order[j] in components
        {
          if j < i {
            assert order[j] in before;
          }
        }
      }
    }
    assert order[..|order|] == order;
    AllSearched(placed, components, roots, order);
    g := BoardGraph(components);
  }

  /** Some root among `roots` reaches `l`. */
  ghost predicate Covered(placed: map<Location, PlacedTile>, roots: seq<Location>, l: Location)
  {
    exists k :: 0 <= k < |roots| && Reach(placed, roots[k], l)
  }

  /**
   * The search roots for the cell order `order`: each cell of `order`, in turn,
   * that no earlier root reaches.
   */
  ghost function RootsOf(placed: map<Location, PlacedTile>, order: seq<Location>): (roots: seq<Location>)
    ensures forall r <- roots :: r in order
    ensures |order| > 0 ==> |roots| > 0 && roots[0] == order[0]
    decreases |order|
  {
    if order == [] then []
    else
      var prev := RootsOf(placed, order[..|order| - 1]);
      if Covered(placed, prev, order[|order| - 1]) then prev else prev + [order[|order| - 1]]
  }

  /** One more cell of `order` adds a root exactly when the roots so far do not reach it. */
  lemma RootsStep(placed: map<Location, PlacedTile>, order: seq<Location>, i: nat)
    requires i < |order|
    ensures var prev := RootsOf(placed, order[..i]);
      RootsOf(placed, order[..i + 1]) == if Covered(placed, prev, order[i]) then prev else prev + [order[i]]
  {
    assert order[..i + 1][..i] == order[..i];
  }

  /** While searching, the labelled cells are exactly those the roots so far reach. */
  lemma LabelledIffCovered(placed: map<Location, PlacedTile>, comps: map<Location, int>, roots: seq<Location>,
                           order: seq<Location>, l: Location)
    requires PartialLabels(placed, comps, roots, order)
    ensures l in comps <==> Covered(placed, roots, l)
  {
    if l in comps {
      assert Reach(placed, roots[comps[l]], l);
    } else if Covered(placed, roots, l) {
      var k :| 0 <= k < |roots| && Reach(placed, roots[k], l);
      ReachLabels(placed, comps, roots[k], l);
    }
  }

  /** The roots determine the labelling: two labellings from the same roots agree. */
  lemma LabelsDetermined(placed: map<Location, PlacedTile>, c1: map<Location, int>, c2: map<Location, int>, roots: seq<Location>)
    requires Labels(placed, c1, roots) && Labels(placed, c2, roots)
    ensures c1 == c2
  {
    forall l | l in placed
      ensures c1[l] == c2[l]
    {
      LabelIsFirstReachingRoot(placed, c1, roots, l);
      LabelIsFirstReachingRoot(placed, c2, roots, l);
    }
  }

  /** A cell with no outgoing link reaches no other cell. */
  lemma NoLinkNoReach(placed: map<Location, PlacedTile>, a: Location, b: Location)
    requires a != b && forall n :: !Linked(placed, a, n)
    ensures !Reach(placed, a, b)
  {
    var comps := map[a := 0];
    assert Closed(placed, comps);
    if Reach(placed, a, b) {
      ReachLabels(placed, comps, a, b);
    }
  }

  /** Two straight vertical tiles at rows 5 and 6 of column 0. */
  function StackedAtRowSix(): map<Location, PlacedTile>
  {
    var t := PlacedTile(LineVertical, Zero, {});
    map[Location(0, 5) := t, Location(0, 6) := t]
  }

  /** The row-5 cell of that pair has no outgoing link, while the row-6 cell links up to it. */
  lemma StackedLinks()
    ensures forall n :: !Linked(StackedAtRowSix(), Location(0, 5), n)
    ensures Linked(StackedAtRowSix(), Location(0, 6), Location(0, 5))
  {
  }

  /** Searching that pair from the row-5 cell first starts a second search at the row-6 cell. */
  lemma StackedRoots()
    ensures RootsOf(StackedAtRowSix(), [Location(0, 5), Location(0, 6)]) == [Location(0, 5), Location(0, 6)]
  {
    var a, b := Location(0, 5), Location(0, 6);
    var order := [a, b];
    StackedLinks();
    NoLinkNoReach(StackedAtRowSix(), a, b);
    assert order[..1] == [a] && order[..1][..0] == [];
  }

  /**
   * Labelled from the row-5 cell first, the pair is not connected, although the
   * row-6 cell can walk up to the row-5 cell: the one-way link splits them.
   */
  lemma OneWayLinkSplits(comps: map<Location, int>)
    requires Labels(StackedAtRowSix(), comps, RootsOf(StackedAtRowSix(), [Location(0, 5), Location(0, 6)]))
    ensures Reach(StackedAtRowSix(), Location(0, 6), Location(0, 5))
    ensures IsConnected(BoardGraph(comps), Location(0, 5), Location(0, 6)) == Ok(false)
  {
    StackedRoots();
    StackedLinks();
    ReachSelf(StackedAtRowSix(), Location(0, 5));
    ReachStep(StackedAtRowSix(), Location(0, 6), Location(0, 5), Location(0, 5));
  }

  /** A new search from `root`, labelled `id`, that no earlier search reached. */
  method Search(placed: map<Location, PlacedTile>, order: seq<Location>, root: Location, visited: set<Location>,
                comps: map<Location, int>, id: int, ghost roots: seq<Location>)
    returns (visited': set<Location>, comps': map<Location, int>, ghost roots': seq<Location>)
    requires root in order && root in placed && root !in visited && visited == comps.Keys
    requires id == |roots| && PartialLabels(placed, comps, roots, order)
    ensures visited' == comps'.Keys && comps.Keys <= comps'.Keys && root in comps'
    ensures roots' == roots + [root] && PartialLabels(placed, comps', roots', order)
  {
    visited', comps' := DfsUtil(placed, root, visited, comps, id);
    SearchExtends(placed, order, comps, comps', roots, root);
    roots' := roots + [root];
  }

  /** Once every location of `order` is labelled, the labelling is complete. */
  lemma AllSearched(placed: map<Location, PlacedTile>, comps: map<Location, int>, roots: seq<Location>, order: seq<Location>)
    requires PartialLabels(placed, comps, roots, order)
    requires (forall l :: l in order <==> l in placed) && forall j :: 0 <= j < |order| ==> order[j] in comps
    ensures Labels(placed, comps, roots)
  {
    forall l | l in placed
      ensures l in comps
    {
      var j :| 0 <= j < |order| && order[j] == l;
    }
  }

  /** What holds of the labels once the searches from `roots`, taken from `order`, have finished. */
  ghost predicate PartialLabels(placed: map<Location, PlacedTile>, comps: map<Location, int>, roots: seq<Location>, order: seq<Location>)
  {
    && comps.Keys <= placed.Keys
    && (forall l <- comps.Keys :: 0 <= comps[l] < |roots| && Reach(placed, roots[comps[l]], l))
    && (forall k :: 0 <= k < |roots| ==> roots[k] in comps && comps[roots[k]] == k && roots[k] in order)
    && Closed(placed, comps)
  }

  /** A finished search from an unlabelled location of `order` extends the labelling by one root. */
  lemma SearchExtends(placed: map<Location, PlacedTile>, order: seq<Location>, before: map<Location, int>,
                      after: map<Location, int>, roots: seq<Location>, root: Location)
    requires PartialLabels(placed, before, roots, order) && root in order && root !in before
    requires before.Keys <= after.Keys <= placed.Keys && root in after
    requires forall l <- before.Keys :: after[l] == before[l]
    requires forall l <- after.Keys - before.Keys :: after[l] == |roots| && Reach(placed, root, l)
    requires forall l, n :: l in after.Keys - before.Keys && Linked(placed, l, n) ==> n in after
    ensures PartialLabels(placed, after, roots + [root], order)
  {
    var roots' := roots + [root];
    SearchKeepsClosed(placed, before, after, |roots|);
    forall l <- after.Keys
      ensures 0 <= after[l] < |roots'| && Reach(placed, roots'[after[l]], l)
    {
      if l in before {
        assert roots'[after[l]] == roots[before[l]];
      }
    }
    forall k | 0 <= k < |roots'|
      ensures roots'[k] in after && after[roots'[k]] == k && roots'[k] in order
    {
      if k < |roots| {
        assert roots'[k] == roots[k] && roots[k] in before;
      }
    }
  }

  /** A finished search labelled `id` keeps the labelling closed. */
  lemma SearchKeepsClosed(placed: map<Location, PlacedTile>, before: map<Location, int>, after: map<Location, int>, id: int)
    requires Closed(placed, before) && forall l <- before.Keys :: before[l] < id
    requires before.Keys <= after.Keys && forall l <- before.Keys :: after[l] == before[l]
    requires forall l <- after.Keys - before.Keys :: after[l] == id
    requires forall l, n :: l in after.Keys - before.Keys && Linked(placed, l, n) ==> n in after
    ensures Closed(placed, after)
  {
    forall a, b | a in after && Linked(placed, a, b)
      ensures b in after && after[b] <= after[a]
    {
      if a in before {
        assert b in before;
      } else {
        assert b in after;
        assert after[b] <= id;
      }
    }
  }

  /** Whether two locations carry the same label; an unlabelled location is an error. */
  function IsConnected(g: BoardGraph, a: Location, b: Location): (r: Result<bool>)
    ensures r.Err? <==> a !in g.components || b !in g.components
    ensures r.Err? ==> r.error == InvalidLocation
  {
    if a !in g.components then Err(InvalidLocation)
    else if b !in g.components then Err(InvalidLocation)
    else Ok(g.components[a] == g.components[b])
  }

  lemma IsConnectedSymmetric(g: BoardGraph, a: Location, b: Location)
    ensures IsConnected(g, a, b) == IsConnected(g, b, a)
  {
  }

  lemma IsConnectedReflexive(g: BoardGraph, a: Location)
    ensures IsConnected(g, a, a) == if a in g.components then Ok(true) else Err(InvalidLocation)
  {
  }

  /**
   * On a labelled board, two locations are connected exactly when the first
   * search root that reaches one is the first that reaches the other.
   */
  lemma ConnectedIffSameFirstRoot(placed: map<Location, PlacedTile>, g: BoardGraph, roots: seq<Location>, a: Location, b: Location, i: nat, j: nat)
    requires Labels(placed, g.components, roots) && a in placed && b in placed
    requires i < |roots| && Reach(placed, roots[i], a) && forall k :: 0 <= k < i ==> !Reach(placed, roots[k], a)
    requires j < |roots| && Reach(placed, roots[j], b) && forall k :: 0 <= k < j ==> !Reach(placed, roots[k], b)
    ensures IsConnected(g, a, b) == Ok(i == j)
  {
    LabelIsFirstReachingRoot(placed, g.components, roots, a);
    LabelIsFirstReachingRoot(placed, g.components, roots, b);
    assert g.components[a] == i && g.components[b] == j;
  }

  /** Locations that can each walk to the other are connected. */
  lemma MutuallyReachableConnected(placed: map<Location, PlacedTile>, g: BoardGraph, roots: seq<Location>, a: Location, b: Location)
    requires Labels(placed, g.components, roots) && a in placed
    requires Reach(placed, a, b) && Reach(placed, b, a)
    ensures IsConnected(g, a, b) == Ok(true)
  {
    ReachLabels(placed, g.components, a, b);
    ReachLabels(placed, g.components, b, a);
  }

  /** Connected locations are both reachable from one search root. */
  lemma ConnectedShareRoot(placed: map<Location, PlacedTile>, g: BoardGraph, roots: seq<Location>, a: Location, b: Location)
    requires Labels(placed, g.components, roots)
    requires IsConnected(g, a, b) == Ok(true)
    ensures exists r <- roots :: Reach(placed, r, a) && Reach(placed, r, b)
  {
    var r := roots[g.components[a]];
    assert Reach(placed, r, a) && Reach(placed, r, b);
  }
}
