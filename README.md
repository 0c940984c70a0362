# Labyrinth board and turn logic in Dafny

This project models the core of a terminal version of the board game
Labyrinth: the 7x7 board of path tiles, the spare tile that is pushed into a
row or column, the moves of player tokens along connected paths, and the turn
and card bookkeeping of a game for one to four players.

Each source file has its own part of the model:

- `errors.dfy`: the error kinds the code reports, with `Result` and `Option` wrappers.
- `tiles.dfy`: items, players, tiles, rotations and the openings of a rotated tile.
- `grid.dfy`: locations, the row-major cell listing, and the fixed and free tile pools.
  It also holds the edge rule, neighbours, the players view and the item at a location.
- `insertion.dfy`: pushing the spare into a line, as pure functions. Lemmas here cover
  where insertion succeeds, what shifts, and what is conserved.
- `connectivity.dfy`: component labelling by depth-first search from every cell, and
  the connectivity query over the labels.
- `setup.dfy`: the parts a new board is built from. These are the fixed tiles with
  start tokens, the free locations, shuffles, pairing, and the redraw loop that turns
  free tiles until they pass the edge rule.
- `board.dfy`: the `Board` class. Its constructor builds a new board. Its methods
  insert the spare (the line shifts, proved equal to the pure functions) and move a
  token.
- `model.dfy`: seat order and `next_player`, round-robin dealing, the `Cards` class
  and the `Model` class (new game, end of turn).

Randomness is a parameter throughout:

- A shuffle is a permutation of indices.
- The first rotation of each free tile is a sequence.
- Redraws read a rotation source `draw: nat -> Rotation` at increasing positions. The
  redraw loop is proved to end for any source in which every rotation keeps recurring.

Hash-map iteration order is a parameter as well:

- The order in which cells are labelled is a parameter.
- So is which token of a shared tile the players view keeps.

The model follows the code where it is unusual, and proves what the code then does:

- Right and down neighbours are only looked for while the coordinate plus one is
  below 6. So the link between rows 5 and 6, and between columns 5 and 6, is one-way.
  Reachability is therefore directed. The connectivity lemmas state what equal labels
  mean in that setting.
- The labelling is computed when the board is created and never again. After an
  insertion, moves are judged on the labels of the board as it was created.
- Insertion checks the edge rule only for the tile pushed in. `EdgeRuleNotPreserved`
  exhibits a board where a shifted tile ends up opening off the edge.
- Two tokens on one tile collapse to one entry of the players view.
  `PlayersViewHidesSharedToken` states when a player then disappears from the view.

## Model

| member | source | states |
|---|---|---|
| Tiles.Openings | src/board.rs:140-177 | the openings a placed tile shows keep the tile's marking; which side opens where is fixed by the rotation, as `RotationsAreQuarterTurns` states |
| Tiles.RotationsAreQuarterTurns | src/board.rs:140-177 | rotation Zero leaves the openings alone; 90, 180 and 270 degrees are one, two and three clockwise quarter turns; four quarter turns are the identity |
| Tiles.NextIsQuarterTurn | src/board.rs:140-177 | stepping the rotation once turns the effective openings a quarter turn clockwise, and four steps return to the starting rotation |
| Tiles.RotationKeepsMarkingAndOpenCount | src/board.rs:140-177 | rotating a tile keeps its marking and its number of openings |
| Grid.Locations | src/board.rs:659-673 | the location listing has 49 entries and contains exactly the cells of the 7x7 grid |
| Grid.LocationsRowMajor | src/board.rs:659-673 | the listing is sorted by row and then by column, so no cell appears twice |
| Grid.FixedLocations | src/board.rs:470-583 | the 16 fixed-tile locations, in the order the fixed tiles are listed |
| Grid.FixedLocationsAreEvenCells | src/board.rs:470-583 | a location holds a fixed tile exactly when it is in the grid and both coordinates are even |
| Grid.TilePlacementOk | src/board.rs:798-819 | the corner-then-edge case analysis accepts a placement exactly when no opening of the rotated tile leads off the board |
| Grid.EdgeRuleCases | src/board.rs:798-819 | which openings are rejected at each of the four corners and four edges, and that every interior placement is accepted |
| Grid.FixedTilesPassEdgeRule | src/board.rs:470-583 | every fixed tile at rotation Zero passes the edge rule at its own location |
| Grid.FreeTilesHaveClosedSide | src/board.rs:586-657 | every free tile has at least one closed side |
| Grid.FittingRotation | src/board.rs:892-896 | a tile with a closed side has a rotation that passes the edge rule anywhere off the corners, so the redraw loop has something to find |
| Grid.Linked | src/board.rs:675-754 | `at` links to `n` when both hold tiles, `n` is the cell above, below, left or right, and the two facing sides are open; a link down or right is only found when its target lies before row or column 6 |
| Grid.LinkedAdjacent | src/board.rs:675-751 | a link joins orthogonally adjacent cells, and never leads down into row 6 or right into column 6 |
| Grid.DirectionLinks | src/board.rs:680-751 | each of the four direction checks lists at most one cell, on its own side, and together they list exactly the linked cells |
| Grid.Neighbors | src/board.rs:675-754 | an error exactly when the cell holds no tile; otherwise the listed cells are exactly the linked ones, at most four, in the order up, down, left, right |
| Grid.NeighborsIntoLastRowOrColumn | src/board.rs:716-745 | a neighbour in row 6 (column 6) is only reported for a cell that is itself in row 6 (column 6) |
| Grid.NeighborsAsymmetricAtRowSix | src/board.rs:716-727 | with facing openings, the row-6 cell lists the row-5 cell above it, but the row-5 cell does not list the row-6 cell below it |
| Grid.NeighborsAsymmetricAtColumnSix | src/board.rs:734-745 | the same one-way link between columns 5 and 6 |
| Grid.PlayersView | src/board.rs:756-762 | the view has an entry exactly for the tiles holding a token, and each entry is one of that tile's tokens |
| Grid.PlayersViewHidesSharedToken | src/board.rs:756-762 | a player whose only tile also holds a token that the view keeps instead appears nowhere in the view |
| Grid.ViewShowsPlayerOnce | src/board.rs:756-762 | when each token stands on at most one tile, the view shows each player at most once |
| Grid.ItemAt | src/board.rs:822-832 | an error exactly for a cell with no tile; otherwise the item marking of the tile when there is one, and nothing for a start marking or no marking |
| Insertion.Line | src/board.rs:916-928 | the seven cells of a line in push order: the push-in cell first and the push-out cell last |
| Insertion.LineDistinct | src/board.rs:959-966 | the cells of a line are all different |
| Insertion.Slide | src/board.rs:943-969 | a slide keeps exactly the cells of the map; `SlideAt` states its contents cell by cell |
| Insertion.SlideAt | src/board.rs:943-969 | after a slide the same cells are present; the push-in cell holds the inserted tile, each later cell the tile from the cell before it, and cells off the line are unchanged |
| Insertion.SlideCharacterized | src/board.rs:943-969 | any map that agrees with a slide cell by cell is that slide |
| Insertion.EntrySlide | src/board.rs:1004-1008 | on the board, a line is selected exactly at the twelve entry points, and the selected line starts at the entry location |
| Insertion.EntrySlideStartsAtEntry | src/board.rs:999-1014 | the line chosen for an entry location starts at that location |
| Insertion.GridShiftable | src/board.rs:943-966 | on a full board every line the shift walks is present, so the shift never unwraps a missing tile |
| Insertion.Rotated | src/board.rs:909-973 | success exactly when the rotated spare passes the edge rule at the push-in cell and the push-out cell holds a tile; a failing rotation gives the placement error; on success the same cells are present and the pushed-out tile is the new spare |
| Insertion.RotatedSucceeds | src/board.rs:943-969 | when both checks pass, the result is the slide with the rotated spare, carrying the pushed-out tile's players, at the push-in cell |
| Insertion.SpareInserted | src/board.rs:999-1014 | a location that selects no line gives the location error; on success the same cells are present |
| Insertion.InsertionOutcome | src/board.rs:999-1014 | on a full board, insertion succeeds exactly at the twelve entry points when the rotated spare passes the edge rule there. An entry point with a failing rotation gives the placement error. Any other location gives an error |
| Insertion.InsertionKeepsBoard | src/board.rs:909-973 | a successful insertion keeps a full board full and keeps each token on at most one tile |
| Insertion.InsertionShifts | src/board.rs:909-973 | a successful insertion shifts every cell of the line one step from the push-in end. The old spare at the requested rotation enters with the pushed-out tile's tokens, and the pushed-out tile becomes the spare. Nothing off the line changes |
| Insertion.SlideSourceTokens | src/board.rs:948-949 | after a slide each cell carries the tokens of its source cell; the push-in cell takes those of the pushed-out cell |
| Insertion.SlideSourceInjective | src/board.rs:959-966 | different cells have different source cells |
| Insertion.SlideKeepsTokensUnique | src/board.rs:948-969 | a slide that carries the pushed-out tokens to the push-in cell keeps each token on at most one tile |
| Insertion.InsertionKeepsTokensUnique | src/board.rs:909-973 | a successful insertion keeps each token on at most one tile |
| Insertion.BagAgree | src/board.rs:959-966 | maps that agree on the listed cells give the same multiset |
| Insertion.BagUpdate | src/board.rs:965 | replacing one listed cell's tile swaps its contribution to the multiset |
| Insertion.BagSlide | src/board.rs:943-969 | sliding trades the pushed-out tile's contribution for the inserted tile's |
| Insertion.InsertionConserves | src/board.rs:909-973 | a successful insertion keeps the set of cells, the multiset of tiles on the board plus the spare, and the multiset (and count) of tokens |
| Insertion.SlideConserves | src/board.rs:943-969 | sliding keeps the cells and trades the pushed-out tile for the pushed-in one; it keeps the tokens when the pushed-in tile carries the pushed-out tokens |
| Insertion.EdgeRuleWitness | src/board.rs:798-819 | a full board on which every tile passes the edge rule |
| Insertion.EdgeRuleNotPreserved | src/board.rs:936-941 | on that board, pushing column 1 down succeeds and leaves a tile in row 6 that opens off the bottom edge: only the pushed-in tile is checked |
| Connectivity.ReachSelf | src/board.rs:1032-1046 | every cell reaches itself |
| Connectivity.ReachStep | src/board.rs:1032-1046 | a link followed by a walk is a walk |
| Connectivity.PathLabels | src/board.rs:1032-1046 | in a closed labelling, walking never leads to a larger label |
| Connectivity.ReachLabels | src/board.rs:1032-1046 | in a closed labelling, a reachable cell is labelled no larger than the cell it is reached from |
| Connectivity.Labels | src/board.rs:1048-1075 | a labelling by searches from `roots` never has the same root twice |
| Connectivity.LabelIsFirstReachingRoot | src/board.rs:1062-1073 | a cell's label is the index of the first search root that reaches it |
| Connectivity.DfsUtil | src/board.rs:1032-1046 | the search labels `at` and all it newly reaches with `id`, keeps earlier labels, labels only cells reachable from `at`, and leaves every link of a newly labelled cell leading to a labelled cell |
| Connectivity.LinkedFrom | src/board.rs:1042 | the unwrapped neighbours of a placed cell are exactly the cells it links to, all placed |
| Connectivity.FromBoard | src/board.rs:1048-1075 | every cell is labelled; the search roots are exactly `RootsOf` the cell order, that is each cell of the order, in turn, that no earlier root reaches; the label of a cell is the index of a root that reaches it; each root carries its own index; and the labelling is closed under links |
| Connectivity.RootsOf | src/board.rs:1061-1072 | the roots are cells of the order, and the first cell of a non-empty order is always the first root |
| Connectivity.RootsStep | src/board.rs:1062-1072 | one more cell of the order starts a new search exactly when no earlier root reaches it |
| Connectivity.LabelledIffCovered | src/board.rs:1062-1072 | during the outer loop a cell is visited exactly when one of the roots so far reaches it, so the `visited` test is the reachability test of `RootsOf` |
| Connectivity.LabelsDetermined | src/board.rs:1048-1075 | two labellings with the same roots are equal, so the cell order alone fixes the graph |
| Connectivity.NoLinkNoReach | src/board.rs:1032-1046 | a cell with no outgoing link reaches no other cell |
| Connectivity.StackedLinks | src/board.rs:675-729 | for two vertical straights at rows 5 and 6, the row-5 cell has no outgoing link while the row-6 cell links up to it |
| Connectivity.StackedRoots | src/board.rs:1062-1072 | searching that pair from the row-5 cell first starts a second search at the row-6 cell |
| Connectivity.OneWayLinkSplits | src/board.rs:1048-1094 | labelled from the row-5 cell first, the pair is not connected, although the row-6 cell can walk to the row-5 cell |
| Connectivity.Search | src/board.rs:1063-1072 | one new search from an unlabelled cell extends the partial labelling by one root |
| Connectivity.SearchExtends | src/board.rs:1063-1072 | a finished search with the next label keeps the partial-labelling invariant with its start cell as the next root |
| Connectivity.AllSearched | src/board.rs:1062-1075 | once every cell of the order is labelled, the labelling is complete |
| Connectivity.SearchKeepsClosed | src/board.rs:1032-1046 | a finished search keeps the labelling closed under links |
| Connectivity.IsConnected | src/board.rs:1079-1094 | an error exactly when either cell is unlabelled; otherwise whether their labels are equal |
| Connectivity.IsConnectedSymmetric | src/board.rs:1079-1094 | the query gives the same answer with the two cells swapped |
| Connectivity.IsConnectedReflexive | src/board.rs:1079-1094 | a labelled cell is connected to itself; an unlabelled one is an error |
| Connectivity.ConnectedIffSameFirstRoot | src/board.rs:1079-1094 | two cells are connected exactly when the first root reaching one is the first root reaching the other |
| Connectivity.MutuallyReachableConnected | src/board.rs:1079-1094 | cells that can each walk to the other are connected |
| Connectivity.ConnectedShareRoot | src/board.rs:1079-1094 | connected cells are both reachable from one search root |
| Setup.StartPlayers | src/board.rs:841-858 | a start tile carries its player's token when that player is in the game, and no token otherwise |
| Setup.FixedPlaced | src/board.rs:835-860 | a fixed tile is placed at rotation Zero with the start tokens its marking gives |
| Setup.FixedPlacement | src/board.rs:835-861 | the 16 fixed tiles, placed, in their listed order at their locations |
| Setup.StartTilesDistinct | src/board.rs:470-583 | no two fixed tiles are the start tile of the same player |
| Setup.FixedLocationsDistinct | src/board.rs:470-583 | no two fixed tiles share a location |
| Setup.Unclaimed | src/board.rs:873-880 | the filtered cells are exactly the listed cells no fixed tile occupies, without repeats when the listing has none |
| Setup.FixedPlacementKeys | src/board.rs:873-880 | the locations the fixed placement occupies are exactly the fixed locations |
| Setup.FreeLocationsCount | src/board.rs:882-883 | there are 33 free cells, each once, one fewer than the 34 free tiles: the count the code asserts |
| Setup.DistinctCard | src/board.rs:882-883 | a sequence without repeats has as many distinct elements as entries |
| Setup.Shuffle | src/board.rs:885-886 | a shuffle keeps the length and the elements, and keeps elements distinct |
| Setup.ShuffleIsPermutation | src/board.rs:885-886 | rearranging by a permutation of indices keeps exactly the same elements |
| Setup.ShuffledFreeLocations | src/board.rs:886 | any shuffle of the free cells is an arrangement of exactly the free cells |
| Setup.Zip | src/board.rs:889 | pairing stops at the shorter list and pairs entry k with entry k |
| Setup.Collect | src/board.rs:899 | the collected map has exactly the listed locations; a location listed once, or listed last, keeps its tile |
| Setup.FitRotations | src/board.rs:892-896 | every paired tile ends up passing the edge rule, only rotations change, and a tile that already passed keeps its rotation |
| Boards.Board.constructor | src/board.rs:834-906 | the new board is full, each token is on at most one tile, fixed and free tiles and the spare are placed as the shuffles say, and the graph is the labelling of the finished tile map whose roots are `RootsOf` the label order |
| Boards.Board.RotateCommon | src/board.rs:909-973 | the tile map and spare become exactly those of the pure line shift, or stay unchanged with its error; the graph is unchanged |
| Boards.Board.RotateLeft | src/board.rs:975-978 | the reverse row shift, as the pure line shift gives it |
| Boards.Board.RotateRight | src/board.rs:980-983 | the forward row shift, as the pure line shift gives it |
| Boards.Board.RotateUp | src/board.rs:985-988 | the reverse column shift, as the pure line shift gives it |
| Boards.Board.RotateDown | src/board.rs:990-993 | the forward column shift, as the pure line shift gives it |
| Boards.Board.InsertSpare | src/board.rs:999-1014 | the board becomes exactly what the pure insertion gives, or stays with its error; it stays valid and the graph is not recomputed |
| Boards.Board.MovePlayer | src/board.rs:764-794 | the tile map becomes exactly what `Moved` gives, or stays with its error; the spare and graph are unchanged and the board stays valid |
| Boards.ShownAt | src/board.rs:767-772 | the location the view shows the player at, present exactly when the view shows the player |
| Boards.Relocated | src/board.rs:774-790 | the same cells are present, the token is on the destination, and it is off the starting tile when that is another tile |
| Boards.MoveKeepsTokensUnique | src/board.rs:774-790 | after a move the tiles are where they were, the token is on the destination and nowhere else, and every other token stays put |
| Boards.Moved | src/board.rs:764-794 | player-not-found exactly when the view does not show the player. Success exactly when the shown tile is connected to the destination, and then the token is relocated. No-path exactly when the labels differ. Invalid-location exactly when the player is shown and the destination is unlabelled |
| Boards.ShiftCells | src/board.rs:951-966 | the walk along the line gives each cell after the first the tile of the cell before it, and adds the push-out cell |
| Boards.ShiftStep | src/board.rs:959-966 | one iteration of the shifting loop keeps its invariant: the cells walked so far hold their new tiles and the carried tile is the one for the next cell |
| Boards.ShiftLine | src/board.rs:943-968 | taking off the push-out tile, carrying the push-in cell's tile along the line and putting down the pushed-in tile gives exactly the slide |
| Boards.LabelGrid | src/board.rs:903 | the graph labels exactly the board's cells and is the labelling whose roots are `RootsOf` the cell order |
| Boards.NewPlacement | src/board.rs:835-902 | the assembled tile map is full, each token is on at most one tile, and the tiles are placed as the shuffles say |
| Boards.FreePlacement | src/board.rs:863-896 | free tile `tilePerm[k]` without tokens goes to `freeOrder[k]` and passes the edge rule there, keeping its first rotation if that passes. The last shuffled free tile is the spare |
| Boards.FreePairsFit | src/board.rs:889-896 | every paired free tile has a closed side and stands off the corners, so the redraw loop ends |
| Boards.CollectDistinctKeys | src/board.rs:899 | with distinct locations every pair's tile is in the collected map |
| Boards.CollectAppend | src/board.rs:899 | collecting a chained list is the union of the two collected parts, the later part winning; it is how the new board's single collect over fixed then free pairs is split into the fixed and free maps |
| Boards.CollectLast | src/board.rs:899 | collecting a non-empty list is collecting all but its last pair and then adding that pair, so a later pair wins |
| Boards.FixedMap | src/board.rs:835-861 | the collected fixed tiles cover exactly the fixed locations with their placed tiles and start tokens, and no start marking twice |
| Boards.FreeMap | src/board.rs:889-899 | the collected free tiles cover exactly the free cells, carry no tokens, and each pair's tile is in place |
| Boards.AssembledBoard | src/board.rs:898-902 | fixed and free tiles together cover the grid, each token on at most one tile, with the fixed tiles unchanged |
| Turns.AheadFour | src/model.rs:110-115 | four successor steps return to the same seat |
| Turns.AheadAdd | src/model.rs:110-115 | successor steps add up |
| Turns.Offset | src/model.rs:110-115 | the number of successor steps from one seat to another is below 4, and 0 exactly for the same seat |
| Turns.AheadOffset | src/model.rs:110-115 | that many steps from the first seat lead to the second |
| Turns.OffsetAhead | src/model.rs:110-115 | fewer than four steps from a seat are counted back exactly |
| Turns.Steps | src/model.rs:110-121 | the number of steps the search takes to reach a seat is between 1 and 4, and 4 exactly for the starting seat |
| Turns.AheadSteps | src/model.rs:110-121 | that many steps lead to the seat |
| Turns.StepsAhead | src/model.rs:110-121 | one to four steps from a seat are counted back exactly |
| Turns.NearestExists | src/model.rs:109-124 | a non-empty set of players has a member the fewest steps on |
| Turns.NextPlayerOf | src/model.rs:106-125 | an error exactly when no one plays; otherwise a participant that is the fewest successor steps on from the current player |
| Turns.NextPlayerIsCurrent | src/model.rs:117-122 | the next player is the current one exactly when the current one plays alone |
| Turns.NextPlayer | src/model.rs:106-125 | the loop returns exactly `NextPlayerOf` |
| Turns.NearestIsAhead | src/model.rs:109-119 | the first taken seat after the current one is the next player |
| Turns.TakenOffsets | src/model.rs:110-119 | the step counts of the taken seats, in increasing order, each taken and every taken one listed |
| Turns.Order | src/model.rs:106-125 | the participants in seat order from the starting player, who comes first |
| Turns.OrderLists | src/model.rs:106-125 | the turn order lists every participant exactly once |
| Turns.NextInOrder | src/model.rs:106-125 | the next player after the k-th in turn order is the (k+1)-th, and after the last it is the first again |
| Turns.NextTakenOffset | src/model.rs:109-119 | over the sorted taken step counts, the participant after the one at count k is at the next count, wrapping round |
| Turns.GapUntaken | src/model.rs:117-119 | no taken step count lies between two neighbouring ones |
| Turns.SeatAfter | src/model.rs:44-53 | the seat a turn falls on is below the number of participants |
| Turns.TurnAfter | src/model.rs:75-78 | whoever has the turn after any number of ends of turn is a participant |
| Turns.TurnsFollowOrder | src/model.rs:75-78 | after i ends of turn it is the turn of the participant at seat i (round the order) |
| Turns.TurnStep | src/model.rs:75-78 | one more end of turn moves one seat on |
| Turns.NextSeat | src/model.rs:52 | the next player after seat i of the order is at seat i + 1 |
| Turns.SeatAfterCycle | src/model.rs:44-53 | seats run 0 to n-1 in the first n turns and return to 0 after n |
| Turns.SeatAfterPeriod | src/model.rs:44-53 | seats repeat every n turns |
| Turns.SeatAfterRounds | src/model.rs:44-53 | after whole rounds the turn is back at the first seat |
| Turns.TurnsCycle | src/model.rs:75-78 | after as many ends of turn as there are participants it is the starting player's turn again |
| Turns.AllItemsComplete | src/model.rs:41 | the deck has 24 cards, every item exactly once |
| Turns.Hand | src/model.rs:41-53 | a hand is no longer than the deck and holds only cards of the deck |
| Turns.HandMembers | src/model.rs:44-53 | a hand holds exactly the cards at the deck positions whose turn falls on its seat |
| Turns.HandGrows | src/model.rs:45-50 | dealing one more card extends exactly the hand of the seat whose turn it is |
| Turns.DealPartitions | src/model.rs:44-53 | with distinct cards, every card is in exactly one hand: the one of the seat its position falls on |
| Turns.HandSizes | src/model.rs:38-53 | the first seats get one card more than the last seat, the others as many |
| Turns.HandsBalanced | src/model.rs:38-40 | any two hands differ in size by at most one |
| Turns.FullDeckEvenlyDealt | src/model.rs:38-53 | the 24 cards dealt to one to four players give every player the same number |
| Turns.Drawn | src/model.rs:97-103 | a current card joins the found cards; the last hidden card becomes current and leaves the hidden cards, or there is no current card when none is hidden |
| Turns.DrawnKeepsCards | src/model.rs:97-103 | drawing keeps every card the player holds |
| Turns.DrawnNoCardTwice | src/model.rs:97-103 | drawing keeps no card held twice |
| Turns.Cards.constructor | src/model.rs:88-94 | new cards are empty |
| Turns.Cards.DrawNext | src/model.rs:97-103 | the player's cards become exactly `Drawn` of the old ones |
| Turns.NewHands | src/model.rs:33-36 | one new, separate, empty set of cards per participant |
| Turns.PassTurn | src/model.rs:52 | the turn passes from seat i of the order to seat i + 1 |
| Turns.GiveCard | src/model.rs:46-50 | dealing card i adds it to the hand of seat i, keeping all hands equal to the round-robin hands of the first i + 1 cards |
| Turns.Deal | src/model.rs:44-53 | after the loop, the participant at seat k of the order holds the round-robin hand of seat k |
| Turns.DrawAll | src/model.rs:55-57 | every player's cards become `Drawn` of their old state |
| Turns.DealtHands | src/model.rs:33-57 | fresh cards for every participant, each holding `Drawn` of its round-robin hand |
| Turns.Model.constructor | src/model.rs:23-65 | a valid new board whose tiles and spare are placed as the shuffles say and whose graph is the labelling with roots `RootsOf` the label order. Each participant's cards are the round-robin hand of the shuffled deck with its first card drawn. The starting player inserts a tile first |
| Turns.Model.EndTurn | src/model.rs:75-78 | the turn passes to the next participant, and nothing else changes |
| Turns.NewModel | src/model.rs:23-65 | a wrong-player error exactly when the starting player does not take part. Otherwise a new game: the board as `Board.constructor` builds it (tiles, spare and graph), each participant's round-robin hand with its first card drawn, the starting player to move, and the insert-tile phase |

## Left out

- Rendering, the terminal controller, the program entry point and emoji output: src/controller.rs, src/main.rs and src/emoji.rs are not part of this model.
- Error payloads: the messages and locations carried by src/errors.rs are not modelled; each error is a bare kind.
- The random number generator is not modelled. Shuffles are permutation parameters; first rotations are a sequence; redraws come from a rotation source that every rotation keeps recurring in.
- Hash-map and hash-set iteration order is not modelled; the cell order for labelling and the token the players view keeps are parameters.
- `current_player_cards` and `current_player_cards_mut` (src/model.rs:67-73) are plain map lookups and have no counterpart.
- Panics are not modelled. Panicking calls (`unwrap` on a missing tile or player) become preconditions: `LineComplete` for the line shifts, the board being valid for `InsertSpare` and `MovePlayer`, and a non-empty player map for `EndTurn`.
- Insertion.Rotated: requires the whole line to be present whenever the push-out cell is, even where the code reports the placement error before touching the line; this only matters on a board that is not full, and `GridShiftable` shows every full board meets it.
- Boards.Board.constructor: takes the free-cell arrangement as a parameter; `Setup.ShuffledFreeLocations` shows that any shuffle of the free cells is one.
- Setup.FitRotations: termination is proved only for a rotation source in which every rotation keeps coming up; a source that stops producing a fitting rotation would loop forever, as the code would.
- Boards.Board.InsertSpare: does not promise that the edge rule still holds for shifted tiles, because the code does not re-check it (see `Insertion.EdgeRuleNotPreserved`).
- Boards.Board.MovePlayer: does not promise that the destination is still reachable on the current tiles, because the labelling it consults is the one computed when the board was created.
- Shared ownership: the `Model` owns its `Board` and its `Cards` objects. Nothing outside it holds a reference, so aliasing between games is not modelled.
