/**
 * Turn and card bookkeeping: the seating cycle Player1, Player2, Player3,
 * Player4, the search for the next participant, each player's cards, the
 * round-robin deal at the start of a game and the end of a turn.
 */
module Turns {
  import opened Errors
  import opened Tiles
  import opened Grid
  import opened Connectivity
  import opened Setup
  import opened Boards

  /** The seat after `p`: Player1, Player2, Player3, Player4, then Player1 again. */
  function Succ(p: Player): Player
  {
    match p
    case Player1 => Player2
    case Player2 => Player3
    case Player3 => Player4
    case Player4 => Player1
  }

  /** The player `k` seats after `p`. */
  function Ahead(p: Player, k: nat): Player
  {
    if k == 0 then p else Succ(Ahead(p, k - 1))
  }

  /** Four seats on is back at the same seat. */
  lemma AheadFour(p: Player)
    ensures Ahead(p, 4) == p
  {
    assert Ahead(p, 4) == Succ(Succ(Succ(Succ(p))));
  }

  /** Taking one more seat is taking the successor. */
  lemma SuccAhead(p: Player, k: nat)
    ensures Succ(Ahead(p, k)) == Ahead(p, k + 1)
  {
  }

  /** Going `x` seats on and then `y` more is going `x + y` seats on. */
  lemma {:induction false} AheadAdd(p: Player, x: nat, y: nat)
    ensures Ahead(Ahead(p, x), y) == Ahead(p, x + y)
  {
    if y > 0 {
      AheadAdd(p, x, y - 1);
      assert Ahead(p, x + y) == Succ(Ahead(p, x + y - 1));
    }
  }

  /** How many seats `b` sits on from `a`, counting from 0 (`a` itself). */
  function Offset(a: Player, b: Player): (d: nat)
    ensures d < 4
    ensures d == 0 <==> a == b
  {
    if b == a then 0
    else if b == Succ(a) then 1
    else if b == Succ(Succ(a)) then 2
    else 3
  }

  /** Going `Offset(a, b)` seats on from `a` reaches `b`. */
  lemma AheadOffset(a: Player, b: Player)
    ensures Ahead(a, Offset(a, b)) == b
  {
    assert Ahead(a, 3) == Succ(Succ(Succ(a)));
  }

  /** The seat `d` places after `start`, for `d` below 4, is at offset `d`. */
  lemma OffsetAhead(start: Player, d: nat)
    requires d < 4
    ensures Offset(start, Ahead(start, d)) == d
  {
    assert Ahead(start, 3) == Succ(Succ(Succ(start)));
  }

  /** How many successor steps lead from `a` to `b`: between 1 and 4, 4 meaning all the way round. */
  function Steps(a: Player, b: Player): (n: nat)
    ensures 1 <= n <= 4
    ensures n == 4 <==> a == b
  {
    if Offset(a, b) == 0 then 4 else Offset(a, b)
  }

  /** Taking `Steps(a, b)` successor steps from `a` reaches `b`. */
  lemma AheadSteps(a: Player, b: Player)
    ensures Ahead(a, Steps(a, b)) == b
  {
    AheadOffset(a, b);
    AheadFour(a);
  }

  /** `k` steps from `a`, for k from 1 to 4, takes exactly `k` steps. */
  lemma StepsAhead(a: Player, k: nat)
    requires 1 <= k <= 4
    ensures Steps(a, Ahead(a, k)) == k
  {
    if k < 4 {
      OffsetAhead(a, k);
    } else {
      AheadFour(a);
    }
  }

  /** A non-empty set of players has a member the fewest steps on from `current`. */
  lemma NearestExists(players: set<Player>, current: Player)
    requires players != {}
    ensures exists p :: p in players && forall q <- players :: Steps(current, p) <= Steps(current, q)
  {
    var p :=
      if Ahead(current, 1) in players then Ahead(current, 1)
      else if Ahead(current, 2) in players then Ahead(current, 2)
      else if Ahead(current, 3) in players then Ahead(current, 3)
      else Ahead(current, 4);
    var q0 :| q0 in players;
    AheadSteps(current, q0);
    assert p in players;
    forall q | q in players
      ensures Steps(current, p) <= Steps(current, q)
    {
      StepsAhead(current, 1);
      StepsAhead(current, 2);
      StepsAhead(current, 3);
      StepsAhead(current, 4);
    }
  }

  /**
   * The next participant after `current`: the member of `players` the fewest
   * successor steps on, which is `current` itself only when no one else plays;
   * an error when no one plays.
   */
  function NextPlayerOf(players: set<Player>, current: Player): (r: Result<Player>)
    ensures r.Err? <==> players == {}
    ensures r.Err? ==> r.error == WrongPlayer
    ensures r.Ok? ==> r.value in players && forall q <- players :: Steps(current, r.value) <= Steps(current, q)
  {
    if players == {} then Err(WrongPlayer)
    else
      NearestExists(players, current);
      var p :| p in players && forall q <- players :: Steps(current, p) <= Steps(current, q);
      Ok(p)
  }

  /** The next player is the current one exactly when the current one plays alone. */
  lemma NextPlayerIsCurrent(players: set<Player>, current: Player)
    ensures NextPlayerOf(players, current) == Ok(current) <==> players == {current}
  {
    var r := NextPlayerOf(players, current);
    if r == Ok(current) {
      forall q | q in players
        ensures q == current
      {
        assert Steps(current, q) >= 4;
      }
    }
    if players == {current} {
      assert r.value in players;
    }
  }

  /**
   * Steps through the seats after `current` until one is taken by a participant,
   * and gives up after going all the way round.
   */
  method NextPlayer(players: set<Player>, current: Player) returns (r: Result<Player>)
    ensures r == NextPlayerOf(players, current)
  {
    var player := current;
    ghost var k := 0;
    while true
      invariant 0 <= k < 4 && player == Ahead(current, k)
      invariant forall j :: 1 <= j <= k ==> Ahead(current, j) !in players
      decreases 4 - k
    {
      SuccAhead(current, k);
      player := Succ(player);
      k := k + 1;
      if player in players {
        StepsAhead(current, k);
        NearestIsAhead(players, current, k);
        return Ok(player);
      }
      if player == current {
        forall q ensures q !in players {
          assert q == Ahead(current, Steps(current, q));
        }
        return Err(WrongPlayer);
      }
    }
  }

  /** The first taken seat after `current`, at step `k`, is the next player. */
  lemma NearestIsAhead(players: set<Player>, current: Player, k: nat)
    requires 1 <= k <= 4 && Ahead(current, k) in players
    requires forall j :: 1 <= j < k ==> Ahead(current, j) !in players
    ensures NextPlayerOf(players, current) == Ok(Ahead(current, k))
  {
    var p := NextPlayerOf(players, current).value;
    StepsAhead(current, k);
    assert Ahead(current, Steps(current, p)) in players;
    assert Steps(current, p) == k;
  }

  /** The offsets from `d` to 3 of the seats after `start` taken by participants, in increasing order. */
  function TakenOffsets(players: set<Player>, start: Player, d: nat): (offs: seq<nat>)
    requires d <= 4
    ensures forall i :: 0 <= i < |offs| ==> d <= offs[i] < 4 && Ahead(start, offs[i]) in players
    ensures forall i, j :: 0 <= i < j < |offs| ==> offs[i] < offs[j]
    ensures forall e :: d <= e < 4 && Ahead(start, e) in players ==> e in offs
    decreases 4 - d
  {
    if d == 4 then []
    else if Ahead(start, d) in players then
      var rest := TakenOffsets(players, start, d + 1);
      var offs := [d] + rest;
      assert forall i :: 0 < i < |offs| ==> offs[i] == rest[i - 1];
      offs
    else
      TakenOffsets(players, start, d + 1)
  }

  /** The participants in the order turns pass among them, beginning with `start`. */
  function Order(players: set<Player>, start: Player): (o: seq<Player>)
    requires start in players
    ensures var offs := TakenOffsets(players, start, 0);
      |o| == |offs| && forall i :: 0 <= i < |o| ==> o[i] == Ahead(start, offs[i])
    ensures |o| > 0 && o[0] == start
  {
    var offs := TakenOffsets(players, start, 0);
    var j :| 0 <= j < |offs| && offs[j] == 0;
    assert offs[0] <= offs[j];
    seq(|offs|, i requires 0 <= i < |offs| => Ahead(start, offs[i]))
  }

  /** Turn order lists every participant, and each once. */
  lemma OrderLists(players: set<Player>, start: Player)
    requires start in players
    ensures var o := Order(players, start);
      Distinct(o) && forall q :: q in o <==> q in players
  {
    var o := Order(players, start);
    var offs := TakenOffsets(players, start, 0);
    forall i, j | 0 <= i < j < |o|
      ensures o[i] != o[j]
    {
      OffsetAhead(start, offs[i]);
      OffsetAhead(start, offs[j]);
    }
    forall q | q in players
      ensures q in o
    {
      AheadOffset(start, q);
      var e := Offset(start, q);
      var i :| 0 <= i < |offs| && offs[i] == e;
      assert o[i] == q;
    }
  }

  /** The position after `k` in a cycle of `n`. */
  function Following(k: nat, n: nat): nat
  {
    if k + 1 < n then k + 1 else 0
  }

  /**
   * The next player after the k-th participant in turn order is the (k+1)-th,
   * and after the last one it is `start` again: turns cycle through the order.
   */
  lemma NextInOrder(players: set<Player>, start: Player, k: nat)
    requires start in players && k < |Order(players, start)|
    ensures var o := Order(players, start);
      NextPlayerOf(players, o[k]) == Ok(o[Following(k, |o|)])
  {
    var offs := TakenOffsets(players, start, 0);
    assert 0 in offs;
    NextTakenOffset(players, start, offs, k);
  }

  /**
   * Over the sorted seat offsets `offs` of the participants, counted from `start`,
   * the participant after the one at `offs[k]` is the one at the next offset,
   * wrapping round to `start`.
   */
  lemma NextTakenOffset(players: set<Player>, start: Player, offs: seq<nat>, k: nat)
    requires k < |offs| && 0 in offs
    requires forall i :: 0 <= i < |offs| ==> offs[i] < 4 && Ahead(start, offs[i]) in players
    requires forall i, j :: 0 <= i < j < |offs| ==> offs[i] < offs[j]
    requires forall e :: 0 <= e < 4 && Ahead(start, e) in players ==> e in offs
    ensures NextPlayerOf(players, Ahead(start, offs[k])) ==
      Ok(Ahead(start, offs[Following(k, |offs|)]))
  {
    var n := |offs|;
    var a := Ahead(start, offs[k]);
    assert offs[0] == 0 by {
      var z :| 0 <= z < n && offs[z] == 0;
      assert offs[0] <= offs[z];
    }
    // the seat offset of the next participant, counted from `start`
    var e := if k + 1 < n then offs[k + 1] else 4;
    var m := e - offs[k];
    AheadAdd(start, offs[k], m);
    AheadFour(start);
    assert Ahead(a, m) == Ahead(start, offs[Following(k, n)]);
    forall j | 1 <= j < m
      ensures Ahead(a, j) !in players
    {
      AheadAdd(start, offs[k], j);
      GapUntaken(offs, k, offs[k] + j);
    }
    NearestIsAhead(players, a, m);
  }

  /** In a strictly increasing sequence nothing lies strictly between two neighbours. */
  lemma GapUntaken(offs: seq<nat>, k: nat, f: nat)
    requires forall i, j :: 0 <= i < j < |offs| ==> offs[i] < offs[j]
    requires k < |offs| && offs[k] < f && (k + 1 < |offs| ==> f < offs[k + 1])
    ensures f !in offs
  {
    forall t | 0 <= t < |offs|
      ensures offs[t] != f
    {
      if t < k {
        assert offs[t] < offs[k];
      } else if t > k {
        assert offs[k + 1] <= offs[t];
      }
    }
  }

  /** Where turn `i` falls in a cycle of `n` participants: 0, 1, ..., n-1, 0, 1, ... */
  function SeatAfter(i: nat, n: nat): (k: nat)
    requires n > 0
    ensures k < n
  {
    if i == 0 then 0 else Following(SeatAfter(i - 1, n), n)
  }

  /** The player whose turn it is after `i` ends of turn, beginning with `start`. */
  function TurnAfter(players: set<Player>, start: Player, i: nat): (p: Player)
    requires start in players
    ensures p in players
  {
    if i == 0 then start else NextPlayerOf(players, TurnAfter(players, start, i - 1)).value
  }

  /**
   * Ending turns walks the participants in turn order: after `i` ends of turn it
   * is the turn of the participant at seat `SeatAfter(i, n)` of the order.
   */
  lemma {:induction false} TurnsFollowOrder(players: set<Player>, start: Player, i: nat)
    requires start in players
    ensures TurnAfter(players, start, i) == Order(players, start)[SeatAfter(i, |Order(players, start)|)]
  {
    if i > 0 {
      var j := i - 1;
      TurnsFollowOrder(players, start, j);
      var o := Order(players, start);
      NextInOrder(players, start, SeatAfter(j, |o|));
      TurnStep(players, start, j, |o|);
    }
  }

  /** One more end of turn takes one more seat. */
  lemma TurnStep(players: set<Player>, start: Player, j: nat, n: nat)
    requires start in players && n > 0
    ensures TurnAfter(players, start, j + 1) == NextPlayerOf(players, TurnAfter(players, start, j)).value
    ensures SeatAfter(j + 1, n) == Following(SeatAfter(j, n), n)
  {
  }

  /** The next player after the one at seat `SeatAfter(i, n)` is the one at seat `SeatAfter(i + 1, n)`. */
  lemma NextSeat(players: set<Player>, start: Player, i: nat)
    requires start in players
    ensures var o := Order(players, start);
      NextPlayerOf(players, o[SeatAfter(i, |o|)]) == Ok(o[SeatAfter(i + 1, |o|)])
  {
    var o := Order(players, start);
    NextInOrder(players, start, SeatAfter(i, |o|));
    TurnStep(players, start, i, |o|);
  }

  /** Seats run 0, 1, ..., n-1 for the first n turns and come back to 0 after n. */
  lemma {:induction false} SeatAfterCycle(i: nat, n: nat)
    requires 0 < n && i <= n
    ensures SeatAfter(i, n) == if i < n then i else 0
  {
    if i > 0 {
      SeatAfterCycle(i - 1, n);
    }
  }

  /** Seats repeat every `n` turns. */
  lemma {:induction false} SeatAfterPeriod(i: nat, n: nat)
    requires 0 < n
    ensures SeatAfter(i + n, n) == SeatAfter(i, n)
  {
    if i == 0 {
      SeatAfterCycle(n, n);
    } else {
      var j := i - 1;
      SeatAfterPeriod(j, n);
      assert SeatAfter(j + n + 1, n) == Following(SeatAfter(j + n, n), n);
    }
  }

  /** After whole rounds the turn is back at seat 0. */
  lemma {:induction false} SeatAfterRounds(q: nat, n: nat)
    requires 0 < n
    ensures SeatAfter(q * n, n) == 0
  {
    if q > 0 {
      var p := q - 1;
      SeatAfterRounds(p, n);
      SeatAfterPeriod(p * n, n);
      assert p * n + n == q * n;
    }
  }

  /** After as many ends of turn as there are participants it is `start`'s turn again. */
  lemma TurnsCycle(players: set<Player>, start: Player)
    requires start in players
    ensures TurnAfter(players, start, |Order(players, start)|) == start
  {
    var o := Order(players, start);
    TurnsFollowOrder(players, start, |o|);
    SeatAfterCycle(|o|, |o|);
  }

  /** All items, in their declaration order: the deck before it is shuffled. */
  const AllItems: seq<Item> := [
    Chest, Gnome, Dragon, Unicorn, Ghost, Candle, Cat, Keys,
    Book, Spider, Crown, Sword, Goblet, Mouse, Ring, Potion,
    Beetle, Owl, Gem, Genie, Bat, Sack, Helmet, Lizard
  ]

  /** The position of an item in the declaration order. */
  function ItemNumber(x: Item): nat
  {
    match x
    case Chest => 0 case Gnome => 1 case Dragon => 2 case Unicorn => 3
    case Ghost => 4 case Candle => 5 case Cat => 6 case Keys => 7
    case Book => 8 case Spider => 9 case Crown => 10 case Sword => 11
    case Goblet => 12 case Mouse => 13 case Ring => 14 case Potion => 15
    case Beetle => 16 case Owl => 17 case Gem => 18 case Genie => 19
    case Bat => 20 case Sack => 21 case Helmet => 22 case Lizard => 23
  }

  /** The deck lists every item exactly once. */
  lemma AllItemsComplete()
    ensures |AllItems| == 24 && Distinct(AllItems) && forall x: Item :: x in AllItems
  {
    assert forall i :: 0 <= i < 24 ==> ItemNumber(AllItems[i]) == i;
    forall x: Item
      ensures x in AllItems
    {
      assert AllItems[ItemNumber(x)] == x;
    }
  }

  /**
   * The cards dealt to seat `k` of `n` when `deck` is dealt round-robin from seat
   * 0: the cards at the positions whose turn falls on seat `k`, in deck order.
   */
  function Hand(deck: seq<Item>, n: nat, k: nat): (h: seq<Item>)
    requires n > 0
    ensures |h| <= |deck| && forall x <- h :: x in deck
  {
    if |deck| == 0 then []
    else
      var m := |deck| - 1;
      Hand(deck[..m], n, k) + (if SeatAfter(m, n) == k then [deck[m]] else [])
  }

  /** A hand holds exactly the cards at the positions whose turn falls on its seat. */
  lemma {:induction false} HandMembers(deck: seq<Item>, n: nat, k: nat)
    requires n > 0
    ensures forall x :: x in Hand(deck, n, k) <==> exists i :: 0 <= i < |deck| && SeatAfter(i, n) == k && deck[i] == x
  {
    if |deck| > 0 {
      var m := |deck| - 1;
      HandMembers(deck[..m], n, k);
      assert forall i :: 0 <= i < m ==> deck[..m][i] == deck[i];
    }
  }

  /** Dealing one more card extends exactly the hand of the seat whose turn it is. */
  lemma HandGrows(deck: seq<Item>, n: nat, k: nat, i: nat)
    requires n > 0 && i < |deck|
    ensures Hand(deck[..i + 1], n, k) == Hand(deck[..i], n, k) + (if SeatAfter(i, n) == k then [deck[i]] else [])
  {
    assert deck[..i + 1][..i] == deck[..i];
  }

  /**
   * With a deck of distinct items, every item lands in exactly one hand: the
   * hand of the seat whose turn its position falls on.
   */
  lemma DealPartitions(deck: seq<Item>, n: nat, i: nat, k: nat)
    requires n > 0 && Distinct(deck) && i < |deck| && k < n
    ensures deck[i] in Hand(deck, n, k) <==> SeatAfter(i, n) == k
  {
    HandMembers(deck, n, k);
    if deck[i] in Hand(deck, n, k) {
      var j :| 0 <= j < |deck| && SeatAfter(j, n) == k && deck[j] == deck[i];
    }
  }

  /**
   * Round-robin dealing is fair: the first `SeatAfter(|deck|, n)` seats get one
   * card more than the last seat, and every other seat as many as the last.
   */
  lemma {:induction false} HandSizes(deck: seq<Item>, n: nat, k: nat)
    requires k < n
    ensures |Hand(deck, n, k)| == |Hand(deck, n, n - 1)| + if k < SeatAfter(|deck|, n) then 1 else 0
  {
    if |deck| > 0 {
      var m := |deck| - 1;
      var s := SeatAfter(m, n);
      assert deck[..m + 1] == deck;
      HandSizes(deck[..m], n, k);
      HandGrows(deck, n, k, m);
      HandGrows(deck, n, n - 1, m);
    }
  }

  /** Any two hands of a round-robin deal differ in size by at most one. */
  lemma HandsBalanced(deck: seq<Item>, n: nat, j: nat, k: nat)
    requires j < n && k < n
    ensures |Hand(deck, n, j)| <= |Hand(deck, n, k)| + 1
  {
    HandSizes(deck, n, j);
    HandSizes(deck, n, k);
  }

  /**
   * Dealing the whole deck to one to four players gives every player as many
   * cards as every other: the 24 cards go round a whole number of times.
   */
  lemma FullDeckEvenlyDealt(deck: seq<Item>, n: nat, j: nat, k: nat)
    requires |deck| == |AllItems| && 1 <= n <= 4 && j < n && k < n
    ensures |Hand(deck, n, j)| == |Hand(deck, n, k)|
  {
    var q := if n == 1 then 24 else if n == 2 then 12 else if n == 3 then 8 else 6;
    assert q * n == |deck|;
    SeatAfterRounds(q, n);
    HandSizes(deck, n, j);
    HandSizes(deck, n, k);
  }

  /**
   * `draw_next` on a player's cards: a current card moves to the found cards and
   * the last hidden card, if any, becomes the current one.
   */
  function Drawn(current: Option<Item>, hidden: seq<Item>, found: set<Item>): (r: (Option<Item>, seq<Item>, set<Item>))
    ensures r.2 == if current.Some? then found + {current.value} else found
    ensures |hidden| > 0 ==> r.0 == Some(hidden[|hidden| - 1]) && r.1 + [hidden[|hidden| - 1]] == hidden
    ensures |hidden| == 0 ==> r.0 == None && r.1 == []
  {
    var found' := if current.Some? then found + {current.value} else found;
    if |hidden| > 0 then (Some(hidden[|hidden| - 1]), hidden[..|hidden| - 1], found')
    else (None, hidden, found')
  }

  /** Every card a player holds, counted with repetition. */
  function HeldCards(current: Option<Item>, hidden: seq<Item>, found: set<Item>): multiset<Item>
  {
    multiset(hidden) + (if current.Some? then multiset{current.value} else multiset{}) + multiset(found)
  }

  /** No card is held twice. */
  predicate NoCardTwice(current: Option<Item>, hidden: seq<Item>, found: set<Item>)
  {
    && Distinct(hidden)
    && (forall x <- hidden :: x !in found)
    && (current.Some? ==> current.value !in hidden && current.value !in found)
  }

  /** Drawing keeps every card the player holds. */
  lemma DrawnKeepsCards(current: Option<Item>, hidden: seq<Item>, found: set<Item>)
    requires NoCardTwice(current, hidden, found)
    ensures var (c, h, f) := Drawn(current, hidden, found);
      HeldCards(c, h, f) == HeldCards(current, hidden, found)
  {
    var (c, h, f) := Drawn(current, hidden, found);
    if |hidden| > 0 {
      assert hidden == h + [hidden[|hidden| - 1]];
      assert multiset(hidden) == multiset(h) + multiset{hidden[|hidden| - 1]};
    }
    if current.Some? {
      assert multiset(f) == multiset(found) + multiset{current.value};
    }
  }

  /** Drawing keeps no card held twice. */
  lemma DrawnNoCardTwice(current: Option<Item>, hidden: seq<Item>, found: set<Item>)
    requires NoCardTwice(current, hidden, found)
    ensures var (c, h, f) := Drawn(current, hidden, found);
      NoCardTwice(c, h, f)
  {
    var (c, h, f) := Drawn(current, hidden, found);
    if |hidden| > 0 {
      assert hidden == h + [hidden[|hidden| - 1]];
    }
  }

  /** A player's cards: the one being looked for, those still to come, and those found. */
  class Cards {
    var currentCard: Option<Item>
    var hiddenCards: seq<Item>
    var foundCards: set<Item>

    constructor ()
      ensures currentCard == None && hiddenCards == [] && foundCards == {}
    {
      currentCard := None;
      hiddenCards := [];
      foundCards := {};
    }

    /** The current card is found: it joins the found cards and the last hidden card is drawn. */
    method DrawNext()
      modifies this
      ensures (currentCard, hiddenCards, foundCards) == Drawn(old(currentCard), old(hiddenCards), old(foundCards))
    {
      if currentCard.Some? {
        foundCards := foundCards + {currentCard.value};
      }
      if |hiddenCards| > 0 {
        currentCard := Some(hiddenCards[|hiddenCards| - 1]);
        hiddenCards := hiddenCards[..|hiddenCards| - 1];
      } else {
        currentCard := None;
      }
    }
  }

  /** Different players hold different card objects. */
  ghost predicate Unaliased(cards: map<Player, Cards>)
  {
    forall p, q :: p in cards && q in cards && p != q ==> cards[p] != cards[q]
  }

  /** One new, empty set of cards per participant. */
  method NewHands(participants: set<Player>) returns (cards: map<Player, Cards>)
    ensures cards.Keys == participants && Unaliased(cards)
    ensures forall p <- cards.Keys :: fresh(cards[p])
    ensures forall p <- cards.Keys :: cards[p].currentCard == None && cards[p].hiddenCards == [] && cards[p].foundCards == {}
  {
    cards := map[];
    var remaining := participants;
    while remaining != {}
      invariant remaining <= participants && cards.Keys == participants - remaining && Unaliased(cards)
      invariant forall p <- cards.Keys :: fresh(cards[p])
      invariant forall p <- cards.Keys :: cards[p].currentCard == None && cards[p].hiddenCards == [] && cards[p].foundCards == {}
      decreases remaining
    {
      var p :| p in remaining;
      var c := new Cards();
      cards := cards[p := c];
      remaining := remaining - {p};
    }
  }

  /** The turn passes from the player at seat `SeatAfter(i, n)` of the order to the one at the next seat. */
  method PassTurn(participants: set<Player>, starting: Player, current: Player, ghost i: nat) returns (next: Player)
    requires starting in participants
    requires current == Order(participants, starting)[SeatAfter(i, |Order(participants, starting)|)]
    ensures next == Order(participants, starting)[SeatAfter(i + 1, |Order(participants, starting)|)]
  {
    var r := NextPlayer(participants, current);
    NextSeat(participants, starting, i);
    next := r.value;
  }

  /** Deals the `i`-th card of `deck` to the player at seat `SeatAfter(i, n)` of the order `o`. */
  method GiveCard(cards: map<Player, Cards>, ghost o: seq<Player>, deck: seq<Item>, i: nat, current: Player)
    requires |o| > 0 && i < |deck| && Distinct(o) && Unaliased(cards)
    requires forall k :: 0 <= k < |o| ==> o[k] in cards
    requires current == o[SeatAfter(i, |o|)]
    requires forall k :: 0 <= k < |o| ==> cards[o[k]].hiddenCards == Hand(deck[..i], |o|, k)
    modifies {cards[current]}`hiddenCards
    ensures forall k :: 0 <= k < |o| ==> cards[o[k]].hiddenCards == Hand(deck[..i + 1], |o|, k)
  {
    var hand := cards[current];
    hand.hiddenCards := hand.hiddenCards + [deck[i]];
    forall k | 0 <= k < |o|
      ensures cards[o[k]].hiddenCards == Hand(deck[..i + 1], |o|, k)
    {
      HandGrows(deck, |o|, k, i);
    }
  }

  /**
   * Deals `deck` round-robin: each card goes to the player whose turn it is,
   * beginning with `starting`, and the turn passes to the next player.
   */
  method Deal(cards: map<Player, Cards>, participants: set<Player>, starting: Player, deck: seq<Item>)
    requires cards.Keys == participants && starting in participants && Unaliased(cards)
    requires forall p <- cards.Keys :: cards[p].hiddenCards == []
    modifies (set p | p in cards :: cards[p])`hiddenCards
    ensures var o := Order(participants, starting);
      forall k :: 0 <= k < |o| ==> cards[o[k]].hiddenCards == Hand(deck, |o|, k)
  {
    ghost var o := Order(participants, starting);
    ghost var n := |o|;
    assert Distinct(o) by {
      OrderLists(participants, starting);
    }
    var current := starting;
    for i := 0 to |deck|
      invariant current == o[SeatAfter(i, n)]
      invariant forall k :: 0 <= k < n ==> cards[o[k]].hiddenCards == Hand(deck[..i], n, k)
    {
      GiveCard(cards, o, deck, i, current);
      current := PassTurn(participants, starting, current, i);
    }
    assert deck[..|deck|] == deck;
  }

  /** Every player draws a first card. */
  method DrawAll(cards: map<Player, Cards>)
    requires Unaliased(cards)
    modifies set p | p in cards :: cards[p]
    ensures forall p <- cards.Keys ::
      (cards[p].currentCard, cards[p].hiddenCards, cards[p].foundCards)
        == Drawn(old(cards[p].currentCard), old(cards[p].hiddenCards), old(cards[p].foundCards))
  {
    var remaining := cards.Keys;
    while remaining != {}
      invariant remaining <= cards.Keys
      invariant forall p <- cards.Keys - remaining ::
        (cards[p].currentCard, cards[p].hiddenCards, cards[p].foundCards)
          == Drawn(old(cards[p].currentCard), old(cards[p].hiddenCards), old(cards[p].foundCards))
      invariant forall p <- remaining ::
        cards[p].currentCard == old(cards[p].currentCard) && cards[p].hiddenCards == old(cards[p].hiddenCards)
        && cards[p].foundCards == old(cards[p].foundCards)
      decreases remaining
    {
      var p :| p in remaining;
      cards[p].DrawNext();
      remaining := remaining - {p};
    }
  }

  /**
   * Fresh cards for every participant, with `deck` dealt round-robin from
   * `starting` and every player's first card drawn.
   */
  method DealtHands(participants: set<Player>, starting: Player, deck: seq<Item>) returns (cards: map<Player, Cards>)
    requires starting in participants
    ensures cards.Keys == participants && Unaliased(cards)
    ensures forall p <- cards.Keys :: fresh(cards[p])
    ensures var o := Order(participants, starting);
      forall k :: 0 <= k < |o| ==>
        (cards[o[k]].currentCard, cards[o[k]].hiddenCards, cards[o[k]].foundCards) == Drawn(None, Hand(deck, |o|, k), {})
  {
    cards := NewHands(participants);
    Deal(cards, participants, starting, deck);
    DrawAll(cards);
  }

  datatype TurnPhase = Move | InsertTile

  /** A game: the board, each participant's cards, whose turn it is and what they do next. */
  class Model {
    var board: Board
    var players: map<Player, Cards>
    var currentPlayer: Player
    var turnPhase: TurnPhase

    /**
     * A new game: a new board, the shuffled deck dealt round-robin from the
     * starting player, each player drawing a first card, and the starting player
     * to insert a tile.
     */
    constructor (participants: set<Player>, starting: Player, freeRotations: seq<Rotation>, tilePerm: seq<nat>,
                 freeOrder: seq<Location>, draw: nat -> Rotation, labelOrder: seq<Location>, deckPerm: seq<nat>)
      requires starting in participants
      requires |freeRotations| == |FreeTiles| && IsPermutation(tilePerm, |FreeTiles|)
      requires IsFreeOrder(freeOrder) && Fair(draw)
      requires Distinct(labelOrder) && forall l :: l in labelOrder <==> InGrid(l)
      requires IsPermutation(deckPerm, |AllItems|)
      ensures fresh(board) && board.Valid()
      ensures NewTiles(board.placed, board.spare, participants, freeRotations, tilePerm, freeOrder)
      ensures Labels(board.placed, board.graph.components, RootsOf(board.placed, labelOrder))
      ensures players.Keys == participants && Unaliased(players)
      ensures var deck, o := Shuffle(AllItems, deckPerm), Order(participants, starting);
        forall k :: 0 <= k < |o| ==>
          (players[o[k]].currentCard, players[o[k]].hiddenCards, players[o[k]].foundCards) == Drawn(None, Hand(deck, |o|, k), {})
      ensures currentPlayer == starting && turnPhase == InsertTile
    {
      var b := new Board(participants, freeRotations, tilePerm, freeOrder, draw, labelOrder);
      var cards := DealtHands(participants, starting, Shuffle(AllItems, deckPerm));
      board := b;
      players := cards;
      currentPlayer := starting;
      turnPhase := InsertTile;
    }

    /** The turn passes to the next participant; nothing else changes. */
    method EndTurn()
      requires players.Keys != {}
      modifies this
      ensures currentPlayer == NextPlayerOf(old(players).Keys, old(currentPlayer)).value
      ensures board == old(board) && players == old(players) && turnPhase == old(turnPhase)
    {
      var next := NextPlayer(players.Keys, currentPlayer);
      currentPlayer := next.value;
    }
  }

  /** Starting a game fails when the starting player does not take part. */
  method NewModel(participants: set<Player>, starting: Player, freeRotations: seq<Rotation>, tilePerm: seq<nat>,
                  freeOrder: seq<Location>, draw: nat -> Rotation, labelOrder: seq<Location>, deckPerm: seq<nat>)
    returns (r: Result<Model>)
    requires |freeRotations| == |FreeTiles| && IsPermutation(tilePerm, |FreeTiles|)
    requires IsFreeOrder(freeOrder) && Fair(draw)
    requires Distinct(labelOrder) && forall l :: l in labelOrder <==> InGrid(l)
    requires IsPermutation(deckPerm, |AllItems|)
    ensures r.Err? <==> starting !in participants
    ensures r.Err? ==> r.error == WrongPlayer
    ensures r.Ok? ==> fresh(r.value) && r.value.currentPlayer == starting && r.value.turnPhase == InsertTile
    ensures r.Ok? ==> r.value.board.Valid()
    ensures r.Ok? ==> NewTiles(r.value.board.placed, r.value.board.spare, participants, freeRotations, tilePerm, freeOrder)
    ensures r.Ok? ==> Labels(r.value.board.placed, r.value.board.graph.components, RootsOf(r.value.board.placed, labelOrder))
    ensures r.Ok? ==> r.value.players.Keys == participants && Unaliased(r.value.players)
    ensures r.Ok? ==> var deck, o := Shuffle(AllItems, deckPerm), Order(participants, starting);
      forall k :: 0 <= k < |o| ==>
        (r.value.players[o[k]].currentCard, r.value.players[o[k]].hiddenCards, r.value.players[o[k]].foundCards)
          == Drawn(None, Hand(deck, |o|, k), {})
  {
    if starting !in participants {
      return Err(WrongPlayer);
    }
    var m := new Model(participants, starting, freeRotations, tilePerm, freeOrder, draw, labelOrder, deckPerm);
    return Ok(m);
  }
}
