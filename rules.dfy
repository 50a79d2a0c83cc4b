/** The turn and effect state machine of the game: the session record and
    one transition per handler, each with its chain of delayed steps taken
    as one atomic step. */
module Rules {
  import opened Cards
  import opened Deck

  datatype Actor = Player | Computer

  function Opponent(a: Actor): Actor {
    if a == Player then Computer else Player
  }

  /** A wild card that has left its hand and waits for a colour. */
  datatype Pending = Pending(card: Card, from: Actor)

  /** The state cells of one session, and whether a call of computerPlay
      is scheduled on a timer (`computerDue`). */
  datatype Game = Game(
    deck: seq<Card>,
    playerHand: seq<Card>,
    computerHand: seq<Card>,
    discardPile: seq<Card>,
    currentColor: Option<Color>,
    direction: int,
    currentPlayer: Actor,
    gameStarted: bool,
    pendingWildCard: Option<Pending>,
    winner: Option<Actor>,
    computerDue: bool)
  {
    function Hand(a: Actor): seq<Card> {
      if a == Player then playerHand else computerHand
    }

    function WithHand(a: Actor, h: seq<Card>): (r: Game)
      ensures r.Hand(a) == h && r.Hand(Opponent(a)) == Hand(Opponent(a))
      ensures r.deck == deck && r.discardPile == discardPile && r.currentColor == currentColor
      ensures r.direction == direction && r.currentPlayer == currentPlayer && r.gameStarted == gameStarted
      ensures r.pendingWildCard == pendingWildCard && r.winner == winner && r.computerDue == computerDue
    {
      if a == Player then this.(playerHand := h) else this.(computerHand := h)
    }

    function Top(): Card
      requires discardPile != []
    {
      discardPile[|discardPile| - 1]
    }

    function PendingCards(): seq<Card> {
      if pendingWildCard.Some? then [pendingWildCard.value.card] else []
    }

    /** Every card the session holds, wherever it is. */
    function AllCards(): seq<Card> {
      deck + playerHand + computerHand + discardPile + PendingCards()
    }
  }

  /** The initial values of the state cells, before the first deal; no
      timer is running. */
  function InitialGame(): Game {
    Game([], [], [], [], None, 1, Player, false, None, None, false)
  }

  /** How many cards a counted draw loop takes: it stops early on an empty deck. */
  function DrawCount(n: nat, deck: seq<Card>): nat {
    if n <= |deck| then n else |deck|
  }

  /** Up to n cards move from the front of the deck to the end of a's hand. */
  function DealTo(g: Game, a: Actor, n: nat): (r: Game)
    ensures r.Hand(a) == g.Hand(a) + g.deck[..DrawCount(n, g.deck)] && r.deck == g.deck[DrawCount(n, g.deck)..]
    ensures r.Hand(Opponent(a)) == g.Hand(Opponent(a)) && r.discardPile == g.discardPile
    ensures r.currentColor == g.currentColor && r.direction == g.direction && r.currentPlayer == g.currentPlayer
    ensures r.gameStarted == g.gameStarted && r.pendingWildCard == g.pendingWildCard && r.winner == g.winner
    ensures r.computerDue == g.computerDue
  {
    var k := DrawCount(n, g.deck);
    g.WithHand(a, g.Hand(a) + g.deck[..k]).(deck := g.deck[k..])
  }

  /** The session invariant. Cards: before the first deal there are none;
      afterwards the session holds exactly the standard deck. A pending wild
      is the player's, on the player's turn, with no winner. A winner's hand
      is empty, and while nobody has won both hands hold cards (or the
      player's last card is the pending wild). */
  ghost predicate Valid(g: Game) {
    && (g.direction == 1 || g.direction == -1)
    && (if g.gameStarted then IsFullDeck(g.AllCards()) && g.discardPile != [] && g.currentColor.Some?
        else g.AllCards() == [] && g.winner.None?)
    && (g.pendingWildCard.Some? ==>
          && g.pendingWildCard.value.from == Player
          && g.pendingWildCard.value.card.color == Wild
          && g.currentPlayer == Player
          && g.winner.None?)
    && (g.winner.Some? ==> g.Hand(g.winner.value) == [])
    && (g.gameStarted && g.winner.None? ==>
          g.computerHand != [] && (g.playerHand != [] || g.pendingWildCard.Some?))
  }

  /** The computer has nothing to play and nothing to draw. */
  predicate ComputerStuck(g: Game) {
    && g.discardPile != [] && g.deck == []
    && forall c :: c in g.computerHand ==> !IsPlayable(c, g.Top(), g.currentColor)
  }

  /** The scheduling invariant. A call of computerPlay is pending only in a
      live game where the computer is to move and no wild waits; and in a
      live game where the computer is to move, such a call is pending unless
      the computer is stuck. */
  predicate ComputerScheduled(g: Game) {
    && (g.computerDue ==>
          g.gameStarted && g.winner.None? && g.currentPlayer == Computer && g.pendingWildCard.None?)
    && (g.gameStarted && g.winner.None? && g.currentPlayer == Computer && !g.computerDue ==>
          ComputerStuck(g))
  }

  lemma InitialGameValid()
    ensures Valid(InitialGame()) && ComputerScheduled(InitialGame()) && !InitialGame().gameStarted
  {
  }

  // ----- startGame -----

  /** startGame: the first 7 cards to the player, the next 7 to the computer,
      the 15th card alone on the discard pile setting the colour. The
      direction and the pending wild are not reset. */
  function StartGame(g: Game, newDeck: seq<Card>): Game
    requires |newDeck| >= 15
  {
    g.(deck := newDeck[15..], playerHand := newDeck[..7], computerHand := newDeck[7..14],
       discardPile := [newDeck[14]], currentColor := Some(newDeck[14].color),
       gameStarted := true, currentPlayer := Player, winner := None)
  }

  lemma StartGameDeals(g: Game, newDeck: seq<Card>)
    requires Valid(g) && ComputerScheduled(g) && IsFullDeck(newDeck)
    requires !g.gameStarted || g.winner.Some?
    ensures var s := StartGame(g, newDeck);
      && |s.playerHand| == 7 && |s.computerHand| == 7 && |s.deck| == 93
      && s.playerHand + s.computerHand + s.discardPile + s.deck == newDeck
      && s.currentColor == Some(s.Top().color)
      && s.currentPlayer == Player && s.winner.None? && s.pendingWildCard.None?
      && multiset(s.AllCards()) == multiset(newDeck)
      && Valid(s) && ComputerScheduled(s) && !s.computerDue
  {
    var s := StartGame(g, newDeck);
    StartGameKeepsValid(g, newDeck);
    assert Valid(s) && ComputerScheduled(s);
    StartGameLayout(g, newDeck);
  }

  /** Where the deal puts the cards of the new deck. */
  lemma StartGameLayout(g: Game, newDeck: seq<Card>)
    requires |newDeck| >= 15 && g.pendingWildCard.None?
    ensures var s := StartGame(g, newDeck);
      && |s.playerHand| == 7 && |s.computerHand| == 7 && |s.deck| == |newDeck| - 15
      && s.playerHand + s.computerHand + s.discardPile + s.deck == newDeck
      && multiset(s.AllCards()) == multiset(newDeck)
  {
    var s := StartGame(g, newDeck);
    assert newDeck == newDeck[..7] + newDeck[7..14] + [newDeck[14]] + newDeck[15..];
    assert s.AllCards() == newDeck[15..] + newDeck[..7] + newDeck[7..14] + [newDeck[14]];
  }

  /** A deal of a full deck, before a game or after a win, starts a session
      that keeps both invariants. */
  lemma StartGameKeepsValid(g: Game, newDeck: seq<Card>)
    requires Valid(g) && ComputerScheduled(g) && IsFullDeck(newDeck)
    requires !g.gameStarted || g.winner.Some?
    ensures var s := StartGame(g, newDeck);
      && s.pendingWildCard.None? && !s.computerDue && Valid(s) && ComputerScheduled(s)
  {
    var s := StartGame(g, newDeck);
    StartGameLayout(g, newDeck);
    SameContentsFullDeck(s.AllCards(), newDeck);
  }

  /** Collections with the same cards are full decks together. */
  lemma SameContentsFullDeck(t: seq<Card>, u: seq<Card>)
    requires multiset(t) == multiset(u) && IsFullDeck(u)
    ensures IsFullDeck(t)
  {
    assert |t| == |multiset(t)| == |multiset(u)| == |u|;
  }

  // ----- playCard -----

  /** A wild card leaves the hand and waits, with its player, for a colour. */
  function HoldWild(g: Game, card: Card, actor: Actor): (r: Game)
    ensures r.Hand(actor) == RemoveById(g.Hand(actor), card.id) && r.Hand(Opponent(actor)) == g.Hand(Opponent(actor))
    ensures r.pendingWildCard == Some(Pending(card, actor)) && r.discardPile == g.discardPile && r.deck == g.deck
    ensures r.currentColor == g.currentColor && r.direction == g.direction && r.currentPlayer == g.currentPlayer
    ensures r.gameStarted == g.gameStarted && r.winner == g.winner && r.computerDue == g.computerDue
  {
    g.WithHand(actor, RemoveById(g.Hand(actor), card.id)).(pendingWildCard := Some(Pending(card, actor)))
  }

  /** A coloured card leaves the hand for the discard pile and sets the colour. */
  function PutOnDiscard(g: Game, card: Card, actor: Actor): (r: Game)
    ensures r.Hand(actor) == RemoveById(g.Hand(actor), card.id) && r.Hand(Opponent(actor)) == g.Hand(Opponent(actor))
    ensures r.discardPile == g.discardPile + [card] && r.currentColor == Some(card.color) && r.deck == g.deck
    ensures r.direction == g.direction && r.currentPlayer == g.currentPlayer
    ensures r.gameStarted == g.gameStarted && r.pendingWildCard == g.pendingWildCard && r.winner == g.winner
    ensures r.computerDue == g.computerDue
  {
    g.WithHand(actor, RemoveById(g.Hand(actor), card.id))
     .(discardPile := g.discardPile + [card], currentColor := Some(card.color))
  }

  /** reverse flips the direction; draw2 deals up to two cards to the opponent. */
  function ApplyEffect(g: Game, card: Card, actor: Actor): (r: Game)
    ensures var k := if card.value == Draw2 then DrawCount(2, g.deck) else 0;
      && r.Hand(Opponent(actor)) == g.Hand(Opponent(actor)) + g.deck[..k] && r.deck == g.deck[k..]
    ensures r.Hand(actor) == g.Hand(actor) && r.discardPile == g.discardPile && r.currentColor == g.currentColor
    ensures r.direction == if card.value == Reverse then -g.direction else g.direction
    ensures r.currentPlayer == g.currentPlayer
    ensures r.gameStarted == g.gameStarted && r.pendingWildCard == g.pendingWildCard && r.winner == g.winner
    ensures r.computerDue == g.computerDue
  {
    if card.value == Reverse then g.(direction := -g.direction)
    else if card.value == Draw2 then DealTo(g, Opponent(actor), 2)
    else g
  }

  /** The delayed step of playCard: the actor wins if its hand held exactly
      one card before the play; otherwise skip and draw2 keep the turn and
      every other card passes it, and a call of computerPlay is scheduled
      when the computer is the one to move. */
  function PassTurn(g: Game, handBefore: nat, card: Card, actor: Actor): (r: Game)
    ensures r.playerHand == g.playerHand && r.computerHand == g.computerHand && r.deck == g.deck
    ensures r.discardPile == g.discardPile && r.currentColor == g.currentColor && r.direction == g.direction
    ensures r.gameStarted == g.gameStarted && r.pendingWildCard == g.pendingWildCard
    ensures r.winner == if handBefore == 1 then Some(actor) else g.winner
    ensures r.currentPlayer ==
      if handBefore == 1 then g.currentPlayer
      else if card.value == Skip || card.value == Draw2 then actor
      else Opponent(actor)
    ensures r.computerDue == (g.computerDue || (handBefore != 1 && r.currentPlayer == Computer))
  {
    if handBefore == 1 then g.(winner := Some(actor))
    else
      var next := if card.value == Skip || card.value == Draw2 then actor else Opponent(actor);
      g.(currentPlayer := next, computerDue := g.computerDue || next == Computer)
  }

  /** playCard. */
  function PlayCard(g: Game, card: Card, actor: Actor): Game {
    if card.color == Wild then HoldWild(g, card, actor)
    else PassTurn(ApplyEffect(PutOnDiscard(g, card, actor), card, actor), |g.Hand(actor)|, card, actor)
  }

  lemma HandUnique(g: Game, a: Actor)
    requires UniqueIds(multiset(g.AllCards()))
    ensures UniqueIds(multiset(g.Hand(a)))
  {
    UniqueIdsSub(multiset(g.Hand(a)), multiset(g.AllCards()));
  }

  /** A coloured card leaves the actor's hand for the top of the discard
      pile and sets the colour; reverse flips the direction, draw2 moves up
      to two cards from the deck front to the opponent; nothing else moves. */
  lemma PlayCardEffect(g: Game, card: Card, a: Actor)
    requires card in g.Hand(a) && UniqueIds(multiset(g.Hand(a))) && card.color != Wild
    ensures var n := PlayCard(g, card, a);
      var k := if card.value == Draw2 then DrawCount(2, g.deck) else 0;
      && multiset(n.Hand(a)) == multiset(g.Hand(a)) - multiset{card}
      && |n.Hand(a)| == |g.Hand(a)| - 1
      && n.discardPile == g.discardPile + [card] && n.Top() == card
      && n.currentColor == Some(card.color)
      && n.direction == (if card.value == Reverse then -g.direction else g.direction)
      && n.Hand(Opponent(a)) == g.Hand(Opponent(a)) + g.deck[..k]
      && n.deck == g.deck[k..]
      && n.pendingWildCard == g.pendingWildCard && n.gameStarted == g.gameStarted
  {
    RemoveCardExactly(g.Hand(a), card);
    ColoredPlayShape(g, card, a);
  }

  /** Where a coloured play puts things, read off the steps it is made of. */
  lemma ColoredPlayShape(g: Game, card: Card, a: Actor)
    requires card.color != Wild
    ensures var n := PlayCard(g, card, a);
      var k := if card.value == Draw2 then DrawCount(2, g.deck) else 0;
      && n.Hand(a) == RemoveById(g.Hand(a), card.id)
      && n.discardPile == g.discardPile + [card] && n.currentColor == Some(card.color)
      && n.direction == (if card.value == Reverse then -g.direction else g.direction)
      && n.Hand(Opponent(a)) == g.Hand(Opponent(a)) + g.deck[..k] && n.deck == g.deck[k..]
      && n.pendingWildCard == g.pendingWildCard && n.gameStarted == g.gameStarted
  {
    var placed := PutOnDiscard(g, card, a);
    var effect := ApplyEffect(placed, card, a);
    assert PlayCard(g, card, a) == PassTurn(effect, |g.Hand(a)|, card, a);
  }

  /** Who moves next after a coloured card: the actor wins when it held
      exactly one card, and the turn stays put; otherwise skip and draw2
      give the actor another move and every other card, reverse included,
      passes the turn. */
  lemma PlayCardHandoff(g: Game, card: Card, a: Actor)
    requires card in g.Hand(a) && UniqueIds(multiset(g.Hand(a))) && card.color != Wild
    requires g.winner.None?
    ensures var n := PlayCard(g, card, a);
      && (n.winner == Some(a) <==> n.Hand(a) == [])
      && (n.winner.Some? ==> n.currentPlayer == g.currentPlayer)
      && (n.winner.None? ==>
            n.currentPlayer == if card.value == Skip || card.value == Draw2 then a else Opponent(a))
      && n.computerDue == (g.computerDue || (n.winner.None? && n.currentPlayer == Computer))
  {
    RemoveCardExactly(g.Hand(a), card);
  }

  /** After a coloured play the current-colour rule is the top-card rule: a
      card can follow exactly when it is wild or matches the played card's
      colour or value. */
  lemma PlayableAfterColoredPlay(g: Game, card: Card, a: Actor, next: Card)
    requires card.color != Wild
    ensures var n := PlayCard(g, card, a);
      && n.discardPile != []
      && (IsPlayable(next, n.Top(), n.currentColor) <==>
            next.color == Wild || next.color == card.color || next.value == card.value)
  {
    ColoredPlayShape(g, card, a);
  }

  /** A wild card leaves the hand and is held aside with its player; the
      discard pile, the colour, the deck and the turn stay as they were. */
  lemma PlayWildHolds(g: Game, card: Card, a: Actor)
    requires card in g.Hand(a) && UniqueIds(multiset(g.Hand(a))) && card.color == Wild
    ensures var n := PlayCard(g, card, a);
      && multiset(n.Hand(a)) == multiset(g.Hand(a)) - multiset{card}
      && n.pendingWildCard == Some(Pending(card, a))
      && n.discardPile == g.discardPile && n.currentColor == g.currentColor
      && n.deck == g.deck && n.Hand(Opponent(a)) == g.Hand(Opponent(a))
      && n.currentPlayer == g.currentPlayer && n.winner == g.winner && n.computerDue == g.computerDue
  {
    RemoveCardExactly(g.Hand(a), card);
  }

  lemma DealToConserves(g: Game, a: Actor, n: nat)
    ensures multiset(DealTo(g, a, n).AllCards()) == multiset(g.AllCards())
  {
    var k := DrawCount(n, g.deck);
    assert g.deck == g.deck[..k] + g.deck[k..];
  }

  /** The cards of a session, counted by where they are. */
  lemma AllCardsByHand(g: Game, a: Actor)
    ensures multiset(g.AllCards()) ==
      multiset(g.deck) + multiset(g.Hand(a)) + multiset(g.Hand(Opponent(a)))
      + multiset(g.discardPile) + multiset(g.PendingCards())
  {
  }

  /** Sessions holding the same cards are full decks together. */
  lemma SameCardsFullDeck(g: Game, n: Game)
    requires multiset(n.AllCards()) == multiset(g.AllCards()) && IsFullDeck(g.AllCards())
    ensures IsFullDeck(n.AllCards())
  {
    SameContentsFullDeck(n.AllCards(), g.AllCards());
  }

  /** A card played from a hand of unique ids ends up on the discard pile or
      in the pending slot; no card is created or lost, provided a wild does
      not land on a slot that is already taken. */
  lemma PlayCardConserves(g: Game, card: Card, a: Actor)
    requires card in g.Hand(a) && UniqueIds(multiset(g.Hand(a)))
    requires card.color == Wild ==> g.pendingWildCard.None?
    ensures multiset(PlayCard(g, card, a).AllCards()) == multiset(g.AllCards())
  {
    if card.color == Wild {
      PlayWildConserves(g, card, a);
    } else {
      PlayColoredConserves(g, card, a);
    }
  }

  lemma PlayWildConserves(g: Game, card: Card, a: Actor)
    requires card in g.Hand(a) && UniqueIds(multiset(g.Hand(a)))
    requires card.color == Wild && g.pendingWildCard.None?
    ensures multiset(PlayCard(g, card, a).AllCards()) == multiset(g.AllCards())
  {
    var n := PlayCard(g, card, a);
    PlayWildHolds(g, card, a);
    RemoveCardExactly(g.Hand(a), card);
    AllCardsByHand(g, a);
    AllCardsByHand(n, a);
    assert n.PendingCards() == [card];
    assert multiset(n.Hand(a)) + multiset{card} == multiset(g.Hand(a));
  }

  lemma PlayColoredConserves(g: Game, card: Card, a: Actor)
    requires card in g.Hand(a) && UniqueIds(multiset(g.Hand(a)))
    requires card.color != Wild
    ensures multiset(PlayCard(g, card, a).AllCards()) == multiset(g.AllCards())
  {
    ColoredPlayShape(g, card, a);
    RemoveCardExactly(g.Hand(a), card);
    var k := if card.value == Draw2 then DrawCount(2, g.deck) else 0;
    MoveToDiscardConserves(g, PlayCard(g, card, a), a, card, k);
  }

  /** The bookkeeping of a coloured play: the card moves from a hand to the
      discard pile and k cards from the deck front to the other hand. */
  lemma MoveToDiscardConserves(g: Game, n: Game, a: Actor, card: Card, k: nat)
    requires k <= |g.deck| && n.deck == g.deck[k..]
    requires multiset(n.Hand(a)) + multiset{card} == multiset(g.Hand(a))
    requires n.Hand(Opponent(a)) == g.Hand(Opponent(a)) + g.deck[..k]
    requires n.discardPile == g.discardPile + [card] && n.pendingWildCard == g.pendingWildCard
    ensures multiset(n.AllCards()) == multiset(g.AllCards())
  {
    assert g.deck == g.deck[..k] + g.deck[k..];
    AllCardsByHand(g, a);
    AllCardsByHand(n, a);
  }

  /** In a dealt session no two cards of a hand share an id. */
  lemma ValidHandUnique(g: Game, a: Actor)
    requires Valid(g) && g.gameStarted
    ensures UniqueIds(multiset(g.Hand(a)))
  {
    StandardIdsUnique(multiset(g.AllCards()));
    HandUnique(g, a);
  }

  /** A play by the actor to move, with no winner and nothing pending, keeps
      the invariant and moves cards without creating or losing any. */
  lemma PlayCardPreservesValid(g: Game, card: Card, a: Actor)
    requires Valid(g) && g.gameStarted && g.winner.None? && g.pendingWildCard.None? && !g.computerDue
    requires g.currentPlayer == a && card in g.Hand(a)
    requires card.color == Wild ==> a == Player
    ensures multiset(PlayCard(g, card, a).AllCards()) == multiset(g.AllCards())
    ensures Valid(PlayCard(g, card, a)) && ComputerScheduled(PlayCard(g, card, a))
  {
    ValidHandUnique(g, a);
    PlayCardConserves(g, card, a);
    if card.color == Wild {
      PlayWildKeepsValid(g, card);
      PlayWildHolds(g, card, a);
    } else {
      PlayColoredKeepsValid(g, card, a);
      PlayCardEffect(g, card, a);
      PlayCardHandoff(g, card, a);
    }
  }

  /** The player's wild, held aside on the player's turn, keeps the invariant. */
  lemma PlayWildKeepsValid(g: Game, card: Card)
    requires Valid(g) && g.gameStarted && g.winner.None? && g.pendingWildCard.None?
    requires g.currentPlayer == Player && card in g.playerHand && card.color == Wild
    requires UniqueIds(multiset(g.playerHand))
    requires multiset(PlayCard(g, card, Player).AllCards()) == multiset(g.AllCards())
    ensures Valid(PlayCard(g, card, Player))
  {
    SameCardsFullDeck(g, PlayCard(g, card, Player));
    PlayWildHolds(g, card, Player);
  }

  /** A coloured play by the side to move keeps the invariant. */
  lemma PlayColoredKeepsValid(g: Game, card: Card, a: Actor)
    requires Valid(g) && g.gameStarted && g.winner.None? && g.pendingWildCard.None?
    requires g.currentPlayer == a && card in g.Hand(a) && card.color != Wild
    requires UniqueIds(multiset(g.Hand(a)))
    requires multiset(PlayCard(g, card, a).AllCards()) == multiset(g.AllCards())
    ensures Valid(PlayCard(g, card, a))
  {
    SameCardsFullDeck(g, PlayCard(g, card, a));
    PlayCardEffect(g, card, a);
    PlayCardHandoff(g, card, a);
  }

  // ----- selectWildColor -----

  /** The shared part of selectWildColor: the colour is set, the pending
      card goes on the discard pile, and wild4 deals up to four cards from
      the deck front to the opponent of whoever played it. */
  function ResolveWild(g: Game, color: Color): (r: Game)
    requires g.pendingWildCard.Some?
    ensures var p := g.pendingWildCard.value;
      var k := if p.card.value == Wild4 then DrawCount(4, g.deck) else 0;
      && r.Hand(Opponent(p.from)) == g.Hand(Opponent(p.from)) + g.deck[..k] && r.deck == g.deck[k..]
      && r.Hand(p.from) == g.Hand(p.from) && r.discardPile == g.discardPile + [p.card]
    ensures r.currentColor == Some(color) && r.pendingWildCard.None? && r.direction == g.direction
    ensures r.currentPlayer == g.currentPlayer && r.gameStarted == g.gameStarted && r.winner == g.winner
    ensures r.computerDue == g.computerDue
  {
    var p := g.pendingWildCard.value;
    var chosen := g.(currentColor := Some(color), pendingWildCard := None, discardPile := g.discardPile + [p.card]);
    if p.card.value == Wild4 then DealTo(chosen, Opponent(p.from), 4) else chosen
  }

  /** selectWildColor as the source has it: after the colour is chosen the
      turn passes to the opponent, with no win check, and a call of
      computerPlay is scheduled only when the wild was the computer's. */
  function SelectWildColorAsWritten(g: Game, color: Color): Game {
    if g.pendingWildCard.None? then g
    else
      var from := g.pendingWildCard.value.from;
      ResolveWild(g, color).(currentPlayer := Opponent(from), computerDue := g.computerDue || from == Computer)
  }

  /** selectWildColor with the win check the other play paths have (a player
      whose wild was the last card wins, and the turn stays put), and with
      computerPlay scheduled when the turn passes to the computer. */
  function SelectWildColor(g: Game, color: Color): Game {
    if g.pendingWildCard.None? then g
    else
      var from := g.pendingWildCard.value.from;
      var resolved := ResolveWild(g, color);
      if resolved.Hand(from) == [] then resolved.(winner := Some(from))
      else resolved.(currentPlayer := Opponent(from), computerDue := g.computerDue || Opponent(from) == Computer)
  }

  /** With nothing pending, nothing changes. Otherwise the pending card tops
      the discard pile, the chosen colour holds, wild4 makes the opponent draw
      up to four from the deck front, and the turn passes to the opponent
      unless the wild was its player's last card, which wins. When the turn
      passes to the computer, its move is scheduled. */
  lemma SelectWildColorEffect(g: Game, color: Color)
    ensures g.pendingWildCard.None? ==> SelectWildColor(g, color) == g
    ensures g.pendingWildCard.Some? ==>
      var n := SelectWildColor(g, color);
      var p := g.pendingWildCard.value;
      var k := if p.card.value == Wild4 then DrawCount(4, g.deck) else 0;
      && n.discardPile == g.discardPile + [p.card] && n.currentColor == Some(color)
      && n.pendingWildCard.None?
      && n.Hand(Opponent(p.from)) == g.Hand(Opponent(p.from)) + g.deck[..k]
      && n.Hand(p.from) == g.Hand(p.from)
      && n.deck == g.deck[k..]
      && n.direction == g.direction
      && (g.Hand(p.from) == [] ==>
            n.winner == Some(p.from) && n.currentPlayer == g.currentPlayer && n.computerDue == g.computerDue)
      && (g.Hand(p.from) != [] ==>
            && n.winner == g.winner && n.currentPlayer == Opponent(p.from)
            && n.computerDue == (g.computerDue || p.from == Player))
  {
  }

  /** After a standard wild has taken its colour, a standard card can follow
      exactly when it is wild or has the chosen colour. */
  lemma PlayableAfterColourChoice(g: Game, color: Color, next: Card)
    requires g.pendingWildCard.Some? && IsStandardCard(g.pendingWildCard.value.card)
    requires g.pendingWildCard.value.card.color == Wild && IsStandardCard(next)
    ensures var n := SelectWildColor(g, color);
      && n.discardPile != []
      && (IsPlayable(next, n.Top(), n.currentColor) <==> next.color == Wild || next.color == color)
  {
    var p := g.pendingWildCard.value;
    var n := SelectWildColor(g, color);
    assert n.discardPile == ResolveWild(g, color).discardPile == g.discardPile + [p.card];
    assert n.currentColor == Some(color);
    assert p.card.value == WildValue || p.card.value == Wild4;
    assert next.color != Wild ==> next.value != WildValue && next.value != Wild4;
  }

  /** The pending wild reaches the discard pile; no card is created or lost. */
  lemma ResolveWildConserves(g: Game, color: Color)
    requires g.pendingWildCard.Some?
    ensures multiset(ResolveWild(g, color).AllCards()) == multiset(g.AllCards())
  {
    var p := g.pendingWildCard.value;
    var k := if p.card.value == Wild4 then DrawCount(4, g.deck) else 0;
    PendingToDiscardConserves(g, ResolveWild(g, color), p.from, p.card, k);
  }

  /** The bookkeeping of a colour choice: the pending card moves to the
      discard pile and k cards from the deck front to the other hand. */
  lemma PendingToDiscardConserves(g: Game, n: Game, a: Actor, card: Card, k: nat)
    requires k <= |g.deck| && n.deck == g.deck[k..]
    requires n.Hand(a) == g.Hand(a) && n.Hand(Opponent(a)) == g.Hand(Opponent(a)) + g.deck[..k]
    requires n.discardPile == g.discardPile + [card]
    requires g.pendingWildCard.Some? && g.pendingWildCard.value.card == card && n.pendingWildCard.None?
    ensures multiset(n.AllCards()) == multiset(g.AllCards())
  {
    assert g.deck == g.deck[..k] + g.deck[k..];
    assert g.PendingCards() == [card] && n.PendingCards() == [];
    AllCardsByHand(g, a);
    AllCardsByHand(n, a);
  }

  /** As written, a player whose last card was the wild never wins: the hand
      is empty, nobody has won and the computer is the side to move. */
  lemma WildWinMissedAsWritten(g: Game, color: Color)
    requires Valid(g) && g.pendingWildCard.Some? && g.playerHand == []
    ensures var n := SelectWildColorAsWritten(g, color);
      && n.playerHand == [] && n.winner.None? && n.currentPlayer == Computer
      && !Valid(n)
  {
    assert g.gameStarted by {
      assert g.AllCards() != [];
    }
    var n := SelectWildColorAsWritten(g, color);
    assert n.Hand(Player) == ResolveWild(g, color).Hand(Player);
  }

  /** As written, once the player has chosen the colour of a wild, the
      computer is to move in a live game but no call of computerPlay is
      scheduled, and every player action does nothing: the game freezes.
      Unless the computer is stuck, the scheduling invariant is broken. */
  lemma ComputerNeverCalledAsWritten(g: Game, color: Color)
    requires Valid(g) && ComputerScheduled(g) && g.pendingWildCard.Some?
    ensures var n := SelectWildColorAsWritten(g, color);
      && n.gameStarted && n.winner.None? && n.currentPlayer == Computer && !n.computerDue
      && n.pendingWildCard.None? && n.discardPile != []
      && DrawCard(n) == n && SelectWildColorAsWritten(n, color) == n
      && (forall card :: HandlePlayerCardAsWritten(n, card) == n)
      && (n.deck != [] ==> !ComputerScheduled(n))
  {
    assert g.gameStarted by {
      assert g.AllCards() != [];
    }
  }

  lemma SelectWildColorPreservesValid(g: Game, color: Color)
    requires Valid(g) && ComputerScheduled(g)
    ensures multiset(SelectWildColor(g, color).AllCards()) == multiset(g.AllCards())
    ensures Valid(SelectWildColor(g, color)) && ComputerScheduled(SelectWildColor(g, color))
  {
    if g.pendingWildCard.Some? {
      var n := SelectWildColor(g, color);
      var r := ResolveWild(g, color);
      ResolveWildConserves(g, color);
      assert n.AllCards() == r.AllCards();
      assert g.gameStarted by {
        assert g.AllCards() != [];
      }
      SameCardsFullDeck(g, n);
    }
  }

  // ----- handlePlayerCard -----

  /** handlePlayerCard as the source has it: ignored off turn, after a win
      and for an unplayable card, and otherwise played. */
  function HandlePlayerCardAsWritten(g: Game, card: Card): Game
    requires g.discardPile != []
  {
    if g.currentPlayer != Player || g.winner.Some? then g
    else if !IsPlayable(card, g.Top(), g.currentColor) then g
    else PlayCard(g, card, Player)
  }

  /** handlePlayerCard that also ignores a card while a wild waits for its
      colour. */
  function HandlePlayerCard(g: Game, card: Card): Game
    requires g.discardPile != []
  {
    if g.pendingWildCard.Some? then g else HandlePlayerCardAsWritten(g, card)
  }

  /** A card is accepted exactly on the player's turn, with no winner, no
      pending wild and a playable card; an accepted card is played, any
      other click changes nothing. */
  lemma HandlePlayerCardAccepts(g: Game, card: Card)
    requires g.discardPile != []
    ensures var accepted := g.currentPlayer == Player && g.winner.None? && g.pendingWildCard.None?
                            && IsPlayable(card, g.Top(), g.currentColor);
      && (accepted ==> HandlePlayerCard(g, card) == PlayCard(g, card, Player))
      && (!accepted ==> HandlePlayerCard(g, card) == g)
  {
  }

  lemma HandlePlayerCardPreservesValid(g: Game, card: Card)
    requires Valid(g) && ComputerScheduled(g) && g.gameStarted && card in g.playerHand
    ensures multiset(HandlePlayerCard(g, card).AllCards()) == multiset(g.AllCards())
    ensures Valid(HandlePlayerCard(g, card)) && ComputerScheduled(HandlePlayerCard(g, card))
  {
    HandlePlayerCardAccepts(g, card);
    if g.pendingWildCard.None? && g.currentPlayer == Player && g.winner.None?
       && IsPlayable(card, g.Top(), g.currentColor) {
      PlayCardPreservesValid(g, card, Player);
    } else {
      assert HandlePlayerCard(g, card) == g;
    }
  }

  /** As written, a wild clicked while another waits for its colour takes
      the pending slot: the first wild leaves the session, which then holds
      107 cards. */
  lemma PendingWildLostAsWritten(g: Game, card: Card)
    requires Valid(g) && g.pendingWildCard.Some? && card in g.playerHand && card.color == Wild
    ensures var n := HandlePlayerCardAsWritten(g, card);
      && n.pendingWildCard == Some(Pending(card, Player))
      && multiset(n.AllCards()) + multiset{g.pendingWildCard.value.card} == multiset(g.AllCards())
      && !IsFullDeck(n.AllCards())
  {
    var n := HandlePlayerCardAsWritten(g, card);
    assert g.gameStarted by {
      assert g.AllCards() != [];
    }
    StandardIdsUnique(multiset(g.AllCards()));
    HandUnique(g, Player);
    assert n == HoldWild(g, card, Player);
    HoldWildReplacesPending(g, card, Player);
    assert g.PendingCards() == [g.pendingWildCard.value.card];
    assert |multiset(n.AllCards())| == |multiset(g.AllCards())| - 1;
  }

  /** Holding a wild puts it where a pending card was, if any: the cards
      that remain are the old ones less the old pending card. */
  lemma HoldWildReplacesPending(g: Game, card: Card, a: Actor)
    requires card in g.Hand(a) && UniqueIds(multiset(g.Hand(a)))
    ensures multiset(HoldWild(g, card, a).AllCards()) + multiset(g.PendingCards()) == multiset(g.AllCards())
  {
    var n := HoldWild(g, card, a);
    RemoveCardExactly(g.Hand(a), card);
    AllCardsByHand(g, a);
    AllCardsByHand(n, a);
    assert n.PendingCards() == [card];
  }

  // ----- drawCard -----

  /** drawCard: on the player's turn, with no winner and a non-empty deck,
      the deck's front card joins the player's hand, the turn passes and a
      call of computerPlay is scheduled. */
  function DrawCard(g: Game): Game {
    if g.currentPlayer != Player || g.winner.Some? || g.deck == [] then g
    else g.(deck := g.deck[1..], playerHand := g.playerHand + [g.deck[0]], currentPlayer := Computer,
            computerDue := true)
  }

  /** Off turn, after a win or on an empty deck nothing changes; otherwise
      exactly the front card of the deck moves to the end of the player's
      hand and the computer moves next, its move scheduled. */
  lemma DrawCardMoves(g: Game)
    ensures g.currentPlayer != Player || g.winner.Some? || g.deck == [] ==> DrawCard(g) == g
    ensures g.currentPlayer == Player && g.winner.None? && g.deck != [] ==>
      var n := DrawCard(g);
      && [g.deck[0]] + n.deck == g.deck
      && n.playerHand == g.playerHand + [g.deck[0]]
      && n.currentPlayer == Computer && n.computerDue
      && n.computerHand == g.computerHand && n.discardPile == g.discardPile
      && n.currentColor == g.currentColor && n.winner == g.winner
      && n.pendingWildCard == g.pendingWildCard && n.direction == g.direction
      && n.gameStarted == g.gameStarted
  {
  }

  /** The colour picker covers the draw pile, so no draw happens while a
      wild waits for its colour. */
  lemma DrawCardPreservesValid(g: Game)
    requires Valid(g) && ComputerScheduled(g) && g.pendingWildCard.None?
    ensures multiset(DrawCard(g).AllCards()) == multiset(g.AllCards())
    ensures Valid(DrawCard(g)) && ComputerScheduled(DrawCard(g))
  {
    if g.currentPlayer == Player && g.winner.None? && g.deck != [] {
      DrawCardKeepsValid(g);
    }
  }

  /** A draw that happens keeps the session's cards and the invariant. */
  lemma DrawCardKeepsValid(g: Game)
    requires Valid(g) && g.pendingWildCard.None?
    requires g.currentPlayer == Player && g.winner.None? && g.deck != []
    ensures multiset(DrawCard(g).AllCards()) == multiset(g.AllCards())
    ensures Valid(DrawCard(g)) && ComputerScheduled(DrawCard(g))
  {
    var n := DrawCard(g);
    assert g.deck == [g.deck[0]] + g.deck[1..];
    assert multiset(n.AllCards()) == multiset(g.AllCards());
    SameCardsFullDeck(g, n);
  }

  // ----- computerPlay -----

  /** The cards the computer picks among: its playable action cards if it
      has any, otherwise all of its playable cards. */
  function ChoicePool(hand: seq<Card>, top: Card, currentColor: Option<Color>): (pool: seq<Card>)
    ensures forall c :: c in pool ==> c in hand && IsPlayable(c, top, currentColor)
  {
    var playable := PlayableCards(hand, top, currentColor);
    var actions := ActionCards(playable);
    if actions != [] then actions else playable
  }

  /** The pool is empty exactly when no card of the hand is playable; when
      some playable card is an action card the pool holds only action cards,
      and then it holds every playable action card; otherwise it holds every
      playable card. */
  lemma ChoicePoolPrefersActions(hand: seq<Card>, top: Card, currentColor: Option<Color>)
    ensures var pool := ChoicePool(hand, top, currentColor);
      && (pool == [] <==> forall c :: c in hand ==> !IsPlayable(c, top, currentColor))
      && ((exists c :: c in hand && IsPlayable(c, top, currentColor) && IsAction(c.value)) ==>
            forall c :: c in pool ==> IsAction(c.value))
      && (forall c :: c in hand && IsPlayable(c, top, currentColor) ==>
            (c in pool <==> IsAction(c.value) || forall d :: d in pool ==> !IsAction(d.value)))
  {
    var playable := PlayableCards(hand, top, currentColor);
    var actions := ActionCards(playable);
    if actions != [] {
      assert actions[0] in playable && IsAction(actions[0].value);
    } else {
      assert playable != [] ==> playable[0] in hand;
    }
  }

  /** The computer's wild: it goes straight onto the discard pile with the
      picked colour, wild4 deals up to four cards to the player, and the
      computer wins if it held exactly that one card; otherwise the player
      moves next. */
  function ComputerWild(g: Game, card: Card, color: Color): (r: Game)
    ensures var k := if card.value == Wild4 then DrawCount(4, g.deck) else 0;
      && r.playerHand == g.playerHand + g.deck[..k] && r.deck == g.deck[k..]
      && r.computerHand == RemoveById(g.computerHand, card.id) && r.discardPile == g.discardPile + [card]
    ensures r.currentColor == Some(color) && r.pendingWildCard == g.pendingWildCard && r.direction == g.direction
    ensures r.gameStarted == g.gameStarted && r.computerDue == g.computerDue
    ensures r.winner == if |g.computerHand| == 1 then Some(Computer) else g.winner
    ensures r.currentPlayer == if |g.computerHand| == 1 then g.currentPlayer else Player
  {
    var played := g.(computerHand := RemoveById(g.computerHand, card.id),
                     discardPile := g.discardPile + [card], currentColor := Some(color));
    var effect := if card.value == Wild4 then DealTo(played, Player, 4) else played;
    if |g.computerHand| == 1 then effect.(winner := Some(Computer)) else effect.(currentPlayer := Player)
  }

  /** The computer's draw when it has nothing to play: the deck's front card
      joins its hand and the player moves next. */
  function ComputerDraw(g: Game): (r: Game)
    requires g.deck != []
    ensures [g.deck[0]] + r.deck == g.deck && r.computerHand == g.computerHand + [g.deck[0]]
    ensures r.currentPlayer == Player && r.playerHand == g.playerHand && r.discardPile == g.discardPile
    ensures r.currentColor == g.currentColor && r.pendingWildCard == g.pendingWildCard
    ensures r.direction == g.direction && r.gameStarted == g.gameStarted && r.winner == g.winner
    ensures r.computerDue == g.computerDue
  {
    g.(deck := g.deck[1..], computerHand := g.computerHand + [g.deck[0]], currentPlayer := Player)
  }

  /** The scheduled call of computerPlay runs, and is no longer pending. */
  function ComputerPlay(g: Game, pick: nat, colorPick: nat): Game
    requires g.computerDue && g.discardPile != []
    requires colorPick < |Suits|
    requires ChoicePool(g.computerHand, g.Top(), g.currentColor) == [] || pick < |ChoicePool(g.computerHand, g.Top(), g.currentColor)|
  {
    ComputerMove(g.(computerDue := false), pick, colorPick)
  }

  /** The body of computerPlay: after a win nothing happens. With a playable
      card the computer plays the picked card of its pool: a wild takes the
      picked colour at once, never waiting as pending; any other card is
      played as the player's are. With none it draws the front card of a
      non-empty deck, and with an empty deck it does nothing. */
  function ComputerMove(g: Game, pick: nat, colorPick: nat): Game
    requires g.discardPile != []
    requires colorPick < |Suits|
    requires ChoicePool(g.computerHand, g.Top(), g.currentColor) == [] || pick < |ChoicePool(g.computerHand, g.Top(), g.currentColor)|
  {
    if g.winner.Some? then g
    else
      var pool := ChoicePool(g.computerHand, g.Top(), g.currentColor);
      if pool != [] then ComputerPlays(g, pool[pick], Suits[colorPick])
      else if g.deck != [] then ComputerDraw(g)
      else g
  }

  /** The computer's wild leaves its hand for the discard pile and no card
      is created or lost. */
  lemma ComputerWildConserves(g: Game, card: Card, color: Color)
    requires card in g.computerHand && UniqueIds(multiset(g.computerHand))
    ensures multiset(ComputerWild(g, card, color).AllCards()) == multiset(g.AllCards())
  {
    RemoveCardExactly(g.computerHand, card);
    var k := if card.value == Wild4 then DrawCount(4, g.deck) else 0;
    MoveToDiscardConserves(g, ComputerWild(g, card, color), Computer, card, k);
  }

  /** What playing one card of its hand does for the computer. */
  function ComputerPlays(g: Game, card: Card, color: Color): Game {
    if card.color == Wild then ComputerWild(g, card, color) else PlayCard(g, card, Computer)
  }

  /** Whatever card of its hand the computer plays lands on the discard pile
      and leaves its hand once; a wild takes the picked colour, wild4 feeds
      the player from the deck front, and the computer wins exactly when its
      hand empties. Unless it wins, a wild hands the turn to the player, and
      any other card goes through the handoff of playCard. */
  lemma ComputerPlaysMoves(g: Game, card: Card, color: Color)
    requires card in g.computerHand && UniqueIds(multiset(g.computerHand)) && g.winner.None?
    ensures var n := ComputerPlays(g, card, color);
      && n.discardPile == g.discardPile + [card]
      && multiset(n.computerHand) == multiset(g.computerHand) - multiset{card}
      && n.pendingWildCard == g.pendingWildCard
      && n.currentColor == Some(if card.color == Wild then color else card.color)
      && (n.winner == Some(Computer) <==> n.computerHand == [])
      && (card.color == Wild ==>
            var k := if card.value == Wild4 then DrawCount(4, g.deck) else 0;
            && n.playerHand == g.playerHand + g.deck[..k] && n.deck == g.deck[k..]
            && (n.winner.None? ==> n.currentPlayer == Player))
      && (card.color != Wild && n.winner.None? ==>
            n.currentPlayer == if card.value == Skip || card.value == Draw2 then Computer else Player)
  {
    if card.color == Wild {
      ComputerWildMoves(g, card, color);
      assert ComputerPlays(g, card, color) == ComputerWild(g, card, color);
    } else {
      ComputerColoredMoves(g, card);
      assert ComputerPlays(g, card, color) == PlayCard(g, card, Computer);
    }
  }

  /** A coloured card the computer plays goes through playCard: it leaves
      the hand once for the discard pile, and the computer wins exactly when
      its hand empties, keeping the turn on skip and draw2 otherwise. */
  lemma ComputerColoredMoves(g: Game, card: Card)
    requires card in g.computerHand && UniqueIds(multiset(g.computerHand)) && g.winner.None?
    requires card.color != Wild
    ensures var n := PlayCard(g, card, Computer);
      && n.discardPile == g.discardPile + [card]
      && multiset(n.computerHand) == multiset(g.computerHand) - multiset{card}
      && n.pendingWildCard == g.pendingWildCard && n.currentColor == Some(card.color)
      && (n.winner == Some(Computer) <==> n.computerHand == [])
      && (n.winner.None? ==>
            n.currentPlayer == if card.value == Skip || card.value == Draw2 then Computer else Player)
  {
    PlayCardEffect(g, card, Computer);
    PlayCardHandoff(g, card, Computer);
  }

  /** The computer's wild takes exactly that card from its hand, and the
      computer has won exactly when its hand is now empty. */
  lemma ComputerWildMoves(g: Game, card: Card, color: Color)
    requires card in g.computerHand && UniqueIds(multiset(g.computerHand)) && g.winner.None?
    ensures var n := ComputerWild(g, card, color);
      && multiset(n.computerHand) == multiset(g.computerHand) - multiset{card}
      && (n.winner == Some(Computer) <==> n.computerHand == [])
      && (n.winner.None? ==> n.currentPlayer == Player)
  {
    RemoveCardExactly(g.computerHand, card);
  }

  /** The computer's move: a playable card of its pool is always what lands
      on the discard pile; its wild takes the picked colour, wild4 makes the
      player draw up to four, and the player moves next unless the computer
      has just emptied its hand. With no playable card it draws the deck's
      front card and hands the turn over, or, with an empty deck, does nothing. */
  lemma ComputerPlayMoves(g: Game, pick: nat, colorPick: nat)
    requires g.computerDue && g.discardPile != [] && g.winner.None? && colorPick < |Suits|
    requires UniqueIds(multiset(g.computerHand))
    requires ChoicePool(g.computerHand, g.Top(), g.currentColor) == [] || pick < |ChoicePool(g.computerHand, g.Top(), g.currentColor)|
    ensures var pool := ChoicePool(g.computerHand, g.Top(), g.currentColor);
      var fired := g.(computerDue := false);
      var n := ComputerPlay(g, pick, colorPick);
      && (pool != [] ==>
            && pool[pick] in g.computerHand && IsPlayable(pool[pick], g.Top(), g.currentColor)
            && n == ComputerPlays(fired, pool[pick], Suits[colorPick]))
      && (pool == [] && g.deck != [] ==> n == ComputerDraw(fired))
      && (pool == [] && g.deck == [] ==> n == fired)
  {
    var fired := g.(computerDue := false);
    assert fired.Top() == g.Top() && fired.computerHand == g.computerHand;
    var pool := ChoicePool(g.computerHand, g.Top(), g.currentColor);
    if pool != [] {
      assert pool[pick] in pool;
    }
  }

  lemma ComputerWildPreservesValid(g: Game, card: Card, color: Color)
    requires Valid(g) && g.gameStarted && g.winner.None? && g.currentPlayer == Computer && !g.computerDue
    requires card in g.computerHand && card.color == Wild
    ensures multiset(ComputerWild(g, card, color).AllCards()) == multiset(g.AllCards())
    ensures Valid(ComputerWild(g, card, color)) && ComputerScheduled(ComputerWild(g, card, color))
  {
    var n := ComputerWild(g, card, color);
    StandardIdsUnique(multiset(g.AllCards()));
    HandUnique(g, Computer);
    ComputerWildConserves(g, card, color);
    SameCardsFullDeck(g, n);
    RemoveCardExactly(g.computerHand, card);
  }

  lemma ComputerDrawPreservesValid(g: Game)
    requires Valid(g) && g.gameStarted && g.winner.None? && g.currentPlayer == Computer && !g.computerDue
    requires g.deck != []
    ensures multiset(ComputerDraw(g).AllCards()) == multiset(g.AllCards())
    ensures Valid(ComputerDraw(g)) && ComputerScheduled(ComputerDraw(g))
  {
    var n := ComputerDraw(g);
    assert g.deck == [g.deck[0]] + g.deck[1..];
    assert multiset(n.AllCards()) == multiset(g.AllCards());
    SameCardsFullDeck(g, n);
  }

  /** The scheduled computerPlay keeps the cards, the invariant and the
      scheduling invariant. */
  lemma ComputerPlayPreservesValid(g: Game, pick: nat, colorPick: nat)
    requires Valid(g) && ComputerScheduled(g) && g.computerDue && colorPick < |Suits|
    requires ChoicePool(g.computerHand, g.Top(), g.currentColor) == [] || pick < |ChoicePool(g.computerHand, g.Top(), g.currentColor)|
    ensures multiset(ComputerPlay(g, pick, colorPick).AllCards()) == multiset(g.AllCards())
    ensures Valid(ComputerPlay(g, pick, colorPick)) && ComputerScheduled(ComputerPlay(g, pick, colorPick))
  {
    var fired := g.(computerDue := false);
    assert fired.AllCards() == g.AllCards();
    ValidHandUnique(g, Computer);
    ComputerPlayMoves(g, pick, colorPick);
    var pool := ChoicePool(g.computerHand, g.Top(), g.currentColor);
    if pool != [] {
      var card := pool[pick];
      if card.color == Wild {
        ComputerWildPreservesValid(fired, card, Suits[colorPick]);
      } else {
        PlayCardPreservesValid(fired, card, Computer);
      }
    } else if g.deck != [] {
      ComputerDrawPreservesValid(fired);
    } else {
      ChoicePoolPrefersActions(g.computerHand, g.Top(), g.currentColor);
    }
  }

  /** A stuck computer's scheduled move only spends the call: afterwards the
      computer is still to move and stuck, nothing schedules it again, and
      everything the player can do changes nothing: the game stops there. */
  lemma ComputerStalls(g: Game, pick: nat, colorPick: nat, card: Card, color: Color)
    requires ComputerScheduled(g) && g.computerDue && ComputerStuck(g) && colorPick < |Suits|
    ensures ChoicePool(g.computerHand, g.Top(), g.currentColor) == [] &&
      var n := ComputerPlay(g, pick, colorPick);
      && n == g.(computerDue := false) && ComputerStuck(n) && n.currentPlayer == Computer && n.winner.None?
      && DrawCard(n) == n && HandlePlayerCard(n, card) == n && SelectWildColor(n, color) == n
  {
    StuckPoolEmpty(g);
    var fired := g.(computerDue := false);
    StuckMoveIdle(fired, pick, colorPick);
    PlayerIdleOnComputerTurn(fired, card, color);
  }

  /** A stuck computer's move changes nothing. */
  lemma StuckMoveIdle(g: Game, pick: nat, colorPick: nat)
    requires ComputerStuck(g) && colorPick < |Suits|
    ensures ChoicePool(g.computerHand, g.Top(), g.currentColor) == [] && ComputerMove(g, pick, colorPick) == g
  {
    StuckPoolEmpty(g);
  }

  /** While the computer is to move with no wild pending, nothing the player
      does changes the game. */
  lemma PlayerIdleOnComputerTurn(g: Game, card: Card, color: Color)
    requires g.discardPile != [] && g.currentPlayer == Computer && g.pendingWildCard.None?
    ensures DrawCard(g) == g && HandlePlayerCard(g, card) == g && SelectWildColor(g, color) == g
  {
  }

  /** A stuck computer has nothing to choose from. */
  lemma StuckPoolEmpty(g: Game)
    requires ComputerStuck(g)
    ensures ChoicePool(g.computerHand, g.Top(), g.currentColor) == []
  {
    ChoicePoolPrefersActions(g.computerHand, g.Top(), g.currentColor);
  }
}
