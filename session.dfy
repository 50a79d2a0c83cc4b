/** The game component's state cells as one object whose handlers update
    them in place. Each handler is proved to leave the cells as the matching
    transition of the Rules module prescribes; what those transitions keep
    and promise is proved about them in Rules. */
module Session {
  import opened Cards
  import opened Deck
  import Rules

  class UnoSession {
    var deck: seq<Card>
    var playerHand: seq<Card>
    var computerHand: seq<Card>
    var discardPile: seq<Card>
    var currentColor: Option<Color>
    var direction: int
    var currentPlayer: Rules.Actor
    var gameStarted: bool
    var pendingWildCard: Option<Rules.Pending>
    var winner: Option<Rules.Actor>
    /** Whether a call of computerPlay is waiting on a timer. */
    var computerDue: bool

    /** The cells as a value. */
    function Snapshot(): Rules.Game
      reads this
    {
      Rules.Game(deck, playerHand, computerHand, discardPile, currentColor, direction,
                 currentPlayer, gameStarted, pendingWildCard, winner, computerDue)
    }

    /** The cells' initial values. */
    constructor()
      ensures Snapshot() == Rules.InitialGame()
    {
      deck, playerHand, computerHand, discardPile := [], [], [], [];
      currentColor, direction, currentPlayer := None, 1, Rules.Player;
      gameStarted, pendingWildCard, winner, computerDue := false, None, None, false;
    }

    /** A counted draw loop: up to n times, while the deck is not empty, its
        front card moves to the end of `hand`. Only the deck cell changes. */
    method TakeFromDeck(hand: seq<Card>, n: nat) returns (grown: seq<Card>)
      modifies this
      ensures var k := Rules.DrawCount(n, old(deck));
        grown == hand + old(deck)[..k] && deck == old(deck)[k..]
      ensures playerHand == old(playerHand) && computerHand == old(computerHand)
      ensures discardPile == old(discardPile) && currentColor == old(currentColor)
      ensures direction == old(direction) && currentPlayer == old(currentPlayer) && gameStarted == old(gameStarted)
      ensures pendingWildCard == old(pendingWildCard) && winner == old(winner) && computerDue == old(computerDue)
    {
      grown := hand;
      for i := 0 to n
        invariant var k := Rules.DrawCount(i, old(deck));
          grown == hand + old(deck)[..k] && deck == old(deck)[k..]
        invariant playerHand == old(playerHand) && computerHand == old(computerHand)
        invariant discardPile == old(discardPile) && currentColor == old(currentColor)
        invariant direction == old(direction) && currentPlayer == old(currentPlayer) && gameStarted == old(gameStarted)
        invariant pendingWildCard == old(pendingWildCard) && winner == old(winner) && computerDue == old(computerDue)
      {
        if |deck| > 0 {
          ghost var k := Rules.DrawCount(i, old(deck));
          assert old(deck)[..k + 1] == old(deck)[..k] + [deck[0]];
          grown := grown + [deck[0]];
          deck := deck[1..];
        }
      }
    }

    /** The counted draw loop run for one side's hand. */
    method DealTo(actor: Rules.Actor, n: nat)
      modifies this
      ensures Snapshot() == Rules.DealTo(old(Snapshot()), actor, n)
    {
      if actor == Rules.Player {
        playerHand := TakeFromDeck(playerHand, n);
      } else {
        computerHand := TakeFromDeck(computerHand, n);
      }
    }

    /** startGame: a new shuffled deck, then the deal. */
    method StartGame(picks: seq<nat>)
      requires ValidPicks(picks, 108)
      modifies this
      ensures exists newDeck :: IsFullDeck(newDeck) && Snapshot() == Rules.StartGame(old(Snapshot()), newDeck)
    {
      var newDeck := CreateDeck(picks);
      Deal(newDeck);
    }

    /** The deal of startGame: the deck is spliced into the two hands, the
        first discard and the rest. */
    method Deal(newDeck: seq<Card>)
      requires |newDeck| >= 15
      modifies this
      ensures Snapshot() == Rules.StartGame(old(Snapshot()), newDeck)
    {
      var firstCard := newDeck[14];
      playerHand, computerHand, deck := newDeck[..7], newDeck[7..14], newDeck[15..];
      discardPile, currentColor := [firstCard], Some(firstCard.color);
      gameStarted, currentPlayer, winner := true, Rules.Player, None;
    }

    /** playCard: a wild goes aside to wait for its colour; any other card
        goes on the discard pile, takes effect and hands the turn on. */
    method PlayCard(card: Card, actor: Rules.Actor)
      modifies this
      ensures Snapshot() == Rules.PlayCard(old(Snapshot()), card, actor)
    {
      var handBefore := if actor == Rules.Player then playerHand else computerHand;
      if card.color == Wild {
        RemoveFromHand(card, actor);
        pendingWildCard := Some(Rules.Pending(card, actor));
      } else {
        discardPile, currentColor := discardPile + [card], Some(card.color);
        RemoveFromHand(card, actor);
        var skipNext := ApplyEffect(card, actor);
        PassTurn(|handBefore|, skipNext, card, actor);
      }
    }

    /** `handUpdater(prev => prev.filter(c => c.id !== card.id))`. */
    method RemoveFromHand(card: Card, actor: Rules.Actor)
      modifies this
      ensures Snapshot() == old(Snapshot()).WithHand(actor, RemoveById(old(Snapshot()).Hand(actor), card.id))
    {
      if actor == Rules.Player {
        playerHand := RemoveById(playerHand, card.id);
      } else {
        computerHand := RemoveById(computerHand, card.id);
      }
    }

    /** The effect of a coloured card; the result says whether the turn
        comes back to the actor. */
    method ApplyEffect(card: Card, actor: Rules.Actor) returns (skipNext: bool)
      modifies this
      ensures Snapshot() == Rules.ApplyEffect(old(Snapshot()), card, actor)
      ensures skipNext <==> card.value == Skip || card.value == Draw2
    {
      skipNext := false;
      if card.value == Skip {
        skipNext := true;
      } else if card.value == Reverse {
        direction := -direction;
      } else if card.value == Draw2 {
        DealTo(Rules.Opponent(actor), 2);
        skipNext := true;
      }
    }

    /** The delayed step of playCard: the win check on the hand size before
        the play, then the handoff, scheduling computerPlay when the computer
        is to move. */
    method PassTurn(handBefore: nat, skipNext: bool, card: Card, actor: Rules.Actor)
      requires skipNext <==> card.value == Skip || card.value == Draw2
      modifies this
      ensures Snapshot() == Rules.PassTurn(old(Snapshot()), handBefore, card, actor)
    {
      if handBefore == 1 {
        winner := Some(actor);
      } else if !skipNext {
        currentPlayer := Rules.Opponent(actor);
        if actor == Rules.Player {
          computerDue := true;
        }
      } else {
        currentPlayer := actor;
        if actor == Rules.Computer {
          computerDue := true;
        }
      }
    }

    /** handlePlayerCard, ignoring clicks while a wild waits for its colour.
        The top card is read, so the game has been dealt. */
    method HandlePlayerCard(card: Card)
      requires discardPile != []
      modifies this
      ensures Snapshot() == Rules.HandlePlayerCard(old(Snapshot()), card)
    {
      if pendingWildCard.None? && currentPlayer == Rules.Player && winner.None?
         && IsPlayable(card, discardPile[|discardPile| - 1], currentColor)
      {
        PlayCard(card, Rules.Player);
      }
    }

    /** selectWildColor, declaring the win when the wild was the last card
        and scheduling computerPlay when the turn passes to the computer. */
    method SelectWildColor(color: Color)
      modifies this
      ensures Snapshot() == Rules.SelectWildColor(old(Snapshot()), color)
    {
      if pendingWildCard.Some? {
        var from := pendingWildCard.value.from;
        ResolveWild(color);
        ghost var resolved := Snapshot();
        var hand := if from == Rules.Player then playerHand else computerHand;
        if hand == [] {
          winner := Some(from);
          assert Snapshot() == resolved.(winner := Some(from));
        } else {
          currentPlayer := Rules.Opponent(from);
          if from == Rules.Player {
            computerDue := true;
          }
          assert Snapshot() == resolved.(currentPlayer := Rules.Opponent(from),
                                         computerDue := old(computerDue) || from == Rules.Player);
        }
      }
    }

    /** The colour is set, the pending card goes on the discard pile and a
        wild4 makes the opponent of its player draw up to four. */
    method ResolveWild(color: Color)
      requires pendingWildCard.Some?
      modifies this
      ensures Snapshot() == Rules.ResolveWild(old(Snapshot()), color)
    {
      var card, from := pendingWildCard.value.card, pendingWildCard.value.from;
      currentColor, pendingWildCard, discardPile := Some(color), None, discardPile + [card];
      if card.value == Wild4 {
        DealTo(Rules.Opponent(from), 4);
      }
    }

    /** drawCard: the player takes the deck's front card, the turn passes and
        computerPlay is scheduled. */
    method DrawCard()
      modifies this
      ensures Snapshot() == Rules.DrawCard(old(Snapshot()))
    {
      if currentPlayer == Rules.Player && winner.None? && |deck| > 0 {
        var drawnCard := deck[0];
        deck, playerHand := deck[1..], playerHand + [drawnCard];
        currentPlayer, computerDue := Rules.Computer, true;
      }
    }

    /** The scheduled computerPlay runs: `pick` and `colorPick` stand for its
        two random choices, of a card of the pool and of a colour for a wild. */
    method ComputerPlay(pick: nat, colorPick: nat)
      requires computerDue && discardPile != [] && colorPick < |Suits|
      requires var pool := Rules.ChoicePool(computerHand, Snapshot().Top(), currentColor);
        pool == [] || pick < |pool|
      modifies this
      ensures Snapshot() == Rules.ComputerPlay(old(Snapshot()), pick, colorPick)
    {
      FireComputer();
      ComputerMove(pick, colorPick);
    }

    /** The timer of computerPlay fires: the call is no longer pending. */
    method FireComputer()
      modifies this
      ensures Snapshot() == old(Snapshot()).(computerDue := false)
    {
      computerDue := false;
    }

    /** The body of computerPlay. */
    method ComputerMove(pick: nat, colorPick: nat)
      requires discardPile != [] && colorPick < |Suits|
      requires var pool := Rules.ChoicePool(computerHand, Snapshot().Top(), currentColor);
        pool == [] || pick < |pool|
      modifies this
      ensures Snapshot() == Rules.ComputerMove(old(Snapshot()), pick, colorPick)
    {
      if winner.None? {
        var pool := Rules.ChoicePool(computerHand, discardPile[|discardPile| - 1], currentColor);
        if pool != [] {
          var cardToPlay := pool[pick];
          if cardToPlay.color == Wild {
            ComputerWild(cardToPlay, Suits[colorPick]);
          } else {
            PlayCard(cardToPlay, Rules.Computer);
          }
        } else if |deck| > 0 {
          ComputerDraw();
        }
      }
    }

    /** The computer's wild takes its colour at once. */
    method ComputerWild(card: Card, color: Color)
      modifies this
      ensures Snapshot() == Rules.ComputerWild(old(Snapshot()), card, color)
    {
      var handBefore := computerHand;
      PlaceWild(card, color);
      ghost var played := Snapshot();
      if card.value == Wild4 {
        DealTo(Rules.Player, 4);
      }
      assert Snapshot() == if card.value == Wild4 then Rules.DealTo(played, Rules.Player, 4) else played;
      ComputerWildHandoff(|handBefore|);
    }

    /** The delayed step of the computer's wild: it wins if it held one card
        before the play, and otherwise the player moves. */
    method ComputerWildHandoff(handBefore: nat)
      modifies this
      ensures Snapshot() == if handBefore == 1 then old(Snapshot()).(winner := Some(Rules.Computer))
                            else old(Snapshot()).(currentPlayer := Rules.Player)
    {
      if handBefore == 1 {
        winner := Some(Rules.Computer);
      } else {
        currentPlayer := Rules.Player;
      }
    }

    /** The computer's wild leaves its hand for the discard pile with the
        chosen colour. */
    method PlaceWild(card: Card, color: Color)
      modifies this
      ensures Snapshot() == old(Snapshot()).(computerHand := RemoveById(old(computerHand), card.id),
                                             discardPile := old(discardPile) + [card], currentColor := Some(color))
    {
      computerHand, discardPile, currentColor := RemoveById(computerHand, card.id), discardPile + [card], Some(color);
    }

    /** The computer draws the deck's front card and the player moves next. */
    method ComputerDraw()
      requires |deck| > 0
      modifies this
      ensures Snapshot() == Rules.ComputerDraw(old(Snapshot()))
    {
      var drawnCard := deck[0];
      deck, computerHand, currentPlayer := deck[1..], computerHand + [drawnCard], Rules.Player;
    }
  }
}
