# UNO game rules, modelled in Dafny

This project models the game engine of a single-page UNO game: a human player
against a computer opponent. The game lives in one React component
(`src/UnoGame.jsx`). The engine is made of:

- the deck builder `createDeck`;
- the state cells of the component;
- the handlers `startGame`, `isPlayable`, `playCard`, `selectWildColor`,
  `handlePlayerCard`, `drawCard` and `computerPlay`.

The model has four modules, one file each.

- `Cards` (`cards.dfy`) holds the values of the game:
  - the colours, the values and the card ids;
  - `IsPlayable`: a wild is always legal; any other card must match the
    current colour or the top card's value;
  - the three `filter` calls: `RemoveById`, `PlayableCards` and `ActionCards`.
- `Deck` (`deck.dfy`) holds `createDeck`.
  - Its nested loops become a `method` with loop invariants. They prove that
    the 108 cards pushed are exactly the standard deck, each card once, with
    ids that never repeat.
  - The random-comparator sort becomes `Shuffle`. It is driven by a sequence
    of picks: at step i, one of the n - i cards left is chosen. Every
    permutation can be reached this way (`ShuffleReachesEveryOrder`).
- `Rules` (`rules.dfy`) holds the transitions as pure functions on a `Game`
  record, plus the lemmas about them.
  - The record has the ten state cells that matter to play. An eleventh
    cell, `computerDue`, records whether a call of `computerPlay` is waiting
    on a timer. It is set where the source schedules one (lines 168, 217,
    222 and 245) and cleared when the call runs.
  - `Valid` is the session invariant. Before the first deal the session holds
    no cards. After it, the session holds exactly the standard deck, wherever
    each card is. Its other clauses cover the pending wild, the winner and
    non-empty hands.
  - `ComputerScheduled` is the scheduling invariant. A call is pending only
    in a live game on the computer's turn. And on the computer's turn in a
    live game, a call is pending unless the computer has nothing to play or
    draw (`ComputerStuck`).
  - Each handler's chain of `setTimeout` steps is taken as one atomic step.
    The `computerPlay` call such a chain schedules is not part of the step.
    It is a separate transition, allowed only while `computerDue` is set.
- `Session` (`session.dfy`) holds the class `UnoSession`.
  - Its fields are the state cells, and its methods update them in place,
    including the counted draw loops. Most methods do what the handlers do.
    Two run the corrected handlers named under "## Findings" instead:
    `HandlePlayerCard` ignores clicks while a wild waits for its colour, and
    `SelectWildColor` has a win check and schedules `computerPlay` when the
    turn passes to the computer. The as-written handlers exist only as
    `Rules` functions.
  - Each handler method (`StartGame`, `PlayCard`, `HandlePlayerCard`,
    `SelectWildColor`, `DrawCard` and `ComputerPlay`) is proved to leave
    `Snapshot()` (the cells read as a `Game`) equal to the matching `Rules`
    transition of the old snapshot; for `StartGame`, the deal of some full
    standard deck. So every lemma about `Rules` applies to the object. The step methods they call are stated the same way, or, for
    `TakeFromDeck`, `RemoveFromHand`, `PlaceWild`, `ComputerWildHandoff` and
    `FireComputer`, as the exact update of the cells they touch.

Where the code is random, the randomness becomes a parameter:

- the shuffle takes `picks`;
- the computer's choice of card takes `pick`;
- its choice of colour takes `colorPick`.

Some things the source leaves unreset, or that follow from the source's own
behaviour, are modelled as the code has them:

- **Restarting.** `startGame` does not reset `direction` or `pendingWildCard`.
- **The win check.** It reads the hand size from before the play.
- **reverse.** With two seats it only flips `direction` and passes the turn.
- **draw2 and wild4.** They take cards with `deck.shift()`, which changes the
  deck array in place without calling `setDeck`. The model removes those
  cards from the deck.
- **The computer's wild** takes its colour at once and never becomes pending.
  The computer's win check after a wild also reads the hand size from before
  the play.
- **The first discard.** If the first card turned up is a wild, the current
  colour is `wild`.

## Model

| member | source | states |
|---|---|---|
| Cards.IsPlayable | src/UnoGame.jsx:135-139 | Definition: a wild is always legal; any other card must match the current colour or the top card's value. Its consequences after a play are stated by Rules.PlayableAfterColoredPlay and Rules.PlayableAfterColourChoice |
| Cards.RemoveById | src/UnoGame.jsx:184 | Every card whose id is the played card's id leaves the hand; every other card stays with its multiplicity |
| Cards.RemoveCardExactly | src/UnoGame.jsx:184 | In a hand without repeated ids, removing a held card's id takes out exactly that card and shortens the hand by one |
| Cards.PlayableCards | src/UnoGame.jsx:251 | A card is in the result iff it is in the hand and playable; the result is a sub-multiset of the hand |
| Cards.ActionCards | src/UnoGame.jsx:253-255 | A card is in the result iff it is in the input and its value is skip, reverse, draw2 or wild4; the result is a sub-multiset |
| Deck.Shuffle | src/UnoGame.jsx:102 | The shuffled deck has the same length and the same cards, with multiplicity, as the deck built |
| Deck.ShuffleReachesEveryOrder | src/UnoGame.jsx:102 | Every reordering of the cards is the outcome of some valid picks: the shuffle is an arbitrary permutation |
| Deck.StandardIdsUnique | src/UnoGame.jsx:92-100 | A collection holding each standard card once has no two cards with one id and no card twice |
| Deck.CreateDeck | src/UnoGame.jsx:86-103 | The deck returned has 108 cards: each standard card exactly once, nothing else, and no repeated id |
| Rules.DealTo | src/UnoGame.jsx:196-198 | A counted draw loop moves min(n, deck size) cards from the deck front to the end of one hand and changes nothing else |
| Rules.Valid | src/UnoGame.jsx:106-117 | Definition of the session invariant: direction ±1; no cards before the first deal and exactly the standard deck after it; a pending wild is the player's, on the player's turn; a winner's hand is empty; hands are non-empty while nobody has won. Its preservation is stated by the PreservesValid lemmas |
| Rules.ComputerStuck | src/UnoGame.jsx:250-299 | Definition: the deck is empty and no card of the computer's hand is playable, so computerPlay does nothing |
| Rules.ComputerScheduled | src/UnoGame.jsx:168 | Definition of the scheduling invariant: a pending computerPlay call means a live game on the computer's turn with no wild waiting; on the computer's turn in a live game, a call is pending unless the computer is stuck. Its preservation is stated by the PreservesValid lemmas |
| Rules.InitialGameValid | src/UnoGame.jsx:106-117 | The initial cells (`Rules.InitialGame`, the `useState` values) satisfy both invariants, and no game has started |
| Rules.StartGame | src/UnoGame.jsx:119-133 | Definition of the deal; what it produces is stated by Rules.StartGameDeals |
| Rules.StartGameDeals | src/UnoGame.jsx:119-133 | The deal gives 7 cards to each hand, one to the discard pile (setting the colour) and 93 to the deck, in deck order. The player moves, nobody has won and no computer move is pending. The deal holds exactly the new deck, and both invariants hold |
| Rules.StartGameLayout | src/UnoGame.jsx:121-127 | The splices put the first 7 cards in the player's hand, the next 7 in the computer's, one on the discard pile and the rest in the deck, in deck order; no card is created or lost |
| Rules.StartGameKeepsValid | src/UnoGame.jsx:119-133 | A deal of a full deck before a game or after a win leaves no wild waiting and no computer move pending, and keeps both invariants |
| Rules.HoldWild | src/UnoGame.jsx:174-180 | A wild leaves the actor's hand and is held aside with its player; the other cells stay |
| Rules.PutOnDiscard | src/UnoGame.jsx:181-184 | A coloured card leaves the actor's hand by the id filter, tops the discard pile and sets the colour; the other hand, the deck, the turn, the direction, the winner, the pending wild and the call flag stay |
| Rules.ApplyEffect | src/UnoGame.jsx:185-203 | reverse flips the direction; draw2 moves up to two deck cards to the opponent; other values change nothing |
| Rules.PassTurn | src/UnoGame.jsx:204-225 | With one card held before the play the actor wins and the turn stays; otherwise skip and draw2 keep the turn and other cards pass it. A computerPlay call is scheduled exactly when the computer is to move after a play without a win |
| Rules.PlayCardEffect | src/UnoGame.jsx:181-203 | A coloured card leaves the hand (one copy, the hand one shorter) and tops the discard pile with its colour; the direction flips on reverse; draw2 moves up to two deck-front cards to the opponent |
| Rules.ColoredPlayShape | src/UnoGame.jsx:181-225 | Where a coloured play puts the hand, the discard pile, the colour, the direction, the opponent's hand and the deck |
| Rules.PlayCardHandoff | src/UnoGame.jsx:204-225 | After a coloured play the actor has won iff its hand is empty; a win keeps the turn; otherwise skip and draw2 give the actor another move and every other card passes the turn. A computerPlay call is pending afterwards iff one was before or nobody has won and the computer is to move |
| Rules.PlayableAfterColoredPlay | src/UnoGame.jsx:135-139 | After a coloured card is played, a card can follow exactly when it is wild, has that card's colour or has its value |
| Rules.PlayCard | src/UnoGame.jsx:173-226 | Definition of playCard: a wild is held aside; any other card is discarded, takes effect and then goes through the win check and the handoff. Stated by Rules.PlayCardEffect, Rules.PlayCardHandoff and Rules.PlayWildHolds |
| Rules.PlayWildHolds | src/UnoGame.jsx:174-180 | A wild leaves the hand and waits with its player. The discard pile, colour, deck, other hand, turn, winner and pending computer move do not change |
| Rules.PlayCardConserves | src/UnoGame.jsx:173-226 | A play moves cards without creating or losing any, provided a wild does not land on a slot already taken |
| Rules.PlayWildConserves | src/UnoGame.jsx:174-176 | A wild moved into the empty pending slot keeps the session's cards |
| Rules.PlayColoredConserves | src/UnoGame.jsx:181-203 | A coloured play, draw2 included, keeps the session's cards |
| Rules.MoveToDiscardConserves | src/UnoGame.jsx:181-203 | A card moving from a hand to the discard pile while k deck-front cards join the other hand keeps the session's cards |
| Rules.DealToConserves | src/UnoGame.jsx:196-198 | A counted draw keeps the session's cards |
| Rules.PlayCardPreservesValid | src/UnoGame.jsx:173-226 | A play by the side to move, with no winner, no wild waiting and no computer move pending, keeps the cards and both invariants |
| Rules.PlayWildKeepsValid | src/UnoGame.jsx:174-180 | A player's wild, held aside, keeps the session invariant |
| Rules.PlayColoredKeepsValid | src/UnoGame.jsx:181-225 | A coloured play by the side to move keeps the session invariant |
| Rules.ResolveWild | src/UnoGame.jsx:142-164 | The chosen colour holds, the pending card tops the discard pile, and a wild4 moves up to four deck cards to its player's opponent |
| Rules.SelectWildColorAsWritten | src/UnoGame.jsx:141-171 | Definition of selectWildColor as written: no win check, and a computerPlay call is scheduled only for the computer's own wild. Its defects are stated by Rules.WildWinMissedAsWritten and Rules.ComputerNeverCalledAsWritten |
| Rules.SelectWildColor | src/UnoGame.jsx:141-171 | Definition of the corrected colour choice: a win check, and a computerPlay call scheduled whenever the turn passes to the computer. Stated by Rules.SelectWildColorEffect |
| Rules.SelectWildColorEffect | src/UnoGame.jsx:141-171 | Nothing happens with nothing pending. Otherwise the pending card tops the discard pile with the chosen colour, and wild4 makes the opponent draw up to four. The turn passes unless the wild was its player's last card, in which case that player wins. When the player's wild passes the turn, a computerPlay call is scheduled |
| Rules.PlayableAfterColourChoice | src/UnoGame.jsx:135-139 | After a wild has taken its colour, a card can follow exactly when it is wild or has the chosen colour |
| Rules.ResolveWildConserves | src/UnoGame.jsx:147-163 | Choosing the colour keeps the session's cards |
| Rules.PendingToDiscardConserves | src/UnoGame.jsx:147-163 | The pending card moving to the discard pile while k deck-front cards join the other hand keeps the session's cards |
| Rules.WildWinMissedAsWritten | src/UnoGame.jsx:165-169 | As written, a player whose wild was the last card ends with an empty hand, no winner and the computer to move, which breaks the invariant |
| Rules.ComputerNeverCalledAsWritten | src/UnoGame.jsx:165-169 | As written, after the player's wild takes its colour, the computer is to move in a live game but no computerPlay call is pending. Drawing, clicking a card and choosing a colour all change nothing. Unless the deck is empty, the scheduling invariant is broken |
| Rules.SelectWildColorPreservesValid | src/UnoGame.jsx:141-171 | The corrected colour choice, with its win check and its scheduling, keeps the cards and both invariants |
| Rules.HandlePlayerCardAsWritten | src/UnoGame.jsx:228-235 | Definition of handlePlayerCard as written: ignored off turn, after a win or for an unplayable card, otherwise played. Its defect is stated by Rules.PendingWildLostAsWritten |
| Rules.HandlePlayerCard | src/UnoGame.jsx:228-235 | Definition of the corrected click handler, which also ignores clicks while a wild waits. Stated by Rules.HandlePlayerCardAccepts |
| Rules.HandlePlayerCardAccepts | src/UnoGame.jsx:228-235 | A clicked card is played exactly on the player's turn with no winner, no pending wild and a playable card; any other click changes nothing |
| Rules.HandlePlayerCardPreservesValid | src/UnoGame.jsx:228-235 | Any click on a card in the player's hand keeps the cards and both invariants |
| Rules.PendingWildLostAsWritten | src/UnoGame.jsx:174-176 | As written, a second wild clicked while one is pending takes the slot: the first wild leaves the session, which no longer holds the full deck |
| Rules.HoldWildReplacesPending | src/UnoGame.jsx:174-176 | Holding a wild loses whatever was pending: the cards left are the old ones less the old pending card |
| Rules.DrawCard | src/UnoGame.jsx:237-247 | Definition of drawCard; stated by Rules.DrawCardMoves |
| Rules.DrawCardMoves | src/UnoGame.jsx:237-247 | Off turn, after a win or on an empty deck nothing changes. Otherwise the deck's front card moves to the end of the player's hand, the computer moves next and its computerPlay call is scheduled |
| Rules.DrawCardPreservesValid | src/UnoGame.jsx:237-247 | A draw with no wild waiting keeps the cards and both invariants |
| Rules.DrawCardKeepsValid | src/UnoGame.jsx:238-246 | A draw that happens, on the player's turn with a non-empty deck, keeps the cards and both invariants |
| Rules.ChoicePool | src/UnoGame.jsx:251-258 | Every card the computer may pick is a playable card of its hand |
| Rules.ChoicePoolPrefersActions | src/UnoGame.jsx:251-258 | The pool is empty iff no card of the hand is playable; if some playable card is an action card, the pool holds only action cards; a playable card is in the pool iff it is an action card or the pool holds no action card |
| Rules.ComputerWild | src/UnoGame.jsx:260-284 | The computer's wild leaves its hand for the discard pile with the picked colour; wild4 gives the player up to four deck cards; the computer wins if it held one card, and otherwise the player moves |
| Rules.ComputerDraw | src/UnoGame.jsx:290-297 | The deck's front card joins the computer's hand and the player moves next |
| Rules.ComputerWildConserves | src/UnoGame.jsx:263-271 | The computer's wild keeps the session's cards |
| Rules.ComputerColoredMoves | src/UnoGame.jsx:285-287 | A coloured card the computer plays goes through playCard: it leaves the hand once for the discard pile with its own colour; the computer wins iff its hand empties, and otherwise skip and draw2 keep the turn and any other card passes it to the player |
| Rules.ComputerWildMoves | src/UnoGame.jsx:263-283 | The computer's wild takes exactly that card from its hand; it has won iff its hand is now empty, and otherwise the player moves |
| Rules.ComputerPlays | src/UnoGame.jsx:260-287 | Definition of the branch on the picked card: a wild is played directly with the picked colour, any other card through playCard. Stated by Rules.ComputerPlaysMoves |
| Rules.ComputerPlaysMoves | src/UnoGame.jsx:259-288 | Whatever card the computer plays lands on the discard pile and leaves its hand once; the colour is the card's own or the picked one for a wild; a wild4 feeds the player from the deck front; the computer wins iff its hand empties; otherwise a wild hands the turn to the player, skip and draw2 keep it with the computer, and any other card passes it to the player |
| Rules.ComputerPlay | src/UnoGame.jsx:249-300 | Definition: the scheduled call runs, clearing `computerDue`, and makes the computer's move. Stated by Rules.ComputerPlayMoves |
| Rules.ComputerMove | src/UnoGame.jsx:249-300 | Definition of the body of computerPlay: nothing after a win; otherwise play the picked card of the pool, draw, or do nothing. Stated by Rules.ComputerPlayMoves |
| Rules.ComputerPlayMoves | src/UnoGame.jsx:249-300 | The pending call is spent. With a playable card the computer plays the picked card of its pool, which is playable; with none it draws the deck's front card, or does nothing on an empty deck |
| Rules.ComputerWildPreservesValid | src/UnoGame.jsx:260-284 | The computer's wild keeps the cards and both invariants |
| Rules.ComputerDrawPreservesValid | src/UnoGame.jsx:290-297 | The computer's draw keeps the cards and both invariants |
| Rules.ComputerPlayPreservesValid | src/UnoGame.jsx:249-300 | The scheduled computerPlay call keeps the cards and both invariants |
| Rules.StuckPoolEmpty | src/UnoGame.jsx:251-252 | A computer with no playable card has an empty choice pool |
| Rules.StuckMoveIdle | src/UnoGame.jsx:250-299 | A computer with no playable card and an empty deck has an empty pool, and its move changes nothing |
| Rules.PlayerIdleOnComputerTurn | src/UnoGame.jsx:228-247 | On the computer's turn with no wild waiting, drawing, clicking a card and choosing a colour all change nothing |
| Rules.ComputerStalls | src/UnoGame.jsx:289-299 | With no playable card and an empty deck, the computer's scheduled move only spends the call. The computer stays to move and stuck, and the player's draw, any card click and any colour choice change nothing: the game stops |
| Session.UnoSession.constructor | src/UnoGame.jsx:106-117 | The cells start at their initial values |
| Session.UnoSession.TakeFromDeck | src/UnoGame.jsx:196-198 | The counted loop appends min(n, deck size) deck-front cards to the hand and drops them from the deck; no other cell changes |
| Session.UnoSession.DealTo | src/UnoGame.jsx:151-153 | The cells become the counted draw transition for the chosen hand |
| Session.UnoSession.StartGame | src/UnoGame.jsx:119-133 | The cells become the deal of some full standard deck |
| Session.UnoSession.Deal | src/UnoGame.jsx:121-132 | The cells become the deal of the given deck |
| Session.UnoSession.PlayCard | src/UnoGame.jsx:173-226 | The cells become the playCard transition |
| Session.UnoSession.RemoveFromHand | src/UnoGame.jsx:184 | Only the actor's hand changes: it loses the cards with the played card's id |
| Session.UnoSession.ApplyEffect | src/UnoGame.jsx:185-203 | The cells take the card's effect; the flag returned is set iff the card is skip or draw2 |
| Session.UnoSession.PassTurn | src/UnoGame.jsx:204-225 | The cells take the win check and the handoff |
| Session.UnoSession.HandlePlayerCard | src/UnoGame.jsx:228-235 | The cells become the click transition, which ignores clicks while a wild is pending |
| Session.UnoSession.SelectWildColor | src/UnoGame.jsx:141-171 | The cells become the corrected colour-choice transition: its win check, and computerPlay scheduled when the turn passes to the computer |
| Session.UnoSession.ResolveWild | src/UnoGame.jsx:144-164 | The colour is set, the pending card is discarded and a wild4 feeds the opponent |
| Session.UnoSession.DrawCard | src/UnoGame.jsx:237-247 | The cells become the player's draw transition |
| Session.UnoSession.ComputerPlay | src/UnoGame.jsx:249-300 | The cells become the scheduled call's transition for the given picks |
| Session.UnoSession.FireComputer | src/UnoGame.jsx:168 | The pending computerPlay call is spent; no other cell changes |
| Session.UnoSession.ComputerMove | src/UnoGame.jsx:250-299 | The cells become the computer's move for the given picks |
| Session.UnoSession.ComputerWild | src/UnoGame.jsx:260-284 | The cells become the computer's wild |
| Session.UnoSession.ComputerWildHandoff | src/UnoGame.jsx:276-284 | With one card held before the wild the computer wins; otherwise the player moves; no other cell changes |
| Session.UnoSession.PlaceWild | src/UnoGame.jsx:263-265 | The computer's wild leaves its hand for the discard pile with the chosen colour; nothing else changes |
| Session.UnoSession.ComputerDraw | src/UnoGame.jsx:290-297 | The cells become the computer's draw |

## Left out

- **Messages and the picker flag.** The `message` and `showColorPicker`
  cells, and every `setMessage` call, are presentation. `showColorPicker`
  always matches whether `pendingWildCard` is set.
- **Timing.** The `setTimeout` delays are not modelled. A handler's chain of
  steps is one atomic transition. A `computerPlay` call it schedules is not
  run as part of it: the flag `computerDue` records it, and the call is a
  transition of its own.
- **More than one pending call.** `computerDue` is a flag, so two calls
  scheduled at once count as one. Under the scheduling invariant this does
  not happen.
- **Interleavings and stale closures.** Clicks landing between scheduled
  steps, and the state a delayed step captured, are not modelled. The one
  exception is the hand size read by the win check, which is taken from
  before the play. In the source, a delayed `computerPlay` reads the cells
  of the render in which the player moved. After `drawCard`, the computer's
  draw can take the card the player just drew, so both hands hold it. After
  a coloured play, the computer's discard can be written over a pile that
  lacks that card. So the conservation lemmas (`*Conserves`,
  `*PreservesValid`) describe the model, not the source as written.
- **Updater functions.** React may run an updater function twice; draw2's
  hand updater runs `deck.shift()` inside one. The model takes one run.
- **Randomness.** `Math.random` is not modelled. Its three uses are the
  parameters `picks`, `pick` and `colorPick`.
- **Rendering.** The JSX rendering, the card component and the styling are
  not modelled.
- **What the screen lets a user do.** The lemmas take it as their
  preconditions:
  - Cards can only be clicked in the player's hand.
  - The colour picker covers the draw pile, so the invariant lemma for
    `drawCard` assumes no wild is pending.
  - "Start Game" and "Play Again" are only offered before a game or after a
    win (`StartGameDeals`).
- **Direction.** `direction` is kept, flipped and proved to stay ±1. With two
  seats it never changes who moves.
- Rules.ChoicePool: its own contract states only that the pool holds playable
  cards of the hand. The preference for action cards is stated by
  `Rules.ChoicePoolPrefersActions`.
- Session.UnoSession.StartGame, Session.UnoSession.PlayCard and the other
  class methods: they state the new cells as a `Rules` transition of the old
  ones. They do not restate the session invariant; the `Rules` lemmas prove
  that instead.

## Findings

| source | as written | input that shows it | evidently intended | confidence | as-written member | corrected member |
|---|---|---|---|---|---|---|
| src/UnoGame.jsx:228-235 | `handlePlayerCard` does not check `pendingWildCard`. The colour picker overlays only the middle panel, so the hand stays clickable. A second wild then overwrites the pending one, and that card leaves the game. | The player holds two wilds, plays one and, before choosing a colour, clicks the other: the session holds 107 cards | Clicks are ignored while a wild waits for its colour; every click keeps the full deck and the invariant | medium; not executed | Rules.PendingWildLostAsWritten | Rules.HandlePlayerCardPreservesValid |
| src/UnoGame.jsx:165-169 | `selectWildColor` passes the turn without a win check. The other play paths (lines 205-213 and 277-279) have one. | The player's last card is a wild or wild4: after the colour is chosen the hand is empty, nobody has won and the computer is the side to move | The player who empties the hand with a wild wins | high; not executed | Rules.WildWinMissedAsWritten | Rules.SelectWildColorEffect |
| src/UnoGame.jsx:165-169 | After a colour choice, `computerPlay` is scheduled only `if (!fromPlayer)` (line 168). Only the player's wilds ever wait for a colour, so the call is never scheduled. `handlePlayerCard` (line 229) and `drawCard` (line 238) return at once on the computer's turn, and "Play Again" (line 369) needs a winner. | The player plays any wild that is not the last card and chooses a colour: the computer is to move, no call is scheduled, and every control does nothing | Passing the turn to the computer schedules its move, as lines 217 and 245 do | high; not executed | Rules.ComputerNeverCalledAsWritten | Rules.SelectWildColorPreservesValid |
