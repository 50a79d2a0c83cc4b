/** Cards of the UNO game: colours, values, identities, and the card-level
    rules (legality of a play, which values count as action cards, and the
    filters the engine applies to a hand). */
module Cards {

  datatype Option<T> = None | Some(value: T)

  /** 'red', 'blue', 'green', 'yellow' and 'wild'. */
  datatype Color = Red | Blue | Green | Yellow | Wild

  /** '0'..'9', 'skip', 'reverse', 'draw2', 'wild' and 'wild4'. */
  datatype Value = Number(digit: nat) | Skip | Reverse | Draw2 | WildValue | Wild4

  /** The card's id string: `${color}-${value}-${copy}` for a coloured card,
      `wild-${index}` or `wild4-${index}` for a wild one, kept as its parts. */
  datatype CardId = SuitedId(color: Color, value: Value, copy: nat) | WildId(value: Value, index: nat)

  datatype Card = Card(color: Color, value: Value, id: CardId)

  /** The four colours, in the order the deck builder and the colour picker list them. */
  const Suits: seq<Color> := [Red, Blue, Green, Yellow]

  /** The thirteen values every colour carries, in the deck builder's order. */
  const Values: seq<Value> :=
    [Number(0), Number(1), Number(2), Number(3), Number(4), Number(5), Number(6),
     Number(7), Number(8), Number(9), Skip, Reverse, Draw2]

  /** The values the computer prefers to play. */
  predicate IsAction(v: Value) {
    v == Skip || v == Reverse || v == Draw2 || v == Wild4
  }

  /** isPlayable: a wild card is always legal; any other card must match the
      current colour or the value of the top discard. */
  predicate IsPlayable(card: Card, top: Card, currentColor: Option<Color>) {
    card.color == Wild || Some(card.color) == currentColor || card.value == top.value
  }

  /** No two cards of a collection share an id, and no card occurs twice. */
  ghost predicate UniqueIds(m: multiset<Card>) {
    && (forall c :: c in m ==> m[c] == 1)
    && (forall a, b :: a in m && b in m && a.id == b.id ==> a == b)
  }

  lemma UniqueIdsSub(small: multiset<Card>, big: multiset<Card>)
    requires small <= big && UniqueIds(big)
    ensures UniqueIds(small)
  {
    forall c | c in small ensures small[c] == 1 {
      assert c in big;
    }
  }

  /** `hand.filter(c => c.id !== id)`: every card whose id is `id` goes, every
      other card stays with its multiplicity. */
  function RemoveById(hand: seq<Card>, id: CardId): (r: seq<Card>)
    ensures forall c :: multiset(r)[c] == if c.id == id then 0 else multiset(hand)[c]
    ensures forall c :: c in r <==> c in hand && c.id != id
  {
    if hand == [] then []
    else
      assert hand == [hand[0]] + hand[1..];
      var rest := RemoveById(hand[1..], id);
      if hand[0].id != id then [hand[0]] + rest else rest
  }

  /** Removing a card that is in a hand of unique ids takes out exactly that card. */
  lemma RemoveCardExactly(hand: seq<Card>, card: Card)
    requires card in hand && UniqueIds(multiset(hand))
    ensures multiset(RemoveById(hand, card.id)) == multiset(hand) - multiset{card}
    ensures multiset(RemoveById(hand, card.id)) + multiset{card} == multiset(hand)
    ensures |RemoveById(hand, card.id)| == |hand| - 1
  {
    var r := RemoveById(hand, card.id);
    forall c ensures multiset(r)[c] == (multiset(hand) - multiset{card})[c] {
      if c.id == card.id && c in hand {
        assert c == card;
      }
    }
    assert multiset(r) == multiset(hand) - multiset{card};
    assert |multiset(r)| == |multiset(hand)| - 1;
  }

  /** `hand.filter(isPlayable)`. */
  function PlayableCards(hand: seq<Card>, top: Card, currentColor: Option<Color>): (r: seq<Card>)
    ensures forall c :: c in r <==> c in hand && IsPlayable(c, top, currentColor)
    ensures multiset(r) <= multiset(hand)
  {
    if hand == [] then []
    else
      assert hand == [hand[0]] + hand[1..];
      var rest := PlayableCards(hand[1..], top, currentColor);
      if IsPlayable(hand[0], top, currentColor) then [hand[0]] + rest else rest
  }

  /** The computer's second filter: the cards whose value is an action value. */
  function ActionCards(cards: seq<Card>): (r: seq<Card>)
    ensures forall c :: c in r <==> c in cards && IsAction(c.value)
    ensures multiset(r) <= multiset(cards)
  {
    if cards == [] then []
    else
      assert cards == [cards[0]] + cards[1..];
      var rest := ActionCards(cards[1..]);
      if IsAction(cards[0].value) then [cards[0]] + rest else rest
  }
}
