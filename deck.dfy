/** The deck builder: the 108 standard cards, pushed in a fixed order by
    nested loops and then put into an arbitrary order. */
module Deck {
  import opened Cards

  /** The values a coloured card may carry: '0'..'9', 'skip', 'reverse', 'draw2'. */
  predicate IsSuitedValue(v: Value) {
    (v.Number? && v.digit <= 9) || v == Skip || v == Reverse || v == Draw2
  }

  /** The make-up of the standard deck, one card at a time: every colour has
      copy 1 of each suited value and copy 2 of each except '0'; there are
      wild and wild4 cards with indexes 0..3. Each id names its own card. */
  predicate IsStandardCard(card: Card) {
    match card.id
    case SuitedId(c, v, k) =>
      card.color == c && card.value == v && c != Wild && IsSuitedValue(v)
      && (k == 1 || (k == 2 && v != Number(0)))
    case WildId(v, i) =>
      card.color == Wild && card.value == v && (v == WildValue || v == Wild4) && i < 4
  }

  /** A collection holds every standard card exactly once and nothing else. */
  ghost predicate IsFullDeck(s: seq<Card>) {
    && |s| == 108
    && forall card :: multiset(s)[card] == if IsStandardCard(card) then 1 else 0
  }

  lemma StandardIdsUnique(m: multiset<Card>)
    requires forall card :: m[card] == if IsStandardCard(card) then 1 else 0
    ensures UniqueIds(m)
  {
  }

  /** A valid shuffle: at step i one of the n - i cards still left is picked. */
  predicate ValidPicks(picks: seq<nat>, n: nat) {
    |picks| == n && forall i :: 0 <= i < n ==> picks[i] < n - i
  }

  /** The random-comparator sort as an arbitrary permutation: take the
      picked card out of those left, then shuffle the rest. */
  function Shuffle<T>(s: seq<T>, picks: seq<nat>): (r: seq<T>)
    requires ValidPicks(picks, |s|)
    ensures |r| == |s| && multiset(r) == multiset(s)
    decreases |s|
  {
    if s == [] then []
    else
      var k := picks[0];
      assert s == s[..k] + [s[k]] + s[k+1..];
      var rest := s[..k] + s[k+1..];
      assert ValidPicks(picks[1..], |rest|) by {
        forall i | 0 <= i < |rest| ensures picks[1..][i] < |rest| - i {
          assert picks[i + 1] < |s| - (i + 1);
        }
      }
      [s[k]] + Shuffle(rest, picks[1..])
  }

  lemma RemoveAt<T>(s: seq<T>, k: nat)
    requires k < |s|
    ensures multiset(s[..k] + s[k+1..]) == multiset(s) - multiset{s[k]}
  {
    assert s == s[..k] + [s[k]] + s[k+1..];
  }

  /** Picking index k first, then p among the rest. */
  lemma ShuffleCons<T>(s: seq<T>, k: nat, p: seq<nat>)
    requires k < |s| && ValidPicks(p, |s| - 1)
    ensures ValidPicks([k] + p, |s|)
    ensures Shuffle(s, [k] + p) == [s[k]] + Shuffle(s[..k] + s[k+1..], p)
  {
    var picks := [k] + p;
    forall i | 0 <= i < |s| ensures picks[i] < |s| - i {
      if i > 0 {
        assert picks[i] == p[i - 1];
      }
    }
    assert picks[1..] == p;
  }

  /** Where the first card of a reordering sits in the original order. */
  lemma FindFirst<T>(s: seq<T>, t: seq<T>) returns (k: nat)
    requires multiset(t) == multiset(s) && s != []
    ensures k < |s| && |t| == |s| && s[k] == t[0]
    ensures multiset(s[..k] + s[k+1..]) == multiset(t[1..])
  {
    assert |t| == |multiset(t)| == |s|;
    k := IndexOf(s, t[0]);
    RemoveAt(s, k);
    RemoveAt(t, 0);
    assert t[..0] + t[1..] == t[1..];
  }

  /** An element of a sequence's multiset sits at some index. */
  lemma IndexOf<T>(s: seq<T>, x: T) returns (k: nat)
    requires x in multiset(s)
    ensures k < |s| && s[k] == x
  {
    k :| 0 <= k < |s| && s[k] == x;
  }

  /** Every order of the cards is the outcome of some picks: the model does
      not restrict which permutation the shuffle produces. */
  lemma {:induction false} ShuffleReachesEveryOrder<T>(s: seq<T>, t: seq<T>) returns (picks: seq<nat>)
    requires multiset(t) == multiset(s)
    ensures ValidPicks(picks, |s|) && Shuffle(s, picks) == t
    decreases |s|
  {
    if s == [] {
      assert |t| == |multiset(t)| == 0;
      picks := [];
    } else {
      var k := FindFirst(s, t);
      var p := ShuffleReachesEveryOrder(s[..k] + s[k+1..], t[1..]);
      ShuffleCons(s, k, p);
      assert t == [t[0]] + t[1..];
      picks := [k] + p;
    }
  }

  function SuitIndex(c: Color): nat {
    match c
    case Red => 0
    case Blue => 1
    case Green => 2
    case Yellow => 3
    case Wild => 4
  }

  function ValueIndex(v: Value): nat {
    match v
    case Number(d) => d
    case Skip => 10
    case Reverse => 11
    case Draw2 => 12
    case WildValue => 13
    case Wild4 => 14
  }

  /** The standard cards createDeck has pushed once its colour loop has done
      `suits` colours and its value loop `values` values of the next colour. */
  predicate PushedSuited(card: Card, suits: nat, values: nat) {
    IsStandardCard(card) && card.color != Wild
    && (SuitIndex(card.color) < suits || (SuitIndex(card.color) == suits && ValueIndex(card.value) < values))
  }

  /** The standard wild cards pushed once the wild loop has done `count` rounds. */
  predicate PushedWild(card: Card, count: nat) {
    IsStandardCard(card) && (card.color != Wild || card.id.index < count)
  }

  /** Suits and Values list each colour and suited value at its index. */
  lemma IndexesOfLists()
    ensures forall i :: 0 <= i < |Suits| ==> Suits[i] != Wild && SuitIndex(Suits[i]) == i
    ensures forall j :: 0 <= j < |Values| ==> IsSuitedValue(Values[j]) && ValueIndex(Values[j]) == j
  {
  }

  /** One round of the value loop: the copies of (c, v) are pushed. */
  lemma PushValueStep(built: seq<Card>, c: Color, v: Value, next: seq<Card>)
    requires c != Wild && IsSuitedValue(v)
    requires forall card :: multiset(built)[card] == (if PushedSuited(card, SuitIndex(c), ValueIndex(v)) then 1 else 0)
    requires next == built + [Card(c, v, SuitedId(c, v, 1))]
                    + (if v != Number(0) then [Card(c, v, SuitedId(c, v, 2))] else [])
    ensures forall card :: multiset(next)[card] == (if PushedSuited(card, SuitIndex(c), ValueIndex(v) + 1) then 1 else 0)
  {
    var i, j := SuitIndex(c), ValueIndex(v);
    forall card ensures multiset(next)[card] == (if PushedSuited(card, i, j + 1) then 1 else 0) {
      if PushedSuited(card, i, j + 1) && !PushedSuited(card, i, j) {
        assert card.color == c && card.value == v;
        assert card == Card(c, v, SuitedId(c, v, card.id.copy));
      }
    }
  }

  /** createDeck: push the coloured cards colour by colour and value by value,
      then the wild cards, and shuffle. */
  method CreateDeck(picks: seq<nat>) returns (deck: seq<Card>)
    requires ValidPicks(picks, 108)
    ensures IsFullDeck(deck)
    ensures UniqueIds(multiset(deck))
  {
    IndexesOfLists();
    var built: seq<Card> := [];
    for i := 0 to |Suits|
      invariant |built| == 25 * i
      invariant forall card :: multiset(built)[card] == (if PushedSuited(card, i, 0) then 1 else 0)
    {
      var color := Suits[i];
      for j := 0 to |Values|
        invariant |built| == 25 * i + 2 * j - (if j > 0 then 1 else 0)
        invariant forall card :: multiset(built)[card] == (if PushedSuited(card, i, j) then 1 else 0)
      {
        var value := Values[j];
        ghost var before := built;
        built := built + [Card(color, value, SuitedId(color, value, 1))];
        if value != Number(0) {
          built := built + [Card(color, value, SuitedId(color, value, 2))];
        }
        PushValueStep(before, color, value, built);
      }
      assert forall card :: PushedSuited(card, i, |Values|) == PushedSuited(card, i + 1, 0);
    }
    for i := 0 to 4
      invariant |built| == 100 + 2 * i
      invariant forall card :: multiset(built)[card] == (if PushedWild(card, i) then 1 else 0)
    {
      built := built + [Card(Wild, WildValue, WildId(WildValue, i))];
      built := built + [Card(Wild, Wild4, WildId(Wild4, i))];
    }
    deck := Shuffle(built, picks);
    StandardIdsUnique(multiset(deck));
  }
}
