/**
 * Drawing replacements into one player's hand: the current `replaceCards`
 * (client/src/utils/game/replaceCards.ts), which pops the caller's deck in
 * place and throws once it is empty, and the legacy one
 * (client/src/utils/card/replaceCards.ts), which pops a copy and writes
 * `undefined` once the copy runs out.
 *
 * A hand is a JavaScript array of cards, so a position can be a hole:
 * hands are `seq<Option<T>>`, with `None` for `undefined`.
 */
module Replacing {
  import opened Wrappers
  import opened Piles

  /** What the current replaceCards throws: no hand at `playerIndex` to copy, or an empty deck when a card is due. */
  datatype ReplaceError = NoSuchPlayer | DeckExhausted

  /** The hand after the loop and the deck left over. */
  datatype Replaced<T> = Replaced(hand: seq<Option<T>>, deck: seq<T>)

  /** What the legacy replaceCards returns. */
  datatype Replacement<T> = Replacement(updatedPlayers: seq<seq<Option<T>>>, updatedDeck: seq<T>)

  /** Reading position `p` of a JavaScript array: past the end it is `undefined`. */
  function At<T>(hand: seq<Option<T>>, p: nat): Option<T>
  {
    if p < |hand| then hand[p] else None
  }

  /**
   * `hand[index] = v`: a position past the end grows the array, leaving holes
   * in between; a negative index sets a property, not an element.
   */
  function Write<T>(hand: seq<Option<T>>, index: int, v: Option<T>): (h: seq<Option<T>>)
    ensures index < 0 ==> h == hand
    ensures 0 <= index ==> |h| == (if index < |hand| then |hand| else index + 1) && h[index] == v
    ensures forall p :: 0 <= p < |h| && p != index ==> h[p] == At(hand, p)
  {
    if index < 0 then hand
    else if index < |hand| then hand[index := v]
    else hand + seq(index - |hand|, _ => None) + [v]
  }

  /** The card the `j`-th pop returns: counted from the end of the deck, `undefined` once it is used up. */
  function Drawn<T>(deck: seq<T>, j: nat): Option<T>
  {
    if j < |deck| then Some(deck[|deck| - 1 - j]) else None
  }

  /** The deck after one pop. */
  function Popped<T>(deck: seq<T>): seq<T>
  {
    if deck == [] then [] else deck[..|deck| - 1]
  }

  /**
   * The replacement loop with a pop that may come back empty: position
   * `indices[j]` receives the `j`-th pop, in list order.
   */
  function Fill<T>(hand: seq<Option<T>>, deck: seq<T>, indices: seq<int>): Replaced<T>
    decreases |indices|
  {
    if indices == [] then Replaced(hand, deck)
    else Fill(Write(hand, indices[0], Drawn(deck, 0)), Popped(deck), indices[1..])
  }

  /** The hand's length after writing `indices` into an array of length `len`. */
  function Reach(len: nat, indices: seq<int>): nat
    decreases |indices|
  {
    if indices == [] then len
    else Reach(if indices[0] >= len then indices[0] + 1 else len, indices[1..])
  }

  lemma DrawnPopped<T>(deck: seq<T>, j: nat)
    ensures Drawn(Popped(deck), j) == Drawn(deck, j + 1)
  {
  }

  /** The deck loses its last |indices| cards, or all of them. */
  lemma {:induction false} FillDeck<T>(hand: seq<Option<T>>, deck: seq<T>, indices: seq<int>)
    ensures Fill(hand, deck, indices).deck == deck[..|deck| - Min(|indices|, |deck|)]
    decreases |indices|
  {
    if indices != [] {
      FillDeck(Write(hand, indices[0], Drawn(deck, 0)), Popped(deck), indices[1..]);
    }
  }

  /** The hand grows only to reach the largest index written. */
  lemma {:induction false} FillLength<T>(hand: seq<Option<T>>, deck: seq<T>, indices: seq<int>)
    ensures |Fill(hand, deck, indices).hand| == Reach(|hand|, indices)
    ensures |hand| <= |Fill(hand, deck, indices).hand|
    ensures (forall k :: k in indices ==> k < |hand|) ==> |Fill(hand, deck, indices).hand| == |hand|
    decreases |indices|
  {
    if indices != [] {
      var h := Write(hand, indices[0], Drawn(deck, 0));
      FillLength(h, Popped(deck), indices[1..]);
      if forall k :: k in indices ==> k < |hand| {
        assert indices[0] in indices;
        assert forall k :: k in indices[1..] ==> k in indices;
      }
    }
  }

  /** A position that is not listed keeps its card, or stays a hole. */
  lemma {:induction false} FillKeeps<T>(hand: seq<Option<T>>, deck: seq<T>, indices: seq<int>, p: nat)
    requires p !in indices && p < |Fill(hand, deck, indices).hand|
    ensures Fill(hand, deck, indices).hand[p] == At(hand, p)
    decreases |indices|
  {
    if indices != [] {
      var h := Write(hand, indices[0], Drawn(deck, 0));
      assert indices[0] in indices;
      assert p !in indices[1..];
      FillKeeps(h, Popped(deck), indices[1..], p);
      FillLength(h, Popped(deck), indices[1..]);
      assert At(h, p) == At(hand, p);
    }
  }

  /** A listed position ends with the card of the last pop written there. */
  lemma {:induction false} FillWrites<T>(hand: seq<Option<T>>, deck: seq<T>, indices: seq<int>, j: nat)
    requires j < |indices| && 0 <= indices[j] && indices[j] !in indices[j + 1..]
    ensures indices[j] < |Fill(hand, deck, indices).hand|
    ensures Fill(hand, deck, indices).hand[indices[j]] == Drawn(deck, j)
    decreases |indices|
  {
    var h := Write(hand, indices[0], Drawn(deck, 0));
    FillLength(h, Popped(deck), indices[1..]);
    if j == 0 {
      FillKeeps(h, Popped(deck), indices[1..], indices[0]);
    } else {
      assert indices[1..][j - 1..][1..] == indices[j + 1..];
      FillWrites(h, Popped(deck), indices[1..], j - 1);
      DrawnPopped(deck, j - 1);
    }
  }

  /**
   * replaceCards: copies the hand at `playerIndex`, then for each listed
   * position throws if the caller's deck is empty and otherwise pops its last
   * card into that position; every other hand is returned as it was, and the
   * deck returned is the caller's, popped.
   */
  method ReplaceCards<T>(players: seq<seq<Option<T>>>, deck: Pile<T>, playerIndex: int, cardIndices: seq<int>)
    returns (r: Result<seq<seq<Option<T>>>, ReplaceError>, updatedDeck: Pile<T>)
    modifies deck
    ensures updatedDeck == deck
    ensures !(0 <= playerIndex < |players|) ==> r == Failure(NoSuchPlayer) && deck.cards == old(deck.cards)
    ensures 0 <= playerIndex < |players| && |cardIndices| > |old(deck.cards)| ==>
      r == Failure(DeckExhausted) && deck.cards == []
    ensures 0 <= playerIndex < |players| && |cardIndices| <= |old(deck.cards)| ==>
      && r == Success(players[playerIndex := Fill(players[playerIndex], old(deck.cards), cardIndices).hand])
      && deck.cards == old(deck.cards)[..|old(deck.cards)| - |cardIndices|]
  {
    updatedDeck := deck;
    if !(0 <= playerIndex < |players|) {
      return Failure(NoSuchPlayer), updatedDeck;
    }
    var newHand := players[playerIndex];
    var k := 0;
    while k < |cardIndices|
      invariant 0 <= k <= |cardIndices| && k <= |old(deck.cards)|
      invariant deck.cards == old(deck.cards)[..|old(deck.cards)| - k]
      invariant Fill(players[playerIndex], old(deck.cards), cardIndices) == Fill(newHand, deck.cards, cardIndices[k..])
    {
      if deck.cards == [] {
        return Failure(DeckExhausted), updatedDeck;
      }
      ghost var before := deck.cards;
      var top := deck.Pop();
      assert top == Drawn(before, 0) && deck.cards == Popped(before);
      assert cardIndices[k..][1..] == cardIndices[k + 1..];
      newHand := Write(newHand, cardIndices[k], top);
      k := k + 1;
    }
    return Success(players[playerIndex := newHand]), updatedDeck;
  }

  /**
   * The legacy replaceCards: the same loop on a copy of the deck with no
   * empty check, so a position drawn after the copy runs out gets
   * `undefined`; the caller's deck is left alone.
   */
  method LegacyReplaceCards<T>(players: seq<seq<Option<T>>>, deck: Pile<T>, playerIndex: int, cardIndices: seq<int>)
    returns (r: Result<Replacement<T>, ReplaceError>)
    ensures !(0 <= playerIndex < |players|) ==> r == Failure(NoSuchPlayer)
    ensures 0 <= playerIndex < |players| ==>
      var f := Fill(players[playerIndex], deck.cards, cardIndices);
      r == Success(Replacement(players[playerIndex := f.hand], f.deck))
  {
    if !(0 <= playerIndex < |players|) {
      return Failure(NoSuchPlayer);
    }
    var newDeck := new Pile(deck.cards);
    var newHand := players[playerIndex];
    var k := 0;
    while k < |cardIndices|
      invariant 0 <= k <= |cardIndices|
      invariant Fill(players[playerIndex], deck.cards, cardIndices) == Fill(newHand, newDeck.cards, cardIndices[k..])
    {
      ghost var before := newDeck.cards;
      var top := newDeck.Pop();
      assert top == Drawn(before, 0) && newDeck.cards == Popped(before);
      assert cardIndices[k..][1..] == cardIndices[k + 1..];
      newHand := Write(newHand, cardIndices[k], top);
      k := k + 1;
    }
    return Success(Replacement(players[playerIndex := newHand], newDeck.cards));
  }

  /**
   * With the deck `[Q, K, A]` and positions `[1, 3]`, position 1 gets A,
   * position 3 gets K, the other positions keep their cards and Q is left.
   */
  lemma DrawFromTheEnd()
    ensures var hand := [Some("2S"), Some("3S"), Some("4S"), Some("5S"), Some("6S")];
      Fill(hand, ["Q", "K", "A"], [1, 3]) ==
      Replaced([Some("2S"), Some("A"), Some("4S"), Some("K"), Some("6S")], ["Q"])
  {
    var hand := [Some("2S"), Some("3S"), Some("4S"), Some("5S"), Some("6S")];
    var deck := ["Q", "K", "A"];
    assert Popped(deck) == ["Q", "K"];
    assert Popped(["Q", "K"]) == ["Q"];
    assert [1, 3][1..] == [3];
    assert [3][1..] == [];
  }
}
