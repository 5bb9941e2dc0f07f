/**
 * Dealing five-card hands off a shuffled deck: the current
 * `shuffleAndDealCards` (client/src/utils/game/shuffleAndDealCards.ts), which
 * reorders and consumes the caller's array, and the legacy `dealCards`
 * (client/src/utils/card/dealCards.ts), which deals from a copy and returns the
 * hands only. The shuffle is any permutation of the deck, passed in.
 */
module Dealing {
  import opened Piles
  import opened Deck

  /** The hands dealt and the cards left over. */
  datatype Dealt<T> = Dealt(hands: seq<seq<T>>, rest: seq<T>)

  /** Where hand `i` starts in a deck of `len` cards: position 5i, or the end of the deck. */
  function Cut(i: nat, len: nat): nat
  {
    Min(5 * i, len)
  }

  /** Hand `i`: positions 5i .. 5i+4 of `cards`, cut short at its end. */
  function Hand<T>(cards: seq<T>, i: nat): seq<T>
  {
    cards[Cut(i, |cards|)..Cut(i + 1, |cards|)]
  }

  /**
   * What `Array.from({ length: n }, () => cards.splice(0, 5))` deals: hand `i`
   * is positions 5i .. 5i+4 of `cards`, cut short at its end, and the rest is
   * everything from position 5n on.
   */
  function Deal<T>(cards: seq<T>, n: nat): (d: Dealt<T>)
    ensures |d.hands| == n
  {
    Dealt(seq(n, i requires 0 <= i => Hand(cards, i)), cards[Cut(n, |cards|)..])
  }

  /** The hands one after the other. */
  function Flatten<T>(hands: seq<seq<T>>): seq<T>
  {
    if hands == [] then [] else Flatten(hands[..|hands| - 1]) + hands[|hands| - 1]
  }

  /** One splice of five from what is left after `i` hands takes exactly hand `i`. */
  lemma NextCut(i: nat, len: nat)
    ensures Cut(i, len) + Min(5, len - Cut(i, len)) == Cut(i + 1, len)
  {
  }

  /** Splicing five cards off what is left after `i` hands takes hand `i` and leaves what is left after `i + 1`. */
  lemma SpliceStep<T>(cards: seq<T>, i: nat, hand: seq<T>, after: seq<T>)
    requires hand + after == cards[Cut(i, |cards|)..]
    requires |hand| == Min(5, |cards| - Cut(i, |cards|))
    ensures hand == Hand(cards, i)
    ensures after == cards[Cut(i + 1, |cards|)..]
  {
    var before := cards[Cut(i, |cards|)..];
    NextCut(i, |cards|);
    assert hand == before[..|hand|] && after == before[|hand|..];
  }

  /** A prefix one longer is the prefix and the next element. */
  lemma PrefixExtends<T>(s: seq<T>, i: nat)
    requires i < |s|
    ensures s[..i + 1] == s[..i] + [s[i]]
  {
  }

  /** The first `i` hands, one after the other, are the deck up to where hand `i` starts. */
  lemma {:induction false} DealPrefix<T>(cards: seq<T>, n: nat, i: nat)
    requires i <= n
    ensures Flatten(Deal(cards, n).hands[..i]) == cards[..Cut(i, |cards|)]
  {
    var hands := Deal(cards, n).hands;
    if i > 0 {
      DealPrefix(cards, n, i - 1);
      assert hands[..i][..i - 1] == hands[..i - 1];
      assert cards[..Cut(i, |cards|)] == cards[..Cut(i - 1, |cards|)] + hands[i - 1];
    }
  }

  /** Every hand has at most five cards; with at least five per player, exactly five, and the rest is what is left. */
  lemma DealSizes<T>(cards: seq<T>, n: nat)
    ensures forall i :: 0 <= i < n ==> |Deal(cards, n).hands[i]| <= 5
    ensures |cards| >= 5 * n ==>
      && (forall i :: 0 <= i < n ==> |Deal(cards, n).hands[i]| == 5)
      && |Deal(cards, n).rest| == |cards| - 5 * n
  {
  }

  /** The hands followed by the rest are the deck itself: no card is lost, added or moved. */
  lemma DealConserves<T>(cards: seq<T>, n: nat)
    ensures Flatten(Deal(cards, n).hands) + Deal(cards, n).rest == cards
  {
    DealPrefix(cards, n, n);
    assert Deal(cards, n).hands[..n] == Deal(cards, n).hands;
  }

  /** With a deck of distinct cards, no card is in two hands, and no dealt card is left in the rest. */
  lemma DealDisjoint<T>(cards: seq<T>, n: nat)
    requires Distinct(cards)
    ensures forall i, j, x :: 0 <= i < j < n && x in Deal(cards, n).hands[i] ==> x !in Deal(cards, n).hands[j]
    ensures forall i, x :: 0 <= i < n && x in Deal(cards, n).hands[i] ==> x !in Deal(cards, n).rest
  {
    var d := Deal(cards, n);
    forall i, j, x | 0 <= i < j < n && x in d.hands[i] ensures x !in d.hands[j] {
      assert Cut(i + 1, |cards|) <= Cut(j, |cards|);
    }
    forall i, x | 0 <= i < n && x in d.hands[i] ensures x !in d.rest {
      assert Cut(i + 1, |cards|) <= Cut(n, |cards|);
    }
  }

  /**
   * shuffleAndDealCards: the caller's array is reordered into `shuffled` and
   * then spliced five cards at a time, one hand per player; the array that is
   * returned as the remaining deck is the caller's own.
   */
  method ShuffleAndDealCards<T>(deck: Pile<T>, numPlayers: nat, shuffled: seq<T>)
    returns (dealtPlayers: seq<seq<T>>, updatedDeck: Pile<T>)
    requires multiset(shuffled) == multiset(deck.cards)
    modifies deck
    ensures updatedDeck == deck
    ensures dealtPlayers == Deal(shuffled, numPlayers).hands
    ensures deck.cards == Deal(shuffled, numPlayers).rest
    ensures multiset(Flatten(dealtPlayers) + deck.cards) == multiset(old(deck.cards))
  {
    ghost var hands := Deal(shuffled, numPlayers).hands;
    deck.cards := shuffled;
    dealtPlayers := [];
    var i := 0;
    while i < numPlayers
      invariant 0 <= i <= numPlayers && |dealtPlayers| == i
      invariant deck.cards == shuffled[Cut(i, |shuffled|)..]
      invariant dealtPlayers == hands[..i]
    {
      var hand := deck.SpliceFront(5);
      SpliceStep(shuffled, i, hand, deck.cards);
      assert hand == hands[i];
      PrefixExtends(hands, i);
      dealtPlayers := dealtPlayers + [hand];
      i := i + 1;
    }
    assert hands[..numPlayers] == hands;
    DealConserves(shuffled, numPlayers);
    updatedDeck := deck;
  }

  /**
   * The legacy dealCards: the same deal from a shuffled copy of the deck; the
   * caller's array is left alone and the leftover cards are dropped.
   */
  method DealCards<T>(deck: Pile<T>, numPlayers: nat, shuffled: seq<T>) returns (players: seq<seq<T>>)
    requires multiset(shuffled) == multiset(deck.cards)
    ensures players == Deal(shuffled, numPlayers).hands
  {
    ghost var hands := Deal(shuffled, numPlayers).hands;
    var shuffledDeck := new Pile(shuffled);
    players := [];
    var i := 0;
    while i < numPlayers
      invariant 0 <= i <= numPlayers && |players| == i
      invariant shuffledDeck.cards == shuffled[Cut(i, |shuffled|)..]
      invariant players == hands[..i]
    {
      var hand := shuffledDeck.SpliceFront(5);
      SpliceStep(shuffled, i, hand, shuffledDeck.cards);
      assert hand == hands[i];
      PrefixExtends(hands, i);
      players := players + [hand];
      i := i + 1;
    }
    assert hands[..numPlayers] == hands;
  }

  /**
   * Four players dealt from any shuffle of the full deck get five cards each,
   * no card in two hands or left over after being dealt, and 32 remain.
   */
  lemma FullDeckFourPlayers(shuffled: seq<string>)
    requires multiset(shuffled) == multiset(InitializeDeck())
    ensures |Deal(shuffled, 4).rest| == 32
    ensures forall i :: 0 <= i < 4 ==> |Deal(shuffled, 4).hands[i]| == 5
    ensures forall i, j, x :: 0 <= i < j < 4 && x in Deal(shuffled, 4).hands[i] ==> x !in Deal(shuffled, 4).hands[j]
    ensures forall i, x :: 0 <= i < 4 && x in Deal(shuffled, 4).hands[i] ==> x !in Deal(shuffled, 4).rest
  {
    InitializeDeckLayout();
    assert |shuffled| == |multiset(shuffled)| == 52;
    DealSizes(shuffled, 4);
    DistinctPermutation(InitializeDeck(), shuffled);
    DealDisjoint(shuffled, 4);
  }
}
