/**
 * A JavaScript array of cards that its owner changes in place: the deck that
 * `shuffleAndDealCards` reorders and splices and that `replaceCards` pops.
 */
module Piles {
  import opened Wrappers

  /** The smaller of two naturals. */
  function Min(a: nat, b: nat): (m: nat)
    ensures m <= a && m <= b && (m == a || m == b)
  {
    if a <= b then a else b
  }

  class Pile<T> {
    /** The array's elements, index 0 first; the end of the array is the last element. */
    var cards: seq<T>

    constructor (cards: seq<T>)
      ensures this.cards == cards
    {
      this.cards := cards;
    }

    /** `pop()`: removes and returns the last element, or `undefined` when the array is empty. */
    method Pop() returns (top: Option<T>)
      modifies this
      ensures old(cards) == [] ==> top == None && cards == []
      ensures old(cards) != [] ==> top == Some(old(cards)[|old(cards)| - 1]) && cards == old(cards)[..|old(cards)| - 1]
    {
      if cards == [] {
        top := None;
      } else {
        top := Some(cards[|cards| - 1]);
        cards := cards[..|cards| - 1];
      }
    }

    /** `splice(0, count)`: removes and returns up to `count` elements from the front. */
    method SpliceFront(count: nat) returns (taken: seq<T>)
      modifies this
      ensures taken + cards == old(cards)
      ensures |taken| == Min(count, |old(cards)|)
    {
      var k := Min(count, |cards|);
      taken := cards[..k];
      cards := cards[k..];
    }
  }
}
