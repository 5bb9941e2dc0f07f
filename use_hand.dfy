/**
 * The per-hand selection state of client/src/hooks/useHand.ts: which card
 * positions are selected, whether the hand is locked, and which positions
 * have been flipped by a replacement. The two callbacks the hook is given,
 * `onReplaceCards` and `onLockHand`, are recorded as a log of notices in the
 * order the hook makes them.
 */
module HandSelection {
  import Deck

  /** A call the hook makes to its parent. */
  datatype Notice = ReplaceRequested(playerIndex: int, cardIndices: seq<int>) | HandLocked(playerIndex: int)

  /** `prev.filter(i => i !== index)` */
  function Removed(s: seq<int>, x: int): (r: seq<int>)
    ensures forall y :: y in r <==> y in s && y != x
    ensures |r| <= |s|
  {
    if s == [] then []
    else (if s[0] == x then [] else [s[0]]) + Removed(s[1..], x)
  }

  /** `prev.includes(index) ? prev.filter(i => i !== index) : [...prev, index]` */
  function Toggled(s: seq<int>, x: int): seq<int>
  {
    if x in s then Removed(s, x) else s + [x]
  }

  /** Toggling flips the membership of the toggled index and of no other. */
  lemma ToggledMembership(s: seq<int>, x: int, y: int)
    ensures y in Toggled(s, x) <==> (if y == x then x !in s else y in s)
  {
  }

  /** Removing from a duplicate-free selection keeps it duplicate-free and in order. */
  lemma {:induction false} RemovedDistinct(s: seq<int>, x: int)
    requires Deck.Distinct(s)
    ensures Deck.Distinct(Removed(s, x))
  {
    if s != [] {
      assert Deck.Distinct(s[1..]);
      RemovedDistinct(s[1..], x);
      var head := if s[0] == x then [] else [s[0]];
      var tail := Removed(s[1..], x);
      assert s[0] !in s[1..];
      assert s[0] !in tail;
      assert Removed(s, x) == head + tail;
    }
  }

  /** Toggling never puts an index into the selection twice. */
  lemma ToggledDistinct(s: seq<int>, x: int)
    requires Deck.Distinct(s)
    ensures Deck.Distinct(Toggled(s, x))
  {
    if x in s {
      RemovedDistinct(s, x);
    }
  }

  /** Removing an index that is not there changes nothing. */
  lemma {:induction false} RemovedAbsent(s: seq<int>, x: int)
    requires x !in s
    ensures Removed(s, x) == s
  {
    if s != [] {
      RemovedAbsent(s[1..], x);
      assert s == [s[0]] + s[1..];
    }
  }

  /**
   * Toggling an index twice restores the selection: exactly, when the index
   * was not selected, and as a set when it was (it moves to the end).
   */
  lemma ToggleTwice(s: seq<int>, x: int)
    ensures x !in s ==> Toggled(Toggled(s, x), x) == s
    ensures forall y :: y in Toggled(Toggled(s, x), x) <==> y in s
  {
    if x !in s {
      assert x in s + [x];
      RemovedAbsent(s, x);
      assert forall y :: y in s + [x] && y != x ==> y in s;
      assert Removed(s + [x], x) == Removed(s, x) + Removed([x], x) by {
        RemovedConcat(s, [x], x);
      }
      assert Removed([x], x) == [];
    }
  }

  lemma {:induction false} RemovedConcat(a: seq<int>, b: seq<int>, x: int)
    ensures Removed(a + b, x) == Removed(a, x) + Removed(b, x)
  {
    if a != [] {
      RemovedConcat(a[1..], b, x);
      assert (a + b)[1..] == a[1..] + b;
    } else {
      assert a + b == b;
    }
  }

  class HandState {
    /** The player this hand belongs to. */
    const playerIndex: int
    /** The positions currently selected for replacement, in the order they were picked. */
    var selectedCards: seq<int>
    /** Whether the player has committed this hand for the round. */
    var isLocked: bool
    /** The positions whose cards were replaced, shown face down. */
    var flippedCards: seq<int>
    /** The calls made to `onReplaceCards` and `onLockHand`, oldest first. */
    var notices: seq<Notice>

    /** No position is selected twice. */
    ghost predicate Valid()
      reads this
    {
      Deck.Distinct(selectedCards)
    }

    /** The hook's first render: nothing selected, flipped or locked. */
    constructor (playerIndex: int)
      ensures Valid()
      ensures this.playerIndex == playerIndex
      ensures selectedCards == [] && !isLocked && flippedCards == [] && notices == []
    {
      this.playerIndex := playerIndex;
      selectedCards := [];
      isLocked := false;
      flippedCards := [];
      notices := [];
    }

    /** isSelection: some position is selected. */
    function IsSelection(): (b: bool)
      reads this
      ensures b <==> selectedCards != []
    {
      |selectedCards| != 0
    }

    /** toggleCardSelection: deselects a selected position, appends an unselected one. */
    method ToggleCardSelection(index: int)
      requires Valid()
      modifies this
      ensures Valid()
      ensures selectedCards == Toggled(old(selectedCards), index)
      ensures isLocked == old(isLocked) && flippedCards == old(flippedCards) && notices == old(notices)
    {
      ToggledDistinct(selectedCards, index);
      selectedCards := Toggled(selectedCards, index);
    }

    /** handleLock: locks the hand, clears the selection and tells the parent once. */
    method HandleLock()
      modifies this
      ensures Valid()
      ensures isLocked && selectedCards == []
      ensures flippedCards == old(flippedCards)
      ensures notices == old(notices) + [HandLocked(playerIndex)]
    {
      isLocked := true;
      selectedCards := [];
      notices := notices + [HandLocked(playerIndex)];
    }

    /**
     * handleReplace: asks the parent to replace the selection as it was before
     * the call, flips those positions, and locks the hand.
     */
    method HandleReplace()
      modifies this
      ensures Valid()
      ensures isLocked && selectedCards == []
      ensures flippedCards == old(flippedCards) + old(selectedCards)
      ensures notices == old(notices) + [ReplaceRequested(playerIndex, old(selectedCards)), HandLocked(playerIndex)]
    {
      var selection := selectedCards;
      notices := notices + [ReplaceRequested(playerIndex, selection)];
      selectedCards := [];
      flippedCards := flippedCards + selection;
      HandleLock();
    }

    /** handleKeepAll: clears the selection and locks the hand, requesting no replacement. */
    method HandleKeepAll()
      modifies this
      ensures Valid()
      ensures isLocked && selectedCards == []
      ensures flippedCards == old(flippedCards)
      ensures notices == old(notices) + [HandLocked(playerIndex)]
    {
      selectedCards := [];
      HandleLock();
    }

    /** handleCardClick: unlocks the hand and toggles the clicked position. */
    method HandleCardClick(index: int)
      requires Valid()
      modifies this
      ensures Valid()
      ensures !isLocked
      ensures selectedCards == Toggled(old(selectedCards), index)
      ensures flippedCards == old(flippedCards) && notices == old(notices)
    {
      isLocked := false;
      ToggleCardSelection(index);
    }

    /** The reset effect: when `wasReset` is set, clears the flipped and selected positions and unlocks. */
    method ResetEffect(wasReset: bool)
      requires Valid()
      modifies this
      ensures Valid()
      ensures wasReset ==> flippedCards == [] && selectedCards == [] && !isLocked
      ensures !wasReset ==>
        flippedCards == old(flippedCards) && selectedCards == old(selectedCards) && isLocked == old(isLocked)
      ensures notices == old(notices)
    {
      if wasReset {
        flippedCards := [];
        selectedCards := [];
        isLocked := false;
      }
    }
  }
}
